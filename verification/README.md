# A verified model of mcon and its stream layer

The repository holds a MongoDB connection manager (`src/mcon`) and a buffered byte-stream layer
(`src/stream`).  This project models the parts of both that carry state or arithmetic and proves what they
are for.  Code that changes things step by step is modelled as classes and methods with loops, each proved
against a specification function; the promises are lemmas about these functions.

- **Streams** (`Device`, `Search`, `Stream`, `StreamRun`): a read-ahead buffer with its own position over a
  device that has an offset of its own.  A device is a class that chooses itself how much one call moves,
  and which may be undependable.  Every interleaving of reads, lines, records, writes and seeks is shown to
  be a run of a plain file, and its answers to be those of an unbuffered one under an exact condition.
- **Filters** (`Brigade`, `Filter`, `FilteredStream`): bucket brigades as doubly linked lists, the winding
  loop with its two brigades that change places as function composition, and the filtered fill and write.
- **MD5** (`Md5Spec`, `Md5Rounds`, `Md5`, `Md5Example`): `Md5Spec` states sections 3.1 to 3.5 of RFC 1321; the
  next two hold the optimised functions, the unrolled rounds and the streaming context, and refine it.
- **Manager** (`LinkedLists`, `Collections`, `Text`, `ConnHash`, `Connections`, `Manager`, `Discovery`): the
  registry, the blacklist, cleanup callbacks, connection hashes and topology discovery.  The network and the
  clock are parameters; nothing is assumed about them except where a statement says so.
- **Selection** (`Selection`, `Picking`): candidate filters, the comparators, the latency window and the
  random pick.  `qsort` may be any sort and `rand` any number.
- **BSON** (`Bson`, `BsonReader`, `Packet`): the grammar of bsonspec.org version 1.0 as an encoder, the
  cursor that walks encoded documents, and the OP_QUERY packets built in a growing string and patched.
- **Memory streams and `data:` URLs** (`MemoryStream`, `DataUrl`), and **connection URIs** (`Uri`,
  `Options`), whose options are stored by what was stored before.
- **Examples** (`Examples`): documents, URLs and URIs written out.

Where the code does not meet a clean statement, the code is kept and the exact condition is proved:
detection of line ends across chunks, lines read under a stale end-of-file flag, refused seeks, filtered
fills over a buffer that is not empty, tag counting with repeated tags, regular expressions and code with
scope in BSON, `secondaryPreferred` with more than one primary, addresses repeated by reported hosts and by
renames, hashes of parts that hold separators, payloads under a length of the caller's own, `slaveOkay`
behind other options.

Places where comments in the sources and the code differ, and the code is followed: the comment on
`mongo_rp_sort_primary_preferred` says "descendingly" where the code sorts ascendingly by type
(`src/mcon/read_preference.c:382-384`); the comment on the secondary preference says the last item "is the
primary node", which holds only for one primary in the window (`src/mcon/read_preference.c:540-542`); the
`illegal URL` error of the `data:` parser cannot be raised (`src/stream/memory.c:698-702`).

## Model

| member | source | states |
|---|---|---|
| `Streams.LocateEol` | src/stream/streams.c:842-879 | with detection off it is the first CR or LF as the stream's flag says, and the flags stay; with detection on nothing is reported, and the flags stay, only if the text holds neither; what is reported is a CR or LF with no LF before it and no CR but one directly in front of it, and it fixes the flags |
| `Streams.EolDetectionAcrossChunks` | src/stream/streams.c:842-879 | detection on the bytes buffered so far agrees with detection on the whole rest of the file if and only if the buffer does not end between a CR and its LF |
| `Streams.LineIsDetermined` | src/stream/streams.c:884-996 | a prefix without an early line end that stops at a line end, at the limit or at the end of the text can only be the next line of the file |
| `Streams.LineInPrefix` | src/stream/streams.c:884-996 | the line that a buffered prefix gives is the line of the file if and only if that lies inside the prefix |
| `Streams.RecordFromPrefix` | src/stream/streams.c:1025-1111 | a delimiter found among the first buffered bytes is the first one within `maxlen` of the file, and none found with enough buffered means there is none |
| `Streams.Stream.Fill` | src/stream/streams.c:661-701 | one device call if the buffer is not enough and none otherwise; the buffered window stays the device's bytes up to the device's offset, what was unread stays in front, and a dependable device adds something unless it is at its end and says so |
| `Streams.Stream.Read` | src/stream/streams.c:703-771 | hands out the bytes of the file at the stream's position, in order and without loss, whatever was buffered; what is buffered comes without a device call, and more than one call is made for plain files only; never short on a dependable plain file before its end, and short or empty with the end-of-file flag up |
| `Streams.Stream.WriteBuffer` | src/stream/streams.c:1114-1152 | overwrites the file at the position the stream reports, not at the device's read-ahead offset, with exactly the bytes it says were taken |
| `Streams.Stream.WriteChunk` | src/stream/streams.c:1128-1149 | chunked writes join into one overwrite at the place where the write began |
| `Streams.Stream.DropReadAhead` | src/stream/streams.c:1118-1125 | the read-ahead bytes go and the device stands where the stream stands |
| `Streams.Stream.SeekDevice` | src/stream/streams.c:1304-1328 | a refused seek leaves the stream where it was if and only if nothing had been read ahead and the device is no memory buffer |
| `Streams.Stream.SkipForward` | src/stream/streams.c:1333-1345 | a forward seek by reading reaches its target or the end of the file, and the answer says which |
| `Streams.Stream.Seek` | src/stream/streams.c:1273-1350 | succeeds exactly when the device accepts the target, then stands at the target of the logical position, inside the buffer or not, with the end-of-file flag down |
| `Streams.Stream.LinePiece` | src/stream/streams.c:884-996 | what one buffer provides of a line, finished exactly if its end is there or the caller's room is filled; while the ending is detected, a CR leaves the flag for CR, an LF leaves it as it was, and text without a line end changes nothing |
| `Streams.Stream.GetLine` | src/stream/streams.c:884-996 | with the line ending known, on a dependable device, the result is the next line of the file if and only if the end-of-file flag was down or the line was read ahead; under a raised flag it is the line of the buffered bytes; a line that is all there needs no device call, and no line at all leaves the flag up; while the ending is detected, the line stops at the first line end, at the limit or at the end, and its end settles the flags |
| `Streams.Stream.SearchDelim` | src/stream/streams.c:1001-1023 | the first delimiter in the first `maxlen` buffered bytes from `skip` on |
| `Streams.Stream.Gather` | src/stream/streams.c:1037-1078 | the incremental search finds what a search from the start of all that is buffered would find |
| `Streams.Stream.GetRecord` | src/stream/streams.c:1025-1111 | exactly the bytes before the first delimiter that lies within the next `maxlen` bytes of the file, consumed with the delimiter; no delimiter is missed or split by buffering; no record leaves the flag up |
| `Search.FindInPrefix` | src/stream/streams.c:1001-1023 | the first occurrence in a prefix is the first in the whole text |
| `Search.SkipIsSound` | src/stream/streams.c:1059-1072 | after an unsuccessful search, starting `delim_len - 1` bytes before the old end still finds the first occurrence in the longer text |
| `StreamRuns.Do` | src/stream/streams.c:703-1350 | every stream operation but a seek that breaks the stream is one step of a plain file, with what a line does to the line-ending flags under detection, and the end-of-file flag up where nothing was left |
| `StreamRuns.Run` | src/stream/streams.c:703-1350 | every sequence of operations is a trace of the plain file, up to, exactly, the first refused seek after which position and device no longer agree |
| `StreamRuns.StepIsIdeal` | src/stream/streams.c:703-1350 | on a dependable seekable plain file no buffering, chunk size or short answer can be observed if and only if no line is read that a raised flag keeps from the reader |
| `StreamRuns.TraceIsIdeal` | src/stream/streams.c:703-1350 | over whole runs all answers equal those of an unbuffered file if and only if every line was at hand when it was read, and then so do contents and position |
| `StreamRuns.WelcomeIsIdeal` | src/stream/streams.c:703-1350 | the answers are ideal, and the flag is true, when no seek is out of bounds and no line is read behind a write that ended before the end of the file, unless a seek or a write up to the end came in between |
| `StreamRuns.AnswersLikeAFile` | src/stream/streams.c:703-1350 | every such run of the stream itself answers like an unbuffered file and leaves the same contents and position, whatever had been read ahead; asked of the start and the operations only |
| `StreamRuns.WriteThenReadBack` | src/stream/streams.c:1114-1350 | what is written through the stream comes back after seeking to where the write began, whatever had been read ahead, and the rest of the file is as it was |
| `StreamRuns.WriteThenLine` | src/stream/streams.c:950-1152 | a line read right behind a write is the next line of the file if and only if the flag was down before, or moving a memory stream back took it down, or there is no line |
| `StreamRuns.LineLost` | src/stream/plain_wrapper.c:325-367 | a `FILE*` that holds "a\nb\n": when reading one byte has raised the flag, a byte written over the line end hides the line behind it |
| `StreamRuns.LineBehindLine` | src/stream/streams.c:842-996 | behind a line whose end was detected, the next line is the next one of the file by that end: by CR behind a CR, and otherwise as the stream was set |
| `StreamRuns.MacLines` | src/stream/streams.c:861-865 | with detection on the lines of "a\rb\rc" are "a\r" and "b\r", however they are buffered |
| `Brigades.Brigade.Append` | src/stream/filter.c:206-222 | both chains of links spell the old buckets and then the new one; appending the tail again changes nothing |
| `Brigades.Brigade.Prepend` | src/stream/filter.c:192-204 | both chains of links spell the new bucket and then the old ones |
| `Brigades.Unlink` | src/stream/filter.c:224-238 | both chains of links spell the other buckets in their order, and the bucket is free |
| `Brigades.MakeWriteable` | src/stream/filter.c:117-139 | same bytes, nobody else's: the bucket itself if and only if it has one holder and owns its bytes, otherwise a copy for one reference |
| `Brigades.Split` | src/stream/filter.c:141-180 | the two halves together are the bytes of the whole, cut at the length |
| `Filters.WindCompose` | src/stream/streams.c:609-625 | a chain is the composition of any two parts it is cut into, up to the first filter that passes nothing on |
| `Filters.WindOfOne` | src/stream/streams.c:609-625 | a chain of one filter answers as the filter does |
| `Filters.Apply` | src/stream/streams.c:609-615 | one filter call empties the input brigade and leaves the filter's answer in the other |
| `Filters.Wind` | src/stream/streams.c:609-625 | the loop with swapped brigades leaves in the input brigade exactly what the composition of the filters produces, and the other one empty |
| `Filters.ProducedCompose` | src/stream/streams.c:588-645 | over any number of passes a chain produces what its second part produces when fed by its first |
| `Filters.ProducedConcat` | src/stream/streams.c:588-645 | passes behind passes go on from where those left the filters, and their products join |
| `Filters.ProducedOfMaps` | src/stream/streams.c:588-645 | filters that map bytes lose, repeat and reorder nothing, whatever the cuts into chunks and passes |
| `FilteredStreams.PourIn` | src/stream/streams.c:627-645 | the buckets' bytes land behind the unread bytes, in order |
| `FilteredStreams.FillRound` | src/stream/streams.c:588-660 | one device read goes through the chain into the buffer, under the flag that the read calls for |
| `FilteredStreams.FilteredFill` | src/stream/streams.c:575-660 | the buffer holds exactly what the chain produced from the bytes the device's offset moved over, one device call a pass; every pass was begun because too little was there, and too little at the end means the flag, an empty read or a failed chain; bytes unread before survive if and only if there were none |
| `FilteredStreams.ReadFiltered` | src/stream/streams.c:703-771 | what a read hands out and what stays buffered are what had been unread and what the chain made of the bytes the device moved over; the device is read if and only if the buffer is not enough and the flag is down; an empty answer, or a short one on a plain file, leaves nothing unread and means the flag, an empty read or a failed chain |
| `FilteredStreams.ReadAllFiltered` | src/stream/streams.c:703-771 | any number of reads together hand out what the chain produced over all their passes, up to what is still unread; nothing is, if the last comes back short |
| `FilteredStreams.ReadMapsToEnd` | src/stream/streams.c:588-771 | through byte maps, reads of any sizes that go on until one comes back short hand out what had been unread and the image of the whole rest of the file |
| `FilteredStreams.PourOut` | src/stream/streams.c:1191-1206 | every bucket is written where the last one ended, or sent behind it on a device that cannot seek; a dependable device gets all of it |
| `FilteredStreams.WriteFiltered` | src/stream/streams.c:1159-1218 | what the chain makes of the data overwrites the file at the stream's position, or goes out, in order and nothing else, on a device that cannot seek |
| `FilteredStreams.FilterAppend` | src/stream/filter.c:337-416 | bytes read ahead are replaced by what the new filter makes of them, or stay and the filter goes if it fails on them or reports to have consumed more than there was |
| `Md5Spec.AbsorbConcat` | src/mcon/contrib/md5.c:125-230 | whole blocks may be taken in any grouping |
| `Md5Rounds.FastIsPlain` | src/mcon/contrib/md5.c:84-87 | the optimised F and G, and H and I, are the functions of section 3.4 of RFC 1321 |
| `Md5Rounds.StepIsTurn` | src/mcon/contrib/md5.c:92-95 | the two shifts and the grouping of the sums in STEP are the operation of section 3.4 of RFC 1321 for every shift in use |
| `Md5Rounds.Rounds` | src/mcon/contrib/md5.c:125-230 | the sixty-four unrolled steps, with the registers changing places, are the four rounds of section 3.4 of RFC 1321 |
| `Md5.SetWordIsWordOf` | src/mcon/contrib/md5.c:105-119 | the portable SET reads the word of section 2 of RFC 1321 |
| `Md5.CounterAdds` | src/mcon/contrib/md5.c:247-252 | the carry test and the two additions add the size to the count modulo 2^61 held in 29 and 32 bits |
| `Md5.Context.Body` | src/mcon/contrib/md5.c:125-230 | the registers absorb one or more blocks of section 3.4 of RFC 1321 |
| `Md5.Context.Update` | src/mcon/contrib/md5.c:243-275 | buffer, counter and registers stand for everything absorbed so far, however it was cut into calls |
| `Md5.Context.Final` | src/mcon/contrib/md5.c:277-326 | the digest of section 3 of RFC 1321 of everything absorbed, in both cases of the padding, and a wiped context |
| `Md5.Context.Trailer` | src/mcon/contrib/md5.c:296-304 | the last eight bytes of the block are the two counters, the lower one shifted by three |
| `Md5.TrailerIsLength` | src/mcon/contrib/md5.c:296-304 | the split counter, shifted by three, spells the bit length modulo 2^64 |
| `Md5.SameMessageSameState` | src/mcon/contrib/md5.c:243-275 | two contexts that absorbed the same message agree in registers, counters and waiting bytes, and `lo & 63` counts the waiting bytes |
| `Md5.UpdateAll` | src/mcon/contrib/md5.c:243-275 | any sequence of updates equals one update with the concatenation |
| `Md5.HexInjective` | src/mcon/contrib/md5.c:66-71 | equal hexits mean equal digests |
| `Md5.Md5Hex` | src/mcon/contrib/md5.c:56-75 | thirty-two hexits of the RFC 1321 digest, for every input |
| `Md5Example.DigestOfAbc` | src/mcon/contrib/md5.c:56-326 | the digest of "abc" is the one that section A.5 of RFC 1321 gives |
| `LinkedLists.LinkedList.Find` | src/mcon/manager.c:625-635 | the data of the first entry under the key, or nothing if there is none |
| `LinkedLists.LinkedList.Append` | src/mcon/manager.c:663-687 | the entry comes last and no other changes |
| `LinkedLists.LinkedList.Remove` | src/mcon/manager.c:706-742 | the first entry under the key goes and the links around it close |
| `LinkedLists.LookupRemove` | src/mcon/manager.c:706-742 | other keys keep what they had; a unique key is gone |
| `Collections.Collection.Add` | src/mcon/collection.c:32-40 | growing by doubling keeps all elements in order and adds one |
| `Collections.KeepTwice` | src/mcon/read_preference.c:331-346 | two filters one after the other are one filter by both conditions |
| `Text.AtoiOfDecimal` | src/mcon/utils.c:94-156 | `atoi` reads back what `%d` printed, up to the first character that is no digit |
| `ConnHash.CreateHash` | src/mcon/utils.c:52-91 | the appends produce HOST:PORT;SET;CREDENTIALS;PID with `-` and `.` for missing parts |
| `ConnHash.HashFormat` | src/mcon/utils.c:52-91 | the hash is HOST:PORT;SET;DB/USER/PASSWORDHASH;PID, or has `-` and `.` for missing parts |
| `ConnHash.SaltedTells` | src/mcon/utils.c:28-49 | what the password hash is taken of tells the passwords of a user, the users of a password and the processes apart |
| `ConnHash.OctetsTell` | src/mcon/utils.c:28-49 | texts of bytes are hashed as different bytes if they differ |
| `ConnHash.SplitInvertsCreate` | src/mcon/utils.c:52-156 | splitting gives back all parts if and only if no part holds the separator behind it or starts like a missing part |
| `ConnHash.HashIdentifies` | src/mcon/utils.c:52-91 | clean definitions with equal hashes agree in host, port, set, database, user, password hash and process |
| `ConnHash.SameHash` | src/mcon/utils.c:52-91 | clean definitions have one hash in one process if and only if they agree in all that it is made of |
| `ConnHash.PidIsFound` | src/mcon/utils.c:169-175 | the process id is found whatever the other parts hold |
| `ConnHash.PidExtractorsAgree` | src/mcon/utils.c:94-175 | the two ways to the process id agree on clean definitions |
| `ConnHash.ServerIsFound` | src/mcon/utils.c:159-166 | the server part is HOST:PORT if and only if the host holds no semicolon |
| `Connections.Connection.AddCallback` | src/mcon/manager.c:562-584 | the callback comes last in the cleanup list |
| `Connections.Connection.DeregisterCallback` | src/mcon/manager.c:504-526 | the first callback with the data goes, the others stay in order |
| `Connections.CallsConcat` | src/mcon/connections.c:110-126 | the calls for the end of a list come behind those for its front |
| `Connections.CallsOfOne` | src/mcon/connections.c:110-126 | an entry with data is called once, with it, and one without is not |
| `Connections.Connection.Destroy` | src/mcon/connections.c:85-134 | a live connection of this process calls every callback with data once, in order, and is closed; any other is left alone |
| `Connections.RegisteredIsPending` | src/mcon/manager.c:504-584 | over any additions and deregistrations, with any data any number of times, the list keeps for each data a queue from which deregistering takes the oldest |
| `Connections.RegisteredAreSurvivors` | src/mcon/manager.c:504-584 | the list holds exactly the additions whose data was deregistered behind them at most as often as it was pending before them, in the order of the additions |
| `Connections.RegisteredIsStillRegistered` | src/mcon/manager.c:504-584 | data that is added at most once is on the list if and only if it was not deregistered since, and then once, whatever else is on it |
| `Connections.UseThenDestroy` | src/mcon/connections.c:85-134 | after any additions and deregistrations destroying makes one call for each surviving addition with data, in the order of the additions; for each data these are what is pending |
| `Managers.Manager.CheckBlacklist` | src/mcon/manager.c:50-67 | a server is blocked if and only if its entry is younger than the interval; an older entry is removed |
| `Managers.Manager.Deregister` | src/mcon/manager.c:706-742 | the first connection with the hash goes, no other entry changes, and neither that hash nor the connection is registered afterwards |
| `Managers.Manager.Ping` | src/mcon/connections.c:226-253 | a round trip happens only when one is due, and only a successful one changes time and latency, which is never negative |
| `Managers.Manager.Connect` | src/mcon/manager.c:93-139 | a new connection is registered exactly when every stage succeeds; only a failing connect is blacklisted, with the time of its failure; its time and latency are those of its first ping |
| `Managers.Manager.Admit` | src/mcon/manager.c:50-67 | what is turned away by the blacklist would not succeed, and passing it changes nothing of what follows |
| `Managers.Manager.GetSingle` | src/mcon/manager.c:39-142 | exactly when a request succeeds, when it tries to connect, what becomes of the blacklist, and when a registered connection makes a round trip; no other server's entries change; hashes stay unique in and across both lists; failures stay remembered |
| `Managers.OneMoreAttempt` | src/mcon/manager.c:39-142 | an attempt on a server that is not on the blacklist comes no earlier than the interval after every recorded failure |
| `Managers.Run` | src/mcon/manager.c:39-142 | over every run no hash is registered twice, blacklisted twice or both, and with a clock that never runs back no server is tried again before its interval has passed |
| `Discovery.CodesMean` | src/mcon/connections.c:399-466 | a check works exactly for a good answer, of a known type, under the expected name and with the right set name; what renames a member; and what each result hands on |
| `Discovery.AddHostsCloses` | src/mcon/manager.c:237-301 | every reported host is listed afterwards, nothing twice, and nothing but reported hosts is added |
| `Discovery.AddressesStayUnique` | src/mcon/manager.c:152-175 | whatever is reported, no address is listed twice if and only if the listed definitions differ in nothing but the address |
| `Discovery.ReplacedStaysUnique` | src/mcon/connections.c:404-421 | another definition in the place of one keeps addresses unique if and only if nobody else has its address |
| `Discovery.RenamedStaysUnique` | src/mcon/manager.c:226-301 | a member that goes by another name, whatever hosts it reports in the same reply, keeps addresses unique if and only if nobody else is listed under that name |
| `Discovery.RenameListsAgain` | src/mcon/manager.c:226-301 | a member that says it is another and reports its old name is put on the list again behind the new one |
| `Discovery.RenamesGoOn` | src/mcon/manager.c:196-312 | so with renames a scan need not end: with such a member last, the list is one longer after every turn |
| `Discovery.GrownIsBounded` | src/mcon/manager.c:183-318 | the list is never longer than seeds and possible candidates together |
| `Discovery.OneCandidatePerName` | src/mcon/manager.c:183-318 | seeds that differ only in their addresses once they have a set name make at most one candidate per reported name |
| `Discovery.MeetingMeans` | src/mcon/manager.c:261-289 | a host is known afterwards exactly if it was, or was reached and its second check was no trouble; no other host is touched; a failing connect is blacklisted and a blocked host left alone |
| `Discovery.ServerList.Contains` | src/mcon/manager.c:152-175 | true if and only if an equal definition is listed |
| `Discovery.Meet` | src/mcon/manager.c:261-289 | a host that is known or blocked is left alone; otherwise it is connected to, checked again and kept or dropped, the blacklist follows, and an unsupported wire version is reported if and only if it was met |
| `Discovery.ListHosts` | src/mcon/manager.c:237-301 | every reported host is met in order and listed, and trouble is reported if and only if one that was reached had an unsupported version |
| `Discovery.VisitServer` | src/mcon/manager.c:196-312 | a server is checked if and only if it is registered when its turn comes; list, registry, blacklist, set name and answer are then those of the turn |
| `Discovery.ActOn` | src/mcon/manager.c:209-309 | what every result code does to the list, to the set name, to the registry and the blacklist, and to the answer; a failing, renamed or unsupported member's connection is not registered afterwards |
| `Discovery.Discover` | src/mcon/manager.c:183-318 | the scan is the turns of the specification, from the state it starts in to the one it leaves, one for each server of the final list; it ends; the seeds stay in front, at most given a set name, nothing is added twice and no seed is added, the bound holds, every host reported by a successfully checked server is listed, and registered seeds are heard |
| `Discovery.ScanHears` | src/mcon/manager.c:196-318 | a seed that is registered at the start, the first or any if the set's name is known, makes the scan fail if its wire version is unsupported, and gets all hosts of a good answer onto the list |
| `Selection.CandidateMatchesTags` | src/mcon/read_preference.c:170-190 | the nested loops count the pairs of equal tags and compare with the number wanted |
| `Selection.CountingIsCovering` | src/mcon/read_preference.c:170-190 | counting pairs decides "all wanted tags are there" for every tagset if and only if the server has no tag twice |
| `Selection.FilterByTagset` | src/mcon/read_preference.c:192-207 | keeps, in order, what matches the tagset, and a primary under primaryPreferred |
| `Selection.FilterBySeeds` | src/mcon/read_preference.c:257-280 | the connections of the seeds, seed by seed |
| `Selection.LoginsAreRead` | src/mcon/read_preference.c:282-329 | the credentials filter lets through exactly the connections that were made for the database and user of the first seed with a password that hashes to the same |
| `Selection.EligibleIsUsable` | src/mcon/read_preference.c:82-329 | a registered connection is a candidate if and only if this process made it, its node may serve under the preference, it was made for the set that is asked for, or for a seed, and under the login of the first seed |
| `Selection.CandidatesAreUsable` | src/mcon/read_preference.c:82-329 | the candidates of a replica set are these connections in the order of the registry |
| `Selection.TagsetsCut` | src/mcon/read_preference.c:348-371 | the candidates are cut by the first tagset that leaves any, and missing only if none does |
| `Selection.FindCandidates` | src/mcon/read_preference.c:331-374 | the five filters in a row compute the candidate set of the specification, wherever the source follows no null pointer |
| `Picking.CompareIsAnOrder` | src/mcon/read_preference.c:377-432 | every comparator is a total order up to ties |
| `Picking.SortedFormSorts` | src/mcon/read_preference.c:436-471 | there is a sorted permutation for qsort to arrive at |
| `Picking.SortServers` | src/mcon/read_preference.c:436-471 | in place, some sorted permutation of the candidates |
| `Picking.SelectNearest` | src/mcon/read_preference.c:473-511 | keeps, in order, what is not slower than the first element by more than the latency |
| `Picking.FirstIsNear` | src/mcon/read_preference.c:489-497 | the window holds the first element if and only if the latency is not negative |
| `Picking.PickServer` | src/mcon/read_preference.c:522-562 | the first primary, a random element before a primary at the end, or a random element, as the preference says |
| `Picking.GetIsAcceptable` | src/mcon/read_preference.c:377-562 | for every order of ties and every random number: the fastest primary under primaryPreferred if there is one, a secondary within the latency of the fastest under secondaryPreferred if there is one, otherwise something within the latency of the fastest |
| `Picking.AcceptableMayBeGot` | src/mcon/read_preference.c:377-562 | and everything that may be promised is reached by some order of ties and some random number |
| `Picking.AlwaysASecondary` | src/mcon/read_preference.c:537-553 | behind a secondary in front, every random number picks a secondary if and only if the window holds at most one primary |
| `Picking.GetIsCandidate` | src/mcon/read_preference.c:436-562 | nothing but a candidate is ever picked |
| `Picking.Choose` | src/mcon/manager.c:352-387 | candidates by purpose, then sort, window and pick by the read preference of the server list; nothing if there is no candidate |
| `Picking.WriteGetsAPrimary` | src/mcon/manager.c:353-387 | a write gets a registered primary that this process made for the set under the right login, under every read preference, and finds nothing if and only if there is none |
| `Picking.AnyNodeWillDo` | src/mcon/manager.c:352-387 | a request that may go anywhere sees every connection of its own whatever its type and tags |
| `Picking.ReadHonoursTags` | src/mcon/manager.c:352-387 | a read gets a connection of its own to a node that its preference lets serve, and with tagsets one that fits the first tagset that any fits |
| `Picking.OwnConnectionQualifies` | src/mcon/read_preference.c:223-329 | a connection made with the first seed's credentials passes the set name and credentials filters |
| `Bson.SignedOfLe` | src/mcon/bson_helpers.c:20-39 | what fits an integer field is read back as it was |
| `Bson.NextLands` | src/mcon/mini_bson.c:295-367 | the step lands on the next element if and only if this one is neither a regular expression nor code with scope; where it lands or ends in these cases |
| `Bson.OptionsEndTheSearch` | src/mcon/mini_bson.c:356-357 | the options of a regular expression, taken for an element, end every search |
| `Bson.FindsTheFirst` | src/mcon/mini_bson.c:381-401 | on every document the search finds the first element of that name and type if and only if all elements before it can be stepped over, and otherwise how it ends; it never leaves the document |
| `BsonReader.Find` | src/mcon/mini_bson.c:381-401 | the loop computes the search of the specification |
| `BsonReader.FieldReadsBack` | src/mcon/mini_bson.c:404-491 | a field that can be reached reads back as the value encoded; a string up to its first NUL; a document or array as the place where its own elements lie |
| `BsonReader.NextStrings` | src/mcon/mini_bson.c:493-508 | iterating yields one string per element, in order, up to a regular expression, which is the last, or to code with scope, at which the process exits; after an element that is no string the caller still sees the string before |
| `Packets.Str.Add` | src/mcon/str.c:29-45 | growing keeps the content, appends the bytes, and a NUL stays behind them |
| `Packets.Str.Patch` | src/mcon/mini_bson.c:91-94 | only the four bytes of the integer change |
| `Packets.StringLIsString` | src/mcon/mini_bson.c:67-79 | a string with the caller's own length is a BSON string if and only if the length counts the string and one NUL |
| `Packets.CreateSimpleHeader` | src/mcon/mini_bson.c:33-51 | the fields of OP_QUERY in order, with `admin.$cmd` for a missing namespace |
| `Packets.Finish` | src/mcon/mini_bson.c:88-96 | after the two patches the content is the whole message with both lengths |
| `Packets.CreateCommandPacket` | src/mcon/mini_bson.c:81-164 | a complete message with the one element of the command |
| `Packets.CreateAuthenticatePacket` | src/mcon/mini_bson.c:166-201 | a complete message with the elements given, in order, optional ones only if given |
| `Packets.CreateSaslStartPacket` | src/mcon/mini_bson.c:204-236 | a complete message with the payload under the caller's length, or the query for mechanisms |
| `Packets.CreateSaslContinuePacket` | src/mcon/mini_bson.c:238-264 | a complete message with the conversation and the payload under the caller's length |
| `Packets.PacketLayout` | src/mcon/mini_bson.c:33-264 | the first int32 is the total length, the int32 at the document its remaining length, the document ends in 0, and its elements lie where the reader looks |
| `Packets.PacketHeader` | src/mcon/mini_bson.c:33-51 | the header read back: request id, no response, opcode 2004, slaveOk, the namespace, nothing to skip and -1 to return |
| `Packets.CommandNsIs` | src/mcon/mini_bson.c:166-180 | commands go to the collection `.$cmd` of their database |
| `Packets.PacketReadsBack` | src/mcon/mini_bson.c:448-491 | the reader finds in a packet every int32, int64 and string that was added |
| `Packets.StringReadsBack` | src/mcon/mini_bson.c:381-491 | searching for a string among the numbers and strings of the builders finds the first under the name up to its first NUL, or nothing if there is none |
| `Packets.AuthenticateReadsBack` | src/mcon/mini_bson.c:166-201 | an authenticate packet reads back: the command, the user, and nonce, key and mechanism if and only if they were given; the user exactly if it holds no NUL |
| `Packets.SaslStartIsADocument` | src/mcon/mini_bson.c:204-236 | a saslStart packet is well formed if and only if the caller counts the payload and one NUL |
| `Packets.SaslStartReadsBack` | src/mcon/mini_bson.c:204-236 | a saslStart packet reads back when its payload is counted right: command, mechanism, payload and the leave to authorize |
| `Packets.SaslContinueIsADocument` | src/mcon/mini_bson.c:238-264 | a saslContinue packet is well formed if and only if the caller counts the payload and one NUL |
| `Packets.SaslContinueReadsBack` | src/mcon/mini_bson.c:238-264 | a saslContinue packet reads back when its payload is counted right: command, conversation and payload |
| `MemoryStreams.MemoryStream.Write` | src/stream/memory.c:49-80 | overwrites and then extends the contents at the cursor; nothing in read-only mode |
| `MemoryStreams.MemoryStream.Read` | src/stream/memory.c:85-101 | the next bytes, and the flag as soon as the end is reached |
| `MemoryStreams.MemoryStream.Seek` | src/stream/memory.c:130-190 | succeeds exactly inside the contents and otherwise clamps to an end with offset -1 |
| `MemoryStreams.MemoryStream.Truncate` | src/stream/memory.c:243-274 | cuts off or fills with zeros, and moves the cursor inside |
| `MemoryStreams.Run` | src/stream/memory.c:49-274 | every run answers as a plain file does |
| `MemoryStreams.StepsStayInside` | src/stream/memory.c:49-274 | over every run the cursor stays inside the contents, and read-only contents never change |
| `MemoryStreams.FlagStaysTrue` | src/stream/memory.c:85-190 | a true end-of-file flag stays true except, exactly, over growth under it or a relative seek refused below the start |
| `MemoryStreams.WriteThenReadBack` | src/stream/memory.c:49-190 | what is written is read back from the same place |
| `MemoryStreams.WriteHasNoGap` | src/stream/memory.c:49-80 | a write leaves what is before and behind it and no gap |
| `MemoryStreams.MemoryIsADevice` | src/stream/memory.c:49-190 | the memory stream answers as the stream layer demands of its device |
| `DataUrls.ParseLoop` | src/stream/memory.c:671-697 | `mlen` is the distance to the comma while there is a semicolon and 0 behind the last part |
| `DataUrls.ParseMetadata` | src/stream/memory.c:643-702 | media type, parameters and flag, or which error |
| `DataUrls.ParseUrl` | src/stream/memory.c:626-711 | the source's pointers compute the parts, the array of metadata and the payload |
| `DataUrls.ParseInvertsPrint` | src/stream/memory.c:626-711 | a URL printed as section 3 of RFC 2397 lays it out parses back to its parts if and only if they are free of separators and the media type holds a slash |
| `DataUrls.PrintInvertsParse` | src/stream/memory.c:626-711 | whatever is accepted is the print of what it was parsed to |
| `DataUrls.AcceptsExactlyThePrinted` | src/stream/memory.c:626-711 | the accepted texts are exactly the printed ones, and the illegal-URL error is never raised |
| `DataUrls.MetadataOf` | src/stream/memory.c:655-707 | what a caller finds under each key, including parameters that take the place of the media type or are hidden by the flag |
| `Uris.HostLoop` | src/mcon/parse.c:111-138 | the scan over colons, commas and slashes computes the address list |
| `Uris.ParseOptions` | src/mcon/parse.c:664-689 | the options handed in order to a store that may answer by what it stored before, up to the first failure, and the answer |
| `Uris.ParseServerSpec` | src/mcon/parse.c:58-230 | the whole specification, TCP or socket, with login, database and options |
| `Uris.HostsRoundTrip` | src/mcon/parse.c:111-138 | a printed host list parses back in order, port 27017 where none is given |
| `Uris.PairsRoundTrip` | src/mcon/parse.c:259-285 | printed option pairs are stored with the same names and values in the same order |
| `Uris.OneOption` | src/mcon/parse.c:259-285 | an option is cut at its last equals sign, and fails without one or without a name |
| `Uris.StoreAllStoresAll` | src/mcon/parse.c:664-689 | nothing is reported if and only if no option fails behind those before it, and then all were stored; otherwise the answer is that of the first that fails |
| `Uris.UriRoundTrip` | src/mcon/parse.c:58-230 | a printed URI parses back to user, password, hosts, database (or `admin` for a user) and options |
| `Uris.ParseReadPreferenceTags` | src/mcon/parse.c:288-329 | the loop over a tag list computes its tags; an empty list is allowed |
| `Uris.TagsRoundTrip` | src/mcon/parse.c:288-329 | a list of pieces parses back to these pieces if and only if every one has a colon |
| `Options.LastAskedIsSet` | src/mcon/parse.c:338-659 | among options that were all stored, the last that asked for a read preference has it, and there are tagsets if and only if one was given |
| `Options.LastIsSet` | src/mcon/parse.c:338-659 | the set, the seeds' set name, the mechanism, the tagsets and the latency that options leave, each by the last option that counts for it, and their defaults |
| `Options.SlaveOkayIsRefused` | src/mcon/parse.c:545-566 | `slaveOkay` is refused if and only if it is switched on behind options that gave tags or last asked for another read preference than the primary |
| `Options.AcceptedUris` | src/mcon/parse.c:58-230 | with the source's own store a printed URI is accepted if and only if no option fails behind those before it |
| `Options.SlaveOkayTwice` | src/mcon/parse.c:545-566 | an option that asks for a read preference other than the primary makes a URI be refused that then switches `slaveOkay` on, although each is accepted alone |
| `Options.SlaveOkayTwiceExample` | src/mcon/parse.c:545-566 | `mongodb://h/db?slaveOkay=true&slaveOkay=true` is refused with 3 though its first option is answered with -1 |
| `Options.SeedsOfAUri` | src/mcon/parse.c:218-223 | the seeds of a URI are its hosts in order under the last set name and the last known mechanism of its options; they have credentials if and only if the URI itself holds a user and a password, and then those; and they differ in nothing but the address |
| `Examples.WholeUri` | src/mcon/parse.c:58-230 | `mongodb://me:pw@a:1,b/?x=1;y=2` means user, password, two hosts with ports 1 and 27017, database `admin` and two options |
| `Examples.TextInBase64` | src/stream/memory.c:626-711 | the parts of `data:a/b;c=d;base64,eA==` |
| `Examples.HelloWorld` | src/mcon/mini_bson.c:54-96 | the bytes of a document with one string, as bsonspec.org shows them |
| `Examples.AwesomeBson` | src/mcon/mini_bson.c:295-367 | the bytes of a document with an array of a string, a double and an int32, as bsonspec.org shows them |

## Left out

Bounds and machine types.

- Integers are unbounded except where a width is part of what is computed (the counters and words of MD5, the
  integers of BSON): overflow of `size_t`, `off_t` and `int` lengths, offsets, ports and request ids.
- Text is free of NUL characters, as the C strings it stands for; `atoi` is modelled for text that does not
  start with white space, and the machine is little-endian with a signed `char`.
- Allocation, freeing, leaks, error message texts and logging.

Streams.

- Devices.Device: stands for sockets, files and wrappers; it may be undependable, but it says "not now"
  without raising the end-of-file flag only finitely often, so that fills end.
- Streams.Stream.Seek: the flush of write filters before a seek is not part of it.
- Streams.Stream.GetLine: while detection of the line ending is on, whether a CR and an LF behind it end one
  line or two depends on the buffer; `EolDetectionAcrossChunks` says when.
- StreamRuns.TraceIsIdeal: an ideal file has one line ending, so detection is off there; `Run` allows it.
- StreamRuns.AnswersLikeAFile: what it asks of the operations is enough; `TraceIsIdeal` has the condition that
  is needed as well, which speaks of the flag and of what is read ahead.
- Filters.Filter: a filter takes all the buckets it is given and answers with buckets only when it passes on;
  the consumed-bytes result matters in `FilterAppend` only, and the chain is a sequence, without its links.
- `_php_stream_copy_to_mem`, `_php_stream_copy_to_stream_ex`, `_php_stream_passthru`, `_php_stream_filter_flush`,
  `php_stream_filter_remove`: loops over the operations above, or wrong in ways that have no clean statement.
- The temp stream that spills to a file, casts, stats, persistent and enclosing streams, wrappers.
- DataUrls.ParseUrl: ends before the payload is decoded; base64 and percent decoding are not in the repository.

Manager.

- Managers.Manager.Deregister: takes the connection out of the list only; the walk over its callbacks is
  `Connections.Connection.Destroy`.
- Managers.Run: requests by hash; discovery keeps both lists well formed too, but the history of attempts is
  followed through requests only.
- Discovery.Discover: members answer under the name they are known by, since otherwise the scan need not end
  (`RenamesGoOn`), and seeds and candidates fit in the array of sixteen.  Seeds that are listed twice stay so,
  and a seed without a set name may come to equal an added one when it gets its name; `AddressesStayUnique`
  and `RenamedStaysUnique` say when that cannot be.
- Discovery.IsMaster: the reply holds a `hosts` array, and members are named `HOST:PORT`, as the code expects.
- `mongo_get_connection_multiple`, authentication exchanges, version and wire checks: one yes or no each.

Selection.

- Selection.FindCandidates: candidates are values taken from the registry; a connection of the right type and
  set without a login, when the first seed has one, is left out, since the source follows a null pointer there.
- Picking.Choose: a negative latency may leave nothing to pick from, and the read preference of a server list
  is never the internal one for "any"; the source would fail on both.

BSON.

- Bson.FindsTheFirst: options of regular expressions are those of the specification.  On bytes that are no
  document the search is only said to be lost; the source reads on.
- BsonReader.NextStrings: iterating integers works the same way and is left out.
- Packets.CreateCommandPacket: five builders that differ in the name of the command.

URIs.

- Uris.ParseServerSpec: the copying of server lists; more than sixteen hosts overrun an array that is a
  sequence here.
- Options.Put: what `fsync`, `journal`, `ssl`, `w`, `wTimeout` and `gssapiServiceName` set is not followed, only
  how they are answered.
- Uris.UriRoundTrip: URIs with the `mongodb://` scheme and TCP hosts; sockets are parsed but not printed.
