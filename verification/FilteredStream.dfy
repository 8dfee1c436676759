/** The fill and the write of a stream that has filters on it. */
module FilteredStreams {
  import opened Files
  import opened Devices
  import opened Streams
  import opened Brigades
  import opened Filters

  /** Pours the buckets of a brigade into the read buffer, growing it where needed. */
  method PourIn(s: Stream, inp: Brigade)
    requires s.Valid() && inp.Valid()
    modifies s`readbuf, s`writepos, s.readbuf, inp, inp.buckets
    ensures s.Valid() && (s.readbuf == old(s.readbuf) || fresh(s.readbuf))
    ensures s.Unread() == old(s.Unread()) + Flatten(old(Contents(inp.buckets)))
    ensures inp.Valid() && inp.buckets == []
  {
    hide Brigade.Valid;
    var chunks := Drain(inp);
    for i := 0 to |chunks|
      invariant s.Valid() && (s.readbuf == old(s.readbuf) || fresh(s.readbuf))
      invariant inp.Valid() && inp.buckets == []
      invariant s.Unread() == old(s.Unread()) + Flatten(chunks[..i])
    {
      PourChunk(s, chunks[i]);
      assert chunks[..i + 1] == chunks[..i] + [chunks[i]];
      FlattenConcat(chunks[..i], [chunks[i]]);
      assert Flatten([chunks[i]]) == chunks[i];
    }
    assert chunks[..|chunks|] == chunks;
  }

  method PourChunk(s: Stream, chunk: seq<byte>)
    requires s.Valid()
    modifies s`readbuf, s`writepos, s.readbuf
    ensures s.Valid() && (s.readbuf == old(s.readbuf) || fresh(s.readbuf))
    ensures s.Unread() == old(s.Unread()) + chunk
  {
    if s.readbuf.Length - s.writepos < |chunk| {
      label L:
      s.Grow(|chunk|);
      assert s.Unread() == old@L(s.readbuf[..s.writepos])[s.readpos..];
    }
    s.Append(chunk);
  }

  /** Reads one chunk of the device into a bucket of `inp`, which is empty.  `more` is false only when
      the device had nothing at all. */
  method ReadRound(s: Stream, inp: Brigade) returns (more: bool, ghost round: Round)
    requires s.Valid() && inp.Valid() && inp.buckets == []
    modifies s`eof, s.dev`offset, s.dev`patience, s.dev`calls, inp
    ensures inp.Valid() && Contents(inp.buckets) == round.input && forall i | 0 <= i < |inp.buckets| :: fresh(inp.buckets[i])
    ensures s.dev.offset == old(s.dev.offset) + |Flatten(round.input)|
    ensures s.dev.Holds(old(s.dev.offset), Flatten(round.input))
    ensures round.input != [] ==> more && Flatten(round.input) != []
    ensures round.feed == if round.input != [] then Normal else if s.eof then FlushClose else FlushInc
    ensures more && round.input == [] ==> s.eof || s.dev.patience < old(s.dev.patience)
    ensures s.dev.patience <= old(s.dev.patience) && s.dev.calls == old(s.dev.calls) + 1
    ensures s.dev.dependable && round.input == [] ==> s.dev.AtEnd() && s.eof
    ensures s.dev.dependable && old(s.HonestEof()) ==> s.HonestEof()
  {
    var got, flag := s.dev.Read(s.chunkSize, s.eof);
    s.eof := flag;
    more := got != Some([]);
    if got.Some? && got.value != [] {
      var bucket := new Bucket(got.value, false);
      inp.Append(bucket);
      assert Contents(inp.buckets) == [got.value];
      round := Round([got.value], Normal);
      assert Flatten([got.value]) == got.value;
    } else {
      assert Contents(inp.buckets) == [];
      round := Round([], if s.eof then FlushClose else FlushInc);
    }
  }

  /** One pass of the fill loop: one device read, wound through the chain into the read buffer.
      `again` is false when the loop must stop whatever has been produced. */
  method FillRound<S>(s: Stream, chain: seq<Filter<S>>, inp0: Brigade, outp0: Brigade)
    returns (inp: Brigade, outp: Brigade, again: bool, ghost round: Round)
    requires s.Valid() && chain != [] && Distinct(chain)
    requires inp0.Valid() && outp0.Valid() && inp0 != outp0 && inp0.buckets == outp0.buckets == []
    modifies s`readbuf, s`writepos, s`eof, s.readbuf, s.dev`offset, s.dev`patience, s.dev`calls, chain, inp0, outp0
    ensures s.Valid() && (s.readbuf == old(s.readbuf) || fresh(s.readbuf))
    ensures inp.Valid() && outp.Valid() && inp.buckets == outp.buckets == []
    ensures (inp == inp0 && outp == outp0) || (inp == outp0 && outp == inp0)
    ensures s.dev.offset == old(s.dev.offset) + |Flatten(round.input)|
    ensures s.dev.Holds(old(s.dev.offset), Flatten(round.input))
    ensures round.feed == if round.input != [] then Normal else if s.eof then FlushClose else FlushInc
    ensures round.input != [] ==> Flatten(round.input) != []
    ensures var w := WindSpec(Acts(chain), old(States(chain)), round.input, round.feed);
            && States(chain) == w.states
            && s.Unread() == old(s.Unread()) + Flatten(w.out)
            && (!again ==> w.status == Failed || round.input == [])
    ensures again && round.input == [] ==> s.eof || s.dev.patience < old(s.dev.patience)
    ensures s.dev.patience <= old(s.dev.patience) && s.dev.calls == old(s.dev.calls) + 1
    ensures s.dev.dependable && round.input == [] ==> s.dev.AtEnd() && s.eof
    ensures s.dev.dependable && old(s.HonestEof()) ==> s.HonestEof()
  {
    hide WindSpec, Brigade.Valid, Device.Holds;
    var more;
    more, round := ReadRound(s, inp0);
    var feed := if inp0.head != null then Normal else if s.eof then FlushClose else FlushInc;
    HeadShowsContents(inp0);
    ghost var unread, states := s.Unread(), States(chain);
    assert states == old(States(chain));
    var status;
    status, inp, outp := Wind(chain, inp0, outp0, feed);
    again := status == Starved && more;
    if status == PassedOn {
      again := feed == Normal;
      PourIn(s, inp);
    } else {
      NothingPassedOn(inp);
    }
  }

  lemma HeadShowsContents(b: Brigade)
    requires b.Valid()
    ensures b.head != null <==> Contents(b.buckets) != []
  {
  }

  lemma NothingPassedOn(b: Brigade)
    requires b.Valid()
    ensures Contents(b.buckets) == [] ==> b.buckets == []
  {
  }

  /** The fill of a filtered stream.  The buffer is emptied first; what is then in it is exactly what
      the chain produced from the bytes that the device's offset moved over, each of them once and in
      order.  Bytes that had been read ahead before survive only if there were none. */
  method FilteredFill<S>(s: Stream, chain: seq<Filter<S>>, size: nat) returns (ghost rounds: seq<Round>)
    requires s.Valid() && chain != [] && Distinct(chain)
    modifies s`readbuf, s`readpos, s`writepos, s`eof, s.readbuf, s.dev`offset, s.dev`patience, s.dev`calls, chain
    ensures s.Valid() && (s.readbuf == old(s.readbuf) || fresh(s.readbuf))
    ensures (States(chain), s.Unread()) == Produced(Acts(chain), old(States(chain)), rounds)
    ensures s.dev.offset == old(s.dev.offset) + |Entered(rounds)| && s.dev.Holds(old(s.dev.offset), Entered(rounds))
    ensures s.Unread() == old(s.Unread()) + Produced(Acts(chain), old(States(chain)), rounds).1 <==> old(s.Unread()) == []
    ensures size <= s.Buffered() || Ended(s.eof, s.dev.dependable, Acts(chain), old(States(chain)), rounds)
    ensures (rounds == [] <==> old(s.eof) || size == 0) && (rounds == [] ==> s.eof == old(s.eof))
    ensures Wanted(Acts(chain), old(States(chain)), rounds, size) && s.dev.calls == old(s.dev.calls) + |rounds|
    ensures s.dev.dependable && old(s.HonestEof()) ==> s.HonestEof()
  {
    hide WindSpec, Produced, Brigade.Valid, Device.Holds, FinalRound, Flatten, Entered, Stream.Unread, States;
    ghost var acts, states := Acts(chain), States(chain);
    s.readpos, s.writepos := 0, 0;
    rounds := [];
    ProducedNothing(acts, states);
    s.dev.HoldsNothing(s.dev.offset);
    NothingUnread(s);
    var inp := new Brigade();
    var outp := new Brigade();
    var again := true;
    while !s.eof && again && s.Buffered() < size
      invariant s.Valid() && (s.readbuf == old(s.readbuf) || fresh(s.readbuf))
      invariant inp.Valid() && outp.Valid() && inp != outp && inp.buckets == outp.buckets == []
      invariant fresh(inp) && fresh(outp)
      invariant (States(chain), s.Unread()) == Produced(acts, states, rounds)
      invariant s.dev.offset == old(s.dev.offset) + |Entered(rounds)| && s.dev.Holds(old(s.dev.offset), Entered(rounds))
      invariant !again ==> rounds != [] && FinalRound(acts, states, rounds) && (s.dev.dependable && !s.eof ==> LastFails(acts, states, rounds))
      invariant rounds == [] ==> s.eof == old(s.eof) && s.Buffered() == 0
      invariant Wanted(acts, states, rounds, size) && s.dev.calls == old(s.dev.calls) + |rounds|
      invariant rounds != [] ==> !old(s.eof) && 0 < size
      invariant s.dev.dependable && old(s.HonestEof()) ==> s.HonestEof()
      decreases !s.eof && again, |s.dev.data| - s.dev.offset, s.dev.patience
    {
      ghost var round;
      BufferedIsSize(s);
      WantedSnoc(acts, states, rounds, size);
      inp, outp, again, round := FillRound(s, chain, inp, outp);
      ProducedSnoc(acts, states, rounds, round);
      s.dev.HoldsConcat(old(s.dev.offset), Entered(rounds), Flatten(round.input));
      s.dev.HoldsInside(old(s.dev.offset), Entered(rounds + [round]));
      if !again {
        FinalRoundSnoc(acts, states, rounds, round);
      }
      rounds := rounds + [round];
    }
  }

  /** The chain failed in the last pass. */
  predicate LastFails<S>(acts: seq<Behaviour<S>>, states: seq<S>, rounds: seq<Round>)
    requires |acts| == |states| && rounds != []
  {
    var last := rounds[|rounds| - 1];
    WindSpec(acts, Produced(acts, states, rounds[..|rounds| - 1]).0, last.input, last.feed).status == Failed
  }

  /** The last pass of a fill that stopped early: the chain failed, or there was nothing to read. */
  predicate FinalRound<S>(acts: seq<Behaviour<S>>, states: seq<S>, rounds: seq<Round>)
    requires |acts| == |states| && rounds != []
  {
    rounds[|rounds| - 1].input == [] || LastFails(acts, states, rounds)
  }

  /** Why a fill may bring less than was wanted: the flag is up, or the last pass was a final one, which
      for a dependable device means that the chain failed. */
  predicate Ended<S>(eof: bool, dependable: bool, acts: seq<Behaviour<S>>, states: seq<S>, rounds: seq<Round>)
    requires |acts| == |states|
  {
    eof || (rounds != [] && FinalRound(acts, states, rounds) && (dependable ==> LastFails(acts, states, rounds)))
  }

  /** Every pass was begun because those before it had produced less than `size`. */
  ghost predicate Wanted<S>(acts: seq<Behaviour<S>>, states: seq<S>, rounds: seq<Round>, size: nat)
    requires |acts| == |states|
  {
    forall k | 0 <= k < |rounds| :: |Produced(acts, states, rounds[..k]).1| < size
  }

  lemma WantedSnoc<S>(acts: seq<Behaviour<S>>, states: seq<S>, rounds: seq<Round>, size: nat)
    requires |acts| == |states| && Wanted(acts, states, rounds, size) && |Produced(acts, states, rounds).1| < size
    ensures forall r :: Wanted(acts, states, rounds + [r], size)
  {
    hide Produced;
    forall r, k | 0 <= k < |rounds + [r]|
      ensures |Produced(acts, states, (rounds + [r])[..k]).1| < size
    {
      assert (rounds + [r])[..k] == rounds[..k];
      assert k == |rounds| ==> rounds[..k] == rounds;
    }
  }

  lemma NothingUnread(s: Stream)
    requires s.Valid() && s.Buffered() == 0
    ensures s.Unread() == []
  {
  }

  lemma FinalRoundSnoc<S>(acts: seq<Behaviour<S>>, states: seq<S>, rounds: seq<Round>, r: Round)
    requires |acts| == |states|
    requires r.input == [] || WindSpec(acts, Produced(acts, states, rounds).0, r.input, r.feed).status == Failed
    ensures FinalRound(acts, states, rounds + [r])
    ensures r.input != [] ==> LastFails(acts, states, rounds + [r])
  {
    assert (rounds + [r])[..|rounds|] == rounds;
  }

  lemma ProducedNothing<S>(acts: seq<Behaviour<S>>, states: seq<S>)
    requires |acts| == |states|
    ensures Produced(acts, states, []) == (states, []) && Entered([]) == []
  {
  }

  /** memcpy out of the buffer, which a filtered stream does not tie to the device. */
  method TakeUnread(s: Stream, n: nat) returns (out: seq<byte>)
    requires s.Valid() && n <= s.Buffered()
    modifies s`readpos
    ensures s.Valid() && |out| == n && old(s.Unread()) == out + s.Unread()
  {
    out := s.readbuf[s.readpos..s.readpos + n];
    s.readpos := s.readpos + n;
  }

  /** The second half of a turn of the read loop: one fill, and as much of it as is wanted. */
  method FillAndTake<S>(s: Stream, chain: seq<Filter<S>>, size: nat) returns (piece: seq<byte>, ghost rounds: seq<Round>)
    requires s.Valid() && chain != [] && Distinct(chain) && 0 < size
    modifies s`readbuf, s`readpos, s`writepos, s`eof, s.readbuf, s.dev`offset, s.dev`patience, s.dev`calls, chain
    ensures s.Valid() && (s.readbuf == old(s.readbuf) || fresh(s.readbuf))
    ensures |piece| <= size && (|piece| < size ==> s.Unread() == [])
    ensures (States(chain), piece + s.Unread()) == Produced(Acts(chain), old(States(chain)), rounds)
    ensures s.dev.offset == old(s.dev.offset) + |Entered(rounds)| && s.dev.Holds(old(s.dev.offset), Entered(rounds))
    ensures |piece| < size ==> Ended(s.eof, s.dev.dependable, Acts(chain), old(States(chain)), rounds)
    ensures (rounds == [] <==> old(s.eof)) && (rounds == [] ==> s.eof == old(s.eof))
    ensures Wanted(Acts(chain), old(States(chain)), rounds, size)
    ensures s.dev.dependable && old(s.HonestEof()) ==> s.HonestEof()
  {
    hide Produced, Device.Holds, Entered, Stream.Unread, States, Ended, Wanted, Stream.HonestEof;
    rounds := FilteredFill(s, chain, size);
    BufferedIsSize(s);
    piece := TakeUnread(s, Min(size, s.Buffered()));
    BufferedIsSize(s);
  }

  lemma NothingBetween(out: seq<byte>, piece: seq<byte>, left: seq<byte>, unread: seq<byte>, produced: seq<byte>, filled: seq<byte>)
    requires out == unread + produced && piece + left == filled
    ensures out + piece + left == unread + (produced + filled)
  {
    assert out + [] == out && [] + filled == filled;
    OneMore(out, piece, left, [], unread, produced, filled);
  }

  /** A read from a filtered stream.  Nothing that the chain produces is lost, repeated or reordered: what
      is handed out and what stays in the buffer are what had been unread and what the chain made of the
      bytes the device's offset moved over.  When the buffer is not enough the device is read, unless the
      flag is up, and but for plain files only until the chain has produced what was missing.  An empty
      answer, or a short one on a plain file, leaves nothing unread, and means that the flag is up or that
      the last pass was a final one. */
  method ReadFiltered<S>(s: Stream, chain: seq<Filter<S>>, size: nat) returns (out: seq<byte>, ghost rounds: seq<Round>)
    requires s.Valid() && chain != [] && Distinct(chain)
    modifies s`readbuf, s`readpos, s`writepos, s`position, s`eof, s.readbuf, s.dev`offset, s.dev`patience, s.dev`calls, chain
    ensures s.Valid() && (s.readbuf == old(s.readbuf) || fresh(s.readbuf))
    ensures |out| <= size && s.position == old(s.position) + |out| && Min(size, old(s.Buffered())) <= |out|
    ensures (States(chain), out + s.Unread()) ==
            (Produced(Acts(chain), old(States(chain)), rounds).0,
             old(s.Unread()) + Produced(Acts(chain), old(States(chain)), rounds).1)
    ensures s.dev.offset == old(s.dev.offset) + |Entered(rounds)| && s.dev.Holds(old(s.dev.offset), Entered(rounds))
    ensures rounds == [] <==> old(s.eof) || size <= old(s.Buffered())
    ensures !s.plainFiles && rounds != [] ==> Wanted(Acts(chain), old(States(chain)), rounds, size - old(s.Buffered()))
    ensures |out| < size ==> s.Unread() == []
    ensures IsShort(out, size, s.plainFiles) ==> Ended(s.eof, s.dev.dependable, Acts(chain), old(States(chain)), rounds)
    ensures s.dev.dependable && old(s.HonestEof()) ==> s.HonestEof()
  {
    hide WindSpec, Produced, Device.Holds, Flatten, Entered, Stream.Unread, States, Ended, Wanted, Stream.HonestEof;
    ghost var acts, states, unread := Acts(chain), States(chain), s.Unread();
    rounds := [];
    ProducedNothing(acts, states);
    s.dev.HoldsNothing(s.dev.offset);
    BufferedIsSize(s);
    out := TakeUnread(s, Min(size, s.Buffered()));
    BufferedIsSize(s);
    var more := |out| < size;
    assert unread + [] == unread;
    while more
      invariant s.Valid() && (s.readbuf == old(s.readbuf) || fresh(s.readbuf)) && s.position == old(s.position)
      invariant |out| <= size && Min(size, old(s.Buffered())) <= |out| && (more ==> |out| < size && s.Unread() == [])
      invariant States(chain) == Produced(acts, states, rounds).0
      invariant out + s.Unread() == unread + Produced(acts, states, rounds).1
      invariant s.dev.offset == old(s.dev.offset) + |Entered(rounds)| && s.dev.Holds(old(s.dev.offset), Entered(rounds))
      invariant rounds == [] ==> s.eof == old(s.eof) && (size <= old(s.Buffered()) || more || s.eof)
      invariant rounds != [] ==> !old(s.eof) && old(s.Buffered()) < size
      invariant size <= old(s.Buffered()) ==> |out| == size && !more
      invariant rounds == [] && more ==> |out| == old(s.Buffered())
      invariant !s.plainFiles && rounds != [] ==> !more && Wanted(acts, states, rounds, size - old(s.Buffered()))
      invariant |out| < size ==> s.Unread() == []
      invariant !more && IsShort(out, size, s.plainFiles) ==> Ended(s.eof, s.dev.dependable, acts, states, rounds)
      invariant s.dev.dependable && old(s.HonestEof()) ==> s.HonestEof()
      decreases size - |out|, more
    {
      ghost var produced := Produced(acts, states, rounds).1;
      var piece;
      ghost var passes;
      piece, passes := FillAndTake(s, chain, size - |out|);
      if |piece| < size - |out| {
        EndedConcat(s.eof, s.dev.dependable, acts, states, rounds, passes);
      }
      ProducedConcat(acts, states, rounds, passes);
      s.dev.HoldsConcat(old(s.dev.offset), Entered(rounds), Entered(passes));
      NothingBetween(out, piece, s.Unread(), unread, produced, Produced(acts, Produced(acts, states, rounds).0, passes).1);
      assert rounds == [] ==> rounds + passes == passes;
      rounds := rounds + passes;
      more := piece != [] && s.plainFiles && |out| + |piece| < size;
      out := out + piece;
    }
    s.position := s.position + |out|;
  }

  /** Nothing was handed out, or less than asked for where reads go on until there is no more. */
  predicate IsShort(out: seq<byte>, size: nat, plainFiles: bool) {
    |out| < size && (out == [] || plainFiles)
  }

  lemma EndedConcat<S>(eof: bool, dependable: bool, acts: seq<Behaviour<S>>, states: seq<S>, before: seq<Round>, rounds: seq<Round>)
    requires |acts| == |states| && Ended(eof, dependable, acts, Produced(acts, states, before).0, rounds)
    ensures Ended(eof, dependable, acts, states, before + rounds)
  {
    hide WindSpec, Produced;
    if !eof {
      var k, all := |rounds| - 1, before + rounds;
      assert all[..|all| - 1] == before + rounds[..k] && all[|all| - 1] == rounds[k];
      ProducedConcat(acts, states, before, rounds[..k]);
    }
  }

  lemma BufferedIsSize(s: Stream)
    requires s.Valid()
    ensures |s.Unread()| == s.Buffered()
  {
  }

  function Joined(chunks: seq<seq<byte>>): seq<byte> {
    if chunks == [] then [] else Joined(chunks[..|chunks| - 1]) + chunks[|chunks| - 1]
  }

  /** Any number of reads together hand out what the chain produced over all their passes, up to what is
      still unread; and if the last of them comes back short, nothing is, and the flag is up or the last
      pass was a final one. */
  method ReadAllFiltered<S>(s: Stream, chain: seq<Filter<S>>, sizes: seq<nat>)
    returns (outs: seq<seq<byte>>, ghost rounds: seq<Round>)
    requires s.Valid() && chain != [] && Distinct(chain)
    modifies s`readbuf, s`readpos, s`writepos, s`position, s`eof, s.readbuf, s.dev`offset, s.dev`patience, s.dev`calls, chain
    ensures s.Valid() && |outs| == |sizes|
    ensures (States(chain), Joined(outs) + s.Unread()) ==
            (Produced(Acts(chain), old(States(chain)), rounds).0,
             old(s.Unread()) + Produced(Acts(chain), old(States(chain)), rounds).1)
    ensures s.dev.offset == old(s.dev.offset) + |Entered(rounds)| && s.dev.Holds(old(s.dev.offset), Entered(rounds))
    ensures sizes != [] && old(s.Buffered()) < sizes[0] && !old(s.eof) ==> rounds != []
    ensures sizes != [] && IsShort(outs[|sizes| - 1], sizes[|sizes| - 1], s.plainFiles) ==>
              s.Unread() == [] && Ended(s.eof, s.dev.dependable, Acts(chain), old(States(chain)), rounds)
    ensures s.dev.dependable && old(s.HonestEof()) ==> s.HonestEof()
  {
    hide WindSpec, Produced, Device.Holds, Flatten, Entered, Stream.Unread, States, Ended, Stream.HonestEof;
    ghost var acts, states, unread := Acts(chain), States(chain), s.Unread();
    outs, rounds := [], [];
    ProducedNothing(acts, states);
    s.dev.HoldsNothing(s.dev.offset);
    assert [] + unread == unread + [];
    for i := 0 to |sizes|
      invariant s.Valid() && (s.readbuf == old(s.readbuf) || fresh(s.readbuf)) && |outs| == i
      invariant States(chain) == Produced(acts, states, rounds).0
      invariant Joined(outs) + s.Unread() == unread + Produced(acts, states, rounds).1
      invariant s.dev.offset == old(s.dev.offset) + |Entered(rounds)| && s.dev.Holds(old(s.dev.offset), Entered(rounds))
      invariant i == 0 ==> s.eof == old(s.eof) && s.Buffered() == old(s.Buffered())
      invariant 0 < i && old(s.Buffered()) < sizes[0] && !old(s.eof) ==> rounds != []
      invariant 0 < i && IsShort(outs[i - 1], sizes[i - 1], s.plainFiles) ==>
                  s.Unread() == [] && Ended(s.eof, s.dev.dependable, acts, states, rounds)
      invariant s.dev.dependable && old(s.HonestEof()) ==> s.HonestEof()
    {
      ghost var before, produced := s.Unread(), Produced(acts, states, rounds).1;
      var out;
      ghost var passes;
      out, passes := ReadFiltered(s, chain, sizes[i]);
      if IsShort(out, sizes[i], s.plainFiles) {
        EndedConcat(s.eof, s.dev.dependable, acts, states, rounds, passes);
      }
      ProducedConcat(acts, states, rounds, passes);
      s.dev.HoldsConcat(old(s.dev.offset), Entered(rounds), Entered(passes));
      OneMore(Joined(outs), out, s.Unread(), before, unread, produced, Produced(acts, Produced(acts, states, rounds).0, passes).1);
      assert (outs + [out])[..|outs|] == outs;
      outs, rounds := outs + [out], rounds + passes;
    }
  }

  /** With byte maps on a dependable device, reads that go on until one comes back short have handed out
      what had been unread and the image of the whole rest of the file, whatever their sizes. */
  method ReadMapsToEnd<S(!new)>(s: Stream, chain: seq<Filter<S>>, ghost hs: seq<byte -> byte>, sizes: seq<nat>)
    returns (outs: seq<seq<byte>>)
    requires s.Valid() && chain != [] && Distinct(chain) && s.dev.dependable && s.HonestEof()
    requires |hs| == |chain| && forall i | 0 <= i < |chain| :: MapsBytes(chain[i].act, hs[i])
    modifies s`readbuf, s`readpos, s`writepos, s`position, s`eof, s.readbuf, s.dev`offset, s.dev`patience, s.dev`calls, chain
    ensures s.Valid() && |outs| == |sizes|
    ensures sizes != [] && IsShort(outs[|sizes| - 1], sizes[|sizes| - 1], s.plainFiles) ==>
              Joined(outs) == old(s.Unread()) + MapThrough(hs, old(File(s.dev.data, s.dev.offset)).Rest())
  {
    hide WindSpec, Produced, Device.Holds, Flatten, Entered, Stream.Unread, States, Ended, MapThrough;
    ghost var acts, states, start := Acts(chain), States(chain), s.dev.offset;
    ghost var rounds;
    outs, rounds := ReadAllFiltered(s, chain, sizes);
    if sizes != [] && IsShort(outs[|sizes| - 1], sizes[|sizes| - 1], s.plainFiles) {
      MapsEnd(s.eof, acts, hs, states, rounds);
      ProducedOfMaps(acts, hs, states, rounds);
      s.dev.HoldsIsPrefix(start, Entered(rounds));
      assert Joined(outs) + [] == Joined(outs);
    }
  }

  /** Byte maps never fail, so a dependable device has said that it is at its end. */
  lemma MapsEnd<S(!new)>(eof: bool, acts: seq<Behaviour<S>>, hs: seq<byte -> byte>, states: seq<S>, rounds: seq<Round>)
    requires |acts| == |states| == |hs| && forall i | 0 <= i < |acts| :: MapsBytes(acts[i], hs[i])
    requires Ended(eof, true, acts, states, rounds)
    ensures eof
  {
    hide WindSpec, Produced, MapsBytes;
    if rounds != [] {
      var last := rounds[|rounds| - 1];
      WindOfMaps(acts, hs, Produced(acts, states, rounds[..|rounds| - 1]).0, last.input, last.feed);
    }
  }

  lemma OneMore(given: seq<byte>, out: seq<byte>, left: seq<byte>, before: seq<byte>, unread: seq<byte>,
      produced: seq<byte>, more: seq<byte>)
    requires given + before == unread + produced && out + left == before + more
    ensures given + out + left == unread + (produced + more)
  {
    assert given + out + left == given + (out + left);
    assert given + (before + more) == (given + before) + more;
    assert unread + produced + more == unread + (produced + more);
  }

  /** The part of each bucket that the device took. */
  predicate Kept(out: seq<seq<byte>>, kept: seq<seq<byte>>) {
    |kept| == |out| && forall i | 0 <= i < |out| :: kept[i] <= out[i]
  }

  /** Writes the buckets of a brigade to the device, one write each; what the device does not take of a
      bucket is dropped. */
  method PourOut(s: Stream, inp: Brigade) returns (ghost kept: seq<seq<byte>>)
    requires s.Coherent() && inp.Valid()
    modifies s`readpos, s`writepos, s`position, s`eof, s.dev`data, s.dev`offset, s.dev`sent, inp, inp.buckets
    ensures s.Coherent() && Kept(old(Contents(inp.buckets)), kept)
    ensures s.dev.dependable ==> kept == old(Contents(inp.buckets))
    ensures s.dev.seekable ==>
              && s.dev.data == Overwrite(old(s.dev.data), old(s.position), Flatten(kept)) && s.dev.sent == old(s.dev.sent)
              && s.position == old(s.position) + |Flatten(kept)|
    ensures !s.dev.seekable ==>
              && s.dev.sent == old(s.dev.sent) + Flatten(kept)
              && s.dev.data == old(s.dev.data) && s.position == old(s.position)
  {
    hide Brigade.Valid, Stream.BufferAt, Overwrite;
    ghost var start: nat, before, sent := PositionOf(s), s.dev.data, s.dev.sent;
    var chunks := Drain(inp);
    kept := [];
    OverwriteNothing(before, start);
    for i := 0 to |chunks|
      invariant s.Coherent() && Kept(chunks[..i], kept) && (s.dev.dependable ==> kept == chunks[..i])
      invariant s.dev.seekable ==>
                  && s.dev.data == Overwrite(before, start, Flatten(kept)) && s.dev.sent == sent
                  && s.position == start + |Flatten(kept)|
      invariant !s.dev.seekable ==> s.dev.sent == sent + Flatten(kept) && s.dev.data == before && s.position == start
    {
      var n := s.WriteBuffer(chunks[i]);
      ghost var piece := chunks[i][..n];
      OverwriteTwice(before, start, Flatten(kept), piece);
      FlattenConcat(kept, [piece]);
      assert Flatten([piece]) == piece;
      assert chunks[..i + 1] == chunks[..i] + [chunks[i]];
      assert n == |chunks[i]| ==> piece == chunks[i];
      kept := kept + [piece];
    }
    assert chunks[..|chunks|] == chunks;
  }

  ghost function PositionOf(s: Stream): nat
    requires s.Coherent()
    reads s, s.readbuf, s.dev
  {
    s.position
  }

  /** A write through a chain of filters, to a file or to a device that takes bytes one way.  `buf` is
      None when the chain is only flushed. */
  method WriteFiltered<S>(s: Stream, chain: seq<Filter<S>>, buf: Option<seq<byte>>, feed: Feed)
    returns (ghost kept: seq<seq<byte>>)
    requires s.Coherent() && chain != [] && Distinct(chain)
    modifies s`readpos, s`writepos, s`position, s`eof, s.dev`data, s.dev`offset, s.dev`sent, chain
    ensures s.Coherent()
    ensures var w := WindSpec(Acts(chain), old(States(chain)), if buf.Some? then [buf.value] else [], feed);
            && States(chain) == w.states
            && Kept(w.out, kept) && (s.dev.dependable ==> kept == w.out)
            && (if s.dev.seekable then
                  && s.dev.data == Overwrite(old(s.dev.data), old(s.position), Flatten(kept))
                  && s.dev.sent == old(s.dev.sent) && s.position == old(s.position) + |Flatten(kept)|
                else
                  && s.dev.sent == old(s.dev.sent) + Flatten(kept)
                  && s.dev.data == old(s.dev.data) && s.position == old(s.position))
  {
    ghost var start := PositionOf(s);
    hide WindSpec, Stream.BufferAt, Overwrite, Flatten, Brigade.Valid;
    var inp0, outp := MakeBrigades(buf);
    assert Contents(inp0.buckets) == if buf.Some? then [buf.value] else [];
    var status, inp;
    status, inp, outp := Wind(chain, inp0, outp, feed);
    if status == PassedOn {
      kept := PourOut(s, inp);
    } else {
      kept := [];
      FlattenNothing();
      OverwriteNothing(s.dev.data, start);
    }
  }

  lemma FlattenNothing()
    ensures Flatten([]) == []
  {
  }

  /** An input brigade holding at most one bucket, and an empty output brigade. */
  method MakeBrigades(buf: Option<seq<byte>>) returns (inp: Brigade, outp: Brigade)
    ensures fresh(inp) && fresh(outp) && inp != outp && inp.Valid() && outp.Valid() && outp.buckets == []
    ensures Contents(inp.buckets) == if buf.Some? then [buf.value] else []
    ensures forall i | 0 <= i < |inp.buckets| :: fresh(inp.buckets[i])
  {
    inp := new Brigade();
    outp := new Brigade();
    if buf.Some? {
      var bucket := new Bucket(buf.value, false);
      inp.Append(bucket);
    }
  }

  /** Appends a filter to a read chain: bytes already read ahead are wound through it at once and
      replaced by what it makes of them.  A filter that fails on them, or reports to have `consumed` more
      than there was, is taken off again, and the bytes stay as they were. */
  method FilterAppend<S>(s: Stream, chain: seq<Filter<S>>, f: Filter<S>, consumed: nat) returns (longer: seq<Filter<S>>)
    requires s.Valid()
    modifies s`readbuf, s`readpos, s`writepos, s.readbuf, f`state
    ensures s.Valid() && (s.readbuf == old(s.readbuf) || fresh(s.readbuf))
    ensures old(s.Unread()) == [] ==> longer == chain + [f] && s.Unread() == [] && f.state == old(f.state)
    ensures old(s.Unread()) != [] ==>
              var reply := f.act(old(f.state), [old(s.Unread())], Normal);
              f.state == reply.state &&
              if reply.Fatal? || old(s.Buffered()) < consumed then longer == chain && s.Unread() == old(s.Unread())
              else longer == chain + [f] && s.Unread() == if reply.PassOn? then Flatten(reply.out) else []
  {
    longer := chain + [f];
    if 0 < s.writepos - s.readpos {
      var unread := s.readbuf[s.readpos..s.writepos];
      var inp, outp := MakeBrigades(Some(unread));
      var status := Apply(f, inp, outp, Normal);
      if s.readpos + consumed > s.writepos {
        status := Failed;
      }
      match status
      case Failed =>
        longer := chain;
      case Starved =>
        s.readpos, s.writepos := 0, 0;
      case PassedOn =>
        s.readpos, s.writepos := 0, 0;
        assert s.Unread() == [];
        PourIn(s, outp);
    }
  }
}
