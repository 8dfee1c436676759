/** The options of a connection URI: what each of them sets, and what it answers. */
module Options {
  import opened Files
  import opened Text
  import opened Uris
  import opened Selection
  import ConnHash
  import Discovery

  const MONGODB_CR := 1
  const DEFAULT_LATENCY_MS := 15

  /** What options write: the read preference, the replica set, and what every server is given. */
  datatype Settings = Settings(
    readPref: ReadPref, tagsets: seq<seq<string>>, isReplSet: bool, replSet: Option<string>, latency: int,
    connectTimeout: int, socketTimeout: int,
    seedSet: Option<string>, db: Option<string>, authdb: Option<string>, username: Option<string>,
    password: Option<string>, mechanism: int)

  const START := Settings(PrimaryOnly, [], false, None, DEFAULT_LATENCY_MS, 60000, 30000, None, None, None, None, None, MONGODB_CR)

  function Lower(c: char): char {
    if 'A' <= c <= 'Z' then ((c as int) + 32) as char else c
  }

  /** strcasecmp finds no difference. */
  predicate Is(a: string, b: string) {
    |a| == |b| && forall i | 0 <= i < |a| :: Lower(a[i]) == Lower(b[i])
  }

  predicate IsTrue(v: string) {
    Is(v, "true") || v == "1"
  }

  /** strtol reads all of the text. */
  predicate IsNumber(v: string) {
    v == [] || (var digits := if v[0] == '-' || v[0] == '+' then v[1..] else v;
                digits != [] && forall c | c in digits :: IsDigit(c))
  }

  function MechanismNamed(v: string): Option<int> {
    if Is(v, "MONGODB-CR") then Some(MONGODB_CR)
    else if Is(v, "SCRAM-SHA-1") then Some(5)
    else if Is(v, "MONGODB-X509") then Some(4)
    else if Is(v, "GSSAPI") then Some(2)
    else if Is(v, "PLAIN") then Some(3)
    else None
  }

  function ReadPrefNamed(v: string): Option<ReadPref> {
    if Is(v, "primary") then Some(PrimaryOnly)
    else if Is(v, "primaryPreferred") then Some(PrimaryPreferred)
    else if Is(v, "secondary") then Some(SecondaryOnly)
    else if Is(v, "secondaryPreferred") then Some(SecondaryPreferred)
    else if Is(v, "nearest") then Some(Nearest)
    else None
  }

  function TagsOf(v: string): Option<seq<string>> {
    if v == [] then Some([]) else ParseTags(v, 0)
  }

  /** mongo_store_option: the answer, and the settings afterwards. */
  function Put(st: Settings, p: Pair): (int, Settings) {
    var n, v := p.name, p.value;
    if Is(n, "authMechanism") then
      var m := MechanismNamed(v);
      if m.None? then (3, st) else (0, st.(mechanism := m.value))
    else if Is(n, "authSource") then (0, st.(authdb := Some(v)))
    else if Is(n, "connectTimeoutMS") then (0, st.(connectTimeout := Atoi(v)))
    else if Is(n, "db") then (0, st.(db := Some(v), authdb := if st.db.Some? then None else st.authdb))
    else if Is(n, "fsync") || Is(n, "journal") then (0, st)
    else if Is(n, "password") then (0, st.(password := Some(v)))
    else if Is(n, "readPreference") then
      var pref := ReadPrefNamed(v);
      if pref.None? then (3, st) else (0, st.(readPref := pref.value))
    else if Is(n, "readPreferenceTags") then
      var tags := TagsOf(v);
      if tags.None? then (3, st) else (0, st.(tagsets := st.tagsets + [tags.value]))
    else if Is(n, "replicaSet") then
      if v == [] then (0, st.(replSet := None))
      else if v == "1" then (0, st.(replSet := None, isReplSet := true))
      else (0, st.(replSet := Some(v), seedSet := Some(v), isReplSet := true))
    else if Is(n, "gssapiServiceName") then (0, st)
    else if Is(n, "secondaryAcceptableLatencyMS") then (0, st.(latency := Atoi(v)))
    else if Is(n, "slaveOkay") then
      if !IsTrue(v) then (-1, st)
      else if st.readPref != PrimaryOnly || st.tagsets != [] then (3, st)
      else (-1, st.(readPref := SecondaryPreferred))
    else if Is(n, "socketTimeoutMS") then (0, st.(socketTimeout := Atoi(v)))
    else if Is(n, "ssl") then (if IsTrue(v) || Is(v, "false") || v == "0" then 0 else 3, st)
    else if Is(n, "timeout") then (-1, st.(connectTimeout := Atoi(v)))
    else if Is(n, "username") then
      (0, st.(username := Some(v),
              db := if st.db.Some? then st.db else Some("admin"),
              authdb := if st.db.None? && st.authdb.None? then Some("admin") else st.authdb))
    else if Is(n, "w") then (if IsNumber(v) && Atoi(v) < 0 then 3 else 0, st)
    else if Is(n, "wTimeout") || Is(n, "wTimeoutMS") then (0, st)
    else (2, st)
  }

  /** The settings after a sequence of options. */
  function After(done: seq<Pair>): Settings {
    if done == [] then START else Put(After(done[..|done| - 1]), done[|done| - 1]).1
  }

  /** The store that the URI parser works with: it answers by what was stored before. */
  function StoreOption(): Store {
    (done: seq<Pair>, p: Pair) => Put(After(done), p).0
  }

  lemma AfterSnoc(done: seq<Pair>, p: Pair)
    ensures After(done + [p]) == Put(After(done), p).1
  {
    assert (done + [p])[..|done|] == done;
  }

  // ---------- read preferences ----------

  /** None of these options failed behind those before it. */
  predicate AllStored(done: seq<Pair>) {
    forall i | 0 <= i < |done| :: !Fails([], done, i, StoreOption())
  }

  /** The read preference that an option asks for, if it asks for one. */
  function Asks(p: Pair): Option<ReadPref> {
    if Is(p.name, "readPreference") then ReadPrefNamed(p.value)
    else if Is(p.name, "slaveOkay") && IsTrue(p.value) then Some(SecondaryPreferred)
    else None
  }

  function LastAsked(done: seq<Pair>): Option<ReadPref> {
    if done == [] then None
    else if Asks(done[|done| - 1]).Some? then Asks(done[|done| - 1])
    else LastAsked(done[..|done| - 1])
  }

  /** Among options that were all stored, the last that asks for a read preference has it, and tagsets are
      there if and only if one was given. */
  lemma {:induction false} LastAskedIsSet(done: seq<Pair>)
    requires AllStored(done)
    ensures After(done).readPref == if LastAsked(done).Some? then LastAsked(done).value else PrimaryOnly
    ensures After(done).tagsets != [] <==> exists p | p in done :: Is(p.name, "readPreferenceTags")
  {
    if done != [] {
      var before, last := done[..|done| - 1], done[|done| - 1];
      AllStoredBefore(done);
      LastAskedIsSet(before);
      assert done == before + [last];
      PutAsks(After(before), last);
    }
  }

  lemma AllStoredBefore(done: seq<Pair>)
    requires done != [] && AllStored(done)
    ensures AllStored(done[..|done| - 1]) && Put(After(done[..|done| - 1]), done[|done| - 1]).0 <= 0
  {
    hide Put, After;
    var before := done[..|done| - 1];
    forall i | 0 <= i < |before|
      ensures !Fails([], before, i, StoreOption())
    {
      assert before[..i] == done[..i] && !Fails([], done, i, StoreOption());
    }
    assert !Fails([], done, |done| - 1, StoreOption());
    assert [] + before == before;
  }

  /** What an option that is stored does to the read preference and the tagsets. */
  lemma PutAsks(st: Settings, p: Pair)
    requires Put(st, p).0 <= 0
    ensures Put(st, p).1.readPref == if Asks(p).Some? then Asks(p).value else st.readPref
    ensures Put(st, p).1.tagsets != [] <==> st.tagsets != [] || Is(p.name, "readPreferenceTags")
  {
    hide Atoi, IsNumber, MechanismNamed, ReadPrefNamed, TagsOf, IsTrue, Is;
    NameLengths(p.name);
  }

  /** The names that touch the read preference have lengths of their own. */
  lemma NameLengths(n: string)
    ensures Is(n, "w") ==> |n| == 1
    ensures Is(n, "db") ==> |n| == 2
    ensures Is(n, "ssl") ==> |n| == 3
    ensures Is(n, "fsync") ==> |n| == 5
    ensures Is(n, "journal") || Is(n, "timeout") ==> |n| == 7
    ensures Is(n, "password") || Is(n, "username") || Is(n, "wTimeout") ==> |n| == 8
    ensures Is(n, "slaveOkay") ==> |n| == 9
    ensures Is(n, "authSource") || Is(n, "replicaSet") || Is(n, "wTimeoutMS") ==> |n| == 10
    ensures Is(n, "authMechanism") ==> |n| == 13
    ensures Is(n, "readPreference") ==> |n| == 14
    ensures Is(n, "socketTimeoutMS") ==> |n| == 15
    ensures Is(n, "connectTimeoutMS") ==> |n| == 16
    ensures Is(n, "gssapiServiceName") ==> |n| == 17
    ensures Is(n, "readPreferenceTags") ==> |n| == 18
    ensures Is(n, "secondaryAcceptableLatencyMS") ==> |n| == 28
  {
  }

  // ---------- the set, the mechanism, tags and latency ----------

  /** The names of one length are told apart by their first letter. */
  lemma FirstLetters(n: string)
    ensures Is(n, "replicaSet") ==> !Is(n, "authSource") && !Is(n, "wTimeoutMS")
    ensures Is(n, "authSource") ==> !Is(n, "wTimeoutMS")
    ensures Is(n, "password") ==> !Is(n, "username") && !Is(n, "wTimeout")
    ensures Is(n, "username") ==> !Is(n, "wTimeout")
    ensures Is(n, "journal") ==> !Is(n, "timeout")
  {
    assert Is(n, "replicaSet") ==> Lower(n[0]) == 'r';
    assert Is(n, "authSource") ==> Lower(n[0]) == 'a';
    assert Is(n, "password") ==> Lower(n[0]) == 'p';
    assert Is(n, "username") ==> Lower(n[0]) == 'u';
    assert Is(n, "journal") ==> Lower(n[0]) == 'j';
    assert |"wTimeoutMS"| == 10 && Is(n, "wTimeoutMS") ==> Lower(n[0]) == 'w';
    assert Is(n, "wTimeout") ==> Lower(n[0]) == 'w';
    assert Is(n, "timeout") ==> Lower(n[0]) == 't';
  }

  /** A value of replicaSet that is a name: neither nothing nor the text of "true". */
  predicate IsSetName(v: string) {
    v != "" && v != "1"
  }

  /** What an option does to the set, the mechanism, the tags, the latency and the time to connect. */
  lemma PutSets(st: Settings, p: Pair)
    ensures var after := Put(st, p).1;
            && after.isReplSet == (st.isReplSet || (Is(p.name, "replicaSet") && p.value != ""))
            && after.replSet == (if Is(p.name, "replicaSet") then (if IsSetName(p.value) then Some(p.value) else None) else st.replSet)
            && after.seedSet == (if Is(p.name, "replicaSet") && IsSetName(p.value) then Some(p.value) else st.seedSet)
            && after.mechanism == (if Is(p.name, "authMechanism") && MechanismNamed(p.value).Some?
                                   then MechanismNamed(p.value).value else st.mechanism)
            && after.tagsets == (if Is(p.name, "readPreferenceTags") && TagsOf(p.value).Some?
                                 then st.tagsets + [TagsOf(p.value).value] else st.tagsets)
            && after.latency == (if Is(p.name, "secondaryAcceptableLatencyMS") then Atoi(p.value) else st.latency)
            && after.connectTimeout == (if Is(p.name, "connectTimeoutMS") || Is(p.name, "timeout") then Atoi(p.value)
                                        else st.connectTimeout)
  {
    hide Atoi, IsNumber, MechanismNamed, ReadPrefNamed, TagsOf, IsTrue, Is;
    NameLengths(p.name);
    FirstLetters(p.name);
  }

  /** The last value under a name, among those that `counts` lets count. */
  function Last(done: seq<Pair>, name: string, counts: string -> bool): Option<string> {
    if done == [] then None
    else
      var p := done[|done| - 1];
      if Is(p.name, name) && counts(p.value) then Some(p.value) else Last(done[..|done| - 1], name, counts)
  }

  /** The tagsets given, in order. */
  function TagsetsIn(done: seq<Pair>): seq<seq<string>> {
    if done == [] then []
    else
      var p := done[|done| - 1];
      TagsetsIn(done[..|done| - 1])
      + if Is(p.name, "readPreferenceTags") && TagsOf(p.value).Some? then [TagsOf(p.value).value] else []
  }

  /** The set of the server list is the last one given, unless "1" or nothing came behind it; the seeds
      keep the last name given; an unknown mechanism changes nothing; tagsets add up in order; and the
      latency is 15 milliseconds unless something else is said. */
  lemma {:induction false} LastIsSet(done: seq<Pair>)
    ensures var st, all := After(done), (v: string) => true;
            && (st.isReplSet <==> exists p :: p in done && Is(p.name, "replicaSet") && p.value != "")
            && st.replSet == (var v := Last(done, "replicaSet", all); if v.Some? && IsSetName(v.value) then v else None)
            && st.seedSet == Last(done, "replicaSet", v => IsSetName(v))
            && st.mechanism == (var v := Last(done, "authMechanism", v => MechanismNamed(v).Some?);
                                if v.Some? && MechanismNamed(v.value).Some? then MechanismNamed(v.value).value else 1)
            && st.tagsets == TagsetsIn(done)
            && st.latency == (var v := Last(done, "secondaryAcceptableLatencyMS", all); if v.Some? then Atoi(v.value) else 15)
  {
    hide Put, Is, MechanismNamed, TagsOf, Atoi, IsSetName;
    if done != [] {
      var before, last := done[..|done| - 1], done[|done| - 1];
      assert done == before + [last];
      LastIsSet(before);
      AfterSnoc(before, last);
      PutSets(After(before), last);
    }
  }

  /** slaveOkay is refused if and only if it is switched on behind stored options that gave tags, or the
      last of which that asked for a read preference did not ask for the primary. */
  lemma SlaveOkayIsRefused(done: seq<Pair>, v: string)
    requires AllStored(done)
    ensures StoreOption()(done, Pair("slaveOkay", v)) > 0 <==>
              && IsTrue(v)
              && ((LastAsked(done).Some? && LastAsked(done) != Some(PrimaryOnly))
                  || exists p | p in done :: Is(p.name, "readPreferenceTags"))
    ensures StoreOption()(done, Pair("slaveOkay", v)) in {-1, 3}
  {
    LastAskedIsSet(done);
    SlaveOkayAnswers(After(done), v);
  }

  lemma SlaveOkayAnswers(st: Settings, v: string)
    ensures Put(st, Pair("slaveOkay", v)).0 ==
            if IsTrue(v) && (st.readPref != PrimaryOnly || st.tagsets != []) then 3 else -1
  {
    var n := "slaveOkay";
    assert Is(n, "slaveOkay") && Lower(n[0]) == 's' && |n| == 9;
    assert !Is(n, "wTimeoutMS") && !Is(n, "authMechanism");
  }

  // ---------- what a URI comes to ----------

  /** A printed URI is accepted if and only if none of its options fails behind those before it. */
  lemma AcceptedUris(u: Uri)
    requires Clean(u)
    ensures SpecOf(PrintUri(u), StoreOption()).Parsed? <==> u.path.NoPath? || AllStored(u.path.options)
  {
    hide SpecOf, PrintUri, Clean, StoreOption, StoreAll, Fails;
    UriRoundTrip(u, StoreOption());
    if u.path.Path? && u.path.options != [] {
      StoreAllStoresAll([], u.path.options, StoreOption());
    }
  }

  /** Asking for a read preference other than the primary, or for secondaries twice, refuses a URI that
      then switches slaveOkay on, although each option is accepted on its own. */
  lemma SlaveOkayTwice(u: Uri, p: Pair, v: string)
    requires Clean(u) && u.path.Path? && u.path.options == [p, Pair("slaveOkay", v)] && IsTrue(v)
    requires StoreOption()([], p) <= 0 && Asks(p).Some? && Asks(p) != Some(PrimaryOnly)
    ensures SpecOf(PrintUri(u), StoreOption()) == Refused(3) && StoreOption()([], Pair("slaveOkay", v)) == -1
  {
    hide SpecOf, PrintUri, Clean, Put, Asks, IsTrue, Fails;
    var q := Pair("slaveOkay", v);
    var ps := u.path.options;
    UriRoundTrip(u, StoreOption());
    SlaveOkayAnswers(START, v);
    AfterSnoc([], p);
    PutAsks(START, p);
    SlaveOkayAnswers(After([p]), v);
    assert [] + [p] == [p] && ps[1..] == [q];
    assert After([]) == START;
    assert StoreAll([], ps, StoreOption()) == StoreAll([p], [q], StoreOption());
    assert [p] + [q] == [p, q];
  }

  /** "mongodb://h/db?slaveOkay=true&slaveOkay=true". */
  lemma SlaveOkayTwiceExample()
    ensures var p := Pair("slaveOkay", "true");
            var u := Uri(None, [Host("h", None)], Path("db", [p, p]), '&');
            && Clean(u) && StoreOption()([], p) == -1 && SpecOf(PrintUri(u), StoreOption()) == Refused(3)
  {
    hide SpecOf, StoreOption, Put;
    var p := Pair("slaveOkay", "true");
    var u := Uri(None, [Host("h", None)], Path("db", [p, p]), '&');
    ExampleIsClean(p, u);
    SlaveOkayAnswers(START, "true");
    FirstAnswer(p);
    SlaveOkayTwice(u, p, "true");
  }

  lemma ExampleIsClean(p: Pair, u: Uri)
    requires p == Pair("slaveOkay", "true") && u == Uri(None, [Host("h", None)], Path("db", [p, p]), '&')
    ensures Clean(u) && IsTrue("true") && Asks(p) == Some(SecondaryPreferred)
  {
    hide *;
    AsksForSecondaries();
    ExampleText(p, u);
    NoLoginWithoutAt(PrintHosts(u.hosts) + PrintPath(u.path, u.sep));
    ExampleParts(p, u);
  }

  lemma ExampleParts(p: Pair, u: Uri)
    requires p == Pair("slaveOkay", "true") && u == Uri(None, [Host("h", None)], Path("db", [p, p]), '&')
    requires PrintHosts(u.hosts) != [] && !LooksLikeLogin(PrintHosts(u.hosts) + PrintPath(u.path, u.sep))
    ensures Clean(u)
  {
    hide LooksLikeLogin, PrintHosts, PrintPath;
  }

  lemma ExampleText(p: Pair, u: Uri)
    requires p == Pair("slaveOkay", "true") && u == Uri(None, [Host("h", None)], Path("db", [p, p]), '&')
    ensures PrintHosts(u.hosts) == "h" && '@' !in PrintHosts(u.hosts) + PrintPath(u.path, u.sep)
  {
    hide PrintPairs, PrintPair;
    TwoPairs(p, p, '&');
    assert '@' !in PrintPair(p) by { PairText(p); }
    assert PrintHosts(u.hosts) == "h";
    assert '@' !in "h" && '@' !in "/" && '@' !in "db" && '@' !in "?" && '@' !in ['&'];
  }

  lemma PairText(p: Pair)
    requires p == Pair("slaveOkay", "true")
    ensures '@' !in PrintPair(p)
  {
    assert PrintPair(p) == "slaveOkay=true";
  }

  lemma TwoPairs(p: Pair, q: Pair, sep: char)
    ensures PrintPairs([p, q], sep) == PrintPair(p) + [sep] + PrintPair(q)
  {
    hide PrintPair;
    assert [p, q][1..] == [q];
  }

  lemma AsksForSecondaries()
    ensures IsTrue("true") && Asks(Pair("slaveOkay", "true")) == Some(SecondaryPreferred)
  {
    hide ReadPrefNamed;
    NameLengths("slaveOkay");
  }

  lemma NoLoginWithoutAt(s: string)
    requires '@' !in s
    ensures !LooksLikeLogin(s)
  {
    hide StrChr;
    assert forall i | 0 <= i < |s| :: s[i] in s;
  }

  lemma FirstAnswer(p: Pair)
    ensures StoreOption()([], p) == Put(START, p).0
  {
    hide Put;
  }

  /** The server definitions that a parsed URI leaves: what options said of user, password and database
      is overwritten by what the URI itself says of them. */
  function Seeds(spec: Spec): seq<ConnHash.ServerDef> {
    var st := After(spec.stored);
    seq(|spec.hosts|, i requires 0 <= i < |spec.hosts| =>
      ConnHash.ServerDef(spec.hosts[i].host, spec.hosts[i].port, st.seedSet, spec.db, st.authdb,
        if spec.login.Some? then Some(spec.login.value.user) else None,
        if spec.login.Some? then Some(spec.login.value.password) else None, st.mechanism))
  }

  /** So the seeds are the hosts of the URI in order, under the last set name and the last known mechanism
      that its options give; a seed has credentials if and only if the URI itself holds a user and a
      password, and then those, whatever the options say; and the seeds differ in nothing but the address,
      as discovery needs it. */
  lemma SeedsOfAUri(s: string)
    requires SpecOf(s, StoreOption()).Parsed?
    ensures var spec := SpecOf(s, StoreOption()).spec;
            var login, mechanism := LoginOf(s).0, Last(spec.stored, "authMechanism", v => MechanismNamed(v).Some?);
            && Seeds(spec) != [] && |Seeds(spec)| == |spec.hosts|
            && forall i | 0 <= i < |spec.hosts| ::
                 var d := Seeds(spec)[i];
                 && (d.host, d.port) == (spec.hosts[i].host, spec.hosts[i].port)
                 && d.replSet == Last(spec.stored, "replicaSet", v => IsSetName(v))
                 && (mechanism.None? ==> d.mechanism == 1) && (mechanism.Some? ==> Some(d.mechanism) == MechanismNamed(mechanism.value))
                 && (d.HasCredentials() <==> login.Some?)
                 && (login.Some? ==> d.username == Some(login.value.user) && d.password == Some(login.value.password))
                 && d.db == spec.db
    ensures var spec := SpecOf(s, StoreOption()).spec;
            forall d, e | d in Seeds(spec) && e in Seeds(spec) :: Discovery.SameButAddress(d, e)
  {
    hide ScanHosts, ScanOptions, LoginOf, DatabaseName, After, StrChr, SocketEnd, StoreOption, Last, MechanismNamed, IsSetName;
    HostsAreThere(s);
    LastIsSet(SpecOf(s, StoreOption()).spec.stored);
    LastCounts(SpecOf(s, StoreOption()).spec.stored, "authMechanism", v => MechanismNamed(v).Some?);
  }

  lemma {:induction false} LastCounts(done: seq<Pair>, name: string, counts: string -> bool)
    ensures Last(done, name, counts).Some? ==> counts(Last(done, name, counts).value)
  {
    if done != [] {
      LastCounts(done[..|done| - 1], name, counts);
    }
  }

  lemma HostsAreThere(s: string)
    requires SpecOf(s, StoreOption()).Parsed?
    ensures SpecOf(s, StoreOption()).spec.hosts != []
  {
    hide ScanOptions, DatabaseName, StrChr, SocketEnd, StoreOption;
    var (login, pos) := LoginOf(s);
    if pos < |s| {
      SomeHost(s, pos, None, pos);
    }
  }

  lemma {:induction false} SomeHost(s: string, start: nat, colon: Option<nat>, pos: nat)
    requires start <= pos <= |s| && (colon.Some? ==> start <= colon.value < pos)
    ensures ScanHosts(s, start, colon, pos).hosts != []
    decreases |s| - pos
  {
    hide Address;
    if pos < |s| && s[pos] != '/' && s[pos] != ',' {
      SomeHost(s, start, if s[pos] == ':' then Some(pos) else colon, pos + 1);
    }
  }
}
