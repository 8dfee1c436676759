/** Server selection: which registered connections a request may use, in which order they are
    preferred, and which one it gets. */
module Selection {
  import opened Files
  import opened Collections
  import opened Connections
  import opened ConnHash

  /** A connection as it is when the selection looks at it. */
  datatype Server = Server(hash: string, nodeType: NodeType, pingMs: int, tags: seq<string>)

  datatype ReadPref = PrimaryOnly | PrimaryPreferred | SecondaryOnly | SecondaryPreferred | Nearest | Any

  /** The server list of a request: whether it is a replica set, the set's name, the seeds. */
  datatype Target = Target(isReplSet: bool, replSet: Option<string>, seeds: seq<ServerDef>)

  // ---------- candidates ----------

  /** The node types that a read preference collects. */
  function TypesFor(pref: ReadPref): set<NodeType> {
    match pref
    case PrimaryOnly => {Primary}
    case PrimaryPreferred | SecondaryPreferred | Nearest => {Primary, Secondary}
    case SecondaryOnly => {Secondary}
    case Any => {Standalone, Primary, Secondary, Mongos, Arbiter}
  }

  function IsOurs(pid: int, types: set<NodeType>): Server -> bool {
    (s: Server) => HashToPid(s.hash) == Some(pid) && s.nodeType in types
  }

  /** The hash names a set, and it is the wanted one, if one is wanted. */
  function HasSetName(replSet: Option<string>): Server -> bool {
    (s: Server) =>
      var parts := SplitHash(s.hash);
      parts.Some? && parts.value.replSet.Some? && (replSet.None? || parts.value.replSet == replSet)
  }

  /** The credentials in the hash are those of the first seed, if that has any. */
  function HasCredentialsOf(seed: ServerDef, pid: int): Server -> bool {
    (s: Server) =>
      seed.HasCredentials() ==>
        var parts := SplitHash(s.hash);
        && parts.Some? && parts.value.login.Some?
        && var login := parts.value.login.value;
        && login.db == seed.db.value && login.username == seed.username.value
        && login.authHash == HashedPassword(pid, login.username, seed.password.value)
  }

  /** How many pairs of a wanted tag and a tag of the server are equal. */
  function PairsFound(wanted: seq<string>, tags: seq<string>): nat {
    if wanted == [] then 0
    else PairsFound(wanted[..|wanted| - 1], tags) + Occurrences(tags, wanted[|wanted| - 1])
  }

  function Occurrences(tags: seq<string>, tag: string): nat {
    if tags == [] then 0
    else Occurrences(tags[..|tags| - 1], tag) + (if tags[|tags| - 1] == tag then 1 else 0)
  }

  /** candidate_matches_tags: as many pairs as wanted tags, counted by two nested loops. */
  method CandidateMatchesTags(tags: seq<string>, wanted: seq<string>) returns (matches: bool)
    ensures matches == (PairsFound(wanted, tags) == |wanted|)
  {
    var found := 0;
    for i := 0 to |wanted|
      invariant found == PairsFound(wanted[..i], tags)
    {
      ghost var before := found;
      for j := 0 to |tags|
        invariant found == before + Occurrences(tags[..j], wanted[i])
      {
        assert tags[..j + 1][..j] == tags[..j];
        if wanted[i] == tags[j] {
          found := found + 1;
        }
      }
      assert tags[..|tags|] == tags;
      assert wanted[..i + 1][..i] == wanted[..i];
    }
    assert wanted[..|wanted|] == wanted;
    matches := found == |wanted|;
  }

  /** Passes the tagset, or is a primary that a preference for primaries lets through. */
  function PassesTagset(pref: ReadPref, wanted: seq<string>): Server -> bool {
    (s: Server) => (pref == PrimaryPreferred && s.nodeType == Primary) || PairsFound(wanted, s.tags) == |wanted|
  }

  method FilterByTagset(all: Collection<Server>, pref: ReadPref, wanted: seq<string>) returns (c: Collection<Server>)
    requires all.Valid()
    ensures c.Valid() && c.View() == Keep(all.View(), PassesTagset(pref, wanted)) && fresh(c) && fresh(c.data)
  {
    hide Keep, PairsFound;
    c := new Collection();
    ghost var s, p := all.View(), PassesTagset(pref, wanted);
    KeepNothing(p);
    for i := 0 to all.count
      invariant c.Valid() && fresh(c) && fresh(c.data)
      invariant c.View() == Keep(s[..i], p)
    {
      var server := all.data[i];
      KeepNext(s, i, p);
      assert s[i] == server;
      var matches := pref == PrimaryPreferred && server.nodeType == Primary;
      if !matches {
        matches := CandidateMatchesTags(server.tags, wanted);
      }
      assert matches == p(server);
      if matches {
        c.Add(server);
      }
    }
    assert s[..all.count] == s;
  }

  /** Tags without repetition. */
  ghost predicate NoRepeats(tags: seq<string>) {
    forall i, j | 0 <= i < j < |tags| :: tags[i] != tags[j]
  }

  ghost predicate Covers(tags: seq<string>, wanted: seq<string>) {
    forall t | t in wanted :: t in tags
  }

  lemma {:induction false} OccurrencesIsOne(tags: seq<string>, tag: string)
    ensures Occurrences(tags, tag) == 0 <==> tag !in tags
    ensures NoRepeats(tags) ==> Occurrences(tags, tag) <= 1
  {
    if tags != [] {
      var front, last := tags[..|tags| - 1], tags[|tags| - 1];
      OccurrencesIsOne(front, tag);
      assert tags == front + [last];
      if NoRepeats(tags) && last == tag {
        assert tag !in front;
      }
    }
  }

  lemma {:induction false} PairsOfUnique(wanted: seq<string>, tags: seq<string>)
    requires NoRepeats(tags)
    ensures PairsFound(wanted, tags) <= |wanted|
    ensures PairsFound(wanted, tags) == |wanted| <==> Covers(tags, wanted)
  {
    if wanted != [] {
      var front, last := wanted[..|wanted| - 1], wanted[|wanted| - 1];
      PairsOfUnique(front, tags);
      OccurrencesIsOne(tags, last);
      assert wanted == front + [last];
    }
  }

  lemma {:induction false} TwiceCountsTwice(tags: seq<string>, i: nat, j: nat)
    requires i < j < |tags| && tags[i] == tags[j]
    ensures 2 <= Occurrences(tags, tags[j])
  {
    var front, last := tags[..|tags| - 1], tags[|tags| - 1];
    if j < |tags| - 1 {
      TwiceCountsTwice(front, i, j);
    } else {
      OccurrencesIsOne(front, tags[j]);
      assert front[i] == tags[j];
    }
  }

  /** Counting pairs decides "all wanted tags are there" for every tagset if and only if the server
      carries no tag twice. */
  lemma CountingIsCovering(tags: seq<string>)
    ensures (forall wanted: seq<string> :: PairsFound(wanted, tags) == |wanted| <==> Covers(tags, wanted))
            <==> NoRepeats(tags)
  {
    if NoRepeats(tags) {
      forall wanted: seq<string>
        ensures PairsFound(wanted, tags) == |wanted| <==> Covers(tags, wanted)
      {
        PairsOfUnique(wanted, tags);
      }
    } else {
      var i, j :| 0 <= i < j < |tags| && tags[i] == tags[j];
      TwiceCountsTwice(tags, i, j);
      var wanted := [tags[j]];
      assert PairsFound(wanted, tags) == PairsFound(wanted[..0], tags) + Occurrences(tags, tags[j]);
      assert Covers(tags, wanted);
    }
  }

  // ---------- all filters together ----------

  /** What the tagsets leave of `s`: the matches of the first that has any, or nothing at all. */
  function ByTagsets(s: seq<Server>, pref: ReadPref, tagsets: seq<seq<string>>): Option<seq<Server>> {
    if tagsets == [] then None
    else
      var r := Keep(s, PassesTagset(pref, tagsets[0]));
      if r != [] then Some(r) else ByTagsets(s, pref, tagsets[1..])
  }

  /** The connections of the seeds, seed by seed. */
  function BySeeds(s: seq<Server>, seeds: seq<ServerDef>, pid: int): seq<Server> {
    if seeds == [] then []
    else BySeeds(s, seeds[..|seeds| - 1], pid) + Keep(s, HasHash(HashOf(seeds[|seeds| - 1], pid)))
  }

  function HasHash(hash: string): Server -> bool {
    (s: Server) => s.hash == hash
  }

  /** What the filters by process, type and set name, or by seeds, leave for the credentials filter. */
  function Named(registry: seq<Server>, pref: ReadPref, target: Target, pid: int): seq<Server> {
    var all := Keep(registry, IsOurs(pid, TypesFor(pref)));
    if target.isReplSet then Keep(all, HasSetName(target.replSet)) else BySeeds(all, target.seeds, pid)
  }

  /** The candidates before tags are looked at. */
  function Eligible(registry: seq<Server>, pref: ReadPref, target: Target, pid: int): seq<Server>
    requires target.seeds != []
  {
    Keep(Named(registry, pref, target, pid), HasCredentialsOf(target.seeds[0], pid))
  }

  /** mongo_find_candidate_servers; None where the source returns no collection. */
  function CandidatesOf(registry: seq<Server>, pref: ReadPref, tagsets: seq<seq<string>>, target: Target, pid: int): Option<seq<Server>>
    requires target.seeds != []
  {
    var eligible := Eligible(registry, pref, target, pid);
    if tagsets == [] then Some(eligible) else ByTagsets(eligible, pref, tagsets)
  }

  /** Where the source follows no null pointer: the process id is read from every hash, the set name from
      those of this process, and the login from what is left of them.  A connection without a login that
      gets as far as the credentials filter makes it call strcmp on a null pointer if the first seed has
      credentials; connections of other sets and types may have a login or not. */
  predicate Readable(registry: seq<Server>, pref: ReadPref, target: Target, pid: int)
    requires target.seeds != []
  {
    && (forall s | s in registry :: HashToPid(s.hash).Some?)
    && (target.isReplSet ==> forall s | s in Keep(registry, IsOurs(pid, TypesFor(pref))) :: SplitHash(s.hash).Some?)
    && (forall s | s in Named(registry, pref, target, pid) ::
          && SplitHash(s.hash).Some?
          && (target.seeds[0].HasCredentials() ==> SplitHash(s.hash).value.login.Some?))
  }

  method FilterBySeeds(all: Collection<Server>, seeds: seq<ServerDef>, pid: int) returns (c: Collection<Server>)
    requires all.Valid()
    ensures c.Valid() && c.View() == BySeeds(all.View(), seeds, pid) && fresh(c) && fresh(c.data)
  {
    hide Keep, HashOf;
    c := new Collection();
    ghost var s := all.View();
    for i := 0 to |seeds|
      invariant c.Valid() && fresh(c) && fresh(c.data)
      invariant c.View() == BySeeds(s, seeds[..i], pid)
    {
      var hash := CreateHash(seeds[i], pid);
      ghost var before, p := c.View(), HasHash(hash);
      KeepNothing(p);
      for j := 0 to all.count
        invariant c.Valid() && fresh(c) && fresh(c.data)
        invariant c.View() == before + Keep(s[..j], p)
      {
        KeepNext(s, j, p);
        if all.data[j].hash == hash {
          c.Add(all.data[j]);
        }
      }
      assert s[..all.count] == s && seeds[..i + 1][..i] == seeds[..i];
    }
    assert seeds[..|seeds|] == seeds;
  }

  /** The filters, one after the other. */
  method FindCandidates(registry: seq<Server>, pref: ReadPref, tagsets: seq<seq<string>>, target: Target, pid: int)
    returns (r: Option<Collection<Server>>)
    requires target.seeds != [] && Readable(registry, pref, target, pid)
    ensures var spec := CandidatesOf(registry, pref, tagsets, target, pid);
            && (r.Some? <==> spec.Some?)
            && (r.Some? ==> r.value.Valid() && r.value.View() == spec.value && fresh(r.value) && fresh(r.value.data))
  {
    var all := Collect(registry, IsOurs(pid, TypesFor(pref)));
    if target.isReplSet {
      all := Collect(all.View(), HasSetName(target.replSet));
    } else {
      all := FilterBySeeds(all, target.seeds, pid);
    }
    all := Collect(all.View(), HasCredentialsOf(target.seeds[0], pid));
    if tagsets == [] {
      return Some(all);
    }
    for i := 0 to |tagsets|
      invariant all.Valid() && all.View() == Eligible(registry, pref, target, pid) && fresh(all) && fresh(all.data)
      invariant ByTagsets(all.View(), pref, tagsets) == ByTagsets(all.View(), pref, tagsets[i..])
    {
      assert tagsets[i..][0] == tagsets[i] && tagsets[i..][1..] == tagsets[i + 1..];
      var filtered := FilterByTagset(all, pref, tagsets[i]);
      if 0 < filtered.count {
        return Some(filtered);
      }
    }
    r := None;
  }

  /** What it takes to be a candidate of a replica set before tags are looked at. */
  predicate Qualifies(s: Server, pref: ReadPref, target: Target, pid: int)
    requires target.seeds != []
  {
    && IsOurs(pid, TypesFor(pref))(s)
    && HasSetName(target.replSet)(s)
    && HasCredentialsOf(target.seeds[0], pid)(s)
  }

  /** The candidates of a replica set are exactly the registered connections of this process that pass
      type, set name and credentials, in the order of the registry. */
  lemma EligibleIsQualified(registry: seq<Server>, pref: ReadPref, target: Target, pid: int)
    requires target.seeds != [] && target.isReplSet
    ensures Eligible(registry, pref, target, pid) == Keep(registry, (s: Server) => Qualifies(s, pref, target, pid))
  {
    var p, q, c := IsOurs(pid, TypesFor(pref)), HasSetName(target.replSet), HasCredentialsOf(target.seeds[0], pid);
    var pq := (s: Server) => p(s) && q(s);
    KeepTwice(registry, p, q, pq);
    KeepTwice(registry, pq, c, (s: Server) => Qualifies(s, pref, target, pid));
  }

  /** The result is cut by the first tagset that leaves anything, and is missing only if none does. */
  lemma {:induction false} TagsetsCut(s: seq<Server>, pref: ReadPref, tagsets: seq<seq<string>>)
    ensures ByTagsets(s, pref, tagsets).None? <==>
            forall i | 0 <= i < |tagsets| :: Keep(s, PassesTagset(pref, tagsets[i])) == []
    ensures ByTagsets(s, pref, tagsets).Some? ==>
              exists i :: 0 <= i < |tagsets|
                && ByTagsets(s, pref, tagsets) == Some(Keep(s, PassesTagset(pref, tagsets[i])))
                && Keep(s, PassesTagset(pref, tagsets[i])) != []
                && forall j | 0 <= j < i :: Keep(s, PassesTagset(pref, tagsets[j])) == []
  {
    if tagsets != [] {
      hide Keep;
      TagsetsCut(s, pref, tagsets[1..]);
      var first := Keep(s, PassesTagset(pref, tagsets[0]));
      if first == [] {
        if ByTagsets(s, pref, tagsets[1..]).Some? {
          var i :| 0 <= i < |tagsets[1..]|
                   && ByTagsets(s, pref, tagsets[1..]) == Some(Keep(s, PassesTagset(pref, tagsets[1..][i])))
                   && Keep(s, PassesTagset(pref, tagsets[1..][i])) != []
                   && forall j | 0 <= j < i :: Keep(s, PassesTagset(pref, tagsets[1..][j])) == [];
          assert tagsets[1..][i] == tagsets[i + 1];
          forall j | 0 <= j < i + 1
            ensures Keep(s, PassesTagset(pref, tagsets[j])) == []
          {
            if 0 < j { assert tagsets[1..][j - 1] == tagsets[j]; }
          }
        } else {
          forall j | 0 <= j < |tagsets|
            ensures Keep(s, PassesTagset(pref, tagsets[j])) == []
          {
            if 0 < j { assert tagsets[1..][j - 1] == tagsets[j]; }
          }
        }
      }
    }
  }

  // ---------- candidates by what connections were made of ----------

  /** Whether a read preference lets a node of this type serve: a primary unless secondaries alone are
      wanted, a secondary unless the primary alone is, and others only if anything will do. */
  predicate MayServe(pref: ReadPref, nodeType: NodeType) {
    match nodeType
    case Invalid => false
    case Primary => pref != SecondaryOnly
    case Secondary => pref != PrimaryOnly
    case _ => pref == ReadPref.Any
  }

  /** A registered connection, what it was made for, and the process that made it. */
  datatype Made = Made(server: Server, def: ServerDef, pid: int)
  {
    predicate Valid() {
      Clean(def) && server.hash == HashOf(def, pid)
    }
  }

  /** The same database and user, and a password that hashes to the same. */
  predicate SameLogin(d: ServerDef, seed: ServerDef, pid: int)
    requires seed.HasCredentials()
  {
    && d.HasCredentials() && d.db == seed.db && d.username == seed.username
    && HashedPassword(pid, d.username.value, d.password.value) == HashedPassword(pid, d.username.value, seed.password.value)
  }

  /** The connection belongs to the set that is asked for, or to any set if none is named; without a set
      it is a connection to one of the seeds. */
  predicate Belongs(m: Made, target: Target) {
    if target.isReplSet then m.def.replSet.Some? && (target.replSet.None? || m.def.replSet == target.replSet)
    else exists d :: d in target.seeds && PartsOf(d, m.pid) == PartsOf(m.def, m.pid)
  }

  /** What a request may use: connections of this process, to nodes that its read preference lets serve,
      where they belong, under the login of the first seed if that has one. */
  predicate Usable(m: Made, pref: ReadPref, target: Target, pid: int)
    requires target.seeds != []
  {
    && m.pid == pid && MayServe(pref, m.server.nodeType) && Belongs(m, target)
    && (target.seeds[0].HasCredentials() ==> SameLogin(m.def, target.seeds[0], pid))
  }

  lemma TypesAreServed(pref: ReadPref, nodeType: NodeType)
    ensures nodeType in TypesFor(pref) <==> MayServe(pref, nodeType)
  {
  }

  lemma OursAreMadeHere(m: Made, pref: ReadPref, pid: int)
    requires m.Valid()
    ensures IsOurs(pid, TypesFor(pref))(m.server) <==> m.pid == pid && MayServe(pref, m.server.nodeType)
  {
    hide HashOf, HashToPid, TypesFor, MayServe, Clean;
    PidIsFound(m.def, m.pid);
    TypesAreServed(pref, m.server.nodeType);
  }

  lemma SetNamesAreRead(m: Made, replSet: Option<string>)
    requires m.Valid()
    ensures HasSetName(replSet)(m.server) <==> m.def.replSet.Some? && (replSet.None? || m.def.replSet == replSet)
  {
    hide HashOf, SplitHash, Clean;
    SplitInvertsCreate(m.def, m.pid);
  }

  /** The credentials filter lets through exactly the connections made under the seed's login. */
  lemma LoginsAreRead(m: Made, seed: ServerDef, pid: int)
    requires m.Valid() && m.pid == pid
    ensures HasCredentialsOf(seed, pid)(m.server) <==> (seed.HasCredentials() ==> SameLogin(m.def, seed, pid))
  {
    hide HashOf, SplitHash, Clean, HashedPassword;
    SplitInvertsCreate(m.def, m.pid);
  }

  lemma {:induction false} BySeedsHas(s: seq<Server>, seeds: seq<ServerDef>, pid: int, x: Server)
    ensures x in BySeeds(s, seeds, pid) <==> x in s && exists d :: d in seeds && HashOf(d, pid) == x.hash
  {
    hide HashOf, Keep;
    if seeds != [] {
      var front, last := seeds[..|seeds| - 1], seeds[|seeds| - 1];
      BySeedsHas(s, front, pid, x);
      KeepHas(s, HasHash(HashOf(last, pid)), x);
      assert seeds == front + [last];
    }
  }

  /** A connection to one of the seeds is known by its hash. */
  lemma SeedsAreKnown(m: Made, seeds: seq<ServerDef>)
    requires m.Valid() && forall d | d in seeds :: Clean(d)
    ensures (exists d :: d in seeds && HashOf(d, m.pid) == m.server.hash) <==>
            (exists d :: d in seeds && PartsOf(d, m.pid) == PartsOf(m.def, m.pid))
  {
    hide HashOf, PartsOf, Clean;
    forall d | d in seeds
      ensures HashOf(d, m.pid) == m.server.hash <==> PartsOf(d, m.pid) == PartsOf(m.def, m.pid)
    {
      SameHash(d, m.def, m.pid);
    }
  }

  /** The candidates are exactly the registered connections that may be used. */
  lemma EligibleIsUsable(registry: seq<Server>, m: Made, pref: ReadPref, target: Target, pid: int)
    requires target.seeds != [] && m.Valid() && (!target.isReplSet ==> forall d | d in target.seeds :: Clean(d))
    ensures m.server in Eligible(registry, pref, target, pid) <==> m.server in registry && Usable(m, pref, target, pid)
  {
    hide Keep, HashOf, Clean, MayServe, TypesFor, IsOurs, HasSetName, HasCredentialsOf, SameLogin, PartsOf, BySeeds, Made.Valid;
    var s, ours := m.server, IsOurs(pid, TypesFor(pref));
    var all := Keep(registry, ours);
    KeepHas(registry, ours, s);
    OursAreMadeHere(m, pref, pid);
    if target.isReplSet {
      KeepHas(all, HasSetName(target.replSet), s);
      SetNamesAreRead(m, target.replSet);
    } else {
      BySeedsHas(all, target.seeds, pid, s);
      SeedsAreKnown(m, target.seeds);
    }
    KeepHas(Named(registry, pref, target, pid), HasCredentialsOf(target.seeds[0], pid), s);
    if m.pid == pid {
      LoginsAreRead(m, target.seeds[0], pid);
    }
  }

  function Servers(made: seq<Made>): seq<Server> {
    if made == [] then [] else Servers(made[..|made| - 1]) + [made[|made| - 1].server]
  }

  /** The servers of what may be used, in order. */
  function UsableServers(made: seq<Made>, pref: ReadPref, target: Target, pid: int): seq<Server>
    requires target.seeds != []
  {
    if made == [] then []
    else
      var last := made[|made| - 1];
      UsableServers(made[..|made| - 1], pref, target, pid) + if Usable(last, pref, target, pid) then [last.server] else []
  }

  /** The candidates of a replica set, before tags are looked at, are the connections that may be used,
      in the order of the registry. */
  lemma {:induction false} CandidatesAreUsable(made: seq<Made>, pref: ReadPref, target: Target, pid: int)
    requires target.seeds != [] && target.isReplSet && forall m | m in made :: m.Valid()
    ensures Eligible(Servers(made), pref, target, pid) == UsableServers(made, pref, target, pid)
  {
    hide HashOf, Clean, Usable, IsOurs, HasSetName, HasCredentialsOf, TypesFor, Made.Valid;
    var q := (s: Server) => Qualifies(s, pref, target, pid);
    EligibleIsQualified(Servers(made), pref, target, pid);
    if made != [] {
      var front, last := made[..|made| - 1], made[|made| - 1];
      CandidatesAreUsable(front, pref, target, pid);
      EligibleIsQualified(Servers(front), pref, target, pid);
      assert Servers(made)[..|Servers(front)|] == Servers(front);
      assert q(last.server) == Usable(last, pref, target, pid) by { QualifiesIsUsable(last, pref, target, pid); }
      assert Keep(Servers(made), q) == Keep(Servers(front), q) + if q(last.server) then [last.server] else [];
      SameKeep(Servers(front), pref, target, pid, q);
    }
  }

  lemma QualifiesIsUsable(m: Made, pref: ReadPref, target: Target, pid: int)
    requires target.seeds != [] && target.isReplSet && m.Valid()
    ensures Qualifies(m.server, pref, target, pid) <==> Usable(m, pref, target, pid)
  {
    hide HashOf, Clean, MayServe, TypesFor, IsOurs, HasSetName, HasCredentialsOf, SameLogin, PartsOf, Made.Valid;
    OursAreMadeHere(m, pref, pid);
    SetNamesAreRead(m, target.replSet);
    if m.pid == pid {
      LoginsAreRead(m, target.seeds[0], pid);
    }
  }

  /** Two ways to write one filter. */
  lemma {:induction false} SameKeep(s: seq<Server>, pref: ReadPref, target: Target, pid: int, q: Server -> bool)
    requires target.seeds != [] && forall x :: q(x) == Qualifies(x, pref, target, pid)
    ensures Keep(s, q) == Keep(s, (x: Server) => Qualifies(x, pref, target, pid))
  {
    if s != [] {
      SameKeep(s[..|s| - 1], pref, target, pid, q);
    }
  }
}
