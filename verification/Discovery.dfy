/** Topology discovery: a list of servers that grows while it is being scanned. */
module Discovery {
  import opened Files
  import opened Text
  import opened LinkedLists
  import opened Connections
  import opened ConnHash
  import opened Managers

  const MAX_SERVERS_LIMIT := 16

  /** What one isMaster exchange brings back. */
  datatype Reply =
    | NotDue
    | NoReply
    | BadWire
    | Answer(nodeType: NodeType, me: Option<string>, setName: Option<string>, hosts: seq<string>)

  /** The result codes of mongo_connection_ismaster. */
  datatype Code = Failed | Worked | Skipped | Renamed | WrongWire

  datatype Checked = Checked(code: Code, def: ServerDef, replSet: Option<string>, hosts: seq<string>)

  /** A member's name in a reply is "HOST:PORT". */
  predicate IsAddress(s: string) {
    ':' in s
  }

  predicate AllAddresses(hosts: seq<string>) {
    forall h | h in hosts :: IsAddress(h)
  }

  function HostOf(s: string): string
    requires IsAddress(s)
  {
    StrChrFirst(s, 0, ':');
    s[..StrChr(s, 0, ':').value]
  }

  function PortOf(s: string): int
    requires IsAddress(s)
  {
    StrChrFirst(s, 0, ':');
    Atoi(s[StrChr(s, 0, ':').value + 1..])
  }

  /** The definition of a found host: everything but the address comes from the member that reported
      it. */
  function DefAt(d: ServerDef, address: string): ServerDef
    requires IsAddress(address)
  {
    d.(host := HostOf(address), port := PortOf(address))
  }

  /** mongo_connection_ismaster as discovery calls it: `replSet` is the name the set is known by, and
      `server` the definition being checked, known to the manager under `hash`. */
  function IsMaster(reply: Reply, hash: string, server: ServerDef, replSet: Option<string>): (c: Checked)
    requires reply.Answer? && reply.me.Some? ==> IsAddress(reply.me.value)
    ensures forall h | h in c.hosts :: reply.Answer? && h in reply.hosts
  {
    match reply
    case NotDue => Checked(Skipped, server, replSet, [])
    case NoReply => Checked(Failed, server, replSet, [])
    case BadWire => Checked(WrongWire, server, replSet, [])
    case Answer(nodeType, me, name, hosts) =>
      if nodeType == Invalid then Checked(Failed, server, replSet, [])
      else
        var renamed := me.Some? && me != HashToServer(hash);
        var d := if renamed then DefAt(server, me.value) else server;
        if name.None? || (replSet.Some? && name != replSet) then Checked(Failed, d, replSet, [])
        else
          Checked(if renamed then Renamed else Worked,
                  if d.replSet.None? then d.(replSet := name) else d,
                  if replSet.None? then name else replSet,
                  hosts)
  }

  /** The server list after the hosts that `d` reported have been added, each unless it is there. */
  function AddHosts(list: seq<ServerDef>, d: ServerDef, hosts: seq<string>): (r: seq<ServerDef>)
    requires AllAddresses(hosts)
    ensures list <= r
    decreases hosts
  {
    if hosts == [] then list
    else
      var def := DefAt(d, hosts[0]);
      AddHosts(if def in list then list else list + [def], d, hosts[1..])
  }

  /** Nothing appended to the first `n` is anywhere else in the list. */
  ghost predicate NewOnce(list: seq<ServerDef>, n: nat) {
    forall i, j | 0 <= i < j < |list| && n <= j :: list[i] != list[j]
  }

  /** Every host that was reported is on the list afterwards, nothing is added twice, and whatever is
      added is one of the hosts reported. */
  lemma {:induction false} AddHostsCloses(list: seq<ServerDef>, d: ServerDef, hosts: seq<string>, n: nat)
    requires AllAddresses(hosts) && n <= |list| && NewOnce(list, n)
    ensures NewOnce(AddHosts(list, d, hosts), n)
    ensures forall h | h in hosts :: DefAt(d, h) in AddHosts(list, d, hosts)
    ensures forall k | |list| <= k < |AddHosts(list, d, hosts)| ::
              exists h :: h in hosts && AddHosts(list, d, hosts)[k] == DefAt(d, h)
    decreases hosts
  {
    if hosts != [] {
      var def := DefAt(d, hosts[0]);
      var next := if def in list then list else list + [def];
      assert forall h | h in hosts[1..] :: h in hosts;
      AddHostsCloses(next, d, hosts[1..], n);
      var r := AddHosts(list, d, hosts);
      assert def in next && next <= r;
      forall h | h in hosts
        ensures DefAt(d, h) in r
      {
        if h != hosts[0] { assert h in hosts[1..]; }
      }
      forall k | |list| <= k < |r|
        ensures exists h :: h in hosts && r[k] == DefAt(d, h)
      {
        if k < |next| { assert r[k] == def && hosts[0] in hosts; }
      }
    }
  }

  /** The definitions differ in nothing but the address. */
  predicate SameButAddress(d: ServerDef, d': ServerDef) {
    d' == d.(host := d'.host, port := d'.port)
  }

  predicate SameAddress(d: ServerDef, d': ServerDef) {
    d.host == d'.host && d.port == d'.port
  }

  ghost predicate UniqueAddresses(list: seq<ServerDef>) {
    forall i, j | 0 <= i < j < |list| :: !SameAddress(list[i], list[j])
  }

  lemma AddressReadsBack(d: ServerDef)
    requires ':' !in d.host
    ensures var s := d.host + ":" + Decimal(d.port); IsAddress(s) && HostOf(s) == d.host && PortOf(s) == d.port
  {
    hide Decimal, Atoi;
    var s := d.host + ":" + Decimal(d.port);
    assert s[|d.host|] == ':';
    StrChrIs(s, 0, ':', |d.host|);
    assert s[|d.host| + 1..] == Decimal(d.port) + [];
    AtoiOfDecimal(d.port, []);
  }

  /** Whatever hosts `d` reports, no address gets onto the list twice. */
  ghost predicate AnyReportKeepsUnique(list: seq<ServerDef>, d: ServerDef) {
    forall hosts: seq<string> | AllAddresses(hosts) :: UniqueAddresses(AddHosts(list, d, hosts))
  }

  /** That is so if and only if the listed definitions differ in nothing but the address.  (Seeds
      without a set name, for example, stop doing so as soon as the first of them has been checked.) */
  lemma AddressesStayUnique(list: seq<ServerDef>, d: ServerDef)
    requires d in list && UniqueAddresses(list) && forall e | e in list :: ':' !in e.host
    ensures AnyReportKeepsUnique(list, d) <==> forall e | e in list :: SameButAddress(d, e)
  {
    hide Decimal, UniqueAddresses;
    if forall e | e in list :: SameButAddress(d, e) {
      forall hosts: seq<string> | AllAddresses(hosts)
        ensures UniqueAddresses(AddHosts(list, d, hosts))
      {
        AddHostsKeepsUnique(list, d, hosts);
      }
    }
    if AnyReportKeepsUnique(list, d) {
      forall e | e in list
        ensures SameButAddress(d, e)
      {
        OneReportTells(list, d, e);
      }
    }
  }

  lemma OneReportTells(list: seq<ServerDef>, d: ServerDef, e: ServerDef)
    requires AnyReportKeepsUnique(list, d) && e in list && ':' !in e.host
    requires UniqueAddresses(list)
    ensures SameButAddress(d, e)
  {
    hide Decimal, HostOf, PortOf;
    AddressReadsBack(e);
    var s := e.host + ":" + Decimal(e.port);
    var def := DefAt(d, s);
    assert AllAddresses([s]) && [s][1..] == [];
    var r := AddHosts(list, d, [s]);
    var next := if def in list then list else list + [def];
    assert AddHosts(next, d, []) == next;
    assert r == AddHosts(next, d, [s][1..]) == next;
    assert UniqueAddresses(r);
    var k :| 0 <= k < |list| && list[k] == e;
    SecondOfAnAddress(list, def, k);
    var j :| 0 <= j < |list| && list[j] == def;
    SameAddressSamePlace(list, j, k);
  }

  lemma SecondOfAnAddress(list: seq<ServerDef>, d: ServerDef, k: nat)
    requires k < |list| && SameAddress(list[k], d)
    ensures !UniqueAddresses(list + [d])
  {
    assert (list + [d])[k] == list[k] && (list + [d])[|list|] == d;
  }

  lemma SameAddressSamePlace(list: seq<ServerDef>, j: nat, k: nat)
    requires UniqueAddresses(list) && j < |list| && k < |list| && SameAddress(list[j], list[k])
    ensures j == k
  {
  }

  lemma {:induction false} AddHostsKeepsUnique(list: seq<ServerDef>, d: ServerDef, hosts: seq<string>)
    requires AllAddresses(hosts) && UniqueAddresses(list)
    requires forall e | e in list :: SameButAddress(d, e)
    ensures UniqueAddresses(AddHosts(list, d, hosts))
    decreases hosts
  {
    if hosts != [] {
      var def := DefAt(d, hosts[0]);
      var next := if def in list then list else list + [def];
      if def !in list {
        forall i | 0 <= i < |list|
          ensures !SameAddress(list[i], def)
        {
          assert SameButAddress(d, list[i]);
        }
      }
      AddHostsKeepsUnique(next, d, hosts[1..]);
    }
  }

  /** A definition without a set name gets the one that its member reports. */
  function Named(d: ServerDef, name: string): ServerDef {
    if d.replSet.None? then d.(replSet := Some(name)) else d
  }

  /** Every definition that discovery can come to list: the seeds under any reported set name and
      address. */
  ghost function Candidates(seeds: seq<ServerDef>, names: set<string>, sets: set<string>): set<ServerDef>
    requires forall h | h in names :: IsAddress(h)
  {
    set d, n, h | d in seeds && n in sets && h in names :: DefAt(Named(d, n), h)
  }

  ghost function Listed(list: seq<ServerDef>): set<ServerDef> {
    set d | d in list
  }

  /** A seed on the list, perhaps with a set name by now. */
  ghost predicate IsSeed(d: ServerDef, seed: ServerDef, sets: set<string>) {
    d == seed || exists n :: n in sets && d == Named(seed, n)
  }

  /** The list has the seeds in front, then distinct candidates that are no seeds. */
  ghost predicate Grown(list: seq<ServerDef>, seeds: seq<ServerDef>, names: set<string>, sets: set<string>)
    requires forall h | h in names :: IsAddress(h)
  {
    && |seeds| <= |list| && (forall k | 0 <= k < |seeds| :: IsSeed(list[k], seeds[k], sets))
    && (forall i, j | |seeds| <= i < j < |list| :: list[i] != list[j])
    && forall k | |seeds| <= k < |list| :: list[k] in Candidates(seeds, names, sets) && list[k] !in seeds
  }

  lemma {:induction false} DistinctFit<T>(s: seq<T>, within: set<T>)
    requires (forall i, j | 0 <= i < j < |s| :: s[i] != s[j]) && forall x | x in s :: x in within
    ensures |s| <= |within|
  {
    if s != [] {
      var last := s[|s| - 1];
      DistinctFit(s[..|s| - 1], within - {last});
    }
  }

  /** So the list never outgrows the seeds and the candidates. */
  lemma GrownIsBounded(list: seq<ServerDef>, seeds: seq<ServerDef>, names: set<string>, sets: set<string>)
    requires (forall h | h in names :: IsAddress(h)) && Grown(list, seeds, names, sets)
    ensures |list| <= |seeds| + |Candidates(seeds, names, sets) - Listed(seeds)|
  {
    hide Candidates, IsSeed;
    var added := list[|seeds|..];
    forall x | x in added
      ensures x in Candidates(seeds, names, sets) - Listed(seeds)
    {
      var k :| 0 <= k < |added| && added[k] == x;
      assert x == list[|seeds| + k];
    }
    DistinctFit(added, Candidates(seeds, names, sets) - Listed(seeds));
  }

  /** Seeds that differ only in their addresses once they have a set name make at most one candidate per
      name. */
  lemma OneCandidatePerName(seeds: seq<ServerDef>, names: set<string>, sets: set<string>, base: ServerDef)
    requires forall h | h in names :: IsAddress(h)
    requires forall d, n | d in seeds && n in sets :: SameButAddress(base, Named(d, n))
    ensures |Candidates(seeds, names, sets)| <= |names|
    decreases |names|
  {
    hide HostOf, PortOf, SameButAddress, Named;
    if names != {} {
      var h :| h in names;
      OneCandidatePerName(seeds, names - {h}, sets, base);
      var rest := Candidates(seeds, names - {h}, sets);
      forall c | c in Candidates(seeds, names, sets)
        ensures c in rest + {DefAt(base, h)}
      {
        OneMoreName(seeds, names, sets, base, h, c);
      }
      SubsetSize(Candidates(seeds, names, sets), rest + {DefAt(base, h)});
    } else {
      assert Candidates(seeds, names, sets) == {};
    }
  }

  lemma OneMoreName(seeds: seq<ServerDef>, names: set<string>, sets: set<string>, base: ServerDef, h: string, c: ServerDef)
    requires (forall g | g in names :: IsAddress(g)) && h in names && c in Candidates(seeds, names, sets)
    requires forall d, n | d in seeds && n in sets :: SameButAddress(base, Named(d, n))
    ensures c in Candidates(seeds, names - {h}, sets) || c == DefAt(base, h)
  {
    hide HostOf, PortOf;
    var d, n, g :| d in seeds && n in sets && g in names && c == DefAt(Named(d, n), g);
    assert SameButAddress(base, Named(d, n));
    if g != h {
      assert g in names - {h};
    }
  }

  lemma SubsetSize<T>(a: set<T>, b: set<T>)
    requires a <= b
    ensures |a| <= |b|
  {
    assert b == a + (b - a);
  }

  /** Adding what a listed server reports leaves the list well grown; the server has a set name, one of
      those reported or its own. */
  lemma AddHostsGrows(list: seq<ServerDef>, i: nat, hosts: seq<string>, n: string, seeds: seq<ServerDef>,
      names: set<string>, sets: set<string>)
    requires AllAddresses(hosts) && (forall h | h in names :: IsAddress(h)) && forall h | h in hosts :: h in names
    requires Grown(list, seeds, names, sets) && i < |list| && list[i].replSet.Some? && n in sets
    ensures Grown(AddHosts(list, list[i], hosts), seeds, names, sets)
  {
    hide HostOf, PortOf, Candidates, IsSeed;
    var d, r := list[i], AddHosts(list, list[i], hosts);
    AddHostsCloses(list, d, hosts, |list|);
    assert forall k | 0 <= k < |list| :: r[k] == list[k];
    forall k | |list| <= k < |r|
      ensures r[k] in Candidates(seeds, names, sets) && r[k] !in seeds
    {
      var h :| h in hosts && r[k] == DefAt(d, h);
      IsCandidate(list, i, h, n, seeds, names, sets);
      NewIsNoSeed(list, r[k], seeds, names, sets);
    }
  }

  lemma NewIsNoSeed(list: seq<ServerDef>, def: ServerDef, seeds: seq<ServerDef>, names: set<string>, sets: set<string>)
    requires (forall h | h in names :: IsAddress(h)) && Grown(list, seeds, names, sets) && def.replSet.Some? && def !in list
    ensures def !in seeds
  {
    hide Candidates, IsSeed;
    if def in seeds {
      var j :| 0 <= j < |seeds| && seeds[j] == def;
      NamedSeedStays(list[j], seeds[j], sets);
    }
  }

  lemma NamedSeedStays(d: ServerDef, seed: ServerDef, sets: set<string>)
    requires IsSeed(d, seed, sets) && seed.replSet.Some?
    ensures d == seed
  {
  }

  lemma IsCandidate(list: seq<ServerDef>, i: nat, h: string, n: string, seeds: seq<ServerDef>, names: set<string>, sets: set<string>)
    requires (forall h | h in names :: IsAddress(h)) && h in names && n in sets
    requires Grown(list, seeds, names, sets) && i < |list| && list[i].replSet.Some?
    ensures DefAt(list[i], h) in Candidates(seeds, names, sets)
  {
    hide HostOf, PortOf;
    var d := list[i];
    if i < |seeds| {
      assert IsSeed(d, seeds[i], sets) && seeds[i] in seeds;
      if d == seeds[i] {
        assert d == Named(d, n);
      }
    } else {
      var s, m, g :| s in seeds && m in sets && g in names && d == DefAt(Named(s, m), g);
      assert DefAt(d, h) == DefAt(Named(s, m), h);
    }
  }

  class ServerList {
    const server: array<ServerDef>
    var count: nat
    var replSet: Option<string>

    constructor (seeds: seq<ServerDef>, replSet: Option<string>, filler: ServerDef)
      requires |seeds| <= MAX_SERVERS_LIMIT
      ensures Valid() && List() == seeds && this.replSet == replSet && fresh(server)
    {
      server := new ServerDef[MAX_SERVERS_LIMIT](i => if 0 <= i < |seeds| then seeds[i] else filler);
      count, this.replSet := |seeds|, replSet;
    }

    predicate Valid()
      reads this
    {
      server.Length == MAX_SERVERS_LIMIT && count <= server.Length
    }

    ghost function List(): seq<ServerDef>
      requires Valid()
      reads this, server
    {
      server[..count]
    }

    /** mongo_servers_contains. */
    method Contains(def: ServerDef) returns (found: bool)
      requires Valid()
      ensures found == (def in List())
    {
      for i := 0 to count
        invariant def !in server[..i]
      {
        if server[i] == def {
          return true;
        }
      }
      return false;
    }

    /** The addition at the end of the list, which must have room. */
    method Add(def: ServerDef)
      requires Valid() && count < MAX_SERVERS_LIMIT
      modifies `count, server
      ensures Valid() && List() == old(List()) + [def]
    {
      server[count] := def;
      count := count + 1;
    }
  }

  /** The answers of the network: to the check of the i-th server, and, for the j-th host it reports,
      to the connection attempt and to the second check of the new connection. */
  datatype Net = Net(reply: (nat, ServerDef) -> Reply, weather: (nat, nat) -> Weather, second: (nat, nat) -> Code)
  {
    /** Members are named by address, the reported hosts are among `names`, and the reported set names
        among `sets`. */
    ghost predicate Reports(names: set<string>, sets: set<string>) {
      && (forall h | h in names :: IsAddress(h))
      && (forall i: nat, d: ServerDef | reply(i, d).Answer? ::
            && (forall h | h in reply(i, d).hosts :: h in names)
            && (reply(i, d).setName.Some? ==> reply(i, d).setName.value in sets)
            && (reply(i, d).me.Some? ==> IsAddress(reply(i, d).me.value)))
    }

    /** Whatever is reported is named by address. */
    ghost predicate Addressed() {
      forall i: nat, d: ServerDef :: AddressedAt(i, d)
    }

    predicate AddressedAt(i: nat, d: ServerDef) {
      reply(i, d).Answer? ==>
        AllAddresses(reply(i, d).hosts) && (reply(i, d).me.Some? ==> IsAddress(reply(i, d).me.value))
    }

    /** Every member that says who it is says what the manager knows it as. */
    ghost predicate NoRenames(pid: int) {
      forall i: nat, d: ServerDef | reply(i, d).Answer? && reply(i, d).me.Some? ::
        reply(i, d).me == HashToServer(HashOf(d, pid))
    }
  }

  /** What the manager knows: the hashes that are registered, and the blacklist. */
  datatype Registry = Registry(known: set<string>, failed: Blacklist)
  {
    predicate Blocked(hash: string, now: int, interval: int) {
      HasKey(failed, hash) && now < Lookup(failed, hash).value + interval
    }

    /** A connection comes about: the server is new, not blocked, and every stage succeeds. */
    predicate Reaches(hash: string, w: Weather, interval: int) {
      hash !in known && !Blocked(hash, w.checkedAt, interval) && w.Brings(interval)
    }

    /** What a new host does: nothing if it is known or blocked; otherwise its old failure is forgotten, a
        new one recorded, and it is known if it was reached and its second check was no trouble. */
    function Meet(hash: string, w: Weather, second: Code, interval: int): Registry {
      if hash in known || Blocked(hash, w.checkedAt, interval) then this
      else
        Registry(if w.Brings(interval) && (second == Worked || second == Skipped) then known + {hash} else known,
                 RemoveFirst(failed, hash) + if w.connects then [] else [Entry(hash, w.failedAt)])
    }

    function Without(hash: string): Registry {
      this.(known := known - {hash})
    }
  }

  /** Meeting a host makes it known exactly if it is reached and its second check is no trouble, and
      touches no other; a host that cannot be connected to is blacklisted with the time of its failure. */
  lemma MeetingMeans(reg: Registry, hash: string, w: Weather, second: Code, interval: int, other: string)
    ensures var after := reg.Meet(hash, w, second, interval);
            && (hash in after.known <==> hash in reg.known || (reg.Reaches(hash, w, interval) && second in {Worked, Skipped}))
            && (other != hash ==> (other in after.known <==> other in reg.known) && Lookup(after.failed, other) == Lookup(reg.failed, other))
            && (reg.Reaches(hash, w, interval) ==> w.connects && w.answers && (w.nodeType == Arbiter || w.authenticates))
            && (hash !in reg.known && !HasKey(reg.failed, hash) && !w.connects ==> Lookup(after.failed, hash) == Some(w.failedAt))
            && (HasKey(reg.failed, hash) && w.checkedAt < Lookup(reg.failed, hash).value + interval ==> after == reg)
  {
    hide RemoveFirst, Lookup;
    LookupRemove(reg.failed, hash, other);
    LookupRemove(reg.failed, hash, hash);
    LookupAppend(RemoveFirst(reg.failed, hash), Entry(hash, w.failedAt), other);
    LookupAppend(RemoveFirst(reg.failed, hash), Entry(hash, w.failedAt), hash);
    assert RemoveFirst(reg.failed, hash) + [] == RemoveFirst(reg.failed, hash);
  }

  function Known(es: seq<Entry<string, Connection>>): set<string> {
    set e | e in es :: e.key
  }

  ghost function RegistryOf(m: Manager): Registry
    reads m.connections, m.blacklist
  {
    Registry(Known(m.connections.Entries()), m.blacklist.Entries())
  }

  lemma KnownHas(es: seq<Entry<string, Connection>>, hash: string)
    ensures hash in Known(es) <==> HasKey(es, hash)
  {
    LookupFinds(es, hash);
    if hash in Known(es) {
      var i :| 0 <= i < |es| && es[i].key == hash;
    }
  }

  /** Nothing but one hash has changed. */
  lemma KnownAfter(before: seq<Entry<string, Connection>>, after: seq<Entry<string, Connection>>, hash: string)
    requires forall k | k != hash :: Lookup(after, k) == Lookup(before, k)
    ensures Known(after) == if HasKey(after, hash) then Known(before) + {hash} else Known(before) - {hash}
    ensures hash in Known(before) <==> HasKey(before, hash)
  {
    hide Known, Lookup;
    forall k
      ensures k in Known(after) <==> HasKey(after, k)
      ensures k in Known(before) <==> HasKey(before, k)
    {
      KnownHas(after, k);
      KnownHas(before, k);
    }
  }

  method Drop(m: Manager, con: Connection)
    requires m.Valid()
    modifies m.connections, m.connections.nodes
    ensures m.Valid() && m.KeepsFrame() && con !in m.Registered()
    ensures RegistryOf(m) == old(RegistryOf(m)).Without(con.hash)
  {
    hide Manager.Valid, Known, Lookup, RemoveFirst;
    ghost var before := m.connections.Entries();
    var _ := m.Deregister(con);
    KnownAfter(before, m.connections.Entries(), con.hash);
  }

  /** A request for a server that is not registered. */
  method Reach(m: Manager, hash: string, w: Weather) returns (con: Option<Connection>)
    requires m.Valid() && hash !in RegistryOf(m).known
    modifies m, m.connections, m.connections.nodes, m.blacklist, m.blacklist.nodes, m.Registered()
    ensures m.Valid() && m.KeepsFrame()
    ensures RegistryOf(m) == old(RegistryOf(m)).Meet(hash, w, Worked, m.pingInterval)
    ensures (con.Some? <==> old(RegistryOf(m)).Reaches(hash, w, m.pingInterval)) && (con.Some? ==> con.value.hash == hash)
  {
    hide Manager.Valid, Remembered, Patient, Lookup, RemoveFirst, Weather.Timely, Known, Manager.Registered;
    ghost var before := m.connections.Entries();
    KnownHas(before, hash);
    con := m.GetSingle(hash, false, w, 0);
    KnownAfter(before, m.connections.Entries(), hash);
  }

  /** Connects to a found host that is not registered yet.  `trouble` reports a wrong wire version. */
  method Meet(m: Manager, hash: string, w: Weather, second: Code) returns (trouble: bool)
    requires m.Valid()
    modifies m, m.connections, m.connections.nodes, m.blacklist, m.blacklist.nodes, m.Registered()
    ensures m.Valid() && m.KeepsFrame()
    ensures RegistryOf(m) == old(RegistryOf(m)).Meet(hash, w, second, m.pingInterval)
    ensures trouble <==> old(RegistryOf(m)).Reaches(hash, w, m.pingInterval) && second == WrongWire
  {
    hide Manager.Valid, Lookup, RemoveFirst, HasKey, Known, Manager.OnlyTouches, Weather.Brings;
    trouble := false;
    KnownHas(m.connections.Entries(), hash);
    var known := m.Find(hash);
    IsThere(m.connections.Entries(), hash);
    if known.None? {
      var con := Reach(m, hash, w);
      if con.Some? {
        match second {
          case Worked | Skipped =>
          case _ =>
            trouble := second == WrongWire;
            Drop(m, con.value);
        }
      }
    }
  }

  lemma IsThere(es: seq<Entry<string, Connection>>, hash: string)
    ensures HasKey(es, hash) <==> Lookup(es, hash).Some?
  {
  }

  /** The registry when the first `n` hosts that the `i`-th server reported have been met. */
  function Met(reg: Registry, net: Net, i: nat, d: ServerDef, hosts: seq<string>, n: nat, pid: int, interval: int): Registry
    requires AllAddresses(hosts) && n <= |hosts|
  {
    if n == 0 then reg
    else
      Met(reg, net, i, d, hosts, n - 1, pid, interval)
        .Meet(HashOf(DefAt(d, hosts[n - 1]), pid), net.weather(i, n - 1), net.second(i, n - 1), interval)
  }

  /** One of those hosts was reached, and had an unsupported wire version. */
  ghost predicate MetTrouble(reg: Registry, net: Net, i: nat, d: ServerDef, hosts: seq<string>, n: nat, pid: int, interval: int)
    requires AllAddresses(hosts) && n <= |hosts|
  {
    exists j: nat | j < n ::
      && net.second(i, j) == WrongWire
      && Met(reg, net, i, d, hosts, j, pid, interval).Reaches(HashOf(DefAt(d, hosts[j]), pid), net.weather(i, j), interval)
  }

  lemma MetNothing(reg: Registry, net: Net, i: nat, d: ServerDef, hosts: seq<string>, pid: int, interval: int)
    requires AllAddresses(hosts)
    ensures Met(reg, net, i, d, hosts, 0, pid, interval) == reg && !MetTrouble(reg, net, i, d, hosts, 0, pid, interval)
  {
  }

  lemma MetNext(reg: Registry, net: Net, i: nat, d: ServerDef, hosts: seq<string>, j: nat, pid: int, interval: int)
    requires AllAddresses(hosts) && j < |hosts|
    ensures var met, hash := Met(reg, net, i, d, hosts, j, pid, interval), HashOf(DefAt(d, hosts[j]), pid);
            && Met(reg, net, i, d, hosts, j + 1, pid, interval) == met.Meet(hash, net.weather(i, j), net.second(i, j), interval)
            && (MetTrouble(reg, net, i, d, hosts, j + 1, pid, interval) <==>
                MetTrouble(reg, net, i, d, hosts, j, pid, interval)
                || (met.Reaches(hash, net.weather(i, j), interval) && net.second(i, j) == WrongWire))
  {
    hide Registry.Meet, Registry.Reaches, HashOf, HostOf, PortOf;
  }

  /** The hosts that the `i`-th server reported: each is connected to if need be, and listed. */
  method ListHosts(m: Manager, servers: ServerList, i: nat, d: ServerDef, hosts: seq<string>, net: Net) returns (trouble: bool)
    requires m.Valid() && servers.Valid() && AllAddresses(hosts)
    requires |AddHosts(servers.List(), d, hosts)| <= MAX_SERVERS_LIMIT
    modifies m, m.connections, m.connections.nodes, m.blacklist, m.blacklist.nodes, m.Registered(), servers`count, servers.server
    ensures m.Valid() && m.KeepsFrame() && servers.Valid()
    ensures servers.List() == AddHosts(old(servers.List()), d, hosts)
    ensures RegistryOf(m) == Met(old(RegistryOf(m)), net, i, d, hosts, |hosts|, m.pid, m.pingInterval)
    ensures trouble <==> MetTrouble(old(RegistryOf(m)), net, i, d, hosts, |hosts|, m.pid, m.pingInterval)
  {
    hide Manager.Valid, Registry.Meet, Registry.Reaches, HostOf, PortOf, HashOf, HasKey, Lookup, Known, Met, MetTrouble;
    trouble := false;
    ghost var all, reg := AddHosts(servers.List(), d, hosts), RegistryOf(m);
    MetNothing(reg, net, i, d, hosts, m.pid, m.pingInterval);
    for j := 0 to |hosts|
      invariant m.Valid() && m.KeepsFrame() && servers.Valid()
      invariant AddHosts(servers.List(), d, hosts[j..]) == all
      invariant RegistryOf(m) == Met(reg, net, i, d, hosts, j, m.pid, m.pingInterval)
      invariant trouble <==> MetTrouble(reg, net, i, d, hosts, j, m.pid, m.pingInterval)
    {
      assert hosts[j..][0] == hosts[j] && hosts[j..][1..] == hosts[j + 1..];
      MetNext(reg, net, i, d, hosts, j, m.pid, m.pingInterval);
      var wrong := ListHost(m, servers, DefAt(d, hosts[j]), net.weather(i, j), net.second(i, j));
      trouble := trouble || wrong;
    }
  }

  method ListHost(m: Manager, servers: ServerList, def: ServerDef, w: Weather, second: Code) returns (wrong: bool)
    requires m.Valid() && servers.Valid() && (def !in servers.List() ==> servers.count < MAX_SERVERS_LIMIT)
    modifies m, m.connections, m.connections.nodes, m.blacklist, m.blacklist.nodes, m.Registered(), servers`count, servers.server
    ensures m.Valid() && m.KeepsFrame() && servers.Valid()
    ensures servers.List() == if def in old(servers.List()) then old(servers.List()) else old(servers.List()) + [def]
    ensures RegistryOf(m) == old(RegistryOf(m)).Meet(HashOf(def, m.pid), w, second, m.pingInterval)
    ensures wrong <==> old(RegistryOf(m)).Reaches(HashOf(def, m.pid), w, m.pingInterval) && second == WrongWire
  {
    hide Manager.Valid, HashOf, Known, Registry.Meet, Registry.Reaches;
    var hash := CreateHash(def, m.pid);
    wrong := Meet(m, hash, w, second);
    var there := servers.Contains(def);
    if !there {
      servers.Add(def);
    }
  }

  /** A member that says it is who the manager thinks it is leaves its own definition alone, but for a
      set name where there was none. */
  lemma CheckedStays(reply: Reply, hash: string, d: ServerDef, replSet: Option<string>)
    requires reply.Answer? && reply.me.Some? ==> IsAddress(reply.me.value) && reply.me == HashToServer(hash)
    ensures var checked := IsMaster(reply, hash, d, replSet);
            && checked.code != Renamed
            && (checked.def == d || (reply.Answer? && reply.setName.Some? && checked.def == Named(d, reply.setName.value)))
            && (checked.code == Worked ==> reply.Answer? && reply.setName.Some? && checked.def.replSet.Some?)
            && forall h | h in checked.hosts :: reply.Answer? && h in reply.hosts
  {
  }

  /** The list after a check of its `i`-th server. */
  function ListAfter(list: seq<ServerDef>, i: nat, checked: Checked): seq<ServerDef>
    requires i < |list| && AllAddresses(checked.hosts)
  {
    var now := list[i := checked.def];
    if checked.code == Worked || checked.code == Renamed then AddHosts(now, checked.def, checked.hosts) else now
  }

  /** Another definition in the place of one keeps addresses unique if and only if nobody else has its
      address. */
  lemma ReplacedStaysUnique(list: seq<ServerDef>, i: nat, d: ServerDef)
    requires i < |list| && UniqueAddresses(list)
    ensures UniqueAddresses(list[i := d]) <==> forall j | 0 <= j < |list| && j != i :: !SameAddress(list[j], d)
  {
    var now := list[i := d];
    if UniqueAddresses(now) {
      forall j | 0 <= j < |list| && j != i
        ensures !SameAddress(list[j], d)
      {
        assert now[j] == list[j] && now[i] == d;
        assert j < i ==> !SameAddress(now[j], now[i]);
        assert i < j ==> !SameAddress(now[i], now[j]);
      }
    }
  }

  /** A member that goes by another name, whatever hosts it reports, keeps the addresses on the list
      unique if and only if nobody else is listed under that name; the other definitions differ from its
      new one in nothing but the address. */
  lemma RenamedStaysUnique(list: seq<ServerDef>, i: nat, checked: Checked)
    requires i < |list| && UniqueAddresses(list) && checked.code == Renamed && AllAddresses(checked.hosts)
    requires forall j | 0 <= j < |list| && j != i :: SameButAddress(checked.def, list[j])
    ensures UniqueAddresses(ListAfter(list, i, checked)) <==>
            forall j | 0 <= j < |list| && j != i :: !SameAddress(list[j], checked.def)
  {
    hide HostOf, PortOf;
    var now := list[i := checked.def];
    ReplacedStaysUnique(list, i, checked.def);
    if UniqueAddresses(now) {
      forall e | e in now
        ensures SameButAddress(checked.def, e)
      {
        var j :| 0 <= j < |now| && now[j] == e;
      }
      AddHostsKeepsUnique(now, checked.def, checked.hosts);
    } else {
      PrefixIsUnique(now, AddHosts(now, checked.def, checked.hosts));
    }
  }

  lemma PrefixIsUnique(list: seq<ServerDef>, longer: seq<ServerDef>)
    requires list <= longer
    ensures UniqueAddresses(longer) ==> UniqueAddresses(list)
  {
    assert forall i | 0 <= i < |list| :: list[i] == longer[i];
  }

  /** The member known as `a` says that it is `b`, and reports `a`. */
  function SaysItIsAnother(a: ServerDef, b: ServerDef): Reply {
    Answer(Primary, Some(AddressOf(b)), a.replSet, [AddressOf(a)])
  }

  function AddressOf(d: ServerDef): (s: string)
    ensures IsAddress(s)
  {
    var s := d.host + ":" + Decimal(d.port);
    assert s[|d.host|] == ':';
    s
  }

  /** Such a member is put on the list again behind its own new name, at every turn. */
  lemma RenameListsAgain(pre: seq<ServerDef>, a: ServerDef, b: ServerDef, hash: string)
    requires SameButAddress(a, b) && !SameAddress(a, b) && a.replSet.Some? && ':' !in a.host && ':' !in b.host
    requires a !in pre && HashToServer(hash) == Some(AddressOf(a))
    ensures var checked := IsMaster(SaysItIsAnother(a, b), hash, a, a.replSet);
            && checked.code == Renamed && AllAddresses(checked.hosts)
            && ListAfter(pre + [a], |pre|, checked) == pre + [b] + [a]
  {
    hide Decimal, HostOf, PortOf, HashToServer, AddressOf;
    AddressTells(a, b);
    var checked := IsMaster(SaysItIsAnother(a, b), hash, a, a.replSet);
    assert checked.def == b && checked.hosts == [AddressOf(a)];
    assert (pre + [a])[|pre| := b] == pre + [b];
    assert a !in pre + [b];
    AddOneHost(pre + [b], b, AddressOf(a), a);
  }

  lemma AddOneHost(list: seq<ServerDef>, d: ServerDef, address: string, def: ServerDef)
    requires IsAddress(address) && def == DefAt(d, address) && def !in list
    ensures AddHosts(list, d, [address]) == list + [def]
  {
    assert AddHosts(list + [def], d, [address][1..]) == list + [def];
  }

  /** Addresses of different members are different, and read back. */
  lemma AddressTells(a: ServerDef, b: ServerDef)
    requires SameButAddress(a, b) && !SameAddress(a, b) && ':' !in a.host && ':' !in b.host
    ensures AddressOf(a) != AddressOf(b) && DefAt(a, AddressOf(b)) == b && DefAt(b, AddressOf(a)) == a
  {
    hide Decimal;
    AddressReadsBack(a);
    AddressReadsBack(b);
  }

  /** The list after `n` turns of a scan that is at `i`, when every member is answered by `answer`. */
  ghost function Scanned(list: seq<ServerDef>, i: nat, n: nat, answer: ServerDef -> Checked): seq<ServerDef>
    requires forall d :: AllAddresses(answer(d).hosts)
    decreases n
  {
    if n == 0 || |list| <= i then list else Scanned(ListAfter(list, i, answer(list[i])), i + 1, n - 1, answer)
  }

  /** So a scan need not end when members rename themselves: with such a member at its last place, the
      list is one longer after every turn, until it overruns its array. */
  lemma {:induction false} RenamesGoOn(pre: seq<ServerDef>, a: ServerDef, b: ServerDef, hash: string, n: nat,
      answer: ServerDef -> Checked)
    requires SameButAddress(a, b) && !SameAddress(a, b) && a.replSet.Some? && ':' !in a.host && ':' !in b.host
    requires a !in pre && HashToServer(hash) == Some(AddressOf(a))
    requires forall d :: AllAddresses(answer(d).hosts)
    requires answer(a) == IsMaster(SaysItIsAnother(a, b), hash, a, a.replSet)
    ensures |Scanned(pre + [a], |pre|, n, answer)| == |pre| + 1 + n
    decreases n
  {
    hide Decimal, HostOf, PortOf, HashToServer, AddressOf, IsMaster, ListAfter;
    if n != 0 {
      RenameListsAgain(pre, a, b, hash);
      assert (pre + [a])[|pre|] == a;
      RenamesGoOn(pre + [b], a, b, hash, n - 1, answer);
    }
  }

  /** What the manager knows after the check of the server known as `hash`: a failing, unsupported or renamed
      member's connection is gone, and a member that answered has its hosts met. */
  function AfterCheck(reg: Registry, net: Net, i: nat, hash: string, checked: Checked, pid: int, interval: int): Registry
    requires AllAddresses(checked.hosts)
  {
    var left := if checked.code in {Failed, WrongWire, Renamed} then reg.Without(hash) else reg;
    if checked.code in {Worked, Renamed} then Met(left, net, i, checked.def, checked.hosts, |checked.hosts|, pid, interval) else left
  }

  /** An unsupported wire version was met: the server's own, or that of a host it reported. */
  ghost predicate CheckTrouble(reg: Registry, net: Net, i: nat, hash: string, checked: Checked, pid: int, interval: int)
    requires AllAddresses(checked.hosts)
  {
    match checked.code
    case WrongWire => true
    case Worked => MetTrouble(reg, net, i, checked.def, checked.hosts, |checked.hosts|, pid, interval)
    case Renamed => MetTrouble(reg.Without(hash), net, i, checked.def, checked.hosts, |checked.hosts|, pid, interval)
    case _ => false
  }

  /** One turn of the scan: check the `i`-th server if there is a connection to it. */
  method VisitServer(m: Manager, servers: ServerList, i: nat, net: Net, replSet: Option<string>)
    returns (visited: bool, unsupported: bool, newReplSet: Option<string>)
    requires m.Valid() && servers.Valid() && i < servers.count && net.Addressed() && servers.replSet == replSet
    requires |Turn(ScanOf(m, servers, replSet, true), i, net, m.pid, m.pingInterval).list| <= MAX_SERVERS_LIMIT
    modifies m, m.connections, m.connections.nodes, m.blacklist, m.blacklist.nodes, m.Registered(), servers, servers.server
    ensures m.Valid() && m.KeepsFrame() && servers.Valid() && servers.replSet == newReplSet
    ensures ScanOf(m, servers, newReplSet, !unsupported) ==
            Turn(old(ScanOf(m, servers, replSet, true)), i, net, m.pid, m.pingInterval)
    ensures visited <==> HashOf(old(servers.List())[i], m.pid) in old(RegistryOf(m)).known
  {
    hide Manager.Valid, HashOf, HostOf, PortOf, Manager.OnlyTouches, AddHosts, ListAfter, IsMaster, Lookup, Known,
      AfterCheck, CheckTrouble;
    var d := servers.server[i];
    var hash := CreateHash(d, m.pid);
    KnownHas(m.connections.Entries(), hash);
    var con := m.Find(hash);
    newReplSet := replSet;
    if con.None? {
      return false, false, replSet;
    }
    assert net.AddressedAt(i, d);
    var checked := IsMaster(net.reply(i, d), hash, d, replSet);
    visited := true;
    SetNameStays(net.reply(i, d), hash, d, replSet);
    unsupported, newReplSet := ActOn(m, servers, i, con.value, checked, net, replSet);
  }

  /** A member's answer is good: it is of a known type, it is who the manager thinks it is, if it says who it
      is, and it names the set, the right one if that is known. */
  predicate IsGood(reply: Reply, hash: string, replSet: Option<string>) {
    && reply.Answer? && reply.nodeType != Invalid && (reply.me.None? || reply.me == HashToServer(hash))
    && reply.setName.Some? && (replSet.None? || reply.setName == replSet)
  }

  /** What the result of a check means: it works exactly for a good answer, and then names the set, and
      reports the hosts; a member of another name is renamed exactly if its answer is good otherwise; and
      a check that is not due, or finds an unsupported wire version, says so. */
  lemma CodesMean(reply: Reply, hash: string, d: ServerDef, replSet: Option<string>)
    requires reply.Answer? && reply.me.Some? ==> IsAddress(reply.me.value)
    ensures var c := IsMaster(reply, hash, d, replSet);
            && (c.code == Worked <==> IsGood(reply, hash, replSet))
            && (c.code == Skipped <==> reply == NotDue) && (c.code == WrongWire <==> reply == BadWire)
            && (c.code == Renamed <==> reply.Answer? && reply.me.Some? && reply.me != HashToServer(hash)
                                       && IsGood(reply.(me := None), hash, replSet))
            && (c.code == Worked ==> c.def == Named(d, reply.setName.value))
            && (c.code == Renamed ==> c.def == DefAt(Named(d, reply.setName.value), reply.me.value))
            && (c.code == Worked || c.code == Renamed ==> c.hosts == reply.hosts && c.replSet == reply.setName)
            && (c.code != Worked && c.code != Renamed ==> c.hosts == [] && c.replSet == replSet)
  {
    hide HostOf, PortOf, HashToServer;
  }

  /** A set name that is known is the set's name. */
  lemma SetNameStays(reply: Reply, hash: string, d: ServerDef, replSet: Option<string>)
    requires reply.Answer? && reply.me.Some? ==> IsAddress(reply.me.value)
    ensures replSet.Some? ==> IsMaster(reply, hash, d, replSet).replSet == replSet
  {
  }

  /** What the result of a check leads to. */
  method ActOn(m: Manager, servers: ServerList, i: nat, con: Connection, checked: Checked, net: Net, replSet: Option<string>)
    returns (unsupported: bool, newReplSet: Option<string>)
    requires m.Valid() && servers.Valid() && i < servers.count && AllAddresses(checked.hosts)
    requires |ListAfter(servers.List(), i, checked)| <= MAX_SERVERS_LIMIT
    modifies m, m.connections, m.connections.nodes, m.blacklist, m.blacklist.nodes, m.Registered(), servers, servers.server
    ensures m.Valid() && m.KeepsFrame() && servers.Valid()
    ensures servers.List() == ListAfter(old(servers.List()), i, checked)
    ensures newReplSet == if checked.code in {Worked, Renamed} then checked.replSet else replSet
    ensures servers.replSet == if old(servers.replSet).None? then (if checked.code in {Worked, Renamed} then checked.replSet else None)
                               else old(servers.replSet)
    ensures RegistryOf(m) == AfterCheck(old(RegistryOf(m)), net, i, con.hash, checked, m.pid, m.pingInterval)
    ensures unsupported == CheckTrouble(old(RegistryOf(m)), net, i, con.hash, checked, m.pid, m.pingInterval)
    ensures checked.code in {Failed, WrongWire, Renamed} ==> con !in m.Registered()
  {
    hide Manager.Valid, HostOf, PortOf, Manager.OnlyTouches, AddHosts, RemoveFirst, HasKey, Manager.Registered, Met, MetTrouble;
    ghost var before, reg := servers.List(), RegistryOf(m);
    servers.server[i] := checked.def;
    assert servers.List() == before[i := checked.def];
    unsupported, newReplSet := checked.code == WrongWire, replSet;
    if checked.code == Failed || checked.code == WrongWire || checked.code == Renamed {
      Drop(m, con);
      assert RegistryOf(m) == reg.Without(con.hash);
    }
    if checked.code == Worked || checked.code == Renamed {
      newReplSet := checked.replSet;
      if servers.replSet.None? && newReplSet.Some? {
        servers.replSet := newReplSet;
      }
      unsupported := ListHosts(m, servers, i, checked.def, checked.hosts, net);
    }
  }

  // ---------- the whole scan ----------

  /** Everything a scan works on: the list, what the manager knows, the set's name, and whether no
      unsupported wire version has been met. */
  datatype Scan = Scan(list: seq<ServerDef>, registry: Registry, replSet: Option<string>, supported: bool)

  ghost function ScanOf(m: Manager, servers: ServerList, replSet: Option<string>, supported: bool): Scan
    requires servers.Valid()
    reads m.connections, m.blacklist, servers, servers.server
  {
    Scan(servers.List(), RegistryOf(m), replSet, supported)
  }

  /** What the check of the `i`-th server says. */
  function CheckOf(sc: Scan, i: nat, net: Net, pid: int): (c: Checked)
    requires i < |sc.list| && net.Addressed()
    ensures AllAddresses(c.hosts)
  {
    var d := sc.list[i];
    assert net.AddressedAt(i, d);
    IsMaster(net.reply(i, d), HashOf(d, pid), d, sc.replSet)
  }

  /** One turn: a server that is registered when its turn comes is checked, any other is passed over. */
  ghost function Turn(sc: Scan, i: nat, net: Net, pid: int, interval: int): Scan
    requires i < |sc.list| && net.Addressed()
  {
    var hash := HashOf(sc.list[i], pid);
    if hash !in sc.registry.known then sc
    else
      var checked := CheckOf(sc, i, net, pid);
      Scan(ListAfter(sc.list, i, checked),
           AfterCheck(sc.registry, net, i, hash, checked, pid, interval),
           if checked.code in {Worked, Renamed} then checked.replSet else sc.replSet,
           sc.supported && !CheckTrouble(sc.registry, net, i, hash, checked, pid, interval))
  }

  /** The turns of a scan, one for each server of the list that it ends with. */
  ghost predicate IsScan(trace: seq<Scan>, net: Net, pid: int, interval: int)
    requires net.Addressed()
  {
    && trace != [] && |trace[|trace| - 1].list| == |trace| - 1
    && Turns(trace, net, pid, interval)
  }

  ghost predicate Turns(trace: seq<Scan>, net: Net, pid: int, interval: int)
    requires net.Addressed()
  {
    forall i | 0 <= i < |trace| - 1 :: i < |trace[i].list| && trace[i + 1] == Turn(trace[i], i, net, pid, interval)
  }

  /** mongo_discover_topology.  The scan is the turns of the specification from the state it started in, one
      for each server of the list that it ends with.  It ends; the seeds stay in front, but for a set name
      where there was none, nothing else is listed twice, the list never gets longer than seeds and
      candidates together, and every host that a successfully checked member reported is on it. */
  method Discover(m: Manager, servers: ServerList, net: Net, ghost names: set<string>, ghost sets: set<string>)
    returns (supported: bool, ghost trace: seq<Scan>)
    requires m.Valid() && servers.Valid() && net.Reports(names, sets) && net.NoRenames(m.pid)
    requires servers.count + |Candidates(servers.List(), names, sets) - Listed(servers.List())| <= MAX_SERVERS_LIMIT
    modifies m, m.connections, m.connections.nodes, m.blacklist, m.blacklist.nodes, m.Registered(), servers, servers.server
    ensures m.Valid() && servers.Valid() && net.Addressed() && IsScan(trace, net, m.pid, m.pingInterval)
    ensures trace[0] == old(ScanOf(m, servers, servers.replSet, true))
    ensures trace[|trace| - 1] == ScanOf(m, servers, servers.replSet, supported)
    ensures Grown(servers.List(), old(servers.List()), names, sets)
    ensures servers.count <= old(servers.count + |Candidates(servers.List(), names, sets) - Listed(servers.List())|)
    ensures AllClosed(trace, net, m.pid)
    ensures SeedsAreHeard(trace[0], servers.List(), supported, net, m.pid)
  {
    hide Manager.Valid, HostOf, PortOf, IsMaster, AddHosts, Candidates, Listed, Grown, Turn, Net.AddressedAt, Closed, Known;
    ghost var seeds := servers.List();
    ghost var bound := |seeds| + |Candidates(seeds, names, sets) - Listed(seeds)|;
    SeedsAreGrown(seeds, names, sets);
    ReportsAreAddressed(net, names, sets);
    supported := true;
    var replSet, i := servers.replSet, 0;
    trace := [ScanOf(m, servers, replSet, true)];
    NothingToClose(trace, net, m.pid);
    while i < servers.count
      invariant m.Valid() && m.KeepsFrame() && servers.Valid() && servers.replSet == replSet
      invariant i < |trace| == i + 1 && i <= servers.count <= bound
      invariant trace[0] == old(ScanOf(m, servers, servers.replSet, true))
      invariant trace[i] == ScanOf(m, servers, replSet, supported)
      invariant Turns(trace, net, m.pid, m.pingInterval)
      invariant Grown(servers.List(), seeds, names, sets) && Closed(trace[i].list, trace, net, m.pid)
      decreases bound - i
    {
      ghost var sc := trace[i];
      TurnGrows(sc, seeds, names, sets, net, i, m.pid, m.pingInterval);
      SupportedIsApart(sc, true, i, net, m.pid, m.pingInterval);
      var visited, unsupported;
      visited, unsupported, replSet := VisitServer(m, servers, i, net, replSet);
      supported := supported && !unsupported;
      TurnCloses(trace, net, m.pid, m.pingInterval);
      trace := trace + [Turn(sc, i, net, m.pid, m.pingInterval)];
      i := i + 1;
    }
    ScanHears(trace, net, m.pid, m.pingInterval);
  }

  // ---------- what becomes of the seeds ----------

  /** The `k`-th server is registered at the start, and no server before it is known by the same hash. */
  predicate IsOnHand(start: Scan, k: nat, pid: int)
    requires k < |start.list|
  {
    && HashOf(start.list[k], pid) in start.registry.known
    && forall j | 0 <= j < k :: HashOf(start.list[j], pid) != HashOf(start.list[k], pid)
  }

  /** Every seed that is registered at the start is heard, at least the first, and all of them if the set's
      name is known: if it has an unsupported wire version the scan says so, and if its answer is good then
      all hosts that it reports end up on the list. */
  ghost predicate SeedsAreHeard(start: Scan, list: seq<ServerDef>, supported: bool, net: Net, pid: int)
    requires net.Addressed()
  {
    forall k | 0 <= k < |start.list| && (k == 0 || start.replSet.Some?) && IsOnHand(start, k, pid) ::
      SeedIsHeard(start, list, supported, net, k, pid)
  }

  ghost predicate SeedIsHeard(start: Scan, list: seq<ServerDef>, supported: bool, net: Net, k: nat, pid: int)
    requires k < |start.list| && net.Addressed()
  {
    var d := start.list[k];
    var reply := net.reply(k, d);
    && (reply == BadWire ==> !supported)
    && (IsGood(reply, HashOf(d, pid), start.replSet) ==>
          forall h | h in reply.hosts :: IsAddress(h) && DefAt(Named(d, reply.setName.value), h) in list)
  }

  lemma ScanHears(trace: seq<Scan>, net: Net, pid: int, interval: int)
    requires net.Addressed() && IsScan(trace, net, pid, interval) && AllClosed(trace, net, pid)
    ensures var end := trace[|trace| - 1]; SeedsAreHeard(trace[0], end.list, end.supported, net, pid)
  {
    hide HashOf, Turn, Net.Addressed, Closed, SeedIsHeard, Turns, IsOnHand;
    var start, end := trace[0], trace[|trace| - 1];
    forall k | 0 <= k < |start.list| && (k == 0 || start.replSet.Some?) && IsOnHand(start, k, pid)
      ensures SeedIsHeard(start, end.list, end.supported, net, k, pid)
    {
      ListsGrow(trace, net, pid, interval, |trace| - 1);
      SeedsWait(trace, net, pid, interval, k, k);
      TurnHears(trace, net, pid, interval, k);
    }
  }

  lemma {:induction false} ListsGrow(trace: seq<Scan>, net: Net, pid: int, interval: int, n: nat)
    requires net.Addressed() && Turns(trace, net, pid, interval) && n < |trace|
    ensures |trace[0].list| <= |trace[n].list|
  {
    hide HashOf, AfterCheck, CheckTrouble, IsMaster, Net.Addressed, AddHosts;
    if n != 0 {
      ListsGrow(trace, net, pid, interval, n - 1);
    }
  }

  lemma {:induction false} MetKnows(reg: Registry, net: Net, i: nat, d: ServerDef, hosts: seq<string>, n: nat, pid: int, interval: int)
    requires AllAddresses(hosts) && n <= |hosts|
    ensures reg.known <= Met(reg, net, i, d, hosts, n, pid, interval).known
  {
    hide HashOf, HostOf, PortOf;
    if n != 0 {
      MetKnows(reg, net, i, d, hosts, n - 1, pid, interval);
    }
  }

  /** A turn forgets nobody but the server it checks, and changes nothing on the list but that server and
      the end; a set name that is known stays. */
  lemma TurnSpares(sc: Scan, i: nat, net: Net, pid: int, interval: int)
    requires i < |sc.list| && net.Addressed()
    ensures var after := Turn(sc, i, net, pid, interval);
            && sc.registry.known - {HashOf(sc.list[i], pid)} <= after.registry.known
            && |sc.list| <= |after.list| && (forall j | 0 <= j < |sc.list| && j != i :: after.list[j] == sc.list[j])
            && (sc.replSet.Some? ==> after.replSet == sc.replSet) && (after.supported ==> sc.supported)
  {
    hide HashOf, IsMaster, Net.Addressed, AddHosts, Met, CheckTrouble;
    var hash := HashOf(sc.list[i], pid);
    if hash in sc.registry.known {
      var c := CheckOf(sc, i, net, pid);
      var left := if c.code in {Failed, WrongWire, Renamed} then sc.registry.Without(hash) else sc.registry;
      MetKnows(left, net, i, c.def, c.hosts, |c.hosts|, pid, interval);
      CheckNames(sc, i, net, pid);
    }
  }

  lemma CheckNames(sc: Scan, i: nat, net: Net, pid: int)
    requires i < |sc.list| && net.Addressed()
    ensures sc.replSet.Some? ==> CheckOf(sc, i, net, pid).replSet == sc.replSet
  {
    hide HashOf;
    assert net.AddressedAt(i, sc.list[i]);
    SetNameStays(net.reply(i, sc.list[i]), HashOf(sc.list[i], pid), sc.list[i], sc.replSet);
  }

  /** Seeds stay as they are until their turn comes, and one on hand stays registered until then. */
  lemma {:induction false} SeedsWait(trace: seq<Scan>, net: Net, pid: int, interval: int, k: nat, n: nat)
    requires net.Addressed() && Turns(trace, net, pid, interval) && n < |trace| && n <= k < |trace[0].list|
    requires IsOnHand(trace[0], k, pid) && (k == 0 || trace[0].replSet.Some?)
    ensures |trace[0].list| <= |trace[n].list| && forall j | n <= j < |trace[0].list| :: trace[n].list[j] == trace[0].list[j]
    ensures HashOf(trace[0].list[k], pid) in trace[n].registry.known && trace[n].replSet == trace[0].replSet
  {
    hide HashOf, Turn, Turns, Net.Addressed;
    if n != 0 {
      SeedsWait(trace, net, pid, interval, k, n - 1);
      TurnAt(trace, net, pid, interval, n - 1);
      TurnSpares(trace[n - 1], n - 1, net, pid, interval);
    }
  }

  lemma TurnAt(trace: seq<Scan>, net: Net, pid: int, interval: int, i: nat)
    requires net.Addressed() && Turns(trace, net, pid, interval) && i < |trace| - 1
    ensures i < |trace[i].list| && trace[i + 1] == Turn(trace[i], i, net, pid, interval)
  {
    hide Turn, Net.Addressed;
  }

  /** What was met stays met. */
  lemma {:induction false} SupportDrops(trace: seq<Scan>, net: Net, pid: int, interval: int, i: nat, n: nat)
    requires net.Addressed() && Turns(trace, net, pid, interval) && i <= n < |trace|
    ensures trace[n].supported ==> trace[i].supported
  {
    hide Turn, Turns, Net.Addressed;
    if i < n {
      SupportDrops(trace, net, pid, interval, i, n - 1);
      TurnAt(trace, net, pid, interval, n - 1);
      TurnSpares(trace[n - 1], n - 1, net, pid, interval);
    }
  }

  lemma TurnHears(trace: seq<Scan>, net: Net, pid: int, interval: int, k: nat)
    requires net.Addressed() && IsScan(trace, net, pid, interval) && AllClosed(trace, net, pid)
    requires k < |trace[0].list| && k < |trace| - 1 && k < |trace[k].list|
    requires trace[k].list[k] == trace[0].list[k] && trace[k].replSet == trace[0].replSet
    requires HashOf(trace[0].list[k], pid) in trace[k].registry.known
    ensures var end := trace[|trace| - 1]; SeedIsHeard(trace[0], end.list, end.supported, net, k, pid)
  {
    hide HashOf, IsMaster, AddHosts, Met, ListAfter, HostOf, PortOf, IsGood;
    var sc, end, d := trace[k], trace[|trace| - 1], trace[0].list[k];
    var reply := net.reply(k, d);
    assert net.AddressedAt(k, d);
    CodesMean(reply, HashOf(d, pid), d, sc.replSet);
    SupportDrops(trace, net, pid, interval, k + 1, |trace| - 1);
    assert ClosedAt(end.list, sc, k, net, pid);
  }

  lemma NothingToClose(trace: seq<Scan>, net: Net, pid: int)
    requires net.Addressed() && |trace| == 1
    ensures Closed(trace[0].list, trace, net, pid)
  {
  }

  /** The answer so far does not matter to a turn. */
  lemma SupportedIsApart(sc: Scan, supported: bool, i: nat, net: Net, pid: int, interval: int)
    requires i < |sc.list| && net.Addressed()
    ensures var other := Turn(sc.(supported := supported), i, net, pid, interval);
            Turn(sc, i, net, pid, interval) ==
            other.(supported := if supported then sc.supported && other.supported else Turn(sc, i, net, pid, interval).supported)
  {
    hide ListAfter, AfterCheck, CheckTrouble, IsMaster, HashOf, Net.AddressedAt;
  }

  lemma ReportsAreAddressed(net: Net, names: set<string>, sets: set<string>)
    requires net.Reports(names, sets)
    ensures net.Addressed()
  {
  }

  lemma SeedsAreGrown(seeds: seq<ServerDef>, names: set<string>, sets: set<string>)
    requires forall h | h in names :: IsAddress(h)
    ensures Grown(seeds, seeds, names, sets)
  {
    hide Candidates;
  }

  /** What a turn may add keeps the list well grown and within bounds. */
  lemma TurnGrows(sc: Scan, seeds: seq<ServerDef>, names: set<string>, sets: set<string>, net: Net, i: nat, pid: int, interval: int)
    requires net.Reports(names, sets) && net.NoRenames(pid) && net.Addressed() && Grown(sc.list, seeds, names, sets) && i < |sc.list|
    ensures var after := Turn(sc, i, net, pid, interval).list;
            && Grown(after, seeds, names, sets) && Keeps(sc.list, after)
            && |after| <= |seeds| + |Candidates(seeds, names, sets) - Listed(seeds)|
  {
    hide HashOf, HostOf, PortOf, Candidates, Listed, IsMaster, Grown, Keeps, AfterCheck, CheckTrouble, Net.AddressedAt;
    GrownIsBounded(sc.list, seeds, names, sets);
    KeepsItself(sc.list);
    if HashOf(sc.list[i], pid) in sc.registry.known {
      CheckGrows(sc, seeds, names, sets, net, i, pid);
    }
  }

  lemma CheckGrows(sc: Scan, seeds: seq<ServerDef>, names: set<string>, sets: set<string>, net: Net, i: nat, pid: int)
    requires net.Reports(names, sets) && net.NoRenames(pid) && net.Addressed() && Grown(sc.list, seeds, names, sets) && i < |sc.list|
    ensures var checked := CheckOf(sc, i, net, pid);
            var after := ListAfter(sc.list, i, checked);
            && Grown(after, seeds, names, sets) && Keeps(sc.list, after)
            && |after| <= |seeds| + |Candidates(seeds, names, sets) - Listed(seeds)|
  {
    hide HashOf, HostOf, PortOf, Candidates, Listed, IsMaster, Grown, Net.AddressedAt;
    var list, d := sc.list, sc.list[i];
    var reply := net.reply(i, d);
    var checked := CheckOf(sc, i, net, pid);
    CheckedStays(reply, HashOf(d, pid), d, sc.replSet);
    var now := list[i := checked.def];
    ReplacedIsGrown(list, i, checked.def, seeds, names, sets, if reply.Answer? then reply.setName else None);
    GrownIsBounded(now, seeds, names, sets);
    if checked.code == Worked {
      AddHostsGrows(now, i, checked.hosts, reply.setName.value, seeds, names, sets);
      GrownIsBounded(AddHosts(now, checked.def, checked.hosts), seeds, names, sets);
    }
  }

  /** A set name where there was none keeps the list well grown. */
  lemma ReplacedIsGrown(list: seq<ServerDef>, i: nat, d: ServerDef, seeds: seq<ServerDef>, names: set<string>, sets: set<string>,
      n: Option<string>)
    requires (forall h | h in names :: IsAddress(h)) && Grown(list, seeds, names, sets) && i < |list|
    requires d == list[i] || (n.Some? && n.value in sets && d == Named(list[i], n.value))
    ensures Grown(list[i := d], seeds, names, sets)
  {
    hide HostOf, PortOf;
    if d != list[i] {
      assert list[i].replSet.None?;
      assert i < |seeds| && IsSeed(list[i], seeds[i], sets);
      assert IsSeed(d, seeds[i], sets);
    } else {
      assert list[i := d] == list;
    }
  }

  /** Definitions that have a set name keep their places. */
  ghost predicate Keeps(list: seq<ServerDef>, after: seq<ServerDef>) {
    |list| <= |after| && forall k | 0 <= k < |list| && list[k].replSet.Some? :: after[k] == list[k]
  }

  lemma KeepsItself(list: seq<ServerDef>)
    ensures Keeps(list, list)
  {
  }

  /** The `i`-th server has a set name, and what it reported is listed. */
  ghost predicate Lists(list: seq<ServerDef>, i: nat, hosts: seq<string>)
    requires i < |list|
  {
    list[i].replSet.Some? && forall h | h in hosts :: IsAddress(h) && DefAt(list[i], h) in list
  }

  /** What was reported by a server that was successfully checked at its turn is on the list. */
  ghost predicate Closed(list: seq<ServerDef>, trace: seq<Scan>, net: Net, pid: int)
    requires net.Addressed() && |trace| <= |list| + 1
    requires forall i | 0 <= i < |trace| - 1 :: i < |trace[i].list|
  {
    forall i | 0 <= i < |trace| - 1 :: ClosedAt(list, trace[i], i, net, pid)
  }

  ghost predicate ClosedAt(list: seq<ServerDef>, sc: Scan, i: nat, net: Net, pid: int)
    requires net.Addressed() && i < |list| && i < |sc.list|
  {
    HashOf(sc.list[i], pid) in sc.registry.known && CheckOf(sc, i, net, pid).code == Worked ==>
      list[i] == CheckOf(sc, i, net, pid).def && Lists(list, i, CheckOf(sc, i, net, pid).hosts)
  }

  ghost predicate AllClosed(trace: seq<Scan>, net: Net, pid: int)
    requires net.Addressed() && trace != [] && |trace[|trace| - 1].list| == |trace| - 1
    requires forall i | 0 <= i < |trace| - 1 :: i < |trace[i].list|
  {
    Closed(trace[|trace| - 1].list, trace, net, pid)
  }

  lemma TurnCloses(trace: seq<Scan>, net: Net, pid: int, interval: int)
    requires net.Addressed() && trace != [] && Turns(trace, net, pid, interval)
    requires |trace| <= |trace[|trace| - 1].list| && Closed(trace[|trace| - 1].list, trace, net, pid)
    requires var sc := trace[|trace| - 1]; Keeps(sc.list, Turn(sc, |trace| - 1, net, pid, interval).list)
    ensures var sc := trace[|trace| - 1];
            var next := Turn(sc, |trace| - 1, net, pid, interval);
            && Turns(trace + [next], net, pid, interval)
            && Closed(next.list, trace + [next], net, pid)
  {
    hide HashOf, Turn, ClosedAt, Keeps, Net.AddressedAt;
    var n := |trace| - 1;
    var sc := trace[n];
    var next := Turn(sc, n, net, pid, interval);
    var longer := trace + [next];
    KeepsIsLonger(sc.list, next.list);
    forall i | 0 <= i < |longer| - 1
      ensures i < |longer[i].list| && ClosedAt(next.list, longer[i], i, net, pid)
    {
      if i < n {
        assert longer[i] == trace[i];
        ClosedOn(sc.list, next.list, trace[i], i, net, pid);
      } else {
        ClosesItself(sc, n, net, pid, interval);
      }
    }
  }

  lemma KeepsIsLonger(list: seq<ServerDef>, after: seq<ServerDef>)
    requires Keeps(list, after)
    ensures |list| <= |after|
  {
  }

  /** A turn lists what its own server reported. */
  lemma ClosesItself(sc: Scan, i: nat, net: Net, pid: int, interval: int)
    requires net.Addressed() && i < |sc.list|
    ensures i < |Turn(sc, i, net, pid, interval).list| && ClosedAt(Turn(sc, i, net, pid, interval).list, sc, i, net, pid)
  {
    hide HashOf, HostOf, PortOf, AfterCheck, CheckTrouble, IsMaster;
    var d := sc.list[i];
    var checked := CheckOf(sc, i, net, pid);
    assert net.AddressedAt(i, d);
    WorkedHasSet(net.reply(i, d), HashOf(d, pid), d, sc.replSet);
    if checked.code == Worked {
      var now := sc.list[i := checked.def];
      AddHostsCloses(now, checked.def, checked.hosts, |now|);
    }
  }

  lemma WorkedHasSet(reply: Reply, hash: string, d: ServerDef, replSet: Option<string>)
    requires reply.Answer? && reply.me.Some? ==> IsAddress(reply.me.value)
    ensures IsMaster(reply, hash, d, replSet).code == Worked ==> IsMaster(reply, hash, d, replSet).def.replSet.Some?
  {
  }

  lemma ClosedOn(list: seq<ServerDef>, after: seq<ServerDef>, sc: Scan, i: nat, net: Net, pid: int)
    requires net.Addressed() && i < |list| && i < |sc.list| && Keeps(list, after) && ClosedAt(list, sc, i, net, pid)
    ensures i < |after| && ClosedAt(after, sc, i, net, pid)
  {
    hide HashOf, HostOf, PortOf, Net.AddressedAt, IsMaster;
    if HashOf(sc.list[i], pid) in sc.registry.known && CheckOf(sc, i, net, pid).code == Worked {
      forall h | h in CheckOf(sc, i, net, pid).hosts
        ensures DefAt(after[i], h) in after
      {
        var k :| 0 <= k < |list| && list[k] == DefAt(list[i], h);
        assert after[k] == list[k];
      }
    }
  }
}
