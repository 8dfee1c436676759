/** The connection manager: the registry of connections, the blacklist of servers that could not be
    reached, and the one way to get a connection to a server. */
module Managers {
  import opened Files
  import opened LinkedLists
  import opened Connections

  /** How the network and the clock answer during one request.  The times are those the source reads
      from gettimeofday, in the order in which it reads them. */
  datatype Weather = Weather(
    checkedAt: int, connectedAt: int, connects: bool, failedAt: int,
    answers: bool, nodeType: NodeType, authenticates: bool,
    pingedAt: int, pings: bool, pongAt: int, elapsedMs: int)
  {
    /** The clock does not run backwards. */
    predicate Timely(clock: int) {
      clock <= checkedAt <= connectedAt <= failedAt && connectedAt <= pingedAt <= pongAt
    }

    /** A new connection comes about: connected, answered, authenticated unless to an arbiter, and pinged
        if a first ping is due. */
    predicate Brings(pingInterval: int) {
      connects && answers && (nodeType != Arbiter ==> authenticates) && (pingInterval <= pingedAt ==> pings)
    }

    /** The last time the request may have read. */
    function Last(): int {
      if failedAt <= pongAt then pongAt else failedAt
    }
  }

  /** One connection attempt, and when its failure was recorded, if it failed. */
  datatype Attempt = Attempt(hash: string, at: int, failedAt: Option<int>)

  type Blacklist = seq<Entry<string, int>>

  /** Every failure is still on the blacklist or at least `interval` seconds old. */
  ghost predicate Remembered(attempts: seq<Attempt>, bl: Blacklist, interval: int, clock: int) {
    forall i | 0 <= i < |attempts| && attempts[i].failedAt.Some? ::
      var a := attempts[i];
      || a.failedAt.value + interval <= clock
      || (HasKey(bl, a.hash) && a.failedAt.value <= Lookup(bl, a.hash).value)
  }

  /** No attempt came less than `interval` seconds after the recorded failure of an earlier attempt on
      the same server. */
  ghost predicate Patient(attempts: seq<Attempt>, interval: int) {
    forall i, j | 0 <= i < j < |attempts| && attempts[i].hash == attempts[j].hash && attempts[i].failedAt.Some? ::
      attempts[i].failedAt.value + interval <= attempts[j].at
  }

  /** Dropping an entry that has run out, as time goes on, forgets nothing. */
  lemma RememberedAfterCheck(attempts: seq<Attempt>, bl: Blacklist, interval: int, clock: int, hash: string, now: int)
    requires Remembered(attempts, bl, interval, clock) && clock <= now
    requires HasKey(bl, hash) ==> Lookup(bl, hash).value + interval <= now
    ensures Remembered(attempts, RemoveFirst(bl, hash), interval, now)
  {
    forall i | 0 <= i < |attempts| && attempts[i].failedAt.Some?
      ensures var a := attempts[i];
              || a.failedAt.value + interval <= now
              || (HasKey(RemoveFirst(bl, hash), a.hash)
                  && a.failedAt.value <= Lookup(RemoveFirst(bl, hash), a.hash).value)
    {
      LookupRemove(bl, hash, attempts[i].hash);
    }
  }

  lemma RememberedLater(attempts: seq<Attempt>, bl: Blacklist, interval: int, clock: int, now: int)
    requires Remembered(attempts, bl, interval, clock) && clock <= now
    ensures Remembered(attempts, bl, interval, now)
  {
  }

  /** An attempt on a server that is not on the blacklist is patient, and a failure is remembered. */
  lemma OneMoreAttempt(attempts: seq<Attempt>, bl: Blacklist, interval: int, clock: int, a: Attempt)
    requires Remembered(attempts, bl, interval, clock) && Patient(attempts, interval)
    requires !HasKey(bl, a.hash) && clock <= a.at && (a.failedAt.Some? ==> a.at <= a.failedAt.value)
    ensures Patient(attempts + [a], interval)
    ensures Remembered(attempts + [a], if a.failedAt.Some? then bl + [Entry(a.hash, a.failedAt.value)] else bl,
                       interval, a.at)
  {
    var all := attempts + [a];
    if a.failedAt.Some? {
      var e := Entry(a.hash, a.failedAt.value);
      forall i | 0 <= i < |all| && all[i].failedAt.Some?
        ensures || all[i].failedAt.value + interval <= a.at
                || (HasKey(bl + [e], all[i].hash) && all[i].failedAt.value <= Lookup(bl + [e], all[i].hash).value)
      {
        LookupAppend(bl, e, all[i].hash);
      }
    }
  }

  class Manager {
    const pid: int
    const pingInterval: int
    const connections: LinkedList<string, Connection>
    const blacklist: LinkedList<string, int>
    /** Every connection attempt so far. */
    ghost var attempts: seq<Attempt>

    constructor (pid: int, pingInterval: int)
      ensures this.pid == pid && this.pingInterval == pingInterval
      ensures Valid() && connections.Entries() == [] && blacklist.Entries() == [] && attempts == []
      ensures fresh(connections) && fresh(blacklist)
    {
      this.pid, this.pingInterval := pid, pingInterval;
      connections := new LinkedList();
      blacklist := new LinkedList();
      attempts := [];
    }

    /** Registered hashes are unique, blacklisted hashes are unique, and no hash is both. */
    ghost predicate Valid()
      reads connections, connections.nodes, blacklist, blacklist.nodes
    {
      && connections.Valid() && blacklist.Valid()
      && connections as object != blacklist
      && UniqueKeys(connections.Entries()) && UniqueKeys(blacklist.Entries())
      && (forall hash :: HasKey(connections.Entries(), hash) ==> !HasKey(blacklist.Entries(), hash))
      && (forall e | e in connections.Entries() :: e.data.hash == e.key)
    }

    ghost function Registered(): set<Connection>
      reads connections
    {
      set e | e in connections.Entries() :: e.data
    }

    /** The lists have grown by new nodes only, and every registered connection is an old one or new. */
    twostate predicate KeepsFrame()
      reads connections, blacklist
    {
      && (forall i | 0 <= i < |connections.nodes| ::
            connections.nodes[i] in old(connections.nodes) || fresh(connections.nodes[i]))
      && (forall i | 0 <= i < |blacklist.nodes| ::
            blacklist.nodes[i] in old(blacklist.nodes) || fresh(blacklist.nodes[i]))
      && (forall c | c in Registered() :: c in old(Registered()) || fresh(c))
    }

    /** mongo_connection_ping_check. */
    predicate PingIsDue(lastPing: int, now: int) {
      lastPing + pingInterval <= now
    }

    /** Nothing but `hash` has changed in either list. */
    twostate predicate OnlyTouches(hash: string)
      reads this, connections, blacklist
    {
      forall k | k != hash ::
        && Lookup(connections.Entries(), k) == old(Lookup(connections.Entries(), k))
        && Lookup(blacklist.Entries(), k) == old(Lookup(blacklist.Entries(), k))
    }

    /** Looks the server up on the blacklist; an entry that has run out is taken off. */
    method CheckBlacklist(hash: string, now: int) returns (blocked: bool)
      requires Valid()
      modifies blacklist, blacklist.nodes
      ensures Valid() && connections.Entries() == old(connections.Entries())
      ensures var before := old(blacklist.Entries());
              && blocked == (HasKey(before, hash) && !PingIsDue(Lookup(before, hash).value, now))
              && blacklist.Entries() == (if blocked then before else RemoveFirst(before, hash))
      ensures OnlyTouches(hash) && (!blocked ==> !HasKey(blacklist.Entries(), hash))
      ensures blocked <==> old(HasKey(blacklist.Entries(), hash)) && now < old(Lookup(blacklist.Entries(), hash).value) + pingInterval
      ensures KeepsFrame()
    {
      ghost var before := blacklist.Entries();
      var last := blacklist.Find(hash);
      blocked := last.Some? && !PingIsDue(last.value, now);
      if last.Some? && !blocked {
        var _ := blacklist.Remove(hash);
      }
      forall k
        ensures k != hash ==> Lookup(blacklist.Entries(), k) == Lookup(before, k)
        ensures HasKey(blacklist.Entries(), k) ==> HasKey(before, k)
      {
        LookupRemove(before, hash, k);
      }
      LookupRemove(before, hash, hash);
    }

    /** mongo_connection_ping: a round trip when one is due.  The latency never goes below zero. */
    method Ping(con: Connection, w: Weather) returns (ok: bool)
      modifies con`lastPing, con`pingMs
      ensures ok == (!PingIsDue(old(con.lastPing), w.pingedAt) || w.pings)
      ensures ok <==> w.pingedAt < old(con.lastPing) + pingInterval || w.pings
      ensures if PingIsDue(old(con.lastPing), w.pingedAt) && w.pings
              then con.lastPing == w.pongAt && con.pingMs == Max(0, w.elapsedMs)
              else con.lastPing == old(con.lastPing) && con.pingMs == old(con.pingMs)
    {
      if !PingIsDue(con.lastPing, w.pingedAt) {
        return true;
      }
      if !w.pings {
        return false;
      }
      con.lastPing, con.pingMs := w.pongAt, w.elapsedMs;
      if con.pingMs < 0 {
        con.pingMs := 0;
      }
      ok := true;
    }

    /** mongo_manager_connection_find_by_hash. */
    method Find(hash: string) returns (r: Option<Connection>)
      requires Valid()
      ensures r == Lookup(connections.Entries(), hash) && (r.Some? ==> r.value.hash == hash)
    {
      r := connections.Find(hash);
      if r.Some? {
        LookupIsRegistered(hash);
      }
    }

    /** Takes a connection out of the registry; the connection itself is closed by Connection.Destroy. */
    method Deregister(con: Connection) returns (found: bool)
      requires Valid()
      modifies connections, connections.nodes
      ensures Valid() && connections.Entries() == RemoveFirst(old(connections.Entries()), con.hash)
      ensures found == HasKey(old(connections.Entries()), con.hash) && !HasKey(connections.Entries(), con.hash)
      ensures OnlyTouches(con.hash) && blacklist.Entries() == old(blacklist.Entries())
      ensures KeepsFrame() && con !in Registered()
    {
      ghost var before := connections.Entries();
      found := connections.Remove(con.hash);
      forall k
        ensures k != con.hash ==> Lookup(connections.Entries(), k) == Lookup(before, k)
        ensures HasKey(connections.Entries(), k) ==> HasKey(before, k)
      {
        LookupRemove(before, con.hash, k);
      }
      LookupRemove(before, con.hash, con.hash);
      NotRegistered(con);
    }

    lemma NotRegistered(con: Connection)
      requires Valid() && !HasKey(connections.Entries(), con.hash)
      ensures con !in Registered()
    {
      var es := connections.Entries();
      if con in Registered() {
        var i :| 0 <= i < |es| && es[i].data == con;
        LookupFinds(es, con.hash);
      }
    }

    /** A registration at the end of the registry. */
    method Register(con: Connection)
      requires Valid() && !HasKey(connections.Entries(), con.hash) && !HasKey(blacklist.Entries(), con.hash)
      modifies connections, connections.nodes
      ensures Valid() && connections.Entries() == old(connections.Entries()) + [Entry(con.hash, con)]
      ensures Lookup(connections.Entries(), con.hash) == Some(con)
      ensures OnlyTouches(con.hash) && blacklist.Entries() == old(blacklist.Entries())
      ensures forall c | c in Registered() :: c in old(Registered()) || c == con
      ensures forall i | 0 <= i < |connections.nodes| ::
                connections.nodes[i] in old(connections.nodes) || fresh(connections.nodes[i])
    {
      ghost var before, e := connections.Entries(), Entry(con.hash, con);
      UniqueAppend(before, e);
      forall k
        ensures Lookup(before + [e], k) == if k == con.hash then Some(con) else Lookup(before, k)
      {
        LookupAppend(before, e, k);
      }
      connections.Append(con.hash, con);
    }

    method Blacklisted(hash: string, at: int)
      requires Valid() && !HasKey(connections.Entries(), hash) && !HasKey(blacklist.Entries(), hash)
      modifies blacklist, blacklist.nodes
      ensures Valid() && blacklist.Entries() == old(blacklist.Entries()) + [Entry(hash, at)]
      ensures OnlyTouches(hash) && connections.Entries() == old(connections.Entries())
      ensures KeepsFrame()
    {
      ghost var before, e := blacklist.Entries(), Entry(hash, at);
      UniqueAppend(before, e);
      forall k
        ensures Lookup(before + [e], k) == if k == hash then Some(at) else Lookup(before, k)
      {
        LookupAppend(before, e, k);
      }
      blacklist.Append(hash, at);
    }

    /** A new connection: connect, isMaster, version, authentication unless the node is an arbiter, and
        a first ping.  Only a failing connect is blacklisted. */
    method Connect(hash: string, w: Weather) returns (r: Option<Connection>)
      requires Valid() && !HasKey(connections.Entries(), hash) && !HasKey(blacklist.Entries(), hash)
      modifies `attempts, connections, connections.nodes, blacklist, blacklist.nodes
      ensures Valid() && OnlyTouches(hash)
      ensures attempts == old(attempts) + [Attempt(hash, w.connectedAt, if w.connects then None else Some(w.failedAt))]
      ensures blacklist.Entries() ==
              if w.connects then old(blacklist.Entries()) else old(blacklist.Entries()) + [Entry(hash, w.failedAt)]
      ensures r.Some? <==> w.Brings(pingInterval)
      ensures r.Some? <==> w.connects && w.answers && (w.nodeType == Arbiter || w.authenticates)
                           && (w.pingedAt < pingInterval || w.pings)
      ensures r.Some? ==> (r.value.lastPing, r.value.pingMs) ==
                          if w.pingedAt < pingInterval then (0, 0) else (w.pongAt, Max(0, w.elapsedMs))
      ensures Lookup(connections.Entries(), hash) == r
      ensures r.Some? ==> fresh(r.value) && r.value.hash == hash && r.value.connected && 0 <= r.value.pingMs
                          && r.value.nodeType == w.nodeType
      ensures KeepsFrame()
    {
      hide Valid, Lookup;
      attempts := attempts + [Attempt(hash, w.connectedAt, if w.connects then None else Some(w.failedAt))];
      if !w.connects {
        Blacklisted(hash, w.failedAt);
        return None;
      }
      var con := new Connection(hash);
      if !w.answers {
        return None;
      }
      con.nodeType := w.nodeType;
      if con.nodeType != Arbiter && !w.authenticates {
        return None;
      }
      var ok := Ping(con, w);
      if !ok {
        return None;
      }
      Register(con);
      con.connected := true;
      r := Some(con);
    }

    /** On the blacklist, and the entry has not run out. */
    ghost predicate Blocked(hash: string, now: int)
      requires blacklist.Valid()
      reads blacklist, blacklist.nodes
    {
      HasKey(blacklist.Entries(), hash) && !PingIsDue(Lookup(blacklist.Entries(), hash).value, now)
    }

    /** A request tries to connect only to what is neither blocked nor registered. */
    ghost predicate Attempts(hash: string, dontConnect: bool, w: Weather)
      requires Valid()
      reads connections, connections.nodes, blacklist, blacklist.nodes
    {
      !Blocked(hash, w.checkedAt) && !dontConnect && !HasKey(connections.Entries(), hash)
    }

    /** When a request is answered with a connection: a registered one that is not due for a ping or
        answers it, or a new one that comes about. */
    ghost predicate Succeeds(hash: string, dontConnect: bool, w: Weather)
      requires Valid()
      reads connections, connections.nodes, blacklist, blacklist.nodes, Registered()
    {
      var known := Lookup(connections.Entries(), hash);
      LookupIn(hash);
      !Blocked(hash, w.checkedAt) &&
      if known.Some? then dontConnect || !PingIsDue(known.value.lastPing, w.pingedAt) || w.pings
      else !dontConnect && w.Brings(pingInterval)
    }

    lemma LookupIn(hash: string)
      requires Valid()
      ensures HasKey(connections.Entries(), hash) ==> Lookup(connections.Entries(), hash).value in Registered()
    {
      if HasKey(connections.Entries(), hash) {
        LookupIsRegistered(hash);
      }
    }

    /** The blacklist check of a request decides alone whether the request is turned away, and leaves
        what else will become of it as it was. */
    method Admit(hash: string, dontConnect: bool, w: Weather) returns (blocked: bool)
      requires Valid()
      modifies blacklist, blacklist.nodes
      ensures Valid() && connections.Entries() == old(connections.Entries())
      ensures var before := old(blacklist.Entries());
              && blocked == (HasKey(before, hash) && !PingIsDue(Lookup(before, hash).value, w.checkedAt))
              && blacklist.Entries() == (if blocked then before else RemoveFirst(before, hash))
      ensures OnlyTouches(hash) && (!blocked ==> !HasKey(blacklist.Entries(), hash))
      ensures KeepsFrame()
      ensures blocked == old(Blocked(hash, w.checkedAt))
      ensures blocked ==> !old(Succeeds(hash, dontConnect, w)) && !old(Attempts(hash, dontConnect, w))
      ensures !blocked ==> Succeeds(hash, dontConnect, w) == old(Succeeds(hash, dontConnect, w))
                           && Attempts(hash, dontConnect, w) == old(Attempts(hash, dontConnect, w))
    {
      ghost var known := Lookup(connections.Entries(), hash);
      LookupIn(hash);
      blocked := CheckBlacklist(hash, w.checkedAt);
      assert known.Some? ==> known.value.lastPing == old(known.value.lastPing);
    }

    /** What a request for a registered connection does to its time and latency: a round trip when one is
        due and the request may make one. */
    predicate Pinged(lastPing: int, pingMs: int, lastBefore: int, msBefore: int, dontConnect: bool, w: Weather) {
      (lastPing, pingMs) ==
      if dontConnect || w.pingedAt < lastBefore + pingInterval then (lastBefore, msBefore) else (w.pongAt, Max(0, w.elapsedMs))
    }

    /** The blacklist check, and what is behind it. */
    method Serve(hash: string, dontConnect: bool, w: Weather) returns (r: Option<Connection>)
      requires Valid()
      modifies `attempts, connections, connections.nodes, blacklist, blacklist.nodes, Registered()
      ensures Valid() && OnlyTouches(hash) && KeepsFrame()
      ensures r.Some? ==> r.value.hash == hash && Lookup(connections.Entries(), hash) == r
      ensures !dontConnect && r.None? ==> !HasKey(connections.Entries(), hash)
      ensures r.Some? <==> old(Succeeds(hash, dontConnect, w))
      ensures attempts == if old(Attempts(hash, dontConnect, w))
                          then old(attempts) + [Attempt(hash, w.connectedAt, if w.connects then None else Some(w.failedAt))]
                          else old(attempts)
      ensures old(HasKey(connections.Entries(), hash)) && r.Some? ==> r == old(Lookup(connections.Entries(), hash))
      ensures old(HasKey(connections.Entries(), hash)) && r.Some? ==>
                Pinged(r.value.lastPing, r.value.pingMs, old(r.value.lastPing), old(r.value.pingMs), dontConnect, w)
      ensures old(HasKey(blacklist.Entries(), hash)) && w.checkedAt < old(Lookup(blacklist.Entries(), hash).value) + pingInterval ==>
                r.None? && attempts == old(attempts) && blacklist.Entries() == old(blacklist.Entries())
      ensures blacklist.Entries() ==
              if old(Blocked(hash, w.checkedAt)) then old(blacklist.Entries())
              else old(RemoveFirst(blacklist.Entries(), hash))
                   + if old(Attempts(hash, dontConnect, w)) && !w.connects then [Entry(hash, w.failedAt)] else []
    {
      hide Valid, Lookup, RemoveFirst, Succeeds, Attempts, Blocked, Pinged;
      ghost var known := Lookup(connections.Entries(), hash);
      var blocked := Admit(hash, dontConnect, w);
      if blocked {
        return None;
      }
      assert known.Some? ==> known.value.lastPing == old(known.value.lastPing) && known.value.pingMs == old(known.value.pingMs);
      r := UseOrConnect(hash, dontConnect, w);
    }

    /** mongo_get_connection_single. */
    method GetSingle(hash: string, dontConnect: bool, w: Weather, ghost clock: int) returns (r: Option<Connection>)
      requires Valid()
      modifies `attempts, connections, connections.nodes, blacklist, blacklist.nodes, Registered()
      ensures Valid() && OnlyTouches(hash) && KeepsFrame()
      ensures r.Some? ==> r.value.hash == hash && Lookup(connections.Entries(), hash) == r
      ensures !dontConnect && r.None? ==> !HasKey(connections.Entries(), hash)
      ensures r.Some? <==> old(Succeeds(hash, dontConnect, w))
      ensures attempts == if old(Attempts(hash, dontConnect, w))
                          then old(attempts) + [Attempt(hash, w.connectedAt, if w.connects then None else Some(w.failedAt))]
                          else old(attempts)
      ensures old(HasKey(connections.Entries(), hash)) && r.Some? ==> r == old(Lookup(connections.Entries(), hash))
      ensures old(HasKey(connections.Entries(), hash)) && r.Some? ==>
                Pinged(r.value.lastPing, r.value.pingMs, old(r.value.lastPing), old(r.value.pingMs), dontConnect, w)
      ensures old(HasKey(blacklist.Entries(), hash)) && w.checkedAt < old(Lookup(blacklist.Entries(), hash).value) + pingInterval ==>
                r.None? && attempts == old(attempts) && blacklist.Entries() == old(blacklist.Entries())
      ensures blacklist.Entries() ==
              if old(Blocked(hash, w.checkedAt)) then old(blacklist.Entries())
              else old(RemoveFirst(blacklist.Entries(), hash))
                   + if old(Attempts(hash, dontConnect, w)) && !w.connects then [Entry(hash, w.failedAt)] else []
      ensures old(Remembered(attempts, blacklist.Entries(), pingInterval, clock)) && old(Patient(attempts, pingInterval))
              && w.Timely(clock) ==>
                Remembered(attempts, blacklist.Entries(), pingInterval, w.Last()) && Patient(attempts, pingInterval)
    {
      hide Remembered, Patient;
      ghost var bl, tries := blacklist.Entries(), attempts;
      assert UniqueKeys(bl);
      if Remembered(tries, bl, pingInterval, clock) && Patient(tries, pingInterval) && w.Timely(clock) {
        RequestKeepsHistory(tries, bl, pingInterval, clock, hash, w, Attempts(hash, dontConnect, w));
      }
      hide Valid, Lookup, RemoveFirst, Succeeds, Attempts, Blocked, Weather.Timely, Pinged;
      r := Serve(hash, dontConnect, w);
    }

    lemma LookupIsRegistered(hash: string)
      requires Valid() && HasKey(connections.Entries(), hash)
      ensures var con := Lookup(connections.Entries(), hash).value;
              con.hash == hash && con in Registered()
    {
      var es := connections.Entries();
      LookupFinds(es, hash);
      assert Entry(hash, Lookup(es, hash).value) in es;
    }

    /** The part behind the blacklist check: ping what is registered, or connect. */
    method UseOrConnect(hash: string, dontConnect: bool, w: Weather) returns (r: Option<Connection>)
      requires Valid() && !HasKey(blacklist.Entries(), hash)
      modifies `attempts, connections, connections.nodes, blacklist, blacklist.nodes, Registered()
      ensures Valid() && OnlyTouches(hash) && KeepsFrame()
      ensures r.Some? ==> r.value.hash == hash && Lookup(connections.Entries(), hash) == r
      ensures !dontConnect && r.None? ==> !HasKey(connections.Entries(), hash)
      ensures dontConnect ==> r == old(Lookup(connections.Entries(), hash))
      ensures old(HasKey(connections.Entries(), hash)) && r.Some? ==> r == old(Lookup(connections.Entries(), hash))
      ensures old(HasKey(connections.Entries(), hash)) && r.Some? ==>
                Pinged(r.value.lastPing, r.value.pingMs, old(r.value.lastPing), old(r.value.pingMs), dontConnect, w)
      ensures r.Some? <==> old(Succeeds(hash, dontConnect, w))
      ensures old(Attempts(hash, dontConnect, w)) <==> !dontConnect && !old(HasKey(connections.Entries(), hash))
      ensures if dontConnect || old(HasKey(connections.Entries(), hash))
              then attempts == old(attempts) && blacklist.Entries() == old(blacklist.Entries())
              else attempts == old(attempts) + [Attempt(hash, w.connectedAt, if w.connects then None else Some(w.failedAt))]
                   && blacklist.Entries() ==
                      if w.connects then old(blacklist.Entries()) else old(blacklist.Entries()) + [Entry(hash, w.failedAt)]
    {
      r := connections.Find(hash);
      if r.Some? {
        LookupIsRegistered(hash);
      }
      hide Valid, Lookup;
      if r.None? && !dontConnect {
        r := Connect(hash, w);
      } else if !dontConnect {
        var ok := Ping(r.value, w);
        if !ok {
          var _ := Deregister(r.value);
          r := None;
        }
      }
    }
  }

  /** The blacklist check, alone, keeps the history whatever comes after it. */
  lemma CheckKeepsHistory(attempts: seq<Attempt>, bl: Blacklist, interval: int, clock: int, hash: string, w: Weather)
    requires UniqueKeys(bl)
    ensures var due := HasKey(bl, hash) ==> Lookup(bl, hash).value + interval <= w.checkedAt;
            var after := if due then RemoveFirst(bl, hash) else bl;
            Remembered(attempts, bl, interval, clock) && w.Timely(clock) ==>
              && Remembered(attempts, after, interval, w.Last())
              && (due ==> Remembered(attempts, after, interval, w.checkedAt))
  {
    if Remembered(attempts, bl, interval, clock) && w.Timely(clock) {
      RememberedLater(attempts, bl, interval, clock, w.Last());
      if HasKey(bl, hash) ==> Lookup(bl, hash).value + interval <= w.checkedAt {
        RememberedAfterCheck(attempts, bl, interval, clock, hash, w.checkedAt);
        RememberedLater(attempts, RemoveFirst(bl, hash), interval, w.checkedAt, w.Last());
      }
    }
  }

  lemma AttemptKeepsHistory(attempts: seq<Attempt>, bl: Blacklist, interval: int, hash: string, w: Weather)
    requires !HasKey(bl, hash)
    ensures var a := Attempt(hash, w.connectedAt, if w.connects then None else Some(w.failedAt));
            Remembered(attempts, bl, interval, w.checkedAt) && Patient(attempts, interval) && w.Timely(w.checkedAt) ==>
              && Patient(attempts + [a], interval)
              && Remembered(attempts + [a], if w.connects then bl else bl + [Entry(hash, w.failedAt)], interval, w.Last())
  {
    if Remembered(attempts, bl, interval, w.checkedAt) && Patient(attempts, interval) && w.Timely(w.checkedAt) {
      var a := Attempt(hash, w.connectedAt, if w.connects then None else Some(w.failedAt));
      OneMoreAttempt(attempts, bl, interval, w.checkedAt, a);
      RememberedLater(attempts + [a], if w.connects then bl else bl + [Entry(hash, w.failedAt)], interval, w.connectedAt, w.Last());
    }
  }

  /** A request keeps the history, whether it is turned away, tries to connect, or does not. */
  lemma RequestKeepsHistory(attempts: seq<Attempt>, bl: Blacklist, interval: int, clock: int, hash: string, w: Weather, tries: bool)
    requires UniqueKeys(bl)
    requires var blocked := HasKey(bl, hash) && w.checkedAt < Lookup(bl, hash).value + interval; tries ==> !blocked
    requires Remembered(attempts, bl, interval, clock) && Patient(attempts, interval) && w.Timely(clock)
    ensures var blocked := HasKey(bl, hash) && w.checkedAt < Lookup(bl, hash).value + interval;
            var after := if blocked then bl
                         else RemoveFirst(bl, hash) + if tries && !w.connects then [Entry(hash, w.failedAt)] else [];
            var all := if tries then attempts + [Attempt(hash, w.connectedAt, if w.connects then None else Some(w.failedAt))] else attempts;
            Remembered(all, after, interval, w.Last()) && Patient(all, interval)
  {
    hide Remembered, Patient, Lookup, RemoveFirst;
    CheckKeepsHistory(attempts, bl, interval, clock, hash, w);
    var left := RemoveFirst(bl, hash);
    LookupRemove(bl, hash, hash);
    assert left + [] == left;
    if tries {
      AttemptKeepsHistory(attempts, left, interval, hash, w);
    }
  }

  datatype Request = Request(hash: string, dontConnect: bool, weather: Weather)

  /** The clock does not run backwards from one request to the next. */
  predicate TimelyRun(clock: int, requests: seq<Request>)
    decreases |requests|
  {
    if requests == [] then true
    else requests[0].weather.Timely(clock) && TimelyRun(requests[0].weather.Last(), requests[1..])
  }

  /** Over every run of requests, whatever the network does, no hash is registered twice, blacklisted
      twice or both; and if the clock never ran backwards, no server was tried again before its
      interval had passed. */
  method Run(m: Manager, requests: seq<Request>, ghost clock: int)
    requires m.Valid() && m.attempts == []
    modifies m, m.connections, m.connections.nodes, m.blacklist, m.blacklist.nodes, m.Registered()
    ensures m.Valid()
    ensures TimelyRun(clock, requests) ==> Patient(m.attempts, m.pingInterval)
  {
    hide Manager.Valid, Remembered, Patient;
    ghost var now := clock;
    NoAttempts(m.blacklist.Entries(), m.pingInterval, clock);
    for i := 0 to |requests|
      invariant m.Valid() && m.KeepsFrame()
      invariant TimelyRun(clock, requests) ==>
                  && TimelyRun(now, requests[i..])
                  && Patient(m.attempts, m.pingInterval)
                  && Remembered(m.attempts, m.blacklist.Entries(), m.pingInterval, now)
    {
      var q := requests[i];
      assert requests[i..][1..] == requests[i + 1..];
      label L:
      var _ := m.GetSingle(q.hash, q.dontConnect, q.weather, now);
      now := q.weather.Last();
    }
  }

  lemma NoAttempts(bl: Blacklist, interval: int, clock: int)
    ensures Remembered([], bl, interval, clock) && Patient([], interval)
  {
  }
}
