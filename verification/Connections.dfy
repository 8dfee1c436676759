/** Connections, and the callbacks that are told when one is destroyed. */
module Connections {
  import opened Files
  import opened LinkedLists
  import opened Text
  import ConnHash

  datatype NodeType = Invalid | Standalone | Primary | Secondary | Arbiter | Mongos
  {
    /** The constant of the type, a bit of its own for all but Invalid. */
    function Bit(): nat {
      match this
      case Invalid => 0x00
      case Standalone => 0x01
      case Primary => 0x02
      case Secondary => 0x04
      case Arbiter => 0x08
      case Mongos => 0x10
    }
  }

  /** A callback's data is a pointer that may be null; which function it belongs to is a number. */
  type Token = Option<int>

  datatype Call = Call(data: int, callback: int)

  /** The calls made for a cleanup list: one for each entry whose data is not null, in order. */
  function Calls(es: seq<Entry<Token, int>>): seq<Call> {
    if es == [] then []
    else (if es[0].key.Some? then [Call(es[0].key.value, es[0].data)] else []) + Calls(es[1..])
  }

  /** The calls for one list behind another come behind its calls. */
  lemma {:induction false} CallsConcat(a: seq<Entry<Token, int>>, b: seq<Entry<Token, int>>)
    ensures Calls(a + b) == Calls(a) + Calls(b)
  {
    if a == [] {
      assert a + b == b;
    } else {
      CallsConcat(a[1..], b);
      assert (a + b)[1..] == a[1..] + b;
      ConcatAssociates(if a[0].key.Some? then [Call(a[0].key.value, a[0].data)] else [], Calls(a[1..]), Calls(b));
    }
  }

  lemma CallsOfOne(x: int, f: int)
    ensures Calls([Entry(Some(x), f)]) == [Call(x, f)] && Calls([Entry(None, f)]) == []
  {
    var one, none: seq<Entry<Token, int>> := [Entry(Some(x), f)], [Entry(None, f)];
    assert one[1..] == [] && none[1..] == [];
  }

  class Connection {
    const hash: string
    const cleanup: LinkedList<Token, int>
    var lastPing: int
    var pingMs: int
    var lastIsmaster: int
    var lastReplcheck: int
    var connected: bool
    /** The socket is not null. */
    var open: bool
    var nodeType: NodeType
    var tags: seq<string>

    /** A connection whose socket has just been opened. */
    constructor (hash: string)
      ensures this.hash == hash && open && !connected && lastPing == lastIsmaster == lastReplcheck == 0
      ensures nodeType == Standalone && tags == [] && pingMs == 0
      ensures cleanup.Valid() && cleanup.Entries() == [] && fresh(cleanup)
    {
      this.hash := hash;
      open, connected, lastPing, lastIsmaster, lastReplcheck, pingMs := true, false, 0, 0, 0, 0;
      nodeType, tags := Standalone, [];
      cleanup := new LinkedList();
    }

    method AddCallback(data: Token, callback: int)
      requires cleanup.Valid()
      modifies cleanup, cleanup.nodes
      ensures cleanup.Valid() && cleanup.Entries() == old(cleanup.Entries()) + [Entry(data, callback)]
      ensures forall i | 0 <= i < |cleanup.nodes| :: cleanup.nodes[i] in old(cleanup.nodes) || fresh(cleanup.nodes[i])
    {
      cleanup.Append(data, callback);
    }

    method DeregisterCallback(cursor: Token)
      requires cleanup.Valid()
      modifies cleanup, cleanup.nodes
      ensures cleanup.Valid() && cleanup.Entries() == RemoveFirst(old(cleanup.Entries()), cursor)
      ensures forall i | 0 <= i < |cleanup.nodes| :: cleanup.nodes[i] in old(cleanup.nodes)
    {
      var _ := cleanup.Remove(cursor);
    }

    /** mongo_connection_destroy: a live connection of this process is closed and every callback with
        data is called, once and in the order of the list.  A connection of another process, or one
        that is closed already, is left alone. */
    method Destroy(pid: int) returns (calls: seq<Call>)
      requires cleanup.Valid() && ConnHash.HashToPid(hash).Some?
      modifies this`open, this`tags, cleanup
      ensures cleanup.Valid()
      ensures if ConnHash.HashToPid(hash) == Some(pid) && old(open)
              then calls == Calls(old(cleanup.Entries())) && !open && cleanup.Entries() == []
              else calls == [] && open == old(open) && cleanup.Entries() == old(cleanup.Entries())
    {
      hide ConnHash.HashToPid;
      calls := [];
      if ConnHash.HashToPid(hash).value == pid && open {
        open, tags := false, [];
        var ptr := cleanup.head;
        ghost var i, es := 0, cleanup.Entries();
        while ptr != null
          invariant 0 <= i <= |cleanup.nodes| && ptr == if i < |cleanup.nodes| then cleanup.nodes[i] else null
          invariant cleanup.Valid() && cleanup.Entries() == es && !open
          invariant calls + Calls(es[i..]) == Calls(es)
          decreases |cleanup.nodes| - i
        {
          assert es[i..][1..] == es[i + 1..] && es[i] == Entry(ptr.key, ptr.data);
          if ptr.key.Some? {
            calls := calls + [Call(ptr.key.value, ptr.data)];
          }
          ptr := ptr.next;
          i := i + 1;
        }
        assert Calls(es[i..]) == [];
        cleanup.head, cleanup.nodes := null, [];
      }
    }
  }

  datatype CallbackOp = Add(data: Token, callback: int) | Deregister(cursor: Token)

  /** The cleanup list after a sequence of additions and deregistrations. */
  function Registered(ops: seq<CallbackOp>): seq<Entry<Token, int>> {
    if ops == [] then []
    else
      var before := Registered(ops[..|ops| - 1]);
      match ops[|ops| - 1]
      case Add(data, callback) => before + [Entry(data, callback)]
      case Deregister(cursor) => RemoveFirst(before, cursor)
  }

  /** The callbacks of a list under one data. */
  function Under(es: seq<Entry<Token, int>>, data: Token): seq<int> {
    if es == [] then [] else (if es[0].key == data then [es[0].data] else []) + Under(es[1..], data)
  }

  /** What was added for one data and not taken off yet: deregistering takes the oldest. */
  function Pending(ops: seq<CallbackOp>, data: Token): seq<int> {
    if ops == [] then []
    else
      var before, op := Pending(ops[..|ops| - 1], data), ops[|ops| - 1];
      if op.Add? && op.data == data then before + [op.callback]
      else if op == Deregister(data) && before != [] then before[1..]
      else before
  }

  lemma UnderCons(e: Entry<Token, int>, es: seq<Entry<Token, int>>, data: Token)
    ensures Under([e] + es, data) == (if e.key == data then [e.data] else []) + Under(es, data)
  {
    assert ([e] + es)[1..] == es;
  }

  lemma {:induction false} UnderConcat(a: seq<Entry<Token, int>>, b: seq<Entry<Token, int>>, data: Token)
    ensures Under(a + b, data) == Under(a, data) + Under(b, data)
  {
    if a == [] {
      assert a + b == b;
    } else {
      hide Under;
      UnderConcat(a[1..], b, data);
      assert a + b == [a[0]] + (a[1..] + b) && a == [a[0]] + a[1..];
      UnderCons(a[0], a[1..], data);
      UnderCons(a[0], a[1..] + b, data);
      ConcatAssociates(if a[0].key == data then [a[0].data] else [], Under(a[1..], data), Under(b, data));
    }
  }

  lemma UnderAppend(es: seq<Entry<Token, int>>, e: Entry<Token, int>, data: Token)
    ensures Under(es + [e], data) == Under(es, data) + if e.key == data then [e.data] else []
  {
    UnderConcat(es, [e], data);
    assert [e][1..] == [];
  }

  lemma {:induction false} UnderRemove(es: seq<Entry<Token, int>>, gone: Token, data: Token)
    ensures var was := Under(es, data);
            Under(RemoveFirst(es, gone), data) == if gone == data && was != [] then was[1..] else was
  {
    if es != [] {
      var rest := es[1..];
      UnderRemove(rest, gone, data);
      if es[0].key != gone {
        UnderCons(es[0], RemoveFirst(rest, gone), data);
        UnderCons(es[0], rest, data);
        assert es == [es[0]] + rest;
      }
    }
  }

  /** Over any additions and deregistrations, the list keeps for each data a queue of its own. */
  lemma {:induction false} RegisteredIsPending(ops: seq<CallbackOp>, data: Token)
    ensures Under(Registered(ops), data) == Pending(ops, data)
  {
    if ops != [] {
      var before, op := ops[..|ops| - 1], ops[|ops| - 1];
      RegisteredIsPending(before, data);
      match op {
        case Add(d, f) => UnderAppend(Registered(before), Entry(d, f), data);
        case Deregister(c) => UnderRemove(Registered(before), c, data);
      }
    }
  }

  /** This data is added at most once. */
  ghost predicate AddedOnce(ops: seq<CallbackOp>, data: Token) {
    forall i, j | 0 <= i < j < |ops| :: !(ops[i].Add? && ops[i].data == data && ops[j].Add? && ops[j].data == data)
  }

  /** `data` was added, and not deregistered afterwards. */
  ghost predicate StillRegistered(ops: seq<CallbackOp>, data: Token) {
    exists i :: 0 <= i < |ops| && ops[i].Add? && ops[i].data == data && NotDeregistered(ops[i + 1..], data)
  }

  ghost predicate NotDeregistered(ops: seq<CallbackOp>, data: Token) {
    forall j | 0 <= j < |ops| :: ops[j] != Deregister(data)
  }

  lemma NotDeregisteredSnoc(ops: seq<CallbackOp>, op: CallbackOp, data: Token)
    ensures NotDeregistered(ops + [op], data) <==> NotDeregistered(ops, data) && op != Deregister(data)
  {
    var all := ops + [op];
    assert all[|ops|] == op && forall j | 0 <= j < |ops| :: all[j] == ops[j];
  }

  lemma StillRegisteredSnoc(ops: seq<CallbackOp>, op: CallbackOp, data: Token)
    ensures StillRegistered(ops + [op], data) <==>
            (op.Add? && op.data == data) || (StillRegistered(ops, data) && op != Deregister(data))
  {
    hide NotDeregistered;
    var all := ops + [op];
    forall i | 0 <= i < |ops|
      ensures all[i] == ops[i]
      ensures NotDeregistered(all[i + 1..], data) <==> NotDeregistered(ops[i + 1..], data) && op != Deregister(data)
    {
      NotDeregisteredSnoc(ops[i + 1..], op, data);
      assert all[i + 1..] == ops[i + 1..] + [op];
    }
    assert all[|ops| + 1..] == [];
    NothingDeregistered(data);
    if op.Add? && op.data == data {
      assert all[|ops|] == op && NotDeregistered(all[|ops| + 1..], data);
    }
  }

  lemma NothingDeregistered(data: Token)
    ensures NotDeregistered([], data)
  {
  }

  /** Data that is added at most once is on the list if and only if it was not deregistered since, and
      then once, whatever else is added and how often. */
  lemma {:induction false} RegisteredIsStillRegistered(ops: seq<CallbackOp>, data: Token)
    requires AddedOnce(ops, data)
    ensures |Under(Registered(ops), data)| == if StillRegistered(ops, data) then 1 else 0
  {
    RegisteredIsPending(ops, data);
    if ops != [] {
      var before, op := ops[..|ops| - 1], ops[|ops| - 1];
      assert ops == before + [op];
      RegisteredIsStillRegistered(before, data);
      RegisteredIsPending(before, data);
      StillRegisteredSnoc(before, op, data);
    }
  }

  function Deregs(ops: seq<CallbackOp>, data: Token): nat {
    if ops == [] then 0 else Deregs(ops[..|ops| - 1], data) + if ops[|ops| - 1] == Deregister(data) then 1 else 0
  }

  /** How many older callbacks for the same data would have to be taken off before this addition is, or
      -1 less if it was. */
  function Place(ops: seq<CallbackOp>, i: nat): int
    requires i < |ops| && ops[i].Add?
  {
    |Pending(ops[..i], ops[i].data)| - Deregs(ops[i + 1..], ops[i].data)
  }

  /** An addition is still there if its data was deregistered behind it at most as often as it was pending
      before. */
  predicate Survives(ops: seq<CallbackOp>, i: nat)
    requires i < |ops|
  {
    ops[i].Add? && 0 <= Place(ops, i)
  }

  lemma PlaceSnoc(ops: seq<CallbackOp>, op: CallbackOp, i: nat)
    requires i < |ops| && ops[i].Add?
    ensures var all := ops + [op];
            all[i] == ops[i] && Place(all, i) == Place(ops, i) - if op == Deregister(ops[i].data) then 1 else 0
  {
    var all := ops + [op];
    assert all[..i] == ops[..i] && all[i + 1..] == ops[i + 1..] + [op];
    assert (ops[i + 1..] + [op])[..|ops[i + 1..]|] == ops[i + 1..];
  }

  lemma LastPlace(ops: seq<CallbackOp>, data: Token, f: int)
    ensures var all := ops + [Add(data, f)];
            Place(all, |ops|) == |Pending(ops, data)|
  {
    var all := ops + [Add(data, f)];
    assert all[..|ops|] == ops && all[|ops| + 1..] == [];
  }

  /** The list `es` is what the additions at `at` put there, in their order, and these are the surviving
      ones; each has as many older ones of its data before it on the list as its place says. */
  ghost predicate Left(ops: seq<CallbackOp>, es: seq<Entry<Token, int>>, at: seq<nat>) {
    && |at| == |es| && Increasing(at)
    && (forall k | 0 <= k < |at| :: at[k] < |ops| && ops[at[k]].Add? && es[k] == Entry(ops[at[k]].data, ops[at[k]].callback)
          && Place(ops, at[k]) == |Under(es[..k], es[k].key)|)
    && (forall i | 0 <= i < |ops| :: Survives(ops, i) ==> i in at)
  }

  ghost predicate Increasing(at: seq<nat>) {
    forall j, k | 0 <= j < k < |at| :: at[j] < at[k]
  }

  /** What is on the list are the surviving additions, in their order. */
  lemma {:induction false} RegisteredAreSurvivors(ops: seq<CallbackOp>) returns (at: seq<nat>)
    ensures Left(ops, Registered(ops), at)
  {
    at := [];
    if ops != [] {
      var before, op := ops[..|ops| - 1], ops[|ops| - 1];
      assert ops == before + [op];
      at := RegisteredAreSurvivors(before);
      if op.Add? {
        at := LeftAdd(before, at, op.data, op.callback);
      } else {
        at := LeftDeregister(before, at, op.cursor);
      }
    }
  }

  lemma LeftAdd(ops: seq<CallbackOp>, at: seq<nat>, data: Token, f: int) returns (longer: seq<nat>)
    requires Left(ops, Registered(ops), at)
    ensures Left(ops + [Add(data, f)], Registered(ops) + [Entry(data, f)], longer)
  {
    hide Place, Registered, Pending;
    var es, all := Registered(ops), ops + [Add(data, f)];
    longer := at + [|ops|];
    LastPlace(ops, data, f);
    RegisteredIsPending(ops, data);
    assert (es + [Entry(data, f)])[..|es|] == es;
    forall k | 0 <= k < |at|
      ensures Place(all, at[k]) == Place(ops, at[k]) && (es + [Entry(data, f)])[..k] == es[..k]
    {
      PlaceSnoc(ops, Add(data, f), at[k]);
    }
    forall i | 0 <= i < |ops| && Survives(all, i)
      ensures i in longer
    {
      PlaceSnoc(ops, Add(data, f), i);
    }
    assert longer[|at|] == |ops|;
  }

  /** The first of a data goes, and everything behind it moves up. */
  lemma {:induction false} RemoveAt(es: seq<Entry<Token, int>>, gone: Token) returns (j: nat)
    ensures j <= |es| && Under(es[..j], gone) == []
    ensures RemoveFirst(es, gone) == es[..j] + (if j < |es| then es[j + 1..] else [])
    ensures j < |es| ==> es[j].key == gone
  {
    j := 0;
    if es != [] && es[0].key != gone {
      var i := RemoveAt(es[1..], gone);
      j := i + 1;
      assert es[..j] == [es[0]] + es[1..][..i];
      assert j < |es| ==> es[j + 1..] == es[1..][i + 1..];
    }
  }

  lemma LeftDeregister(ops: seq<CallbackOp>, at: seq<nat>, c: Token) returns (fewer: seq<nat>)
    requires Left(ops, Registered(ops), at)
    ensures Left(ops + [Deregister(c)], RemoveFirst(Registered(ops), c), fewer)
  {
    hide Place, Registered, Pending;
    var es := Registered(ops);
    var j := RemoveAt(es, c);
    fewer := at[..j] + if j < |at| then at[j + 1..] else [];
    LeftWithout(ops, es, at, c, j, fewer);
  }

  lemma LeftWithout(ops: seq<CallbackOp>, es: seq<Entry<Token, int>>, at: seq<nat>, c: Token, j: nat, fewer: seq<nat>)
    requires Left(ops, es, at) && j <= |es| && Under(es[..j], c) == [] && (j < |es| ==> es[j].key == c)
    requires fewer == at[..j] + if j < |at| then at[j + 1..] else []
    ensures Left(ops + [Deregister(c)], es[..j] + (if j < |es| then es[j + 1..] else []), fewer)
  {
    hide Place, Pending, Increasing, Under;
    UnderNothing(c);
    IncreasingWithout(at, j);
    var all, rest := ops + [Deregister(c)], es[..j] + if j < |es| then es[j + 1..] else [];
    forall i | 0 <= i < |ops| && ops[i].Add?
      ensures all[i] == ops[i] && Place(all, i) == Place(ops, i) - if ops[i].data == c then 1 else 0
    {
      PlaceSnoc(ops, Deregister(c), i);
    }
    forall k | 0 <= k < |fewer|
      ensures var i := if k < j then k else k + 1;
              i < |at| && fewer[k] == at[i] && rest[k] == es[i] && |Under(rest[..k], es[i].key)| == Place(all, at[i])
    {
      var i := if k < j then k else k + 1;
      assert fewer[k] == at[i] && rest[k] == es[i];
      UnderWithout(es, j, k, c, es[i].key);
    }
    forall i | 0 <= i < |all| && Survives(all, i)
      ensures i in fewer
    {
      assert Survives(ops, i) && i in at;
      var k :| 0 <= k < |at| && at[k] == i;
      assert k != j;
      assert fewer[if k < j then k else k - 1] == i;
    }
  }

  lemma UnderNothing(c: Token)
    ensures |Under([], c)| == 0
  {
  }

  lemma IncreasingWithout(at: seq<nat>, j: nat)
    requires Increasing(at) && j <= |at|
    ensures Increasing(at[..j] + if j < |at| then at[j + 1..] else [])
  {
  }

  /** What is under a data in front of a place, once the first under `c` is gone. */
  lemma UnderWithout(es: seq<Entry<Token, int>>, j: nat, k: nat, c: Token, data: Token)
    requires j <= |es| && Under(es[..j], c) == [] && (j < |es| ==> es[j].key == c)
    requires var i := if k < j then k else k + 1; i < |es| && es[i].key == data
    ensures var i := if k < j then k else k + 1;
            var rest := es[..j] + if j < |es| then es[j + 1..] else [];
            && |rest| > k && |Under(rest[..k], data)| == |Under(es[..i], data)| - if data == c then 1 else 0
  {
    var rest := es[..j] + if j < |es| then es[j + 1..] else [];
    if k < j {
      assert rest[..k] == es[..k] && es[..j] == es[..k] + [es[k]] + es[k + 1..j];
      UnderConcat(es[..k] + [es[k]], es[k + 1..j], c);
      UnderAppend(es[..k], es[k], c);
    } else {
      assert rest[..k] == es[..j] + es[j + 1..k + 1];
      assert es[..k + 1] == es[..j] + [es[j]] + es[j + 1..k + 1];
      UnderConcat(es[..j], es[j + 1..k + 1], data);
      UnderConcat(es[..j] + [es[j]], es[j + 1..k + 1], data);
      UnderAppend(es[..j], es[j], data);
    }
  }

  /** The callbacks of the calls with one data. */
  function CallbacksFor(calls: seq<Call>, x: int): seq<int> {
    if calls == [] then [] else (if calls[0].data == x then [calls[0].callback] else []) + CallbacksFor(calls[1..], x)
  }

  lemma {:induction false} CallsUnder(es: seq<Entry<Token, int>>, x: int)
    ensures CallbacksFor(Calls(es), x) == Under(es, Some(x))
  {
    if es != [] {
      CallsUnder(es[1..], x);
      if es[0].key.Some? {
        assert ([Call(es[0].key.value, es[0].data)] + Calls(es[1..]))[1..] == Calls(es[1..]);
      } else {
        assert [] + Calls(es[1..]) == Calls(es[1..]);
      }
    }
  }

  /** The calls are made for the additions at `called`, in their order. */
  ghost predicate CalledFor(ops: seq<CallbackOp>, calls: seq<Call>, called: seq<nat>) {
    && |called| == |calls| && Increasing(called)
    && forall k | 0 <= k < |called| ::
         called[k] < |ops| && ops[called[k]] == Add(Some(calls[k].data), calls[k].callback)
  }

  /** The calls for a list that the additions at `at` have left. */
  lemma {:induction false} CallsOfLeft(ops: seq<CallbackOp>, es: seq<Entry<Token, int>>, at: seq<nat>) returns (called: seq<nat>)
    requires |at| == |es| && Increasing(at)
    requires forall k | 0 <= k < |at| :: at[k] < |ops| && ops[at[k]].Add? && es[k] == Entry(ops[at[k]].data, ops[at[k]].callback)
    ensures CalledFor(ops, Calls(es), called)
    ensures forall i :: i in called <==> i in at && i < |ops| && ops[i].Add? && ops[i].data.Some?
    decreases |es|
  {
    called := [];
    if es != [] {
      var n := |es| - 1;
      var last := ops[at[n]];
      called := CallsOfLeft(ops, es[..n], at[..n]);
      assert es == es[..n] + [es[n]] && at == at[..n] + [at[n]];
      CallsConcat(es[..n], [es[n]]);
      if last.data.Some? {
        CallsOfOne(last.data.value, last.callback);
        assert forall k | 0 <= k < |called| :: called[k] in called;
        called := called + [at[n]];
      } else {
        CallsOfOne(0, last.callback);
      }
    }
  }

  method UseAndDestroy(con: Connection, ops: seq<CallbackOp>, pid: int) returns (calls: seq<Call>)
    requires con.cleanup.Valid() && con.cleanup.Entries() == [] && con.open
    requires ConnHash.HashToPid(con.hash) == Some(pid)
    modifies con, con.cleanup, con.cleanup.nodes
    ensures calls == Calls(Registered(ops)) && !con.open
  {
    for i := 0 to |ops|
      invariant con.cleanup.Valid() && con.open && con.cleanup.Entries() == Registered(ops[..i])
      invariant forall j | 0 <= j < |con.cleanup.nodes| :: con.cleanup.nodes[j] in old(con.cleanup.nodes) || fresh(con.cleanup.nodes[j])
    {
      assert ops[..i + 1][..i] == ops[..i];
      match ops[i]
      case Add(data, callback) =>
        con.AddCallback(data, callback);
      case Deregister(cursor) =>
        con.DeregisterCallback(cursor);
    }
    assert ops[..|ops|] == ops;
    calls := con.Destroy(pid);
  }

  /** After any additions and deregistrations, destroying a live connection of this process makes one call
      for each surviving addition with data, in the order of the additions: for each data that is what is
      pending. */
  method UseThenDestroy(con: Connection, ops: seq<CallbackOp>, pid: int) returns (calls: seq<Call>, ghost called: seq<nat>)
    requires con.cleanup.Valid() && con.cleanup.Entries() == [] && con.open
    requires ConnHash.HashToPid(con.hash) == Some(pid)
    modifies con, con.cleanup, con.cleanup.nodes
    ensures !con.open && CalledFor(ops, calls, called)
    ensures forall i: nat :: i in called <==> i < |ops| && Survives(ops, i) && ops[i].data.Some?
    ensures forall x :: CallbacksFor(calls, x) == Pending(ops, Some(x))
  {
    calls := UseAndDestroy(con, ops, pid);
    ghost var es := Registered(ops);
    ghost var at := RegisteredAreSurvivors(ops);
    called := CallsOfLeft(ops, es, at);
    assert forall i | i in at :: Survives(ops, i);
    forall x
      ensures CallbacksFor(calls, x) == Pending(ops, Some(x))
    {
      CallsUnder(es, x);
      RegisteredIsPending(ops, Some(x));
    }
  }
}
