/** From candidates to a connection: sort by preference, cut by latency, pick at random. */
module Picking {
  import opened Files
  import opened Collections
  import opened Connections
  import opened ConnHash
  import opened Selection

  // ---------- the comparators ----------

  function Sign(a: int, b: int): int {
    if a > b then 1 else if a < b then -1 else 0
  }

  /** What the comparator of a read preference answers for two connections. */
  function Compare(pref: ReadPref, a: Server, b: Server): int {
    var byType := Sign(a.nodeType.Bit(), b.nodeType.Bit());
    if pref == PrimaryPreferred && byType != 0 then byType
    else if pref == SecondaryPreferred && byType != 0 then -byType
    else Sign(a.pingMs, b.pingMs)
  }

  /** What a sort needs: a total order up to ties. */
  lemma CompareIsAnOrder(pref: ReadPref, a: Server, b: Server, c: Server)
    ensures Compare(pref, a, b) == -Compare(pref, b, a)
    ensures Compare(pref, a, b) <= 0 && Compare(pref, b, c) <= 0 ==> Compare(pref, a, c) <= 0
  {
  }

  predicate Sorted(s: seq<Server>, pref: ReadPref) {
    forall i, j | 0 <= i < j < |s| :: Compare(pref, s[i], s[j]) <= 0
  }

  /** What qsort may make of `s`: it is free to order ties as it likes. */
  predicate SortOf(r: seq<Server>, s: seq<Server>, pref: ReadPref) {
    Sorted(r, pref) && multiset(r) == multiset(s)
  }

  function Insert(s: seq<Server>, x: Server, pref: ReadPref): seq<Server> {
    if s == [] || Compare(pref, x, s[0]) <= 0 then [x] + s else [s[0]] + Insert(s[1..], x, pref)
  }

  function SortedForm(s: seq<Server>, pref: ReadPref): seq<Server> {
    if s == [] then [] else Insert(SortedForm(s[1..], pref), s[0], pref)
  }

  lemma {:induction false} InsertKeeps(s: seq<Server>, x: Server, pref: ReadPref)
    ensures multiset(Insert(s, x, pref)) == multiset(s) + multiset{x}
  {
    hide Compare;
    if s != [] && Compare(pref, x, s[0]) > 0 {
      InsertKeeps(s[1..], x, pref);
      assert s == [s[0]] + s[1..];
    }
  }

  /** Something in front of a sorted list that it does not belong behind. */
  lemma SortedCons(s: seq<Server>, x: Server, pref: ReadPref)
    requires Sorted(s, pref) && forall k | 0 <= k < |s| :: Compare(pref, x, s[k]) <= 0
    ensures Sorted([x] + s, pref)
  {
  }

  lemma {:induction false} InsertSorts(s: seq<Server>, x: Server, pref: ReadPref)
    requires Sorted(s, pref)
    ensures Sorted(Insert(s, x, pref), pref)
  {
    hide Compare;
    if s == [] || Compare(pref, x, s[0]) <= 0 {
      forall k | 0 <= k < |s|
        ensures Compare(pref, x, s[k]) <= 0
      {
        if 0 < k { CompareIsAnOrder(pref, x, s[0], s[k]); }
      }
      SortedCons(s, x, pref);
    } else {
      var rest := Insert(s[1..], x, pref);
      InsertSorts(s[1..], x, pref);
      InsertKeeps(s[1..], x, pref);
      CompareIsAnOrder(pref, s[0], x, x);
      forall k | 0 <= k < |rest|
        ensures Compare(pref, s[0], rest[k]) <= 0
      {
        assert rest[k] in multiset(rest);
      }
      SortedCons(rest, s[0], pref);
    }
  }

  /** There is a way to sort. */
  lemma {:induction false} SortedFormSorts(s: seq<Server>, pref: ReadPref)
    ensures SortOf(SortedForm(s, pref), s, pref)
  {
    if s != [] {
      SortedFormSorts(s[1..], pref);
      InsertSorts(SortedForm(s[1..], pref), s[0], pref);
      InsertKeeps(SortedForm(s[1..], pref), s[0], pref);
      assert s == [s[0]] + s[1..];
    }
  }

  // ---------- the stages ----------

  /** Not slower than the first by more than the acceptable latency. */
  function IsNear(first: Server, latency: int): Server -> bool {
    (s: Server) => s.pingMs <= first.pingMs + latency
  }

  function Window(s: seq<Server>, latency: int): seq<Server>
    requires s != []
  {
    Keep(s, IsNear(s[0], latency))
  }

  /** The element that is picked for a random number. */
  function PickFrom(s: seq<Server>, pref: ReadPref, rand: nat): Server
    requires s != []
  {
    if pref == PrimaryPreferred && s[0].nodeType == Primary then s[0]
    else if pref == SecondaryPreferred && 1 < |s| && s[|s| - 1].nodeType == Primary then s[rand % (|s| - 1)]
    else s[rand % |s|]
  }

  /** mongo_sort_servers, in place. */
  method SortServers(c: Collection<Server>, pref: ReadPref)
    requires c.Valid() && pref != Any
    modifies c.data
    ensures c.Valid() && SortOf(c.View(), old(c.View()), pref)
  {
    ghost var before := c.View();
    SortedFormSorts(before, pref);
    var sorted :| SortOf(sorted, c.View(), pref);
    SortKeeps(sorted, before, pref);
    forall i | 0 <= i < c.count {
      c.data[i] := sorted[i];
    }
    assert c.View() == sorted;
  }

  method SelectNearest(c: Collection<Server>, latency: int) returns (near: Collection<Server>)
    requires c.Valid() && 0 < c.count
    ensures near.Valid() && near.View() == Window(c.View(), latency) && fresh(near) && fresh(near.data)
  {
    var first := c.data[0];
    near := new Collection();
    ghost var s, p := c.View(), IsNear(first, latency);
    KeepNothing(p);
    for i := 0 to c.count
      invariant near.Valid() && near.View() == Keep(s[..i], p) && fresh(near) && fresh(near.data)
    {
      KeepNext(s, i, p);
      if c.data[i].pingMs <= first.pingMs + latency {
        near.Add(c.data[i]);
      }
    }
    assert s[..c.count] == s;
  }

  method PickServer(c: Collection<Server>, pref: ReadPref, rand: nat) returns (s: Server)
    requires c.Valid() && 0 < c.count
    ensures s == PickFrom(c.View(), pref, rand)
  {
    if pref == PrimaryPreferred {
      if c.data[0].nodeType == Primary {
        return c.data[0];
      }
    }
    if pref == SecondaryPreferred {
      if 1 < c.count && c.data[c.count - 1].nodeType == Primary {
        var entry := rand % (c.count - 1);
        return c.data[entry];
      }
    }
    var entry := rand % c.count;
    s := c.data[entry];
  }

  /** What a request may get out of the candidates: the last three stages, for some order of ties. */
  ghost predicate MayGet(s: Server, candidates: seq<Server>, pref: ReadPref, latency: nat, rand: nat) {
    exists sorted ::
      && SortOf(sorted, candidates, pref) && sorted != []
      && Window(sorted, latency) != [] && s == PickFrom(Window(sorted, latency), pref, rand)
  }

  datatype Purpose = Write | DontFilter | Read

  /** The read preference and the tagsets that candidates are collected by. */
  function CollectBy(purpose: Purpose, pref: ReadPref, tagsets: seq<seq<string>>): (ReadPref, seq<seq<string>>) {
    match purpose
    case Write => (PrimaryOnly, [])
    case DontFilter => (ReadPref.Any, [])
    case Read => (pref, tagsets)
  }

  /** The second half of a replica set request: candidates by purpose, but everything after that by the
      read preference of the server list. */
  method Choose(registry: seq<Server>, purpose: Purpose, pref: ReadPref, tagsets: seq<seq<string>>, latency: nat,
      target: Target, pid: int, rand: nat)
    returns (r: Option<Server>)
    requires target.seeds != [] && pref != ReadPref.Any
    requires Readable(registry, CollectBy(purpose, pref, tagsets).0, target, pid)
    ensures var (collectPref, collectTags) := CollectBy(purpose, pref, tagsets);
            var candidates := CandidatesOf(registry, collectPref, collectTags, target, pid);
            if candidates.None? || candidates.value == [] then r.None?
            else r.Some? && MayGet(r.value, candidates.value, pref, latency, rand)
  {
    hide CandidatesOf, SortOf, Readable;
    var (collectPref, collectTags) := CollectBy(purpose, pref, tagsets);
    var found := FindCandidates(registry, collectPref, collectTags, target, pid);
    if found.None? || found.value.count == 0 {
      return None;
    }
    var c := found.value;
    ghost var candidates := c.View();
    SortServers(c, pref);
    ghost var sorted := c.View();
    SortKeeps(sorted, candidates, pref);
    FirstIsNear(sorted, latency);
    var near := SelectNearest(c, latency);
    var s := PickServer(near, pref, rand);
    r := Some(s);
  }

  // ---------- what the stages come to ----------

  lemma SortKeeps(sorted: seq<Server>, s: seq<Server>, pref: ReadPref)
    requires SortOf(sorted, s, pref)
    ensures |sorted| == |s| && forall x :: x in sorted <==> x in s
  {
    assert |multiset(sorted)| == |sorted| && |multiset(s)| == |s|;
    forall x
      ensures x in sorted <==> x in s
    {
      assert x in sorted <==> x in multiset(sorted);
      assert x in s <==> x in multiset(s);
    }
  }

  /** The window is never empty when the latency is not negative; it holds the first server if and only
      if that is so. */
  lemma FirstIsNear(s: seq<Server>, latency: int)
    requires s != []
    ensures s[0] in Window(s, latency) <==> 0 <= latency
  {
    KeepHas(s, IsNear(s[0], latency), s[0]);
  }

  lemma {:induction false} KeepFirst<T>(s: seq<T>, p: T -> bool)
    requires s != [] && p(s[0])
    ensures Keep(s, p) != [] && Keep(s, p)[0] == s[0]
  {
    if 1 < |s| {
      KeepFirst(s[..|s| - 1], p);
    }
  }

  lemma SortedSnoc(s: seq<Server>, x: Server, pref: ReadPref)
    requires Sorted(s, pref) && forall y | y in s :: Compare(pref, y, x) <= 0
    ensures Sorted(s + [x], pref)
  {
  }

  /** A filter keeps a list sorted. */
  lemma {:induction false} KeepSorted(s: seq<Server>, p: Server -> bool, pref: ReadPref)
    requires Sorted(s, pref)
    ensures Sorted(Keep(s, p), pref)
  {
    hide Compare;
    if s != [] {
      var front, last := s[..|s| - 1], s[|s| - 1];
      KeepSorted(front, p, pref);
      forall y | y in front
        ensures Compare(pref, y, last) <= 0
      {
        var i :| 0 <= i < |front| && front[i] == y;
        assert s[i] == y;
      }
      SortedSnoc(Keep(front, p), last, pref);
    }
  }

  function IsPrimary(): Server -> bool {
    (s: Server) => s.nodeType == Primary
  }

  function Primaries(s: seq<Server>): nat {
    |Keep(s, IsPrimary())|
  }

  lemma {:induction false} PairOfPrimaries(s: seq<Server>, i: nat, j: nat)
    requires i < j < |s| && s[i].nodeType == s[j].nodeType == Primary
    ensures 2 <= Primaries(s)
  {
    var front, last := s[..|s| - 1], s[|s| - 1];
    if j < |s| - 1 {
      PairOfPrimaries(front, i, j);
    } else {
      KeepHas(front, IsPrimary(), front[i]);
      assert Keep(front, IsPrimary()) != [];
    }
  }

  lemma {:induction false} PairExists(s: seq<Server>)
    requires 2 <= Primaries(s)
    ensures exists i, j :: 0 <= i < j < |s| && s[i].nodeType == s[j].nodeType == Primary
  {
    var front, last := s[..|s| - 1], s[|s| - 1];
    if 2 <= Primaries(front) {
      PairExists(front);
      var i, j :| 0 <= i < j < |front| && front[i].nodeType == front[j].nodeType == Primary;
      assert s[i].nodeType == s[j].nodeType == Primary;
    } else {
      var x := Keep(front, IsPrimary())[0];
      KeepHas(front, IsPrimary(), x);
      var i :| 0 <= i < |front| && front[i] == x;
      assert s[i].nodeType == s[|s| - 1].nodeType == Primary;
    }
  }

  lemma {:induction false} FewerPrimaries(s: seq<Server>, p: Server -> bool)
    ensures Primaries(Keep(s, p)) <= Primaries(s)
  {
    if s != [] {
      var front, last := s[..|s| - 1], s[|s| - 1];
      FewerPrimaries(front, p);
      var kept := Keep(front, p);
      if p(last) {
        assert (kept + [last])[..|kept|] == kept;
      } else {
        assert kept + [] == kept;
      }
    }
  }

  lemma SortKeepsPrimaries(sorted: seq<Server>, s: seq<Server>, pref: ReadPref)
    requires SortOf(sorted, s, pref)
    ensures Primaries(sorted) == Primaries(s)
  {
    hide Sorted;
    var a, b := Keep(sorted, IsPrimary()), Keep(s, IsPrimary());
    forall x
      ensures multiset(a)[x] == multiset(b)[x]
    {
      KeepCounts(sorted, IsPrimary(), x);
      KeepCounts(s, IsPrimary(), x);
    }
    assert multiset(a) == multiset(b);
    assert |multiset(a)| == |a| && |multiset(b)| == |b|;
  }

  ghost predicate Members(s: seq<Server>) {
    forall x | x in s :: x.nodeType in {Primary, Secondary}
  }

  ghost predicate Has(s: seq<Server>, nodeType: NodeType) {
    exists x | x in s :: x.nodeType == nodeType
  }

  /** No slower than any candidate of the type, or of any type, by more than the latency. */
  ghost predicate FastEnough(s: Server, candidates: seq<Server>, types: set<NodeType>, latency: int) {
    forall t | t in candidates && t.nodeType in types :: s.pingMs <= t.pingMs + latency
  }

  /** What a read preference promises of the server that a request gets, without sorting or windows. */
  ghost predicate Acceptable(s: Server, candidates: seq<Server>, pref: ReadPref, latency: nat) {
    s in candidates &&
    if pref == PrimaryPreferred && Has(candidates, Primary) then
      s.nodeType == Primary && FastEnough(s, candidates, {Primary}, 0)
    else if pref == SecondaryPreferred && Has(candidates, Secondary) then
      s.nodeType == Secondary && FastEnough(s, candidates, {Secondary}, latency)
    else
      FastEnough(s, candidates, {Primary, Secondary}, latency)
  }

  /** The first of a sorted list is the fastest of the preferred type, or the fastest of all. */
  lemma FirstIsBest(sorted: seq<Server>, pref: ReadPref)
    requires Sorted(sorted, pref) && sorted != [] && Members(sorted)
    ensures pref == PrimaryPreferred && Has(sorted, Primary) ==>
              sorted[0].nodeType == Primary && FastEnough(sorted[0], sorted, {Primary}, 0)
    ensures pref == SecondaryPreferred && Has(sorted, Secondary) ==>
              sorted[0].nodeType == Secondary && FastEnough(sorted[0], sorted, {Secondary}, 0)
    ensures !(pref == PrimaryPreferred && Has(sorted, Primary)) && !(pref == SecondaryPreferred && Has(sorted, Secondary)) ==>
              FastEnough(sorted[0], sorted, {Primary, Secondary}, 0)
  {
    forall t | t in sorted
      ensures Compare(pref, sorted[0], t) <= 0
    {
      var i :| 0 <= i < |sorted| && sorted[i] == t;
    }
    assert sorted[0] in sorted;
  }

  /** Behind a secondary in front, a window that ends in a primary has only secondaries before it,
      unless it holds a second primary. */
  lemma SecondariesFirst(w: seq<Server>, k: nat)
    requires Sorted(w, SecondaryPreferred) && Members(w) && k < |w|
    requires w[0].nodeType == Secondary && Primaries(w) <= 1
    requires k == |w| - 1 ==> |w| == 1 || w[|w| - 1].nodeType != Primary
    ensures w[k].nodeType == Secondary
  {
    assert w[k] in w && w[|w| - 1] in w;
    if w[k].nodeType == Primary {
      assert k < |w| - 1;
      assert Compare(SecondaryPreferred, w[k], w[|w| - 1]) <= 0;
      PairOfPrimaries(w, k, |w| - 1);
    }
  }

  lemma PickIsInside(w: seq<Server>, pref: ReadPref, rand: nat) returns (k: nat)
    requires w != []
    ensures k < |w| && PickFrom(w, pref, rand) == w[k]
    ensures pref == PrimaryPreferred && w[0].nodeType == Primary ==> k == 0
    ensures pref == SecondaryPreferred && k == |w| - 1 ==> |w| == 1 || w[|w| - 1].nodeType != Primary
  {
    k := if pref == PrimaryPreferred && w[0].nodeType == Primary then 0
         else if pref == SecondaryPreferred && 1 < |w| && w[|w| - 1].nodeType == Primary then rand % (|w| - 1)
         else rand % |w|;
  }

  /** Whatever the order of ties and whatever the random number: what a request gets is what its read
      preference promises, given that secondaryPreferred sees one primary at most. */
  lemma GetIsAcceptable(s: Server, candidates: seq<Server>, pref: ReadPref, latency: nat, rand: nat)
    requires Members(candidates) && (pref == SecondaryPreferred ==> Primaries(candidates) <= 1)
    requires MayGet(s, candidates, pref, latency, rand)
    ensures Acceptable(s, candidates, pref, latency)
  {
    hide Compare, Keep, PickFrom, Primaries;
    var sorted :| SortOf(sorted, candidates, pref) && sorted != []
                  && Window(sorted, latency) != [] && s == PickFrom(Window(sorted, latency), pref, rand);
    SortKeeps(sorted, candidates, pref);
    var near := IsNear(sorted[0], latency);
    var w := Window(sorted, latency);
    KeepSorted(sorted, near, pref);
    KeepFirst(sorted, near);
    FirstIsBest(sorted, pref);
    var k := PickIsInside(w, pref, rand);
    assert w[k] in w;
    KeepHas(sorted, near, s);
    if pref == SecondaryPreferred && Has(candidates, Secondary) {
      SortKeepsPrimaries(sorted, candidates, pref);
      FewerPrimaries(sorted, near);
      SecondariesFirst(w, k);
    }
  }

  /** A sorted list may start with any server that nothing belongs before. */
  lemma SortedFrom(s: Server, candidates: seq<Server>, pref: ReadPref) returns (sorted: seq<Server>)
    requires s in candidates && forall t | t in candidates :: Compare(pref, s, t) <= 0
    ensures SortOf(sorted, candidates, pref) && sorted != [] && sorted[0] == s
  {
    hide Compare;
    var i :| 0 <= i < |candidates| && candidates[i] == s;
    var rest := candidates[..i] + candidates[i + 1..];
    assert candidates == candidates[..i] + [s] + candidates[i + 1..];
    var tail := SortedForm(rest, pref);
    SortedFormSorts(rest, pref);
    SortKeeps(tail, rest, pref);
    forall k | 0 <= k < |tail|
      ensures Compare(pref, s, tail[k]) <= 0
    {
      assert tail[k] in rest;
    }
    SortedCons(tail, s, pref);
    sorted := [s] + tail;
  }

  /** A member of the window is picked for the random number that is its index, unless a preference
      reserves or ignores it. */
  lemma IndexIsPicked(w: seq<Server>, pref: ReadPref, k: nat)
    requires k < |w|
    requires !(pref == PrimaryPreferred && w[0].nodeType == Primary)
    requires pref == SecondaryPreferred && k == |w| - 1 ==> |w| == 1 || w[k].nodeType != Primary
    ensures PickFrom(w, pref, k) == w[k]
  {
    assert k % |w| == k;
    if k < |w| - 1 { assert k % (|w| - 1) == k; }
  }

  /** And every server that the read preference allows is what a request gets, for some order of ties
      and some random number. */
  lemma AcceptableMayBeGot(s: Server, candidates: seq<Server>, pref: ReadPref, latency: nat) returns (rand: nat)
    requires Members(candidates) && (pref == SecondaryPreferred ==> Primaries(candidates) <= 1)
    requires Acceptable(s, candidates, pref, latency)
    ensures MayGet(s, candidates, pref, latency, rand)
  {
    hide Keep, PickFrom, Primaries;
    rand := 0;
    if pref == PrimaryPreferred && Has(candidates, Primary) {
      var sorted := SortedFrom(s, candidates, pref);
      KeepFirst(sorted, IsNear(s, latency));
      assert PickFrom(Window(sorted, latency), pref, 0) == s by { PrimaryIsPicked(Window(sorted, latency), 0); }
    } else {
      var sorted := SortedForm(candidates, pref);
      SortedFormSorts(candidates, pref);
      SortKeeps(sorted, candidates, pref);
      rand := IndexInWindow(s, candidates, sorted, pref, latency);
    }
  }

  lemma PrimaryIsPicked(w: seq<Server>, rand: nat)
    requires w != [] && w[0].nodeType == Primary
    ensures PickFrom(w, PrimaryPreferred, rand) == w[0]
  {
  }

  lemma IndexInWindow(s: Server, candidates: seq<Server>, sorted: seq<Server>, pref: ReadPref, latency: nat)
    returns (k: nat)
    requires Members(candidates) && (pref == SecondaryPreferred ==> Primaries(candidates) <= 1)
    requires Acceptable(s, candidates, pref, latency) && !(pref == PrimaryPreferred && Has(candidates, Primary))
    requires SortOf(sorted, candidates, pref) && sorted != []
    ensures Window(sorted, latency) != [] && PickFrom(Window(sorted, latency), pref, k) == s
  {
    hide Keep, PickFrom, Primaries, Compare;
    SortKeeps(sorted, candidates, pref);
    FirstIsBest(sorted, pref);
    var near := IsNear(sorted[0], latency);
    var w := Window(sorted, latency);
    KeepHas(sorted, near, s);
    KeepFirst(sorted, near);
    k :| 0 <= k < |w| && w[k] == s;
    if pref == SecondaryPreferred && s.nodeType == Primary && 1 < |w| {
      assert !Has(sorted, Secondary);
      assert w[0] in w && w[1] in w;
      SortKeepsPrimaries(sorted, candidates, pref);
      FewerPrimaries(sorted, near);
      PairOfPrimaries(w, 0, 1);
    }
    IndexIsPicked(w, pref, k);
  }

  lemma BehindAPrimary(w: seq<Server>, i: nat, k: nat)
    requires Sorted(w, SecondaryPreferred) && Members(w) && i <= k < |w| && w[i].nodeType == Primary
    ensures w[k].nodeType == Primary
  {
    assert i < k ==> Compare(SecondaryPreferred, w[i], w[k]) <= 0;
    assert w[k] in w;
  }

  /** secondaryPreferred, with a secondary at hand, gets a secondary for every random number if and
      only if there is at most one primary in the window: one at the end is ignored, no more. */
  lemma AlwaysASecondary(w: seq<Server>)
    requires Sorted(w, SecondaryPreferred) && Members(w) && w != [] && w[0].nodeType == Secondary
    ensures (forall rand: nat :: PickFrom(w, SecondaryPreferred, rand).nodeType == Secondary) <==> Primaries(w) <= 1
  {
    hide Primaries, PickFrom, Compare;
    if Primaries(w) <= 1 {
      forall rand: nat
        ensures PickFrom(w, SecondaryPreferred, rand).nodeType == Secondary
      {
        var k := PickIsInside(w, SecondaryPreferred, rand);
        SecondariesFirst(w, k);
      }
    } else {
      PairExists(w);
      var i, j :| 0 <= i < j < |w| && w[i].nodeType == w[j].nodeType == Primary;
      BehindAPrimary(w, i, |w| - 2);
      IndexIsPicked(w, SecondaryPreferred, |w| - 2);
      assert PickFrom(w, SecondaryPreferred, |w| - 2).nodeType == Primary;
    }
  }

  /** A request never gets anything but a candidate. */
  lemma GetIsCandidate(s: Server, candidates: seq<Server>, pref: ReadPref, latency: nat, rand: nat)
    requires MayGet(s, candidates, pref, latency, rand)
    ensures s in candidates
  {
    hide Compare, Keep, PickFrom;
    var sorted :| SortOf(sorted, candidates, pref) && sorted != []
                  && Window(sorted, latency) != [] && s == PickFrom(Window(sorted, latency), pref, rand);
    SortKeeps(sorted, candidates, pref);
    var k := PickIsInside(Window(sorted, latency), pref, rand);
    assert Window(sorted, latency)[k] in Window(sorted, latency);
  }

  lemma {:induction false} MadeFor(made: seq<Made>, s: Server) returns (m: Made)
    requires s in Servers(made)
    ensures m in made && m.server == s
  {
    var n := |made| - 1;
    m := made[n];
    if m.server != s {
      m := MadeFor(made[..n], s);
    }
  }

  lemma {:induction false} MadeIsThere(made: seq<Made>, m: Made)
    requires m in made
    ensures m.server in Servers(made)
  {
    var n := |made| - 1;
    if made[n] != m {
      MadeIsThere(made[..n], m);
    }
  }

  /** What the candidates before tags are, among what is registered. */
  lemma EligibleAmong(made: seq<Made>, pref: ReadPref, target: Target, pid: int)
    requires target.seeds != [] && (!target.isReplSet ==> forall d | d in target.seeds :: Clean(d))
    requires forall m | m in made :: m.Valid()
    ensures forall m | m in made :: m.server in Eligible(Servers(made), pref, target, pid) <==> Usable(m, pref, target, pid)
    ensures forall s | s in Eligible(Servers(made), pref, target, pid) ::
              exists m :: m in made && m.server == s && Usable(m, pref, target, pid)
  {
    hide Eligible, Usable, Servers, Made.Valid, Clean;
    forall m | m in made
      ensures m.server in Eligible(Servers(made), pref, target, pid) <==> Usable(m, pref, target, pid)
    {
      MadeIsThere(made, m);
      EligibleIsUsable(Servers(made), m, pref, target, pid);
    }
    forall s | s in Eligible(Servers(made), pref, target, pid)
      ensures exists m :: m in made && m.server == s && Usable(m, pref, target, pid)
    {
      EligibleIsRegistered(Servers(made), pref, target, pid, s);
      var m := MadeFor(made, s);
    }
  }

  lemma EligibleIsRegistered(registry: seq<Server>, pref: ReadPref, target: Target, pid: int, s: Server)
    requires target.seeds != [] && s in Eligible(registry, pref, target, pid)
    ensures s in registry
  {
    hide Keep, BySeeds, HasCredentialsOf, HasSetName, IsOurs;
    var all := Keep(registry, IsOurs(pid, TypesFor(pref)));
    KeepHas(Named(registry, pref, target, pid), HasCredentialsOf(target.seeds[0], pid), s);
    if target.isReplSet {
      KeepHas(all, HasSetName(target.replSet), s);
    } else {
      BySeedsHas(all, target.seeds, pid, s);
    }
    KeepHas(registry, IsOurs(pid, TypesFor(pref)), s);
  }

  /** A connection of this process, of the set or the seeds, under the right login. */
  predicate IsOwn(m: Made, target: Target, pid: int)
    requires target.seeds != []
  {
    && m.pid == pid && Belongs(m, target)
    && (target.seeds[0].HasCredentials() ==> SameLogin(m.def, target.seeds[0], pid))
  }

  /** A write gets a primary that was made by this process for the set, or for a seed, under the login of
      the first seed, although it is sorted, cut and picked by the read preference of the server list; and
      nothing is found if and only if no such connection is registered. */
  lemma WriteGetsAPrimary(made: seq<Made>, pref: ReadPref, tagsets: seq<seq<string>>, latency: nat, target: Target, pid: int)
    requires target.seeds != [] && (!target.isReplSet ==> forall d | d in target.seeds :: Clean(d))
    requires forall m | m in made :: m.Valid()
    ensures var (collectPref, collectTags) := CollectBy(Write, pref, tagsets);
            var candidates := CandidatesOf(Servers(made), collectPref, collectTags, target, pid);
            && candidates.Some?
            && (candidates.value == [] <==> forall m | m in made :: !(m.server.nodeType == Primary && IsOwn(m, target, pid)))
            && (forall s, rand | MayGet(s, candidates.value, pref, latency, rand) ::
                  s.nodeType == Primary && exists m :: m in made && m.server == s && IsOwn(m, target, pid))
  {
    hide MayGet, Eligible, Servers, Belongs, SameLogin, Clean, Made.Valid;
    var candidates := Eligible(Servers(made), PrimaryOnly, target, pid);
    EligibleAmong(made, PrimaryOnly, target, pid);
    if candidates != [] {
      assert candidates[0] in candidates;
    }
    forall s, rand | MayGet(s, candidates, pref, latency, rand)
      ensures s.nodeType == Primary && exists m :: m in made && m.server == s && IsOwn(m, target, pid)
    {
      GetIsCandidate(s, candidates, pref, latency, rand);
    }
  }

  /** A request that may go anywhere sees every connection of its own, whatever its type. */
  lemma AnyNodeWillDo(made: seq<Made>, pref: ReadPref, tagsets: seq<seq<string>>, target: Target, pid: int, m: Made)
    requires target.seeds != [] && (!target.isReplSet ==> forall d | d in target.seeds :: Clean(d))
    requires (forall n | n in made :: n.Valid()) && m in made
    ensures var (collectPref, collectTags) := CollectBy(DontFilter, pref, tagsets);
            var candidates := CandidatesOf(Servers(made), collectPref, collectTags, target, pid);
            candidates.Some? && (m.server in candidates.value <==> m.server.nodeType != Invalid && IsOwn(m, target, pid))
  {
    hide Eligible, Servers, Belongs, SameLogin, Clean, Made.Valid;
    EligibleAmong(made, ReadPref.Any, target, pid);
  }

  /** The server has all the tags, or is a primary that a preference for primaries lets through. */
  predicate FitsTags(s: Server, pref: ReadPref, wanted: seq<string>) {
    (pref == PrimaryPreferred && s.nodeType == Primary) || forall t | t in wanted :: t in s.tags
  }

  lemma PassesIsFitting(s: Server, pref: ReadPref, wanted: seq<string>)
    requires NoRepeats(s.tags)
    ensures PassesTagset(pref, wanted)(s) <==> FitsTags(s, pref, wanted)
  {
    PairsOfUnique(wanted, s.tags);
  }

  /** A read gets a connection of its own to a node that its preference lets serve; with tagsets, one that
      fits the first tagset that any such connection fits.  No server carries a tag twice. */
  lemma ReadHonoursTags(made: seq<Made>, pref: ReadPref, tagsets: seq<seq<string>>, latency: nat, target: Target, pid: int,
      s: Server, rand: nat)
    requires target.seeds != [] && (!target.isReplSet ==> forall d | d in target.seeds :: Clean(d))
    requires forall m | m in made :: m.Valid() && NoRepeats(m.server.tags)
    requires var (collectPref, collectTags) := CollectBy(Read, pref, tagsets);
             var candidates := CandidatesOf(Servers(made), collectPref, collectTags, target, pid);
             candidates.Some? && MayGet(s, candidates.value, pref, latency, rand)
    ensures exists m :: m in made && m.server == s && Usable(m, pref, target, pid)
    ensures tagsets != [] ==>
              exists i | 0 <= i < |tagsets| ::
                && FitsTags(s, pref, tagsets[i])
                && forall j, m | 0 <= j < i && m in made && Usable(m, pref, target, pid) :: !FitsTags(m.server, pref, tagsets[j])
  {
    hide MayGet, Eligible, Servers, Usable, Clean, Made.Valid, ByTagsets, Keep, NoRepeats, PassesTagset, FitsTags;
    var eligible := Eligible(Servers(made), pref, target, pid);
    var candidates := CandidatesOf(Servers(made), pref, tagsets, target, pid).value;
    EligibleAmong(made, pref, target, pid);
    GetIsCandidate(s, candidates, pref, latency, rand);
    if tagsets != [] {
      TagsetsCut(eligible, pref, tagsets);
      var i :| 0 <= i < |tagsets| && candidates == Keep(eligible, PassesTagset(pref, tagsets[i]))
               && forall j | 0 <= j < i :: Keep(eligible, PassesTagset(pref, tagsets[j])) == [];
      KeepHas(eligible, PassesTagset(pref, tagsets[i]), s);
      var m :| m in made && m.server == s;
      PassesIsFitting(s, pref, tagsets[i]);
      forall j, m | 0 <= j < i && m in made && Usable(m, pref, target, pid)
        ensures !FitsTags(m.server, pref, tagsets[j])
      {
        KeepHas(eligible, PassesTagset(pref, tagsets[j]), m.server);
        PassesIsFitting(m.server, pref, tagsets[j]);
      }
    }
  }

  /** A connection made by this process with the credentials of the first seed passes the set name and
      credentials filters: the hash carries them through. */
  lemma OwnConnectionQualifies(s: Server, d: ServerDef, pref: ReadPref, target: Target, pid: int)
    requires target.seeds != [] && Clean(d) && s.hash == HashOf(d, pid) && s.nodeType in TypesFor(pref)
    requires d.replSet.Some? && (target.replSet.Some? ==> d.replSet == target.replSet)
    requires var seed := target.seeds[0];
             d.db == seed.db && d.username == seed.username && d.password == seed.password
    ensures Qualifies(s, pref, target, pid)
  {
    hide HashOf, SplitHash, HashToPid, Clean, HashedPassword;
    SplitInvertsCreate(d, pid);
    PidExtractorsAgree(d, pid);
  }
}
