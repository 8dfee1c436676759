/** The doubling vector that candidate lists are collected in. */
module Collections {

  class Collection<T(0)> {
    var count: nat
    var data: array<T>

    constructor ()
      ensures Valid() && View() == [] && fresh(data)
    {
      count := 0;
      data := new T[16];
    }

    predicate Valid()
      reads this
    {
      0 < data.Length && count <= data.Length
    }

    /** The elements, in order of addition. */
    function View(): seq<T>
      requires Valid()
      reads this, data
    {
      data[..count]
    }

    method Add(x: T)
      requires Valid()
      modifies this, data
      ensures Valid() && View() == old(View()) + [x] && (data == old(data) || fresh(data))
    {
      if count == data.Length {
        var wider := new T[data.Length * 2];
        forall i | 0 <= i < data.Length {
          wider[i] := data[i];
        }
        data := wider;
      }
      data[count] := x;
      count := count + 1;
    }
  }

  /** The elements that satisfy `p`, in order. */
  function Keep<T>(s: seq<T>, p: T -> bool): (r: seq<T>)
    ensures forall x | x in r :: x in s && p(x)
  {
    if s == [] then []
    else Keep(s[..|s| - 1], p) + (if p(s[|s| - 1]) then [s[|s| - 1]] else [])
  }

  lemma KeepNothing<T>(p: T -> bool)
    ensures Keep([], p) == []
  {
  }

  lemma KeepNext<T>(s: seq<T>, i: nat, p: T -> bool)
    requires i < |s|
    ensures Keep(s[..i + 1], p) == Keep(s[..i], p) + (if p(s[i]) then [s[i]] else [])
  {
    assert s[..i + 1][..i] == s[..i];
  }

  lemma {:induction false} KeepHas<T>(s: seq<T>, p: T -> bool, x: T)
    ensures x in Keep(s, p) <==> x in s && p(x)
  {
    if s != [] {
      KeepHas(s[..|s| - 1], p, x);
      assert s == s[..|s| - 1] + [s[|s| - 1]];
    }
  }

  /** Two filters one after the other are one. */
  lemma {:induction false} KeepTwice<T>(s: seq<T>, p: T -> bool, q: T -> bool, both: T -> bool)
    requires forall x | x in s :: both(x) == (p(x) && q(x))
    ensures Keep(Keep(s, p), q) == Keep(s, both)
  {
    if s != [] {
      var front, last := s[..|s| - 1], s[|s| - 1];
      KeepTwice(front, p, q, both);
      if p(last) {
        assert (Keep(front, p) + [last])[..|Keep(front, p)|] == Keep(front, p);
      } else {
        assert Keep(front, p) + [] == Keep(front, p);
      }
    }
  }

  /** How often something occurs survives the filter, or drops to nothing. */
  lemma {:induction false} KeepCounts<T>(s: seq<T>, p: T -> bool, x: T)
    ensures multiset(Keep(s, p))[x] == if p(x) then multiset(s)[x] else 0
  {
    if s != [] {
      KeepCounts(s[..|s| - 1], p, x);
      assert s == s[..|s| - 1] + [s[|s| - 1]];
    }
  }

  /** A loop that adds what passes. */
  method Collect<T(0)>(s: seq<T>, p: T -> bool) returns (c: Collection<T>)
    ensures c.Valid() && c.View() == Keep(s, p) && fresh(c) && fresh(c.data)
  {
    c := new Collection();
    for i := 0 to |s|
      invariant c.Valid() && c.View() == Keep(s[..i], p) && fresh(c) && fresh(c.data)
    {
      assert s[..i + 1][..i] == s[..i];
      if p(s[i]) {
        c.Add(s[i]);
      }
    }
    assert s[..|s|] == s;
  }
}
