/** First occurrences: what memchr and php_memnstr return. */
module Search {
  import opened Files

  predicate MatchesAt<T(==)>(hay: seq<T>, needle: seq<T>, i: nat) {
    i + |needle| <= |hay| && hay[i..i + |needle|] == needle
  }

  /** The first occurrence of `needle` in `hay` that starts at `from` or later. */
  function FindFrom<T(==)>(hay: seq<T>, needle: seq<T>, from: nat): (r: Option<nat>)
    ensures r.Some? ==> from <= r.value && MatchesAt(hay, needle, r.value)
    ensures forall i: nat | from <= i && (r.Some? ==> i < r.value) :: !MatchesAt(hay, needle, i)
    decreases |hay| - from
  {
    if from + |needle| > |hay| then None
    else if MatchesAt(hay, needle, from) then Some(from)
    else FindFrom(hay, needle, from + 1)
  }

  function Find<T(==)>(hay: seq<T>, needle: seq<T>): Option<nat> {
    FindFrom(hay, needle, 0)
  }

  lemma FindIsFromStart<T>(hay: seq<T>, needle: seq<T>)
    ensures Find(hay, needle) == FindFrom(hay, needle, 0)
  {
  }

  /** memchr. */
  function IndexOf<T(==)>(hay: seq<T>, x: T): (r: Option<nat>)
    ensures r.Some? ==> r.value < |hay| && hay[r.value] == x && forall i | 0 <= i < r.value :: hay[i] != x
    ensures r.None? ==> x !in hay
  {
    var r := Find(hay, [x]);
    assert forall i: nat | i < |hay| :: hay[i..i + 1] == [hay[i]];
    assert forall i: nat | i < |hay| :: hay[i] == x ==> MatchesAt(hay, [x], i);
    r
  }

  /** An occurrence is determined by being one with none before it. */
  lemma FirstIsFind<T>(hay: seq<T>, needle: seq<T>, from: nat, k: nat)
    requires from <= k && MatchesAt(hay, needle, k)
    requires forall i: nat | from <= i < k :: !MatchesAt(hay, needle, i)
    ensures FindFrom(hay, needle, from) == Some(k)
  {
  }

  lemma MatchInPrefix<T>(hay: seq<T>, longer: seq<T>, needle: seq<T>, i: nat)
    requires hay <= longer && i + |needle| <= |hay|
    ensures MatchesAt(hay, needle, i) == MatchesAt(longer, needle, i)
  {
    assert hay[i..i + |needle|] == longer[i..i + |needle|];
  }

  /** The first occurrence in a prefix is the first occurrence in the whole. */
  lemma FindInPrefix<T>(hay: seq<T>, longer: seq<T>, needle: seq<T>)
    requires hay <= longer && Find(hay, needle).Some?
    ensures Find(longer, needle) == Find(hay, needle)
  {
    var k := Find(hay, needle).value;
    MatchInPrefix(hay, longer, needle, k);
    forall i: nat | i < k
      ensures !MatchesAt(longer, needle, i)
    {
      MatchInPrefix(hay, longer, needle, i);
    }
    FirstIsFind(longer, needle, 0, k);
  }

  /** After a search of `hay` found nothing, a search of a longer text may start
      `|needle| - 1` elements before the end of `hay` and still finds the first occurrence. */
  lemma SkipIsSound<T>(hay: seq<T>, longer: seq<T>, needle: seq<T>, skip: nat)
    requires hay <= longer && Find(hay, needle).None?
    requires skip == 0 || skip + |needle| - 1 <= |hay|
    ensures FindFrom(longer, needle, skip) == Find(longer, needle)
  {
    forall i: nat | i < skip
      ensures !MatchesAt(longer, needle, i)
    {
      MatchInPrefix(hay, longer, needle, i);
    }
    var r := FindFrom(longer, needle, skip);
    if r.Some? {
      FirstIsFind(longer, needle, 0, r.value);
    }
  }
}
