/** The C library's view of text: numbers printed and read back, and characters searched for. */
module Text {
  import opened Files
  import opened Search

  /** strchr from `from` on. */
  function StrChr(s: string, from: nat, c: char): (r: Option<nat>)
    ensures r.Some? ==> from <= r.value < |s| && s[r.value] == c
    decreases |s| - from
  {
    if |s| <= from then None else if s[from] == c then Some(from) else StrChr(s, from + 1, c)
  }

  /** What is found is the first, and nothing is found only if there is none. */
  lemma StrChrFirst(s: string, from: nat, c: char)
    ensures forall i | from <= i < (if StrChr(s, from, c).Some? then StrChr(s, from, c).value else |s|) :: s[i] != c
    decreases |s| - from
  {
    if from < |s| && s[from] != c {
      StrChrFirst(s, from + 1, c);
    }
  }

  lemma StrChrIs(s: string, from: nat, c: char, k: nat)
    requires from <= k < |s| && s[k] == c && forall i | from <= i < k :: s[i] != c
    ensures StrChr(s, from, c) == Some(k)
  {
    StrChrFirst(s, from, c);
  }

  /** `part` lies in `s` at `from`, with `c` right behind it. */
  predicate PartAt(s: string, from: nat, part: string, c: char) {
    from + |part| < |s| && s[from..from + |part|] == part && s[from + |part|] == c
  }

  /** The search for a separator finds the end of a part that does not contain it, and the inside of
      one that does. */
  lemma StrChrPart(s: string, from: nat, part: string, c: char, sep: char)
    requires PartAt(s, from, part, sep)
    ensures c !in part && c == sep ==> StrChr(s, from, c) == Some(from + |part|)
    ensures c in part ==> StrChr(s, from, c).Some? && StrChr(s, from, c).value < from + |part|
    ensures At(s, from) == if part == [] then sep else part[0]
    ensures from + |part| < |s| && s[from..from + |part|] == part
  {
    assert forall i | from <= i < from + |part| :: s[i] == part[i - from];
    if c in part {
      var k :| 0 <= k < |part| && part[k] == c;
      assert s[from + k] == c;
      StrChrFirst(s, from, c);
    } else if c == sep {
      StrChrIs(s, from, c, from + |part|);
    }
  }

  /** The last `c`; strrchr. */
  function StrRChr(s: string, c: char): (r: Option<nat>)
    ensures r.Some? ==> r.value < |s| && s[r.value] == c && forall i | r.value < i < |s| :: s[i] != c
    ensures r.None? ==> c !in s
  {
    if s == [] then None else if s[|s| - 1] == c then Some(|s| - 1) else StrRChr(s[..|s| - 1], c)
  }

  /** The character at `i`; NUL behind the end. */
  function At(s: string, i: nat): char {
    if i < |s| then s[i] else '\0'
  }

  /** mcon_strndup of `n` characters from `from`: a negative `n` is a huge one. */
  function StrNDup(s: string, from: nat, n: int): string
    requires from <= |s|
  {
    if n < 0 || |s| - from < n then s[from..] else s[from..from + n]
  }

  predicate IsDigit(c: char) {
    '0' <= c <= '9'
  }

  /** sprintf "%d" of a number that is not negative. */
  function Digits(n: nat): (s: string)
    ensures s != [] && forall c | c in s :: IsDigit(c)
  {
    if n < 10 then [('0' as int + n) as char] else Digits(n / 10) + [('0' as int + n % 10) as char]
  }

  function Decimal(n: int): (s: string)
    ensures s != [] && forall i | 0 <= i < |s| :: IsDigit(s[i]) || (i == 0 && s[i] == '-')
  {
    if n < 0 then "-" + Digits(-n) else Digits(n)
  }

  /** The value of the digits at the start of `s`, continuing from `acc`. */
  function Value(s: string, acc: nat): nat {
    if s == [] || !IsDigit(s[0]) then acc else Value(s[1..], 10 * acc + (s[0] as int - '0' as int))
  }

  /** atoi, for text that does not start with white space. */
  function Atoi(s: string): int {
    if s != [] && s[0] == '-' then 0 - Value(s[1..], 0)
    else if s != [] && s[0] == '+' then Value(s[1..], 0)
    else Value(s, 0)
  }

  function Power10(k: nat): (p: nat)
    ensures 0 < p
  {
    if k == 0 then 1 else 10 * Power10(k - 1)
  }

  lemma {:induction false} ValueOfDigits(n: nat, rest: string, acc: nat)
    requires rest == [] || !IsDigit(rest[0])
    ensures Value(Digits(n) + rest, acc) == acc * Power10(|Digits(n)|) + n
  {
    ValueConcat(Digits(n), rest, acc);
    DigitsValue(n, acc);
  }

  lemma {:induction false} ValueConcat(s: string, rest: string, acc: nat)
    requires (forall c | c in s :: IsDigit(c)) && (rest == [] || !IsDigit(rest[0]))
    ensures Value(s + rest, acc) == Value(s, acc)
  {
    if s == [] {
      assert s + rest == rest;
    } else {
      assert (s + rest)[1..] == s[1..] + rest && s[0] in s;
      ValueConcat(s[1..], rest, 10 * acc + (s[0] as int - '0' as int));
    }
  }

  lemma {:induction false} ValueSnoc(s: string, c: char, acc: nat)
    requires (forall d | d in s :: IsDigit(d)) && IsDigit(c)
    ensures Value(s + [c], acc) == 10 * Value(s, acc) + (c as int - '0' as int)
  {
    if s != [] {
      assert (s + [c])[1..] == s[1..] + [c] && s[0] in s;
      ValueSnoc(s[1..], c, 10 * acc + (s[0] as int - '0' as int));
    } else {
      assert Value([c][1..], 10 * acc + (c as int - '0' as int)) == 10 * acc + (c as int - '0' as int);
    }
  }

  lemma {:induction false} DigitsValue(n: nat, acc: nat)
    ensures Value(Digits(n), acc) == acc * Power10(|Digits(n)|) + n
  {
    if n < 10 {
      assert Value(Digits(n)[1..], 10 * acc + n) == 10 * acc + n;
      assert Power10(1) == 10 * Power10(0);
    } else {
      DigitsValue(n / 10, acc);
      ValueSnoc(Digits(n / 10), ('0' as int + n % 10) as char, acc);
      var k := |Digits(n / 10)|;
      Shifted(acc, Power10(k), n / 10, n % 10);
    }
  }

  lemma Shifted(a: nat, p: nat, q: nat, r: nat)
    ensures 10 * (a * p + q) + r == a * (10 * p) + (10 * q + r)
  {
  }

  /** atoi reads back what "%d" printed, up to the first character that is no digit. */
  lemma AtoiOfDecimal(n: int, rest: string)
    requires rest == [] || !IsDigit(rest[0])
    ensures Atoi(Decimal(n) + rest) == n
  {
    if n < 0 {
      assert (Decimal(n) + rest)[1..] == Digits(-n) + rest;
      ValueOfDigits(-n, rest, 0);
    } else {
      ValueOfDigits(n, rest, 0);
    }
  }
}
