/** A digest written out: the test suite of section A.5 of RFC 1321 gives that of "abc". */
module Md5Example {
  import opened Md5Spec
  import opened Md5Rounds
  import Md5

  /** The block that "abc" is padded to, as words. */
  ghost predicate IsAbc(x: seq<word>) {
    |x| == 16 && x[0] == 0x80636261 && x[14] == 24 && forall i | 0 < i < 16 && i != 14 :: x[i] == 0
  }

  /** The registers when `n` rows of four operations have been done. */
  function After(n: nat): Regs
    requires n <= 16
  {
    match n
    case 0 => Regs(0x67452301, 0xefcdab89, 0x98badcfe, 0x10325476)
    case 1 => Regs(0xd6d117b4, 0x7ad956f2, 0x2f6fbd72, 0x344a8432)
    case 2 => Regs(0xc73741ef, 0x928d99f6, 0x207dc67b, 0x8bac3051)
    case 3 => Regs(0x854b3712, 0x5ed49596, 0x3020401c, 0x74e2f284)
    case 4 => Regs(0xdda9b9a6, 0x72aff2e0, 0xe396856b, 0xa1051895)
    case 5 => Regs(0x3e9e9126, 0xb5b204e4, 0xe25e1652, 0x4a1d804e)
    case 6 => Regs(0x59a8ffda, 0x47092c07, 0xabfc7920, 0x6d002f1e)
    case 7 => Regs(0xb7f268cf, 0x786acb8f, 0xfe1623b1, 0x09388eff)
    case 8 => Regs(0x790a77fb, 0x726342d3, 0xa62884aa, 0x9f47e4f8)
    case 9 => Regs(0xb3707ebf, 0x3b0875c7, 0x8d212ff5, 0x60127b2e)
    case 10 => Regs(0x21b117b9, 0x5a2f5ea5, 0x3575227e, 0x6e7429d5)
    case 11 => Regs(0x11de1779, 0x4c6124f4, 0x31c465ca, 0xfadcaa38)
    case 12 => Regs(0x7f2e507b, 0x7beb9700, 0x8fae6399, 0x99d9679d)
    case 13 => Regs(0x7b201df8, 0x8bf025c4, 0xb298cefd, 0xf4e8e96e)
    case 14 => Regs(0x06cc5e8a, 0x3bfa2c27, 0x7d632dd0, 0x5b0d97aa)
    case 15 => Regs(0x7f81cc35, 0x7327d604, 0x4f9dbe3f, 0x094454ab)
    case _ => Regs(0x310ade8f, 0xc08226b3, 0xe484b9d8, 0x624d8cb2)
  }

  /** Four operations, each of which writes one register. */
  ghost predicate Leads(i: nat, p: Regs, q: Regs, x: seq<word>)
    requires i + 4 <= 64 && |x| == 16
  {
    && Operation(i, p, x) == p.(a := q.a)
    && Operation(i + 1, p.(a := q.a), x) == p.(a := q.a, d := q.d)
    && Operation(i + 2, p.(a := q.a, d := q.d), x) == q.(b := p.b)
    && Operation(i + 3, q.(b := p.b), x) == q
  }

  lemma Constants0()
    ensures Index(0) == 0 && Index(1) == 1 && Index(2) == 2 && Index(3) == 3
    ensures Sine(0) == 0xd76aa478 && Sine(1) == 0xe8c7b756 && Sine(2) == 0x242070db && Sine(3) == 0xc1bdceee
    ensures Shift(0) == 7 && Shift(1) == 12 && Shift(2) == 17 && Shift(3) == 22
  {
  }

  lemma Constants1()
    ensures Index(4) == 4 && Index(5) == 5 && Index(6) == 6 && Index(7) == 7
    ensures Sine(4) == 0xf57c0faf && Sine(5) == 0x4787c62a && Sine(6) == 0xa8304613 && Sine(7) == 0xfd469501
    ensures Shift(4) == 7 && Shift(5) == 12 && Shift(6) == 17 && Shift(7) == 22
  {
  }

  lemma Constants2()
    ensures Index(8) == 8 && Index(9) == 9 && Index(10) == 10 && Index(11) == 11
    ensures Sine(8) == 0x698098d8 && Sine(9) == 0x8b44f7af && Sine(10) == 0xffff5bb1 && Sine(11) == 0x895cd7be
    ensures Shift(8) == 7 && Shift(9) == 12 && Shift(10) == 17 && Shift(11) == 22
  {
  }

  lemma Constants3()
    ensures Index(12) == 12 && Index(13) == 13 && Index(14) == 14 && Index(15) == 15
    ensures Sine(12) == 0x6b901122 && Sine(13) == 0xfd987193 && Sine(14) == 0xa679438e && Sine(15) == 0x49b40821
    ensures Shift(12) == 7 && Shift(13) == 12 && Shift(14) == 17 && Shift(15) == 22
  {
  }

  lemma Constants4()
    ensures Index(16) == 1 && Index(17) == 6 && Index(18) == 11 && Index(19) == 0
    ensures Sine(16) == 0xf61e2562 && Sine(17) == 0xc040b340 && Sine(18) == 0x265e5a51 && Sine(19) == 0xe9b6c7aa
    ensures Shift(16) == 5 && Shift(17) == 9 && Shift(18) == 14 && Shift(19) == 20
  {
  }

  lemma Constants5()
    ensures Index(20) == 5 && Index(21) == 10 && Index(22) == 15 && Index(23) == 4
    ensures Sine(20) == 0xd62f105d && Sine(21) == 0x02441453 && Sine(22) == 0xd8a1e681 && Sine(23) == 0xe7d3fbc8
    ensures Shift(20) == 5 && Shift(21) == 9 && Shift(22) == 14 && Shift(23) == 20
  {
  }

  lemma Constants6()
    ensures Index(24) == 9 && Index(25) == 14 && Index(26) == 3 && Index(27) == 8
    ensures Sine(24) == 0x21e1cde6 && Sine(25) == 0xc33707d6 && Sine(26) == 0xf4d50d87 && Sine(27) == 0x455a14ed
    ensures Shift(24) == 5 && Shift(25) == 9 && Shift(26) == 14 && Shift(27) == 20
  {
  }

  lemma Constants7()
    ensures Index(28) == 13 && Index(29) == 2 && Index(30) == 7 && Index(31) == 12
    ensures Sine(28) == 0xa9e3e905 && Sine(29) == 0xfcefa3f8 && Sine(30) == 0x676f02d9 && Sine(31) == 0x8d2a4c8a
    ensures Shift(28) == 5 && Shift(29) == 9 && Shift(30) == 14 && Shift(31) == 20
  {
  }

  lemma Constants8()
    ensures Index(32) == 5 && Index(33) == 8 && Index(34) == 11 && Index(35) == 14
    ensures Sine(32) == 0xfffa3942 && Sine(33) == 0x8771f681 && Sine(34) == 0x6d9d6122 && Sine(35) == 0xfde5380c
    ensures Shift(32) == 4 && Shift(33) == 11 && Shift(34) == 16 && Shift(35) == 23
  {
  }

  lemma Constants9()
    ensures Index(36) == 1 && Index(37) == 4 && Index(38) == 7 && Index(39) == 10
    ensures Sine(36) == 0xa4beea44 && Sine(37) == 0x4bdecfa9 && Sine(38) == 0xf6bb4b60 && Sine(39) == 0xbebfbc70
    ensures Shift(36) == 4 && Shift(37) == 11 && Shift(38) == 16 && Shift(39) == 23
  {
  }

  lemma Constants10()
    ensures Index(40) == 13 && Index(41) == 0 && Index(42) == 3 && Index(43) == 6
    ensures Sine(40) == 0x289b7ec6 && Sine(41) == 0xeaa127fa && Sine(42) == 0xd4ef3085 && Sine(43) == 0x04881d05
    ensures Shift(40) == 4 && Shift(41) == 11 && Shift(42) == 16 && Shift(43) == 23
  {
  }

  lemma Constants11()
    ensures Index(44) == 9 && Index(45) == 12 && Index(46) == 15 && Index(47) == 2
    ensures Sine(44) == 0xd9d4d039 && Sine(45) == 0xe6db99e5 && Sine(46) == 0x1fa27cf8 && Sine(47) == 0xc4ac5665
    ensures Shift(44) == 4 && Shift(45) == 11 && Shift(46) == 16 && Shift(47) == 23
  {
  }

  lemma Constants12()
    ensures Index(48) == 0 && Index(49) == 7 && Index(50) == 14 && Index(51) == 5
    ensures Sine(48) == 0xf4292244 && Sine(49) == 0x432aff97 && Sine(50) == 0xab9423a7 && Sine(51) == 0xfc93a039
    ensures Shift(48) == 6 && Shift(49) == 10 && Shift(50) == 15 && Shift(51) == 21
  {
  }

  lemma Constants13()
    ensures Index(52) == 12 && Index(53) == 3 && Index(54) == 10 && Index(55) == 1
    ensures Sine(52) == 0x655b59c3 && Sine(53) == 0x8f0ccc92 && Sine(54) == 0xffeff47d && Sine(55) == 0x85845dd1
    ensures Shift(52) == 6 && Shift(53) == 10 && Shift(54) == 15 && Shift(55) == 21
  {
  }

  lemma Constants14()
    ensures Index(56) == 8 && Index(57) == 15 && Index(58) == 6 && Index(59) == 13
    ensures Sine(56) == 0x6fa87e4f && Sine(57) == 0xfe2ce6e0 && Sine(58) == 0xa3014314 && Sine(59) == 0x4e0811a1
    ensures Shift(56) == 6 && Shift(57) == 10 && Shift(58) == 15 && Shift(59) == 21
  {
  }

  lemma Constants15()
    ensures Index(60) == 4 && Index(61) == 11 && Index(62) == 2 && Index(63) == 9
    ensures Sine(60) == 0xf7537e82 && Sine(61) == 0xbd3af235 && Sine(62) == 0x2ad7d2bb && Sine(63) == 0xeb86d391
    ensures Shift(60) == 6 && Shift(61) == 10 && Shift(62) == 15 && Shift(63) == 21
  {
  }

  lemma Row0(x: seq<word>)
    requires IsAbc(x)
    ensures Leads(0, After(0), After(1), x)
  {
    hide Index, Sine, Shift;
    Constants0();
  }

  lemma Row1(x: seq<word>)
    requires IsAbc(x)
    ensures Leads(4, After(1), After(2), x)
  {
    hide Index, Sine, Shift;
    Constants1();
  }

  lemma Row2(x: seq<word>)
    requires IsAbc(x)
    ensures Leads(8, After(2), After(3), x)
  {
    hide Index, Sine, Shift;
    Constants2();
  }

  lemma Row3(x: seq<word>)
    requires IsAbc(x)
    ensures Leads(12, After(3), After(4), x)
  {
    hide Index, Sine, Shift;
    Constants3();
  }

  lemma Row4(x: seq<word>)
    requires IsAbc(x)
    ensures Leads(16, After(4), After(5), x)
  {
    hide Index, Sine, Shift;
    Constants4();
  }

  lemma Row5(x: seq<word>)
    requires IsAbc(x)
    ensures Leads(20, After(5), After(6), x)
  {
    hide Index, Sine, Shift;
    Constants5();
  }

  lemma Row6(x: seq<word>)
    requires IsAbc(x)
    ensures Leads(24, After(6), After(7), x)
  {
    hide Index, Sine, Shift;
    Constants6();
  }

  lemma Row7(x: seq<word>)
    requires IsAbc(x)
    ensures Leads(28, After(7), After(8), x)
  {
    hide Index, Sine, Shift;
    Constants7();
  }

  lemma Row8(x: seq<word>)
    requires IsAbc(x)
    ensures Leads(32, After(8), After(9), x)
  {
    hide Index, Sine, Shift;
    Constants8();
  }

  lemma Row9(x: seq<word>)
    requires IsAbc(x)
    ensures Leads(36, After(9), After(10), x)
  {
    hide Index, Sine, Shift;
    Constants9();
  }

  lemma Row10(x: seq<word>)
    requires IsAbc(x)
    ensures Leads(40, After(10), After(11), x)
  {
    hide Index, Sine, Shift;
    Constants10();
  }

  lemma Row11(x: seq<word>)
    requires IsAbc(x)
    ensures Leads(44, After(11), After(12), x)
  {
    hide Index, Sine, Shift;
    Constants11();
  }

  lemma Row12(x: seq<word>)
    requires IsAbc(x)
    ensures Leads(48, After(12), After(13), x)
  {
    hide Index, Sine, Shift;
    Constants12();
  }

  lemma Row13(x: seq<word>)
    requires IsAbc(x)
    ensures Leads(52, After(13), After(14), x)
  {
    hide Index, Sine, Shift;
    Constants13();
  }

  lemma Row14(x: seq<word>)
    requires IsAbc(x)
    ensures Leads(56, After(14), After(15), x)
  {
    hide Index, Sine, Shift;
    Constants14();
  }

  lemma Row15(x: seq<word>)
    requires IsAbc(x)
    ensures Leads(60, After(15), After(16), x)
  {
    hide Index, Sine, Shift;
    Constants15();
  }

  lemma OneRow(n: nat, x: seq<word>)
    requires n < 16 && |x| == 16 && Operations(4 * n, INITIAL, x) == After(n) && Leads(4 * n, After(n), After(n + 1), x)
    ensures Operations(4 * n + 4, INITIAL, x) == After(n + 1)
  {
    hide Operation, Operations, After;
    RowIsFourOperations(4 * n, INITIAL, x);
  }

  lemma EveryRow(n: nat, x: seq<word>)
    requires n < 16 && IsAbc(x)
    ensures Leads(4 * n, After(n), After(n + 1), x)
  {
    hide Leads, After, IsAbc;
    match n {
      case 0 => Row0(x);
      case 1 => Row1(x);
      case 2 => Row2(x);
      case 3 => Row3(x);
      case 4 => Row4(x);
      case 5 => Row5(x);
      case 6 => Row6(x);
      case 7 => Row7(x);
      case 8 => Row8(x);
      case 9 => Row9(x);
      case 10 => Row10(x);
      case 11 => Row11(x);
      case 12 => Row12(x);
      case 13 => Row13(x);
      case 14 => Row14(x);
      case _ => Row15(x);
    }
  }

  lemma {:induction false} Rows(n: nat, x: seq<word>)
    requires n <= 16 && IsAbc(x)
    ensures Operations(4 * n, INITIAL, x) == After(n)
  {
    if n != 0 {
      hide *;
      var k := n - 1;
      LengthOf(x);
      Rows(k, x);
      EveryRow(k, x);
      OneRow(k, x);
      assert 4 * k + 4 == 4 * n;
    }
  }

  lemma LengthOf(x: seq<word>)
    requires IsAbc(x)
    ensures |x| == 16
  {
  }

  lemma AbcIsPadded()
    ensures var p := Padded([0x61, 0x62, 0x63]); |p| == 64 && IsAbc(Words(p))
  {
    var m: seq<octet> := [0x61, 0x62, 0x63];
    var p := Padded(m);
    AbcLength();
    assert |p| == 64 && p[..3] == m && p[3] == 0x80 && forall i | 4 <= i < 56 :: p[i] == 0;
    assert p[56..] == LengthBytes(24);
    assert p[56] == 24 && forall i | 57 <= i < 64 :: p[i] == 0;
    AbcWords();
  }

  lemma AbcLength()
    ensures LengthBytes(24) == [24, 0, 0, 0, 0, 0, 0, 0]
  {
    hide ByteOf;
    FirstByte();
    NoByte(0x100);
    NoByte(0x1_0000);
    NoByte(0x100_0000);
    NoByte(0x1_0000_0000);
    NoByte(0x100_0000_0000);
    NoByte(0x1_0000_0000_0000);
    NoByte(0x100_0000_0000_0000);
  }

  lemma FirstByte()
    ensures ByteOf(24, 1) == 24
  {
  }

  lemma NoByte(weight: nat)
    requires 24 < weight
    ensures ByteOf(24, weight) == 0
  {
    assert 24 / weight == 0;
  }

  lemma AbcWords()
    ensures WordOf(0x61, 0x62, 0x63, 0x80) == 0x80636261 && WordOf(24, 0, 0, 0) == 24 && WordOf(0, 0, 0, 0) == 0
  {
  }

  /** MD5 ("abc") = 900150983cd24fb0d6963f7d28e17f72, as bytes. */
  lemma DigestOfAbc()
    ensures Digest([0x61, 0x62, 0x63]) ==
            [0x90, 0x01, 0x50, 0x98, 0x3c, 0xd2, 0x4f, 0xb0,
             0xd6, 0x96, 0x3f, 0x7d, 0x28, 0xe1, 0x7f, 0x72]
  {
    hide Operations, Padded, Words, Output, IsAbc, After;
    var p := Padded([0x61, 0x62, 0x63]);
    AbcIsPadded();
    Rows(16, Words(p));
    assert p[..64] == p && p[64..] == [];
    LastRegisters();
    assert Absorb(INITIAL, p) == Absorb(Compress(INITIAL, p), []);
  }

  lemma LastRegisters()
    ensures var q := After(16);
            Output(Regs(Plus(q.a, INITIAL.a), Plus(q.b, INITIAL.b), Plus(q.c, INITIAL.c), Plus(q.d, INITIAL.d))) ==
            [0x90, 0x01, 0x50, 0x98, 0x3c, 0xd2, 0x4f, 0xb0,
             0xd6, 0x96, 0x3f, 0x7d, 0x28, 0xe1, 0x7f, 0x72]
  {
  }
}
