/** The MD5 of the connection manager: optimised functions, unrolled rounds, a 64-byte buffer and a
    length counter of 29 and 32 bits. */
module Md5Rounds {
  import opened Md5Spec

  function FastF(x: word, y: word, z: word): word { z ^ (x & (y ^ z)) }
  function FastG(x: word, y: word, z: word): word { y ^ (z & (x ^ y)) }

  lemma FastBitsF(x: word, y: word, z: word)
    ensures z ^ (x & (y ^ z)) == (x & y) | (!x & z)
  {
  }

  lemma FastBitsG(x: word, y: word, z: word)
    ensures y ^ (z & (x ^ y)) == (x & z) | (y & !z)
  {
  }

  /** The optimised functions are the ones of section 3.4. */
  lemma FastIsPlain(x: word, y: word, z: word)
    ensures FastF(x, y, z) == F(x, y, z) && FastG(x, y, z) == G(x, y, z)
  {
    FastBitsF(x, y, z);
    FastBitsG(x, y, z);
  }

  /** The two shifts of the STEP macro. */
  function ShiftOr(v: word, s: nat): word
    requires s < 32
  {
    (v << s) | ((v & 0xffffffff) >> (32 - s))
  }

  /** The STEP macro, given the value of its function. */
  function Step(fv: word, a: word, b: word, x: word, t: word, s: nat): word
    requires s < 32
  {
    Plus(ShiftOr(Plus(a, Plus(Plus(fv, x), t)), s), b)
  }

  lemma ShiftsOfRound1(v: word)
    ensures ShiftOr(v, 7) == Rotated(v, 7)
    ensures ShiftOr(v, 12) == Rotated(v, 12)
    ensures ShiftOr(v, 17) == Rotated(v, 17)
    ensures ShiftOr(v, 22) == Rotated(v, 22)
  {
    assert (v << 7) | ((v & 0xffffffff) >> 25) == v.RotateLeft(7);
    assert (v << 12) | ((v & 0xffffffff) >> 20) == v.RotateLeft(12);
    assert (v << 17) | ((v & 0xffffffff) >> 15) == v.RotateLeft(17);
    assert (v << 22) | ((v & 0xffffffff) >> 10) == v.RotateLeft(22);
  }

  lemma ShiftsOfRound2(v: word)
    ensures ShiftOr(v, 5) == Rotated(v, 5)
    ensures ShiftOr(v, 9) == Rotated(v, 9)
    ensures ShiftOr(v, 14) == Rotated(v, 14)
    ensures ShiftOr(v, 20) == Rotated(v, 20)
  {
    assert (v << 5) | ((v & 0xffffffff) >> 27) == v.RotateLeft(5);
    assert (v << 9) | ((v & 0xffffffff) >> 23) == v.RotateLeft(9);
    assert (v << 14) | ((v & 0xffffffff) >> 18) == v.RotateLeft(14);
    assert (v << 20) | ((v & 0xffffffff) >> 12) == v.RotateLeft(20);
  }

  lemma ShiftsOfRound3(v: word)
    ensures ShiftOr(v, 4) == Rotated(v, 4)
    ensures ShiftOr(v, 11) == Rotated(v, 11)
    ensures ShiftOr(v, 16) == Rotated(v, 16)
    ensures ShiftOr(v, 23) == Rotated(v, 23)
  {
    assert (v << 4) | ((v & 0xffffffff) >> 28) == v.RotateLeft(4);
    assert (v << 11) | ((v & 0xffffffff) >> 21) == v.RotateLeft(11);
    assert (v << 16) | ((v & 0xffffffff) >> 16) == v.RotateLeft(16);
    assert (v << 23) | ((v & 0xffffffff) >> 9) == v.RotateLeft(23);
  }

  lemma ShiftsOfRound4(v: word)
    ensures ShiftOr(v, 6) == Rotated(v, 6)
    ensures ShiftOr(v, 10) == Rotated(v, 10)
    ensures ShiftOr(v, 15) == Rotated(v, 15)
    ensures ShiftOr(v, 21) == Rotated(v, 21)
  {
    assert (v << 6) | ((v & 0xffffffff) >> 26) == v.RotateLeft(6);
    assert (v << 10) | ((v & 0xffffffff) >> 22) == v.RotateLeft(10);
    assert (v << 15) | ((v & 0xffffffff) >> 17) == v.RotateLeft(15);
    assert (v << 21) | ((v & 0xffffffff) >> 11) == v.RotateLeft(21);
  }

  predicate IsShift(s: nat)
    ensures IsShift(s) ==> s < 32
  {
    4 <= s <= 23 && s != 8 && s != 13 && s != 18 && s != 19
  }

  lemma ShiftOrRotates(v: word, s: nat)
    requires IsShift(s)
    ensures s < 32 && ShiftOr(v, s) == Rotated(v, s)
  {
    hide ShiftOr, Rotated;
    ShiftsOfRound1(v);
    ShiftsOfRound2(v);
    ShiftsOfRound3(v);
    ShiftsOfRound4(v);
  }

  lemma PlusCommutes(x: word, y: word)
    ensures Plus(x, y) == Plus(y, x)
  {
  }

  /** On every amount that occurs, the macro is the turn of section 3.4. */
  lemma StepIsTurn(fv: word, a: word, b: word, x: word, t: word, s: nat)
    requires IsShift(s)
    ensures s < 32 && Step(fv, a, b, x, t, s) == Turn(fv, a, b, x, t, s)
  {
    hide ShiftOr, Rotated, IsShift, Plus;
    var sum := Plus(a, Plus(Plus(fv, x), t));
    ShiftOrRotates(sum, s);
    PlusCommutes(ShiftOr(sum, s), b);
  }

  /** STEP(F, ...). */
  method StepF(a: word, b: word, c: word, d: word, x: word, t: word, s: nat) returns (r: word)
    requires IsShift(s)
    ensures r == Turn(F(b, c, d), a, b, x, t, s)
  {
    hide F, G, H, I, FastF, FastG, Step, Turn, IsShift;
    r := Step(FastF(b, c, d), a, b, x, t, s);
    FastIsPlain(b, c, d);
    StepIsTurn(F(b, c, d), a, b, x, t, s);
  }

  /** STEP(G, ...). */
  method StepG(a: word, b: word, c: word, d: word, x: word, t: word, s: nat) returns (r: word)
    requires IsShift(s)
    ensures r == Turn(G(b, c, d), a, b, x, t, s)
  {
    hide F, G, H, I, FastF, FastG, Step, Turn, IsShift;
    r := Step(FastG(b, c, d), a, b, x, t, s);
    FastIsPlain(b, c, d);
    StepIsTurn(G(b, c, d), a, b, x, t, s);
  }

  /** STEP(H, ...). */
  method StepH(a: word, b: word, c: word, d: word, x: word, t: word, s: nat) returns (r: word)
    requires IsShift(s)
    ensures r == Turn(H(b, c, d), a, b, x, t, s)
  {
    hide F, G, H, I, FastF, FastG, Step, Turn, IsShift;
    r := Step(H(b, c, d), a, b, x, t, s);
    StepIsTurn(H(b, c, d), a, b, x, t, s);
  }

  /** STEP(I, ...). */
  method StepI(a: word, b: word, c: word, d: word, x: word, t: word, s: nat) returns (r: word)
    requires IsShift(s)
    ensures r == Turn(I(b, c, d), a, b, x, t, s)
  {
    hide F, G, H, I, FastF, FastG, Step, Turn, IsShift;
    r := Step(I(b, c, d), a, b, x, t, s);
    StepIsTurn(I(b, c, d), a, b, x, t, s);
  }

  /** One row of the table of section 3.4: four operations. */
  function Row(i: nat, r: Regs, x: seq<word>): Regs
    requires i + 4 <= 64 && |x| == 16
  {
    Operation(i + 3, Operation(i + 2, Operation(i + 1, Operation(i, r, x), x), x), x)
  }

  lemma RowIsFourOperations(i: nat, r: Regs, x: seq<word>)
    requires i + 4 <= 64 && |x| == 16
    ensures Operations(i + 4, r, x) == Row(i, Operations(i, r, x), x)
  {
    hide Operation;
    assert Operations(i + 2, r, x) == Operation(i + 1, Operations(i + 1, r, x), x);
  }

  /** First row of round one of the unrolled loop body. */
  method Round1a(r: Regs, x: seq<word>) returns (q: Regs)
    requires |x| == 16
    ensures q == Row(0, r, x)
  {
    hide F, G, H, I, Turn;
    var a, b, c, d := r.a, r.b, r.c, r.d;
    a := StepF(a, b, c, d, x[0], 0xd76aa478, 7);
    ghost var r1 := Operation(0, r, x);
    assert Regs(a, b, c, d) == r1;
    d := StepF(d, a, b, c, x[1], 0xe8c7b756, 12);
    ghost var r2 := Operation(1, r1, x);
    assert Regs(a, b, c, d) == r2;
    c := StepF(c, d, a, b, x[2], 0x242070db, 17);
    ghost var r3 := Operation(2, r2, x);
    assert Regs(a, b, c, d) == r3;
    b := StepF(b, c, d, a, x[3], 0xc1bdceee, 22);
    q := Regs(a, b, c, d);
  }

  /** Second row of round one of the unrolled loop body. */
  method Round1b(r: Regs, x: seq<word>) returns (q: Regs)
    requires |x| == 16
    ensures q == Row(4, r, x)
  {
    hide F, G, H, I, Turn;
    var a, b, c, d := r.a, r.b, r.c, r.d;
    a := StepF(a, b, c, d, x[4], 0xf57c0faf, 7);
    ghost var r1 := Operation(4, r, x);
    assert Regs(a, b, c, d) == r1;
    d := StepF(d, a, b, c, x[5], 0x4787c62a, 12);
    ghost var r2 := Operation(5, r1, x);
    assert Regs(a, b, c, d) == r2;
    c := StepF(c, d, a, b, x[6], 0xa8304613, 17);
    ghost var r3 := Operation(6, r2, x);
    assert Regs(a, b, c, d) == r3;
    b := StepF(b, c, d, a, x[7], 0xfd469501, 22);
    q := Regs(a, b, c, d);
  }

  /** Third row of round one of the unrolled loop body. */
  method Round1c(r: Regs, x: seq<word>) returns (q: Regs)
    requires |x| == 16
    ensures q == Row(8, r, x)
  {
    hide F, G, H, I, Turn;
    var a, b, c, d := r.a, r.b, r.c, r.d;
    a := StepF(a, b, c, d, x[8], 0x698098d8, 7);
    ghost var r1 := Operation(8, r, x);
    assert Regs(a, b, c, d) == r1;
    d := StepF(d, a, b, c, x[9], 0x8b44f7af, 12);
    ghost var r2 := Operation(9, r1, x);
    assert Regs(a, b, c, d) == r2;
    c := StepF(c, d, a, b, x[10], 0xffff5bb1, 17);
    ghost var r3 := Operation(10, r2, x);
    assert Regs(a, b, c, d) == r3;
    b := StepF(b, c, d, a, x[11], 0x895cd7be, 22);
    q := Regs(a, b, c, d);
  }

  /** Fourth row of round one of the unrolled loop body. */
  method Round1d(r: Regs, x: seq<word>) returns (q: Regs)
    requires |x| == 16
    ensures q == Row(12, r, x)
  {
    hide F, G, H, I, Turn;
    var a, b, c, d := r.a, r.b, r.c, r.d;
    a := StepF(a, b, c, d, x[12], 0x6b901122, 7);
    ghost var r1 := Operation(12, r, x);
    assert Regs(a, b, c, d) == r1;
    d := StepF(d, a, b, c, x[13], 0xfd987193, 12);
    ghost var r2 := Operation(13, r1, x);
    assert Regs(a, b, c, d) == r2;
    c := StepF(c, d, a, b, x[14], 0xa679438e, 17);
    ghost var r3 := Operation(14, r2, x);
    assert Regs(a, b, c, d) == r3;
    b := StepF(b, c, d, a, x[15], 0x49b40821, 22);
    q := Regs(a, b, c, d);
  }

  /** First row of round two of the unrolled loop body. */
  method Round2a(r: Regs, x: seq<word>) returns (q: Regs)
    requires |x| == 16
    ensures q == Row(16, r, x)
  {
    hide F, G, H, I, Turn;
    var a, b, c, d := r.a, r.b, r.c, r.d;
    a := StepG(a, b, c, d, x[1], 0xf61e2562, 5);
    ghost var r1 := Operation(16, r, x);
    assert Regs(a, b, c, d) == r1;
    d := StepG(d, a, b, c, x[6], 0xc040b340, 9);
    ghost var r2 := Operation(17, r1, x);
    assert Regs(a, b, c, d) == r2;
    c := StepG(c, d, a, b, x[11], 0x265e5a51, 14);
    ghost var r3 := Operation(18, r2, x);
    assert Regs(a, b, c, d) == r3;
    b := StepG(b, c, d, a, x[0], 0xe9b6c7aa, 20);
    q := Regs(a, b, c, d);
  }

  /** Second row of round two of the unrolled loop body. */
  method Round2b(r: Regs, x: seq<word>) returns (q: Regs)
    requires |x| == 16
    ensures q == Row(20, r, x)
  {
    hide F, G, H, I, Turn;
    var a, b, c, d := r.a, r.b, r.c, r.d;
    a := StepG(a, b, c, d, x[5], 0xd62f105d, 5);
    ghost var r1 := Operation(20, r, x);
    assert Regs(a, b, c, d) == r1;
    d := StepG(d, a, b, c, x[10], 0x02441453, 9);
    ghost var r2 := Operation(21, r1, x);
    assert Regs(a, b, c, d) == r2;
    c := StepG(c, d, a, b, x[15], 0xd8a1e681, 14);
    ghost var r3 := Operation(22, r2, x);
    assert Regs(a, b, c, d) == r3;
    b := StepG(b, c, d, a, x[4], 0xe7d3fbc8, 20);
    q := Regs(a, b, c, d);
  }

  /** Third row of round two of the unrolled loop body. */
  method Round2c(r: Regs, x: seq<word>) returns (q: Regs)
    requires |x| == 16
    ensures q == Row(24, r, x)
  {
    hide F, G, H, I, Turn;
    var a, b, c, d := r.a, r.b, r.c, r.d;
    a := StepG(a, b, c, d, x[9], 0x21e1cde6, 5);
    ghost var r1 := Operation(24, r, x);
    assert Regs(a, b, c, d) == r1;
    d := StepG(d, a, b, c, x[14], 0xc33707d6, 9);
    ghost var r2 := Operation(25, r1, x);
    assert Regs(a, b, c, d) == r2;
    c := StepG(c, d, a, b, x[3], 0xf4d50d87, 14);
    ghost var r3 := Operation(26, r2, x);
    assert Regs(a, b, c, d) == r3;
    b := StepG(b, c, d, a, x[8], 0x455a14ed, 20);
    q := Regs(a, b, c, d);
  }

  /** Fourth row of round two of the unrolled loop body. */
  method Round2d(r: Regs, x: seq<word>) returns (q: Regs)
    requires |x| == 16
    ensures q == Row(28, r, x)
  {
    hide F, G, H, I, Turn;
    var a, b, c, d := r.a, r.b, r.c, r.d;
    a := StepG(a, b, c, d, x[13], 0xa9e3e905, 5);
    ghost var r1 := Operation(28, r, x);
    assert Regs(a, b, c, d) == r1;
    d := StepG(d, a, b, c, x[2], 0xfcefa3f8, 9);
    ghost var r2 := Operation(29, r1, x);
    assert Regs(a, b, c, d) == r2;
    c := StepG(c, d, a, b, x[7], 0x676f02d9, 14);
    ghost var r3 := Operation(30, r2, x);
    assert Regs(a, b, c, d) == r3;
    b := StepG(b, c, d, a, x[12], 0x8d2a4c8a, 20);
    q := Regs(a, b, c, d);
  }

  /** First row of round three of the unrolled loop body. */
  method Round3a(r: Regs, x: seq<word>) returns (q: Regs)
    requires |x| == 16
    ensures q == Row(32, r, x)
  {
    hide F, G, H, I, Turn;
    var a, b, c, d := r.a, r.b, r.c, r.d;
    a := StepH(a, b, c, d, x[5], 0xfffa3942, 4);
    ghost var r1 := Operation(32, r, x);
    assert Regs(a, b, c, d) == r1;
    d := StepH(d, a, b, c, x[8], 0x8771f681, 11);
    ghost var r2 := Operation(33, r1, x);
    assert Regs(a, b, c, d) == r2;
    c := StepH(c, d, a, b, x[11], 0x6d9d6122, 16);
    ghost var r3 := Operation(34, r2, x);
    assert Regs(a, b, c, d) == r3;
    b := StepH(b, c, d, a, x[14], 0xfde5380c, 23);
    q := Regs(a, b, c, d);
  }

  /** Second row of round three of the unrolled loop body. */
  method Round3b(r: Regs, x: seq<word>) returns (q: Regs)
    requires |x| == 16
    ensures q == Row(36, r, x)
  {
    hide F, G, H, I, Turn;
    var a, b, c, d := r.a, r.b, r.c, r.d;
    a := StepH(a, b, c, d, x[1], 0xa4beea44, 4);
    ghost var r1 := Operation(36, r, x);
    assert Regs(a, b, c, d) == r1;
    d := StepH(d, a, b, c, x[4], 0x4bdecfa9, 11);
    ghost var r2 := Operation(37, r1, x);
    assert Regs(a, b, c, d) == r2;
    c := StepH(c, d, a, b, x[7], 0xf6bb4b60, 16);
    ghost var r3 := Operation(38, r2, x);
    assert Regs(a, b, c, d) == r3;
    b := StepH(b, c, d, a, x[10], 0xbebfbc70, 23);
    q := Regs(a, b, c, d);
  }

  /** Third row of round three of the unrolled loop body. */
  method Round3c(r: Regs, x: seq<word>) returns (q: Regs)
    requires |x| == 16
    ensures q == Row(40, r, x)
  {
    hide F, G, H, I, Turn;
    var a, b, c, d := r.a, r.b, r.c, r.d;
    a := StepH(a, b, c, d, x[13], 0x289b7ec6, 4);
    ghost var r1 := Operation(40, r, x);
    assert Regs(a, b, c, d) == r1;
    d := StepH(d, a, b, c, x[0], 0xeaa127fa, 11);
    ghost var r2 := Operation(41, r1, x);
    assert Regs(a, b, c, d) == r2;
    c := StepH(c, d, a, b, x[3], 0xd4ef3085, 16);
    ghost var r3 := Operation(42, r2, x);
    assert Regs(a, b, c, d) == r3;
    b := StepH(b, c, d, a, x[6], 0x04881d05, 23);
    q := Regs(a, b, c, d);
  }

  /** Fourth row of round three of the unrolled loop body. */
  method Round3d(r: Regs, x: seq<word>) returns (q: Regs)
    requires |x| == 16
    ensures q == Row(44, r, x)
  {
    hide F, G, H, I, Turn;
    var a, b, c, d := r.a, r.b, r.c, r.d;
    a := StepH(a, b, c, d, x[9], 0xd9d4d039, 4);
    ghost var r1 := Operation(44, r, x);
    assert Regs(a, b, c, d) == r1;
    d := StepH(d, a, b, c, x[12], 0xe6db99e5, 11);
    ghost var r2 := Operation(45, r1, x);
    assert Regs(a, b, c, d) == r2;
    c := StepH(c, d, a, b, x[15], 0x1fa27cf8, 16);
    ghost var r3 := Operation(46, r2, x);
    assert Regs(a, b, c, d) == r3;
    b := StepH(b, c, d, a, x[2], 0xc4ac5665, 23);
    q := Regs(a, b, c, d);
  }

  /** First row of round four of the unrolled loop body. */
  method Round4a(r: Regs, x: seq<word>) returns (q: Regs)
    requires |x| == 16
    ensures q == Row(48, r, x)
  {
    hide F, G, H, I, Turn;
    var a, b, c, d := r.a, r.b, r.c, r.d;
    a := StepI(a, b, c, d, x[0], 0xf4292244, 6);
    ghost var r1 := Operation(48, r, x);
    assert Regs(a, b, c, d) == r1;
    d := StepI(d, a, b, c, x[7], 0x432aff97, 10);
    ghost var r2 := Operation(49, r1, x);
    assert Regs(a, b, c, d) == r2;
    c := StepI(c, d, a, b, x[14], 0xab9423a7, 15);
    ghost var r3 := Operation(50, r2, x);
    assert Regs(a, b, c, d) == r3;
    b := StepI(b, c, d, a, x[5], 0xfc93a039, 21);
    q := Regs(a, b, c, d);
  }

  /** Second row of round four of the unrolled loop body. */
  method Round4b(r: Regs, x: seq<word>) returns (q: Regs)
    requires |x| == 16
    ensures q == Row(52, r, x)
  {
    hide F, G, H, I, Turn;
    var a, b, c, d := r.a, r.b, r.c, r.d;
    a := StepI(a, b, c, d, x[12], 0x655b59c3, 6);
    ghost var r1 := Operation(52, r, x);
    assert Regs(a, b, c, d) == r1;
    d := StepI(d, a, b, c, x[3], 0x8f0ccc92, 10);
    ghost var r2 := Operation(53, r1, x);
    assert Regs(a, b, c, d) == r2;
    c := StepI(c, d, a, b, x[10], 0xffeff47d, 15);
    ghost var r3 := Operation(54, r2, x);
    assert Regs(a, b, c, d) == r3;
    b := StepI(b, c, d, a, x[1], 0x85845dd1, 21);
    q := Regs(a, b, c, d);
  }

  /** Third row of round four of the unrolled loop body. */
  method Round4c(r: Regs, x: seq<word>) returns (q: Regs)
    requires |x| == 16
    ensures q == Row(56, r, x)
  {
    hide F, G, H, I, Turn;
    var a, b, c, d := r.a, r.b, r.c, r.d;
    a := StepI(a, b, c, d, x[8], 0x6fa87e4f, 6);
    ghost var r1 := Operation(56, r, x);
    assert Regs(a, b, c, d) == r1;
    d := StepI(d, a, b, c, x[15], 0xfe2ce6e0, 10);
    ghost var r2 := Operation(57, r1, x);
    assert Regs(a, b, c, d) == r2;
    c := StepI(c, d, a, b, x[6], 0xa3014314, 15);
    ghost var r3 := Operation(58, r2, x);
    assert Regs(a, b, c, d) == r3;
    b := StepI(b, c, d, a, x[13], 0x4e0811a1, 21);
    q := Regs(a, b, c, d);
  }

  /** Fourth row of round four of the unrolled loop body. */
  method Round4d(r: Regs, x: seq<word>) returns (q: Regs)
    requires |x| == 16
    ensures q == Row(60, r, x)
  {
    hide F, G, H, I, Turn;
    var a, b, c, d := r.a, r.b, r.c, r.d;
    a := StepI(a, b, c, d, x[4], 0xf7537e82, 6);
    ghost var r1 := Operation(60, r, x);
    assert Regs(a, b, c, d) == r1;
    d := StepI(d, a, b, c, x[11], 0xbd3af235, 10);
    ghost var r2 := Operation(61, r1, x);
    assert Regs(a, b, c, d) == r2;
    c := StepI(c, d, a, b, x[2], 0x2ad7d2bb, 15);
    ghost var r3 := Operation(62, r2, x);
    assert Regs(a, b, c, d) == r3;
    b := StepI(b, c, d, a, x[9], 0xeb86d391, 21);
    q := Regs(a, b, c, d);
  }

  /** The unrolled loop body on one block: all sixty-four steps. */
  method Rounds(r: Regs, x: seq<word>) returns (q: Regs)
    requires |x| == 16
    ensures q == Operations(64, r, x)
  {
    hide Operation, Row;
    q := r;
    q := Round1a(q, x);
    RowIsFourOperations(0, r, x);
    q := Round1b(q, x);
    RowIsFourOperations(4, r, x);
    q := Round1c(q, x);
    RowIsFourOperations(8, r, x);
    q := Round1d(q, x);
    RowIsFourOperations(12, r, x);
    q := Round2a(q, x);
    RowIsFourOperations(16, r, x);
    q := Round2b(q, x);
    RowIsFourOperations(20, r, x);
    q := Round2c(q, x);
    RowIsFourOperations(24, r, x);
    q := Round2d(q, x);
    RowIsFourOperations(28, r, x);
    q := Round3a(q, x);
    RowIsFourOperations(32, r, x);
    q := Round3b(q, x);
    RowIsFourOperations(36, r, x);
    q := Round3c(q, x);
    RowIsFourOperations(40, r, x);
    q := Round3d(q, x);
    RowIsFourOperations(44, r, x);
    q := Round4a(q, x);
    RowIsFourOperations(48, r, x);
    q := Round4b(q, x);
    RowIsFourOperations(52, r, x);
    q := Round4c(q, x);
    RowIsFourOperations(56, r, x);
    q := Round4d(q, x);
    RowIsFourOperations(60, r, x);
  }
}
