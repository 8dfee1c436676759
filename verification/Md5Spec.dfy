/** MD5 as sections 3.1 to 3.5 of RFC 1321 define it. */
module Md5Spec {

  type octet = bv8
  type word = bv32

  /** The four registers A, B, C and D. */
  datatype Regs = Regs(a: word, b: word, c: word, d: word)

  /** Section 3.3: the initial registers. */
  const INITIAL := Regs(0x67452301, 0xefcdab89, 0x98badcfe, 0x10325476)

  // Section 3.4: the auxiliary functions.
  function F(x: word, y: word, z: word): word { (x & y) | (!x & z) }
  function G(x: word, y: word, z: word): word { (x & z) | (y & !z) }
  function H(x: word, y: word, z: word): word { x ^ y ^ z }
  function I(x: word, y: word, z: word): word { y ^ (x | !z) }

  /** Section 3.4: the table of sines, the integer part of 4294967296 * abs(sin(i + 1)), by rows of four. */
  function Sine(i: nat): word
    requires i < 64
  {
    var q := i % 4;
    match i / 4
    case 0 => Pick(q, 0xd76aa478, 0xe8c7b756, 0x242070db, 0xc1bdceee)
    case 1 => Pick(q, 0xf57c0faf, 0x4787c62a, 0xa8304613, 0xfd469501)
    case 2 => Pick(q, 0x698098d8, 0x8b44f7af, 0xffff5bb1, 0x895cd7be)
    case 3 => Pick(q, 0x6b901122, 0xfd987193, 0xa679438e, 0x49b40821)
    case 4 => Pick(q, 0xf61e2562, 0xc040b340, 0x265e5a51, 0xe9b6c7aa)
    case 5 => Pick(q, 0xd62f105d, 0x02441453, 0xd8a1e681, 0xe7d3fbc8)
    case 6 => Pick(q, 0x21e1cde6, 0xc33707d6, 0xf4d50d87, 0x455a14ed)
    case 7 => Pick(q, 0xa9e3e905, 0xfcefa3f8, 0x676f02d9, 0x8d2a4c8a)
    case 8 => Pick(q, 0xfffa3942, 0x8771f681, 0x6d9d6122, 0xfde5380c)
    case 9 => Pick(q, 0xa4beea44, 0x4bdecfa9, 0xf6bb4b60, 0xbebfbc70)
    case 10 => Pick(q, 0x289b7ec6, 0xeaa127fa, 0xd4ef3085, 0x04881d05)
    case 11 => Pick(q, 0xd9d4d039, 0xe6db99e5, 0x1fa27cf8, 0xc4ac5665)
    case 12 => Pick(q, 0xf4292244, 0x432aff97, 0xab9423a7, 0xfc93a039)
    case 13 => Pick(q, 0x655b59c3, 0x8f0ccc92, 0xffeff47d, 0x85845dd1)
    case 14 => Pick(q, 0x6fa87e4f, 0xfe2ce6e0, 0xa3014314, 0x4e0811a1)
    case _ => Pick(q, 0xf7537e82, 0xbd3af235, 0x2ad7d2bb, 0xeb86d391)
  }

  function Pick(q: nat, w0: word, w1: word, w2: word, w3: word): word {
    if q == 0 then w0 else if q == 1 then w1 else if q == 2 then w2 else w3
  }

  /** The auxiliary function of operation `i`. */
  function Aux(i: nat, x: word, y: word, z: word): word {
    if i < 16 then F(x, y, z) else if i < 32 then G(x, y, z) else if i < 48 then H(x, y, z) else I(x, y, z)
  }

  /** The word of the block that operation `i` uses. */
  function Index(i: nat): (k: nat)
    ensures k < 16
  {
    if i < 16 then i % 16 else if i < 32 then (5 * i + 1) % 16 else if i < 48 then (3 * i + 5) % 16 else 7 * i % 16
  }

  /** The number of bits operation `i` rotates by. */
  function Shift(i: nat): (s: nat)
    ensures 0 < s < 32
  {
    match (i / 16, i % 4)
    case (0, 0) => 7 case (0, 1) => 12 case (0, 2) => 17 case (0, _) => 22
    case (1, 0) => 5 case (1, 1) => 9 case (1, 2) => 14 case (1, _) => 20
    case (2, 0) => 4 case (2, 1) => 11 case (2, 2) => 16 case (2, _) => 23
    case (_, 0) => 6 case (_, 1) => 10 case (_, 2) => 15 case (_, _) => 21
  }

  /** X <<< s. */
  function Rotated(v: word, s: nat): word
    requires s < 32
  {
    v.RotateLeft(s)
  }

  /** Section 2: addition of words, modulo 2^32. */
  function Plus(x: word, y: word): word {
    x + y
  }

  /** a = b + ((a + f(b,c,d) + X[k] + T[i]) <<< s); how the sum is grouped makes no difference. */
  function Turn(fv: word, a: word, b: word, x: word, t: word, s: nat): word
    requires s < 32
  {
    Plus(b, Rotated(Plus(a, Plus(Plus(fv, x), t)), s))
  }

  /** Operation `i`: the roles of the registers move round by one each time. */
  function Operation(i: nat, r: Regs, x: seq<word>): Regs
    requires i < 64 && |x| == 16
  {
    var xk, t, s := x[Index(i)], Sine(i), Shift(i);
    match i % 4
    case 0 => r.(a := Turn(Aux(i, r.b, r.c, r.d), r.a, r.b, xk, t, s))
    case 1 => r.(d := Turn(Aux(i, r.a, r.b, r.c), r.d, r.a, xk, t, s))
    case 2 => r.(c := Turn(Aux(i, r.d, r.a, r.b), r.c, r.d, xk, t, s))
    case _ => r.(b := Turn(Aux(i, r.c, r.d, r.a), r.b, r.c, xk, t, s))
  }

  /** The first `n` operations of the four rounds. */
  function Operations(n: nat, r: Regs, x: seq<word>): Regs
    requires n <= 64 && |x| == 16
  {
    if n == 0 then r else Operation(n - 1, Operations(n - 1, r, x), x)
  }

  /** Section 2: four bytes are a word, low-order byte first. */
  function WordOf(b0: octet, b1: octet, b2: octet, b3: octet): word {
    b0 as word + 0x100 * (b1 as word) + 0x1_0000 * (b2 as word) + 0x100_0000 * (b3 as word)
  }

  function Words(block: seq<octet>): (x: seq<word>)
    requires |block| == 64
    ensures |x| == 16
  {
    seq(16, k requires 0 <= k < 16 => WordOf(block[4 * k], block[4 * k + 1], block[4 * k + 2], block[4 * k + 3]))
  }

  /** Section 3.4: one block. */
  function Compress(r: Regs, block: seq<octet>): Regs
    requires |block| == 64
  {
    var q := Operations(64, r, Words(block));
    Regs(Plus(q.a, r.a), Plus(q.b, r.b), Plus(q.c, r.c), Plus(q.d, r.d))
  }

  /** All whole blocks of `m`, in order; what is left over is ignored. */
  function Absorb(r: Regs, m: seq<octet>): Regs
    decreases |m|
  {
    if |m| < 64 then r else Absorb(Compress(r, m[..64]), m[64..])
  }

  /** The byte of weight 256^k of `n`. */
  function ByteOf(n: nat, weight: nat): octet
    requires 0 < weight
  {
    (n / weight % 0x100) as octet
  }

  /** Section 3.2: `n` modulo 2^64 as eight bytes, low-order byte first. */
  function LengthBytes(n: nat): (r: seq<octet>)
    ensures |r| == 8
  {
    [ByteOf(n, 1), ByteOf(n, 0x100), ByteOf(n, 0x1_0000), ByteOf(n, 0x100_0000), ByteOf(n, 0x1_0000_0000),
     ByteOf(n, 0x100_0000_0000), ByteOf(n, 0x1_0000_0000_0000), ByteOf(n, 0x100_0000_0000_0000)]
  }

  /** Section 3.1: a single 1 bit and then 0 bits up to 64 bits short of a whole block. */
  function Padding(length: nat): (r: seq<octet>)
    ensures |r| == 1 + (55 - length) % 64
  {
    [0x80] + seq((55 - length) % 64, _ => 0)
  }

  function Padded(m: seq<octet>): seq<octet> {
    m + Padding(|m|) + LengthBytes(8 * |m|)
  }

  /** Section 3.5: the registers, low-order byte first. */
  function Octets(w: word): (r: seq<octet>)
    ensures |r| == 4
  {
    [(w & 0xff) as octet, ((w >> 8) & 0xff) as octet, ((w >> 16) & 0xff) as octet, (w >> 24) as octet]
  }

  function Output(r: Regs): (o: seq<octet>)
    ensures |o| == 16
  {
    Octets(r.a) + Octets(r.b) + Octets(r.c) + Octets(r.d)
  }

  function Digest(m: seq<octet>): (o: seq<octet>)
    ensures |o| == 16
  {
    Output(Absorb(INITIAL, Padded(m)))
  }

  /** Blocks may be taken in any grouping. */
  lemma {:induction false} AbsorbConcat(r: Regs, m: seq<octet>, n: seq<octet>)
    requires |m| % 64 == 0
    ensures Absorb(r, m + n) == Absorb(Absorb(r, m), n)
    decreases |m|
  {
    if m == [] {
      assert m + n == n;
    } else {
      assert (m + n)[..64] == m[..64] && (m + n)[64..] == m[64..] + n;
      AbsorbConcat(Compress(r, m[..64]), m[64..], n);
    }
  }
}
