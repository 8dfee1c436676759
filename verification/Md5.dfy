/** The MD5 context: a 64-byte buffer, a length counter of 29 and 32 bits, and the registers. */
module Md5 {
  import opened Md5Spec
  import opened Md5Rounds

  /** The SET macro: four input bytes, low-order byte first, as one word. */
  function SetWord(b0: octet, b1: octet, b2: octet, b3: octet): word {
    b0 as word | (b1 as word << 8) | (b2 as word << 16) | (b3 as word << 24)
  }

  lemma SetWordIsWordOf(b0: octet, b1: octet, b2: octet, b3: octet)
    ensures SetWord(b0, b1, b2, b3) == WordOf(b0, b1, b2, b3)
  {
    assert b0 as word | (b1 as word << 8) | (b2 as word << 16) | (b3 as word << 24) ==
           b0 as word + 0x100 * (b1 as word) + 0x1_0000 * (b2 as word) + 0x100_0000 * (b3 as word);
  }

  const TWO29 := 0x2000_0000
  const TWO32 := 0x1_0000_0000
  const TWO61 := 0x2000_0000_0000_0000

  lemma CarryTest(lo: nat, r: nat)
    requires lo < TWO29 && r < TWO29
    ensures (lo + r) % TWO29 + (if (lo + r) % TWO29 < lo then TWO29 else 0) == lo + r
  {
  }

  lemma Wraps(x: int, y: int, m: nat)
    requires 0 < m
    ensures (x % m + y) % m == (x + y) % m
  {
    var q := x / m;
    assert x + y == (x % m + y) + q * m;
    ModOfMultiple(x % m + y, q, m);
  }

  lemma ModOfMultiple(x: int, q: int, m: nat)
    requires 0 < m
    ensures (x + q * m) % m == x % m
  {
    var d := x / m;
    assert x + q * m == x % m + (d + q) * m;
    DivModUnique(x + q * m, d + q, x % m, m);
  }

  lemma Grows(d: int, m: nat)
    ensures 1 <= d ==> m <= d * m
    ensures d <= -1 ==> d * m <= 0 - m
  {
  }

  lemma DivModUnique(n: int, q: int, r: nat, m: nat)
    requires r < m && n == r + q * m
    ensures n % m == r
  {
    var d := n / m - q;
    assert n % m == r - d * m;
    Grows(d, m);
  }

  /** The carry test on the 29-bit part and the two additions to the 32-bit part add `size` to the
      61-bit count. */
  lemma CounterAdds(lo: nat, hi: nat, size: nat, count: nat)
    requires lo < TWO29 && hi < TWO32 && lo + hi * TWO29 == count % TWO61
    ensures var lo' := (lo + size) % TWO29;
            var hi' := if lo' < lo then (hi + 1) % TWO32 else hi;
            lo' + (hi' + size / TWO29) % TWO32 * TWO29 == (count + size) % TWO61
  {
    var q, r := size / TWO29, size % TWO29;
    var lo' := (lo + size) % TWO29;
    assert lo' == (lo + r) % TWO29 by { ModOfMultiple(lo + r, q, TWO29); }
    CarryTest(lo, r);
    var carry := if lo' < lo then 1 else 0;
    var h := hi + carry + q;
    Wraps(hi + carry, q, TWO32);
    HighPart(lo', h, lo + hi * TWO29 + size, count, size);
  }

  lemma HighPart(low: nat, h: nat, sum: nat, count: nat, size: nat)
    requires low < TWO29 && low + h * TWO29 == sum && sum - size == count % TWO61
    ensures low + h % TWO32 * TWO29 == (count + size) % TWO61
  {
    var c := count / TWO61 + h / TWO32;
    assert count + size == (low + h % TWO32 * TWO29) + c * TWO61;
    DivModUnique(count + size, c, low + h % TWO32 * TWO29, TWO61);
  }

  lemma CountModBlock(lo: nat, hi: nat, count: nat)
    requires lo < TWO29 && hi < TWO32 && lo + hi * TWO29 == count % TWO61
    ensures lo % 64 == count % 64
  {
    assert TWO29 == 0x80_0000 * 64 && TWO61 == 0x80_0000_0000_0000 * 64;
    assert count == lo + (hi * 0x80_0000 + count / TWO61 * 0x80_0000_0000_0000) * 64;
  }

  /** The bytes of the last, unfinished block. */
  function Tail(m: seq<octet>): (t: seq<octet>)
    ensures |t| == |m| % 64
  {
    m[|m| - |m| % 64..]
  }

  /** Absorbing `m` and then more is the same as finishing the unfinished block first. */
  lemma AbsorbMore(m: seq<octet>, data: seq<octet>)
    ensures Absorb(INITIAL, m + data) == Absorb(Absorb(INITIAL, m), Tail(m) + data)
  {
    var whole := m[..|m| - |m| % 64];
    assert m == whole + Tail(m) && m + data == whole + (Tail(m) + data);
    AbsorbConcat(INITIAL, whole, Tail(m));
    AbsorbConcat(INITIAL, whole, Tail(m) + data);
  }

  lemma AbsorbShort(r: Regs, t: seq<octet>)
    requires |t| < 64
    ensures Absorb(r, t) == r
  {
  }

  class Context {
    var lo: nat
    var hi: nat
    var a: word
    var b: word
    var c: word
    var d: word
    const buffer: array<octet>
    /** Everything absorbed so far. */
    ghost var msg: seq<octet>

    function Registers(): Regs
      reads `a, `b, `c, `d
    {
      Regs(a, b, c, d)
    }

    /** Registers and buffer stand for having absorbed `m`. */
    ghost predicate Holds(m: seq<octet>)
      reads `a, `b, `c, `d, buffer
    {
      && buffer.Length == 64
      && Registers() == Absorb(INITIAL, m)
      && buffer[..|m| % 64] == Tail(m)
    }

    /** `lo` and `hi` are the message length modulo 2^61, in 29 and 32 bits. */
    ghost predicate Counts(n: nat)
      reads `lo, `hi
    {
      lo < TWO29 && hi < TWO32 && lo + hi * TWO29 == n % TWO61
    }

    ghost predicate Valid()
      reads this, buffer
    {
      Holds(msg) && Counts(|msg|)
    }

    /** MD5_Init. */
    constructor ()
      ensures Valid() && msg == [] && fresh(buffer)
    {
      a, b, c, d := 0x67452301, 0xefcdab89, 0x98badcfe, 0x10325476;
      lo, hi := 0, 0;
      buffer := new octet[64];
      msg := [];
    }

    /** One or more whole blocks; the counter is left alone. */
    method Body(data: seq<octet>)
      requires 0 < |data| && |data| % 64 == 0
      modifies `a, `b, `c, `d
      ensures Registers() == Absorb(old(Registers()), data)
    {
      hide Compress;
      var r := Registers();
      var i := 0;
      while i < |data|
        invariant i <= |data| && i % 64 == 0
        invariant Absorb(r, data[i..]) == Absorb(old(Registers()), data)
      {
        var block := data[i..i + 64];
        assert data[i..][..64] == block && data[i..][64..] == data[i + 64..];
        r := OneBlock(r, block);
        i := i + 64;
      }
      AbsorbShort(r, data[i..]);
      a, b, c, d := r.a, r.b, r.c, r.d;
    }

    static method OneBlock(saved: Regs, block: seq<octet>) returns (r: Regs)
      requires |block| == 64
      ensures r == Compress(saved, block)
    {
      hide Operations, WordOf, SetWord, Plus;
      var x := seq(16, k requires 0 <= k < 16 =>
                     SetWord(block[4 * k], block[4 * k + 1], block[4 * k + 2], block[4 * k + 3]));
      forall k | 0 <= k < 16
        ensures x[k] == Words(block)[k]
      {
        SetWordIsWordOf(block[4 * k], block[4 * k + 1], block[4 * k + 2], block[4 * k + 3]);
      }
      assert x == Words(block);
      var q := Rounds(saved, x);
      r := Regs(Plus(q.a, saved.a), Plus(q.b, saved.b), Plus(q.c, saved.c), Plus(q.d, saved.d));
    }

    /** memcpy into the buffer. */
    method CopyIn(at: nat, s: seq<octet>)
      requires at + |s| <= buffer.Length
      modifies buffer
      ensures buffer[..] == old(buffer[..at]) + s + old(buffer[at + |s|..])
    {
      forall i | 0 <= i < |s| {
        buffer[at + i] := s[i];
      }
    }

    /** The counting half of MD5_Update. */
    method Count(size: nat)
      requires Counts(|msg|)
      modifies `lo, `hi
      ensures Counts(|msg| + size)
    {
      CounterAdds(lo, hi, size, |msg|);
      var savedLo := lo;
      lo := (savedLo + size) % TWO29;
      if lo < savedLo {
        hi := (hi + 1) % TWO32;
      }
      hi := (hi + size / TWO29) % TWO32;
    }

    /** The buffering half of MD5_Update; `used` bytes are waiting. */
    method Take(used: nat, data: seq<octet>)
      requires Holds(msg) && used == |msg| % 64
      modifies `a, `b, `c, `d, buffer
      ensures Holds(msg + data)
    {
      hide Absorb, Tail, Compress;
      AbsorbMore(msg, data);
      var rest := data;
      if 0 < used {
        var free := 64 - used;
        if |data| < free {
          CopyIn(used, data);
          AbsorbShort(Registers(), Tail(msg) + data);
          TailShort(msg, data);
          return;
        }
        CopyIn(used, data[..free]);
        ghost var before := Registers();
        Body(buffer[..]);
        assert buffer[..] == Tail(msg) + data[..free];
        rest := data[free..];
        assert Tail(msg) + data == buffer[..] + rest;
        AbsorbConcat(before, buffer[..], rest);
      } else {
        assert Tail(msg) + data == data;
      }
      assert Absorb(Registers(), rest) == Absorb(INITIAL, msg + data);
      TakeBlocks(rest);
      TailLong(msg, data, rest);
    }

    /** The part of MD5_Update behind the waiting bytes: whole blocks straight from the input, the
        rest into the buffer. */
    method TakeBlocks(rest: seq<octet>)
      requires buffer.Length == 64
      modifies `a, `b, `c, `d, buffer
      ensures Registers() == Absorb(old(Registers()), rest) && buffer[..|rest| % 64] == Tail(rest)
    {
      var whole := |rest| - |rest| % 64;
      assert rest == rest[..whole] + rest[whole..];
      AbsorbConcat(Registers(), rest[..whole], rest[whole..]);
      if 64 <= |rest| {
        Body(rest[..whole]);
      } else {
        assert rest[..whole] == [];
        AbsorbShort(Registers(), rest[..whole]);
      }
      AbsorbShort(Registers(), rest[whole..]);
      CopyIn(0, rest[whole..]);
    }

    /** MD5_Update: however the message is cut into calls, only the whole message matters. */
    method Update(data: seq<octet>)
      requires Valid()
      modifies this, buffer
      ensures Valid() && msg == old(msg) + data
    {
      hide Holds;
      CountModBlock(lo, hi, |msg|);
      var used := lo % 64;
      Count(|data|);
      Take(used, data);
      msg := msg + data;
    }

    /** The 0x80 byte and zeros of MD5_Final, over two blocks when the length no longer fits. */
    method Pad(used0: nat)
      requires Holds(msg) && used0 == |msg| % 64
      modifies `a, `b, `c, `d, buffer
      ensures Holds(msg + Padding(|msg|))
    {
      hide Absorb, Compress, Padding, Tail;
      ghost var padded, all := msg + Padding(|msg|), Tail(msg) + Padding(|msg|);
      AbsorbMore(msg, Padding(|msg|));
      PaddingFits(|msg|);
      PaddedTail(Tail(msg), |msg|);
      TailOfPadded(msg, if |all| == 56 then all else all[64..]);
      buffer[used0] := 0x80;
      assert buffer[..used0 + 1] == Tail(msg) + [0x80];
      var used, free := used0 + 1, 64 - (used0 + 1);
      if free < 8 {
        FillZeros(used, free);
        assert buffer[..] == all[..64];
        ghost var before := Registers();
        Body(buffer[..]);
        assert all == buffer[..] + all[64..];
        AbsorbConcat(before, buffer[..], all[64..]);
        used, free := 0, 64;
      }
      assert Absorb(INITIAL, padded) == Absorb(Registers(), Tail(padded));
      ClearTo56(used, free, Tail(padded));
      AbsorbShort(Registers(), Tail(padded));
    }

    /** The zeros in front of the length bytes; together with the first `used` bytes they are `tail`. */
    method ClearTo56(used: nat, free: nat, ghost tail: seq<octet>)
      requires buffer.Length == 64 && used <= 56 && free == 64 - used
      requires tail == buffer[..used] + seq(free - 8, _ => 0)
      modifies buffer
      ensures |tail| == 56 && buffer[..56] == tail
    {
      FillZeros(used, free - 8);
    }

    /** The eight length bytes of MD5_Final: the low part shifted left by three, then the high part. */
    method Trailer()
      requires buffer.Length == 64 && lo < TWO29 && hi < TWO32
      modifies buffer, `lo
      ensures buffer[..] == old(buffer[..56]) + TrailerBytes(old(lo) * 8, hi)
    {
      hide TrailerBytes;
      lo := lo * 8 % TWO32;
      CopyIn(56, TrailerBytes(lo, hi));
    }

    /** MD5_Final: the digest of everything absorbed, and a wiped context. */
    method Final() returns (result: seq<octet>)
      requires Valid()
      modifies this, buffer
      ensures result == Digest(msg) && msg == old(msg)
      ensures lo == hi == 0 && Registers() == Regs(0, 0, 0, 0) && buffer[..] == seq(64, _ => 0)
    {
      hide Absorb, Padding, LengthBytes, TrailerBytes, Tail, Octets;
      CountModBlock(lo, hi, |msg|);
      ghost var padded := msg + Padding(|msg|);
      PaddingFits(|msg|);
      Pad(lo % 64);
      TrailerIsLength(lo, hi, |msg|);
      AbsorbMore(padded, LengthBytes(8 * |msg|));
      ghost var last := buffer[..56];
      Trailer();
      assert buffer[..] == Tail(padded) + LengthBytes(8 * |msg|);
      Body(buffer[..]);
      result := Octets(a) + Octets(b) + Octets(c) + Octets(d);
      lo, hi, a, b, c, d := 0, 0, 0, 0, 0, 0;
      FillZeros(0, 64);
    }

    /** memset to zero. */
    method FillZeros(at: nat, n: nat)
      requires at + n <= buffer.Length
      modifies buffer
      ensures buffer[..] == old(buffer[..at]) + seq(n, _ => 0) + old(buffer[at + n..])
    {
      forall i | 0 <= i < n {
        buffer[at + i] := 0;
      }
    }
  }

  lemma TailShort(m: seq<octet>, data: seq<octet>)
    requires |m| % 64 + |data| < 64
    ensures Tail(m + data) == Tail(m) + data
  {
    assert |m + data| % 64 == |m| % 64 + |data|;
  }

  lemma TailLong(m: seq<octet>, data: seq<octet>, rest: seq<octet>)
    requires |rest| <= |data| && rest == data[|data| - |rest|..] && (|m| + |data| - |rest|) % 64 == 0
    ensures Tail(m + data) == Tail(rest)
  {
    var q := (|m| + |data| - |rest|) / 64;
    ModOfMultiple(|rest|, q, 64);
  }

  /** The padding reaches eight bytes short of a whole block. */
  lemma PaddingFits(n: nat)
    ensures (n + |Padding(n)|) % 64 == 56
    ensures n % 64 + |Padding(n)| == if n % 64 < 56 then 56 else 120
  {
  }

  /** Where the padding behind the waiting bytes `t` is cut into blocks. */
  lemma PaddedTail(t: seq<octet>, n: nat)
    requires |t| == n % 64
    ensures var all := t + Padding(n);
            if |t| < 56 then all == t + [0x80] + seq(55 - |t|, _ => 0)
            else |all| == 120 && all[..64] == t + [0x80] + seq(63 - |t|, _ => 0) && all[64..] == seq(56, _ => 0)
  {
    PaddingFits(n);
    assert |Padding(n)| == 1 + (55 - n) % 64;
    assert forall i | 1 <= i < |Padding(n)| :: Padding(n)[i] == 0;
  }

  lemma TailOfPadded(m: seq<octet>, last: seq<octet>)
    requires var all := Tail(m) + Padding(|m|); last == if |all| == 56 then all else if 64 <= |all| then all[64..] else []
    ensures Tail(m + Padding(|m|)) == last
  {
    PaddingFits(|m|);
    var pad := Padding(|m|);
    var all := Tail(m) + pad;
    assert m + pad == m[..|m| - |m| % 64] + all;
  }

  function TrailerBytes(low: nat, high: nat): (r: seq<octet>)
    ensures |r| == 8
  {
    [ByteOf(low, 1), ByteOf(low, 0x100), ByteOf(low, 0x1_0000), ByteOf(low, 0x100_0000),
     ByteOf(high, 1), ByteOf(high, 0x100), ByteOf(high, 0x1_0000), ByteOf(high, 0x100_0000)]
  }

  lemma DivOfMultiple(x: int, q: int, m: nat)
    requires 0 < m
    ensures (x + q * m) / m == x / m + q
  {
    ModOfMultiple(x, q, m);
    var n := x + q * m;
    assert (n / m - x / m - q) * m == 0;
    NoZeroFactor(n / m - x / m - q, m);
  }

  lemma NoZeroFactor(d: int, m: nat)
    requires 0 < m && d * m == 0
    ensures d == 0
  {
    Grows(d, m);
  }

  lemma LowByte(low: nat, z: nat, weight: nat, k: nat)
    requires 0 < weight && k * 0x100 * weight == TWO32
    ensures ByteOf(low + z * TWO32, weight) == ByteOf(low, weight)
  {
    assert z * TWO32 == z * k * 0x100 * weight;
    DivOfMultiple(low, z * k * 0x100, weight);
    ModOfMultiple(low / weight, z * k, 0x100);
  }

  lemma LowBytes(low: nat, z: nat)
    ensures ByteOf(low + z * TWO32, 1) == ByteOf(low, 1)
    ensures ByteOf(low + z * TWO32, 0x100) == ByteOf(low, 0x100)
    ensures ByteOf(low + z * TWO32, 0x1_0000) == ByteOf(low, 0x1_0000)
    ensures ByteOf(low + z * TWO32, 0x100_0000) == ByteOf(low, 0x100_0000)
  {
    hide ByteOf;
    LowByte(low, z, 1, 0x100_0000);
    LowByte(low, z, 0x100, 0x1_0000);
    LowByte(low, z, 0x1_0000, 0x100);
    LowByte(low, z, 0x100_0000, 1);
  }

  lemma HighBytes(low: nat, high: nat)
    requires low < TWO32
    ensures ByteOf(low + high * TWO32, 0x1_0000_0000) == ByteOf(high, 1)
    ensures ByteOf(low + high * TWO32, 0x100_0000_0000) == ByteOf(high, 0x100)
    ensures ByteOf(low + high * TWO32, 0x1_0000_0000_0000) == ByteOf(high, 0x1_0000)
    ensures ByteOf(low + high * TWO32, 0x100_0000_0000_0000) == ByteOf(high, 0x100_0000)
  {
    var n := low + high * TWO32;
    assert n / TWO32 == high;
    assert n / 0x100_0000_0000 == high / 0x100;
    assert n / 0x1_0000_0000_0000 == high / 0x1_0000;
    assert n / 0x100_0000_0000_0000 == high / 0x100_0000;
  }

  /** The split counter, shifted left by three, spells the bit length modulo 2^64. */
  lemma TrailerIsLength(lo: nat, hi: nat, count: nat)
    requires lo < TWO29 && hi < TWO32 && lo + hi * TWO29 == count % TWO61
    ensures TrailerBytes(lo * 8, hi) == LengthBytes(8 * count)
  {
    hide ByteOf;
    var high := hi + count / TWO61 * TWO32;
    assert 8 * count == lo * 8 + high * TWO32;
    LowBytes(lo * 8, high);
    HighBytes(lo * 8, high);
    LowBytes(hi, count / TWO61);
  }

  /** A context is determined by what it has absorbed: registers, counter and waiting bytes. */
  lemma SameMessageSameState(x: Context, y: Context)
    requires x.Valid() && y.Valid() && x.msg == y.msg
    ensures x.Registers() == y.Registers() && x.lo == y.lo && x.hi == y.hi
    ensures x.lo % 64 == |x.msg| % 64 && x.buffer[..x.lo % 64] == y.buffer[..y.lo % 64]
  {
    CountModBlock(x.lo, x.hi, |x.msg|);
    CountModBlock(y.lo, y.hi, |y.msg|);
  }

  function Joined(chunks: seq<seq<octet>>): seq<octet> {
    if chunks == [] then [] else Joined(chunks[..|chunks| - 1]) + chunks[|chunks| - 1]
  }

  /** Any sequence of updates absorbs the concatenation. */
  method UpdateAll(ctx: Context, chunks: seq<seq<octet>>)
    requires ctx.Valid()
    modifies ctx, ctx.buffer
    ensures ctx.Valid() && ctx.msg == old(ctx.msg) + Joined(chunks)
  {
    hide Context.Holds, Context.Counts;
    for i := 0 to |chunks|
      invariant ctx.Valid() && ctx.msg == old(ctx.msg) + Joined(chunks[..i])
    {
      ctx.Update(chunks[i]);
      assert chunks[..i + 1][..i] == chunks[..i];
    }
    assert chunks[..|chunks|] == chunks;
  }

  /** The character of a four-bit value. */
  function Hexit(n: octet): char {
    if n == 0 then '0' else if n == 1 then '1' else if n == 2 then '2' else if n == 3 then '3'
    else if n == 4 then '4' else if n == 5 then '5' else if n == 6 then '6' else if n == 7 then '7'
    else if n == 8 then '8' else if n == 9 then '9' else if n == 10 then 'a' else if n == 11 then 'b'
    else if n == 12 then 'c' else if n == 13 then 'd' else if n == 14 then 'e' else 'f'
  }

  predicate IsHexit(c: char) {
    '0' <= c <= '9' || 'a' <= c <= 'f'
  }

  /** Two hexits a byte, high half first. */
  function Hex(o: seq<octet>): (h: string)
    ensures |h| == 2 * |o|
    ensures forall c | c in h :: IsHexit(c)
  {
    if o == [] then "" else Hex(o[..|o| - 1]) + [Hexit(o[|o| - 1] >> 4), Hexit(o[|o| - 1] & 0x0F)]
  }

  lemma HexitInjective(m: octet, n: octet)
    requires m < 16 && n < 16 && Hexit(m) == Hexit(n)
    ensures m == n
  {
  }

  lemma HalvesMakeTheByte(m: octet, n: octet)
    requires m >> 4 == n >> 4 && m & 0x0F == n & 0x0F
    ensures m == n
  {
  }

  lemma HalvesAreSmall(m: octet)
    ensures m >> 4 < 16 && m & 0x0F < 16
  {
  }

  lemma HexitsMakeTheByte(m: octet, n: octet)
    requires Hexit(m >> 4) == Hexit(n >> 4) && Hexit(m & 0x0F) == Hexit(n & 0x0F)
    ensures m == n
  {
    hide Hexit;
    HalvesAreSmall(m);
    HalvesAreSmall(n);
    HexitInjective(m >> 4, n >> 4);
    HexitInjective(m & 0x0F, n & 0x0F);
    HalvesMakeTheByte(m, n);
  }

  /** The hexits lose nothing: they are the same only for the same bytes. */
  lemma {:induction false} HexInjective(o: seq<octet>, p: seq<octet>)
    requires Hex(o) == Hex(p)
    ensures o == p
  {
    assert |Hex(o)| == |Hex(p)|;
    if o != [] {
      hide Hexit;
      var m, n := o[|o| - 1], p[|p| - 1];
      var h := Hex(o);
      assert h[..|h| - 2] == Hex(o[..|o| - 1]) && h[..|h| - 2] == Hex(p[..|p| - 1]);
      HexInjective(o[..|o| - 1], p[..|p| - 1]);
      assert h[|h| - 2] == Hexit(m >> 4) == Hexit(n >> 4) && h[|h| - 1] == Hexit(m & 0x0F) == Hexit(n & 0x0F);
      HexitsMakeTheByte(m, n);
      assert o == o[..|o| - 1] + [m] && p == p[..|p| - 1] + [n];
    }
  }

  /** mongo_util_md5_hex: the hexits of the MD5 of section 3 of RFC 1321, for every input. */
  method Md5Hex(s: seq<octet>) returns (h: string)
    ensures h == Hex(Digest(s)) && |h| == 32
  {
    hide Hexit, Digest, Context.Holds, Context.Counts;
    var ctx := new Context();
    ctx.Update(s);
    assert ctx.msg == s;
    var digest := ctx.Final();
    h := "";
    for i := 0 to 16
      invariant h == Hex(digest[..i])
    {
      h := h + [Hexit(digest[i] >> 4), Hexit(digest[i] & 0x0F)];
      assert digest[..i + 1][..i] == digest[..i];
    }
    assert digest[..16] == digest;
  }
}
