/** The device under a stream: what a stream's `ops` table reads, writes and seeks.  How much one
    call moves is chosen by the device, not by the caller. */
module Devices {
  import opened Files

  datatype Whence = FromStart | FromCursor | FromEnd

  /** The offset that a seek asks for. */
  function Goal(f: File, delta: int, whence: Whence): int {
    match whence
    case FromStart => delta
    case FromCursor => f.pos + delta
    case FromEnd => |f.data| + delta
  }

  /** How a device answers a seek: a memory buffer refuses to go past its end and then reports
      offset -1, a descriptor leaves the caller's offset alone when it refuses, and a FILE* reports
      wherever it stands. */
  datatype Kind = Memory | Descriptor | StdFile

  class Device {
    const kind: Kind
    /** A seek operation exists and has not been disabled. */
    const seekable: bool
    /** Never refuses a transfer: moves at least one byte whenever there is one to move, takes every
        byte offered to it, and flags the end of the file on an empty read. */
    const dependable: bool

    var data: seq<byte>
    var offset: nat
    /** What a device without seeking has been sent: its two directions are separate. */
    var sent: seq<byte>
    /** How often the device may still answer "not now" without raising the end-of-file flag. */
    var patience: nat
    /** How often the device has been read. */
    ghost var calls: nat

    constructor (kind: Kind, seekable: bool, dependable: bool, data: seq<byte>, patience: nat)
      ensures this.kind == kind && this.seekable == seekable && this.dependable == dependable
      ensures this.data == data && offset == 0 && sent == []
    {
      this.kind, this.seekable, this.dependable := kind, seekable, dependable;
      this.data, this.offset, this.sent, this.patience := data, 0, [], patience;
      calls := 0;
    }

    /** The offsets a seek can reach. */
    predicate Accepts(target: int)
      reads this
    {
      0 <= target && (kind == Memory ==> target <= |data|)
    }

    /** `s` is what the device holds at `p`. */
    ghost predicate Holds(p: int, s: seq<byte>)
      reads this`data
    {
      s != [] ==> 0 <= p && p + |s| <= |data| && s == data[p..p + |s|]
    }

    lemma HoldsNothing(p: int)
      ensures Holds(p, [])
    {
    }

    lemma HoldsInside(p: int, s: seq<byte>)
      requires Holds(p, s)
      ensures s == [] || (0 <= p && p + |s| <= |data|)
    {
    }

    lemma HoldsSplit(p: int, s: seq<byte>, n: nat)
      requires Holds(p, s) && n <= |s|
      ensures Holds(p, s[..n]) && Holds(p + n, s[n..])
    {
      if s != [] {
        assert data[p..p + |s|][..n] == data[p..p + n] && data[p..p + |s|][n..] == data[p + n..p + |s|];
      }
    }

    lemma HoldsSame(p: int, s: seq<byte>, n: nat, t: seq<byte>)
      requires Holds(p, s) && Holds(p, t) && |t| == n <= |s|
      ensures t == s[..n]
    {
    }

    lemma HoldsIsPrefix(p: nat, s: seq<byte>)
      requires Holds(p, s)
      ensures s <= File(data, p).Rest()
      ensures |data| <= p + |s| ==> s == File(data, p).Rest()
    {
    }

    lemma HoldsConcat(p: int, s: seq<byte>, t: seq<byte>)
      requires Holds(p, s) && Holds(p + |s|, t)
      ensures Holds(p, s + t)
    {
      if s == [] {
        assert s + t == t;
      } else if t == [] {
        assert s + t == s;
      } else {
        assert data[p..p + |s + t|] == data[p..p + |s|] + data[p + |s|..p + |s| + |t|];
      }
    }

    predicate AtEnd()
      reads this
    {
      |data| <= offset
    }

    /** One read call: `None` is the source's -1.  `eof` is the stream's flag, which the device may
        set only at its end or on an error. */
    method Read(count: nat, eofBefore: bool) returns (got: Option<seq<byte>>, eof: bool)
      modifies `offset, `patience, `calls
      ensures calls == old(calls) + 1
      ensures got.None? && !eof ==> patience < old(patience)
      ensures patience <= old(patience)
      ensures got.Some? ==> |got.value| <= count && offset == old(offset) + |got.value|
      ensures got.Some? ==> Holds(old(offset), got.value)
      ensures got.None? ==> offset == old(offset) && !dependable
      ensures dependable && eof ==> eofBefore || AtEnd()
      ensures dependable && 0 < count && got.value == [] ==> AtEnd() && eof
    {
      calls := calls + 1;
      var available := if offset <= |data| then Min(count, |data| - offset) else 0;
      var n: int :| -1 <= n <= available && (dependable ==> 0 <= n && (0 < available ==> 0 < n));
      if n < 0 {
        got := None;
        var flag: bool :| patience == 0 ==> flag;
        eof := flag;
        if !eof {
          patience := patience - 1;
        }
      } else {
        got := Some(if n == 0 then [] else data[offset..offset + n]);
        offset := offset + n;
        var flag: bool :| dependable ==> (flag ==> eofBefore || |data| <= offset) && (0 < count && n == 0 ==> flag);
        eof := flag;
      }
    }

    /** One write call; a short count may be 0. */
    method Write(s: seq<byte>) returns (n: nat)
      modifies this`data, this`offset, this`sent
      ensures n <= |s| && (dependable ==> n == |s|)
      ensures seekable ==> data == Overwrite(old(data), old(offset), s[..n])
                           && offset == old(offset) + n && sent == old(sent)
      ensures !seekable ==> data == old(data) && offset == old(offset) && sent == old(sent) + s[..n]
    {
      n :| 0 <= n <= |s| && (dependable ==> n == |s|);
      if seekable {
        data, offset := Overwrite(data, offset, s[..n]), offset + n;
      } else {
        sent := sent + s[..n];
      }
    }

    /** The seek operation: `position` is the caller's offset, overwritten or not as `kind` says. */
    method Seek(whence: Whence, delta: int, positionBefore: int, eofBefore: bool) returns (ok: bool, position: int, eof: bool)
      modifies this`offset
      ensures ok == old(Accepts(Goal(File(data, offset), delta, whence)))
      ensures ok ==> position == offset == old(Goal(File(data, offset), delta, whence)) && eof == (eofBefore && kind != Memory)
      ensures !ok ==> eof == eofBefore
      ensures !ok && kind == Memory ==> position == -1 && (offset == 0 || offset == |data|)
      ensures !ok && kind == Descriptor ==> position == positionBefore && offset == old(offset)
      ensures !ok && kind == StdFile ==> position == offset == old(offset)
    {
      var target := Goal(File(data, offset), delta, whence);
      ok := Accepts(target);
      position, eof := positionBefore, eofBefore;
      if ok {
        offset, position := target, target;
        eof := eof && kind != Memory;
      } else if kind == Memory {
        offset := if 0 <= target || whence == FromStart then |data| else 0;
        position := -1;
      } else if kind == StdFile {
        position := offset;
      }
    }
  }
}
