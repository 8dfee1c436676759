/** The buffered stream layer: a read-ahead buffer over a device that has an offset of its own. */
module Streams {
  import opened Files
  import opened Devices
  import opened Search

  const LF: byte := 10
  const CR: byte := 13

  /** The two line-ending flags of a stream. */
  datatype EolFlags = EolFlags(detect: bool, mac: bool)

  /** php_stream_locate_eol: where a line ends in `s`, and the flags afterwards. */
  function LocateEol(f: EolFlags, s: seq<byte>): (r: (EolFlags, Option<nat>))
    ensures r.1.Some? ==> r.1.value < |s|
    ensures !f.detect ==> r == (f, IndexOf(s, if f.mac then CR else LF))
    ensures f.detect && r.1.None? ==> r.0 == f && NoEol(s)
    ensures f.detect && r.1.Some? ==>
              && (s[r.1.value] == CR || s[r.1.value] == LF) && EolLast(s[..r.1.value + 1])
              && r.0 == EolFlags(false, f.mac || s[r.1.value] == CR)
  {
    if f.detect then
      var cr, lf := IndexOf(s, CR), IndexOf(s, LF);
      if cr.Some? && lf != Some(cr.value + 1) && !(lf.Some? && lf.value < cr.value) then
        (EolFlags(false, true), cr)
      else if lf.Some? then
        (EolFlags(false, f.mac), lf)
      else
        (f, None)
    else
      (f, IndexOf(s, if f.mac then CR else LF))
  }

  /** Neither kind of line end occurs. */
  predicate NoEol(s: seq<byte>) {
    forall i | 0 <= i < |s| :: s[i] != CR && s[i] != LF
  }

  /** No line ends before the last byte, if a CR directly in front of a closing LF belongs to it. */
  predicate EolLast(s: seq<byte>) {
    forall i | 0 <= i < |s| - 1 :: s[i] != LF && (s[i] == CR ==> i == |s| - 2 && s[|s| - 1] == LF)
  }

  lemma EolLastConcat(s: seq<byte>, t: seq<byte>)
    requires NoEol(s)
    ensures EolLast(t) ==> EolLast(s + t)
    ensures NoEol(t) ==> NoEol(s + t)
  {
    assert forall i | |s| <= i < |s + t| :: (s + t)[i] == t[i - |s|];
  }

  /** Detection on the bytes buffered so far, when it detects anything, agrees with detection on the
      whole rest of the file, except exactly when the buffer ends between a CR and the LF that
      belongs to it. */
  lemma EolDetectionAcrossChunks(f: EolFlags, s: seq<byte>, rest: seq<byte>)
    requires f.detect && s <= rest && LocateEol(f, s).1.Some?
    ensures LocateEol(f, s) == LocateEol(f, rest) <==>
            !(IndexOf(s, CR) == Some(|s| - 1) && IndexOf(s, LF).None? && |s| < |rest| && rest[|s|] == LF)
  {
    var cr, lf := IndexOf(s, CR), IndexOf(s, LF);
    var crAll, lfAll := IndexOf(rest, CR), IndexOf(rest, LF);
    hide Find, FindFrom;
    IndexOfInPrefix(s, rest, CR);
    IndexOfInPrefix(s, rest, LF);
  }

  lemma IndexOfInPrefix(s: seq<byte>, rest: seq<byte>, b: byte)
    requires s <= rest
    ensures IndexOf(s, b).Some? ==> IndexOf(rest, b) == IndexOf(s, b)
    ensures IndexOf(s, b).None? && IndexOf(rest, b).Some? ==> |s| <= IndexOf(rest, b).value
    ensures IndexOf(s, b).None? && |s| < |rest| && rest[|s|] == b ==> IndexOf(rest, b) == Some(|s|)
  {
    hide Find, FindFrom;
    var i := IndexOf(s, b);
    if i.Some? {
      assert rest[i.value] == b;
    }
  }

  /** The line at the start of `rest`: through its first `e`, or all of it, cut to `limit - 1` bytes
      when the caller gave a buffer of `limit` bytes. */
  function LineOf(rest: seq<byte>, e: byte, limit: Option<nat>): seq<byte> {
    var k := IndexOf(rest, e);
    var n := if k.Some? then k.value + 1 else |rest|;
    rest[..if limit.Some? then Max(0, Min(n, limit.value - 1)) else n]
  }

  /** Every `e` in `s` is its last byte. */
  predicate NoEarlierEol(s: seq<byte>, e: byte) {
    forall i | 0 <= i < |s| - 1 :: s[i] != e
  }

  lemma NoEarlierEolConcat(s: seq<byte>, t: seq<byte>, e: byte)
    requires NoEarlierEol(s, e) && NoEarlierEol(t, e) && (s == [] || s[|s| - 1] != e)
    ensures NoEarlierEol(s + t, e)
  {
  }

  /** How much of the buffered bytes goes to the line, and whether that finishes it; `room` is what is
      left of the caller's buffer. */
  function LineCut(f: EolFlags, s: seq<byte>, room: Option<nat>): (r: (nat, bool))
    requires s != [] && room != Some(0)
    ensures r.0 <= |s| && (room.Some? ==> r.0 < room.value && (!r.1 ==> r.0 < room.value - 1))
    ensures !r.1 ==> r.0 == |s|
    ensures !f.detect ==>
              var e := if f.mac then CR else LF;
              && NoEarlierEol(s[..r.0], e)
              && (r.1 <==> (0 < r.0 && s[r.0 - 1] == e) || (room.Some? && r.0 == room.value - 1))
    ensures f.detect ==> EolLast(s[..r.0]) && (!r.1 ==> NoEol(s) && LocateEol(f, s).0 == f)
    ensures f.detect && r.1 ==> (0 < r.0 && (s[r.0 - 1] == CR || s[r.0 - 1] == LF)) || (room.Some? && r.0 == room.value - 1)
  {
    hide IndexOf, LocateEol;
    var eol := LocateEol(f, s).1;
    var n := if eol.Some? then eol.value + 1 else |s|;
    if room.Some? && room.value - 1 <= n then (room.value - 1, true) else (n, eol.Some?)
  }

  /** The buffered bytes finish the line: it ends among them, or they fill the caller's buffer. */
  predicate IsAllHere(f: EolFlags, s: seq<byte>, room: Option<nat>) {
    s != [] && (LocateEol(f, s).1.Some? || (room.Some? && room.value - 1 <= |s|))
  }

  /** A prefix without an early line end that stops at a line end, at the limit, or at the end of the
      text is the line. */
  lemma LineIsDetermined(rest: seq<byte>, e: byte, limit: Option<nat>, s: seq<byte>)
    requires s <= rest && NoEarlierEol(s, e)
    requires limit.Some? ==> |s| <= Max(0, limit.value - 1)
    requires s == rest || (s != [] && s[|s| - 1] == e) || (limit.Some? && |s| == Max(0, limit.value - 1))
    ensures s == LineOf(rest, e, limit)
  {
    hide Find, FindFrom;
    var k := IndexOf(rest, e);
    if k.Some? {
      assert rest[k.value] == e;
    }
    if s != [] {
      assert rest[|s| - 1] == s[|s| - 1];
    }
    assert |s| == |LineOf(rest, e, limit)|;
  }

  /** The line of a prefix is the line of the whole if and only if that line lies inside the prefix. */
  lemma LineInPrefix(s: seq<byte>, rest: seq<byte>, e: byte, limit: Option<nat>)
    requires s <= rest
    ensures LineOf(s, e, limit) == LineOf(rest, e, limit) <==> |LineOf(rest, e, limit)| <= |s|
  {
    hide Find, FindFrom, IndexOf;
    IndexOfInPrefix(s, rest, e);
    if |LineOf(rest, e, limit)| <= |s| {
      assert LineOf(rest, e, limit) <= s;
    }
  }

  /** The line fills what the caller's buffer holds. */
  predicate IsCut(s: seq<byte>, room: Option<nat>) {
    room.Some? && |s| == Max(0, room.value - 1)
  }

  /** What detection makes of the flags when it has given `s`: a line that ends in a CR leaves the flag for
      CR, one that ends in an LF leaves it as it was, both with detection off, and text without a line end
      changes nothing.  Only when the caller's buffer cuts the line may its end have been seen behind the
      cut, and a CR at the cut may be in front of an LF. */
  predicate Detected(f: EolFlags, s: seq<byte>, room: Option<nat>, after: EolFlags) {
    && (after == f || after == EolFlags(false, true) || after == EolFlags(false, f.mac))
    && (NoEol(s) && !IsCut(s, room) ==> after == f)
    && (s != [] && s[|s| - 1] == LF ==> after == EolFlags(false, f.mac))
    && (s != [] && s[|s| - 1] == CR ==> !after.detect && (!IsCut(s, room) ==> after == EolFlags(false, true)))
  }

  /** What the pieces of a line have in common: `f` are the flags when it began and `after` those behind
      the piece, `done` whether the line is finished, and `room` what the caller's buffer holds. */
  predicate LinePart(f: EolFlags, after: EolFlags, s: seq<byte>, done: bool, room: Option<nat>) {
    && (room.Some? ==> |s| < room.value && (!done ==> s == [] || |s| < room.value - 1))
    && (if !f.detect then
          var e := if f.mac then CR else LF;
          && after == f && NoEarlierEol(s, e) && (!done ==> s == [] || s[|s| - 1] != e)
          && (done ==> (s != [] && s[|s| - 1] == e) || IsCut(s, room))
        else
          && EolLast(s) && (!done ==> after == f && NoEol(s))
          && (done ==> (s != [] && (s[|s| - 1] == CR || s[|s| - 1] == LF)) || IsCut(s, room))
          && (done ==> Detected(f, s, room, after)))
  }

  lemma LinePartNothing(f: EolFlags, room: Option<nat>)
    requires room != Some(0)
    ensures LinePart(f, f, [], false, room)
  {
  }

  lemma LinePartDetects(f: EolFlags, after: EolFlags, s: seq<byte>, done: bool, room: Option<nat>)
    requires LinePart(f, after, s, done, room) && f.detect
    ensures Detected(f, s, room, after)
  {
    assert !done && s != [] ==> s[|s| - 1] != LF && s[|s| - 1] != CR;
  }

  /** A piece behind pieces that do not finish the line. */
  lemma LinePartConcat(f: EolFlags, after: EolFlags, out: seq<byte>, s: seq<byte>, done: bool, room: Option<nat>)
    requires LinePart(f, f, out, false, room)
    requires LinePart(f, after, s, done, if room.Some? then Some(room.value - |out|) else None)
    requires !done ==> s != []
    ensures LinePart(f, after, out + s, done, room)
  {
    if !f.detect {
      NoEarlierEolConcat(out, s, if f.mac then CR else LF);
    } else {
      EolLastConcat(out, s);
      NoEolConcat(out, s);
    }
  }

  lemma NoEolConcat(s: seq<byte>, t: seq<byte>)
    requires NoEol(s)
    ensures NoEol(s + t) <==> NoEol(t)
  {
    assert forall i | 0 <= i < |t| :: (s + t)[i + |s|] == t[i];
  }

  /** The cut makes a part of a line, and the flags stay as they are unless it finishes one. */
  lemma LineCutIsPart(f: EolFlags, s: seq<byte>, room: Option<nat>)
    requires s != [] && room != Some(0)
    ensures var (n, done) := LineCut(f, s, room);
            LinePart(f, LocateEol(f, s).0, s[..n], done, room) && (!done ==> s[..n] == s)
  {
    hide LocateEol, LineCut, IndexOf, NoEarlierEol, EolLast, NoEol, Detected;
    var (n, done) := LineCut(f, s, room);
    assert !done ==> s[..n] == s;
    if f.detect {
      CutIsDetected(f, s, room);
    }
  }

  lemma CutIsDetected(f: EolFlags, s: seq<byte>, room: Option<nat>)
    requires s != [] && room != Some(0) && f.detect
    ensures var (n, done) := LineCut(f, s, room); Detected(f, s[..n], room, LocateEol(f, s).0)
  {
    hide LocateEol, IndexOf;
    var eol := LocateEol(f, s).1;
    var (n, done) := LineCut(f, s, room);
    var line := s[..n];
    if eol.Some? && n < eol.value + 1 {
      assert IsCut(line, room);
      assert forall i | 0 <= i < n :: line[i] == s[..eol.value + 1][i];
    }
  }

  lemma CutIsAllHere(f: EolFlags, s: seq<byte>, room: Option<nat>)
    requires s != [] && room != Some(0)
    ensures LineCut(f, s, room).1 == IsAllHere(f, s, room)
  {
    hide IndexOf;
  }

  /** A line read while detection is on ends at a line end of either kind, at the limit, or at the end
      of the text. */
  predicate LineStops(rest: seq<byte>, limit: Option<nat>, s: seq<byte>) {
    || s == rest
    || (s != [] && (s[|s| - 1] == CR || s[|s| - 1] == LF))
    || (limit.Some? && |s| == Max(0, limit.value - 1))
  }

  /** What a record read says about the bytes in front of the cursor. */
  predicate RecordIs(rest: seq<byte>, maxlen: nat, delim: seq<byte>, r: Option<seq<byte>>, cut: bool) {
    match r
    case None => true
    case Some(s) =>
      && s <= rest && |s| <= maxlen
      && (if cut then delim != [] && Find(rest[..Min(maxlen, |rest|)], delim) == Some(|s|)
          else s != [] && (delim != [] ==> Find(s, delim).None?))
  }

  /** A delimiter lies within the next `maxlen` bytes. */
  predicate DelimWithin(rest: seq<byte>, maxlen: nat, delim: seq<byte>) {
    delim != [] && Find(rest[..Min(maxlen, |rest|)], delim).Some?
  }

  /** The record a reader of a plain file expects. */
  function RecordOf(rest: seq<byte>, maxlen: nat, delim: seq<byte>): Option<seq<byte>> {
    var w := rest[..Min(maxlen, |rest|)];
    if DelimWithin(rest, maxlen, delim) then Some(w[..Find(w, delim).value]) else if w == [] then None else Some(w)
  }

  /** A delimiter found among the buffered bytes is the one a plain file would show. */
  lemma RecordFromPrefix(rest: seq<byte>, unread: seq<byte>, maxlen: nat, delim: seq<byte>, found: Option<nat>)
    requires unread <= rest && 0 < maxlen
    requires found == if delim == [] then None else Find(unread[..Min(|unread|, maxlen)], delim)
    ensures found.Some? ==> found.value + |delim| <= |unread|
    ensures found.Some? ==> Find(rest[..Min(maxlen, |rest|)], delim) == found
    ensures found.Some? ==> RecordIs(rest, maxlen, delim, Some(unread[..found.value]), true)
    ensures found.Some? ==> DelimWithin(rest, maxlen, delim)
    ensures found.Some? ==> RecordOf(rest, maxlen, delim) == Some(unread[..found.value])
    ensures found.None? && unread != [] ==> RecordIs(rest, maxlen, delim, Some(unread[..Min(|unread|, maxlen)]), false)
    ensures found.None? && (maxlen <= |unread| || unread == rest) ==>
              && !DelimWithin(rest, maxlen, delim)
              && RecordOf(rest, maxlen, delim) == if unread == [] then None else Some(unread[..Min(|unread|, maxlen)])
  {
    var seen, w := unread[..Min(|unread|, maxlen)], rest[..Min(maxlen, |rest|)];
    assert seen <= w;
    if found.Some? {
      FindInPrefix(seen, w, delim);
      assert w[..found.value] == unread[..found.value];
    }
    if maxlen <= |unread| {
      assert w == seen;
    }
  }

  class Stream {
    const dev: Device
    /** The stream was opened by the plain files wrapper: reads go on until they are satisfied. */
    const plainFiles: bool
    var noBuffer: bool
    var chunkSize: nat
    var detectEol: bool
    var eolMac: bool

    var readbuf: array<byte>
    var readpos: nat
    var writepos: nat
    var position: int
    var eof: bool

    constructor (dev: Device, plainFiles: bool, chunkSize: nat)
      requires 0 < chunkSize && dev.offset == 0
      ensures this.dev == dev && this.plainFiles == plainFiles && this.chunkSize == chunkSize
      ensures Coherent() && HonestEof() && View() == File(dev.data, 0) && fresh(readbuf)
      ensures !noBuffer && !detectEol && !eolMac
    {
      this.dev, this.plainFiles, this.chunkSize := dev, plainFiles, chunkSize;
      noBuffer, detectEol, eolMac, eof := false, false, false, false;
      readbuf := new byte[0];
      readpos, writepos, position := 0, 0, 0;
    }

    predicate Valid()
      reads `readpos, `writepos, `readbuf, `chunkSize
    {
      readpos <= writepos <= readbuf.Length && 0 < chunkSize
    }

    /** The bytes read ahead and not yet handed out. */
    ghost function Unread(): seq<byte>
      requires Valid()
      reads `readpos, `writepos, `readbuf, `chunkSize, readbuf
    {
      readbuf[readpos..writepos]
    }

    /** How many of them there are. */
    function Buffered(): int
      reads `readpos, `writepos
    {
      writepos - readpos
    }

    /** The buffer holds the bytes of the device from `p` up to the device's own offset. */
    ghost predicate BufferAt(p: int)
      reads `readpos, `writepos, `readbuf, `chunkSize, readbuf, dev
    {
      && Valid()
      && 0 <= p
      && dev.offset == p + Buffered()
      && dev.Holds(p, Unread())
    }

    /** The invariant of the layer: the window starts at the position the stream reports. */
    ghost predicate Coherent()
      reads this, readbuf, dev
    {
      BufferAt(position)
    }

    /** The plain file the stream stands for. */
    ghost function View(): File
      requires 0 <= position
      reads this, dev
    {
      File(dev.data, position)
    }

    /** A raised end-of-file flag means that nothing is left on the device. */
    predicate HonestEof()
      reads `eof, dev
    {
      eof ==> dev.AtEnd()
    }

    /** memmove of the unread bytes to the front of the buffer. */
    method MoveDown()
      requires Valid()
      modifies `readpos, `writepos, readbuf
      ensures Valid() && readpos == 0 && Unread() == old(Unread())
    {
      forall i | 0 <= i < readbuf.Length - readpos {
        readbuf[i] := readbuf[i + readpos];
      }
      writepos, readpos := writepos - readpos, 0;
    }

    /** perealloc: one chunk more room, the old contents kept. */
    method Grow(extra: nat)
      requires Valid()
      modifies `readbuf
      ensures Valid() && fresh(readbuf) && readbuf.Length == old(readbuf.Length) + extra
      ensures readbuf[..writepos] == old(readbuf[..writepos])
    {
      var wider := new byte[readbuf.Length + extra];
      forall i | 0 <= i < readbuf.Length {
        wider[i] := readbuf[i];
      }
      readbuf := wider;
    }

    /** The bytes of one device read land behind the unread ones. */
    method Append(got: seq<byte>)
      requires Valid() && writepos + |got| <= readbuf.Length
      modifies `writepos, readbuf
      ensures Valid() && Unread() == old(Unread()) + got
    {
      forall i | 0 <= i < |got| {
        readbuf[writepos + i] := got[i];
      }
      writepos := writepos + |got|;
    }

    /** Makes room for at least one chunk behind the unread bytes. */
    method MakeRoom()
      requires Valid()
      modifies `readbuf, `readpos, `writepos, readbuf
      ensures Valid() && (readbuf == old(readbuf) || fresh(readbuf))
      ensures Unread() == old(Unread()) && chunkSize <= readbuf.Length - writepos
    {
      ghost var unread := Unread();
      if readbuf.Length - writepos < chunkSize {
        MoveDown();
      }
      if readbuf.Length - writepos < chunkSize {
        label L:
        Grow(chunkSize);
        assert Unread() == old@L(readbuf[..writepos])[readpos..];
      }
    }

    /** The unfiltered fill: at most one device read, behind what is already buffered.  `p` is where
        the buffered window starts, which is behind `position` while a read is under way. */
    method Fill(size: nat, ghost p: int)
      requires BufferAt(p)
      modifies `readbuf, `readpos, `writepos, `eof, readbuf, dev`offset, dev`patience, dev`calls
      ensures BufferAt(p) && (readbuf == old(readbuf) || fresh(readbuf))
      ensures old(Unread()) <= Unread()
      ensures size <= old(Buffered()) ==> Buffered() == old(Buffered()) && eof == old(eof)
      ensures dev.calls == old(dev.calls) + if old(Buffered()) < size then 1 else 0
      ensures dev.dependable && old(HonestEof()) ==> HonestEof()
      ensures dev.dependable && old(Buffered()) < size && Buffered() == old(Buffered()) ==> dev.AtEnd() && eof
    {
      hide Device.Holds;
      if Buffered() < size {
        MakeRoom();
        assert Unread() == old(Unread());
        var got, flag := dev.Read(readbuf.Length - writepos, eof);
        eof := flag;
        if got.Some? {
          label L:
          Append(got.value);
          assert Unread() == old(Unread()) + got.value;
          dev.HoldsConcat(p, old(Unread()), got.value);
        }
      }
    }

    lemma BufferedIsNat(p: int)
      requires BufferAt(p)
      ensures 0 <= p && 0 <= Buffered() && 0 < chunkSize && dev.offset == p + Buffered()
    {
    }

    /** memcpy out of the buffer. */
    method Take(n: nat, ghost p: int) returns (s: seq<byte>)
      requires BufferAt(p) && n <= Buffered()
      modifies `readpos
      ensures BufferAt(p + n) && s == old(Unread()[..n]) && Unread() == old(Unread()[n..])
      ensures |s| == n && dev.Holds(p, s) && Buffered() == old(Buffered()) - n
    {
      hide Device.Holds;
      dev.HoldsSplit(p, Unread(), n);
      s := readbuf[readpos..readpos + n];
      readpos := readpos + n;
    }

    /** The read past the buffer: straight from the device, or through one fill. */
    method ReadMore(size: nat, ghost p: int) returns (s: seq<byte>)
      requires BufferAt(p) && Buffered() == 0 && 0 < size
      modifies `readbuf, `readpos, `writepos, `eof, readbuf, dev`offset, dev`patience, dev`calls
      ensures (readbuf == old(readbuf) || fresh(readbuf)) && BufferAt(p + |s|)
      ensures |s| <= size && dev.Holds(p, s) && dev.calls == old(dev.calls) + 1
      ensures dev.dependable && old(HonestEof()) ==> HonestEof()
      ensures dev.dependable && s == [] ==> |dev.data| <= p && eof
    {
      hide Device.Holds;
      dev.HoldsNothing(p);
      if noBuffer || chunkSize == 1 {
        var got, flag := dev.Read(size, eof);
        eof := flag;
        s := if got.Some? then got.value else [];
        assert Unread() == [];
        dev.HoldsNothing(p + |s|);
      } else {
        Fill(size, p);
        s := Take(Min(Buffered(), size), p);
      }
    }

    /** What is buffered, up to `size` bytes. */
    method Drain(size: nat, ghost p: int) returns (s: seq<byte>)
      requires BufferAt(p)
      modifies `readpos
      ensures BufferAt(p + |s|) && |s| == Min(size, old(Buffered())) && dev.Holds(p, s)
      ensures Buffered() == old(Buffered()) - |s|
    {
      hide BufferAt, Device.Holds, Unread;
      BufferedIsNat(p);
      s := Take(Min(Buffered(), size), p);
    }

    /** One turn of the read loop: drain the buffer, then read past it if that was not enough.
        `dry` reports that the second half was tried and brought nothing. */
    method ReadTurn(size: nat, ghost p: int) returns (s: seq<byte>, dry: bool)
      requires BufferAt(p) && 0 < size
      modifies `readbuf, `readpos, `writepos, `eof, readbuf, dev`offset, dev`patience, dev`calls
      ensures (readbuf == old(readbuf) || fresh(readbuf)) && BufferAt(p + |s|)
      ensures |s| <= size && dev.Holds(p, s)
      ensures dev.dependable && old(HonestEof()) ==> HonestEof()
      ensures dry ==> |s| < size && (dev.dependable ==> |dev.data| <= p + |s| && eof)
      ensures !dry ==> s != []
      ensures Min(size, old(Buffered())) <= |s|
      ensures size <= old(Buffered()) ==> eof == old(eof) && Buffered() == old(Buffered()) - size
      ensures dev.calls == old(dev.calls) + if old(Buffered()) < size then 1 else 0
    {
      hide Device.Holds, HonestEof, BufferAt, Unread, Buffered, Valid, Device.AtEnd;
      BufferedIsNat(p);
      var front := Drain(size, p);
      s, dry := front, false;
      if |front| < size {
        var more := ReadMore(size - |front|, p + |front|);
        dev.HoldsConcat(p, front, more);
        assert p + |front| + |more| == p + |front + more|;
        s, dry := front + more, more == [];
      }
    }

    /** A read hands out the next bytes of the file, in order, whatever was buffered before and
        however the device cuts its answers.  What is buffered is handed out without a call of the
        device, and more than one call is made for plain files only. */
    method Read(size: nat) returns (out: seq<byte>)
      requires Coherent()
      modifies `readbuf, `readpos, `writepos, `position, `eof, readbuf, dev`offset, dev`patience, dev`calls
      ensures Coherent() && (readbuf == old(readbuf) || fresh(readbuf))
      ensures |out| <= size && dev.Holds(old(position), out) && position == old(position) + |out|
      ensures dev.dependable && old(HonestEof()) ==> HonestEof()
      ensures dev.dependable && 0 < size && old(position) < |dev.data| ==> out != []
      ensures dev.dependable && plainFiles && |out| < size ==> |dev.data| <= position
      ensures dev.dependable && 0 < size && (out == [] || (plainFiles && |out| < size)) ==> eof
      ensures Min(size, old(Buffered())) <= |out|
      ensures size <= old(Buffered()) ==> eof == old(eof) && Buffered() == old(Buffered()) - size
      ensures size <= old(Buffered()) ==> dev.calls == old(dev.calls)
      ensures old(Buffered()) < size ==>
                old(dev.calls) < dev.calls && (!plainFiles ==> dev.calls == old(dev.calls) + 1)
    {
      hide BufferAt, HonestEof, Device.Holds;
      out := [];
      BufferedIsNat(position);
      dev.HoldsNothing(position);
      if 0 < size {
        var dry;
        out, dry := ReadTurn(size, position);
        while |out| < size && !dry && plainFiles
          invariant |out| <= size && position == old(position)
          invariant readbuf == old(readbuf) || fresh(readbuf)
          invariant BufferAt(position + |out|) && dev.Holds(position, out)
          invariant dev.dependable && old(HonestEof()) ==> HonestEof()
          invariant dry && dev.dependable ==> |dev.data| <= position + |out| && eof
          invariant (!dry ==> out != []) && Min(size, old(Buffered())) <= |out|
          invariant size <= old(Buffered()) ==> eof == old(eof) && Buffered() == old(Buffered()) - size
          invariant old(Buffered()) < size ==> old(dev.calls) < dev.calls
          invariant dev.calls == old(dev.calls) + (if old(Buffered()) < size then 1 else 0) || plainFiles
          invariant size <= old(Buffered()) ==> |out| == size && dev.calls == old(dev.calls)
          decreases size - |out|, !dry
        {
          var s;
          s, dry := ReadTurn(size - |out|, position + |out|);
          dev.HoldsConcat(position, out, s);
          out := out + s;
        }
      }
      position := position + |out|;
    }

    /** Drops the read-ahead bytes and moves the device back to where the stream stands. */
    method DropReadAhead()
      requires Coherent() && dev.seekable
      modifies `readpos, `writepos, `position, `eof, dev`offset
      ensures Coherent() && Buffered() == 0 && position == old(position)
      ensures eof == (old(eof) && (dev.kind != Memory || old(Buffered()) == 0))
    {
      if readpos != writepos {
        readpos, writepos := 0, 0;
        var ok;
        ok, position, eof := dev.Seek(FromStart, position, position, eof);
      }
    }

    /** Writes at the position the stream reports, whatever had been read ahead. */
    method WriteBuffer(s: seq<byte>) returns (n: nat)
      requires Coherent()
      modifies `readpos, `writepos, `position, `eof, dev`data, dev`offset, dev`sent
      ensures Coherent() && n <= |s| && (dev.dependable ==> n == |s|)
      ensures dev.seekable ==> dev.data == Overwrite(old(dev.data), old(position), s[..n])
                               && position == old(position) + n && dev.sent == old(dev.sent)
      ensures !dev.seekable ==> dev.sent == old(dev.sent) + s[..n]
                                && dev.data == old(dev.data) && position == old(position)
      ensures eof == (old(eof) && !(dev.seekable && dev.kind == Memory && 0 < old(Buffered())))
      ensures Buffered() == if dev.seekable then 0 else old(Buffered())
      ensures if dev.seekable then |dev.data| <= position ==> HonestEof() else old(HonestEof()) ==> HonestEof()
    {
      hide Overwrite, Device.Holds, BufferAt, Unread;
      BufferedIsNat(position);
      if dev.seekable {
        DropReadAhead();
      }
      OverwriteNothing(dev.data, position);
      n := 0;
      var stuck := false;
      while n < |s| && !stuck
        invariant n <= |s| && Coherent() && (dev.dependable ==> !stuck)
        invariant dev.seekable ==> dev.data == Overwrite(old(dev.data), old(position), s[..n])
                                   && position == old(position) + n && dev.sent == old(dev.sent) && Buffered() == 0
        invariant !dev.seekable ==> dev.sent == old(dev.sent) + s[..n]
                                    && dev.data == old(dev.data) && position == old(position)
        invariant !dev.seekable && old(HonestEof()) ==> HonestEof()
        invariant Buffered() == if dev.seekable then 0 else old(Buffered())
        invariant eof == (old(eof) && !(dev.seekable && dev.kind == Memory && 0 < old(Buffered())))
        decreases |s| - n, !stuck
      {
        var w := WriteChunk(s[n..], old(dev.data), old(position), s[..n]);
        TakeMore(s, n, w);
        n, stuck := n + w, w == 0;
      }
      BufferedIsNat(position);
    }

    lemma TakeMore(s: seq<byte>, n: nat, w: nat)
      requires n + w <= |s|
      ensures s[..n] + s[n..][..w] == s[..n + w]
    {
    }

    /** One write call of at most a chunk, continuing a write of `done` that started at `at`. */
    method WriteChunk(s: seq<byte>, ghost before: seq<byte>, ghost at: nat, ghost done: seq<byte>) returns (w: nat)
      requires s != [] && Coherent()
      requires dev.seekable ==> Buffered() == 0 && position == at + |done| && dev.data == Overwrite(before, at, done)
      modifies `position, dev`data, dev`offset, dev`sent
      ensures w <= |s| && Coherent() && (dev.dependable ==> 0 < w)
      ensures dev.seekable ==> dev.data == Overwrite(before, at, done + s[..w])
                               && position == old(position) + w && dev.sent == old(dev.sent)
      ensures !dev.seekable ==> dev.sent == old(dev.sent) + s[..w]
                                && dev.data == old(dev.data) && dev.offset == old(dev.offset) && position == old(position)
    {
      hide Overwrite;
      var count := Min(|s|, chunkSize);
      w := dev.Write(s[..count]);
      assert s[..count][..w] == s[..w];
      if dev.seekable {
        position := position + w;
        OverwriteTwice(before, at, done, s[..w]);
      }
    }

    /** The seek ends in the bytes already read ahead, so the device is left alone. */
    predicate SeekInBuffer(delta: int, whence: Whence)
      reads `position, `readpos, `writepos, `noBuffer
    {
      && !noBuffer
      && (match whence
          case FromCursor => 0 < delta <= Buffered()
          case FromStart => position < delta <= position + Buffered()
          case FromEnd => false)
    }

    /** The seek handed down to the device, which drops the read-ahead bytes whatever the answer. */
    method SeekDevice(delta: int, whence: Whence) returns (ok: bool)
      requires Coherent() && dev.seekable
      modifies `readpos, `writepos, `position, `eof, dev`offset
      ensures ok == old(dev.Accepts(Goal(View(), delta, whence)))
      ensures ok ==> Coherent() && position == old(Goal(View(), delta, whence)) && !eof
      ensures Valid() && Buffered() == 0
      ensures !ok ==> (Coherent() && position == old(position) <==> dev.kind != Memory && old(Buffered()) == 0)
      ensures !ok ==> eof == old(eof) && match dev.kind
                       case Memory => position == -1
                       case Descriptor => position == old(position) && dev.offset == old(position + Buffered())
                       case StdFile => Coherent() && position == old(position + Buffered())
    {
      if whence == FromCursor {
        ok, position, eof := dev.Seek(FromStart, position + delta, position, eof);
      } else {
        ok, position, eof := dev.Seek(whence, delta, position, eof);
      }
      if ok {
        eof := false;
      }
      readpos, writepos := 0, 0;
    }

    /** A forward seek on a device that cannot seek: read and throw away. */
    method SkipForward(delta: nat) returns (ok: bool)
      requires Coherent()
      modifies `readbuf, `readpos, `writepos, `position, `eof, readbuf, dev`offset, dev`patience, dev`calls
      ensures Coherent() && (readbuf == old(readbuf) || fresh(readbuf))
      ensures old(position) <= position <= old(position) + delta && (ok <==> position == old(position) + delta)
      ensures position == old(position) || position <= |dev.data|
      ensures ok ==> !eof
      ensures dev.dependable && !ok ==> |dev.data| <= position
      ensures dev.dependable && old(HonestEof()) ==> HonestEof()
    {
      hide BufferAt, HonestEof, Device.Holds;
      var left := delta;
      ok := true;
      while 0 < left && ok
        invariant 0 <= left && position == old(position) + delta - left
        invariant readbuf == old(readbuf) || fresh(readbuf)
        invariant BufferAt(position)
        invariant position == old(position) || position <= |dev.data|
        invariant !ok ==> 0 < left && (dev.dependable ==> |dev.data| <= position)
        invariant dev.dependable && old(HonestEof()) ==> HonestEof()
        decreases left, ok
      {
        var gone := Read(Min(left, 1024));
        dev.HoldsInside(position - |gone|, gone);
        ok, left := gone != [], left - |gone|;
      }
      if ok {
        eof := false;
        NoFlagIsHonest();
      }
    }

    lemma NoFlagIsHonest()
      ensures !eof ==> HonestEof()
    {
    }

    /** Seek.  On a seekable device it succeeds exactly when the device accepts the offset, and then
        the stream stands there.  When the device refuses, the read-ahead bytes are gone: the stream
        is left as it was if and only if nothing had been read ahead and the device is no memory
        buffer.  A device that cannot seek is skipped forward by reading. */
    method Seek(delta: int, whence: Whence) returns (ok: bool)
      requires Coherent()
      modifies `readbuf, `readpos, `writepos, `position, `eof, readbuf, dev`offset, dev`patience, dev`calls
      ensures readbuf == old(readbuf) || fresh(readbuf)
      ensures dev.seekable ==> ok == old(dev.Accepts(Goal(View(), delta, whence)))
      ensures ok ==> Coherent() && position == old(Goal(View(), delta, whence)) && !eof
      ensures ok ==> position == match whence case FromStart => delta case FromCursor => old(position) + delta case FromEnd => |dev.data| + delta
      ensures dev.seekable && !ok ==>
                (Coherent() && position == old(position) <==> dev.kind != Memory && old(Buffered()) == 0)
      ensures dev.seekable && !ok ==>
                Valid() && Buffered() == 0 && eof == old(eof) && match dev.kind
                 case Memory => position == -1
                 case Descriptor => position == old(position) && dev.offset == old(position + Buffered())
                 case StdFile => Coherent() && position == old(position + Buffered())
      ensures !dev.seekable ==> Coherent()
      ensures !dev.seekable && !ok && (whence != FromCursor || delta < 0) ==> position == old(position)
      ensures !dev.seekable && !ok && whence == FromCursor ==> old(position) <= position
      ensures !dev.seekable && dev.dependable && whence == FromCursor && 0 <= delta && !ok ==> |dev.data| <= position
      ensures dev.dependable && old(HonestEof()) && Coherent() ==> HonestEof()
    {
      if SeekInBuffer(delta, whence) {
        SeekBuffered(if whence == FromCursor then delta else delta - position);
        return true;
      }
      if dev.seekable {
        ok := SeekDevice(delta, whence);
      } else if whence == FromCursor && 0 <= delta {
        ok := SkipForward(delta);
      } else {
        ok := false;
      }
    }

    /** The seek that only moves the read position inside the buffer. */
    method SeekBuffered(n: nat)
      requires Coherent() && 0 < n <= Buffered()
      modifies `readpos, `position, `eof
      ensures Coherent() && position == old(position) + n && !eof
      ensures dev.Accepts(position)
    {
      readpos, position, eof := readpos + n, position + n, false;
    }

    function Flags(): EolFlags
      reads `detectEol, `eolMac
    {
      EolFlags(detectEol, eolMac)
    }

    /** The byte that ends a line once detection is over. */
    function EolByte(): byte
      reads `eolMac
    {
      if eolMac then CR else LF
    }

    /** The part of a line that the buffered bytes provide; `room` is what is left of the caller's
        buffer.  `done` when the line is finished. */
    method LinePiece(room: Option<nat>) returns (s: seq<byte>, done: bool)
      requires Coherent() && 0 < Buffered() && room != Some(0)
      modifies `readpos, `position, `detectEol, `eolMac
      ensures Coherent() && position == old(position) + |s| && dev.Holds(old(position), s)
      ensures LinePart(old(Flags()), Flags(), s, done, room)
      ensures !done ==> s != [] && Buffered() == 0
      ensures done == IsAllHere(old(Flags()), old(Unread()), room)
      ensures s + Unread() == old(Unread())
    {
      hide LocateEol, LineCut, LinePart, Device.Holds;
      ghost var unread := Unread();
      LineCutIsPart(Flags(), unread, room);
      CutIsAllHere(Flags(), unread, room);
      var cut := LineCut(Flags(), readbuf[readpos..writepos], room);
      var flags := LocateEol(Flags(), readbuf[readpos..writepos]).0;
      detectEol, eolMac, done := flags.detect, flags.mac, cut.1;
      s := Take(cut.0, position);
      position := position + cut.0;
      assert s == unread[..cut.0];
    }

    /** Reads one line.  With the line ending known, a dependable device makes the line the next line of
        the file if and only if the end-of-file flag was down or the line was read ahead already: a
        raised flag keeps the reader from the device, and hands out what is left in the buffer.  While
        the line ending is still to be detected, the line ends at the first CR or LF, or at an LF
        behind a CR, and settles what the lines behind it end with.  A line that is all there is handed
        out without a call of the device. */
    method GetLine(limit: Option<nat>) returns (line: Option<seq<byte>>)
      requires Coherent()
      modifies `readbuf, `readpos, `writepos, `position, `eof, `detectEol, `eolMac, readbuf, dev`offset, dev`patience, dev`calls
      ensures Coherent() && (readbuf == old(readbuf) || fresh(readbuf)) && line != Some([])
      ensures var s := if line.Some? then line.value else [];
              s <= old(View()).Rest() && position == old(position) + |s|
              && (limit.Some? ==> |s| <= Max(0, limit.value - 1))
              && (!old(detectEol) ==> Flags() == old(Flags()) && NoEarlierEol(s, EolByte()))
              && (!old(detectEol) && old(eof) ==> s == LineOf(old(Unread()), EolByte(), limit))
              && (!old(detectEol) && dev.dependable ==>
                    (s == LineOf(old(View()).Rest(), EolByte(), limit) <==>
                     !old(eof) || |LineOf(old(View()).Rest(), EolByte(), limit)| <= old(Buffered())))
              && (old(detectEol) ==> EolLast(s) && Detected(old(Flags()), s, limit, Flags()))
              && (dev.dependable && s == [] && limit != Some(0) && limit != Some(1) ==> eof)
              && (IsAllHere(old(Flags()), old(Unread()), limit) ==> dev.calls == old(dev.calls))
              && (old(detectEol) && dev.dependable && old(HonestEof()) ==> LineStops(old(View()).Rest(), limit, s))
      ensures dev.dependable && old(HonestEof()) ==> HonestEof()
    {
      hide BufferAt, Device.Holds, NoEarlierEol, EolLast, NoEol, LineOf, Unread, HonestEof, Detected, IsAllHere;
      NoFlagIsHonest();
      UnreadIsFirst(position);
      NothingEnds(limit);
      if limit == Some(0) {
        dev.HoldsNothing(position);
        LineInPrefix(Unread(), View().Rest(), EolByte(), limit);
        return None;
      }
      ghost var unread, rest := Unread(), View().Rest();
      var out, why := LineBytes(limit);
      line := if out == [] then None else Some(out);
      dev.HoldsIsPrefix(old(position), out);
      if old(detectEol) {
        LinePartDetects(old(Flags()), Flags(), out, why, limit);
      } else {
        LineInPrefix(unread, rest, EolByte(), limit);
        if old(eof) {
          LineIsDetermined(unread, EolByte(), limit, out);
        } else if dev.dependable {
          LineIsDetermined(rest, EolByte(), limit, out);
        }
      }
    }

    /** The unread bytes are the first that a plain file would hand out. */
    lemma UnreadIsFirst(p: int)
      requires BufferAt(p)
      ensures 0 <= p && Valid() && |Unread()| == Buffered() && Unread() <= File(dev.data, p).Rest()
    {
      dev.HoldsIsPrefix(p, Unread());
    }

    lemma NothingEnds(limit: Option<nat>)
      ensures NoEarlierEol([], EolByte()) && EolLast([]) && NoEol([])
      ensures Detected(Flags(), [], limit, Flags())
      ensures limit == Some(0) ==> LineOf([], EolByte(), limit) == [] && forall s :: LineOf(s, EolByte(), limit) == []
    {
    }

    /** The loop of the line reader; `full` says that it stopped at a line end or at the limit. */
    method LineBytes(limit: Option<nat>) returns (out: seq<byte>, full: bool)
      requires Coherent() && limit != Some(0)
      modifies `readbuf, `readpos, `writepos, `position, `eof, `detectEol, `eolMac, readbuf, dev`offset, dev`patience, dev`calls
      ensures Coherent() && (readbuf == old(readbuf) || fresh(readbuf))
      ensures dev.Holds(old(position), out) && position == old(position) + |out|
      ensures LinePart(old(Flags()), Flags(), out, full, limit)
      ensures dev.dependable && !full && limit != Some(1) ==> eof
      ensures IsAllHere(old(Flags()), old(Unread()), limit) ==> dev.calls == old(dev.calls)
      ensures dev.dependable && old(HonestEof()) ==> HonestEof() && (!full && limit != Some(1) ==> |dev.data| <= position)
      ensures old(eof) ==> out <= old(Unread()) && (!full ==> out == old(Unread()))
    {
      hide BufferAt, Device.Holds, LinePart, Unread, HonestEof, IsAllHere;
      ghost var f := Flags();
      LinePartNothing(f, limit);
      out, full := [], false;
      dev.HoldsNothing(position);
      UnreadIsFirst(position);
      ghost var all, here := Unread(), IsAllHere(f, Unread(), limit);
      AllHereIsBuffered(limit);
      assert [] + Unread() == all;
      var dry := false;
      while !full && !dry
        invariant Coherent() && Valid() && (readbuf == old(readbuf) || fresh(readbuf))
        invariant dev.Holds(old(position), out) && position == old(position) + |out|
        invariant LinePart(f, Flags(), out, full, limit) && (!full ==> Flags() == f)
        invariant dev.dependable && dry && limit != Some(1) ==> eof
        invariant here ==> dev.calls == old(dev.calls) && !dry && (!full ==> out == [] && Unread() == all && 0 < Buffered())
        invariant old(eof) ==> eof && out + Unread() == all && (dry ==> Unread() == [])
        invariant dev.dependable && old(HonestEof()) ==> HonestEof()
        invariant dev.dependable && old(HonestEof()) && dry && limit != Some(1) ==> |dev.data| <= position
        decreases !full && !dry, Max(0, |dev.data| - position), Buffered() <= 0
      {
        ghost var before := Unread();
        var more;
        more, full, dry := LineTurn(limit, old(position), out);
        UnreadIsFirst(position);
        dev.HoldsInside(old(position), out + more);
        ConcatAssociates(out, more, Unread());
        out := out + more;
      }
      assert old(eof) && dry ==> out + [] == out;
    }

    /** One turn of the loop: a piece from the buffer, or a fill of the empty buffer.  `dry` reports that
        there is nothing more for now. */
    method LineTurn(limit: Option<nat>, ghost start: nat, out: seq<byte>)
      returns (more: seq<byte>, full: bool, dry: bool)
      requires Coherent() && limit != Some(0)
      requires dev.Holds(start, out) && position == start + |out|
      requires LinePart(Flags(), Flags(), out, false, limit)
      modifies `readbuf, `readpos, `writepos, `position, `eof, `detectEol, `eolMac, readbuf, dev`offset, dev`patience, dev`calls
      ensures Coherent() && (readbuf == old(readbuf) || fresh(readbuf))
      ensures dev.Holds(start, out + more) && position == start + |out + more|
      ensures LinePart(old(Flags()), Flags(), out + more, full, limit) && (!full ==> Flags() == old(Flags()))
      ensures dev.dependable && dry && limit != Some(1) ==> eof
      ensures 0 < old(Buffered()) ==> dev.calls == old(dev.calls) && !dry
      ensures 0 < old(Buffered()) && out == [] ==> full == IsAllHere(old(Flags()), old(Unread()), limit)
      ensures old(eof) ==> eof && old(Unread()) == more + Unread() && (dry ==> Unread() == [])
      ensures dev.dependable && old(HonestEof()) ==> HonestEof()
      ensures dev.dependable && old(HonestEof()) && dry && limit != Some(1) ==> |dev.data| <= position
      ensures full || dry || more != [] || (old(Buffered()) <= 0 < Buffered())
    {
      hide BufferAt, Device.Holds, LinePart, Unread, IsAllHere;
      UnreadIsFirst(position);
      LinePartSays(Flags(), Flags(), out, false, limit);
      more, full, dry := [], false, false;
      assert out + [] == out;
      if 0 < Buffered() {
        more, full := LinePiece(if limit.Some? then Some(limit.value - |out|) else None);
        UnreadIsFirst(position);
        dev.HoldsConcat(start, out, more);
        LinePartConcat(old(Flags()), Flags(), out, more, full, limit);
        LinePartSays(old(Flags()), Flags(), out + more, full, limit);
      } else {
        EmptyAtEnd();
        if eof {
          dry := true;
        } else {
          Fill(if limit.Some? then Min(limit.value - |out| - 1, chunkSize) else chunkSize, position);
          UnreadIsFirst(position);
          dry := Buffered() <= 0;
          EmptyAtEnd();
        }
        assert [] + Unread() == Unread();
      }
    }

    lemma AllHereIsBuffered(limit: Option<nat>)
      requires BufferAt(position)
      ensures IsAllHere(Flags(), Unread(), limit) ==> 0 < Buffered()
    {
    }

    lemma LinePartSays(f: EolFlags, after: EolFlags, s: seq<byte>, done: bool, room: Option<nat>)
      requires LinePart(f, after, s, done, room)
      ensures room.Some? ==> |s| < room.value && (!done ==> s == [] || |s| < room.value - 1)
      ensures !done ==> after == f
    {
    }

    lemma EmptyAtEnd()
      requires BufferAt(position)
      ensures 0 <= Buffered() && 0 < chunkSize
      ensures Buffered() <= 0 && dev.AtEnd() ==> |dev.data| <= position
    {
    }

    /** _php_stream_search_delim: the first delimiter in the first `maxlen` buffered bytes that starts
        at `skip` or later.  (memchr serves for one byte and php_memnstr otherwise; both find the
        first occurrence.) */
    method SearchDelim(maxlen: nat, skip: nat, delim: seq<byte>) returns (found: Option<nat>)
      requires Valid() && delim != []
      ensures found == FindFrom(Unread()[..Min(Buffered(), maxlen)], delim, skip)
    {
      var seekLen := Min(Buffered(), maxlen);
      if seekLen <= skip {
        return None;
      }
      found := FindFrom(readbuf[readpos..readpos + seekLen], delim, skip);
      assert readbuf[readpos..readpos + seekLen] == Unread()[..seekLen];
    }

    /** Fills the buffer until the first `maxlen` bytes show a delimiter, or are all there, or the
        device has no more for now.  Each round searches only the bytes that can complete a
        delimiter. */
    method Gather(maxlen: nat, delim: seq<byte>) returns (found: Option<nat>)
      requires Coherent() && 0 < maxlen
      modifies `readbuf, `readpos, `writepos, `eof, readbuf, dev`offset, dev`patience, dev`calls
      ensures Coherent() && (readbuf == old(readbuf) || fresh(readbuf))
      ensures delim != [] ==> found == Find(Unread()[..Min(Buffered(), maxlen)], delim)
      ensures delim == [] ==> found.None?
      ensures dev.dependable && found.None? && Buffered() < maxlen ==> eof && dev.AtEnd()
      ensures dev.dependable && old(HonestEof()) ==> HonestEof()
    {
      hide Find, FindFrom, Device.Holds;
      found := None;
      if delim != [] {
        found := SearchDelim(maxlen, 0, delim);
        FindIsFromStart(Unread()[..Min(Buffered(), maxlen)], delim);
      }
      var buffered, dry := Buffered(), false;
      while found.None? && buffered < maxlen && !dry
        invariant Coherent() && (readbuf == old(readbuf) || fresh(readbuf))
        invariant found.None? ==> buffered == Buffered()
        invariant delim != [] ==> found == Find(Unread()[..Min(Buffered(), maxlen)], delim)
        invariant delim == [] ==> found.None?
        invariant dry ==> dev.dependable ==> eof && dev.AtEnd()
        invariant dev.dependable && old(HonestEof()) ==> HonestEof()
        decreases found.None?, !dry, maxlen - buffered
      {
        ghost var before := Unread()[..Min(Buffered(), maxlen)];
        Fill(buffered + Min(maxlen - buffered, chunkSize), position);
        dry := Buffered() == buffered;
        assert dry ==> Unread()[..Min(Buffered(), maxlen)] == before;
        if !dry && delim != [] {
          var skip := if |delim| - 1 <= buffered then buffered - (|delim| - 1) else 0;
          found := SearchDelim(maxlen, skip, delim);
          ghost var now := Unread()[..Min(Buffered(), maxlen)];
          assert before <= now;
          SkipIsSound(before, now, delim, skip);
        }
        buffered := Buffered();
      }
    }

    /** The first `n` unread bytes, `n` of them being buffered: what the source's php_stream_read
        returns when it needs no device read. */
    method ReadBuffered(n: nat) returns (s: seq<byte>)
      requires Coherent() && n <= Buffered()
      modifies `readbuf, `readpos, `writepos, `position, `eof, readbuf, dev`offset, dev`patience, dev`calls
      ensures Coherent() && (readbuf == old(readbuf) || fresh(readbuf))
      ensures |s| == n && dev.Holds(old(position), s) && position == old(position) + n
      ensures Buffered() == old(Buffered()) - n && eof == old(eof)
      ensures dev.dependable && old(HonestEof()) ==> HonestEof()
    {
      hide BufferAt, Device.Holds, HonestEof;
      s := Read(n);
    }

    /** Reads one record.  Whatever has been read ahead and however the device cuts its answers, a
        record that ended at a delimiter is the text before the first delimiter that lies within the
        next `maxlen` bytes, and the delimiter is consumed with it; any other record holds no
        delimiter.  A dependable device never hides the delimiter, nor the rest of the file. */
    method GetRecord(maxlen: nat, delim: seq<byte>) returns (r: Option<seq<byte>>, cut: bool)
      requires Coherent()
      modifies `readbuf, `readpos, `writepos, `position, `eof, readbuf, dev`offset, dev`patience, dev`calls
      ensures Coherent() && (readbuf == old(readbuf) || fresh(readbuf))
      ensures r.None? ==> position == old(position) && !cut
      ensures RecordIs(old(View()).Rest(), maxlen, delim, r, cut)
      ensures r.Some? ==> position == old(position) + |r.value| + if cut then |delim| else 0
      ensures dev.dependable && 0 < maxlen ==> r == RecordOf(old(View()).Rest(), maxlen, delim)
      ensures dev.dependable && 0 < maxlen ==> cut == DelimWithin(old(View()).Rest(), maxlen, delim)
      ensures dev.dependable && 0 < maxlen && r.None? ==> eof
      ensures dev.dependable && old(HonestEof()) ==> HonestEof()
    {
      hide Find, FindFrom, RecordOf, DelimWithin, Device.Holds;
      if maxlen == 0 {
        return None, false;
      }
      var found := Gather(maxlen, delim);
      ghost var unread, rest := Unread(), View().Rest();
      dev.HoldsIsPrefix(position, unread);
      RecordFromPrefix(rest, unread, maxlen, delim, found);
      var n;
      if found.Some? {
        n := found.value;
      } else if delim == [] && maxlen <= Buffered() {
        n := maxlen;
      } else if (Buffered() < maxlen && !eof) || (Buffered() == 0 && eof) {
        return None, false;
      } else {
        n := Min(Buffered(), maxlen);
      }
      var s := FinishRecord(n, if found.Some? then |delim| else 0);
      r, cut := Some(s), found.Some?;
    }

    /** Hands out `n` buffered bytes and skips the delimiter behind them. */
    method FinishRecord(n: nat, skip: nat) returns (s: seq<byte>)
      requires Coherent() && n + skip <= Buffered()
      modifies `readbuf, `readpos, `writepos, `position, `eof, readbuf, dev`offset, dev`patience, dev`calls
      ensures Coherent() && (readbuf == old(readbuf) || fresh(readbuf))
      ensures s == old(Unread())[..n] && position == old(position) + n + skip && eof == old(eof)
      ensures dev.dependable && old(HonestEof()) ==> HonestEof()
    {
      hide Device.Holds;
      ghost var unread := Unread();
      s := ReadBuffered(n);
      dev.HoldsSame(old(position), unread, n, s);
      ghost var gone := Take(skip, position);
      position := position + skip;
    }
  }
}
