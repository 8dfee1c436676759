/** The memory stream, against a file whose cursor never leaves its contents. */
module MemoryStreams {
  import opened Files
  import opened Devices

  datatype Op =
    | Write(s: seq<byte>)
    | Read(count: nat)
    | Seek(offset: int, whence: Option<Whence>)
    | Truncate(size: nat)

  datatype Outcome = Wrote(n: nat) | Got(s: seq<byte>) | Sought(ok: bool, newOffset: int) | Resized(ok: bool)

  /** What a user can observe: contents and cursor, and the end-of-file flag. */
  datatype State = State(file: File, eof: bool)

  /** Cut off, or filled up with zeros. */
  function Resize(data: seq<byte>, size: nat): (r: seq<byte>)
    ensures |r| == size && forall i | 0 <= i < size :: r[i] == if i < |data| then data[i] else 0
  {
    if size <= |data| then data[..size] else data + seq(size - |data|, _ => 0)
  }

  /** The plain file's answer: a seek succeeds exactly within the contents, and otherwise leaves the
      cursor at the end, or at the start when a relative seek went below it. */
  function Step(readonly: bool, st: State, op: Op): (Outcome, State) {
    var f := st.file;
    match op
    case Write(s) =>
      if readonly then (Wrote(0), st)
      else (Wrote(|s|), st.(file := File(Overwrite(f.data, f.pos, s), f.pos + |s|)))
    case Read(count) =>
      var got := f.Rest()[..Min(count, |f.Rest()|)];
      (Got(got), State(f.Advance(|got|), st.eof || |f.Rest()| <= count))
    case Seek(offset, whence) =>
      if whence.None? then (Sought(false, f.pos), st)
      else
        var goal := Goal(f, offset, whence.value);
        if 0 <= goal <= |f.data| then (Sought(true, goal), State(f.(pos := goal), false))
        else
          var clamped := if goal < 0 && whence.value != FromStart then 0 else |f.data|;
          (Sought(false, -1), st.(file := f.(pos := clamped)))
    case Truncate(size) =>
      if readonly then (Resized(false), st)
      else (Resized(true), st.(file := File(Resize(f.data, size), Min(f.pos, size))))
  }

  /** What a write makes of contents that it starts inside of. */
  lemma IsOverwrite(data: seq<byte>, at: nat, s: seq<byte>, r: seq<byte>)
    requires at <= |data| && |r| == Max(|data|, at + |s|)
    requires forall k | 0 <= k < |r| :: r[k] == if at <= k < at + |s| then s[k - at] else data[k]
    ensures r == Overwrite(data, at, s)
  {
  }

  class MemoryStream {
    const readonly: bool
    var data: array<byte>
    var fpos: nat
    var fsize: nat
    var eof: bool

    constructor (readonly: bool, contents: seq<byte>)
      ensures Valid() && this.readonly == readonly && Now() == State(File(contents, 0), false) && fresh(data)
    {
      this.readonly := readonly;
      data := new byte[|contents|](i requires 0 <= i < |contents| => contents[i]);
      fpos, fsize, eof := 0, |contents|, false;
      new;
      assert data[..fsize] == contents;
    }

    predicate Valid()
      reads this
    {
      fpos <= fsize <= data.Length
    }

    function Now(): State
      requires Valid()
      reads this, data
    {
      State(File(data[..fsize], fpos), eof)
    }

    method Write(buf: seq<byte>) returns (count: nat)
      requires Valid()
      modifies this`data, this`fpos, this`fsize, data
      ensures Valid() && (data == old(data) || fresh(data))
      ensures (Wrote(count), Now()) == Step(readonly, old(Now()), Op.Write(buf))
    {
      hide Overwrite;
      if readonly {
        return 0;
      }
      ghost var before := data[..fsize];
      count := |buf|;
      if fpos + count > fsize {
        var tmp := new byte[fpos + count](i => 0);
        forall i | 0 <= i < fsize {
          tmp[i] := data[i];
        }
        data := tmp;
        fsize := fpos + count;
      }
      forall i | 0 <= i < count {
        data[fpos + i] := buf[i];
      }
      ghost var after := data[..fsize];
      assert forall k | 0 <= k < fsize :: after[k] == if fpos <= k < fpos + count then buf[k - fpos] else before[k];
      IsOverwrite(before, fpos, buf, after);
      fpos := fpos + count;
    }

    method Read(count: nat) returns (buf: seq<byte>)
      requires Valid()
      modifies this`fpos, this`eof
      ensures Valid() && (Got(buf), Now()) == Step(readonly, old(Now()), Op.Read(count))
    {
      var n := count;
      if fpos + n >= fsize {
        n := fsize - fpos;
        eof := true;
      }
      buf := data[fpos..fpos + n];
      assert buf == Now().file.Rest()[..n];
      fpos := fpos + n;
    }

    method Seek(offset: int, whence: Option<Whence>) returns (ok: bool, newOffset: int)
      requires Valid()
      modifies this`fpos, this`eof
      ensures Valid() && (Sought(ok, newOffset), Now()) == Step(readonly, old(Now()), Op.Seek(offset, whence))
    {
      if whence == None {
        return false, fpos;
      }
      ok, newOffset := false, -1;
      match whence.value
      case FromCursor =>
        if offset < 0 {
          if fpos < -offset {
            fpos := 0;
            return;
          }
        } else {
          if fpos + offset > fsize {
            fpos := fsize;
            return;
          }
        }
        fpos := fpos + offset;
        ok, newOffset, eof := true, fpos, false;
      case FromStart =>
        if offset < 0 || fsize < offset {
          fpos := fsize;
          return;
        }
        fpos := offset;
        ok, newOffset, eof := true, fpos, false;
      case FromEnd =>
        if offset > 0 {
          fpos := fsize;
          return;
        } else if fsize < -offset {
          fpos := 0;
          return;
        }
        fpos := fsize + offset;
        ok, newOffset, eof := true, fpos, false;
    }

    method Truncate(newsize: nat) returns (ok: bool)
      requires Valid()
      modifies this`data, this`fpos, this`fsize
      ensures Valid() && (data == old(data) || fresh(data))
      ensures (Resized(ok), Now()) == Step(readonly, old(Now()), Op.Truncate(newsize))
    {
      if readonly {
        return false;
      }
      ghost var before := data[..fsize];
      if newsize <= fsize {
        if newsize < fpos {
          fpos := newsize;
        }
      } else {
        var wider := new byte[newsize](i => 0);
        forall i | 0 <= i < fsize {
          wider[i] := data[i];
        }
        data := wider;
      }
      fsize := newsize;
      assert data[..fsize] == Resize(before, newsize);
      ok := true;
    }
  }

  /** All operations, one after the other, on the plain file. */
  function Steps(readonly: bool, st: State, ops: seq<Op>): (seq<Outcome>, State) {
    if ops == [] then ([], st)
    else
      var (outs, mid) := Steps(readonly, st, ops[..|ops| - 1]);
      var (out, end) := Step(readonly, mid, ops[|ops| - 1]);
      (outs + [out], end)
  }

  lemma StepsSnoc(readonly: bool, st: State, ops: seq<Op>, op: Op)
    ensures var (outs, mid) := Steps(readonly, st, ops);
            var (out, end) := Step(readonly, mid, op);
            Steps(readonly, st, ops + [op]) == (outs + [out], end)
  {
    hide Step;
    assert (ops + [op])[..|ops|] == ops;
  }

  /** Every run of the memory stream answers as the plain file does. */
  method Run(ms: MemoryStream, ops: seq<Op>) returns (outs: seq<Outcome>)
    requires ms.Valid()
    modifies ms, ms.data
    ensures ms.Valid() && (outs, ms.Now()) == Steps(ms.readonly, old(ms.Now()), ops)
  {
    hide Step;
    outs := [];
    for i := 0 to |ops|
      invariant ms.Valid() && (ms.data == old(ms.data) || fresh(ms.data))
      invariant (outs, ms.Now()) == Steps(ms.readonly, old(ms.Now()), ops[..i])
    {
      assert ops[..i + 1][..i] == ops[..i];
      var out;
      match ops[i] {
        case Write(s) =>
          var n := ms.Write(s);
          out := Wrote(n);
        case Read(count) =>
          var s := ms.Read(count);
          out := Got(s);
        case Seek(offset, whence) =>
          var ok, newOffset := ms.Seek(offset, whence);
          out := Sought(ok, newOffset);
        case Truncate(size) =>
          var ok := ms.Truncate(size);
          out := Resized(ok);
      }
      outs := outs + [out];
    }
    assert ops[..|ops|] == ops;
  }

  // ---------- what every run keeps ----------

  /** The cursor stays inside the contents. */
  predicate Inside(st: State) {
    st.file.pos <= |st.file.data|
  }

  lemma {:induction false} StepsStayInside(readonly: bool, st: State, ops: seq<Op>)
    requires Inside(st)
    ensures Inside(Steps(readonly, st, ops).1)
    ensures readonly ==> Steps(readonly, st, ops).1.file.data == st.file.data
  {
    if ops != [] {
      StepsStayInside(readonly, st, ops[..|ops| - 1]);
      StepStaysInside(readonly, Steps(readonly, st, ops[..|ops| - 1]).1, ops[|ops| - 1]);
    }
  }

  lemma StepStaysInside(readonly: bool, st: State, op: Op)
    requires Inside(st)
    ensures Inside(Step(readonly, st, op).1)
    ensures readonly ==> Step(readonly, st, op).1.file.data == st.file.data
  {
    if op.Write? && op.s == [] {
      OverwriteNothing(st.file.data, st.file.pos);
    }
  }

  /** The end-of-file flag, raised by a read, means that nothing is left. */
  predicate FlagIsTrue(st: State) {
    st.eof ==> st.file.Rest() == []
  }

  /** It stays true until the file grows under it or a refused seek moves the cursor back to the start:
      the one kind of seek that leaves the flag up in front of unread bytes. */
  lemma FlagStaysTrue(readonly: bool, st: State, op: Op)
    requires Inside(st) && FlagIsTrue(st)
    ensures var (out, st') := Step(readonly, st, op);
            FlagIsTrue(st') <==>
              !(&& st.eof
                && ((op.Truncate? && !readonly && |st.file.data| < op.size)
                    || (op.Seek? && op.whence.Some? && op.whence != Some(FromStart)
                        && Goal(st.file, op.offset, op.whence.value) < 0 && st.file.data != [])))
  {
    var (out, st') := Step(readonly, st, op);
    if op.Write? && !readonly {
      assert |st'.file.data| == Max(|st.file.data|, st.file.pos + |op.s|);
    }
  }

  /** Back over the last `n` bytes, and forward again. */
  lemma BackAndForth(st: State, p: nat, n: nat)
    requires 0 < n && p + n == st.file.pos <= |st.file.data|
    ensures var (sought, st1) := Step(false, st, Op.Seek(0 - n, Some(FromCursor)));
            var (got, st2) := Step(false, st1, Op.Read(n));
            && sought == Sought(true, p) && got == Got(st.file.data[p..p + n])
            && st2 == State(st.file, |st.file.data| == p + n)
  {
    var (sought, st1) := Step(false, st, Op.Seek(0 - n, Some(FromCursor)));
    assert st1 == State(File(st.file.data, p), false);
    assert st1.file.Rest()[..n] == st.file.data[p..p + n];
  }

  lemma WriteStep(st: State, s: seq<byte>)
    ensures Step(false, st, Op.Write(s))
            == (Wrote(|s|), State(File(Overwrite(st.file.data, st.file.pos, s), st.file.pos + |s|), st.eof))
  {
  }

  /** What is written is read back after a seek to where it was written, and the flag is raised if and
      only if the written bytes are the last. */
  lemma WriteThenReadBack(st: State, s: seq<byte>)
    requires Inside(st) && s != []
    ensures var (outs, end) := Steps(false, st, [Op.Write(s), Op.Seek(-|s|, Some(FromCursor)), Op.Read(|s|)]);
            && outs == [Wrote(|s|), Sought(true, st.file.pos), Got(s)]
            && end.file == File(Overwrite(st.file.data, st.file.pos, s), st.file.pos + |s|)
            && (end.eof <==> |st.file.data| <= st.file.pos + |s|)
  {
    hide Overwrite, Steps, Step;
    var st1 := State(File(Overwrite(st.file.data, st.file.pos, s), st.file.pos + |s|), st.eof);
    WriteStep(st, s);
    OverwriteReadBack(st.file.data, st.file.pos, s);
    BackAndForth(st1, st.file.pos, |s|);
    StepsOfThree(false, st, Op.Write(s), Op.Seek(-|s|, Some(FromCursor)), Op.Read(|s|));
  }

  lemma StepsOfThree(readonly: bool, st: State, a: Op, b: Op, c: Op)
    ensures var (w, st1) := Step(readonly, st, a);
            var (k, st2) := Step(readonly, st1, b);
            var (r, st3) := Step(readonly, st2, c);
            Steps(readonly, st, [a, b, c]) == ([w, k, r], st3)
  {
    hide Step;
    var (w, st1) := Step(readonly, st, a);
    var (k, st2) := Step(readonly, st1, b);
    var (r, st3) := Step(readonly, st2, c);
    assert [] + [w] == [w] && [w] + [k] == [w, k] && [w, k] + [r] == [w, k, r];
    assert [] + [a] == [a] && [a] + [b] == [a, b] && [a, b] + [c] == [a, b, c];
    StepsSnoc(readonly, st, [], a);
    StepsSnoc(readonly, st, [a], b);
    StepsSnoc(readonly, st, [a, b], c);
  }

  /** A gap cannot arise: what a write changes, and what truncating changes, byte by byte. */
  lemma WriteHasNoGap(st: State, s: seq<byte>)
    requires Inside(st)
    ensures Step(false, st, Op.Write(s)).1.file.data
            == st.file.data[..st.file.pos] + s
               + (if st.file.pos + |s| <= |st.file.data| then st.file.data[st.file.pos + |s|..] else [])
  {
    var f := st.file;
    var r := f.data[..f.pos] + s + (if f.pos + |s| <= |f.data| then f.data[f.pos + |s|..] else []);
    if s == [] {
      OverwriteNothing(f.data, f.pos);
      assert r == f.data;
    } else {
      var o := Overwrite(f.data, f.pos, s);
      assert |o| == |r|;
      forall k | 0 <= k < |o|
        ensures o[k] == r[k]
      {
        OverwriteAt(f.data, f.pos, s, k);
      }
      assert o == r;
    }
  }

  /** A memory stream answers as Devices.Device demands of a seekable device of kind Memory, and as a
      dependable one unless it is read-only. */
  lemma MemoryIsADevice(readonly: bool, st: State, op: Op)
    requires Inside(st)
    ensures var (out, st') := Step(readonly, st, op);
            var f, f' := st.file, st'.file;
            match op
            case Read(count) =>
              && out.Got? && |out.s| <= count && f'.pos == f.pos + |out.s| && f'.data == f.data
              && (out.s != [] ==> f.pos + |out.s| <= |f.data| && out.s == f.data[f.pos..f.pos + |out.s|])
              && (st'.eof ==> st.eof || |f.data| <= f'.pos)
              && (0 < count && out.s == [] ==> |f.data| <= f'.pos && st'.eof)
            case Write(s) =>
              && out.Wrote? && out.n <= |s| && (!readonly ==> out.n == |s|)
              && f' == File(Overwrite(f.data, f.pos, s[..out.n]), f.pos + out.n)
            case Seek(offset, whence) =>
              whence.Some? ==>
                var target := Goal(f, offset, whence.value);
                && out.Sought? && f'.data == f.data && (out.ok <==> 0 <= target <= |f.data|)
                && (out.ok ==> out.newOffset == f'.pos == target && !st'.eof)
                && (!out.ok ==> out.newOffset == -1 && st'.eof == st.eof && (f'.pos == 0 || f'.pos == |f.data|))
            case Truncate(size) => true
  {
    if op.Write? {
      assert op.s[..|op.s|] == op.s && op.s[..0] == [];
      OverwriteNothing(st.file.data, st.file.pos);
    }
  }
}
