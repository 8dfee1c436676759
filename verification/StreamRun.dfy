/** Whole runs of a buffered stream, against the plain file it stands for. */
module StreamRuns {
  import opened Files
  import opened Devices
  import opened Search
  import opened Streams

  /** What stays fixed during a run. */
  datatype Config = Config(kind: Kind, seekable: bool, dependable: bool, plainFiles: bool)

  /** A stream as its user could observe it: the file, what a one-way device was sent, the end-of-file
      flag, how many bytes are read ahead, and the line-ending flags. */
  datatype World = World(file: File, sent: seq<byte>, eof: bool, ahead: nat, flags: EolFlags)
  {
    /** A raised flag means that nothing is left behind what is read ahead. */
    predicate Honest() {
      eof ==> |file.data| <= file.pos + ahead
    }

    function Eol(): byte {
      if flags.mac then CR else LF
    }

    /** The next line can be had: nothing keeps the reader from the device, or it is read ahead. */
    predicate LineIsAtHand(limit: Option<nat>) {
      !eof || |LineOf(file.Rest(), Eol(), limit)| <= ahead
    }
  }

  datatype Op =
    | ReadOp(size: nat)
    | LineOp(limit: Option<nat>)
    | RecordOp(maxlen: nat, delim: seq<byte>)
    | WriteOp(s: seq<byte>)
    | SeekOp(delta: int, whence: Whence)
    | BufferOp(off: bool)
    | ChunkOp(size: nat)

  datatype Outcome = Bytes(s: seq<byte>) | MaybeBytes(r: Option<seq<byte>>) | Wrote(n: nat) | Sought(ok: bool) | Set

  /** A seek that a seekable device turns down. */
  predicate Refused(c: Config, f: File, op: Op) {
    op.SeekOp? && c.seekable &&
    var goal := Goal(f, op.delta, op.whence);
    goal < 0 || (c.kind == Memory && |f.data| < goal)
  }

  /** A refused seek after which position and device no longer agree: a FILE* reports where it stands,
      and a descriptor stands where the stream does if nothing was read ahead. */
  predicate Breaks(c: Config, w: World, op: Op) {
    Refused(c, w.file, op) && c.kind != StdFile && !(c.kind == Descriptor && w.ahead == 0)
  }

  /** Never called without a chunk size. */
  predicate Sensible(op: Op) {
    op.ChunkOp? ==> 0 < op.size
  }

  /** How a line read may be answered.  With the line ending known, a dependable device gives the line
      of the plain file if and only if that is at hand. */
  predicate LineStep(c: Config, w: World, limit: Option<nat>, out: Outcome, w': World) {
    && out.MaybeBytes? && out.r != Some([])
    && var s, rest := if out.r.Some? then out.r.value else [], w.file.Rest();
    && s <= rest && (limit.Some? ==> |s| <= Max(0, limit.value - 1))
    && w' == w.(file := w.file.Advance(|s|), eof := w'.eof, ahead := w'.ahead, flags := w'.flags)
    && StaysHonest(c, w, w')
    && (c.dependable && s == [] && limit != Some(0) && limit != Some(1) ==> w'.eof)
    && (if w.flags.detect then
          && EolLast(s) && Detected(w.flags, s, limit, w'.flags)
          && (c.dependable && w.Honest() ==> LineStops(rest, limit, s))
        else
          && w'.flags == w.flags && NoEarlierEol(s, w.Eol())
          && (c.dependable ==> (s == LineOf(rest, w.Eol(), limit) <==> w.LineIsAtHand(limit))))
  }

  /** How an unbuffered file may answer `op`; a device that is not dependable may answer short. */
  ghost predicate Step(c: Config, w: World, op: Op, out: Outcome, w': World) {
    var rest := w.file.Rest();
    match op
    case ReadOp(size) =>
      && out.Bytes? && out.s <= rest && |out.s| <= size
      && w' == w.(file := w.file.Advance(|out.s|), eof := w'.eof, ahead := w'.ahead) && StaysHonest(c, w, w')
      && (c.dependable && 0 < size && rest != [] ==> out.s != [])
      && (c.dependable && 0 < size && (out.s == [] || (c.plainFiles && |out.s| < size)) ==> w'.eof)
      && (c.dependable && c.plainFiles ==> |out.s| == Min(size, |rest|))
    case LineOp(limit) => LineStep(c, w, limit, out, w')
    case RecordOp(maxlen, delim) =>
      && out.MaybeBytes?
      && (exists cut ::
            && RecordIs(rest, maxlen, delim, out.r, cut) && (out.r.None? ==> !cut)
            && (c.dependable && 0 < maxlen ==> cut == DelimWithin(rest, maxlen, delim))
            && w' == w.(file := w.file.Advance((if out.r.Some? then |out.r.value| else 0) + (if cut then |delim| else 0)),
                        eof := w'.eof, ahead := w'.ahead))
      && StaysHonest(c, w, w')
      && (c.dependable && 0 < maxlen ==> out.r == RecordOf(rest, maxlen, delim) && (out.r.None? ==> w'.eof))
    case WriteOp(s) =>
      && out.Wrote? && out.n <= |s| && (c.dependable ==> out.n == |s|)
      && w'.flags == w.flags && w'.eof == (w.eof && !(c.seekable && c.kind == Memory && 0 < w.ahead))
      && (if c.seekable then
            && w'.file == File(Overwrite(w.file.data, w.file.pos, s[..out.n]), w.file.pos + out.n)
            && w'.sent == w.sent && w'.ahead == 0
          else
            w'.file == w.file && w'.sent == w.sent + s[..out.n] && w'.ahead == w.ahead)
    case SeekOp(delta, whence) =>
      && out.Sought? && w'.sent == w.sent && w'.flags == w.flags && w'.file.data == w.file.data
      && (c.seekable ==> (out.ok <==> !Refused(c, w.file, op)))
      && (out.ok ==> w'.file.pos == Goal(w.file, delta, whence) && !w'.eof)
      && (!out.ok && c.seekable ==>
            w'.eof == w.eof && w'.ahead == 0 && w'.file.pos == w.file.pos + (if c.kind == StdFile then w.ahead else 0))
      && (!c.seekable ==> StaysHonest(c, w, w'))
      && (!out.ok && !c.seekable && (whence != FromCursor || delta < 0) ==> w'.file == w.file)
      && (!out.ok && !c.seekable && whence == FromCursor && 0 <= delta ==>
            w.file.pos <= w'.file.pos && (c.dependable ==> |w.file.data| <= w'.file.pos))
    case _ => out == Set && w' == w
  }

  predicate StaysHonest(c: Config, w: World, w': World) {
    c.dependable && w.Honest() ==> w'.Honest()
  }

  /** A sequence of worlds, one step each. */
  ghost predicate Trace(c: Config, ops: seq<Op>, outs: seq<Outcome>, worlds: seq<World>) {
    && |outs| <= |ops| && |worlds| == |outs| + 1
    && forall i | 0 <= i < |outs| :: Step(c, worlds[i], ops[i], outs[i], worlds[i + 1])
  }

  ghost function ConfigOf(s: Stream): Config
    reads s
  {
    Config(s.dev.kind, s.dev.seekable, s.dev.dependable, s.plainFiles)
  }

  ghost function WorldOf(s: Stream): World
    requires 0 <= s.position && 0 <= s.Buffered()
    reads s, s.dev
  {
    World(s.View(), s.dev.sent, s.eof, s.Buffered(), s.Flags())
  }

  /** The flag of a coherent stream is honest if it is honest to the device. */
  lemma HonestIs(s: Stream)
    requires s.Coherent()
    ensures 0 <= s.position && 0 <= s.Buffered()
    ensures WorldOf(s).Honest() <==> s.HonestEof()
  {
    s.UnreadIsFirst(s.position);
  }

  /** One operation on the stream is one step of the plain file. */
  method Do(s: Stream, op: Op) returns (out: Outcome)
    requires s.Coherent() && Sensible(op) && !Breaks(ConfigOf(s), WorldOf(s), op)
    modifies s, s.readbuf, s.dev
    ensures s.Coherent() && (s.readbuf == old(s.readbuf) || fresh(s.readbuf))
    ensures ConfigOf(s) == old(ConfigOf(s))
    ensures Step(ConfigOf(s), old(WorldOf(s)), op, out, WorldOf(s))
  {
    match op
    case ReadOp(size) =>
      out := DoRead(s, size);
    case LineOp(limit) =>
      out := DoLine(s, limit);
    case RecordOp(maxlen, delim) =>
      out := DoRecord(s, maxlen, delim);
    case WriteOp(b) =>
      out := DoWrite(s, b);
    case SeekOp(delta, whence) =>
      out := DoSeek(s, delta, whence);
    case BufferOp(off) =>
      s.noBuffer := off;
      out := Set;
    case ChunkOp(size) =>
      s.chunkSize := size;
      out := Set;
  }

  method DoRead(s: Stream, size: nat) returns (out: Outcome)
    requires s.Coherent()
    modifies s`readbuf, s`readpos, s`writepos, s`position, s`eof, s.readbuf, s.dev`offset, s.dev`patience, s.dev`calls
    ensures s.Coherent() && (s.readbuf == old(s.readbuf) || fresh(s.readbuf))
    ensures Step(ConfigOf(s), old(WorldOf(s)), ReadOp(size), out, WorldOf(s))
  {
    HonestIs(s);
    ghost var start: nat := s.position;
    hide Stream.BufferAt, Device.Holds;
    var b := s.Read(size);
    s.dev.HoldsIsPrefix(start, b);
    HonestIs(s);
    out := Bytes(b);
  }

  method DoLine(s: Stream, limit: Option<nat>) returns (out: Outcome)
    requires s.Coherent()
    modifies s`readbuf, s`readpos, s`writepos, s`position, s`eof, s`detectEol, s`eolMac, s.readbuf, s.dev`offset, s.dev`patience, s.dev`calls
    ensures s.Coherent() && (s.readbuf == old(s.readbuf) || fresh(s.readbuf))
    ensures LineStep(ConfigOf(s), old(WorldOf(s)), limit, out, WorldOf(s))
  {
    HonestIs(s);
    hide Stream.BufferAt, Stream.HonestEof, Stream.Unread, LineOf, NoEarlierEol, EolLast, LineStops;
    ghost var c, w, rest := ConfigOf(s), WorldOf(s), s.View().Rest();
    var r := s.GetLine(limit);
    HonestIs(s);
    out := MaybeBytes(r);
    ghost var w', line := WorldOf(s), if r.Some? then r.value else [];
    LineAnswer(c, w, limit, rest, line, w');
  }

  /** The reader's answer in the terms of the plain file. */
  lemma LineAnswer(c: Config, w: World, limit: Option<nat>, rest: seq<byte>, s: seq<byte>, w': World)
    requires rest == w.file.Rest() && s <= rest && (limit.Some? ==> |s| <= Max(0, limit.value - 1))
    requires w' == World(w.file.Advance(|s|), w.sent, w'.eof, w'.ahead, w'.flags) && StaysHonest(c, w, w')
    requires w.flags.detect ==> EolLast(s) && Detected(w.flags, s, limit, w'.flags)
    requires w.flags.detect ==> (c.dependable && w.Honest() ==> LineStops(rest, limit, s))
    requires c.dependable && s == [] && limit != Some(0) && limit != Some(1) ==> w'.eof
    requires !w.flags.detect ==> w'.flags == w.flags && NoEarlierEol(s, w.Eol())
    requires !w.flags.detect && c.dependable ==>
               (s == LineOf(rest, w.Eol(), limit) <==> !w.eof || |LineOf(rest, w.Eol(), limit)| <= w.ahead)
    ensures LineStep(c, w, limit, MaybeBytes(if s == [] then None else Some(s)), w')
  {
    hide LineOf, NoEarlierEol, EolLast, LineStops;
  }

  method DoRecord(s: Stream, maxlen: nat, delim: seq<byte>) returns (out: Outcome)
    requires s.Coherent()
    modifies s`readbuf, s`readpos, s`writepos, s`position, s`eof, s.readbuf, s.dev`offset, s.dev`patience, s.dev`calls
    ensures s.Coherent() && (s.readbuf == old(s.readbuf) || fresh(s.readbuf))
    ensures Step(ConfigOf(s), old(WorldOf(s)), RecordOp(maxlen, delim), out, WorldOf(s))
  {
    HonestIs(s);
    hide Stream.BufferAt, Stream.HonestEof, Device.Holds, RecordIs, RecordOf, DelimWithin;
    var r, cut := s.GetRecord(maxlen, delim);
    HonestIs(s);
    out := MaybeBytes(r);
    assert RecordIs(old(WorldOf(s)).file.Rest(), maxlen, delim, r, cut);
  }

  method DoWrite(s: Stream, b: seq<byte>) returns (out: Outcome)
    requires s.Coherent()
    modifies s`readpos, s`writepos, s`position, s`eof, s.dev
    ensures s.Coherent()
    ensures Step(ConfigOf(s), old(WorldOf(s)), WriteOp(b), out, WorldOf(s))
  {
    HonestIs(s);
    hide Stream.BufferAt, Overwrite;
    var n := s.WriteBuffer(b);
    HonestIs(s);
    out := Wrote(n);
  }

  method DoSeek(s: Stream, delta: int, whence: Whence) returns (out: Outcome)
    requires s.Coherent() && !Breaks(ConfigOf(s), WorldOf(s), SeekOp(delta, whence))
    modifies s`readbuf, s`readpos, s`writepos, s`position, s`eof, s.readbuf, s.dev`offset, s.dev`patience, s.dev`calls
    ensures s.Coherent() && (s.readbuf == old(s.readbuf) || fresh(s.readbuf))
    ensures Step(ConfigOf(s), old(WorldOf(s)), SeekOp(delta, whence), out, WorldOf(s))
  {
    HonestIs(s);
    hide Stream.BufferAt;
    var ok := s.Seek(delta, whence);
    HonestIs(s);
    out := Sought(ok);
  }

  /** Any sequence of operations is a trace of the plain file, up to the first refused seek that breaks
      the stream. */
  method Run(s: Stream, ops: seq<Op>) returns (outs: seq<Outcome>, ghost worlds: seq<World>)
    requires s.Coherent() && 0 <= s.Buffered() && forall op | op in ops :: Sensible(op)
    modifies s, s.readbuf, s.dev
    ensures s.Coherent() && 0 <= s.Buffered() && ConfigOf(s) == old(ConfigOf(s))
    ensures Trace(ConfigOf(s), ops, outs, worlds) && worlds[0] == old(WorldOf(s)) && worlds[|outs|] == WorldOf(s)
    ensures forall i | 0 <= i < |outs| :: !Breaks(ConfigOf(s), worlds[i], ops[i])
    ensures |outs| < |ops| ==> Breaks(ConfigOf(s), WorldOf(s), ops[|outs|])
  {
    hide Step, Breaks, Stream.BufferAt;
    HonestIs(s);
    outs, worlds := [], [WorldOf(s)];
    ghost var c := ConfigOf(s);
    while |outs| < |ops|
      invariant s.Coherent() && (s.readbuf == old(s.readbuf) || fresh(s.readbuf))
      invariant 0 <= s.position && 0 <= s.Buffered()
      invariant ConfigOf(s) == c && Trace(c, ops, outs, worlds)
      invariant worlds[0] == old(WorldOf(s)) && worlds[|outs|] == WorldOf(s)
      invariant forall i | 0 <= i < |outs| :: !Breaks(c, worlds[i], ops[i])
    {
      var op := ops[|outs|];
      var breaks := WillBreak(s, op);
      if breaks {
        break;
      }
      var out := Do(s, op);
      HonestIs(s);
      outs, worlds := outs + [out], worlds + [WorldOf(s)];
    }
  }

  method WillBreak(s: Stream, op: Op) returns (breaks: bool)
    requires s.Coherent() && 0 <= s.position && 0 <= s.Buffered()
    ensures breaks == Breaks(ConfigOf(s), WorldOf(s), op)
  {
    breaks :=
      && op.SeekOp? && s.dev.seekable && !s.dev.Accepts(Goal(File(s.dev.data, s.position), op.delta, op.whence))
      && s.dev.kind != StdFile && !(s.dev.kind == Descriptor && s.Buffered() == 0);
  }

  // ---------- the ideal file ----------

  /** The answer a plain file gives when nothing is ever short. */
  function Ideal(c: Config, eol: byte, f: File, sent: seq<byte>, op: Op): (Outcome, File, seq<byte>) {
    var rest := f.Rest();
    match op
    case ReadOp(size) =>
      var s := rest[..Min(size, |rest|)];
      (Bytes(s), f.Advance(|s|), sent)
    case LineOp(limit) =>
      var s := LineOf(rest, eol, limit);
      (MaybeBytes(if s == [] then None else Some(s)), f.Advance(|s|), sent)
    case RecordOp(maxlen, delim) =>
      var r := if maxlen == 0 then None else RecordOf(rest, maxlen, delim);
      var hit := 0 < maxlen && DelimWithin(rest, maxlen, delim);
      (MaybeBytes(r), f.Advance((if r.Some? then |r.value| else 0) + (if hit then |delim| else 0)), sent)
    case WriteOp(s) =>
      if c.seekable then (Wrote(|s|), File(Overwrite(f.data, f.pos, s), f.pos + |s|), sent)
      else (Wrote(|s|), f, sent + s)
    case SeekOp(delta, whence) =>
      var goal := Goal(f, delta, whence);
      (Sought(0 <= goal), if 0 <= goal then f.(pos := goal) else f, sent)
    case _ => (Set, f, sent)
  }

  /** The condition under which an operation is answered as by a plain file. */
  predicate IsAtHand(w: World, op: Op) {
    op.LineOp? ==> w.LineIsAtHand(op.limit)
  }

  /** A dependable seekable device of the plain files wrapper, and the line ending known. */
  predicate IsPlain(c: Config, w: World) {
    c.dependable && c.plainFiles && c.seekable && !w.flags.detect
  }

  /** On such a device a step is the ideal one, and no buffering, chunk size or cut of the device's
      answers shows, if and only if it reads no line or one that is at hand. */
  lemma StepIsIdeal(c: Config, w: World, op: Op, out: Outcome, w': World)
    requires IsPlain(c, w) && !Refused(c, w.file, op) && Step(c, w, op, out, w')
    ensures out == Ideal(c, w.Eol(), w.file, w.sent, op).0 <==> IsAtHand(w, op)
    ensures IsAtHand(w, op) ==> (out, w'.file, w'.sent) == Ideal(c, w.Eol(), w.file, w.sent, op)
    ensures w'.flags == w.flags
  {
    hide FindFrom, IndexOf, Overwrite, LineOf, RecordOf, DelimWithin, NoEarlierEol, EolLast, LineStops;
    match op
    case ReadOp(size) =>
      assert out.s == w.file.Rest()[..|out.s|];
    case RecordOp(maxlen, delim) =>
      assert maxlen == 0 ==> out.r.None? by { NoRecord(w.file.Rest(), delim, out.r); }
    case WriteOp(s) =>
      assert s[..out.n] == s;
    case _ =>
  }

  /** Nothing fits into no room. */
  lemma NoRecord(rest: seq<byte>, delim: seq<byte>, r: Option<seq<byte>>)
    ensures (exists cut :: RecordIs(rest, 0, delim, r, cut)) ==> r.None?
  {
    hide FindFrom;
  }

  /** The ideal answers to a whole sequence of operations, and the file and sent bytes at its end. */
  function IdealRun(c: Config, eol: byte, f: File, sent: seq<byte>, ops: seq<Op>): (r: (seq<Outcome>, File, seq<byte>))
    ensures |r.0| == |ops|
  {
    if ops == [] then ([], f, sent)
    else
      var before := IdealRun(c, eol, f, sent, ops[..|ops| - 1]);
      var last := Ideal(c, eol, before.1, before.2, ops[|ops| - 1]);
      (before.0 + [last.0], last.1, last.2)
  }

  lemma IdealRunOfNone(c: Config, eol: byte, f: File, sent: seq<byte>)
    ensures IdealRun(c, eol, f, sent, []) == ([], f, sent)
  {
  }

  lemma IdealRunOf(c: Config, eol: byte, f: File, sent: seq<byte>, ops: seq<Op>, op: Op)
    ensures var before := IdealRun(c, eol, f, sent, ops);
            var last := Ideal(c, eol, before.1, before.2, op);
            IdealRun(c, eol, f, sent, ops + [op]) == (before.0 + [last.0], last.1, last.2)
  {
    assert (ops + [op])[..|ops|] == ops;
  }

  /** The first `n` operations read lines only when they were at hand. */
  ghost predicate AllAtHand(worlds: seq<World>, ops: seq<Op>, n: nat)
    requires n <= |ops| < |worlds|
  {
    forall i | 0 <= i < n :: IsAtHand(worlds[i], ops[i])
  }

  /** Over every run on such a device all answers are those of an unbuffered file if and only if every
      line was at hand when it was read. */
  lemma TraceIsIdeal(c: Config, ops: seq<Op>, outs: seq<Outcome>, worlds: seq<World>)
    requires Trace(c, ops, outs, worlds) && |outs| == |ops| && IsPlain(c, worlds[0])
    requires forall i | 0 <= i < |ops| :: !Refused(c, worlds[i].file, ops[i])
    ensures var ideal := IdealRun(c, worlds[0].Eol(), worlds[0].file, worlds[0].sent, ops);
            && (outs == ideal.0 <==> AllAtHand(worlds, ops, |ops|))
            && (outs == ideal.0 ==> worlds[|ops|].file == ideal.1 && worlds[|ops|].sent == ideal.2)
  {
    hide Step, Refused, IdealRun, AllAtHand;
    PrefixIsIdeal(c, ops, outs, worlds, |ops|);
    assert ops[..|ops|] == ops && outs[..|outs|] == outs;
  }

  lemma {:induction false} PrefixIsIdeal(c: Config, ops: seq<Op>, outs: seq<Outcome>, worlds: seq<World>, n: nat)
    requires Trace(c, ops, outs, worlds) && n <= |outs| == |ops| < |worlds| && IsPlain(c, worlds[0])
    requires forall i | 0 <= i < |ops| :: !Refused(c, worlds[i].file, ops[i])
    ensures var ideal := IdealRun(c, worlds[0].Eol(), worlds[0].file, worlds[0].sent, ops[..n]);
            && (outs[..n] == ideal.0 <==> AllAtHand(worlds, ops, n))
            && (outs[..n] == ideal.0 ==> worlds[n].file == ideal.1 && worlds[n].sent == ideal.2)
    ensures worlds[n].flags == worlds[0].flags
  {
    hide *;
    if n == 0 {
      IdealRunOfNone(c, worlds[0].Eol(), worlds[0].file, worlds[0].sent);
      AtHandNone(worlds, ops);
    } else {
      var k, eol, f, sent := n - 1, worlds[0].Eol(), worlds[0].file, worlds[0].sent;
      PrefixIsIdeal(c, ops, outs, worlds, k);
      StepAt(c, ops, outs, worlds, k);
      SameEol(c, worlds[0], worlds[k]);
      StepIsIdeal(c, worlds[k], ops[k], outs[k], worlds[k + 1]);
      IdealRunNext(c, eol, f, sent, ops, k);
      var before := IdealRun(c, eol, f, sent, ops[..k]);
      OutsNext(outs, k, before.0, Ideal(c, eol, before.1, before.2, ops[k]).0);
      AtHandNext(worlds, ops, k);
    }
  }

  lemma StepAt(c: Config, ops: seq<Op>, outs: seq<Outcome>, worlds: seq<World>, k: nat)
    requires Trace(c, ops, outs, worlds) && k < |outs|
    ensures |outs| <= |ops| && |worlds| == |outs| + 1 && Step(c, worlds[k], ops[k], outs[k], worlds[k + 1])
  {
    hide Step;
  }

  lemma AtHandNone(worlds: seq<World>, ops: seq<Op>)
    requires |ops| < |worlds|
    ensures AllAtHand(worlds, ops, 0)
  {
  }

  lemma AtHandNext(worlds: seq<World>, ops: seq<Op>, k: nat)
    requires k < |ops| < |worlds|
    ensures AllAtHand(worlds, ops, k + 1) <==> AllAtHand(worlds, ops, k) && IsAtHand(worlds[k], ops[k])
  {
    hide IsAtHand;
  }

  lemma OutsNext(outs: seq<Outcome>, k: nat, before: seq<Outcome>, last: Outcome)
    requires k < |outs| && |before| == k
    ensures outs[..k + 1] == before + [last] <==> outs[..k] == before && outs[k] == last
  {
    var s, t := outs[..k + 1], before + [last];
    assert s == outs[..k] + [outs[k]];
    if s == t {
      assert s[..k] == outs[..k] && t[..k] == before && s[k] == outs[k] && t[k] == last;
    }
  }

  lemma IdealRunNext(c: Config, eol: byte, f: File, sent: seq<byte>, ops: seq<Op>, k: nat)
    requires k < |ops|
    ensures var before := IdealRun(c, eol, f, sent, ops[..k]);
            var last := Ideal(c, eol, before.1, before.2, ops[k]);
            IdealRun(c, eol, f, sent, ops[..k + 1]) == (before.0 + [last.0], last.1, last.2)
  {
    hide Ideal;
    IdealRunOf(c, eol, f, sent, ops[..k], ops[k]);
    assert ops[..k + 1] == ops[..k] + [ops[k]];
  }

  lemma SameEol(c: Config, w: World, w': World)
    requires w.flags == w'.flags
    ensures w.Eol() == w'.Eol() && IsPlain(c, w) == IsPlain(c, w')
  {
  }

  // ---------- whole runs of the class ----------

  /** After these operations a raised end-of-file flag may be a lie: there was a write that ended before
      the end of the file, and no seek or write up to the end since. */
  predicate MayBeStale(c: Config, eol: byte, f: File, ops: seq<Op>) {
    ops != [] &&
    var before := ops[..|ops| - 1];
    match ops[|ops| - 1]
    case WriteOp(_) => var after := IdealRun(c, eol, f, [], ops).1; after.pos < |after.data|
    case SeekOp(_, _) => false
    case _ => MayBeStale(c, eol, f, before)
  }

  /** Operations that a plain file welcomes: no seek out of bounds, and no line read while the flag may
      be a lie. */
  ghost predicate Welcome(c: Config, eol: byte, f: File, ops: seq<Op>) {
    forall i | 0 <= i < |ops| ::
      && Sensible(ops[i])
      && !Refused(c, IdealRun(c, eol, f, [], ops[..i]).1, ops[i])
      && (ops[i].LineOp? ==> !MayBeStale(c, eol, f, ops[..i]))
  }

  /** The file does not depend on what was sent. */
  lemma {:induction false} SentIsApart(c: Config, eol: byte, f: File, sent: seq<byte>, ops: seq<Op>)
    ensures IdealRun(c, eol, f, sent, ops).1 == IdealRun(c, eol, f, [], ops).1
    ensures IdealRun(c, eol, f, sent, ops).0 == IdealRun(c, eol, f, [], ops).0
    ensures c.seekable ==> IdealRun(c, eol, f, sent, ops).2 == sent
  {
    hide Overwrite, LineOf, RecordOf, DelimWithin;
    if ops != [] {
      SentIsApart(c, eol, f, sent, ops[..|ops| - 1]);
    }
  }

  lemma HonestIsAtHand(w: World, op: Op)
    requires w.Honest()
    ensures IsAtHand(w, op)
  {
    hide IndexOf;
  }

  /** What a step does to the honesty of the flag. */
  lemma HonestAfter(c: Config, w: World, op: Op, out: Outcome, w': World)
    requires IsPlain(c, w) && !Refused(c, w.file, op) && Step(c, w, op, out, w')
    ensures op.WriteOp? && |w'.file.data| <= w'.file.pos ==> w'.Honest()
    ensures op.SeekOp? ==> w'.Honest()
    ensures !op.WriteOp? && w.Honest() ==> w'.Honest()
  {
    hide Overwrite, LineOf, RecordOf, DelimWithin, RecordIs, NoEarlierEol, EolLast, LineStops, FindFrom, IndexOf;
  }

  /** A trace of welcome operations is the ideal run, and its flag is honest unless it may be stale. */
  lemma {:induction false} WelcomeIsIdeal(c: Config, ops: seq<Op>, outs: seq<Outcome>, worlds: seq<World>, n: nat)
    requires Trace(c, ops, outs, worlds) && IsPlain(c, worlds[0]) && worlds[0].Honest() && n <= |outs|
    requires Welcome(c, worlds[0].Eol(), worlds[0].file, ops)
    ensures (outs[..n], worlds[n].file, worlds[n].sent) ==
            IdealRun(c, worlds[0].Eol(), worlds[0].file, worlds[0].sent, ops[..n])
    ensures !MayBeStale(c, worlds[0].Eol(), worlds[0].file, ops[..n]) ==> worlds[n].Honest()
    ensures worlds[n].flags == worlds[0].flags
  {
    hide IdealRun;
    if n == 0 {
      IdealRunOfNone(c, worlds[0].Eol(), worlds[0].file, worlds[0].sent);
    } else {
      hide Step, Refused, Ideal, IsAtHand, Welcome, MayBeStale, World.Eol, World.Honest, Trace, IsPlain;
      var k, eol, f, sent := n - 1, worlds[0].Eol(), worlds[0].file, worlds[0].sent;
      WelcomeIsIdeal(c, ops, outs, worlds, k);
      StepAt(c, ops, outs, worlds, k);
      IdealRunNext(c, eol, f, sent, ops, k);
      assert ops[..n] == ops[..k] + [ops[k]] && outs[..n] == outs[..k] + [outs[k]];
      SameEol(c, worlds[0], worlds[k]);
      SentIsApart(c, eol, f, sent, ops[..k]);
      SentIsApart(c, eol, f, sent, ops[..n]);
      WelcomeAt(c, eol, f, ops, k, worlds[k]);
      StepIsIdeal(c, worlds[k], ops[k], outs[k], worlds[k + 1]);
      HonestAfter(c, worlds[k], ops[k], outs[k], worlds[k + 1]);
      StaleAfter(c, eol, f, ops[..k], ops[k]);
    }
  }

  /** A welcome operation is not refused, and reads only lines that are at hand. */
  lemma WelcomeAt(c: Config, eol: byte, f: File, ops: seq<Op>, k: nat, w: World)
    requires Welcome(c, eol, f, ops) && k < |ops| && w.file == IdealRun(c, eol, f, [], ops[..k]).1
    requires !MayBeStale(c, eol, f, ops[..k]) ==> w.Honest()
    ensures !Refused(c, w.file, ops[k]) && IsAtHand(w, ops[k])
  {
    hide IdealRun, MayBeStale, Refused, World.Honest;
    if w.Honest() {
      HonestIsAtHand(w, ops[k]);
    } else {
      OnlyLines(w, ops[k]);
    }
  }

  lemma StaleAfter(c: Config, eol: byte, f: File, ops: seq<Op>, op: Op)
    ensures MayBeStale(c, eol, f, ops + [op]) ==
            match op
            case WriteOp(_) => (var after := IdealRun(c, eol, f, [], ops + [op]).1; after.pos < |after.data|)
            case SeekOp(_, _) => false
            case _ => MayBeStale(c, eol, f, ops)
  {
    hide IdealRun;
    assert (ops + [op])[..|ops|] == ops;
  }

  lemma OnlyLines(w: World, op: Op)
    ensures !op.LineOp? ==> IsAtHand(w, op)
  {
  }

  /** Every run of a stream on a dependable seekable device of the plain files wrapper answers like an
      unbuffered file, whatever had been read ahead: all that is asked is that no seek is out of bounds,
      and that no line is read behind a write that ended before the end of the file, unless there was a
      seek or a write up to the end in between. */
  method AnswersLikeAFile(s: Stream, ops: seq<Op>) returns (outs: seq<Outcome>)
    requires s.Coherent() && 0 <= s.position && 0 <= s.Buffered() && s.HonestEof() && !s.detectEol
    requires s.dev.dependable && s.plainFiles && s.dev.seekable
    requires Welcome(ConfigOf(s), s.EolByte(), s.View(), ops)
    modifies s, s.readbuf, s.dev
    ensures s.Coherent() && 0 <= s.position
    ensures (outs, s.View(), s.dev.sent) == old(IdealRun(ConfigOf(s), s.EolByte(), s.View(), s.dev.sent, ops))
  {
    hide Step, Refused, IdealRun, MayBeStale, Stream.BufferAt, Stream.HonestEof;
    HonestIs(s);
    ghost var c, w := ConfigOf(s), WorldOf(s);
    AllSensible(c, w.Eol(), w.file, ops);
    ghost var worlds;
    outs, worlds := Run(s, ops);
    NothingBreaks(c, ops, outs, worlds);
    WelcomeIsIdeal(c, ops, outs, worlds, |outs|);
    assert outs[..|outs|] == outs && ops[..|ops|] == ops;
  }

  lemma NothingBreaks(c: Config, ops: seq<Op>, outs: seq<Outcome>, worlds: seq<World>)
    requires Trace(c, ops, outs, worlds) && IsPlain(c, worlds[0]) && worlds[0].Honest()
    requires Welcome(c, worlds[0].Eol(), worlds[0].file, ops)
    ensures |outs| < |ops| ==> !Breaks(c, worlds[|outs|], ops[|outs|])
  {
    hide Step, Refused, IdealRun, MayBeStale;
    var n := |outs|;
    WelcomeIsIdeal(c, ops, outs, worlds, n);
    SentIsApart(c, worlds[0].Eol(), worlds[0].file, worlds[0].sent, ops[..n]);
  }

  lemma AllSensible(c: Config, eol: byte, f: File, ops: seq<Op>)
    requires Welcome(c, eol, f, ops)
    ensures forall op | op in ops :: Sensible(op)
  {
    hide Refused, IdealRun, MayBeStale, Sensible;
  }

  /** What is written is what comes back after seeking to where the write began, whatever had been read
      ahead, and the rest of the file is as it was. */
  method WriteThenReadBack(s: Stream, b: seq<byte>) returns (outs: seq<Outcome>)
    requires s.Coherent() && 0 <= s.position && 0 <= s.Buffered() && s.HonestEof() && !s.detectEol
    requires s.dev.dependable && s.plainFiles && s.dev.seekable
    requires s.dev.kind == Memory ==> s.position <= |s.dev.data|
    modifies s, s.readbuf, s.dev
    ensures outs == [Wrote(|b|), Sought(true), Bytes(b)]
    ensures s.Coherent() && s.dev.data == Overwrite(old(s.dev.data), old(s.position), b) && s.position == old(s.position) + |b|
  {
    hide Stream.BufferAt, Stream.HonestEof, Overwrite, IdealRun, Welcome;
    BackAndForth(ConfigOf(s), s.EolByte(), s.View(), s.dev.sent, b);
    BackAndForthIsWelcome(ConfigOf(s), s.EolByte(), s.View(), b);
    outs := AnswersLikeAFile(s, WriteAndBack(b));
  }

  /** The three operations, and the ideal answers to them. */
  function WriteAndBack(b: seq<byte>): seq<Op> {
    [WriteOp(b), SeekOp(-|b|, FromCursor), ReadOp(|b|)]
  }

  lemma BackAndForth(c: Config, eol: byte, f: File, sent: seq<byte>, b: seq<byte>)
    requires c.seekable
    ensures var ops, after := WriteAndBack(b), Overwrite(f.data, f.pos, b);
            && IdealRun(c, eol, f, sent, ops[..0]) == ([], f, sent)
            && IdealRun(c, eol, f, sent, ops[..1]) == ([Wrote(|b|)], File(after, f.pos + |b|), sent)
            && IdealRun(c, eol, f, sent, ops[..2]) == ([Wrote(|b|), Sought(true)], File(after, f.pos), sent)
            && IdealRun(c, eol, f, sent, ops) == ([Wrote(|b|), Sought(true), Bytes(b)], File(after, f.pos + |b|), sent)
  {
    hide Overwrite, Ideal, IdealRun;
    var w, k, r := WriteOp(b), SeekOp(-|b|, FromCursor), ReadOp(|b|);
    var ops := WriteAndBack(b);
    assert ops[..0] == [] && ops[..1] == [] + [w] && ops[..2] == ops[..1] + [k] && ops == ops[..2] + [r];
    IdealSteps(c, eol, f, sent, b);
    IdealRunOfNone(c, eol, f, sent);
    IdealRunOf(c, eol, f, sent, [], w);
    IdealRunOf(c, eol, f, sent, ops[..1], k);
    IdealRunOf(c, eol, f, sent, ops[..2], r);
    assert [] + [Wrote(|b|)] == [Wrote(|b|)];
    assert [Wrote(|b|)] + [Sought(true)] == [Wrote(|b|), Sought(true)];
    assert [Wrote(|b|), Sought(true)] + [Bytes(b)] == [Wrote(|b|), Sought(true), Bytes(b)];
  }

  lemma IdealSteps(c: Config, eol: byte, f: File, sent: seq<byte>, b: seq<byte>)
    requires c.seekable
    ensures var after := Overwrite(f.data, f.pos, b);
            && Ideal(c, eol, f, sent, WriteOp(b)) == (Wrote(|b|), File(after, f.pos + |b|), sent)
            && Ideal(c, eol, File(after, f.pos + |b|), sent, SeekOp(-|b|, FromCursor)) == (Sought(true), File(after, f.pos), sent)
            && Ideal(c, eol, File(after, f.pos), sent, ReadOp(|b|)) == (Bytes(b), File(after, f.pos + |b|), sent)
  {
    hide Overwrite, LineOf, RecordOf, DelimWithin;
    OverwriteReadBack(f.data, f.pos, b);
    var back := File(Overwrite(f.data, f.pos, b), f.pos);
    assert back.Rest()[..Min(|b|, |back.Rest()|)] == b;
  }

  lemma BackAndForthIsWelcome(c: Config, eol: byte, f: File, b: seq<byte>)
    requires c.seekable && (c.kind == Memory ==> f.pos <= |f.data|)
    ensures Welcome(c, eol, f, WriteAndBack(b))
  {
    hide Overwrite, IdealRun, MayBeStale;
    BackAndForth(c, eol, f, [], b);
    SizeOfOverwrite(f.data, f.pos, b);
  }

  lemma SizeOfOverwrite(data: seq<byte>, at: nat, s: seq<byte>)
    ensures |data| <= |Overwrite(data, at, s)| && (s != [] ==> at + |s| <= |Overwrite(data, at, s)|)
  {
  }

  // ---------- a line behind a write ----------

  /** A line read right behind a write is the next line of the file if and only if the end-of-file flag
      was down before the write, or taken down by moving a memory stream back, or there is no line. */
  method WriteThenLine(s: Stream, b: seq<byte>, limit: Option<nat>) returns (line: Option<seq<byte>>)
    requires s.Coherent() && 0 <= s.position && !s.detectEol && s.dev.dependable && s.dev.seekable
    modifies s, s.readbuf, s.dev
    ensures var f := File(Overwrite(old(s.dev.data), old(s.position), b), old(s.position) + |b|);
            var next := LineOf(f.Rest(), old(s.EolByte()), limit);
            (if line.Some? then line.value else []) == next <==>
            !old(s.eof) || (s.dev.kind == Memory && 0 < old(s.Buffered())) || next == []
    ensures old(s.eof) && !(s.dev.kind == Memory && 0 < old(s.Buffered())) ==> line == None
  {
    hide Stream.BufferAt, Stream.Unread, Stream.HonestEof, Overwrite, LineOf;
    HonestIs(s);
    var n := s.WriteBuffer(b);
    assert b[..n] == b;
    HonestIs(s);
    s.UnreadIsFirst(s.position);
    NoLineOfNothing(s.EolByte(), limit);
    line := s.GetLine(limit);
  }

  lemma NoLineOfNothing(eol: byte, limit: Option<nat>)
    ensures LineOf([], eol, limit) == []
  {
  }

  /** The file "a\nb\n" behind a FILE*: when reading one byte has read all of it and raised the flag, a
      byte written over the line end hides the line behind it. */
  method LineLost(s: Stream) returns (ghost raised: bool, line: Option<seq<byte>>)
    requires s.Coherent() && s.position == 0 && s.Buffered() == 0 && !s.detectEol && !s.eolMac && s.dev.dependable
    requires s.dev.seekable && s.dev.kind == StdFile && s.dev.data == [97, LF, 98, LF]
    modifies s, s.readbuf, s.dev
    ensures raised ==> line == None && LineOf(File([97, 88, 98, LF], 2).Rest(), LF, None) == [98, LF]
  {
    hide Stream.BufferAt, Stream.Unread, Stream.HonestEof, Overwrite, LineOf, FindFrom;
    HonestIs(s);
    var a := s.Read(1);
    HonestIs(s);
    raised := s.eof;
    line := WriteThenLine(s, [88], None);
    NextLine();
  }

  lemma NextLine()
    ensures Overwrite([97, LF, 98, LF], 1, [88]) == [97, 88, 98, LF]
    ensures LineOf(File([97, 88, 98, LF], 2).Rest(), LF, None) == [98, LF]
  {
    hide FindFrom;
    var o: seq<byte> := Overwrite([97, LF, 98, LF], 1, [88]);
    assert o[0] == 97 && o[1] == 88 && o[2] == 98 && o[3] == LF;
    var rest := File([97, 88, 98, LF], 2).Rest();
    assert rest == [98, LF];
    assert IndexOf(rest, LF).Some? && rest[IndexOf(rest, LF).value] == LF;
  }

  // ---------- the line behind a detected one ----------

  /** What a line settles for those behind it: a CR behind a CR that nothing cut off, and otherwise, behind
      an LF, what the stream was set to. */
  predicate Settles(f: EolFlags, line: seq<byte>, limit: Option<nat>, e: byte) {
    line != [] &&
    if line[|line| - 1] == CR then !IsCut(line, limit) && e == CR
    else line[|line| - 1] == LF && e == if f.mac then CR else LF
  }

  /** Behind a line whose end was detected, the next line of a dependable device is the next line of the
      file by that end, however both were buffered. */
  method LineBehindLine(s: Stream, limit: Option<nat>, limit': Option<nat>, ghost e: byte)
    returns (first: seq<byte>, second: seq<byte>)
    requires s.Coherent() && 0 <= s.position && s.detectEol && s.dev.dependable && s.HonestEof()
    modifies s, s.readbuf, s.dev
    ensures first <= old(s.View()).Rest() && EolLast(first) && LineStops(old(s.View()).Rest(), limit, first)
    ensures Settles(old(s.Flags()), first, limit, e) ==>
              second == LineOf(old(s.View()).Advance(|first|).Rest(), e, limit')
  {
    hide Step, Stream.BufferAt, Stream.HonestEof, LineOf, EolLast, LineStops, NoEarlierEol;
    HonestIs(s);
    ghost var c, w := ConfigOf(s), WorldOf(s);
    var out := DoLine(s, limit);
    HonestIs(s);
    ghost var w' := WorldOf(s);
    HonestIsAtHand(w', LineOp(limit'));
    var out' := DoLine(s, limit');
    first, second := if out.r.Some? then out.r.value else [], if out'.r.Some? then out'.r.value else [];
  }

  /** The file "a\rb\rc": with detection on its lines are "a\r" and "b\r". */
  method MacLines(s: Stream) returns (first: seq<byte>, second: seq<byte>)
    requires s.Coherent() && s.position == 0 && s.detectEol && s.dev.dependable && s.HonestEof()
    requires s.dev.data == [97, CR, 98, CR, 99]
    modifies s, s.readbuf, s.dev
    ensures first == [97, CR] && second == [98, CR]
  {
    hide Stream.BufferAt, Stream.HonestEof, LineOf;
    ghost var rest: seq<byte> := s.View().Rest();
    assert rest == [97, CR, 98, CR, 99];
    first, second := LineBehindLine(s, None, None, CR);
    FirstMacLine(first);
    assert File([97, CR, 98, CR, 99], 2).Rest() == [98, CR, 99];
    SecondMacLine();
  }

  lemma FirstMacLine(s: seq<byte>)
    requires s <= [97, CR, 98, CR, 99] && EolLast(s) && LineStops([97, CR, 98, CR, 99], None, s)
    ensures s == [97, CR]
  {
    hide EolLast;
    LongerIsTwoLines(s);
    assert s == [97, CR, 98, CR, 99][..|s|];
  }

  lemma LongerIsTwoLines(s: seq<byte>)
    requires s <= [97, CR, 98, CR, 99]
    ensures 2 < |s| ==> !EolLast(s)
  {
    if 2 < |s| {
      assert s[1] == CR && s[|s| - 1] != LF;
    }
  }

  lemma SecondMacLine()
    ensures LineOf([98, CR, 99], CR, None) == [98, CR]
  {
    hide FindFrom;
    var rest: seq<byte> := [98, CR, 99];
    assert rest[1] == CR && rest[0] != CR;
    assert IndexOf(rest, CR).Some?;
  }
}
