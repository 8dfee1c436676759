/** BSON documents (bsonspec.org, version 1.0) and the cursor that searches them. */
module Bson {
  import opened Files

  // ---------- little-endian integers ----------

  /** The lowest `width` bytes of `n` in two's complement, lowest first. */
  function Le(n: int, width: nat): (s: seq<byte>)
    ensures |s| == width
    decreases width
  {
    if width == 0 then [] else [(n % 256) as byte] + Le(n / 256, width - 1)
  }

  function Unsigned(s: seq<byte>): nat {
    if s == [] then 0 else s[0] as int + 256 * Unsigned(s[1..])
  }

  function Power256(k: nat): (p: nat)
    ensures 0 < p
  {
    if k == 0 then 1 else 256 * Power256(k - 1)
  }

  function Signed(s: seq<byte>): int {
    if 2 * Unsigned(s) < Power256(|s|) then Unsigned(s) else Unsigned(s) - Power256(|s|)
  }

  predicate Fits(n: int, width: nat) {
    0 - Power256(width) <= 2 * n < Power256(width)
  }

  lemma {:induction false} UnsignedOfLe(n: int, width: nat)
    requires 0 - Power256(width) <= n < Power256(width)
    ensures Unsigned(Le(n, width)) == if 0 <= n then n else n + Power256(width)
    decreases width
  {
    if width == 0 {
      assert n == 0 || n == -1;
    } else {
      UnsignedOfLe(n / 256, width - 1);
      var s := Le(n, width);
      assert s[1..] == Le(n / 256, width - 1);
    }
  }

  /** What fits is read back as it was. */
  lemma SignedOfLe(n: int, width: nat)
    requires Fits(n, width)
    ensures Signed(Le(n, width)) == n
  {
    UnsignedOfLe(n, width);
  }

  // ---------- documents ----------

  datatype Value =
    | Double(bits: seq<byte>)
    | Str(chars: seq<byte>)
    | Document(fields: seq<Element>)
    | Array(items: seq<Element>)
    | Binary(subtype: byte, data: seq<byte>)
    | Undefined
    | ObjectId(id: seq<byte>)
    | Boolean(truth: bool)
    | DateTime(millis: int)
    | NullValue
    | Regexp(pattern: seq<byte>, options: seq<byte>)
    | DbPointer(namespace: seq<byte>, id: seq<byte>)
    | Javascript(code: seq<byte>)
    | Symbol(symbol: seq<byte>)
    | CodeWithScope(code: seq<byte>, scope: seq<Element>)
    | Int32(int32: int)
    | Timestamp(stamp: int)
    | Int64(int64: int)
    | MinKey
    | MaxKey

  datatype Element = Element(name: seq<byte>, value: Value)

  function TypeOf(v: Value): byte {
    match v
    case Double(_) => 0x01
    case Str(_) => 0x02
    case Document(_) => 0x03
    case Array(_) => 0x04
    case Binary(_, _) => 0x05
    case Undefined => 0x06
    case ObjectId(_) => 0x07
    case Boolean(_) => 0x08
    case DateTime(_) => 0x09
    case NullValue => 0x0A
    case Regexp(_, _) => 0x0B
    case DbPointer(_, _) => 0x0C
    case Javascript(_) => 0x0D
    case Symbol(_) => 0x0E
    case CodeWithScope(_, _) => 0x0F
    case Int32(_) => 0x10
    case Timestamp(_) => 0x11
    case Int64(_) => 0x12
    case MinKey => 0xFF
    case MaxKey => 0x7F
  }

  /** The length of a string, its bytes, and a NUL that the length counts. */
  function StringBytes(s: seq<byte>): seq<byte> {
    Le(|s| + 1, 4) + s + [0]
  }

  function ValueBytes(v: Value): seq<byte>
    decreases v, 0
  {
    match v
    case Double(bits) => bits
    case Str(s) => StringBytes(s)
    case Document(es) => Enclose(ElementsBytes(es))
    case Array(es) => Enclose(ElementsBytes(es))
    case Binary(subtype, data) => Le(|data|, 4) + [subtype] + data
    case Undefined => []
    case ObjectId(id) => id
    case Boolean(b) => [if b then 1 else 0]
    case DateTime(n) => Le(n, 8)
    case NullValue => []
    case Regexp(pattern, options) => pattern + [0] + options + [0]
    case DbPointer(s, id) => StringBytes(s) + id
    case Javascript(s) => StringBytes(s)
    case Symbol(s) => StringBytes(s)
    case CodeWithScope(code, scope) =>
      var inner := StringBytes(code) + Enclose(ElementsBytes(scope));
      Le(4 + |inner|, 4) + inner
    case Int32(n) => Le(n, 4)
    case Timestamp(n) => Le(n, 8)
    case Int64(n) => Le(n, 8)
    case MinKey => []
    case MaxKey => []
  }

  function ElementBytes(e: Element): seq<byte>
    decreases e, 1
  {
    [TypeOf(e.value)] + e.name + [0] + ValueBytes(e.value)
  }

  function ElementsBytes(es: seq<Element>): seq<byte>
    decreases es, 0
  {
    if es == [] then [] else ElementBytes(es[0]) + ElementsBytes(es[1..])
  }

  /** The whole length, the elements, and a NUL. */
  function Enclose(elements: seq<byte>): seq<byte> {
    Le(|elements| + 5, 4) + elements + [0]
  }

  function DocumentBytes(es: seq<Element>): seq<byte> {
    Enclose(ElementsBytes(es))
  }

  /** Names are C strings, fixed sizes are kept, and every length and number fits its field. */
  predicate WellFormed(v: Value)
    decreases v, 0
  {
    Fits(|ValueBytes(v)|, 4) &&
    match v
    case Double(bits) => |bits| == 8
    case Str(_) => true
    case Document(es) => AllWellFormed(es)
    case Array(es) => AllWellFormed(es)
    case Binary(_, _) => true
    case Undefined => true
    case ObjectId(id) => |id| == 12
    case Boolean(_) => true
    case DateTime(n) => Fits(n, 8)
    case NullValue => true
    case Regexp(pattern, options) => 0 !in pattern && 0 !in options
    case DbPointer(_, id) => |id| == 12
    case Javascript(_) => true
    case Symbol(_) => true
    case CodeWithScope(_, scope) => AllWellFormed(scope)
    case Int32(n) => Fits(n, 4)
    case Timestamp(n) => Fits(n, 8)
    case Int64(n) => Fits(n, 8)
    case MinKey => true
    case MaxKey => true
  }

  predicate AllWellFormed(es: seq<Element>)
    decreases es, 0
  {
    forall i | 0 <= i < |es| :: 0 !in es[i].name && WellFormed(es[i].value)
  }

  // ---------- the cursor ----------

  /** Where a move of the cursor leads: to a place, to a null pointer, out of the process, or out of
      the document. */
  datatype Cursor = At(pos: nat) | Null | Exits | Outside

  /** The first NUL at or behind `at`. */
  function Zero(data: seq<byte>, at: nat): (r: Option<nat>)
    ensures r.Some? ==> at <= r.value < |data| && data[r.value] == 0
    decreases |data| - at
  {
    if |data| <= at then None else if data[at] == 0 then Some(at) else Zero(data, at + 1)
  }

  function Move(pos: int): Cursor {
    if pos < 0 then Outside else At(pos)
  }

  /** The int32 at `p`; None if the data ends before it does. */
  function Int32At(data: seq<byte>, p: nat): Option<int> {
    if |data| < p + 4 then None else Some(Signed(data[p..p + 4]))
  }

  /** Past a string, `extra` bytes and the length itself. */
  function PastLength(data: seq<byte>, p: nat, extra: nat): Cursor {
    match Int32At(data, p)
    case None => Outside
    case Some(length) => Move(p + length + extra)
  }

  /** Past a value of a type, as far as bson_next knows the type. */
  function PastValue(data: seq<byte>, t: byte, p: nat): Cursor {
    if t == 0x01 then At(p + 8)
    else if t == 0x02 || t == 0x0D || t == 0x0E then PastLength(data, p, 4)
    else if t == 0x03 || t == 0x04 then PastLength(data, p, 0)
    else if t == 0x05 then PastLength(data, p, 5)
    else if t == 0x06 || t == 0x0A || t == 0xFF || t == 0x7F then At(p)
    else if t == 0x07 then At(p + 12)
    else if t == 0x08 then At(p + 1)
    else if t == 0x09 || t == 0x11 || t == 0x12 then At(p + 8)
    else if t == 0x0B then
      match Zero(data, p)
      case None => Outside
      case Some(z) => At(z + 1)
    else if t == 0x0C then PastLength(data, p, 16)
    else if t == 0x0F then Exits
    else if t == 0x10 then At(p + 4)
    else Null
  }

  /** bson_next. */
  function Next(data: seq<byte>, at: nat): Cursor {
    if |data| <= at then Outside
    else if data[at] == 0 then Null
    else
      match Zero(data, at + 1)
      case None => Outside
      case Some(z) => PastValue(data, data[at], z + 1)
  }

  /** A `char` is signed where it is read into an int. */
  function AsChar(b: byte): int {
    if b < 128 then b as int else b as int - 256
  }

  datatype Search = Found(pos: nat) | NotFound | Died | Lost

  /** bson_find_field: the value of the first element with the name and the type.  Lost if the cursor
      leaves the data or does not move forward. */
  function FindField(data: seq<byte>, at: nat, name: seq<byte>, t: int): Search
    decreases |data| - at
  {
    if |data| <= at then Lost
    else if data[at] == 0 then NotFound
    else
      match Zero(data, at + 1)
      case None => Lost
      case Some(z) =>
        if data[at + 1..z] == name && AsChar(data[at]) == t then Found(z + 1)
        else
          match Next(data, at)
          case At(pos) => if pos <= at then Lost else FindField(data, pos, name, t)
          case Null => NotFound
          case Exits => Died
          case Outside => Lost
  }

  /** `part` lies in `data` at `at`. */
  predicate Holds(data: seq<byte>, at: nat, part: seq<byte>) {
    at + |part| <= |data| && data[at..at + |part|] == part
  }

  lemma HoldsSplit(data: seq<byte>, at: nat, a: seq<byte>, b: seq<byte>)
    requires Holds(data, at, a + b)
    ensures Holds(data, at, a) && Holds(data, at + |a|, b)
  {
    assert data[at..at + |a|] == (a + b)[..|a|] == a;
    assert data[at + |a|..at + |a| + |b|] == (a + b)[|a|..] == b;
  }

  lemma HoldsOne(data: seq<byte>, at: nat, b: byte)
    requires Holds(data, at, [b])
    ensures at < |data| && data[at] == b
  {
    assert data[at..at + 1][0] == b;
  }

  lemma {:induction false} ZeroIs(data: seq<byte>, at: nat, z: nat)
    requires at <= z < |data| && data[z] == 0 && forall i | at <= i < z :: data[i] != 0
    ensures Zero(data, at) == Some(z)
    decreases z - at
  {
    if at < z {
      ZeroIs(data, at + 1, z);
    }
  }

  /** A C string ends where it should. */
  lemma ZeroEnds(data: seq<byte>, at: nat, s: seq<byte>)
    requires Holds(data, at, s + [0]) && 0 !in s
    ensures Zero(data, at) == Some(at + |s|) && data[at..at + |s|] == s
  {
    HoldsSplit(data, at, s, [0]);
    HoldsOne(data, at + |s|, 0);
    forall i | at <= i < at + |s|
      ensures data[i] != 0
    {
      assert data[i] == data[at..at + |s|][i - at];
    }
    ZeroIs(data, at, at + |s|);
  }

  lemma Int32Is(data: seq<byte>, p: nat, n: int)
    requires Holds(data, p, Le(n, 4)) && Fits(n, 4)
    ensures Int32At(data, p) == Some(n)
  {
    SignedOfLe(n, 4);
  }

  lemma LengthLands(data: seq<byte>, p: nat, length: nat, rest: seq<byte>, extra: nat, total: nat)
    requires Holds(data, p, Le(length, 4) + rest) && Fits(total, 4) && length <= total
    ensures PastLength(data, p, extra) == At(p + length + extra)
  {
    hide Le, Holds;
    HoldsSplit(data, p, Le(length, 4), rest);
    Int32Is(data, p, length);
  }

  lemma StringLands(data: seq<byte>, p: nat, s: seq<byte>, rest: seq<byte>, extra: nat, total: nat)
    requires Holds(data, p, StringBytes(s) + rest) && Fits(total, 4) && |s| < total
    ensures PastLength(data, p, extra) == At(p + |s| + 1 + extra)
  {
    hide Le, Holds, Fits, PastLength;
    assert StringBytes(s) + rest == Le(|s| + 1, 4) + (s + [0] + rest);
    LengthLands(data, p, |s| + 1, s + [0] + rest, extra, total);
  }

  predicate HasString(v: Value) {
    v.Str? || v.Javascript? || v.Symbol? || v.DbPointer?
  }

  lemma PastStringLands(data: seq<byte>, p: nat, v: Value)
    requires HasString(v) && Holds(data, p, ValueBytes(v)) && WellFormed(v)
    ensures PastValue(data, TypeOf(v), p) == At(p + |ValueBytes(v)|)
  {
    hide Fits, Le, Holds, PastLength;
    var total := |ValueBytes(v)|;
    if v.DbPointer? {
      StringLands(data, p, v.namespace, v.id, 16, total);
    } else {
      var s := if v.Str? then v.chars else if v.Javascript? then v.code else v.symbol;
      assert StringBytes(s) + [] == StringBytes(s);
      StringLands(data, p, s, [], 4, total);
    }
  }

  lemma PastOtherLands(data: seq<byte>, p: nat, v: Value)
    requires !HasString(v) && Holds(data, p, ValueBytes(v)) && WellFormed(v)
    ensures PastValue(data, TypeOf(v), p) ==
            if v.CodeWithScope? then Exits
            else if v.Regexp? then At(p + |v.pattern| + 1)
            else At(p + |ValueBytes(v)|)
  {
    hide Fits, Le, Zero, Int32At, AllWellFormed, ElementsBytes, Holds, PastLength, StringBytes;
    var total := |ValueBytes(v)|;
    match v
    case Document(es) => EncloseLands(data, p, ElementsBytes(es), total);
    case Array(es) => EncloseLands(data, p, ElementsBytes(es), total);
    case Binary(subtype, bytes) =>
      assert ValueBytes(v) == Le(|bytes|, 4) + ([subtype] + bytes);
      LengthLands(data, p, |bytes|, [subtype] + bytes, 5, total);
    case Regexp(pattern, options) =>
      assert ValueBytes(v) == (pattern + [0]) + (options + [0]);
      HoldsSplit(data, p, pattern + [0], options + [0]);
      ZeroEnds(data, p, pattern);
    case _ =>
  }

  /** How far bson_next goes over a value. */
  lemma PastValueLands(data: seq<byte>, p: nat, v: Value)
    requires Holds(data, p, ValueBytes(v)) && WellFormed(v)
    ensures PastValue(data, TypeOf(v), p) ==
            if v.CodeWithScope? then Exits
            else if v.Regexp? then At(p + |v.pattern| + 1)
            else At(p + |ValueBytes(v)|)
  {
    hide Holds, WellFormed, PastValue, ValueBytes, TypeOf;
    if HasString(v) {
      PastStringLands(data, p, v);
    } else {
      PastOtherLands(data, p, v);
    }
  }

  lemma EncloseLands(data: seq<byte>, p: nat, inner: seq<byte>, total: nat)
    requires Holds(data, p, Enclose(inner)) && Fits(total, 4) && |inner| + 5 <= total
    ensures PastLength(data, p, 0) == At(p + |Enclose(inner)|)
  {
    hide Le, Holds, Fits, PastLength;
    assert Enclose(inner) == Le(|inner| + 5, 4) + (inner + [0]);
    LengthLands(data, p, |inner| + 5, inner + [0], 0, total);
  }

  predicate NamedWell(e: Element) {
    0 !in e.name && WellFormed(e.value)
  }

  /** Behind the name of an element. */
  function ValueStart(e: Element, at: nat): nat {
    at + |e.name| + 2
  }

  /** A byte, a C string and a value, one behind the other. */
  lemma PartsOf(data: seq<byte>, at: nat, t: byte, name: seq<byte>, value: seq<byte>)
    requires Holds(data, at, [t] + name + [0] + value) && 0 !in name
    ensures at < |data| && data[at] == t
    ensures Zero(data, at + 1) == Some(at + 1 + |name|) && data[at + 1..at + 1 + |name|] == name
    ensures Holds(data, at + 1 + |name| + 1, value)
  {
    hide Holds, Zero;
    assert [t] + name + [0] + value == [t] + ((name + [0]) + value);
    HoldsSplit(data, at, [t], (name + [0]) + value);
    HoldsOne(data, at, t);
    HoldsSplit(data, at + 1, name + [0], value);
    ZeroEnds(data, at + 1, name);
  }

  /** The parts of an element that lies at `at`. */
  lemma ElementParts(data: seq<byte>, at: nat, e: Element)
    requires Holds(data, at, ElementBytes(e)) && NamedWell(e)
    ensures at < |data| && data[at] == TypeOf(e.value)
    ensures Zero(data, at + 1) == Some(at + 1 + |e.name|) && data[at + 1..at + 1 + |e.name|] == e.name
    ensures Holds(data, ValueStart(e, at), ValueBytes(e.value))
    ensures |ElementBytes(e)| == |e.name| + 2 + |ValueBytes(e.value)|
  {
    hide Holds, Zero, ValueBytes, WellFormed, TypeOf;
    PartsOf(data, at, TypeOf(e.value), e.name, ValueBytes(e.value));
  }

  /** bson_next steps over the whole of an element if and only if it is neither a regular expression,
      of which it skips the pattern only, nor code with scope, at which the process exits. */
  lemma NextLands(data: seq<byte>, at: nat, e: Element)
    requires Holds(data, at, ElementBytes(e)) && NamedWell(e)
    ensures Next(data, at) == At(at + |ElementBytes(e)|) <==> !e.value.Regexp? && !e.value.CodeWithScope?
    ensures e.value.CodeWithScope? ==> Next(data, at) == Exits
    ensures e.value.Regexp? ==> Next(data, at) == At(at + |ElementBytes(e)| - |e.value.options| - 1)
  {
    hide Holds, Zero, ElementBytes, PastValue, WellFormed;
    ElementParts(data, at, e);
    PastValueLands(data, ValueStart(e, at), e.value);
    TypeIsNotZero(e.value);
  }

  lemma TypeIsNotZero(v: Value)
    ensures TypeOf(v) != 0 && (TypeOf(v) <= 0x12 || v.MinKey? || v.MaxKey?)
  {
  }

  // ---------- searching a document ----------

  predicate Matches(e: Element, name: seq<byte>, t: int) {
    e.name == name && AsChar(TypeOf(e.value)) == t
  }

  /** The first element with the name and the type. */
  function FirstMatch(es: seq<Element>, name: seq<byte>, t: int): (r: Option<nat>)
    ensures r.Some? ==> r.value < |es| && Matches(es[r.value], name, t)
    ensures forall i | 0 <= i < (if r.Some? then r.value else |es|) :: !Matches(es[i], name, t)
  {
    if es == [] then None
    else if Matches(es[0], name, t) then Some(0)
    else
      var k :- FirstMatch(es[1..], name, t);
      assert forall i | 0 < i <= k :: es[i] == es[1..][i - 1];
      Some(k + 1)
  }

  /** Where the value of element `k` starts, if the elements start at `at`. */
  function ValueAt(es: seq<Element>, k: nat, at: nat): nat
    requires k < |es|
  {
    if k == 0 then ValueStart(es[0], at) else ValueAt(es[1..], k - 1, at + |ElementBytes(es[0])|)
  }

  /** The options that the specification knows: i, l, m, s, u and x. */
  predicate KnownOptions(v: Value) {
    v.Regexp? ==> forall c | c in v.options :: c in {0x69, 0x6C, 0x6D, 0x73, 0x75, 0x78}
  }

  /** The elements lie at `at`, with the NUL of their document behind them. */
  predicate Lies(data: seq<byte>, at: nat, es: seq<Element>) {
    Holds(data, at, ElementsBytes(es) + [0]) && AllWellFormed(es)
  }

  lemma LiesSplit(data: seq<byte>, at: nat, es: seq<Element>)
    requires Lies(data, at, es)
    ensures es == [] ==> at < |data| && data[at] == 0
    ensures es != [] ==> NamedWell(es[0]) && Holds(data, at, ElementBytes(es[0])) && Lies(data, at + |ElementBytes(es[0])|, es[1..])
  {
    hide Holds, ElementBytes, WellFormed;
    if es == [] {
      assert ElementsBytes(es) + [0] == [0];
      HoldsOne(data, at, 0);
    } else {
      assert ElementsBytes(es) + [0] == ElementBytes(es[0]) + (ElementsBytes(es[1..]) + [0]);
      HoldsSplit(data, at, ElementBytes(es[0]), ElementsBytes(es[1..]) + [0]);
    }
  }

  /** The types that a caller may ask for, none of which is an option of a regular expression. */
  predicate Searchable(t: int) {
    0 < t <= 0x12 || t == 0x7F || t == 0xFF
  }

  /** Behind the options of a regular expression, which bson_next does not skip, it knows no way on. */
  lemma OptionsAreLast(data: seq<byte>, at: nat, options: seq<byte>)
    requires Holds(data, at, options + [0]) && 0 !in options
    requires forall c | c in options :: c in {0x69, 0x6C, 0x6D, 0x73, 0x75, 0x78}
    ensures at < |data| && data[at] == (if options == [] then 0 else options[0]) && Next(data, at) == Null
    ensures data[at] == 0 || data[at] in {0x69, 0x6C, 0x6D, 0x73, 0x75, 0x78}
    ensures options != [] ==> Zero(data, at + 1).Some?
  {
    hide Zero;
    if options == [] {
      HoldsOne(data, at, 0);
    } else {
      assert options + [0] == [options[0]] + (options[1..] + [0]);
      HoldsSplit(data, at, [options[0]], options[1..] + [0]);
      HoldsOne(data, at, options[0]);
      ZeroEnds(data, at + 1, options[1..]);
      assert options[0] in options;
    }
  }

  /** So those options end every search. */
  lemma OptionsEndTheSearch(data: seq<byte>, at: nat, options: seq<byte>, name: seq<byte>, t: int)
    requires Holds(data, at, options + [0]) && 0 !in options && Searchable(t)
    requires forall c | c in options :: c in {0x69, 0x6C, 0x6D, 0x73, 0x75, 0x78}
    ensures FindField(data, at, name, t) == NotFound
  {
    hide Zero, Next, Holds;
    OptionsAreLast(data, at, options);
  }

  /** The first element that the cursor cannot step over. */
  function FirstStop(es: seq<Element>): (k: nat)
    ensures k <= |es|
    ensures k < |es| ==> es[k].value.Regexp? || es[k].value.CodeWithScope?
  {
    if es == [] || es[0].value.Regexp? || es[0].value.CodeWithScope? then 0 else 1 + FirstStop(es[1..])
  }

  /** bson_find_field on any document: it finds the first element with the name and the type if and only
      if every element before that can be stepped over.  Otherwise a regular expression ends the search
      with nothing found, and code with scope ends the process. */
  lemma {:induction false} FindsTheFirst(data: seq<byte>, at: nat, es: seq<Element>, name: seq<byte>, t: int)
    requires Lies(data, at, es) && Searchable(t)
    requires forall i | 0 <= i < |es| :: KnownOptions(es[i].value)
    ensures var k, stop := FirstMatch(es, name, t), FirstStop(es);
            FindField(data, at, name, t) ==
            if k.Some? && k.value <= stop then Found(ValueAt(es, k.value, at))
            else if stop < |es| && es[stop].value.CodeWithScope? then Died
            else NotFound
    decreases |es|
  {
    hide Holds, Zero, ElementBytes, Lies, WellFormed, Next, FirstMatch, FindField, Searchable;
    LiesSplit(data, at, es);
    if es == [] {
      EndIsNotFound(data, at, name, t);
    } else {
      var e, rest := es[0], es[1..];
      FindFieldStep(data, at, e, name, t);
      FirstMatchStep(es, name, t);
      if !Matches(e, name, t) {
        if e.value.Regexp? {
          RegexpEndsTheSearch(data, at, e, name, t);
        } else if !e.value.CodeWithScope? {
          FindsTheFirst(data, at + |ElementBytes(e)|, rest, name, t);
        }
      }
    }
  }

  lemma EndIsNotFound(data: seq<byte>, at: nat, name: seq<byte>, t: int)
    requires at < |data| && data[at] == 0
    ensures FindField(data, at, name, t) == NotFound
  {
  }

  lemma FirstMatchStep(es: seq<Element>, name: seq<byte>, t: int)
    requires es != []
    ensures var rest := FirstMatch(es[1..], name, t);
            FirstMatch(es, name, t) == if Matches(es[0], name, t) then Some(0)
                                       else if rest.Some? then Some(rest.value + 1) else None
  {
  }

  /** One turn of the search. */
  lemma FindFieldStep(data: seq<byte>, at: nat, e: Element, name: seq<byte>, t: int)
    requires Holds(data, at, ElementBytes(e)) && NamedWell(e)
    ensures Matches(e, name, t) ==> FindField(data, at, name, t) == Found(ValueStart(e, at))
    ensures !Matches(e, name, t) && !e.value.CodeWithScope? ==>
              Next(data, at).At? && at < Next(data, at).pos && FindField(data, at, name, t) == FindField(data, Next(data, at).pos, name, t)
    ensures !e.value.Regexp? && !e.value.CodeWithScope? ==> Next(data, at) == At(at + |ElementBytes(e)|)
    ensures !Matches(e, name, t) && e.value.CodeWithScope? ==> FindField(data, at, name, t) == Died
  {
    hide Holds, Zero, ElementBytes, WellFormed, Next;
    ElementParts(data, at, e);
    NextLands(data, at, e);
    TypeIsNotZero(e.value);
    RegexpSize(e.value);
  }

  lemma RegexpSize(v: Value)
    ensures v.Regexp? ==> |ValueBytes(v)| == |v.pattern| + |v.options| + 2
  {
  }

  lemma RegexpEndsTheSearch(data: seq<byte>, at: nat, e: Element, name: seq<byte>, t: int)
    requires Holds(data, at, ElementBytes(e)) && NamedWell(e) && e.value.Regexp? && KnownOptions(e.value)
    requires !Matches(e, name, t) && Searchable(t)
    ensures FindField(data, at, name, t) == NotFound
  {
    hide Holds, Zero, ElementBytes, Next, FindField, Searchable;
    FindFieldStep(data, at, e, name, t);
    ElementParts(data, at, e);
    NextLands(data, at, e);
    var p, o := e.value.pattern, e.value.options;
    assert ValueBytes(e.value) == (p + [0]) + (o + [0]);
    HoldsSplit(data, ValueStart(e, at), p + [0], o + [0]);
    OptionsEndTheSearch(data, ValueStart(e, at) + |p| + 1, o, name, t);
  }
}
