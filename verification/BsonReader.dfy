/** Reading values out of a BSON document: fields by name and type, and arrays string by string. */
module BsonReader {
  import opened Files
  import opened Bson

  /** What bson_get_current says of the cursor's place. */
  datatype Current = End | Field(name: seq<byte>, fieldType: int, value: nat) | Nowhere

  function GetCurrent(data: seq<byte>, at: nat): Current {
    if |data| <= at then Nowhere
    else if data[at] == 0 then End
    else
      match Zero(data, at)
      case None => Nowhere
      case Some(z) => Field(data[at + 1..z], AsChar(data[at]), z + 1)
  }

  /** bson_find_field, as a loop. */
  method Find(data: seq<byte>, at: nat, name: seq<byte>, t: int) returns (r: Search)
    ensures r == FindField(data, at, name, t)
  {
    hide Next;
    var ptr := at;
    var current := GetCurrent(data, ptr);
    while current.Field? && !(current.name == name && current.fieldType == t)
      invariant FindField(data, ptr, name, t) == FindField(data, at, name, t)
      invariant current == GetCurrent(data, ptr)
      decreases |data| - ptr
    {
      match Next(data, ptr)
      case Null => return NotFound;
      case Exits => return Died;
      case Outside => return Lost;
      case At(pos) =>
        if pos <= ptr { return Lost; }
        ptr := pos;
        current := GetCurrent(data, ptr);
    }
    r := match current
      case End => NotFound
      case Nowhere => Lost
      case Field(_, _, value) => Found(value);
  }

  /** The bytes up to the next NUL. */
  function CString(data: seq<byte>, at: nat): Option<seq<byte>> {
    var z :- Zero(data, at);
    Some(data[at..z])
  }

  function BytesAt(data: seq<byte>, p: nat, n: nat): Option<seq<byte>> {
    if |data| < p + n then None else Some(data[p..p + n])
  }

  function FoundAt(data: seq<byte>, at: nat, name: seq<byte>, t: int): Option<nat> {
    match FindField(data, at, name, t)
    case Found(pos) => Some(pos)
    case _ => None
  }

  // bson_find_field_as_...; None where the source returns 0 or would leave the data.
  function FindAsInt32(data: seq<byte>, at: nat, name: seq<byte>): Option<int> {
    var p :- FoundAt(data, at, name, 0x10);
    Int32At(data, p)
  }

  function FindAsInt64(data: seq<byte>, at: nat, name: seq<byte>): Option<int> {
    var p :- FoundAt(data, at, name, 0x12);
    var s :- BytesAt(data, p, 8);
    Some(Signed(s))
  }

  function FindAsDouble(data: seq<byte>, at: nat, name: seq<byte>): Option<seq<byte>> {
    var p :- FoundAt(data, at, name, 0x01);
    BytesAt(data, p, 8)
  }

  function FindAsBool(data: seq<byte>, at: nat, name: seq<byte>): Option<byte> {
    var p :- FoundAt(data, at, name, 0x08);
    if p < |data| then Some(data[p]) else None
  }

  function FindAsString(data: seq<byte>, at: nat, name: seq<byte>): Option<seq<byte>> {
    var p :- FoundAt(data, at, name, 0x02);
    CString(data, p + 4)
  }

  function FindAsDocument(data: seq<byte>, at: nat, name: seq<byte>): Option<nat> {
    var p :- FoundAt(data, at, name, 0x03);
    Some(p + 4)
  }

  function FindAsArray(data: seq<byte>, at: nat, name: seq<byte>): Option<nat> {
    var p :- FoundAt(data, at, name, 0x04);
    Some(p + 4)
  }

  /** A string as C sees it: up to its first NUL. */
  function TillNul(s: seq<byte>): (r: seq<byte>)
    ensures |r| <= |s| && r == s[..|r|] && 0 !in r
    ensures |r| < |s| ==> s[|r|] == 0
  {
    if s == [] || s[0] == 0 then [] else [s[0]] + TillNul(s[1..])
  }

  lemma {:induction false} ValueLies(data: seq<byte>, at: nat, es: seq<Element>, k: nat)
    requires Lies(data, at, es) && k < |es|
    ensures Holds(data, ValueAt(es, k, at), ValueBytes(es[k].value)) && WellFormed(es[k].value)
    decreases k
  {
    hide Holds, Lies, ElementBytes, WellFormed, ValueBytes;
    LiesSplit(data, at, es);
    if k == 0 {
      ElementParts(data, at, es[0]);
    } else {
      ValueLies(data, at + |ElementBytes(es[0])|, es[1..], k - 1);
    }
  }

  /** The C string inside a BSON string is the string up to its first NUL. */
  lemma CStringOfString(data: seq<byte>, p: nat, s: seq<byte>)
    requires Holds(data, p, StringBytes(s))
    ensures CString(data, p + 4) == Some(TillNul(s))
  {
    hide Holds, Le;
    var r := TillNul(s);
    assert s + [0] == (r + [0]) + (s + [0])[|r| + 1..];
    assert StringBytes(s) == Le(|s| + 1, 4) + ((r + [0]) + (s + [0])[|r| + 1..]);
    HoldsSplit(data, p, Le(|s| + 1, 4), (r + [0]) + (s + [0])[|r| + 1..]);
    HoldsSplit(data, p + 4, r + [0], (s + [0])[|r| + 1..]);
    ZeroEnds(data, p + 4, r);
  }

  lemma TillNulIsAll(s: seq<byte>)
    ensures TillNul(s) == s <==> 0 !in s
  {
    assert |TillNul(s)| < |s| ==> s[|TillNul(s)|] in s;
  }

  lemma InnerLies(data: seq<byte>, p: nat, es: seq<Element>)
    requires Holds(data, p, Enclose(ElementsBytes(es))) && AllWellFormed(es)
    ensures Lies(data, p + 4, es)
  {
    hide Holds, Le, AllWellFormed, ElementsBytes;
    var b := ElementsBytes(es);
    assert Enclose(b) == Le(|b| + 5, 4) + (b + [0]);
    HoldsSplit(data, p, Le(|b| + 5, 4), b + [0]);
  }

  /** The search reaches element `k`. */
  ghost predicate Reaches(es: seq<Element>, k: nat) {
    && k < |es| && k <= FirstStop(es)
    && FirstMatch(es, es[k].name, AsChar(TypeOf(es[k].value))) == Some(k)
    && forall i | 0 <= i < |es| :: KnownOptions(es[i].value)
  }

  /** A field that can be reached reads back as the value it was written with; a string up to its first
      NUL; a document or array as the place where its own elements lie. */
  lemma FieldReadsBack(data: seq<byte>, at: nat, es: seq<Element>, k: nat)
    requires Lies(data, at, es) && Reaches(es, k)
    ensures var name := es[k].name;
            match es[k].value
            case Int32(n) => FindAsInt32(data, at, name) == Some(n)
            case Int64(n) => FindAsInt64(data, at, name) == Some(n)
            case Double(bits) => FindAsDouble(data, at, name) == Some(bits)
            case Boolean(b) => FindAsBool(data, at, name) == Some(if b then 1 else 0)
            case Str(s) => FindAsString(data, at, name) == Some(TillNul(s))
            case Document(fields) =>
              FindAsDocument(data, at, name).Some? && Lies(data, FindAsDocument(data, at, name).value, fields)
            case Array(items) =>
              FindAsArray(data, at, name).Some? && Lies(data, FindAsArray(data, at, name).value, items)
            case _ => true
  {
    hide Lies, FindField, FirstMatch, FirstStop, ValueAt, Le, ElementsBytes, Zero, CString, AllWellFormed;
    var e := es[k];
    var p := ValueAt(es, k, at);
    ValueLies(data, at, es, k);
    if Searchable(AsChar(TypeOf(e.value))) {
      FindsTheFirst(data, at, es, e.name, AsChar(TypeOf(e.value)));
    }
    match e.value
    case Int32(n) => Int32Is(data, p, n);
    case Int64(n) => SignedOfLe(n, 8);
    case Str(s) => CStringOfString(data, p, s);
    case Document(fields) => InnerLies(data, p, fields);
    case Array(items) => InnerLies(data, p, items);
    case _ =>
  }

  // ---------- arrays ----------

  /** The C string of the last string at or before index `i`, which is what the caller's variable still
      holds after an element that is no string. */
  function Latest(es: seq<Element>, i: nat): Option<seq<byte>>
    requires i < |es|
  {
    if es[i].value.Str? then Some(TillNul(es[i].value.chars)) else if i == 0 then None else Latest(es, i - 1)
  }

  /** The loop of connections.c over bson_array_find_next_string: what the body sees, turn by turn.  A
      regular expression is the last element that it comes to, and at code with scope the process exits. */
  method NextStrings(data: seq<byte>, at: nat, ghost es: seq<Element>) returns (seen: seq<Option<seq<byte>>>, exits: bool)
    requires Lies(data, at, es) && forall i | 0 <= i < |es| :: KnownOptions(es[i].value)
    ensures var stop := FirstStop(es);
            && |seen| == (if stop < |es| && es[stop].value.Regexp? then stop + 1 else stop)
            && (exits <==> stop < |es| && es[stop].value.CodeWithScope?)
    ensures forall i | 0 <= i < |seen| :: seen[i] == Latest(es, i)
  {
    hide Lies, ElementBytes, Zero, Next, CString, WellFormed, Holds, GetCurrent, FirstStop, KnownOptions;
    seen, exits := [], false;
    var buffer := At(at);
    var latest: Option<seq<byte>> := None;
    ghost var n, here, inOptions := 0, at, false;
    while true
      invariant 0 <= n <= |es| && buffer == At(here) && Reading(data, here, es, n, inOptions)
      invariant |seen| == n && forall i | 0 <= i < n :: seen[i] == Latest(es, i)
      invariant latest == if n == 0 then None else Latest(es, n - 1)
      decreases |es| - n
    {
      Turn(data, here, es, n, inOptions);
      var current := GetCurrent(data, buffer.pos);
      if current.Field? && current.fieldType == 0x02 {
        latest := CString(data, current.value + 4);
      }
      buffer := Next(data, buffer.pos);
      if !buffer.At? {
        exits := buffer.Exits?;
        break;
      }
      seen := seen + [latest];
      inOptions, n, here := es[n].value.Regexp?, n + 1, buffer.pos;
    }
  }

  /** Where the loop is: in front of element `n`, or in the options of the regular expression before it. */
  ghost predicate Reading(data: seq<byte>, here: nat, es: seq<Element>, n: nat, inOptions: bool)
    requires n <= |es|
  {
    if inOptions then
      && 0 < n && FirstStop(es) == n - 1 && es[n - 1].value.Regexp? && KnownOptions(es[n - 1].value)
      && 0 !in es[n - 1].value.options && Holds(data, here, es[n - 1].value.options + [0])
    else
      && n <= FirstStop(es) && Lies(data, here, es[n..]) && forall i | n <= i < |es| :: KnownOptions(es[i].value)
  }

  /** One turn of the loop. */
  lemma Turn(data: seq<byte>, here: nat, es: seq<Element>, n: nat, inOptions: bool)
    requires n <= |es| && Reading(data, here, es, n, inOptions)
    ensures var current, next := GetCurrent(data, here), Next(data, here);
            && (inOptions || n == |es| ==> next == Null && !(current.Field? && current.fieldType == 0x02))
            && (inOptions ==> FirstStop(es) == n - 1 && es[n - 1].value.Regexp?)
            && (!inOptions ==> n <= FirstStop(es))
            && (!inOptions && n < |es| ==>
                  && (if es[n].value.CodeWithScope? then next == Exits && FirstStop(es) == n
                      else next.At? && Reading(data, next.pos, es, n + 1, es[n].value.Regexp?))
                  && current == Field(es[n].name, AsChar(TypeOf(es[n].value)), ValueStart(es[n], here))
                  && (es[n].value.Str? <==> AsChar(TypeOf(es[n].value)) == 0x02)
                  && (es[n].value.Str? ==> CString(data, current.value + 4) == Some(TillNul(es[n].value.chars))))
  {
    hide Lies, ElementBytes, Zero, Next, CString, WellFormed, Holds, GetCurrent, KnownOptions, TillNul, TypeOf, AsChar, FirstStop;
    if inOptions {
      OptionsAreRead(data, here, es[n - 1].value);
    } else {
      LiesSplit(data, here, es[n..]);
      StopIsAhead(es, n);
      if n == |es| {
        EndIsRead(data, here);
      } else {
        assert es[n..][0] == es[n] && es[n..][1..] == es[n + 1..];
        ElementIsRead(data, here, es[n]);
      }
    }
  }

  /** The first stop is here or further on. */
  lemma {:induction false} StopIsAhead(es: seq<Element>, n: nat)
    requires n <= FirstStop(es)
    ensures n < |es| && (es[n].value.Regexp? || es[n].value.CodeWithScope?) ==> FirstStop(es) == n
    ensures n < |es| && !es[n].value.Regexp? && !es[n].value.CodeWithScope? ==> n < FirstStop(es)
    ensures n == |es| ==> FirstStop(es) == n
  {
    if n != 0 {
      StopIsAhead(es[1..], n - 1);
    }
  }

  /** The options of a regular expression end the loop. */
  lemma OptionsAreRead(data: seq<byte>, at: nat, v: Value)
    requires v.Regexp? && KnownOptions(v) && 0 !in v.options && Holds(data, at, v.options + [0])
    ensures Next(data, at) == Null
    ensures GetCurrent(data, at).Field? ==> GetCurrent(data, at).fieldType != 0x02
  {
    hide Zero, Next, Holds;
    OptionsAreLast(data, at, v.options);
  }

  lemma EndIsRead(data: seq<byte>, at: nat)
    requires at < |data| && data[at] == 0
    ensures GetCurrent(data, at) == End && Next(data, at) == Null
  {
  }

  /** One element as the loop reads it. */
  lemma ElementIsRead(data: seq<byte>, at: nat, e: Element)
    requires Holds(data, at, ElementBytes(e)) && NamedWell(e)
    ensures GetCurrent(data, at) == Field(e.name, AsChar(TypeOf(e.value)), ValueStart(e, at))
    ensures e.value.CodeWithScope? ==> Next(data, at) == Exits
    ensures e.value.Regexp? ==> Next(data, at).At? && 0 !in e.value.options && Holds(data, Next(data, at).pos, e.value.options + [0])
    ensures !e.value.CodeWithScope? && !e.value.Regexp? ==> Next(data, at) == At(at + |ElementBytes(e)|)
    ensures e.value.Str? <==> AsChar(TypeOf(e.value)) == 0x02
    ensures e.value.Str? ==> CString(data, ValueStart(e, at) + 4) == Some(TillNul(e.value.chars))
  {
    hide ElementBytes, Zero, Next, CString, Holds, TillNul;
    ElementParts(data, at, e);
    NextLands(data, at, e);
    TypeIsNotZero(e.value);
    ZeroStep(data, at);
    if e.value.Str? {
      CStringOfString(data, ValueStart(e, at), e.value.chars);
    }
    if e.value.Regexp? {
      OptionsLie(data, ValueStart(e, at), e.value);
    }
  }

  lemma OptionsLie(data: seq<byte>, p: nat, v: Value)
    requires v.Regexp? && Holds(data, p, ValueBytes(v))
    ensures Holds(data, p + |v.pattern| + 1, v.options + [0]) && |ValueBytes(v)| == |v.pattern| + 1 + |v.options| + 1
  {
    hide Holds;
    assert ValueBytes(v) == (v.pattern + [0]) + (v.options + [0]);
    HoldsSplit(data, p, v.pattern + [0], v.options + [0]);
  }

  lemma ZeroStep(data: seq<byte>, at: nat)
    requires at < |data| && data[at] != 0
    ensures Zero(data, at) == Zero(data, at + 1)
  {
  }
}
