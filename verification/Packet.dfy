/** The growing byte string, and the query packets that are built in it and then patched with their
    lengths. */
module Packets {
  import opened Files
  import opened Bson
  import opened BsonReader

  class Str {
    var l: nat
    var d: array<byte>

    constructor ()
      ensures Valid() && View() == [] && fresh(d)
    {
      l := 0;
      d := new byte[0];
    }

    /** There is room for a NUL behind the content as soon as there is any room, and it is there. */
    predicate Valid()
      reads this, d
    {
      if d.Length == 0 then l == 0 else l < d.Length && d[l] == 0
    }

    function View(): seq<byte>
      requires Valid()
      reads this, d
    {
      d[..l]
    }

    /** mcon_str_addl: append, with 1024 bytes to spare whenever it has to grow. */
    method Add(s: seq<byte>)
      requires Valid()
      modifies this, d
      ensures Valid() && View() == old(View()) + s && (d == old(d) || fresh(d))
    {
      ghost var before := View();
      if l + |s| > d.Length - 1 {
        Grow(|s|);
      }
      forall i | 0 <= i < |s| {
        d[l + i] := s[i];
      }
      d[l + |s|] := 0;
      assert d[..l] == before && d[l..l + |s|] == s;
      l := l + |s|;
      assert d[..l] == before + s;
    }

    method Grow(n: nat)
      requires Valid()
      modifies `d
      ensures l <= d.Length && d[..l] == old(View()) && fresh(d) && d.Length == old(d.Length) + n + 1024
    {
      var wider := new byte[d.Length + n + 1024](i => 0);
      forall i | 0 <= i < d.Length {
        wider[i] := d[i];
      }
      assert wider[..l] == d[..l];
      d := wider;
    }

    /** The int at `at` is written over. */
    method Patch(at: nat, n: int)
      requires Valid() && at + 4 <= l
      modifies d
      ensures Valid() && View() == old(View())[..at] + Le(n, 4) + old(View())[at + 4..]
    {
      hide Le;
      var s := Le(n, 4);
      forall i | 0 <= i < 4 {
        d[at + i] := s[i];
      }
      assert View()[..at] == old(View())[..at] && View()[at..at + 4] == s && View()[at + 4..] == old(View())[at + 4..];
      assert View() == View()[..at] + View()[at..at + 4] + View()[at + 4..];
    }

    method AddInt64(name: seq<byte>, n: int)
      requires Valid()
      modifies this, d
      ensures Valid() && View() == old(View()) + ElementBytes(Element(name, Int64(n))) && (d == old(d) || fresh(d))
    {
      hide Le;
      ghost var before := View();
      Add([0x12]);
      Add(name + [0]);
      Add(Le(n, 8));
      assert View() == before + ([0x12] + name + [0] + Le(n, 8));
    }

    method AddInt32(name: seq<byte>, n: int)
      requires Valid()
      modifies this, d
      ensures Valid() && View() == old(View()) + ElementBytes(Element(name, Int32(n))) && (d == old(d) || fresh(d))
    {
      hide Le;
      ghost var before := View();
      Add([0x10]);
      Add(name + [0]);
      Add(Le(n, 4));
      assert View() == before + ([0x10] + name + [0] + Le(n, 4));
    }

    /** bson_add_stringl: the caller says what length is written in front of the string. */
    method AddStringL(name: seq<byte>, s: seq<byte>, length: int)
      requires Valid()
      modifies this, d
      ensures Valid() && View() == old(View()) + StringL(name, s, length) && (d == old(d) || fresh(d))
    {
      hide Le, Valid, View, StringL;
      ghost var before := View();
      Add([0x02]);
      Add(name + [0]);
      Add(Le(length, 4));
      Add(s);
      Add([0]);
      StringLInPieces(before, name, s, length);
    }

    lemma StringLInPieces(before: seq<byte>, name: seq<byte>, s: seq<byte>, length: int)
      ensures before + [0x02] + (name + [0]) + Le(length, 4) + s + [0] == before + StringL(name, s, length)
    {
      hide Le;
    }

    method AddString(name: seq<byte>, s: seq<byte>)
      requires Valid()
      modifies this, d
      ensures Valid() && View() == old(View()) + ElementBytes(Element(name, Bson.Str(s))) && (d == old(d) || fresh(d))
    {
      hide Le, Valid, View;
      AddStringL(name, s, |s| + 1);
      StringLIsString(name, s, |s| + 1);
    }
  }

  function StringL(name: seq<byte>, s: seq<byte>, length: int): seq<byte> {
    [0x02] + name + [0] + Le(length, 4) + s + [0]
  }

  /** A string with a length of the caller's own is a BSON string if and only if that length counts the
      string and one NUL. */
  lemma StringLIsString(name: seq<byte>, s: seq<byte>, length: int)
    ensures length == |s| + 1 ==> StringL(name, s, length) == ElementBytes(Element(name, Bson.Str(s)))
    ensures Fits(length, 4) && Fits(|s| + 1, 4) && StringL(name, s, length) == ElementBytes(Element(name, Bson.Str(s))) ==>
              length == |s| + 1
  {
    hide Le, Fits;
    var a, b, c := [0x02] + name + [0], Le(length, 4), Le(|s| + 1, 4);
    assert StringL(name, s, length) == a + b + (s + [0]);
    assert ElementBytes(Element(name, Bson.Str(s))) == a + c + (s + [0]);
    if a + b + (s + [0]) == a + c + (s + [0]) && Fits(length, 4) && Fits(|s| + 1, 4) {
      assert b == (a + b + (s + [0]))[|a|..|a| + 4] == (a + c + (s + [0]))[|a|..|a| + 4] == c;
      SignedOfLe(length, 4);
      SignedOfLe(|s| + 1, 4);
    }
  }

  function Ascii(s: string): seq<byte> {
    seq(|s|, i requires 0 <= i < |s| => (s[i] as int % 256) as byte)
  }

  const OP_QUERY := 2004
  const SLAVE_OK := 4

  /** The header behind the total length, up to the document. */
  function Header(reqid: int, ns: seq<byte>): (h: seq<byte>)
    ensures |h| == |ns| + 25
  {
    Le(reqid, 4) + Le(0, 4) + Le(OP_QUERY, 4) + Le(SLAVE_OK, 4) + (ns + [0]) + Le(0, 4) + Le(-1, 4)
  }

  /** An OP_QUERY message with a document of the given elements. */
  function Packet(reqid: int, ns: seq<byte>, elements: seq<byte>): seq<byte> {
    var body := Header(reqid, ns) + Enclose(elements);
    Le(|body| + 4, 4) + body
  }

  /** Where the document of a packet starts. */
  function DocumentStart(ns: seq<byte>): nat {
    |ns| + 29
  }

  lemma InFront(z: seq<byte>, a: seq<byte>, b: seq<byte>, c: seq<byte>, d: seq<byte>, e: seq<byte>, f: seq<byte>, g: seq<byte>)
    ensures [] + z + a + b + c + d + e + f + g == z + (a + b + c + d + e + f + g)
  {
    assert [] + z == z;
    assert z + a + b + c == z + (a + b + c);
    assert z + (a + b + c) + d + e == z + (a + b + c + d + e);
    assert z + (a + b + c + d + e) + f + g == z + (a + b + c + d + e + f + g);
  }

  /** create_simple_header; the lengths are zero for now. */
  method CreateSimpleHeader(reqid: int, ns: Option<seq<byte>>) returns (str: Str)
    ensures str.Valid() && fresh(str) && fresh(str.d)
    ensures str.View() == Le(0, 4) + Header(reqid, if ns.Some? then ns.value else Ascii("admin.$cmd"))
  {
    hide Le, Str.Valid, Str.View;
    str := new Str();
    str.Add(Le(0, 4));
    str.Add(Le(reqid, 4));
    str.Add(Le(0, 4));
    str.Add(Le(OP_QUERY, 4));
    str.Add(Le(SLAVE_OK, 4));
    var name := if ns.Some? then ns.value else Ascii("admin.$cmd");
    str.Add(name + [0]);
    str.Add(Le(0, 4));
    str.Add(Le(-1, 4));
    InFront(Le(0, 4), Le(reqid, 4), Le(0, 4), Le(OP_QUERY, 4), Le(SLAVE_OK, 4), name + [0], Le(0, 4), Le(-1, 4));
  }

  /** What every builder ends with: the NUL of the document, then the two lengths. */
  method Finish(str: Str, hdr: nat, ghost reqid: int, ghost ns: seq<byte>, ghost elements: seq<byte>)
    requires str.Valid() && hdr == DocumentStart(ns)
    requires str.View() == Le(0, 4) + Header(reqid, ns) + Le(0, 4) + elements
    modifies str, str.d
    ensures str.Valid() && str.View() == Packet(reqid, ns, elements)
  {
    hide Le, Header, Packet, DocumentStart, Str.Valid, Str.View;
    str.Add([0]);
    Patched(reqid, ns, elements);
    var end := Length(str);
    str.Patch(hdr, end - hdr);
    str.Patch(0, end);
  }

  method Length(str: Str) returns (n: nat)
    requires str.Valid()
    ensures n == |str.View()| == str.l
  {
    n := str.l;
  }

  /** The two patches make the message. */
  lemma Patched(reqid: int, ns: seq<byte>, elements: seq<byte>)
    ensures var v, hdr := Le(0, 4) + Header(reqid, ns) + Le(0, 4) + elements + [0], DocumentStart(ns);
            && hdr + 4 <= |v|
            && var once := v[..hdr] + Le(|v| - hdr, 4) + v[hdr + 4..];
               |once| == |v| && once[..0] + Le(|v|, 4) + once[0 + 4..] == Packet(reqid, ns, elements)
  {
    hide Le, Header;
    var h := Header(reqid, ns);
    var v := Le(0, 4) + h + Le(0, 4) + elements + [0];
    var body := h + Enclose(elements);
    BeforeLengths(h, elements);
    assert (Le(0, 4) + body)[4..] == body;
  }

  lemma BeforeLengths(h: seq<byte>, elements: seq<byte>)
    ensures var v := Le(0, 4) + h + Le(0, 4) + elements + [0];
            var hdr := |h| + 4;
            && |v| == hdr + |elements| + 5
            && v[..hdr] + Le(|v| - hdr, 4) + v[hdr + 4..] == Le(0, 4) + (h + Enclose(elements))
  {
    hide Le;
    var v := Le(0, 4) + h + Le(0, 4) + elements + [0];
    assert v == (Le(0, 4) + h) + Le(0, 4) + (elements + [0]);
    assert v[..|h| + 4] == Le(0, 4) + h && v[|h| + 8..] == elements + [0];
    assert Enclose(elements) == Le(|elements| + 5, 4) + (elements + [0]);
  }

  /** The packets for ping, isMaster, buildInfo, replSetGetStatus and getnonce differ in the command. */
  method CreateCommandPacket(reqid: int, command: seq<byte>) returns (str: Str)
    ensures str.Valid() && str.View() == Packet(reqid, Ascii("admin.$cmd"), ElementsBytes([Element(command, Int64(1))]))
  {
    hide Le, Header, Packet, ElementBytes, Str.Valid, Str.View;
    str := CreateSimpleHeader(reqid, None);
    var hdr := HeaderEnd(str, reqid, Ascii("admin.$cmd"));
    str.Add(Le(0, 4));
    str.AddInt64(command, 1);
    ElementsOfOne(Element(command, Int64(1)));
    Finish(str, hdr, reqid, Ascii("admin.$cmd"), ElementBytes(Element(command, Int64(1))));
  }

  /** The length so far is where the document will start. */
  method HeaderEnd(str: Str, ghost reqid: int, ghost ns: seq<byte>) returns (hdr: nat)
    requires str.Valid() && str.View() == Le(0, 4) + Header(reqid, ns)
    ensures hdr == DocumentStart(ns)
  {
    hide Le, Header;
    assert |str.View()| == |Le(0, 4)| + |Header(reqid, ns)|;
    hdr := str.l;
  }

  lemma ElementsOfOne(e: Element)
    ensures ElementsBytes([e]) == ElementBytes(e)
  {
    assert ElementsBytes([e]) == ElementBytes(e) + ElementsBytes([e][1..]);
  }

  lemma {:induction false} ElementsConcat(a: seq<Element>, b: seq<Element>)
    ensures ElementsBytes(a + b) == ElementsBytes(a) + ElementsBytes(b)
  {
    hide ElementBytes;
    if a == [] {
      assert a + b == b;
    } else {
      ElementsConcat(a[1..], b);
      assert (a + b)[1..] == a[1..] + b;
      ConcatAssociates(ElementBytes(a[0]), ElementsBytes(a[1..]), ElementsBytes(b));
    }
  }

  /** One more element behind those that are there. */
  lemma OneMore(base: seq<byte>, es: seq<Element>, e: Element)
    ensures base + ElementsBytes(es) + ElementBytes(e) == base + ElementsBytes(es + [e])
  {
    hide ElementBytes, ElementsBytes;
    ElementsConcat(es, [e]);
    ElementsOfOne(e);
  }

  /** A header for a database, and room for the length of the document. */
  method StartDocument(reqid: int, database: seq<byte>) returns (str: Str, hdr: nat)
    ensures str.Valid() && fresh(str) && fresh(str.d) && hdr == DocumentStart(CommandNs(database))
    ensures str.View() == Le(0, 4) + Header(reqid, CommandNs(database)) + Le(0, 4)
  {
    hide Le, Header, Str.Valid, Str.View;
    str := CreateSimpleHeader(reqid, Some(CommandNs(database)));
    hdr := HeaderEnd(str, reqid, CommandNs(database));
    str.Add(Le(0, 4));
  }

  /** The namespace for commands of a database. */
  function CommandNs(database: seq<byte>): seq<byte> {
    database + Ascii(".$cmd")
  }

  function Optional(name: string, s: Option<seq<byte>>): seq<Element> {
    if s.Some? then [Element(Ascii(name), Bson.Str(s.value))] else []
  }

  function AuthenticateElements(mechanism: Option<seq<byte>>, username: seq<byte>, nonce: Option<seq<byte>>,
      key: Option<seq<byte>>): seq<Element>
  {
    [Element(Ascii("authenticate"), Int64(1)), Element(Ascii("user"), Bson.Str(username))]
    + Optional("nonce", nonce) + Optional("key", key) + Optional("mechanism", mechanism)
  }

  method AddOptional(str: Str, name: string, s: Option<seq<byte>>, ghost base: seq<byte>, ghost es: seq<Element>)
    requires str.Valid() && str.View() == base + ElementsBytes(es)
    modifies str, str.d
    ensures str.Valid() && str.View() == base + ElementsBytes(es + Optional(name, s)) && (str.d == old(str.d) || fresh(str.d))
  {
    hide ElementBytes, ElementsBytes, Str.Valid, Str.View, Ascii;
    if s.Some? {
      str.AddString(Ascii(name), s.value);
      OneMore(base, es, Element(Ascii(name), Bson.Str(s.value)));
    } else {
      assert es + [] == es;
    }
  }

  method CreateAuthenticatePacket(reqid: int, mechanism: Option<seq<byte>>, database: seq<byte>, username: seq<byte>,
      nonce: Option<seq<byte>>, key: Option<seq<byte>>)
    returns (str: Str)
    ensures str.Valid()
    ensures str.View() == Packet(reqid, CommandNs(database), ElementsBytes(AuthenticateElements(mechanism, username, nonce, key)))
  {
    hide Le, Header, Packet, ElementBytes, ElementsBytes, Str.Valid, Str.View, Ascii, Optional, CommandNs;
    var hdr;
    str, hdr := StartDocument(reqid, database);
    ghost var base, es := str.View(), [];
    EmptyIsNothing(base);
    str.AddInt64(Ascii("authenticate"), 1);
    OneMore(base, es, Element(Ascii("authenticate"), Int64(1)));
    es := es + [Element(Ascii("authenticate"), Int64(1))];
    str.AddString(Ascii("user"), username);
    OneMore(base, es, Element(Ascii("user"), Bson.Str(username)));
    es := es + [Element(Ascii("user"), Bson.Str(username))];
    AddOptional(str, "nonce", nonce, base, es);
    es := es + Optional("nonce", nonce);
    AddOptional(str, "key", key, base, es);
    es := es + Optional("key", key);
    AddOptional(str, "mechanism", mechanism, base, es);
    es := es + Optional("mechanism", mechanism);
    assert es == AuthenticateElements(mechanism, username, nonce, key);
    Finish(str, hdr, reqid, CommandNs(database), ElementsBytes(es));
  }

  lemma EmptyIsNothing(base: seq<byte>)
    ensures base == base + ElementsBytes([])
  {
  }

  /** The elements of a saslStart command, and their bytes when the caller gives the payload's length. */
  function SaslStartElements(mechanism: seq<byte>, payload: seq<byte>): seq<Element> {
    [Element(Ascii("saslStart"), Int64(1)), Element(Ascii("mechanism"), Bson.Str(mechanism)),
     Element(Ascii("payload"), Bson.Str(payload)), Element(Ascii("autoAuthorize"), Int64(1))]
  }

  function SaslStartBytes(mechanism: seq<byte>, payload: seq<byte>, length: int): seq<byte> {
    ElementsBytes([Element(Ascii("saslStart"), Int64(1)), Element(Ascii("mechanism"), Bson.Str(mechanism))])
    + StringL(Ascii("payload"), payload, length) + ElementBytes(Element(Ascii("autoAuthorize"), Int64(1)))
  }

  method CreateSaslStartPacket(reqid: int, database: seq<byte>, mechanism: Option<seq<byte>>, payload: seq<byte>, length: int)
    returns (str: Str)
    ensures str.Valid()
    ensures str.View() == Packet(reqid, CommandNs(database),
              if mechanism.Some? then SaslStartBytes(mechanism.value, payload, length)
              else ElementsBytes(SaslStartElements(Ascii("What-Do-You-Support?"), [])))
  {
    hide Le, Header, Packet, ElementBytes, ElementsBytes, Str.Valid, Str.View, Ascii, CommandNs, StringL;
    var hdr;
    str, hdr := StartDocument(reqid, database);
    ghost var base, es := str.View(), [];
    EmptyIsNothing(base);
    str.AddInt64(Ascii("saslStart"), 1);
    OneMore(base, es, Element(Ascii("saslStart"), Int64(1)));
    es := es + [Element(Ascii("saslStart"), Int64(1))];
    var name := if mechanism.Some? then mechanism.value else Ascii("What-Do-You-Support?");
    str.AddString(Ascii("mechanism"), name);
    OneMore(base, es, Element(Ascii("mechanism"), Bson.Str(name)));
    es := es + [Element(Ascii("mechanism"), Bson.Str(name))];
    if mechanism.Some? {
      str.AddStringL(Ascii("payload"), payload, length);
      str.AddInt64(Ascii("autoAuthorize"), 1);
      assert es == [Element(Ascii("saslStart"), Int64(1)), Element(Ascii("mechanism"), Bson.Str(name))];
      assert str.View() == base + SaslStartBytes(name, payload, length);
      Finish(str, hdr, reqid, CommandNs(database), SaslStartBytes(name, payload, length));
    } else {
      str.AddString(Ascii("payload"), []);
      OneMore(base, es, Element(Ascii("payload"), Bson.Str([])));
      es := es + [Element(Ascii("payload"), Bson.Str([]))];
      str.AddInt64(Ascii("autoAuthorize"), 1);
      OneMore(base, es, Element(Ascii("autoAuthorize"), Int64(1)));
      es := es + [Element(Ascii("autoAuthorize"), Int64(1))];
      assert es == SaslStartElements(name, []);
      Finish(str, hdr, reqid, CommandNs(database), ElementsBytes(es));
    }
  }

  function SaslContinueElements(conversation: int, payload: seq<byte>): seq<Element> {
    [Element(Ascii("saslContinue"), Int64(1)), Element(Ascii("conversationId"), Int32(conversation)),
     Element(Ascii("payload"), Bson.Str(payload))]
  }

  function SaslContinueBytes(conversation: int, payload: seq<byte>, length: int): seq<byte> {
    ElementsBytes([Element(Ascii("saslContinue"), Int64(1)), Element(Ascii("conversationId"), Int32(conversation))])
    + StringL(Ascii("payload"), payload, length)
  }

  method CreateSaslContinuePacket(reqid: int, database: seq<byte>, conversation: int, payload: seq<byte>, length: int)
    returns (str: Str)
    ensures str.Valid()
    ensures str.View() == Packet(reqid, CommandNs(database), SaslContinueBytes(conversation, payload, length))
  {
    hide Le, Header, Packet, ElementBytes, ElementsBytes, Str.Valid, Str.View, Ascii, CommandNs, StringL;
    var hdr;
    str, hdr := StartDocument(reqid, database);
    ghost var base, es := str.View(), [];
    EmptyIsNothing(base);
    str.AddInt64(Ascii("saslContinue"), 1);
    OneMore(base, es, Element(Ascii("saslContinue"), Int64(1)));
    es := es + [Element(Ascii("saslContinue"), Int64(1))];
    str.AddInt32(Ascii("conversationId"), conversation);
    OneMore(base, es, Element(Ascii("conversationId"), Int32(conversation)));
    es := es + [Element(Ascii("conversationId"), Int32(conversation))];
    assert es == [Element(Ascii("saslContinue"), Int64(1)), Element(Ascii("conversationId"), Int32(conversation))];
    str.AddStringL(Ascii("payload"), payload, length);
    assert str.View() == base + SaslContinueBytes(conversation, payload, length);
    Finish(str, hdr, reqid, CommandNs(database), SaslContinueBytes(conversation, payload, length));
  }

  // ---------- what the packets are ----------

  /** The lengths that were patched in are right, the document ends in a NUL, and its elements lie where
      the reader looks for them. */
  lemma PacketLayout(reqid: int, ns: seq<byte>, es: seq<Element>)
    requires AllWellFormed(es) && Fits(|Packet(reqid, ns, ElementsBytes(es))|, 4)
    ensures var p := Packet(reqid, ns, ElementsBytes(es));
            && Int32At(p, 0) == Some(|p|)
            && Int32At(p, DocumentStart(ns)) == Some(|p| - DocumentStart(ns))
            && p[DocumentStart(ns)..] == DocumentBytes(es) && p[|p| - 1] == 0
            && Lies(p, DocumentStart(ns) + 4, es)
  {
    hide Le, Header, ElementsBytes, AllWellFormed, Fits, Holds;
    var inner := ElementsBytes(es);
    var h, p := Header(reqid, ns), Packet(reqid, ns, inner);
    var body := h + Enclose(inner);
    HoldsAll(p);
    HoldsSplit(p, 0, Le(|body| + 4, 4), body);
    HoldsSplit(p, 4, h, Enclose(inner));
    SmallerFits(|inner| + 5, |p|);
    assert Enclose(inner) == Le(|inner| + 5, 4) + (inner + [0]);
    HoldsSplit(p, DocumentStart(ns), Le(|inner| + 5, 4), inner + [0]);
    Int32Is(p, 0, |p|);
    Int32Is(p, DocumentStart(ns), |inner| + 5);
    assert p[DocumentStart(ns)..] == Enclose(inner);
    assert p[|p| - 1] == Enclose(inner)[|inner| + 4];
  }

  /** The header as the protocol lays it out: request id, nothing responded to, OP_QUERY, slaveOk, the
      namespace as a C string, nothing to skip, and one reply and no cursor. */
  lemma PacketHeader(reqid: int, ns: seq<byte>, elements: seq<byte>)
    requires Fits(reqid, 4)
    ensures var p := Packet(reqid, ns, elements);
            && Int32At(p, 4) == Some(reqid) && Int32At(p, 8) == Some(0)
            && Int32At(p, 12) == Some(2004) && Int32At(p, 16) == Some(4)
            && CString(p, 20) == Some(TillNul(ns))
            && Int32At(p, |ns| + 21) == Some(0) && Int32At(p, |ns| + 25) == Some(-1)
  {
    hide Le, Holds, Int32At, CString, Enclose, TillNul;
    SmallNumbersFit();
    var p := Packet(reqid, ns, elements);
    var name := ns + [0];
    HeaderLies(reqid, ns, elements);
    Int32Is(p, 4, reqid);
    Int32Is(p, 8, 0);
    Int32Is(p, 12, 2004);
    Int32Is(p, 16, 4);
    CStringLies(p, 20, ns);
    Int32Is(p, |ns| + 21, 0);
    Int32Is(p, |ns| + 25, -1);
  }

  lemma SmallNumbersFit()
    ensures Fits(0, 4) && Fits(4, 4) && Fits(2004, 4) && Fits(-1, 4)
  {
    assert Power256(4) == 0x1_0000_0000;
  }

  lemma CStringLies(p: seq<byte>, at: nat, s: seq<byte>)
    requires Holds(p, at, s + [0])
    ensures CString(p, at) == Some(TillNul(s))
  {
    hide Holds;
    var r := TillNul(s);
    assert s + [0] == (r + [0]) + (s + [0])[|r| + 1..];
    HoldsSplit(p, at, r + [0], (s + [0])[|r| + 1..]);
    ZeroEnds(p, at, r);
  }

  lemma FromTheRight(a: seq<byte>, b: seq<byte>, c: seq<byte>, d: seq<byte>, e: seq<byte>, f: seq<byte>, g: seq<byte>, h: seq<byte>)
    ensures a + b + c + d + e + f + g + h == a + (b + (c + (d + (e + (f + (g + h))))))
  {
    ConcatAssociates(a + b + c + d + e + f, g, h);
    ConcatAssociates(a + b + c + d + e, f, g + h);
    ConcatAssociates(a + b + c + d, e, f + (g + h));
    ConcatAssociates(a + b + c, d, e + (f + (g + h)));
    ConcatAssociates(a + b, c, d + (e + (f + (g + h))));
    ConcatAssociates(a, b, c + (d + (e + (f + (g + h)))));
  }

  /** The parts of a message, one behind the other. */
  lemma HeaderLies(reqid: int, ns: seq<byte>, elements: seq<byte>)
    ensures var p := Packet(reqid, ns, elements);
            && Holds(p, 4, Le(reqid, 4)) && Holds(p, 8, Le(0, 4)) && Holds(p, 12, Le(2004, 4)) && Holds(p, 16, Le(4, 4))
            && Holds(p, 20, ns + [0]) && Holds(p, |ns| + 21, Le(0, 4)) && Holds(p, |ns| + 25, Le(-1, 4))
  {
    hide Le, Holds, Enclose;
    var p, doc := Packet(reqid, ns, elements), Enclose(elements);
    var g := Le(-1, 4) + doc;
    var f := Le(0, 4) + g;
    var e := (ns + [0]) + f;
    var d := Le(4, 4) + e;
    var c := Le(2004, 4) + d;
    var b := Le(0, 4) + c;
    FromTheRight(Le(reqid, 4), Le(0, 4), Le(2004, 4), Le(4, 4), ns + [0], Le(0, 4), Le(-1, 4), doc);
    assert p == p[..4] + (Le(reqid, 4) + b);
    HoldsAll(p);
    HoldsSplit(p, 0, p[..4], Le(reqid, 4) + b);
    HoldsSplit(p, 4, Le(reqid, 4), b);
    HoldsSplit(p, 8, Le(0, 4), c);
    HoldsSplit(p, 12, Le(2004, 4), d);
    HoldsSplit(p, 16, Le(4, 4), e);
    HoldsSplit(p, 20, ns + [0], f);
    HoldsSplit(p, |ns| + 21, Le(0, 4), g);
    HoldsSplit(p, |ns| + 25, Le(-1, 4), doc);
  }

  lemma HoldsAll(p: seq<byte>)
    ensures Holds(p, 0, p)
  {
  }

  lemma SmallerFits(n: nat, m: nat)
    requires n <= m && Fits(m, 4)
    ensures Fits(n, 4)
  {
  }

  /** What the reader finds in a packet under the name of an element that its search reaches is the
      value that was added. */
  lemma PacketReadsBack(reqid: int, ns: seq<byte>, es: seq<Element>, k: nat)
    requires AllWellFormed(es) && Fits(|Packet(reqid, ns, ElementsBytes(es))|, 4) && Reaches(es, k)
    ensures var p, at := Packet(reqid, ns, ElementsBytes(es)), DocumentStart(ns) + 4;
            match es[k].value
            case Int32(n) => FindAsInt32(p, at, es[k].name) == Some(n)
            case Int64(n) => FindAsInt64(p, at, es[k].name) == Some(n)
            case Str(s) => FindAsString(p, at, es[k].name) == Some(TillNul(s))
            case _ => true
  {
    hide Packet, ElementsBytes, AllWellFormed, Fits, Lies, Reaches, FindAsInt32, FindAsInt64, FindAsString;
    PacketLayout(reqid, ns, es);
    FieldReadsBack(Packet(reqid, ns, ElementsBytes(es)), DocumentStart(ns) + 4, es, k);
  }

  /** A saslStart packet holds a BSON document if and only if the caller counts the payload and one NUL. */
  lemma SaslStartIsADocument(mechanism: seq<byte>, payload: seq<byte>, length: int)
    requires Fits(length, 4) && Fits(|payload| + 1, 4)
    ensures SaslStartBytes(mechanism, payload, length) == ElementsBytes(SaslStartElements(mechanism, payload))
            <==> length == |payload| + 1
  {
    hide Fits, ElementBytes, ElementsBytes, StringL, Ascii;
    var front := [Element(Ascii("saslStart"), Int64(1)), Element(Ascii("mechanism"), Bson.Str(mechanism))];
    var e, last := Element(Ascii("payload"), Bson.Str(payload)), Element(Ascii("autoAuthorize"), Int64(1));
    assert SaslStartElements(mechanism, payload) == front + [e] + [last];
    OneMore([], front, e);
    OneMore([], front + [e], last);
    StringLIsString(Ascii("payload"), payload, length);
    Middle(ElementsBytes(front), StringL(Ascii("payload"), payload, length), ElementBytes(e), ElementBytes(last));
  }

  lemma Middle(a: seq<byte>, b: seq<byte>, c: seq<byte>, d: seq<byte>)
    ensures [] + a + c + d == a + c + d
    ensures a + b + d == a + c + d <==> b == c
  {
    if a + b + d == a + c + d {
      assert |b| == |c|;
      assert b == (a + b + d)[|a|..|a| + |b|] == (a + c + d)[|a|..|a| + |b|] == c;
    }
  }

  /** A saslContinue packet, too, if and only if the caller counts the payload and one NUL. */
  lemma SaslContinueIsADocument(conversation: int, payload: seq<byte>, length: int)
    requires Fits(length, 4) && Fits(|payload| + 1, 4)
    ensures SaslContinueBytes(conversation, payload, length) == ElementsBytes(SaslContinueElements(conversation, payload))
            <==> length == |payload| + 1
  {
    hide Fits, ElementBytes, ElementsBytes, StringL, Ascii;
    var front := [Element(Ascii("saslContinue"), Int64(1)), Element(Ascii("conversationId"), Int32(conversation))];
    var e := Element(Ascii("payload"), Bson.Str(payload));
    assert SaslContinueElements(conversation, payload) == front + [e];
    OneMore([], front, e);
    StringLIsString(Ascii("payload"), payload, length);
    Middle(ElementsBytes(front), StringL(Ascii("payload"), payload, length), ElementBytes(e), []);
    assert ElementsBytes(front) + ElementBytes(e) + [] == ElementsBytes(front) + ElementBytes(e);
    assert ElementsBytes(front) + StringL(Ascii("payload"), payload, length) + [] == SaslContinueBytes(conversation, payload, length);
  }

  // ---------- what the server reads ----------

  /** What the builders write: numbers that fit, and strings. */
  predicate IsPlain(e: Element) {
    0 !in e.name &&
    match e.value
    case Str(_) => true
    case Int32(n) => Fits(n, 4)
    case Int64(n) => Fits(n, 8)
    case _ => false
  }

  predicate AllPlain(es: seq<Element>) {
    forall i | 0 <= i < |es| :: IsPlain(es[i])
  }

  /** Such elements are well formed when they fit into a packet. */
  lemma {:induction false} PlainIsWellFormed(es: seq<Element>, total: nat)
    requires AllPlain(es) && |ElementsBytes(es)| <= total && Fits(total, 4)
    ensures AllWellFormed(es)
  {
    hide Fits, ValueBytes;
    if es != [] {
      PlainIsWellFormed(es[1..], total);
      SmallerFits(|ValueBytes(es[0].value)|, total);
      assert IsPlain(es[0]);
      forall i | 0 <= i < |es|
        ensures 0 !in es[i].name && WellFormed(es[i].value)
      {
        assert i != 0 ==> es[i] == es[1..][i - 1];
      }
    }
  }

  /** The first string under a name. */
  function StringIn(es: seq<Element>, name: seq<byte>): Option<seq<byte>> {
    if es == [] then None
    else if es[0].name == name && es[0].value.Str? then Some(es[0].value.chars)
    else StringIn(es[1..], name)
  }

  lemma {:induction false} StringInConcat(a: seq<Element>, b: seq<Element>, name: seq<byte>)
    ensures StringIn(a + b, name) == if StringIn(a, name).Some? then StringIn(a, name) else StringIn(b, name)
  {
    if a == [] {
      assert a + b == b;
    } else {
      StringInConcat(a[1..], b, name);
      assert (a + b)[1..] == a[1..] + b;
    }
  }

  lemma {:induction false} StringInIsFirst(es: seq<Element>, name: seq<byte>)
    ensures match FirstMatch(es, name, 0x02)
            case None => StringIn(es, name) == None
            case Some(k) => es[k].value.Str? && StringIn(es, name) == Some(es[k].value.chars)
  {
    if es != [] {
      StringInIsFirst(es[1..], name);
    }
  }

  lemma {:induction false} PlainNeverStops(es: seq<Element>)
    requires AllPlain(es)
    ensures FirstStop(es) == |es| && forall i | 0 <= i < |es| :: KnownOptions(es[i].value)
  {
    assert forall i | 0 <= i < |es| :: IsPlain(es[i]);
  }

  /** A string as the reader of a C string gets it. */
  function Seen(s: Option<seq<byte>>): Option<seq<byte>> {
    if s.Some? then Some(TillNul(s.value)) else None
  }

  /** Searching plain elements for a string finds the first under the name, or nothing. */
  lemma StringReadsBack(data: seq<byte>, at: nat, es: seq<Element>, name: seq<byte>)
    requires Lies(data, at, es) && AllPlain(es)
    ensures FindAsString(data, at, name) == Seen(StringIn(es, name))
  {
    hide Lies, FindField, ValueAt, AllPlain, FirstMatch, FirstStop, StringIn, CString, TillNul, KnownOptions;
    PlainNeverStops(es);
    StringInIsFirst(es, name);
    FindsTheFirst(data, at, es, name, 0x02);
    var k := FirstMatch(es, name, 0x02);
    if k.Some? {
      ValueLies(data, at, es, k.value);
      CStringOfString(data, ValueAt(es, k.value, at), es[k.value].value.chars);
    }
  }

  /** The names of the parts of a login have lengths of their own. */
  lemma AuthenticateNames()
    ensures |Ascii("authenticate")| == 12 && |Ascii("user")| == 4 && |Ascii("nonce")| == 5
    ensures |Ascii("key")| == 3 && |Ascii("mechanism")| == 9
    ensures forall n | n in ["authenticate", "user", "nonce", "key", "mechanism"] :: 0 !in Ascii(n)
  {
  }

  lemma OptionalIn(name: string, s: Option<seq<byte>>, wanted: seq<byte>)
    ensures StringIn(Optional(name, s), wanted) == if Ascii(name) == wanted then s else None
  {
    assert StringIn([], wanted) == None;
  }

  lemma AuthenticateStrings(mechanism: Option<seq<byte>>, username: seq<byte>, nonce: Option<seq<byte>>, key: Option<seq<byte>>)
    ensures var es := AuthenticateElements(mechanism, username, nonce, key);
            && StringIn(es, Ascii("user")) == Some(username) && StringIn(es, Ascii("nonce")) == nonce
            && StringIn(es, Ascii("key")) == key && StringIn(es, Ascii("mechanism")) == mechanism
  {
    hide Ascii, Optional, StringIn;
    AuthenticateNames();
    forall name | name in [Ascii("user"), Ascii("nonce"), Ascii("key"), Ascii("mechanism")]
      ensures StringIn(AuthenticateElements(mechanism, username, nonce, key), name) ==
              if name == Ascii("user") then Some(username) else if name == Ascii("nonce") then nonce
              else if name == Ascii("key") then key else mechanism
    {
      AuthenticateString(mechanism, username, nonce, key, name);
    }
  }

  lemma AuthenticateString(mechanism: Option<seq<byte>>, username: seq<byte>, nonce: Option<seq<byte>>, key: Option<seq<byte>>,
      name: seq<byte>)
    requires name in [Ascii("user"), Ascii("nonce"), Ascii("key"), Ascii("mechanism")]
    ensures StringIn(AuthenticateElements(mechanism, username, nonce, key), name) ==
            if name == Ascii("user") then Some(username) else if name == Ascii("nonce") then nonce
            else if name == Ascii("key") then key else mechanism
  {
    hide Ascii, Optional, StringIn;
    AuthenticateNames();
    var first := [Element(Ascii("authenticate"), Int64(1)), Element(Ascii("user"), Bson.Str(username))];
    var n, k, m := Optional("nonce", nonce), Optional("key", key), Optional("mechanism", mechanism);
    UserIn(username, name);
    StringInConcat(first + n + k, m, name);
    StringInConcat(first + n, k, name);
    StringInConcat(first, n, name);
    OptionalIn("nonce", nonce, name);
    OptionalIn("key", key, name);
    OptionalIn("mechanism", mechanism, name);
  }

  lemma UserIn(username: seq<byte>, name: seq<byte>)
    ensures StringIn([Element(Ascii("authenticate"), Int64(1)), Element(Ascii("user"), Bson.Str(username))], name) ==
            if name == Ascii("user") then Some(username) else None
  {
    hide Ascii;
    var a, u := Element(Ascii("authenticate"), Int64(1)), Element(Ascii("user"), Bson.Str(username));
    assert [a, u][1..] == [u] && [u][1..] == [];
    assert StringIn([], name) == None;
    assert StringIn([u], name) == if name == Ascii("user") then Some(username) else None;
  }

  lemma AuthenticateIsPlain(mechanism: Option<seq<byte>>, username: seq<byte>, nonce: Option<seq<byte>>, key: Option<seq<byte>>)
    ensures AllPlain(AuthenticateElements(mechanism, username, nonce, key))
  {
    hide Ascii;
    AuthenticateNames();
    var names := ["authenticate", "user", "nonce", "key", "mechanism"];
    assert names[0] == "authenticate" && names[1] == "user" && names[2] == "nonce" && names[3] == "key" && names[4] == "mechanism";
  }

  /** Whoever reads an authenticate packet with the driver's own reader gets the parts of the login as C
      strings, and finds none of the parts that were not given. */
  lemma AuthenticateReadsBack(reqid: int, mechanism: Option<seq<byte>>, database: seq<byte>, username: seq<byte>,
      nonce: Option<seq<byte>>, key: Option<seq<byte>>)
    requires Fits(|Packet(reqid, CommandNs(database), ElementsBytes(AuthenticateElements(mechanism, username, nonce, key)))|, 4)
    ensures var es := AuthenticateElements(mechanism, username, nonce, key);
            var p, at := Packet(reqid, CommandNs(database), ElementsBytes(es)), DocumentStart(CommandNs(database)) + 4;
            && FindAsInt64(p, at, Ascii("authenticate")) == Some(1)
            && FindAsString(p, at, Ascii("user")) == Some(TillNul(username))
            && FindAsString(p, at, Ascii("nonce")) == Seen(nonce) && FindAsString(p, at, Ascii("key")) == Seen(key)
            && FindAsString(p, at, Ascii("mechanism")) == Seen(mechanism)
            && (FindAsString(p, at, Ascii("user")) == Some(username) <==> 0 !in username)
  {
    hide *;
    var es, ns := AuthenticateElements(mechanism, username, nonce, key), CommandNs(database);
    ElementsInPacket(reqid, ns, ElementsBytes(es));
    AuthenticateIsPlain(mechanism, username, nonce, key);
    PlainIsWellFormed(es, |Packet(reqid, ns, ElementsBytes(es))|);
    PacketLayout(reqid, ns, es);
    AuthenticateStrings(mechanism, username, nonce, key);
    var p, at := Packet(reqid, ns, ElementsBytes(es)), DocumentStart(ns) + 4;
    CommandIsFirst(es);
    CommandOf(mechanism, username, nonce, key);
    PacketReadsBack(reqid, ns, es, 0);
    StringReadsBack(p, at, es, Ascii("user"));
    StringReadsBack(p, at, es, Ascii("nonce"));
    StringReadsBack(p, at, es, Ascii("key"));
    StringReadsBack(p, at, es, Ascii("mechanism"));
    TillNulIsAll(username);
    SeenIs(Some(username), username);
  }

  /** A plain element is reached if none before it has its name. */
  lemma ReachesPlain(es: seq<Element>, k: nat)
    requires AllPlain(es) && k < |es| && forall i | 0 <= i < k :: es[i].name != es[k].name
    ensures Reaches(es, k)
  {
    hide AllPlain, FirstStop, KnownOptions;
    PlainNeverStops(es);
  }

  lemma SaslContinueIsReached(conversation: int, payload: seq<byte>)
    requires Fits(conversation, 4)
    ensures var es := SaslContinueElements(conversation, payload);
            AllPlain(es) && |es| == 3 && Reaches(es, 1) && Reaches(es, 2)
  {
    hide Ascii, Reaches, Fits;
    ContinueNames();
    var es := SaslContinueElements(conversation, payload);
    SmallNumberFits();
    ReachesPlain(es, 1);
    ReachesPlain(es, 2);
  }

  lemma SmallNumberFits()
    ensures Fits(1, 8)
  {
    assert Power256(8) == 0x1_0000_0000_0000_0000;
  }

  lemma ContinueNames()
    ensures |Ascii("saslContinue")| == 12 && |Ascii("conversationId")| == 14 && |Ascii("payload")| == 7
    ensures forall n | n in ["saslContinue", "conversationId", "payload"] :: 0 !in Ascii(n)
  {
  }

  /** The conversation of a saslContinue packet reads back, and its payload when it is counted right. */
  lemma SaslContinueReadsBack(reqid: int, database: seq<byte>, conversation: int, payload: seq<byte>)
    requires Fits(conversation, 4)
    requires Fits(|Packet(reqid, CommandNs(database), SaslContinueBytes(conversation, payload, |payload| + 1))|, 4)
    ensures var p := Packet(reqid, CommandNs(database), SaslContinueBytes(conversation, payload, |payload| + 1));
            var at := DocumentStart(CommandNs(database)) + 4;
            && FindAsInt64(p, at, Ascii("saslContinue")) == Some(1)
            && FindAsInt32(p, at, Ascii("conversationId")) == Some(conversation)
            && FindAsString(p, at, Ascii("payload")) == Some(TillNul(payload))
  {
    hide Packet, ElementsBytes, ElementBytes, StringL, AllWellFormed, Reaches, FindAsInt32, FindAsString, CommandNs, Fits, AllPlain, Ascii;
    var es, ns := SaslContinueElements(conversation, payload), CommandNs(database);
    var bytes := SaslContinueBytes(conversation, payload, |payload| + 1);
    ElementsInPacket(reqid, ns, bytes);
    PayloadInBytes(conversation, payload, |payload| + 1);
    SmallerFits(|payload| + 1, |Packet(reqid, ns, bytes)|);
    SaslContinueIsADocument(conversation, payload, |payload| + 1);
    SaslContinueIsReached(conversation, payload);
    PlainIsWellFormed(es, |Packet(reqid, ns, bytes)|);
    CommandIsFirst(es);
    PacketReadsBack(reqid, ns, es, 0);
    PacketReadsBack(reqid, ns, es, 1);
    PacketReadsBack(reqid, ns, es, 2);
  }

  lemma StartNames()
    ensures |Ascii("saslStart")| == 9 && |Ascii("mechanism")| == 9 && |Ascii("payload")| == 7 && |Ascii("autoAuthorize")| == 13
    ensures Ascii("saslStart")[0] != Ascii("mechanism")[0]
    ensures forall n | n in ["saslStart", "mechanism", "payload", "autoAuthorize"] :: 0 !in Ascii(n)
  {
  }

  lemma SaslStartIsReached(mechanism: seq<byte>, payload: seq<byte>)
    ensures var es := SaslStartElements(mechanism, payload);
            AllPlain(es) && |es| == 4 && Reaches(es, 0) && Reaches(es, 1) && Reaches(es, 2) && Reaches(es, 3)
  {
    hide Ascii, Reaches;
    StartNames();
    var es := SaslStartElements(mechanism, payload);
    ReachesPlain(es, 0);
    ReachesPlain(es, 1);
    ReachesPlain(es, 2);
    ReachesPlain(es, 3);
  }

  /** So does a saslStart packet: the mechanism, the payload, and leave to authorize. */
  lemma SaslStartReadsBack(reqid: int, database: seq<byte>, mechanism: seq<byte>, payload: seq<byte>)
    requires Fits(|Packet(reqid, CommandNs(database), SaslStartBytes(mechanism, payload, |payload| + 1))|, 4)
    ensures var p := Packet(reqid, CommandNs(database), SaslStartBytes(mechanism, payload, |payload| + 1));
            var at := DocumentStart(CommandNs(database)) + 4;
            && FindAsInt64(p, at, Ascii("saslStart")) == Some(1)
            && FindAsString(p, at, Ascii("mechanism")) == Some(TillNul(mechanism))
            && FindAsString(p, at, Ascii("payload")) == Some(TillNul(payload))
            && FindAsInt64(p, at, Ascii("autoAuthorize")) == Some(1)
  {
    hide Packet, ElementsBytes, ElementBytes, StringL, AllWellFormed, Reaches, FindAsInt64, FindAsString, CommandNs, Fits, AllPlain, Ascii;
    var es, ns := SaslStartElements(mechanism, payload), CommandNs(database);
    var bytes := SaslStartBytes(mechanism, payload, |payload| + 1);
    ElementsInPacket(reqid, ns, bytes);
    PayloadInStart(mechanism, payload, |payload| + 1);
    SmallerFits(|payload| + 1, |Packet(reqid, ns, bytes)|);
    SaslStartIsADocument(mechanism, payload, |payload| + 1);
    SaslStartIsReached(mechanism, payload);
    PlainIsWellFormed(es, |Packet(reqid, ns, bytes)|);
    PacketReadsBack(reqid, ns, es, 0);
    PacketReadsBack(reqid, ns, es, 1);
    PacketReadsBack(reqid, ns, es, 2);
    PacketReadsBack(reqid, ns, es, 3);
  }

  lemma PayloadInStart(mechanism: seq<byte>, payload: seq<byte>, length: int)
    ensures |payload| + 1 <= |SaslStartBytes(mechanism, payload, length)|
  {
    hide ElementsBytes, ElementBytes;
  }

  /** The namespace of commands of a database, in bytes. */
  lemma CommandNsIs(database: seq<byte>)
    ensures CommandNs(database) == database + [46, 36, 99, 109, 100]
  {
  }

  lemma PayloadInBytes(conversation: int, payload: seq<byte>, length: int)
    ensures |payload| + 1 <= |SaslContinueBytes(conversation, payload, length)|
  {
    hide ElementsBytes;
  }

  lemma CommandOf(mechanism: Option<seq<byte>>, username: seq<byte>, nonce: Option<seq<byte>>, key: Option<seq<byte>>)
    ensures var es := AuthenticateElements(mechanism, username, nonce, key);
            es != [] && es[0] == Element(Ascii("authenticate"), Int64(1))
  {
    hide Ascii, Optional;
  }

  /** The first element is always reached, and an int64 there reads back. */
  lemma CommandIsFirst(es: seq<Element>)
    ensures es != [] && AllPlain(es) ==> Reaches(es, 0)
  {
    if es != [] && AllPlain(es) {
      PlainNeverStops(es);
    }
  }

  lemma SeenIs(o: Option<seq<byte>>, s: seq<byte>)
    requires o == Some(s)
    ensures Seen(o) == Some(TillNul(s))
  {
  }

  lemma ElementsInPacket(reqid: int, ns: seq<byte>, elements: seq<byte>)
    ensures |elements| <= |Packet(reqid, ns, elements)|
  {
  }
}
