/** Documents, URLs and URIs written out, as their standards and the documentation show them. */
module Examples {
  import opened Files
  import Bson
  import Packets
  import DataUrls
  import Uris

  // ---------- documents ----------

  lemma LittleNumbers()
    ensures Bson.Le(6, 4) == [6, 0, 0, 0] && Bson.Le(22, 4) == [22, 0, 0, 0]
    ensures Bson.Le(38, 4) == [38, 0, 0, 0] && Bson.Le(49, 4) == [49, 0, 0, 0]
    ensures Bson.Le(8, 4) == [8, 0, 0, 0] && Bson.Le(1986, 4) == [0xC2, 7, 0, 0]
  {
  }

  /** {"hello": "world"}. */
  lemma HelloWorld(hello: seq<byte>, world: seq<byte>)
    requires |hello| == |world| == 5
    ensures Bson.DocumentBytes([Bson.Element(hello, Bson.Str(world))]) ==
            [0x16, 0, 0, 0] + [0x02] + hello + [0] + [6, 0, 0, 0] + world + [0] + [0]
  {
    hide Bson.Le, Bson.ElementsBytes;
    var e := Bson.Element(hello, Bson.Str(world));
    LittleNumbers();
    Packets.ElementsOfOne(e);
    assert Bson.ElementBytes(e) == [0x02] + hello + [0] + ([6, 0, 0, 0] + world + [0]);
  }

  /** {"BSON": ["awesome", 5.05, 1986]}, the keys of the array being "0", "1" and "2". */
  lemma AwesomeBson(name: seq<byte>, awesome: seq<byte>, bits: seq<byte>)
    requires |name| == 4 && |awesome| == 7 && |bits| == 8
    ensures var items := [Bson.Element([0x30], Bson.Str(awesome)), Bson.Element([0x31], Bson.Double(bits)),
                          Bson.Element([0x32], Bson.Int32(1986))];
            Bson.DocumentBytes([Bson.Element(name, Bson.Array(items))]) ==
            [0x31, 0, 0, 0] + [0x04] + name + [0] + [0x26, 0, 0, 0]
            + ([0x02, 0x30, 0] + [8, 0, 0, 0] + awesome + [0]) + ([0x01, 0x31, 0] + bits) + ([0x10, 0x32, 0] + [0xC2, 7, 0, 0])
            + [0] + [0]
  {
    hide Bson.Le, Bson.ElementsBytes;
    var s, d, n := Bson.Element([0x30], Bson.Str(awesome)), Bson.Element([0x31], Bson.Double(bits)), Bson.Element([0x32], Bson.Int32(1986));
    LittleNumbers();
    ThreeItems(awesome, bits);
    var bytes := Bson.ElementsBytes([s, d, n]);
    Packets.ElementsOfOne(Bson.Element(name, Bson.Array([s, d, n])));
    assert Bson.Enclose(bytes) == [0x26, 0, 0, 0] + bytes + [0];
    var list := Bson.ElementBytes(Bson.Element(name, Bson.Array([s, d, n])));
    assert list == [0x04] + name + [0] + Bson.Enclose(bytes);
    assert |list| == 44;
  }

  lemma ThreeItems(awesome: seq<byte>, bits: seq<byte>)
    ensures |awesome| == 7 ==>
              Bson.ElementsBytes([Bson.Element([0x30], Bson.Str(awesome)), Bson.Element([0x31], Bson.Double(bits)),
                                  Bson.Element([0x32], Bson.Int32(1986))]) ==
              ([0x02, 0x30, 0] + [8, 0, 0, 0] + awesome + [0]) + ([0x01, 0x31, 0] + bits) + ([0x10, 0x32, 0] + [0xC2, 7, 0, 0])
  {
    hide Bson.Le, Bson.ElementsBytes;
    var s, d, n := Bson.Element([0x30], Bson.Str(awesome)), Bson.Element([0x31], Bson.Double(bits)), Bson.Element([0x32], Bson.Int32(1986));
    LittleNumbers();
    Packets.ElementsConcat([s], [d, n]);
    Packets.ElementsConcat([d], [n]);
    Packets.ElementsOfOne(s);
    Packets.ElementsOfOne(d);
    Packets.ElementsOfOne(n);
    assert [s] + [d, n] == [s, d, n] && [d] + [n] == [d, n];
    if |awesome| == 7 {
      assert Bson.ElementBytes(s) == [0x02, 0x30, 0] + [8, 0, 0, 0] + awesome + [0];
    }
    assert Bson.ElementBytes(d) == [0x01, 0x31, 0] + bits;
    assert Bson.ElementBytes(n) == [0x10, 0x32, 0] + [0xC2, 7, 0, 0];
  }

  // ---------- URLs and URIs ----------

  /** A media type, a parameter, the flag and a payload. */
  lemma TextInBase64()
    ensures DataUrls.Parse("data:a/b;c=d;base64,eA==") ==
            DataUrls.Ok(DataUrls.Url(false, Some("a/b"), [DataUrls.Param("c", "d")], true, "eA=="))
  {
    hide DataUrls.Parse, DataUrls.Print, DataUrls.Clean;
    var u := DataUrls.Url(false, Some("a/b"), [DataUrls.Param("c", "d")], true, "eA==");
    TextIsPrinted(u);
    TextIsClean(u);
    DataUrls.ParseInvertsPrint(u);
  }

  lemma TextIsPrinted(u: DataUrls.Url)
    requires u == DataUrls.Url(false, Some("a/b"), [DataUrls.Param("c", "d")], true, "eA==")
    ensures DataUrls.Print(u) == "data:a/b;c=d;base64,eA=="
  {
    assert u.params[1..] == [];
    assert DataUrls.PrintParams(u.params, true) == ";c=d;base64";
    assert DataUrls.PrintMeta(u) == "a/b;c=d;base64";
  }

  lemma TextIsClean(u: DataUrls.Url)
    requires u == DataUrls.Url(false, Some("a/b"), [DataUrls.Param("c", "d")], true, "eA==")
    ensures DataUrls.Clean(u)
  {
    hide DataUrls.PrintParams;
    assert "a/b"[1] == '/';
    assert DataUrls.Body(u)[0] == 'a';
  }

  /** A URI with everything in it: the second host gets the default port, and a user without a database
      the database "admin". */
  lemma WholeUri()
    ensures Uris.SpecOf("mongodb://me:pw@a:1,b/?x=1;y=2", (_, _) => 0) ==
            Uris.Parsed(Uris.Spec(Some(Uris.Login("me", "pw")), [Uris.HostPort("a", 1), Uris.HostPort("b", 27017)], Some("admin"),
                                  [Uris.Pair("x", "1"), Uris.Pair("y", "2")]))
  {
    hide Uris.SpecOf, Uris.PrintUri, Uris.Meant, Uris.Clean;
    var u := Uris.Uri(Some(Uris.Login("me", "pw")), [Uris.Host("a", Some(1)), Uris.Host("b", None)],
                      Uris.Path("", [Uris.Pair("x", "1"), Uris.Pair("y", "2")]), ';');
    UriIsPrinted(u);
    UriIsClean(u);
    UriIsMeant(u, (_, _) => 0);
    Uris.UriRoundTrip(u, (_, _) => 0);
  }

  ghost predicate IsWhole(u: Uris.Uri) {
    u == Uris.Uri(Some(Uris.Login("me", "pw")), [Uris.Host("a", Some(1)), Uris.Host("b", None)],
                  Uris.Path("", [Uris.Pair("x", "1"), Uris.Pair("y", "2")]), ';')
  }

  lemma UriIsPrinted(u: Uris.Uri)
    requires IsWhole(u)
    ensures Uris.PrintUri(u) == "mongodb://me:pw@a:1,b/?x=1;y=2"
  {
    assert u.hosts[1..] == [Uris.Host("b", None)];
    assert u.path.options[1..] == [Uris.Pair("y", "2")];
    assert Uris.PrintHosts(u.hosts) == "a:1,b";
    assert Uris.PrintPath(u.path, ';') == "/?x=1;y=2";
    assert Uris.PrintLogin(u.login) == "me:pw@";
  }

  lemma UriIsClean(u: Uris.Uri)
    requires IsWhole(u)
    ensures Uris.Clean(u)
  {
    hide Uris.LooksLikeLogin;
    assert u.hosts[1..] == [Uris.Host("b", None)];
  }

  lemma UriIsMeant(u: Uris.Uri, store: Uris.Store)
    requires IsWhole(u) && forall done, p :: store(done, p) == 0
    ensures Uris.Meant(u, store) ==
            Uris.Parsed(Uris.Spec(Some(Uris.Login("me", "pw")), [Uris.HostPort("a", 1), Uris.HostPort("b", 27017)], Some("admin"),
                                  [Uris.Pair("x", "1"), Uris.Pair("y", "2")]))
  {
    assert u.hosts[1..] == [Uris.Host("b", None)] && u.hosts[1..][1..] == [];
    assert u.path.options[1..] == [Uris.Pair("y", "2")] && u.path.options[1..][1..] == [];
  }
}
