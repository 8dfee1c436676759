/** The parser of `data:` URLs (section 3 of RFC 2397), against the printer it inverts. */
module DataUrls {
  import opened Files
  import opened Text

  datatype Param = Param(key: string, value: string)

  /** A URL taken apart.  `slashes`: two slashes stand behind the scheme. */
  datatype Url = Url(slashes: bool, mediaType: Option<string>, params: seq<Param>, base64: bool, payload: string)

  datatype Error = NotADataUrl | NoComma | IllegalMediaType | IllegalParameter | IllegalUrl

  datatype Result<T> = Ok(value: T) | Err(error: Error)

  // ---------- the printer ----------

  function PrintParams(params: seq<Param>, base64: bool): string {
    if params == [] then (if base64 then ";base64" else "")
    else ";" + params[0].key + "=" + params[0].value + PrintParams(params[1..], base64)
  }

  function PrintMeta(u: Url): string {
    (if u.mediaType.Some? then u.mediaType.value else "") + PrintParams(u.params, u.base64)
  }

  function Print(u: Url): string {
    "data:" + (if u.slashes then "//" else "") + PrintMeta(u) + "," + u.payload
  }

  /** Keys and values hold none of the separators behind them. */
  predicate CleanParam(p: Param) {
    ',' !in p.key && ';' !in p.key && '=' !in p.key && ',' !in p.value && ';' !in p.value
  }

  predicate CleanParams(params: seq<Param>) {
    forall p | p in params :: CleanParam(p)
  }

  function Body(u: Url): string {
    PrintMeta(u) + "," + u.payload
  }

  /** Two slashes at the start. */
  predicate SlashesFirst(s: string) {
    2 <= |s| && s[0] == '/' && s[1] == '/'
  }

  /** The URLs that a text can mean: parameters come behind a media type only, and that holds a slash,
      or is missing altogether. */
  predicate Clean(u: Url) {
    CleanMeta(u) && (!u.slashes ==> !SlashesFirst(Body(u)))
  }

  predicate CleanMeta(u: Url) {
    && (u.mediaType.None? ==> u.params == [])
    && (u.mediaType.Some? ==> '/' in u.mediaType.value && ',' !in u.mediaType.value && ';' !in u.mediaType.value)
    && CleanParams(u.params)
  }

  // ---------- what the parser computes ----------

  datatype Tail = Tail(params: seq<Param>, base64: bool)

  /** Parameters found earlier, in front of what the rest of the text comes to. */
  function Behind(params: seq<Param>, r: Result<Tail>): Result<Tail> {
    match r
    case Err(e) => Err(e)
    case Ok(tail) => Ok(Tail(params + tail.params, tail.base64))
  }

  /** The parameters of `s`, which is empty or starts with a semicolon. */
  function ParseParams(s: string): Result<Tail>
    decreases |s|
  {
    if s == [] then Ok(Tail([], false))
    else
      var rest := s[1..|s|];
      var sep, semi := StrChr(rest, 0, '='), StrChr(rest, 0, ';');
      if sep.None? || (semi.Some? && semi.value < sep.value) then
        if rest == "base64" then Ok(Tail([], true)) else Err(IllegalParameter)
      else
        var end := if semi.Some? then semi.value else |rest|;
        Behind([Param(rest[0..sep.value], rest[sep.value + 1..end])], ParseParams(rest[end..|rest|]))
  }

  function ParseMeta(slashes: bool, meta: string, payload: string): Result<Url> {
    var semi, sep := StrChr(meta, 0, ';'), StrChr(meta, 0, '/');
    if meta == [] then Ok(Url(slashes, None, [], false, payload))
    else if semi.None? && sep.None? then Err(IllegalMediaType)
    else if semi.None? then Ok(Url(slashes, Some(meta), [], false, payload))
    else if sep.Some? && sep.value < semi.value then
      match ParseParams(meta[semi.value..])
      case Err(e) => Err(e)
      case Ok(tail) => Ok(Url(slashes, Some(meta[..semi.value]), tail.params, tail.base64, payload))
    else if meta == ";base64" then Ok(Url(slashes, None, [], true, payload))
    else Err(IllegalMediaType)
  }

  function Parse(url: string): Result<Url> {
    if !("data:" <= url) then Err(NotADataUrl)
    else
      var slashes := SlashesFirst(url[5..]);
      var body := if slashes then url[7..] else url[5..];
      match StrChr(body, 0, ',')
      case None => Err(NoComma)
      case Some(comma) => ParseMeta(slashes, body[..comma], body[comma + 1..])
  }

  // ---------- the array of metadata ----------

  datatype Entry = Text(key: string, text: string) | Flag(key: string, flag: bool)

  /** add_assoc: an entry whose key is there already is overwritten where it stands. */
  function Put(meta: seq<Entry>, e: Entry): seq<Entry> {
    if meta == [] then [e]
    else if meta[0].key == e.key then [e] + meta[1..]
    else [meta[0]] + Put(meta[1..], e)
  }

  function PutParams(meta: seq<Entry>, params: seq<Param>): seq<Entry> {
    if params == [] then meta
    else
      var p := params[|params| - 1];
      Put(PutParams(meta, params[..|params| - 1]), Text(p.key, p.value))
  }

  /** The metadata of a URL. */
  function MetaOf(u: Url): seq<Entry> {
    Put(PutParams(if u.mediaType.Some? then [Text("mediatype", u.mediaType.value)] else [], u.params), Flag("base64", u.base64))
  }

  // ---------- the source's loop ----------

  /** The text between `path` and the comma. */
  function Span(s: string, path: nat, mlen: nat): string
    requires path + mlen <= |s|
  {
    s[path..path + mlen]
  }

  /** A search in a part of the text, as an index into the whole. */
  function MemChr(s: string, path: nat, mlen: nat, c: char): (r: Option<nat>)
    requires path + mlen <= |s|
    ensures r.Some? ==> path <= r.value < path + mlen && s[r.value] == c
  {
    var k :- StrChr(Span(s, path, mlen), 0, c);
    Some(path + k)
  }

  lemma ParamsOf(text: string, rest: string, sep: Option<nat>, semi: Option<nat>)
    requires text != [] && rest == text[1..|text|] && sep == StrChr(rest, 0, '=') && semi == StrChr(rest, 0, ';')
    ensures ParseParams(text) ==
            if sep.None? || (semi.Some? && semi.value < sep.value) then
              (if rest == "base64" then Ok(Tail([], true)) else Err(IllegalParameter))
            else
              var end := if semi.Some? then semi.value else |rest|;
              Behind([Param(rest[0..sep.value], rest[sep.value + 1..end])], ParseParams(rest[end..|rest|]))
  {
    hide StrChr, Behind;
  }

  /** One turn of the loop, in the source's pointers. */
  lemma Turn(s: string, path: nat, mlen: nat, sep: Option<nat>, semi: Option<nat>)
    requires 0 < mlen && path + mlen <= |s|
    requires sep == MemChr(s, path + 1, mlen - 1, '=') && semi == MemChr(s, path + 1, mlen - 1, ';')
    ensures ParseParams(Span(s, path, mlen)) ==
            if sep.None? || (semi.Some? && semi.value < sep.value) then
              (if Span(s, path + 1, mlen - 1) == "base64" then Ok(Tail([], true)) else Err(IllegalParameter))
            else
              var end := if semi.Some? then semi.value else path + mlen;
              Behind([Param(Span(s, path + 1, sep.value - path - 1), Span(s, sep.value + 1, end - sep.value - 1))],
                     ParseParams(Span(s, end, path + mlen - end)))
  {
    hide StrChr, Span, ParseParams;
    SubSpan(s, path, mlen, 1, mlen - 1);
    SpanSize(s, path + 1, mlen - 1);
    var k, m := StrChr(Span(s, path + 1, mlen - 1), 0, '='), StrChr(Span(s, path + 1, mlen - 1), 0, ';');
    ParamsOf(Span(s, path, mlen), Span(s, path + 1, mlen - 1), k, m);
    if sep.Some? && (semi.None? || sep.value < semi.value) {
      var end := if semi.Some? then semi.value else path + mlen;
      SubSpan(s, path + 1, mlen - 1, 0, sep.value - path - 1);
      SubSpan(s, path + 1, mlen - 1, sep.value - path, end - sep.value - 1);
      SubSpan(s, path + 1, mlen - 1, end - path - 1, path + mlen - end);
    }
  }

  lemma SubSpan(s: string, path: nat, mlen: nat, i: nat, n: nat)
    requires path + mlen <= |s| && i + n <= mlen
    ensures |Span(s, path, mlen)| == mlen && Span(s, path, mlen)[i..i + n] == Span(s, path + i, n)
  {
    var a := Span(s, path, mlen);
    var b := a[i..i + n];
    forall k | 0 <= k < n
      ensures b[k] == s[path + i + k]
    {
      assert b[k] == a[i + k];
    }
    assert b == s[path + i..path + i + n];
  }

  /** The loop over the parameters.  `mlen` is the distance from `path` to the comma as long as there is
      a semicolon at `path`, and 0 when there is none left: the loop never ends in front of the comma. */
  method ParseLoop(s: string, meta0: seq<Entry>, path0: nat, mlen0: nat, semi0: Option<nat>)
    returns (meta: seq<Entry>, path: nat, mlen: nat, params: seq<Param>, base64: bool, error: Option<Error>)
    requires path0 + mlen0 <= |s| && semi0 == (if mlen0 == 0 then None else Some(path0))
    ensures error.None? ==> mlen == 0 && ParseParams(Span(s, path0, mlen0)) == Ok(Tail(params, base64)) && meta == PutParams(meta0, params)
    ensures error.Some? ==> ParseParams(Span(s, path0, mlen0)) == Err(error.value)
  {
    hide StrChr, Put, ParseParams, MemChr, PutParams, Span;
    meta, path, mlen, params, base64, error := meta0, path0, mlen0, [], false, None;
    ghost var all := ParseParams(Span(s, path0, mlen0));
    var semi := semi0;
    BehindNothing(all);
    PutNothing(meta0);
    while semi == Some(path)
      invariant path + mlen == path0 + mlen0 && semi == (if mlen == 0 then None else Some(path))
      invariant all == Behind(params, ParseParams(Span(s, path, mlen)))
      invariant meta == PutParams(meta0, params) && !base64
      decreases mlen
    {
      path, mlen := path + 1, mlen - 1;
      var sep := MemChr(s, path, mlen, '=');
      semi := MemChr(s, path, mlen, ';');
      Turn(s, path - 1, mlen + 1, sep, semi);
      if sep.None? || (semi.Some? && semi.value < sep.value) {
        if mlen != 6 || Span(s, path, mlen) != "base64" {
          SpanSize(s, path, mlen);
          error := Some(IllegalParameter);
          return;
        }
        BehindFlag(params);
        SpanSize(s, path, mlen);
        base64 := true;
        mlen, path := mlen - 6, path + 6;
        break;
      }
      var plen := sep.value - path;
      var vlen := (if semi.Some? then semi.value - sep.value else mlen - plen) - 1;
      var p := Param(Span(s, path, plen), Span(s, sep.value + 1, vlen));
      meta := Put(meta, Text(p.key, p.value));
      PutSnoc(meta0, params, p);
      plen := plen + vlen + 1;
      BehindOne(params, p, ParseParams(Span(s, path + plen, mlen - plen)));
      params := params + [p];
      mlen, path := mlen - plen, path + plen;
    }
    if !base64 { NoParams(s, path, params); }
  }

  lemma SpanSize(s: string, path: nat, mlen: nat)
    requires path + mlen <= |s|
    ensures |Span(s, path, mlen)| == mlen
  {
  }

  lemma PutNothing(meta: seq<Entry>)
    ensures PutParams(meta, []) == meta
  {
  }

  lemma PutSnoc(meta: seq<Entry>, params: seq<Param>, p: Param)
    ensures PutParams(meta, params + [p]) == Put(PutParams(meta, params), Text(p.key, p.value))
  {
    assert (params + [p])[..|params|] == params;
  }

  lemma NoParams(s: string, path: nat, params: seq<Param>)
    requires path <= |s|
    ensures Behind(params, ParseParams(Span(s, path, 0))) == Ok(Tail(params, false))
  {
    assert params + [] == params;
  }

  lemma BehindNothing(r: Result<Tail>)
    ensures Behind([], r) == r
  {
    if r.Ok? { assert [] + r.value.params == r.value.params; }
  }

  lemma BehindOne(params: seq<Param>, p: Param, r: Result<Tail>)
    ensures Behind(params, Behind([p], r)) == Behind(params + [p], r)
  {
    if r.Ok? { assert params + ([p] + r.value.params) == params + [p] + r.value.params; }
  }

  lemma BehindFlag(params: seq<Param>)
    ensures Behind(params, Ok(Tail([], true))) == Ok(Tail(params, true))
  {
    assert params + [] == params;
  }

  lemma OnlyBase64()
    ensures ParseParams(";base64") == Ok(Tail([], true))
  {
    hide StrChr;
    assert ";base64"[1..] == "base64";
    NotInBase64(StrChr("base64", 0, '='));
  }

  lemma NotInBase64(k: Option<nat>)
    requires k.Some? ==> k.value < 6 && "base64"[k.value] == '='
    ensures k.None?
  {
  }

  /** What stands in front of the comma, in the source's pointers. */
  lemma MetaIs(s: string, slashes: bool, path: nat, mlen: nat, payload: string, semi: Option<nat>, sep: Option<nat>)
    requires 0 < mlen && path + mlen <= |s|
    requires semi == MemChr(s, path, mlen, ';') && sep == MemChr(s, path, mlen, '/')
    ensures ParseMeta(slashes, Span(s, path, mlen), payload) ==
            if semi.None? && sep.None? then Err(IllegalMediaType)
            else if semi.None? then Ok(Url(slashes, Some(Span(s, path, mlen)), [], false, payload))
            else if sep.Some? && sep.value < semi.value then
              WithTail(slashes, Some(Span(s, path, semi.value - path)), ParseParams(Span(s, semi.value, path + mlen - semi.value)), payload)
            else if Span(s, path, mlen) == ";base64" then Ok(Url(slashes, None, [], true, payload))
            else Err(IllegalMediaType)
  {
    hide StrChr, ParseParams;
    var text := Span(s, path, mlen);
    if semi.Some? {
      assert text[..semi.value - path] == Span(s, path, semi.value - path);
      assert text[semi.value - path..] == Span(s, semi.value, path + mlen - semi.value);
    }
  }

  /** The URL, if the parameters in its metadata can be parsed. */
  function WithTail(slashes: bool, mediaType: Option<string>, tail: Result<Tail>, payload: string): Result<Url> {
    match tail
    case Err(e) => Err(e)
    case Ok(t) => Ok(Url(slashes, mediaType, t.params, t.base64, payload))
  }

  /** The metadata that is not empty: a media type and parameters, or `;base64` alone. */
  method ParseMetadata(s: string, ghost slashes: bool, path0: nat, mlen0: nat, ghost payload: string)
    returns (meta: seq<Entry>, mediaType: Option<string>, params: seq<Param>, base64: bool, error: Option<Error>)
    requires 0 < mlen0 && path0 + mlen0 <= |s|
    ensures var spec := ParseMeta(slashes, Span(s, path0, mlen0), payload);
            if error.Some? then spec == Err(error.value)
            else spec == Ok(Url(slashes, mediaType, params, base64, payload))
                 && meta == PutParams(if mediaType.Some? then [Text("mediatype", mediaType.value)] else [], params)
  {
    hide StrChr, ParseParams, Put, PutParams, Span, MemChr, ParseMeta;
    var path, mlen := path0, mlen0;
    meta, mediaType, params, base64, error := [], None, [], false, None;
    var semi, sep := MemChr(s, path, mlen, ';'), MemChr(s, path, mlen, '/');
    MetaIs(s, slashes, path, mlen, payload, semi, sep);
    SpanSize(s, path, mlen);
    if semi.None? && sep.None? {
      error := Some(IllegalMediaType);
      return;
    }
    if semi.None? {
      mediaType := Some(Span(s, path, mlen));
      meta := [Text("mediatype", mediaType.value)];
      mlen := 0;
    } else if sep.Some? && sep.value < semi.value {
      var plen := semi.value - path;
      mediaType := Some(Span(s, path, plen));
      meta := [Text("mediatype", mediaType.value)];
      mlen, path := mlen - plen, path + plen;
    } else if semi.value != path || mlen != 7 || Span(s, path, mlen) != ";base64" {
      if mlen == 7 && Span(s, path, mlen) == ";base64" { StartsWithSemicolon(s, path, semi.value); }
      error := Some(IllegalMediaType);
      return;
    } else {
      OnlyBase64();
    }
    NoParams(s, path, []);
    BehindNothing(ParseParams(Span(s, path, 0)));
    meta, path, mlen, params, base64, error := ParseLoop(s, meta, path, mlen, semi);
    if error.None? && mlen != 0 {
      assert false;
    }
  }

  lemma StartsWithSemicolon(s: string, path: nat, semi: nat)
    requires path + 7 <= |s| && Span(s, path, 7) == ";base64" && MemChr(s, path, 7, ';') == Some(semi)
    ensures semi == path
  {
    assert StrChr(Span(s, path, 7), 0, ';') == Some(0);
  }

  lemma NotData(url: string)
    requires !("data:" <= url)
    ensures Parse(url) == Err(NotADataUrl)
  {
  }

  /** The whole URL, in the source's pointers. */
  lemma ParseIs(url: string, path: nat, comma: Option<nat>)
    requires "data:" <= url && path == (if SlashesFirst(url[5..]) then 7 else 5) && path <= |url|
    requires comma == MemChr(url, path, |url| - path, ',')
    ensures Parse(url) ==
            if comma.None? then Err(NoComma)
            else ParseMeta(path == 7, Span(url, path, comma.value - path), url[comma.value + 1..])
  {
    hide StrChr, ParseMeta;
    var body := url[path..];
    assert body == Span(url, path, |url| - path);
    if comma.Some? {
      assert body[..comma.value - path] == Span(url, path, comma.value - path);
      assert body[comma.value - path + 1..] == url[comma.value + 1..];
    }
  }

  /** php_stream_url_wrap_rfc2397 up to the decoding of the payload. */
  method ParseUrl(url: string) returns (r: Result<Url>, meta: seq<Entry>)
    ensures r == Parse(url)
    ensures r.Ok? ==> meta == MetaOf(r.value)
  {
    hide StrChr, ParseParams, Put, PutParams, ParseMeta, Parse, Span, MemChr;
    meta := [];
    if !("data:" <= url) {
      NotData(url);
      return Err(NotADataUrl), meta;
    }
    var path, dlen := 5, |url| - 5;
    var slashes := 2 <= dlen && url[path] == '/' && url[path + 1] == '/';
    if slashes {
      path, dlen := path + 2, dlen - 2;
    }
    var comma := MemChr(url, path, dlen, ',');
    ParseIs(url, path, comma);
    if comma.None? {
      return Err(NoComma), meta;
    }
    ghost var payload := url[comma.value + 1..];
    var mediaType, params, base64 := None, [], false;
    if comma.value != path {
      var mlen := comma.value - path;
      dlen := dlen - mlen;
      var error;
      meta, mediaType, params, base64, error := ParseMetadata(url, slashes, path, mlen, payload);
      if error.Some? {
        return Err(error.value), meta;
      }
    } else {
      EmptyMetadata(url, slashes, path, payload);
    }
    meta := Put(meta, Flag("base64", base64));
    dlen := dlen - 1;
    assert url[comma.value + 1..comma.value + 1 + dlen] == payload;
    r := Ok(Url(slashes, mediaType, params, base64, url[comma.value + 1..comma.value + 1 + dlen]));
  }

  lemma EmptyMetadata(url: string, slashes: bool, path: nat, payload: string)
    requires path <= |url|
    ensures ParseMeta(slashes, Span(url, path, 0), payload) == Ok(Url(slashes, None, [], false, payload))
    ensures PutParams([], []) == []
  {
  }

  // ---------- the parser and the printer ----------

  /** What is not in a text is not found in it. */
  lemma StrChrNone(s: string, c: char)
    ensures StrChr(s, 0, c).None? <==> c !in s
    ensures StrChr(s, 0, c).Some? ==> c !in s[..StrChr(s, 0, c).value]
  {
    StrChrFirst(s, 0, c);
    if c in s {
      var i :| 0 <= i < |s| && s[i] == c;
      assert 0 <= i < |s|;
    }
  }

  /** A separator behind a part without it. */
  lemma StrChrBehind(part: string, c: char, more: string)
    requires c !in part
    ensures StrChr(part + [c] + more, 0, c) == Some(|part|)
  {
    var s := part + [c] + more;
    forall i | 0 <= i < |part|
      ensures s[i] != c
    {
      assert s[i] == part[i];
    }
    StrChrIs(s, 0, c, |part|);
  }

  lemma NotIn(a: string, b: string, c: char)
    ensures c !in a + b <==> c !in a && c !in b
  {
  }

  /** Printed parameters are nothing, or start with a semicolon. */
  lemma PrintParamsStart(params: seq<Param>, base64: bool)
    ensures var s := PrintParams(params, base64); s != [] ==> s == [';'] + s[1..]
    ensures PrintParams(params, base64) == [] <==> params == [] && !base64
  {
  }

  lemma {:induction false} ParamsHaveNoComma(params: seq<Param>, base64: bool)
    requires CleanParams(params)
    ensures ',' !in PrintParams(params, base64)
  {
    if params != [] {
      assert params[0] in params;
      ParamsHaveNoComma(params[1..], base64);
    }
  }

  function PrintParam(p: Param): string {
    p.key + "=" + p.value
  }

  lemma PrintCons(p: Param, params: seq<Param>, base64: bool)
    ensures PrintParams([p] + params, base64) == ";" + (PrintParam(p) + PrintParams(params, base64))
  {
    assert ([p] + params)[1..] == params;
  }

  lemma CleanCons(p: Param, params: seq<Param>)
    ensures CleanParams([p] + params) <==> CleanParam(p) && CleanParams(params)
  {
    assert forall q :: q in [p] + params <==> q == p || q in params;
  }

  lemma {:induction false} ParseInvertsPrintParams(params: seq<Param>, base64: bool)
    requires CleanParams(params)
    ensures ParseParams(PrintParams(params, base64)) == Ok(Tail(params, base64))
  {
    if params == [] {
      if base64 { OnlyBase64(); } else { NoParams("", 0, []); }
    } else {
      hide *;
      var p, tail := params[0], params[1..];
      assert params == [p] + tail;
      var more := PrintParams(tail, base64);
      CleanCons(p, tail);
      ParseInvertsPrintParams(tail, base64);
      PrintCons(p, tail, base64);
      PrintParamsStart(tail, base64);
      ParsePrinted(p, more);
      BehindTail(p, tail, base64);
    }
  }

  lemma ParsePrinted(p: Param, more: string)
    requires CleanParam(p) && (more != [] ==> more == [';'] + more[1..])
    ensures ParseParams(";" + (PrintParam(p) + more)) == Behind([p], ParseParams(more))
  {
    hide ParseParams, StrChr;
    var rest := PrintParam(p) + more;
    var s := ";" + rest;
    ParamPrinted(p, more);
    ParamsOf(s, rest, StrChr(rest, 0, '='), StrChr(rest, 0, ';'));
  }

  lemma BehindTail(p: Param, tail: seq<Param>, base64: bool)
    ensures Behind([p], Ok(Tail(tail, base64))) == Ok(Tail([p] + tail, base64))
  {
  }

  /** Where the separators of a printed parameter lie. */
  lemma ParamPrinted(p: Param, more: string)
    requires ';' !in p.key && '=' !in p.key && ';' !in p.value && (more != [] ==> more == [';'] + more[1..])
    ensures var rest, end := p.key + "=" + p.value + more, |p.key| + 1 + |p.value|;
            && StrChr(rest, 0, '=') == Some(|p.key|)
            && StrChr(rest, 0, ';') == (if more == [] then None else Some(end))
            && rest[0..|p.key|] == p.key && rest[|p.key| + 1..end] == p.value && rest[end..|rest|] == more
  {
    hide StrChr;
    var rest := p.key + "=" + p.value + more;
    var front := p.key + "=" + p.value;
    assert rest == p.key + ['='] + (p.value + more);
    StrChrBehind(p.key, '=', p.value + more);
    NotIn(p.key + "=", p.value, ';');
    NotIn(p.key, "=", ';');
    if more == [] {
      assert rest == front;
      StrChrNone(rest, ';');
    } else {
      assert rest == front + [';'] + more[1..];
      StrChrBehind(front, ';', more[1..]);
    }
  }

  lemma {:induction false} PrintInvertsParseParams(s: string)
    requires ',' !in s && (s != [] ==> s[0] == ';') && ParseParams(s).Ok?
    ensures var tail := ParseParams(s).value; PrintParams(tail.params, tail.base64) == s && CleanParams(tail.params)
    decreases |s|
  {
    if s != [] {
      hide *;
      var rest := s[1..|s|];
      var sep, semi := StrChr(rest, 0, '='), StrChr(rest, 0, ';');
      ParamsOf(s, rest, sep, semi);
      assert s == ";" + rest;
      if sep.None? || (semi.Some? && semi.value < sep.value) {
        PrintFlag();
      } else {
        var end := if semi.Some? then semi.value else |rest|;
        var p, more := Param(rest[0..sep.value], rest[sep.value + 1..end]), rest[end..|rest|];
        FrontIsClean(s, rest, end, sep.value);
        BehindIsOk(p, ParseParams(more));
        PrintInvertsParseParams(more);
        var inner := ParseParams(more).value;
        PrintCons(p, inner.params, inner.base64);
        CleanCons(p, inner.params);
      }
    }
  }

  lemma BehindIsOk(p: Param, r: Result<Tail>)
    ensures Behind([p], r).Ok? <==> r.Ok?
    ensures r.Ok? ==> Behind([p], r) == Ok(Tail([p] + r.value.params, r.value.base64))
  {
  }

  lemma PrintFlag()
    ensures PrintParams([], true) == ";" + "base64" && CleanParams([])
  {
  }

  /** A character does not occur between two places. */
  predicate Absent(s: string, i: nat, j: nat, c: char)
    requires i <= j <= |s|
  {
    forall k | i <= k < j :: s[k] != c
  }

  lemma AbsentSlice(s: string, i: nat, j: nat, c: char)
    requires i <= j <= |s| && Absent(s, i, j, c)
    ensures c !in s[i..j]
  {
    assert forall k | 0 <= k < j - i :: s[i..j][k] == s[i + k];
  }

  lemma AbsentWithin(s: string, i: nat, j: nat, i': nat, j': nat, c: char)
    requires i <= i' <= j' <= j <= |s| && Absent(s, i, j, c)
    ensures Absent(s, i', j', c)
  {
  }

  lemma NowhereIn(s: string, c: char)
    requires c !in s
    ensures Absent(s, 0, |s|, c)
  {
  }

  /** Up to what a search finds, there is none. */
  lemma AbsentBefore(s: string, c: char)
    ensures Absent(s, 0, if StrChr(s, 0, c).Some? then StrChr(s, 0, c).value else |s|, c)
  {
    StrChrFirst(s, 0, c);
  }

  /** What the separators found say of the parts between them. */
  lemma FrontIsClean(s: string, rest: string, end: nat, sep: nat)
    requires ',' !in s && s == ";" + rest && StrChr(rest, 0, '=') == Some(sep) && sep < end <= |rest|
    requires end == (if StrChr(rest, 0, ';').Some? then StrChr(rest, 0, ';').value else |rest|)
    ensures CleanParam(Param(rest[0..sep], rest[sep + 1..end])) && ',' !in rest[end..|rest|]
    ensures rest == PrintParam(Param(rest[0..sep], rest[sep + 1..end])) + rest[end..|rest|]
    ensures end < |rest| ==> rest[end..|rest|][0] == ';'
  {
    hide StrChr, Absent;
    NotIn(";", rest, ',');
    NowhereIn(rest, ',');
    AbsentBefore(rest, '=');
    AbsentBefore(rest, ';');
    AbsentWithin(rest, 0, |rest|, 0, sep, ',');
    AbsentWithin(rest, 0, |rest|, sep + 1, end, ',');
    AbsentWithin(rest, 0, |rest|, end, |rest|, ',');
    AbsentWithin(rest, 0, end, 0, sep, ';');
    AbsentWithin(rest, 0, end, sep + 1, end, ';');
    AbsentSlice(rest, 0, sep, ',');
    AbsentSlice(rest, 0, sep, '=');
    AbsentSlice(rest, 0, sep, ';');
    AbsentSlice(rest, sep + 1, end, ',');
    AbsentSlice(rest, sep + 1, end, ';');
    AbsentSlice(rest, end, |rest|, ',');
    ThreeParts(rest, sep, end);
  }

  lemma ThreeParts(s: string, i: nat, j: nat)
    requires i < j <= |s|
    ensures s == s[0..i] + [s[i]] + s[i + 1..j] + s[j..|s|]
    ensures s[0..i] + [s[i]] + s[i + 1..j] + s[j..|s|] == (s[0..i] + [s[i]] + s[i + 1..j]) + s[j..|s|]
  {
  }

  lemma ParseInvertsPrintMeta(u: Url)
    requires CleanMeta(u)
    ensures ParseMeta(u.slashes, PrintMeta(u), u.payload) == Ok(u)
  {
    hide StrChr, ParseParams, PrintParams, CleanParams;
    var more := PrintParams(u.params, u.base64);
    ParseInvertsPrintParams(u.params, u.base64);
    PrintParamsStart(u.params, u.base64);
    if u.mediaType.None? {
      assert PrintMeta(u) == more;
      if u.base64 { FlagAlone(); }
    } else {
      MediaTypeSplits(u.mediaType.value, more);
      if more == [] { assert PrintMeta(u) == u.mediaType.value; }
    }
  }

  lemma FlagAlone()
    ensures PrintParams([], true) == ";base64" && StrChr(";base64", 0, ';') == Some(0) && StrChr(";base64", 0, '/') == None
  {
    StrChrNone(";base64", '/');
  }

  /** Where the separators lie behind a media type. */
  lemma MediaTypeSplits(t: string, more: string)
    requires '/' in t && ';' !in t && (more != [] ==> more == [';'] + more[1..])
    ensures var s := t + more;
            && StrChr(s, 0, '/').Some? && StrChr(s, 0, '/').value < |t|
            && StrChr(s, 0, ';') == (if more == [] then None else Some(|t|))
            && s[..|t|] == t && s[|t|..] == more
  {
    hide StrChr;
    var s := t + more;
    var i :| 0 <= i < |t| && t[i] == '/';
    assert s[i] == '/';
    StrChrFirst(s, 0, '/');
    if more == [] {
      assert s == t;
      StrChrNone(s, ';');
    } else {
      assert s == t + [';'] + more[1..];
      StrChrBehind(t, ';', more[1..]);
    }
  }

  lemma PrintInvertsParseMeta(slashes: bool, meta: string, payload: string)
    requires ',' !in meta && ParseMeta(slashes, meta, payload).Ok?
    ensures var u := ParseMeta(slashes, meta, payload).value;
            CleanMeta(u) && PrintMeta(u) == meta && u.slashes == slashes && u.payload == payload
  {
    hide StrChr, ParseParams, PrintParams, CleanParams;
    var semi, sep := StrChr(meta, 0, ';'), StrChr(meta, 0, '/');
    PrintFlag();
    PrintNothing();
    if meta != [] {
      AbsentBefore(meta, ';');
      if semi.None? {
        AbsentSlice(meta, 0, |meta|, ';');
        assert meta[0..|meta|] == meta;
      } else if sep.Some? && sep.value < semi.value {
        var t, more := meta[..semi.value], meta[semi.value..];
        assert t == meta[0..semi.value] && more == meta[semi.value..|meta|];
        AbsentSlice(meta, 0, semi.value, ';');
        NotIn(t, more, ',');
        assert meta == t + more && t[sep.value] == '/';
        PrintInvertsParseParams(more);
      }
    }
  }

  lemma PrintNothing()
    ensures PrintParams([], false) == "" && CleanParams([])
  {
  }

  lemma MetaHasNoComma(u: Url)
    requires CleanMeta(u)
    ensures ',' !in PrintMeta(u)
  {
    ParamsHaveNoComma(u.params, u.base64);
  }

  /** The part behind the slashes, if there are any. */
  lemma ParseBody(slashes: bool, body: string)
    requires !slashes ==> !SlashesFirst(body)
    ensures Parse("data:" + (if slashes then "//" else "") + body) ==
            match StrChr(body, 0, ',')
            case None => Err(NoComma)
            case Some(comma) => ParseMeta(slashes, body[..comma], body[comma + 1..])
  {
    hide StrChr, ParseMeta, SlashesFirst;
    SlashesCutOff(slashes, body);
  }

  lemma SlashesCutOff(slashes: bool, body: string)
    requires !slashes ==> !SlashesFirst(body)
    ensures var url := "data:" + (if slashes then "//" else "") + body;
            "data:" <= url && SlashesFirst(url[5..]) == slashes && url[if slashes then 7 else 5..] == body
  {
    var front := if slashes then "//" else "";
    var url := "data:" + front + body;
    assert url[5..] == front + body;
    assert slashes ==> url[7..] == body;
    assert !slashes ==> url[5..] == body;
  }

  lemma PrintIsBody(u: Url)
    ensures Print(u) == "data:" + (if u.slashes then "//" else "") + Body(u)
    ensures Body(u) == PrintMeta(u) + [','] + u.payload
    ensures Body(u)[..|PrintMeta(u)|] == PrintMeta(u) && Body(u)[|PrintMeta(u)| + 1..] == u.payload
  {
    hide PrintMeta;
  }

  lemma PrintedIsParsed(u: Url)
    requires Clean(u)
    ensures Parse(Print(u)) == Ok(u)
  {
    hide StrChr, ParseMeta, CleanMeta, PrintMeta, Print, Parse, SlashesFirst, Body;
    MetaHasNoComma(u);
    PrintIsBody(u);
    ParseBody(u.slashes, Body(u));
    StrChrBehind(PrintMeta(u), ',', u.payload);
    ParseInvertsPrintMeta(u);
  }

  /** Printing and parsing gives a URL back exactly if it is one that a text can mean. */
  lemma ParseInvertsPrint(u: Url)
    ensures Parse(Print(u)) == Ok(u) <==> Clean(u)
  {
    hide Parse, Print, Clean;
    if Clean(u) {
      PrintedIsParsed(u);
    }
    if Parse(Print(u)) == Ok(u) {
      PrintInvertsParse(Print(u));
    }
  }

  /** The scheme, the slashes and the rest. */
  lemma UrlSplits(url: string) returns (slashes: bool, body: string)
    requires Parse(url).Ok?
    ensures url == "data:" + (if slashes then "//" else "") + body && (!slashes ==> !SlashesFirst(body))
  {
    hide StrChr, ParseMeta;
    slashes := SlashesFirst(url[5..]);
    body := if slashes then url[7..] else url[5..];
    assert url == "data:" + url[5..];
    if slashes { assert url[5..] == "//" + body; }
  }

  lemma CommaSplits(s: string)
    requires ',' in s
    ensures var k := StrChr(s, 0, ',');
            k.Some? && ',' !in s[..k.value] && s == s[..k.value] + "," + s[k.value + 1..]
  {
    StrChrNone(s, ',');
  }

  /** A text that is accepted is what its meaning is printed as. */
  lemma PrintInvertsParse(url: string)
    requires Parse(url).Ok?
    ensures var u := Parse(url).value; Clean(u) && Print(u) == url
  {
    hide StrChr, ParseMeta, CleanMeta, PrintMeta, Parse, SlashesFirst;
    var slashes, body := UrlSplits(url);
    ParseBody(slashes, body);
    StrChrNone(body, ',');
    CommaSplits(body);
    var k := StrChr(body, 0, ',').value;
    PrintInvertsParseMeta(slashes, body[..k], body[k + 1..]);
    PrintIsBody(Parse(url).value);
  }

  /** The accepted texts are exactly the printed ones, and the last error is never raised. */
  lemma AcceptsExactlyThePrinted(url: string)
    ensures Parse(url).Ok? <==> exists u :: Clean(u) && Print(u) == url
    ensures Parse(url) != Err(IllegalUrl)
  {
    hide Clean, Print;
    if Parse(url).Ok? {
      PrintInvertsParse(url);
      assert Clean(Parse(url).value) && Print(Parse(url).value) == url;
    }
    if u :| Clean(u) && Print(u) == url {
      ParseInvertsPrint(u);
    }
    NeverIllegal(url);
  }

  lemma {:induction false} ParamsNeverIllegal(s: string)
    ensures ParseParams(s) != Err(IllegalUrl)
    decreases |s|
  {
    hide StrChr;
    if s != [] {
      var rest := s[1..|s|];
      var sep, semi := StrChr(rest, 0, '='), StrChr(rest, 0, ';');
      if !(sep.None? || (semi.Some? && semi.value < sep.value)) {
        ParamsNeverIllegal(rest[(if semi.Some? then semi.value else |rest|)..|rest|]);
      }
    }
  }

  lemma NeverIllegal(url: string)
    ensures Parse(url) != Err(IllegalUrl)
  {
    hide StrChr, ParseParams;
    var body := if "data:" <= url then if SlashesFirst(url[5..]) then url[7..] else url[5..] else "";
    var comma := StrChr(body, 0, ',');
    if comma.Some? {
      var meta := body[..comma.value];
      var semi := StrChr(meta, 0, ';');
      if semi.Some? { ParamsNeverIllegal(meta[semi.value..]); }
    }
  }

  // ---------- the metadata ----------

  /** The entry with a key. */
  function Lookup(meta: seq<Entry>, key: string): Option<Entry> {
    if meta == [] then None else if meta[0].key == key then Some(meta[0]) else Lookup(meta[1..], key)
  }

  lemma {:induction false} LookupPut(meta: seq<Entry>, e: Entry, key: string)
    ensures Lookup(Put(meta, e), key) == if key == e.key then Some(e) else Lookup(meta, key)
  {
    if meta != [] && meta[0].key != e.key {
      LookupPut(meta[1..], e, key);
    }
  }

  /** The last parameter with a key. */
  function LastValue(params: seq<Param>, key: string): Option<string> {
    if params == [] then None
    else if params[|params| - 1].key == key then Some(params[|params| - 1].value)
    else LastValue(params[..|params| - 1], key)
  }

  lemma {:induction false} LookupParams(meta: seq<Entry>, params: seq<Param>, key: string)
    ensures Lookup(PutParams(meta, params), key) ==
            if LastValue(params, key).Some? then Some(Text(key, LastValue(params, key).value)) else Lookup(meta, key)
  {
    hide Put, Lookup;
    if params != [] {
      var front, p := params[..|params| - 1], params[|params| - 1];
      LookupParams(meta, front, key);
      LookupPut(PutParams(meta, front), Text(p.key, p.value), key);
    }
  }

  /** What a caller finds in the metadata: the flag under "base64" always, whatever parameter has that
      name, otherwise the last parameter of the name, and the media type under "mediatype" only if no
      parameter has taken its place. */
  lemma MetadataOf(u: Url, key: string)
    ensures Lookup(MetaOf(u), key) ==
            if key == "base64" then Some(Flag(key, u.base64))
            else if LastValue(u.params, key).Some? then Some(Text(key, LastValue(u.params, key).value))
            else if key == "mediatype" && u.mediaType.Some? then Some(Text(key, u.mediaType.value))
            else None
  {
    hide Put, PutParams, LastValue;
    var start := if u.mediaType.Some? then [Text("mediatype", u.mediaType.value)] else [];
    LookupPut(PutParams(start, u.params), Flag("base64", u.base64), key);
    LookupParams(start, u.params, key);
  }
}
