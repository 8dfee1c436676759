/** Connection URIs: the parser of server specifications with its options, and tag lists. */
module Uris {
  import opened Files
  import opened Text

  datatype HostPort = HostPort(host: string, port: int)
  datatype Pair = Pair(name: string, value: string)
  datatype Login = Login(user: string, password: string)

  const DEFAULT_PORT := 27017

  // ---------- the host list ----------

  /** The address between `start` and `pos`; its port is behind the last colon, if there is one. */
  function Address(s: string, start: nat, colon: Option<nat>, pos: nat): HostPort
    requires start <= pos <= |s| && (colon.Some? ==> start <= colon.value < pos)
  {
    if colon.Some? then HostPort(s[start..colon.value], Atoi(s[colon.value + 1..]))
    else HostPort(s[start..pos], DEFAULT_PORT)
  }

  /** A host list, and where it ends. */
  datatype Scanned = Scanned(hosts: seq<HostPort>, pos: nat)

  function Behind(hosts: seq<HostPort>, r: Scanned): Scanned {
    Scanned(hosts + r.hosts, r.pos)
  }

  /** The addresses from `pos` on, up to a slash or the end. */
  function ScanHosts(s: string, start: nat, colon: Option<nat>, pos: nat): (r: Scanned)
    requires start <= pos <= |s| && (colon.Some? ==> start <= colon.value < pos)
    ensures pos <= r.pos <= |s| && (r.pos < |s| ==> s[r.pos] == '/')
    decreases |s| - pos
  {
    if pos == |s| || s[pos] == '/' then Scanned([Address(s, start, colon, pos)], pos)
    else if s[pos] == ':' then ScanHosts(s, start, Some(pos), pos + 1)
    else if s[pos] == ',' then Behind([Address(s, start, colon, pos)], ScanHosts(s, pos + 1, None, pos + 1))
    else ScanHosts(s, start, colon, pos + 1)
  }

  /** The loop over a host list.  It looks at a character before it asks for the end, so there has to be
      one. */
  method HostLoop(s: string, pos0: nat) returns (hosts: seq<HostPort>, pos: nat)
    requires pos0 < |s| && s[pos0] != '/'
    ensures Scanned(hosts, pos) == ScanHosts(s, pos0, None, pos0)
  {
    hide Address;
    var hostStart: nat := pos0;
    var hostEnd: Option<nat>, portStart: Option<nat> := None, None;
    hosts, pos := [], pos0;
    ghost var all := ScanHosts(s, pos0, None, pos0);
    BehindNone(all);
    while true
      invariant hostStart <= pos < |s|
      invariant (hostEnd.Some? ==> hostStart <= hostEnd.value < pos)
      invariant portStart == (if hostEnd.Some? then Some(hostEnd.value + 1) else None)
      invariant all == Behind(hosts, ScanHosts(s, hostStart, hostEnd, pos))
      decreases |s| - pos
    {
      if s[pos] == ':' {
        hostEnd, portStart := Some(pos), Some(pos + 1);
      }
      if s[pos] == ',' {
        BehindTwice(hosts, Address(s, hostStart, hostEnd, pos), ScanHosts(s, pos + 1, None, pos + 1));
        hosts := hosts + [Address(s, hostStart, hostEnd, pos)];
        hostStart, hostEnd, portStart := pos + 1, None, None;
      }
      if s[pos] == '/' {
        break;
      }
      pos := pos + 1;
      if pos == |s| {
        break;
      }
    }
    hosts := hosts + [Address(s, hostStart, hostEnd, pos)];
  }

  lemma BehindNone(r: Scanned)
    ensures Behind([], r) == r
  {
    assert [] + r.hosts == r.hosts;
  }

  lemma BehindTwice(hosts: seq<HostPort>, h: HostPort, r: Scanned)
    ensures Behind(hosts, Behind([h], r)) == Behind(hosts + [h], r)
  {
    assert hosts + ([h] + r.hosts) == hosts + [h] + r.hosts;
  }

  // ---------- options ----------

  /** The options that were handed to the store, in order, and the last answer: positive for a failure. */
  datatype Stored = Stored(pairs: seq<Pair>, retval: int)

  /** What the store of an option answers, given the options stored before. */
  type Store = (seq<Pair>, Pair) -> int

  /** mongo_process_option: None where it complains about an empty name or value. */
  function ProcessOption(s: string, name: nat, eq: Option<nat>, pos: nat): Option<Pair>
    requires name <= pos <= |s| && (eq.Some? ==> name <= eq.value < pos)
  {
    if name == |s| || eq == Some(name) || eq.None? then None else Some(Pair(s[name..eq.value], s[eq.value + 1..pos]))
  }

  /** The options from `pos` on, behind those that are `done`. */
  function ScanOptions(s: string, name: nat, eq: Option<nat>, pos: nat, done: seq<Pair>, store: Store): Stored
    requires name <= pos <= |s| && (eq.Some? ==> name <= eq.value < pos)
    decreases |s| - pos
  {
    if pos == |s| then
      match ProcessOption(s, name, eq, pos)
      case None => Stored(done, 1)
      case Some(p) => Stored(done + [p], store(done, p))
    else if s[pos] == ';' || s[pos] == '&' then
      match ProcessOption(s, name, eq, pos)
      case None => Stored(done, 1)
      case Some(p) =>
        if store(done, p) > 0 then Stored(done + [p], store(done, p))
        else ScanOptions(s, pos + 1, None, pos + 1, done + [p], store)
    else ScanOptions(s, name, if s[pos] == '=' then Some(pos) else eq, pos + 1, done, store)
  }

  /** mongo_parse_options, with the store of an option as a parameter. */
  method ParseOptions(s: string, pos0: nat, store: Store) returns (pairs: seq<Pair>, retval: int)
    requires pos0 < |s|
    ensures Stored(pairs, retval) == ScanOptions(s, pos0, None, pos0, [], store)
  {
    hide ProcessOption;
    var nameStart: nat, pos: nat := pos0, pos0;
    var eq: Option<nat> := None;
    pairs := [];
    while true
      invariant nameStart <= pos < |s| && (eq.Some? ==> nameStart <= eq.value < pos)
      invariant ScanOptions(s, pos0, None, pos0, [], store) == ScanOptions(s, nameStart, eq, pos, pairs, store)
      decreases |s| - pos
    {
      if s[pos] == '=' {
        eq := Some(pos);
      }
      if s[pos] == ';' || s[pos] == '&' {
        var p := ProcessOption(s, nameStart, eq, pos);
        if p.None? {
          retval := 1;
          return;
        }
        retval := store(pairs, p.value);
        pairs := pairs + [p.value];
        if retval > 0 {
          return;
        }
        nameStart, eq := pos + 1, None;
      }
      pos := pos + 1;
      if pos == |s| {
        break;
      }
    }
    var p := ProcessOption(s, nameStart, eq, pos);
    if p.None? {
      retval := 1;
    } else {
      retval := store(pairs, p.value);
      pairs := pairs + [p.value];
    }
  }

  // ---------- the whole specification ----------

  datatype Spec = Spec(login: Option<Login>, hosts: seq<HostPort>, db: Option<string>, stored: seq<Pair>)

  /** Overrun: a loop looks at the NUL and goes on behind it. */
  datatype Outcome = Overrun | Refused(retval: int) | Parsed(spec: Spec)

  /** User and password in front of an at sign, and where the hosts start. */
  function LoginOf(s: string): (r: (Option<Login>, nat))
    ensures r.1 <= |s|
  {
    if !("mongodb://" <= s) then (None, 0)
    else
      var at, colon := StrChr(s, 10, '@'), StrChr(s, 10, ':');
      if at.Some? && colon.Some? && colon.value < at.value then
        (Some(Login(s[10..colon.value], s[colon.value + 1..at.value])), at.value + 1)
      else (None, 10)
  }

  /** Where the path of a socket ends: before the last slash, unless there is a dot behind it. */
  function SocketEnd(s: string, pos: nat): (r: nat)
    requires pos < |s| && s[pos] == '/'
    ensures pos <= r <= |s| && (r < |s| ==> s[r] == '/')
  {
    var last := pos + StrRChr(s[pos..], '/').value;
    if StrChr(s, last, '.').Some? then |s| else last
  }

  /** The name of the database behind the slash at `pos`, if it is not empty. */
  function DatabaseName(s: string, pos: nat): Option<string>
    requires pos <= |s|
  {
    if pos == |s| then None
    else
      var question := StrChr(s, pos, '?');
      var end := if question.Some? then question.value else |s|;
      if end <= pos + 1 then None else Some(s[pos + 1..end])
  }

  /** The database of every server: named, or "admin" for a user with a password. */
  function DatabaseOf(name: Option<string>, login: Option<Login>): Option<string> {
    if name.Some? then name else if login.Some? then Some("admin") else None
  }

  function WithTail(s: string, login: Option<Login>, hosts: seq<HostPort>, pos: nat, store: Store): Outcome
    requires pos <= |s|
  {
    var db := DatabaseOf(DatabaseName(s, pos), login);
    var question := if pos == |s| then None else StrChr(s, pos, '?');
    match question
    case None => Parsed(Spec(login, hosts, db, []))
    case Some(q) =>
      if q + 1 == |s| then Overrun
      else
        var stored := ScanOptions(s, q + 1, None, q + 1, [], store);
        if stored.retval > 0 then Refused(stored.retval) else Parsed(Spec(login, hosts, db, stored.pairs))
  }

  function SpecOf(s: string, store: Store): Outcome {
    var (login, pos) := LoginOf(s);
    if pos == |s| then Overrun
    else if s[pos] == '/' then
      WithTail(s, login, [HostPort(s[pos..SocketEnd(s, pos)], 0)], SocketEnd(s, pos), store)
    else
      var scanned := ScanHosts(s, pos, None, pos);
      WithTail(s, login, scanned.hosts, scanned.pos, store)
  }

  /** The second half of mongo_parse_server_spec: options, then the database for every server. */
  method ParseTail(spec: string, login: Option<Login>, hosts: seq<HostPort>, pos: nat, store: Store) returns (r: Outcome)
    requires pos <= |spec| && (pos < |spec| ==> spec[pos] == '/')
    ensures r == WithTail(spec, login, hosts, pos, store)
  {
    hide ScanOptions, StrChr;
    var dbStart: Option<nat>, dbEnd := None, |spec|;
    var stored := [];
    if pos < |spec| {
      var question := StrChr(spec, pos, '?');
      if question.Some? {
        if pos + 1 != question.value {
          dbStart, dbEnd := Some(pos + 1), question.value;
        }
        if question.value + 1 == |spec| {
          return Overrun;
        }
        var retval;
        stored, retval := ParseOptions(spec, question.value + 1, store);
        if retval > 0 {
          return Refused(retval);
        }
      } else {
        dbStart := Some(pos + 1);
      }
    }
    var db: Option<string> := None;
    if dbStart.Some? && dbEnd != dbStart.value {
      db := Some(spec[dbStart.value..dbEnd]);
    } else if login.Some? {
      db := Some("admin");
    }
    r := Parsed(Spec(login, hosts, db, stored));
  }

  /** mongo_parse_server_spec. */
  method ParseServerSpec(spec: string, store: Store) returns (r: Outcome)
    ensures r == SpecOf(spec, store)
  {
    hide ScanHosts, ScanOptions, StrChr, StrRChr, SocketEnd, WithTail;
    var pos: nat := 0;
    var login: Option<Login> := None;
    if "mongodb://" <= spec {
      pos := pos + 10;
      var at, colon := StrChr(spec, pos, '@'), StrChr(spec, pos, ':');
      if at.Some? && colon.Some? && at.value > colon.value {
        login := Some(Login(spec[pos..colon.value], spec[colon.value + 1..at.value]));
        pos := at.value + 1;
      }
    }
    if pos == |spec| {
      return Overrun;
    }
    var hosts;
    if spec[pos] != '/' {
      hosts, pos := HostLoop(spec, pos);
    } else {
      var end := SocketEnd(spec, pos);
      hosts, pos := [HostPort(spec[pos..end], 0)], end;
    }
    r := ParseTail(spec, login, hosts, pos, store);
  }

  // ---------- the printer ----------

  datatype Host = Host(name: string, port: Option<int>)
  {
    function Print(): string {
      name + (if port.Some? then ":" + Decimal(port.value) else "")
    }

    /** What a host without a port means. */
    function Meant(): HostPort {
      HostPort(name, if port.Some? then port.value else DEFAULT_PORT)
    }

    predicate Clean() {
      ':' !in name && ',' !in name && '/' !in name
    }
  }

  /** A database, which may be empty, and options, which may be missing. */
  datatype Path = NoPath | Path(db: string, options: seq<Pair>)

  datatype Uri = Uri(login: Option<Login>, hosts: seq<Host>, path: Path, sep: char)

  function PrintHosts(hs: seq<Host>): string
    requires hs != []
  {
    if |hs| == 1 then hs[0].Print() else hs[0].Print() + "," + PrintHosts(hs[1..])
  }

  function MeantHosts(hs: seq<Host>): seq<HostPort> {
    if hs == [] then [] else [hs[0].Meant()] + MeantHosts(hs[1..])
  }

  function PrintPair(p: Pair): string {
    p.name + "=" + p.value
  }

  function PrintPairs(ps: seq<Pair>, sep: char): string
    requires ps != []
  {
    if |ps| == 1 then PrintPair(ps[0]) else PrintPair(ps[0]) + [sep] + PrintPairs(ps[1..], sep)
  }

  function PrintPath(path: Path, sep: char): string {
    match path
    case NoPath => ""
    case Path(db, options) => "/" + db + (if options == [] then "" else "?" + PrintPairs(options, sep))
  }

  function PrintLogin(login: Option<Login>): string {
    if login.Some? then login.value.user + ":" + login.value.password + "@" else ""
  }

  function PrintUri(u: Uri): string
    requires u.hosts != []
  {
    "mongodb://" + (PrintLogin(u.login) + (PrintHosts(u.hosts) + PrintPath(u.path, u.sep)))
  }

  predicate Plain(a: string) {
    '=' !in a && ';' !in a && '&' !in a
  }

  predicate CleanPair(p: Pair) {
    p.name != [] && Plain(p.name) && Plain(p.value)
  }

  /** What is taken for a user and a password: an at sign behind a colon, as the first of their kind. */
  predicate LooksLikeLogin(s: string) {
    var at, colon := StrChr(s, 0, '@'), StrChr(s, 0, ':');
    at.Some? && colon.Some? && colon.value < at.value
  }

  predicate Clean(u: Uri) {
    && u.hosts != [] && (forall h | h in u.hosts :: h.Clean()) && PrintHosts(u.hosts) != []
    && (if u.login.Some? then
          ':' !in u.login.value.user && '@' !in u.login.value.user && '@' !in u.login.value.password
        else !LooksLikeLogin(PrintHosts(u.hosts) + PrintPath(u.path, u.sep)))
    && (u.path.Path? ==> '?' !in u.path.db && forall p | p in u.path.options :: CleanPair(p))
    && (u.sep == ';' || u.sep == '&')
  }

  // ---------- host lists round trip ----------

  /** What is left of `s` from `p` on. */
  predicate Left(s: string, p: nat, rest: string) {
    p <= |s| && s[p..] == rest
  }

  lemma LeftAfter(s: string, p: nat, a: string, b: string)
    requires Left(s, p, a + b)
    ensures p + |a| <= |s| && Left(s, p + |a|, b) && s[p..p + |a|] == a
  {
    assert forall i | p <= i < |s| :: s[i] == (a + b)[i - p];
  }

  lemma CharsOf(s: string, p: nat, a: string)
    requires p + |a| <= |s| && s[p..p + |a|] == a
    ensures forall i | p <= i < p + |a| :: s[i] == a[i - p]
  {
  }

  lemma LeftStarts(s: string, p: nat, rest: string)
    requires Left(s, p, rest)
    ensures rest == [] <==> p == |s|
    ensures rest != [] ==> p < |s| && s[p] == rest[0]
  {
    assert rest != [] ==> s[p..][0] == s[p];
  }

  /** Characters that mean nothing to the host loop. */
  lemma {:induction false} SkipInHost(s: string, start: nat, colon: Option<nat>, pos: nat, n: nat)
    requires start <= pos && pos + n <= |s| && (colon.Some? ==> start <= colon.value < pos)
    requires forall i | pos <= i < pos + n :: s[i] != ':' && s[i] != ',' && s[i] != '/'
    ensures ScanHosts(s, start, colon, pos) == ScanHosts(s, start, colon, pos + n)
    decreases n
  {
    hide Address;
    if n != 0 {
      SkipInHost(s, start, colon, pos + 1, n - 1);
    }
  }

  lemma NameIsPlain(s: string, p: nat, h: Host, rest: string)
    requires Left(s, p, h.Print() + rest) && h.Clean()
    ensures forall i | p <= i < p + |h.name| && i < |s| :: s[i] != ':' && s[i] != ',' && s[i] != '/'
  {
    hide Decimal;
    var more := (if h.port.Some? then ":" + Decimal(h.port.value) else "") + rest;
    assert h.Print() + rest == h.name + more;
    LeftAfter(s, p, h.name, more);
    CharsOf(s, p, h.name);
    assert forall i | p <= i < p + |h.name| :: s[i] == h.name[i - p] && h.name[i - p] in h.name;
  }

  /** One printed host, up to where it ends. */
  lemma OneHost(s: string, p: nat, h: Host, rest: string)
    requires Left(s, p, h.Print() + rest) && h.Clean() && (rest != [] ==> rest[0] == ',' || rest[0] == '/')
    ensures var q := p + |h.Print()|;
            && q <= |s| && Left(s, q, rest)
            && ScanHosts(s, p, None, p) ==
               if rest != [] && rest[0] == ',' then Behind([h.Meant()], ScanHosts(s, q + 1, None, q + 1))
               else Scanned([h.Meant()], q)
  {
    hide ScanHosts, Decimal, Atoi, Left, Host.Clean;
    var q := p + |h.Print()|;
    LeftAfter(s, p, h.Print(), rest);
    LeftStarts(s, q, rest);
    var n := |h.name|;
    NameIsPlain(s, p, h, rest);
    SkipInHost(s, p, None, p, n);
    if h.port.Some? {
      PortIsRead(s, p, h, rest);
      HostEnds(s, p, Some(p + n), q);
    } else {
      assert s[p..q] == h.name;
      HostEnds(s, p, None, q);
    }
  }

  /** What the loop does at the end of an address. */
  lemma HostEnds(s: string, start: nat, colon: Option<nat>, pos: nat)
    requires start <= pos <= |s| && (colon.Some? ==> start <= colon.value < pos)
    requires pos < |s| ==> s[pos] == ',' || s[pos] == '/'
    ensures ScanHosts(s, start, colon, pos) ==
            if pos < |s| && s[pos] == ',' then Behind([Address(s, start, colon, pos)], ScanHosts(s, pos + 1, None, pos + 1))
            else Scanned([Address(s, start, colon, pos)], pos)
  {
    hide Address;
  }

  lemma ColonIsSeen(s: string, start: nat, pos: nat)
    requires start <= pos < |s| && s[pos] == ':'
    ensures ScanHosts(s, start, None, pos) == ScanHosts(s, start, Some(pos), pos + 1)
  {
    hide Address;
  }

  lemma PortIsPlain(s: string, p: nat, port: int, rest: string)
    requires Left(s, p, Decimal(port) + rest)
    ensures forall i | p <= i < p + |Decimal(port)| && i < |s| :: s[i] != ':' && s[i] != ',' && s[i] != '/'
  {
    LeftAfter(s, p, Decimal(port), rest);
    CharsOf(s, p, Decimal(port));
  }

  lemma PrintWithPort(h: Host, rest: string)
    requires h.port.Some?
    ensures h.Print() + rest == h.name + (":" + (Decimal(h.port.value) + rest))
    ensures |h.Print()| == |h.name| + 1 + |Decimal(h.port.value)|
  {
    hide Decimal;
  }

  lemma NoDigitFirst(rest: string)
    requires rest != [] ==> rest[0] == ',' || rest[0] == '/'
    ensures rest == [] || !IsDigit(rest[0])
  {
  }

  lemma PortPlaces(s: string, p: nat, name: string, more: string)
    requires Left(s, p, name + (":" + more))
    ensures var c := p + |name|;
            c < |s| && s[p..c] == name && s[c] == ':' && s[c + 1..] == more && c + 1 + |more| == |s|
  {
    LeftAfter(s, p, name, ":" + more);
    LeftStarts(s, p + |name|, ":" + more);
    LeftAfter(s, p + |name|, ":", more);
  }

  lemma PortIsRead(s: string, p: nat, h: Host, rest: string)
    requires Left(s, p, h.Print() + rest) && h.port.Some? && (rest != [] ==> rest[0] == ',' || rest[0] == '/')
    ensures var n, q := |h.name|, p + |h.Print()|;
            && p + n < q <= |s|
            && ScanHosts(s, p, None, p + n) == ScanHosts(s, p, Some(p + n), q)
            && Address(s, p, Some(p + n), q) == h.Meant()
  {
    hide ScanHosts, Decimal, Atoi, Left, IsDigit, Host.Print, Address, Host.Meant;
    var digits := Decimal(h.port.value);
    var c, q, more := p + |h.name|, p + |h.Print()|, Decimal(h.port.value) + rest;
    PrintWithPort(h, rest);
    PortPlaces(s, p, h.name, more);
    LeftMeans(s, c + 1, more);
    PortIsPlain(s, c + 1, h.port.value, rest);
    ColonIsSeen(s, p, c);
    SkipInHost(s, p, Some(c), c + 1, |digits|);
    NoDigitFirst(rest);
    AtoiOfDecimal(h.port.value, rest);
    AddressIsMeant(s, p, h, c, q, more);
  }

  lemma LeftMeans(s: string, p: nat, rest: string)
    requires p <= |s| && s[p..] == rest
    ensures Left(s, p, rest)
  {
  }

  lemma AddressIsMeant(s: string, p: nat, h: Host, colon: nat, q: nat, more: string)
    requires p <= colon < q <= |s| && h.port.Some? && s[p..colon] == h.name
    requires s[colon + 1..] == more && Atoi(more) == h.port.value
    ensures Address(s, p, Some(colon), q) == h.Meant()
  {
    hide Atoi;
  }

  lemma {:induction false} HostsRoundTrip(s: string, p: nat, hs: seq<Host>, rest: string)
    requires hs != [] && (forall h | h in hs :: h.Clean()) && Left(s, p, PrintHosts(hs) + rest)
    requires rest != [] ==> rest[0] == '/'
    ensures ScanHosts(s, p, None, p) == Scanned(MeantHosts(hs), p + |PrintHosts(hs)|)
    ensures Left(s, p + |PrintHosts(hs)|, rest)
    decreases |hs|
  {
    hide ScanHosts, Host.Print, Host.Clean, Host.Meant, Left;
    assert hs[0] in hs;
    if |hs| == 1 {
      OneHost(s, p, hs[0], rest);
      assert hs[1..] == [];
    } else {
      var more := "," + (PrintHosts(hs[1..]) + rest);
      assert PrintHosts(hs) + rest == hs[0].Print() + more;
      OneHost(s, p, hs[0], more);
      LeftAfter(s, p + |hs[0].Print()|, ",", PrintHosts(hs[1..]) + rest);
      HostsRoundTrip(s, p + |hs[0].Print()| + 1, hs[1..], rest);
    }
  }

  // ---------- options round trip ----------

  /** Every option is handed to the store, in order, until one fails. */
  function StoreAll(done: seq<Pair>, ps: seq<Pair>, store: Store): Stored
    requires ps != []
    decreases |ps|
  {
    if |ps| == 1 || store(done, ps[0]) > 0 then Stored(done + [ps[0]], store(done, ps[0]))
    else StoreAll(done + [ps[0]], ps[1..], store)
  }

  /** Option `i` fails behind those before it. */
  predicate Fails(done: seq<Pair>, ps: seq<Pair>, i: nat, store: Store)
    requires i < |ps|
  {
    store(done + ps[..i], ps[i]) > 0
  }

  /** The first option from `i` on that fails, or their number if none does. */
  function FirstFailure(done: seq<Pair>, ps: seq<Pair>, i: nat, store: Store): (k: nat)
    requires i <= |ps|
    ensures i <= k <= |ps| && (k < |ps| ==> Fails(done, ps, k, store))
    ensures forall j | i <= j < k :: !Fails(done, ps, j, store)
    decreases |ps| - i
  {
    if i == |ps| || Fails(done, ps, i, store) then i else FirstFailure(done, ps, i + 1, store)
  }

  lemma {:induction false} StoresUpTo(done: seq<Pair>, ps: seq<Pair>, k: nat, store: Store)
    requires k < |ps| && forall i | 0 <= i < k :: !Fails(done, ps, i, store)
    ensures StoreAll(done, ps, store) == StoreAll(done + ps[..k], ps[k..], store)
    decreases k
  {
    if k == 0 {
      assert done + ps[..0] == done && ps[0..] == ps;
    } else {
      StoresUpTo(done, ps, k - 1, store);
      assert !Fails(done, ps, k - 1, store);
      assert ps[k - 1..][1..] == ps[k..] && done + ps[..k - 1] + [ps[k - 1]] == done + ps[..k];
    }
  }

  /** Nothing is reported if and only if no option fails behind those before it, and then all of them
      were stored; a failure is that of the first that fails, and no option behind it is tried. */
  lemma StoreAllStoresAll(done: seq<Pair>, ps: seq<Pair>, store: Store)
    requires ps != []
    ensures var r, k := StoreAll(done, ps, store), FirstFailure(done, ps, 0, store);
            && (r.retval <= 0 <==> forall i | 0 <= i < |ps| :: !Fails(done, ps, i, store))
            && (r.retval <= 0 ==> r.pairs == done + ps)
            && (r.retval > 0 ==> k < |ps| && r == Stored(done + ps[..k + 1], store(done + ps[..k], ps[k])))
  {
    var k := FirstFailure(done, ps, 0, store);
    var n := if k < |ps| then k else |ps| - 1;
    StoresUpTo(done, ps, n, store);
    assert ps[n..][0] == ps[n] && done + ps[..n] + [ps[n]] == done + ps[..n + 1];
    assert k < |ps| <==> Fails(done, ps, n, store);
    assert n == |ps| - 1 ==> done + ps[..n + 1] == done + ps;
  }

  lemma {:induction false} SkipInPair(s: string, name: nat, eq: Option<nat>, pos: nat, n: nat, done: seq<Pair>,
      store: Store)
    requires name <= pos && pos + n <= |s| && (eq.Some? ==> name <= eq.value < pos)
    requires forall i | pos <= i < pos + n :: s[i] != '=' && s[i] != ';' && s[i] != '&'
    ensures ScanOptions(s, name, eq, pos, done, store) == ScanOptions(s, name, eq, pos + n, done, store)
    decreases n
  {
    hide ProcessOption;
    if n != 0 {
      SkipInPair(s, name, eq, pos + 1, n - 1, done, store);
    }
  }

  /** An option on its own is cut at its last equals sign; without one, or with nothing in front of it,
      it is a failure that stores nothing. */
  lemma OneOption(s: string, store: Store)
    requires s != [] && ';' !in s && '&' !in s
    ensures var e := StrRChr(s, '=');
            ScanOptions(s, 0, None, 0, [], store) ==
            if e.None? || e.value == 0 then Stored([], 1)
            else
              var p := Pair(s[..e.value], s[e.value + 1..]);
              Stored([p], store([], p))
  {
    assert s[..0] == [];
    LastEquals(s, 0, store);
    assert s[..|s|] == s;
  }

  lemma {:induction false} LastEquals(s: string, pos: nat, store: Store)
    requires pos <= |s| && ';' !in s && '&' !in s
    ensures ScanOptions(s, 0, StrRChr(s[..pos], '='), pos, [], store)
            == ScanOptions(s, 0, StrRChr(s[..|s|], '='), |s|, [], store)
    decreases |s| - pos
  {
    hide ProcessOption;
    if pos < |s| {
      assert s[..pos + 1][..pos] == s[..pos] && s[pos] in s;
      LastEquals(s, pos + 1, store);
    }
  }

  lemma PlainChars(s: string, p: nat, a: string)
    requires p + |a| <= |s| && s[p..p + |a|] == a && Plain(a)
    ensures forall i | p <= i < p + |a| :: s[i] != '=' && s[i] != ';' && s[i] != '&'
  {
    CharsOf(s, p, a);
    assert forall i | p <= i < p + |a| :: s[i] == a[i - p] && a[i - p] in a;
  }

  lemma PairPlaces(s: string, p: nat, pr: Pair, rest: string)
    requires Left(s, p, PrintPair(pr) + rest)
    ensures var e, q := p + |pr.name|, p + |PrintPair(pr)|;
            && e < q <= |s| && s[p..e] == pr.name && s[e] == '=' && s[e + 1..q] == pr.value && Left(s, q, rest)
            && q == e + 1 + |pr.value|
  {
    assert PrintPair(pr) + rest == pr.name + ("=" + (pr.value + rest));
    LeftAfter(s, p, pr.name, "=" + (pr.value + rest));
    LeftStarts(s, p + |pr.name|, "=" + (pr.value + rest));
    LeftAfter(s, p + |pr.name|, "=", pr.value + rest);
    LeftAfter(s, p + |pr.name| + 1, pr.value, rest);
  }

  lemma EqualsIsSeen(s: string, name: nat, pos: nat, done: seq<Pair>, store: Store)
    requires name <= pos < |s| && s[pos] == '='
    ensures ScanOptions(s, name, None, pos, done, store) == ScanOptions(s, name, Some(pos), pos + 1, done, store)
  {
    hide ProcessOption;
  }

  lemma PairEnds(s: string, name: nat, eq: nat, pos: nat, pr: Pair, done: seq<Pair>, store: Store)
    requires name < eq < pos <= |s| && s[name..eq] == pr.name && s[eq + 1..pos] == pr.value
    requires pos < |s| ==> s[pos] == ';' || s[pos] == '&'
    ensures ScanOptions(s, name, Some(eq), pos, done, store) ==
            if pos == |s| || store(done, pr) > 0 then Stored(done + [pr], store(done, pr))
            else ScanOptions(s, pos + 1, None, pos + 1, done + [pr], store)
  {
  }

  lemma OnePair(s: string, p: nat, pr: Pair, rest: string, done: seq<Pair>, store: Store)
    requires Left(s, p, PrintPair(pr) + rest) && CleanPair(pr) && (rest != [] ==> rest[0] == ';' || rest[0] == '&')
    ensures var q := p + |PrintPair(pr)|;
            && q <= |s| && Left(s, q, rest) && (q == |s| <==> rest == [])
            && ScanOptions(s, p, None, p, done, store) ==
               if rest == [] || store(done, pr) > 0 then Stored(done + [pr], store(done, pr))
               else ScanOptions(s, q + 1, None, q + 1, done + [pr], store)
  {
    hide ScanOptions, Left, PrintPair;
    var e, q := p + |pr.name|, p + |PrintPair(pr)|;
    PairPlaces(s, p, pr, rest);
    LeftStarts(s, q, rest);
    PlainChars(s, p, pr.name);
    PlainChars(s, e + 1, pr.value);
    SkipInPair(s, p, None, p, |pr.name|, done, store);
    EqualsIsSeen(s, p, e, done, store);
    SkipInPair(s, p, Some(e), e + 1, |pr.value|, done, store);
    PairEnds(s, p, e, q, pr, done, store);
  }

  lemma {:induction false} PairsRoundTrip(s: string, p: nat, ps: seq<Pair>, sep: char, done: seq<Pair>,
      store: Store)
    requires ps != [] && (forall pr | pr in ps :: CleanPair(pr)) && (sep == ';' || sep == '&')
    requires Left(s, p, PrintPairs(ps, sep))
    ensures ScanOptions(s, p, None, p, done, store) == StoreAll(done, ps, store)
    ensures p < |s|
    decreases |ps|
  {
    hide ScanOptions, PrintPair, CleanPair, Left;
    assert ps[0] in ps;
    PairIsNotEmpty(ps[0]);
    if |ps| == 1 {
      assert PrintPair(ps[0]) + [] == PrintPair(ps[0]);
      OnePair(s, p, ps[0], [], done, store);
    } else {
      var more := [sep] + PrintPairs(ps[1..], sep);
      assert PrintPairs(ps, sep) == PrintPair(ps[0]) + more;
      OnePair(s, p, ps[0], more, done, store);
      LeftAfter(s, p + |PrintPair(ps[0])|, [sep], PrintPairs(ps[1..], sep));
      PairsRoundTrip(s, p + |PrintPair(ps[0])| + 1, ps[1..], sep, done + [ps[0]], store);
    }
  }

  lemma PairIsNotEmpty(p: Pair)
    ensures |PrintPair(p)| == |p.name| + 1 + |p.value|
  {
  }

  // ---------- the whole URI round trips ----------

  lemma {:induction false} StrChrShift(front: string, s: string, from: nat, c: char)
    requires from <= |s|
    ensures StrChr(front + s, |front| + from, c) ==
            if StrChr(s, from, c).Some? then Some(|front| + StrChr(s, from, c).value) else None
    decreases |s| - from
  {
    if from < |s| {
      assert (front + s)[|front| + from] == s[from];
      if s[from] != c {
        StrChrShift(front, s, from + 1, c);
      }
    }
  }

  /** The first of a character behind a part without it. */
  lemma StrChrAfter(s: string, p: nat, part: string, c: char, more: string)
    requires Left(s, p, part + ([c] + more)) && c !in part
    ensures StrChr(s, p, c) == Some(p + |part|)
  {
    LeftAfter(s, p, part, [c] + more);
    LeftStarts(s, p + |part|, [c] + more);
    CharsOf(s, p, part);
    assert forall i | p <= i < p + |part| :: s[i] == part[i - p] && part[i - p] in part;
    StrChrIs(s, p, c, p + |part|);
  }

  lemma LoginRoundTrip(s: string, login: Option<Login>, rest: string)
    requires s == "mongodb://" + (PrintLogin(login) + rest)
    requires if login.Some? then
               ':' !in login.value.user && '@' !in login.value.user && '@' !in login.value.password
             else !LooksLikeLogin(rest)
    ensures LoginOf(s) == (login, 10 + |PrintLogin(login)|) && Left(s, 10 + |PrintLogin(login)|, rest)
  {
    hide StrChr, PrintLogin, LoginOf, Left, LooksLikeLogin;
    SchemeFirst(s, PrintLogin(login) + rest);
    if login.Some? {
      LoginPlaces(s, login.value, rest);
      WithLogin(s, login.value, 10 + |login.value.user|, 10 + |login.value.user| + 1 + |login.value.password|);
    } else {
      NoLogin(rest);
      WithoutLogin(s, rest);
    }
  }

  lemma WithLogin(s: string, l: Login, colon: nat, at: nat)
    requires "mongodb://" <= s && StrChr(s, 10, ':') == Some(colon) && StrChr(s, 10, '@') == Some(at)
    requires 10 <= colon < at < |s| && s[10..colon] == l.user && s[colon + 1..at] == l.password
    ensures LoginOf(s) == (Some(l), at + 1)
  {
    hide StrChr;
  }

  lemma WithoutLogin(s: string, rest: string)
    requires s == "mongodb://" + rest && !LooksLikeLogin(rest)
    ensures LoginOf(s) == (None, 10)
  {
    hide StrChr;
    StrChrShift("mongodb://", rest, 0, '@');
    StrChrShift("mongodb://", rest, 0, ':');
  }

  lemma SchemeFirst(s: string, rest: string)
    requires s == "mongodb://" + rest
    ensures "mongodb://" <= s && Left(s, 10, rest)
  {
  }

  lemma NoLogin(rest: string)
    ensures PrintLogin(None) + rest == rest && |PrintLogin(None)| == 0
  {
  }

  /** The text of a login, seen from its at sign and from its colon. */
  lemma LoginText(l: Login, rest: string)
    ensures PrintLogin(Some(l)) + rest == (l.user + ":" + l.password) + (['@'] + rest)
    ensures PrintLogin(Some(l)) + rest == l.user + ([':'] + (l.password + (['@'] + rest)))
    ensures |PrintLogin(Some(l))| == |l.user| + 1 + |l.password| + 1
  {
    var front, tail := l.user + ":" + l.password, ['@'] + rest;
    assert front + "@" + rest == front + tail;
    assert front + tail == l.user + ([':'] + (l.password + tail));
  }

  lemma LoginPlaces(s: string, l: Login, rest: string)
    requires Left(s, 10, PrintLogin(Some(l)) + rest) && ':' !in l.user && '@' !in l.user && '@' !in l.password
    ensures var c := 10 + |l.user|; var at := c + 1 + |l.password|;
            && StrChr(s, 10, ':') == Some(c) && StrChr(s, 10, '@') == Some(at) && at < |s|
            && s[10..c] == l.user && s[c + 1..at] == l.password && Left(s, at + 1, rest)
            && at + 1 == 10 + |PrintLogin(Some(l))|
  {
    hide StrChr, Left, PrintLogin;
    var u, pw, tail := l.user, l.password, ['@'] + rest;
    LoginText(l, rest);
    NoAt(u, pw);
    StrChrAfter(s, 10, u + ":" + pw, '@', rest);
    var more := pw + tail;
    StrChrAfter(s, 10, u, ':', more);
    LeftAfter(s, 10, u, [':'] + more);
    LeftAfter(s, 10 + |u|, [':'], more);
    LeftAfter(s, 10 + |u| + 1, pw, tail);
    LeftAfter(s, 10 + |u| + 1 + |pw|, ['@'], rest);
  }

  lemma NoAt(u: string, pw: string)
    requires '@' !in u && '@' !in pw
    ensures '@' !in u + ":" + pw
  {
  }

  /** What the rest of a URI means behind its hosts. */
  function Meant(u: Uri, store: Store): Outcome {
    var db := DatabaseOf(if u.path.Path? && u.path.db != [] then Some(u.path.db) else None, u.login);
    var spec := Spec(u.login, MeantHosts(u.hosts), db, []);
    if u.path.NoPath? || u.path.options == [] then Parsed(spec)
    else
      var stored := StoreAll([], u.path.options, store);
      if stored.retval > 0 then Refused(stored.retval) else Parsed(spec.(stored := stored.pairs))
  }

  lemma PathRoundTrip(s: string, pos: nat, u: Uri, store: Store)
    requires Left(s, pos, PrintPath(u.path, u.sep)) && (u.sep == ';' || u.sep == '&')
    requires u.path.Path? ==> '?' !in u.path.db && forall p | p in u.path.options :: CleanPair(p)
    ensures WithTail(s, u.login, MeantHosts(u.hosts), pos, store) == Meant(u, store)
  {
    hide StrChr, ScanOptions, StoreAll, CleanPair, PrintPairs, MeantHosts;
    LeftStarts(s, pos, PrintPath(u.path, u.sep));
    if u.path.Path? {
      var db, options := u.path.db, u.path.options;
      var front := "/" + db;
      if options == [] {
        assert PrintPath(u.path, u.sep) == front + [];
        LeftAfter(s, pos, front, []);
        LeftStarts(s, pos + |front|, []);
        NoQuestion(s, pos, db);
      } else {
        OptionsAreRead(s, pos, front, options, u.sep, store);
      }
      DatabaseIsRead(s, pos, db);
    }
  }

  lemma OptionsAreRead(s: string, pos: nat, front: string, options: seq<Pair>, sep: char, store: Store)
    requires options != [] && (sep == ';' || sep == '&') && Left(s, pos, front + "?" + PrintPairs(options, sep))
    requires '?' !in front && forall p | p in options :: CleanPair(p)
    ensures var q := pos + |front|;
            && q + 1 < |s| && StrChr(s, pos, '?') == Some(q) && s[pos..q] == front
            && ScanOptions(s, q + 1, None, q + 1, [], store) == StoreAll([], options, store)
  {
    hide StrChr, ScanOptions, StoreAll, CleanPair, PrintPairs;
    var more := PrintPairs(options, sep);
    assert front + "?" + more == front + (['?'] + more);
    StrChrAfter(s, pos, front, '?', more);
    LeftAfter(s, pos, front, ['?'] + more);
    LeftAfter(s, pos + |front|, ['?'], more);
    PairsRoundTrip(s, pos + |front| + 1, options, sep, [], store);
  }

  lemma NoQuestion(s: string, pos: nat, db: string)
    requires Left(s, pos, "/" + db) && '?' !in db
    ensures StrChr(s, pos, '?') == None
  {
    hide StrChr;
    StrChrFirst(s, pos, '?');
    var all := "/" + db;
    forall i | pos <= i < |s|
      ensures s[i] != '?'
    {
      assert s[i] == s[pos..][i - pos] == all[i - pos] && all[i - pos] in all;
    }
  }

  lemma DatabaseIsRead(s: string, pos: nat, db: string)
    requires pos < |s| && pos + 1 + |db| <= |s| && s[pos..pos + 1 + |db|] == "/" + db
    requires (if StrChr(s, pos, '?').Some? then StrChr(s, pos, '?').value else |s|) == pos + 1 + |db|
    ensures DatabaseName(s, pos) == if db == [] then None else Some(db)
  {
    hide StrChr;
    assert s[pos + 1..pos + 1 + |db|] == s[pos..pos + 1 + |db|][1..] == db;
  }

  /** A printed URI is parsed back: user and password, hosts in order with port 27017 where none is
      given, the database or its default, and every option in order, up to the first that fails. */
  lemma UriRoundTrip(u: Uri, store: Store)
    requires Clean(u)
    ensures SpecOf(PrintUri(u), store) == Meant(u, store)
  {
    hide LoginOf, ScanHosts, WithTail, Meant, PrintHosts, PrintPath, PrintLogin, MeantHosts, Left, LooksLikeLogin, CleanPair, Host.Clean;
    var s := PrintUri(u);
    var path := PrintPath(u.path, u.sep);
    var hosts := PrintHosts(u.hosts);
    LoginRoundTrip(s, u.login, hosts + path);
    var pos := 10 + |PrintLogin(u.login)|;
    PathStarts(u.path, u.sep);
    HostsRoundTrip(s, pos, u.hosts, path);
    LeftStarts(s, pos, hosts + path);
    HostsStart(u.hosts);
    PathRoundTrip(s, pos + |hosts|, u, store);
  }

  lemma PathStarts(path: Path, sep: char)
    ensures PrintPath(path, sep) != [] ==> PrintPath(path, sep)[0] == '/'
  {
  }

  lemma HostsStart(hs: seq<Host>)
    requires hs != [] && (forall h | h in hs :: h.Clean()) && PrintHosts(hs) != []
    ensures PrintHosts(hs)[0] != '/'
  {
    hide Decimal;
    var h := hs[0];
    assert h in hs;
    if h.name != [] {
      assert h.name[0] in h.name;
      assert PrintHosts(hs)[0] == h.name[0];
    }
  }

  // ---------- tag lists ----------

  /** The tag whose name starts at `start`: up to the comma at `end`, if there is one.  When the colon
      lies behind that comma, the length of the value is negative and all that is left is copied. */
  function Tag(s: string, start: nat, colon: nat, end: Option<nat>): string
    requires start <= colon < |s|
  {
    var name := s[start..colon];
    name + ":" + (if end.None? then s[colon + 1..] else StrNDup(s, colon + 1, end.value - colon - 1))
  }

  /** parse_read_preference_tags: the tags of a list, as they are added to the tagset; None for a list
      without a separator where one is looked for. */
  function ParseTags(s: string, start: nat): Option<seq<string>>
    requires start <= |s|
    decreases |s| - start
  {
    var end, colon := StrChr(s, start, ','), StrChr(s, start, ':');
    if colon.None? then None
    else if end.None? then Some([Tag(s, start, colon.value, end)])
    else Onto([Tag(s, start, colon.value, end)], ParseTags(s, end.value + 1))
  }

  /** The tagset that a list stands for: an empty list is allowed. */
  method ParseReadPreferenceTags(value: string) returns (tags: Option<seq<string>>)
    ensures tags == if value == [] then Some([]) else ParseTags(value, 0)
  {
    hide StrChr, Tag;
    if value == [] {
      return Some([]);
    }
    var list: seq<string>, start: nat := [], 0;
    OntoNothing(ParseTags(value, 0));
    while true
      invariant start <= |value|
      invariant ParseTags(value, 0) == Onto(list, ParseTags(value, start))
      decreases |value| - start
    {
      var end, colon := StrChr(value, start, ','), StrChr(value, start, ':');
      if colon.None? {
        return None;
      }
      var tag := Tag(value, start, colon.value, end);
      if end.None? {
        list := list + [tag];
        break;
      }
      OntoOne(list, tag, ParseTags(value, end.value + 1));
      list := list + [tag];
      start := end.value + 1;
    }
    tags := Some(list);
  }

  /** Tags found earlier, in front of what the rest comes to. */
  function Onto(list: seq<string>, r: Option<seq<string>>): Option<seq<string>> {
    if r.Some? then Some(list + r.value) else None
  }

  lemma OntoNothing(r: Option<seq<string>>)
    ensures Onto([], r) == r
  {
    if r.Some? { assert [] + r.value == r.value; }
  }

  lemma OntoOne(list: seq<string>, tag: string, r: Option<seq<string>>)
    ensures Onto(list, Onto([tag], r)) == Onto(list + [tag], r)
  {
    if r.Some? { assert list + ([tag] + r.value) == list + [tag] + r.value; }
  }

  function Join(pieces: seq<string>): string
    requires pieces != []
  {
    if |pieces| == 1 then pieces[0] else pieces[0] + "," + Join(pieces[1..])
  }

  /** A list of pieces is taken apart into these pieces if and only if every one has a separator. */
  lemma {:induction false} TagsRoundTrip(s: string, start: nat, pieces: seq<string>)
    requires pieces != [] && (forall p | p in pieces :: ',' !in p) && Left(s, start, Join(pieces))
    ensures ParseTags(s, start) == Some(pieces) <==> forall p | p in pieces :: ':' in p
    decreases |pieces|
  {
    hide StrChr, StrNDup, Left, ParseTags;
    var p, tail := pieces[0], pieces[1..];
    assert pieces == [p] + tail;
    if |pieces| == 1 {
      assert pieces == [p];
      LastTag(s, start, p);
    } else {
      assert Join(pieces) == p + ([','] + Join(tail));
      LeftAfter(s, start, p, [','] + Join(tail));
      LeftAfter(s, start + |p|, [','], Join(tail));
      TagsRoundTrip(s, start + |p| + 1, tail);
      FirstTag(s, start, p, Join(tail));
      assert forall q | q in tail :: q in pieces;
      assert ParseTags(s, start).Some? && ParseTags(s, start).value[0] == p ==>
        (ParseTags(s, start) == Some(pieces) <==> ParseTags(s, start).value[1..] == tail);
    }
  }

  lemma LastTag(s: string, start: nat, p: string)
    requires ',' !in p && Left(s, start, p)
    ensures ParseTags(s, start) == (if ':' in p then Some([p]) else None)
  {
    hide StrChr, StrNDup;
    var end, colon := StrChr(s, start, ','), StrChr(s, start, ':');
    StrChrFirst(s, start, ',');
    StrChrFirst(s, start, ':');
    assert forall i | start <= i < |s| :: s[i] == p[i - start] && p[i - start] in p;
    assert forall i | 0 <= i < |p| :: p[i] == s[start + i];
    if colon.Some? {
      assert s[start..colon.value] + ":" + s[colon.value + 1..] == s[start..];
    }
  }

  /** A piece with another one behind it: itself if it has a separator, otherwise nothing or a tag that
      runs over the comma. */
  lemma FirstTag(s: string, start: nat, p: string, more: string)
    requires ',' !in p && Left(s, start, p + ([','] + more)) && start + |p| + 1 <= |s|
    ensures var r, rest := ParseTags(s, start), ParseTags(s, start + |p| + 1);
            && (':' in p ==> r == if rest.Some? then Some([p] + rest.value) else None)
            && (':' !in p && r.Some? ==> r.value != [] && r.value[0] != p)
  {
    hide StrChr, StrNDup;
    StrChrAfter(s, start, p, ',', more);
    LeftAfter(s, start, p, [','] + more);
    var end, colon := start + |p|, StrChr(s, start, ':');
    StrChrFirst(s, start, ':');
    CharsOf(s, start, p);
    if ':' in p {
      var i :| 0 <= i < |p| && p[i] == ':';
      assert s[start + i] == ':';
      TagInside(s, start, p, colon.value);
    } else if colon.Some? {
      TagRunsOver(s, start, p, colon.value, end);
    }
  }

  lemma TagInside(s: string, start: nat, p: string, colon: nat)
    requires start + |p| <= |s| && s[start..start + |p|] == p && start <= colon < start + |p| && s[colon] == ':'
    ensures s[start..colon] + ":" + StrNDup(s, colon + 1, start + |p| - colon - 1) == p
  {
    assert s[start..start + |p|] == s[start..colon] + [s[colon]] + s[colon + 1..start + |p|];
  }

  lemma TagRunsOver(s: string, start: nat, p: string, colon: nat, end: nat)
    requires start <= end <= colon < |s| && end == start + |p| && s[colon] == ':' && ',' !in p && ':' !in p
    ensures s[start..colon] + ":" + StrNDup(s, colon + 1, end - colon - 1) != p
  {
    var tag := s[start..colon] + ":" + StrNDup(s, colon + 1, end - colon - 1);
    assert tag[colon - start] == ':';
  }
}
