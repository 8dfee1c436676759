/** The hash under which the manager knows a connection:
    HOST:PORT;SETNAME;DB/USERNAME/PASSWORDHASH;PID, with "-" and "." for missing parts. */
module ConnHash {
  import opened Files
  import opened Text
  import Md5
  import Md5Spec

  /** The part of a server definition that the hash is made of. */
  datatype ServerDef = ServerDef(
    host: string, port: int, replSet: Option<string>, db: Option<string>, authdb: Option<string>,
    username: Option<string>, password: Option<string>, mechanism: int)
  {
    /** All three parts of the credentials are there. */
    predicate HasCredentials() {
      db.Some? && username.Some? && password.Some?
    }
  }

  /** The text that the password hash is taken of: process id, password and user name. */
  function Salted(pid: int, username: string, password: string): string {
    Decimal(pid) + password + username
  }

  /** The salted text tells passwords of one user, users of one password, and processes apart. */
  lemma SaltedTells(pid: int, username: string, password: string, pid': int, username': string, password': string)
    requires Salted(pid, username, password) == Salted(pid', username', password')
    ensures pid == pid' && username == username' ==> password == password'
    ensures pid == pid' && password == password' ==> username == username'
    ensures username == username' && password == password' ==> pid == pid'
  {
    hide Decimal, Atoi;
    var d, d' := Decimal(pid), Decimal(pid');
    var s, s' := Salted(pid, username, password), Salted(pid', username', password');
    if pid == pid' {
      assert s[|d|..] == password + username && s'[|d|..] == password' + username';
      if username == username' {
        assert password == (password + username)[..|s| - |d| - |username|];
        assert password' == (password' + username)[..|s| - |d| - |username|];
      }
      if password == password' {
        assert username == (password + username)[|password|..] && username' == (password + username')[|password|..];
      }
    }
    if username == username' && password == password' {
      assert s == d + (password + username) && s' == d' + (password + username) && |d| == |d'|;
      assert d == s[..|d|] == s'[..|d|] == d';
      DecimalTells(pid, pid');
    }
  }

  lemma DecimalTells(n: int, m: int)
    requires Decimal(n) == Decimal(m)
    ensures n == m
  {
    hide Decimal, Atoi;
    AtoiOfDecimal(n, []);
    AtoiOfDecimal(m, []);
  }

  predicate IsBytes(s: string) {
    forall i | 0 <= i < |s| :: s[i] as int < 256
  }

  /** And its bytes tell texts of bytes apart. */
  lemma OctetsTell(s: string, t: string)
    requires IsBytes(s) && IsBytes(t) && Octets(s) == Octets(t)
    ensures s == t
  {
    assert |s| == |Octets(s)| == |Octets(t)| == |t|;
    forall i | 0 <= i < |s|
      ensures s[i] == t[i]
    {
      OctetIs(s, i);
      OctetIs(t, i);
    }
  }

  lemma OctetIs(s: string, i: nat)
    requires i < |s| && s[i] as int < 256
    ensures Octets(s)[i] as int == s[i] as int
  {
    SmallOctet(s[i] as int);
    assert Octets(s)[i] == (s[i] as int % 256) as Md5Spec.octet;
  }

  lemma SmallOctet(n: nat)
    requires n < 256
    ensures (n % 256) as Md5Spec.octet as int == n
  {
  }

  function Octets(s: string): (o: seq<Md5Spec.octet>)
    ensures |o| == |s|
  {
    seq(|s|, i requires 0 <= i < |s| => (s[i] as int % 256) as Md5Spec.octet)
  }

  /** mongo_server_create_hashed_password: thirty-two hexits. */
  function HashedPassword(pid: int, username: string, password: string): (h: string)
    ensures |h| == 32 && forall c | c in h :: Md5.IsHexit(c)
  {
    Md5.Hex(Md5Spec.Digest(Octets(Salted(pid, username, password))))
  }

  method CreateHashedPassword(pid: int, username: string, password: string) returns (h: string)
    ensures h == HashedPassword(pid, username, password)
  {
    h := Md5.Md5Hex(Octets(Salted(pid, username, password)));
  }

  function Credentials(d: ServerDef, pid: int): string {
    if d.HasCredentials() then
      d.db.value + "/" + d.username.value + "/" + HashedPassword(pid, d.username.value, d.password.value)
    else "."
  }

  /** Text with one colon and three semicolons between its five parts. */
  function Fields(a: string, p: string, r: string, c: string, e: string): string {
    (a + ":" + p + ";") + (r + ";") + (c + ";") + e
  }

  function SetName(d: ServerDef): string {
    if d.replSet.Some? then d.replSet.value else "-"
  }

  /** The hash of a server definition in process `pid`. */
  function HashOf(d: ServerDef, pid: int): string {
    Fields(d.host, Decimal(d.port), SetName(d), Credentials(d, pid), Decimal(pid))
  }

  /** The documented format, HOST:PORT;SETNAME;DB/USERNAME/PASSWORDHASH;PID, and what stands for missing
      parts. */
  lemma HashFormat(d: ServerDef, pid: int)
    ensures var front := d.host + ":" + Decimal(d.port) + ";" + (if d.replSet.Some? then d.replSet.value else "-") + ";";
            HashOf(d, pid) ==
            if d.HasCredentials() then
              front + d.db.value + "/" + d.username.value + "/" + HashedPassword(pid, d.username.value, d.password.value)
              + ";" + Decimal(pid)
            else front + ".;" + Decimal(pid)
  {
    hide Decimal, HashedPassword;
    var front := d.host + ":" + Decimal(d.port) + ";" + (if d.replSet.Some? then d.replSet.value else "-") + ";";
    var c := Credentials(d, pid);
    assert HashOf(d, pid) == front + (c + ";") + Decimal(pid);
  }

  /** mongo_server_create_hash, piece by piece. */
  method CreateHash(d: ServerDef, pid: int) returns (tmp: string)
    ensures tmp == HashOf(d, pid)
  {
    hide Decimal, HashedPassword;
    tmp := d.host + ":" + Decimal(d.port) + ";";
    if d.replSet.Some? {
      tmp := tmp + (d.replSet.value + ";");
    } else {
      tmp := tmp + "-;";
    }
    if d.db.Some? && d.username.Some? && d.password.Some? {
      var hash := CreateHashedPassword(pid, d.username.value, d.password.value);
      tmp := tmp + (d.db.value + "/" + d.username.value + "/" + hash + ";");
    } else {
      tmp := tmp + ".;";
    }
    tmp := tmp + Decimal(pid);
  }

  datatype Login = Login(db: string, username: string, authHash: string)

  datatype Parts = Parts(host: string, port: int, replSet: Option<string>, login: Option<Login>, pid: int)

  /** What a hash was made of. */
  function PartsOf(d: ServerDef, pid: int): Parts {
    Parts(d.host, d.port, d.replSet,
          if d.HasCredentials() then
            Some(Login(d.db.value, d.username.value, HashedPassword(pid, d.username.value, d.password.value)))
          else None,
          pid)
  }

  /** mongo_server_split_hash.  None where the source would follow a null pointer. */
  function SplitHash(h: string): Option<Parts> {
    var colon :- StrChr(h, 0, ':');
    var semi1 :- StrChr(h, colon, ';');
    var semi2 :- StrChr(h, semi1 + 1, ';');
    var replSet := if At(h, semi1 + 1) != '-' then Some(h[semi1 + 1..semi2]) else None;
    var login :- SplitLogin(h, semi2 + 1);
    var semi3 :- StrChr(h, semi2 + 1, ';');
    Some(Parts(h[..colon], Atoi(h[colon + 1..]), replSet, login, Atoi(h[semi3 + 1..])))
  }

  /** The credentials that start at `ptr`. */
  function SplitLogin(h: string, ptr: nat): Option<Option<Login>> {
    if At(h, ptr) == '.' then Some(None)
    else
      var slash1 :- StrChr(h, ptr, '/');
      var slash2 :- StrChr(h, slash1 + 1, '/');
      var semi :- StrChr(h, ptr, ';');
      Some(Some(Login(h[ptr..slash1], h[slash1 + 1..slash2], StrNDup(h, slash2 + 1, semi - slash2 - 1))))
  }

  /** mongo_server_hash_to_server. */
  function HashToServer(h: string): Option<string> {
    var semi :- StrChr(h, 0, ';');
    Some(h[..semi])
  }

  /** mongo_server_hash_to_pid. */
  function HashToPid(h: string): Option<int> {
    var semi :- StrRChr(h, ';');
    Some(Atoi(h[semi + 1..]))
  }

  predicate CleanLogin(db: string, user: string) {
    '/' !in db && ';' !in db && At(db, 0) != '.' && '/' !in user && ';' !in user
  }

  predicate CleanSetName(name: string) {
    ';' !in name && At(name, 0) != '-'
  }

  /** No part of the definition contains what separates it from the next, or starts like a missing one. */
  predicate Clean(d: ServerDef) {
    && ':' !in d.host
    && (d.replSet.Some? ==> CleanSetName(d.replSet.value))
    && (d.HasCredentials() ==> CleanLogin(d.db.value, d.username.value))
  }

  /** Where the parts lie. */
  lemma Layout(a: string, p: string, r: string, c: string, e: string)
    ensures var h := Fields(a, p, r, c, e);
            var semi1 := |a| + 1 + |p|;
            var semi2 := semi1 + 1 + |r|;
            var semi3 := semi2 + 1 + |c|;
            && PartAt(h, 0, a, ':') && PartAt(h, |a| + 1, p, ';')
            && PartAt(h, semi1 + 1, r, ';') && PartAt(h, semi2 + 1, c, ';')
            && |h| == semi3 + 1 + |e| && h[semi3 + 1..] == e
  {
    var h := Fields(a, p, r, c, e);
    var semi1 := |a| + 1 + |p|;
    var semi2 := semi1 + 1 + |r|;
    var front, middle, cred := a + ":" + p + ";", r + ";", c + ";";
    assert h == front + middle + cred + e;
    assert h[..semi1 + 1] == front && h[semi1 + 1..semi2 + 1] == middle && h[semi2 + 1..|h| - |e|] == cred;
  }

  lemma NoSemicolon(n: int)
    ensures ';' !in Decimal(n) && !IsDigit(';')
  {
  }

  lemma HexitsAreSafe(h: string)
    requires forall c | c in h :: Md5.IsHexit(c)
    ensures ';' !in h && '/' !in h
  {
  }

  /** The process id is found behind the last semicolon whatever the parts hold. */
  lemma PidIsFound(d: ServerDef, pid: int)
    ensures HashToPid(HashOf(d, pid)) == Some(pid)
  {
    hide Decimal, Credentials, Atoi, Fields;
    var e, h := Decimal(pid), HashOf(d, pid);
    Layout(d.host, Decimal(d.port), SetName(d), Credentials(d, pid), e);
    NoSemicolon(pid);
    LastIs(h, ';', |h| - |e| - 1);
    assert e + [] == e;
    AtoiOfDecimal(pid, []);
  }

  lemma LastIs(h: string, c: char, k: nat)
    requires k < |h| && h[k] == c && c !in h[k + 1..]
    ensures StrRChr(h, c) == Some(k)
  {
    assert forall i | k < i < |h| :: h[i] == h[k + 1..][i - k - 1];
  }

  /** Host, port and set name of a hash whose host holds no colon. */
  lemma FrontSplits(h: string, a: string, n: int, r: string)
    requires PartAt(h, 0, a, ':') && PartAt(h, |a| + 1, Decimal(n), ';') && ':' !in a
    requires PartAt(h, |a| + 1 + |Decimal(n)| + 1, r, ';')
    ensures StrChr(h, 0, ':') == Some(|a|) && h[..|a|] == a
    ensures StrChr(h, |a|, ';') == Some(|a| + 1 + |Decimal(n)|) && Atoi(h[|a| + 1..]) == n
  {
    hide Decimal, Atoi, PartAt, Value;
    StrChrPart(h, 0, a, ':', ':');
    var p := Decimal(n);
    NoSemicolon(n);
    StrChrPart(h, |a| + 1, p, ';', ';');
    AtoiInside(h, |a| + 1, n);
    ColonFirst(h, a, p);
  }

  lemma ColonFirst(h: string, a: string, p: string)
    requires PartAt(h, 0, a, ':') && StrChr(h, |a| + 1, ';') == Some(|a| + 1 + |p|)
    ensures StrChr(h, |a|, ';') == Some(|a| + 1 + |p|) && h[..|a|] == a
  {
  }

  lemma AtoiInside(h: string, from: nat, n: int)
    requires PartAt(h, from, Decimal(n), ';')
    ensures from <= |h| && Atoi(h[from..]) == n
  {
    hide Decimal, Atoi, Value;
    var k := from + |Decimal(n)|;
    assert h[from..] == h[from..k] + h[k..];
    assert h[k..][0] == ';';
    AtoiOfDecimal(n, h[k..]);
  }

  /** Three parts of a login, with `end` behind them. */
  lemma LoginLayout(h: string, q: nat, db: string, user: string, auth: string)
    requires PartAt(h, q, db + "/" + user + "/" + auth, ';')
    ensures PartAt(h, q, db, '/') && PartAt(h, q + |db| + 1, user, '/')
    ensures PartAt(h, q + |db| + 1 + |user| + 1, auth, ';')
  {
    var all := db + "/" + user + "/" + auth;
    assert h[q..q + |all|] == all;
    assert all[..|db|] == db && all[|db| + 1..|db| + 1 + |user|] == user && all[|db| + |user| + 2..] == auth;
    assert forall i | 0 <= i < |all| :: h[q + i] == all[i];
  }

  /** A semicolon in front of the password hash makes the split take too much for the hash. */
  lemma EarlySemicolon(h: string, from: nat, auth: string, n: int)
    requires PartAt(h, from, auth, ';') && n < 0
    ensures StrNDup(h, from, n) != auth
  {
    assert |h[from..]| > |auth|;
  }

  lemma SemicolonInLogin(h: string, q: nat, db: string, user: string, auth: string)
    requires PartAt(h, q, db, '/') && PartAt(h, q + |db| + 1, user, '/')
    requires PartAt(h, q + |db| + |user| + 2, auth, ';') && ';' !in auth
    ensures ';' !in db && ';' !in user ==> StrChr(h, q, ';') == Some(q + |db| + |user| + |auth| + 2)
    ensures ';' in db || ';' in user ==> StrChr(h, q, ';').Some? && StrChr(h, q, ';').value < q + |db| + |user| + 1
  {
    var slash1, slash2 := q + |db|, q + |db| + 1 + |user|;
    assert forall i | q <= i < slash1 :: h[i] == db[i - q];
    assert forall i | slash1 < i < slash2 :: h[i] == user[i - slash1 - 1];
    assert forall i | slash2 < i < slash2 + 1 + |auth| :: h[i] == auth[i - slash2 - 1];
    StrChrFirst(h, q, ';');
    if ';' in db {
      var k :| 0 <= k < |db| && db[k] == ';';
      assert h[q + k] == ';';
    } else if ';' in user {
      var k :| 0 <= k < |user| && user[k] == ';';
      assert h[slash1 + 1 + k] == ';';
    } else {
      StrChrIs(h, q, ';', slash2 + 1 + |auth|);
    }
  }

  lemma CleanLoginSplits(h: string, q: nat, db: string, user: string, auth: string)
    requires PartAt(h, q, db + "/" + user + "/" + auth, ';') && ';' !in auth && CleanLogin(db, user)
    ensures SplitLogin(h, q) == Some(Some(Login(db, user, auth)))
    ensures StrChr(h, q, ';') == Some(q + |db| + |user| + |auth| + 2)
  {
    hide PartAt, StrChr;
    LoginLayout(h, q, db, user, auth);
    SemicolonInLogin(h, q, db, user, auth);
    StrChrPart(h, q, db, '/', '/');
    StrChrPart(h, q + |db| + 1, user, '/', '/');
    StrChrPart(h, q + |db| + |user| + 2, auth, ';', ';');
  }

  lemma UncleanLoginBreaks(h: string, q: nat, db: string, user: string, auth: string)
    requires PartAt(h, q, db + "/" + user + "/" + auth, ';') && ';' !in auth && !CleanLogin(db, user)
    ensures SplitLogin(h, q) != Some(Some(Login(db, user, auth)))
  {
    hide PartAt, StrChr;
    LoginLayout(h, q, db, user, auth);
    StrChrPart(h, q, db, '/', '/');
    if '/' !in db {
      StrChrPart(h, q + |db| + 1, user, '/', '/');
      if '/' !in user && At(db, 0) != '.' {
        SemicolonInLogin(h, q, db, user, auth);
        EarlySemicolon(h, q + |db| + |user| + 2, auth, StrChr(h, q, ';').value - (q + |db| + |user| + 1) - 1);
      }
    }
  }

  lemma LoginPart(d: ServerDef, pid: int, h: string, q: nat)
    requires PartAt(h, q, Credentials(d, pid), ';')
    ensures SplitLogin(h, q) == Some(PartsOf(d, pid).login) <==>
            (d.HasCredentials() ==> CleanLogin(d.db.value, d.username.value))
    ensures SplitLogin(h, q) == Some(PartsOf(d, pid).login) ==> StrChr(h, q, ';') == Some(q + |Credentials(d, pid)|)
  {
    hide HashedPassword;
    if d.HasCredentials() {
      var auth := HashedPassword(pid, d.username.value, d.password.value);
      HexitsAreSafe(auth);
      hide PartAt, SplitLogin, CleanLogin, StrChr;
      if CleanLogin(d.db.value, d.username.value) {
        CleanLoginSplits(h, q, d.db.value, d.username.value, auth);
      } else {
        UncleanLoginBreaks(h, q, d.db.value, d.username.value, auth);
      }
    } else {
      StrChrPart(h, q, ".", ';', ';');
    }
  }

  lemma PidPart(h: string, from: nat, pid: int)
    requires from <= |h| && h[from..] == Decimal(pid)
    ensures Atoi(h[from..]) == pid
  {
    assert Decimal(pid) + [] == Decimal(pid);
    AtoiOfDecimal(pid, []);
  }

  /** The set name at `from`, with what is behind it. */
  lemma SetNamePart(d: ServerDef, h: string, from: nat)
    requires PartAt(h, from, SetName(d), ';')
    ensures StrChr(h, from, ';').Some?
    ensures var semi := StrChr(h, from, ';').value;
            && from <= semi <= |h|
            && ((if At(h, from) != '-' then Some(h[from..semi]) else None) == d.replSet <==>
                (d.replSet.Some? ==> CleanSetName(d.replSet.value)))
            && ((d.replSet.Some? ==> CleanSetName(d.replSet.value)) ==> semi == from + |SetName(d)|)
  {
    hide StrChr;
    StrChrPart(h, from, SetName(d), ';', ';');
  }

  /** A colon in the host ends it too early. */
  lemma ColonInHost(h: string, host: string)
    requires PartAt(h, 0, host, ':') && ':' in host
    ensures SplitHash(h).Some? ==> SplitHash(h).value.host != host
  {
    hide StrChr, SplitLogin, Atoi;
    StrChrPart(h, 0, host, ':', ':');
  }

  /** Splitting a hash gives back what it was made of if and only if no part of the definition contains
      the separator behind it or starts like a missing part. */
  lemma SplitInvertsCreate(d: ServerDef, pid: int)
    ensures SplitHash(HashOf(d, pid)) == Some(PartsOf(d, pid)) <==> Clean(d)
  {
    hide Decimal, Atoi, Fields, PartAt, HashedPassword, SplitLogin, CleanLogin, CleanSetName, StrChr, Credentials, SetName, At;
    var h, p, r, c := HashOf(d, pid), Decimal(d.port), SetName(d), Credentials(d, pid);
    Layout(d.host, p, r, c, Decimal(pid));
    if ':' in d.host {
      ColonInHost(h, d.host);
    } else {
      var semi2 := |d.host| + 1 + |p| + 1 + |r|;
      FrontSplits(h, d.host, d.port, r);
      SetNamePart(d, h, |d.host| + 1 + |p| + 1);
      LoginPart(d, pid, h, semi2 + 1);
      PidPart(h, semi2 + 1 + |c| + 1, pid);
    }
  }

  /** Clean definitions with the same hash agree on everything the hash is made of. */
  lemma HashIdentifies(d: ServerDef, d': ServerDef, pid: int, pid': int)
    requires Clean(d) && Clean(d') && HashOf(d, pid) == HashOf(d', pid')
    ensures PartsOf(d, pid) == PartsOf(d', pid')
  {
    hide HashOf, PartsOf, Clean, SplitHash;
    SplitInvertsCreate(d, pid);
    SplitInvertsCreate(d', pid');
  }

  /** Two clean definitions have one hash if and only if they agree in all that it is made of. */
  lemma SameHash(d: ServerDef, d': ServerDef, pid: int)
    requires Clean(d) && Clean(d')
    ensures HashOf(d, pid) == HashOf(d', pid) <==> PartsOf(d, pid) == PartsOf(d', pid)
  {
    hide Decimal, HashedPassword, Clean, Fields;
    if HashOf(d, pid) == HashOf(d', pid) {
      HashIdentifies(d, d', pid, pid);
    }
    if PartsOf(d, pid) == PartsOf(d', pid) {
      assert d.HasCredentials() <==> d'.HasCredentials();
    }
  }

  /** On a clean definition the two ways to the process id agree. */
  lemma PidExtractorsAgree(d: ServerDef, pid: int)
    requires Clean(d)
    ensures var split := SplitHash(HashOf(d, pid));
            split.Some? && HashToPid(HashOf(d, pid)) == Some(split.value.pid)
  {
    hide HashOf, Clean, SplitHash, HashToPid;
    SplitInvertsCreate(d, pid);
    PidIsFound(d, pid);
  }

  /** The server part of a hash is HOST:PORT if and only if the host holds no semicolon. */
  lemma ServerIsFound(d: ServerDef, pid: int)
    ensures HashToServer(HashOf(d, pid)) == Some(d.host + ":" + Decimal(d.port)) <==> ';' !in d.host
  {
    hide Decimal, Credentials;
    var front, h := d.host + ":" + Decimal(d.port), HashOf(d, pid);
    assert h == front + (";" + (SetName(d) + ";" + (Credentials(d, pid) + ";" + Decimal(pid))));
    assert PartAt(h, 0, front, ';');
    StrChrPart(h, 0, front, ';', ';');
    NoSemicolon(d.port);
    assert ';' in front <==> ';' in d.host;
  }
}
