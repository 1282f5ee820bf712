/**
 The jar a hand-over ends in (crates/rd-http/src/cookies.rs, `import_netscape`): every admitted row is
 written as a Set-Cookie text and read again by the rules of section 5.2 of RFC 6265, and by section
 5.3 a cookie replaces the one of its name, domain and path. All rows are stored for the scope's host,
 so name and path alone tell cookies apart, whatever domains they came with.
 */
module CookieJar {
  import opened Wrappers
  import opened Strings
  import opened CookieRows
  import opened CookieHandover

  // ---- one cookie, written and read ----

  function TrimStart(s: string): string {
    if s != [] && IsWhite(s[0]) then TrimStart(s[1..]) else s
  }

  function TrimEnd(s: string): string
    decreases |s|
  {
    if s != [] && IsWhite(s[|s| - 1]) then TrimEnd(s[..|s| - 1]) else s
  }

  function Trim(s: string): string {
    TrimEnd(TrimStart(s))
  }

  /** The parts of the text between its semicolons. */
  function Parts(c: Stored, host: string, reaches: bool): (parts: seq<string>)
    ensures parts != []
  {
    [c.name + "=" + c.value, " Path=" + c.path]
    + (if reaches then [" Domain=" + host] else [])
    + (if c.secure then [" Secure"] else [])
  }

  function SetCookie(c: Stored, host: string, reaches: bool): string {
    Join(Parts(c, host, reaches), ';')
  }

  /** A name and what follows its first equals sign, without blanks around them. */
  function Pair(part: string): (string, Option<string>) {
    var i := IndexOf(part, '=');
    if i == |part| then (Trim(part), None) else (Trim(part[..i]), Some(Trim(part[i + 1..])))
  }

  datatype Attributes = Attributes(path: string, secure: bool)

  /** One attribute more; a path that is none means the root. */
  function Attribute(before: Attributes, part: string): Attributes {
    var (key, value) := Pair(part);
    if Lower(key) == "path" && value.Some? then
      before.(path := if StartsWith(value.value, "/") then value.value else "/")
    else if Lower(key) == "secure" then before.(secure := true)
    else before
  }

  /** The attributes that matter here, the last path counting. */
  function Read(parts: seq<string>): Attributes {
    if parts == [] then Attributes("/", false) else Attribute(Read(parts[..|parts| - 1]), parts[|parts| - 1])
  }

  /** The cookie a Set-Cookie text makes, if it has a name. */
  function Received(text: string): Option<Stored> {
    var parts := Split(text, ';');
    var (name, value) := Pair(parts[0]);
    if name == "" || value.None? then None
    else Some(Stored(name, value.value, Read(parts[1..]).path, Read(parts[1..]).secure))
  }

  /** A text without a semicolon and without blanks around it. */
  predicate Bare(s: string) {
    ';' !in s && Trim(s) == s
  }

  predicate Plain(c: Stored) {
    && Bare(c.name) && c.name != "" && '=' !in c.name && Bare(c.value)
    && Bare(c.path) && StartsWith(c.path, "/")
  }

  lemma {:induction false} PairOf(key: string, value: string)
    requires '=' !in key
    ensures Pair(key + "=" + value) == (Trim(key), Some(Trim(value)))
  {
    IndexOfSeparator(key, '=', value);
    var part := key + "=" + value;
    assert part == key + ['='] + value;
    assert part[..|key|] == key && part[|key| + 1..] == value;
  }

  lemma {:induction false} PathCaption()
    ensures Trim(" Path") == "Path" && Lower("Path") == "path" && '=' !in " Path"
  {
  }

  lemma {:induction false} DomainCaption()
    ensures Trim(" Domain") == "Domain" && '=' !in " Domain"
    ensures Lower("Domain") != "path" && Lower("Domain") != "secure"
  {
    assert Lower("Domain")[0] == 'd' && "path"[0] == 'p' && "secure"[0] == 's';
  }

  lemma {:induction false} SecureCaption()
    ensures Pair(" Secure") == ("Secure", None) && Lower("Secure") == "secure" && "secure" != "path"
  {
    assert '=' !in " Secure";
    NoSeparator(" Secure", '=');
    assert Trim(" Secure") == "Secure";
    assert "path"[0] == 'p' && "secure"[0] == 's';
  }

  // ---- what is written is read ----

  lemma {:induction false} ReadNext(parts: seq<string>, part: string)
    ensures Read(parts + [part]) == Attribute(Read(parts), part)
  {
    assert (parts + [part])[..|parts|] == parts;
  }

  lemma {:induction false} PathPart(before: Attributes, path: string)
    requires Bare(path) && StartsWith(path, "/")
    ensures Attribute(before, " Path=" + path) == before.(path := path)
  {
    PathCaption();
    PairOf(" Path", path);
    assert " Path=" + path == " Path" + "=" + path;
  }

  lemma {:induction false} DomainPart(before: Attributes, host: string)
    ensures Attribute(before, " Domain=" + host) == before
  {
    DomainCaption();
    PairOf(" Domain", host);
    assert " Domain=" + host == " Domain" + "=" + host;
  }

  lemma {:induction false} SecurePart(before: Attributes)
    ensures Attribute(before, " Secure") == before.(secure := true)
  {
    SecureCaption();
  }

  lemma {:induction false} PathAndDomain(path: string, host: string, reaches: bool)
    requires Bare(path) && StartsWith(path, "/")
    ensures Read([" Path=" + path] + if reaches then [" Domain=" + host] else []) == Attributes(path, false)
  {
    var p := [" Path=" + path];
    ReadNext([], " Path=" + path);
    PathPart(Attributes("/", false), path);
    assert [] + p == p;
    if reaches {
      ReadNext(p, " Domain=" + host);
      DomainPart(Read(p), host);
    } else {
      assert p + [] == p;
    }
  }

  lemma {:induction false} AttributesAreRead(c: Stored, host: string, reaches: bool)
    requires Plain(c)
    ensures Read(Parts(c, host, reaches)[1..]) == Attributes(c.path, c.secure)
  {
    hide Attribute, Bare, StartsWith;
    var more := [" Path=" + c.path] + if reaches then [" Domain=" + host] else [];
    PathAndDomain(c.path, host, reaches);
    assert Parts(c, host, reaches)[1..] == more + if c.secure then [" Secure"] else [];
    if c.secure {
      ReadNext(more, " Secure");
      SecurePart(Read(more));
    } else {
      assert more + [] == more;
    }
  }

  lemma {:induction false} PartsHaveNoSemicolon(c: Stored, host: string, reaches: bool)
    requires Plain(c) && ';' !in host
    ensures forall i :: 0 <= i < |Parts(c, host, reaches)| ==> ';' !in Parts(c, host, reaches)[i]
  {
    assert ';' !in " Path=" && ';' !in " Domain=" && ';' !in " Secure";
  }

  lemma {:induction false} PlainIsReceived(c: Stored, host: string, reaches: bool)
    requires Plain(c) && ';' !in host
    ensures Received(SetCookie(c, host, reaches)) == Some(c)
  {
    PartsHaveNoSemicolon(c, host, reaches);
    SplitJoin(Parts(c, host, reaches), ';');
    PairOf(c.name, c.value);
    AttributesAreRead(c, host, reaches);
  }

  // ---- nothing else is ----

  lemma {:induction false} TrimStartIs(s: string) returns (k: nat)
    ensures k <= |s| && TrimStart(s) == s[k..] && (k < |s| ==> !IsWhite(s[k]))
  {
    if s != [] && IsWhite(s[0]) {
      k := TrimStartIs(s[1..]);
      k := k + 1;
    } else {
      k := 0;
    }
  }

  lemma {:induction false} TrimEndIs(s: string) returns (k: nat)
    ensures k <= |s| && TrimEnd(s) == s[..k] && (k > 0 ==> !IsWhite(s[k - 1]))
    decreases |s|
  {
    if s != [] && IsWhite(s[|s| - 1]) {
      k := TrimEndIs(s[..|s| - 1]);
    } else {
      k := |s|;
    }
  }

  /** Trimming once is enough, and brings in no character. */
  lemma {:induction false} TrimIsTrimmed(s: string)
    ensures Trim(Trim(s)) == Trim(s)
    ensures forall c :: c !in s ==> c !in Trim(s)
  {
    var i := TrimStartIs(s);
    var k := TrimEndIs(s[i..]);
    var t := Trim(s);
    assert t == s[i..][..k];
    assert forall j :: 0 <= j < |t| ==> t[j] == s[i + j];
  }

  lemma {:induction false} SplitHasNone(s: string, sep: char, i: nat)
    requires i < |Split(s, sep)|
    ensures sep !in Split(s, sep)[i]
    decreases |s|
  {
    var k := IndexOf(s, sep);
    if k == |s| {
      assert s[..k] == s;
    } else if i > 0 {
      SplitHasNone(s[k + 1..], sep, i - 1);
    }
  }

  lemma {:induction false} PairIsBare(part: string)
    requires ';' !in part
    ensures Bare(Pair(part).0) && '=' !in Pair(part).0
    ensures Pair(part).1.Some? ==> Bare(Pair(part).1.value)
  {
    var i := IndexOf(part, '=');
    TrimIsTrimmed(part[..i]);
    if i < |part| {
      TrimIsTrimmed(part[i + 1..]);
    } else {
      assert part[..i] == part;
    }
  }

  lemma {:induction false} ReadIsBare(parts: seq<string>)
    requires forall i :: 0 <= i < |parts| ==> ';' !in parts[i]
    ensures Bare(Read(parts).path) && StartsWith(Read(parts).path, "/")
  {
    if parts == [] {
      assert Trim("/") == "/";
    } else {
      ReadIsBare(parts[..|parts| - 1]);
      PairIsBare(parts[|parts| - 1]);
      assert Trim("/") == "/";
    }
  }

  lemma {:induction false} ReceivedIsPlain(text: string)
    requires Received(text).Some?
    ensures Plain(Received(text).value)
  {
    var parts := Split(text, ';');
    forall i | 0 <= i < |parts| ensures ';' !in parts[i] {
      SplitHasNone(text, ';', i);
    }
    PairIsBare(parts[0]);
    ReadIsBare(parts[1..]);
  }

  /** A cookie arrives in the jar as it was handed over if and only if no field of it is taken for
      something else: no semicolon or outer blanks, no equals sign in the name, a path from the root. */
  lemma {:induction false} ArrivesIfPlain(c: Stored, host: string, reaches: bool)
    requires ';' !in host
    ensures Received(SetCookie(c, host, reaches)) == Some(c) <==> Plain(c)
  {
    if Plain(c) {
      PlainIsReceived(c, host, reaches);
    }
    if Received(SetCookie(c, host, reaches)) == Some(c) {
      ReceivedIsPlain(SetCookie(c, host, reaches));
    }
  }

  // ---- the jar ----

  /** The scope's cookies by path and name. */
  type Jar = map<(string, string), Stored>

  function Place(c: Stored): (string, string) {
    (c.path, c.name)
  }

  /** A cookie takes the place of the one of its path and name. */
  function Filled(cookies: seq<Stored>): Jar {
    if cookies == [] then map[]
    else
      var c := cookies[|cookies| - 1];
      Filled(cookies[..|cookies| - 1])[Place(c) := c]
  }

  /** Every row written and received. */
  function ReceivedEach(rows: seq<Stored>, host: string, reaches: bool): (r: seq<Option<Stored>>)
    ensures |r| == |rows|
    ensures forall i :: 0 <= i < |rows| ==> r[i] == Received(SetCookie(rows[i], host, reaches))
  {
    seq(|rows|, i requires 0 <= i < |rows| => Received(SetCookie(rows[i], host, reaches)))
  }

  /** A text without a name adds nothing. */
  function Present(received: seq<Option<Stored>>): seq<Stored> {
    if received == [] then []
    else
      var last := received[|received| - 1];
      Present(received[..|received| - 1]) + if last.Some? then [last.value] else []
  }

  function JarOf(content: string, scope: string, isSuffix: string -> bool): Option<Jar> {
    var rows := Imported(content, scope, isSuffix);
    if rows.None? then None else Some(Filled(Present(ReceivedEach(rows.value, scope, !isSuffix(scope)))))
  }

  /** Cookie `i` is the last of its path and name. */
  ghost predicate IsLast(cookies: seq<Stored>, i: int) {
    0 <= i < |cookies| && forall j :: i < j < |cookies| ==> Place(cookies[j]) != Place(cookies[i])
  }

  lemma {:induction false} IsLastNext(cookies: seq<Stored>, i: int)
    requires cookies != []
    ensures var n := |cookies| - 1;
            IsLast(cookies, i) <==> i == n || (IsLast(cookies[..n], i) && Place(cookies[n]) != Place(cookies[i]))
  {
  }

  /** The jar holds exactly the last cookie of every path and name. */
  lemma {:induction false} LastOneWins(cookies: seq<Stored>, p: (string, string), c: Stored)
    ensures p in Filled(cookies) && Filled(cookies)[p] == c
       <==> exists i :: IsLast(cookies, i) && cookies[i] == c && Place(c) == p
  {
    if cookies != [] {
      var n := |cookies| - 1;
      LastOneWins(cookies[..n], p, c);
      forall i
        ensures IsLast(cookies, i) <==> i == n || (IsLast(cookies[..n], i) && Place(cookies[n]) != Place(cookies[i]))
      {
        IsLastNext(cookies, i);
      }
    }
  }

  ghost predicate ApartFrom(cookies: seq<Stored>, n: nat)
    requires n < |cookies|
  {
    forall i :: 0 <= i < n ==> Place(cookies[i]) != Place(cookies[n])
  }

  /** No two of the cookies share path and name. */
  ghost predicate Apart(cookies: seq<Stored>) {
    forall n :: 0 <= n < |cookies| ==> ApartFrom(cookies, n)
  }

  lemma {:induction false} FilledHolds(cookies: seq<Stored>, p: (string, string))
    ensures p in Filled(cookies) <==> exists i :: 0 <= i < |cookies| && Place(cookies[i]) == p
  {
    if cookies != [] {
      FilledHolds(cookies[..|cookies| - 1], p);
    }
  }

  /** There are as many cookies in the jar as were added if and only if no two share path and name. */
  lemma {:induction false} FilledSize(cookies: seq<Stored>)
    ensures |Filled(cookies)| <= |cookies|
    ensures |Filled(cookies)| == |cookies| <==> Apart(cookies)
  {
    if cookies != [] {
      var n := |cookies| - 1;
      var before := cookies[..n];
      FilledSize(before);
      FilledHolds(before, Place(cookies[n]));
      assert Place(cookies[n]) in Filled(before) <==> !ApartFrom(cookies, n);
      assert forall i :: 0 <= i < n ==> (ApartFrom(cookies, i) <==> ApartFrom(before, i));
    }
  }

  /** Text `j` is the last that arrives at its place. */
  ghost predicate ArrivesLast(received: seq<Option<Stored>>, j: int) {
    && 0 <= j < |received| && received[j].Some?
    && forall k :: j < k < |received| && received[k].Some? ==> Place(received[k].value) != Place(received[j].value)
  }

  lemma {:induction false} ArrivesLastNext(received: seq<Option<Stored>>, j: int)
    requires received != []
    ensures var n := |received| - 1;
            ArrivesLast(received, j)
            <==> || (j == n && received[n].Some?)
                 || (ArrivesLast(received[..n], j)
                     && (received[n].Some? ==> Place(received[n].value) != Place(received[j].value)))
  {
  }

  /** Whatever the cookies are like, the jar holds exactly what arrived last at every place. */
  lemma {:induction false} LastArrivalWins(received: seq<Option<Stored>>, p: (string, string), c: Stored)
    ensures p in Filled(Present(received)) && Filled(Present(received))[p] == c
       <==> exists j :: ArrivesLast(received, j) && received[j].value == c && Place(c) == p
  {
    if received != [] {
      var n := |received| - 1;
      var before := Present(received[..n]);
      LastArrivalWins(received[..n], p, c);
      forall j
        ensures ArrivesLast(received, j)
           <==> || (j == n && received[n].Some?)
                || (ArrivesLast(received[..n], j)
                    && (received[n].Some? ==> Place(received[n].value) != Place(received[j].value)))
      {
        ArrivesLastNext(received, j);
      }
      if received[n].Some? {
        assert Present(received) == before + [received[n].value];
        assert (before + [received[n].value])[..|before|] == before;
        assert ArrivesLast(received, n);
      } else {
        assert Present(received) == before;
      }
    }
  }

  lemma {:induction false} AllPresent(received: seq<Option<Stored>>, rows: seq<Stored>)
    requires |received| == |rows| && forall i :: 0 <= i < |rows| ==> received[i] == Some(rows[i])
    ensures Present(received) == rows
  {
    if rows == [] {
    } else {
      AllPresent(received[..|rows| - 1], rows[..|rows| - 1]);
    }
  }

  lemma {:induction false} PlainRowsArrive(rows: seq<Stored>, host: string, reaches: bool)
    requires ';' !in host && forall i :: 0 <= i < |rows| ==> Plain(rows[i])
    ensures Present(ReceivedEach(rows, host, reaches)) == rows
  {
    forall i | 0 <= i < |rows| ensures ReceivedEach(rows, host, reaches)[i] == Some(rows[i]) {
      PlainIsReceived(rows[i], host, reaches);
    }
    AllPresent(ReceivedEach(rows, host, reaches), rows);
  }

  lemma {:induction false} ScopeHasNoSemicolon(host: string)
    requires ';' !in host
    ensures ';' !in ScopeHost(host)
  {
    TrimRightBringsNone(host, '.', ';');
    LowerHas(TrimRight(host, '.'), ';');
  }

  lemma {:induction false} TrimRightBringsNone(s: string, c: char, x: char)
    requires x !in s
    ensures x !in TrimRight(s, c)
    decreases |s|
  {
    if s != "" && s[|s| - 1] == c {
      TrimRightBringsNone(s[..|s| - 1], c, x);
    }
  }

  /** A hand-over ends with the last of the named cookies of every path and name in the jar, and with
      one for each named cookie if and only if no two of them share path and name. */
  lemma {:induction false} HandedOverIsStored(cookies: seq<Cookie>, host: string, isSuffix: string -> bool)
    requires HostName(host) && !EndsInDot(host)
    requires forall i :: 0 <= i < |cookies| ==> InScope(cookies[i], host) && CleanCookie(cookies[i])
    requires Named(cookies) != [] && !AnyForSuffix(Named(cookies), host, isSuffix)
    requires forall i :: 0 <= i < |Named(cookies)| ==> Plain(AsStored(Named(cookies)[i]))
    ensures var jar := JarOf(Netscape(cookies, host), ScopeHost(host), isSuffix);
            && jar == Some(Filled(AllStored(Named(cookies))))
            && (|jar.value| == |Named(cookies)| <==> Apart(AllStored(Named(cookies))))
  {
    HandedOverIsAdded(cookies, host, isSuffix);
    ScopeHasNoSemicolon(host);
    PlainRowsArrive(AllStored(Named(cookies)), ScopeHost(host), !isSuffix(ScopeHost(host)));
    FilledSize(AllStored(Named(cookies)));
  }

  /** The same without asking that the cookies be plain: at every place the jar holds what arrived there
      last, as itself or as what it was taken for. */
  lemma {:induction false} HandedOverArrives(cookies: seq<Cookie>, host: string, isSuffix: string -> bool,
                                             p: (string, string), c: Stored)
    requires HostName(host) && !EndsInDot(host)
    requires forall i :: 0 <= i < |cookies| ==> InScope(cookies[i], host) && CleanCookie(cookies[i])
    requires Named(cookies) != [] && !AnyForSuffix(Named(cookies), host, isSuffix)
    ensures var jar := JarOf(Netscape(cookies, host), ScopeHost(host), isSuffix);
            var received := ReceivedEach(AllStored(Named(cookies)), ScopeHost(host), !isSuffix(ScopeHost(host)));
            && jar.Some?
            && (p in jar.value && jar.value[p] == c
                <==> exists j :: ArrivesLast(received, j) && received[j].value == c && Place(c) == p)
  {
    HandedOverIsAdded(cookies, host, isSuffix);
    LastArrivalWins(ReceivedEach(AllStored(Named(cookies)), ScopeHost(host), !isSuffix(ScopeHost(host))), p, c);
  }

  /** An equals sign in a name moves the rest of the name into the value: two cookies, one text. */
  lemma {:induction false} OneText(c: Stored, v: string, host: string, reaches: bool)
    ensures SetCookie(c.(name := c.name + "=" + v), host, reaches)
         == SetCookie(c.(value := v + "=" + c.value), host, reaches)
  {
    var a, b := c.(name := c.name + "=" + v), c.(value := v + "=" + c.value);
    assert a.name + "=" + a.value == b.name + "=" + b.value;
    assert Parts(a, host, reaches) == Parts(b, host, reaches);
  }

  lemma {:induction false} PresentTwo(a: Stored, b: Stored)
    ensures Present([Some(a), Some(b)]) == [a, b]
  {
    assert [Some(a), Some(b)][..1] == [Some(a)] && [Some(a)][..0] == [];
    assert Present([Some(a)]) == [a];
  }

  /** So a cookie that is not plain can take the place of one that is: it arrives under that one's name. */
  lemma {:induction false} NotPlainDisplaces(c: Stored, v: string, host: string, reaches: bool)
    requires ';' !in host && Plain(c) && Plain(c.(value := v + "=" + c.value))
    ensures var strange, taken := c.(name := c.name + "=" + v), c.(value := v + "=" + c.value);
            && !Plain(strange)
            && Filled(Present(ReceivedEach([c, strange], host, reaches))) == map[Place(c) := taken]
  {
    var strange, taken := c.(name := c.name + "=" + v), c.(value := v + "=" + c.value);
    assert strange.name[|c.name|] == '=';
    OneText(c, v, host, reaches);
    PlainIsReceived(c, host, reaches);
    PlainIsReceived(taken, host, reaches);
    assert ReceivedEach([c, strange], host, reaches) == [Some(c), Some(taken)];
    PresentTwo(c, taken);
    FilledTwo(c, taken);
  }

  // ---- two cookies, one place ----

  lemma {:induction false} FilledTwo(a: Stored, b: Stored)
    requires Place(a) == Place(b)
    ensures Filled([a, b]) == map[Place(b) := b]
  {
    assert [a, b][..1] == [a] && [a][..0] == [];
    assert Filled([a]) == map[Place(a) := a];
  }

  lemma {:induction false} TwoNamed(a: Cookie, b: Cookie)
    requires a.name != "" && b.name != ""
    ensures Named([a, b]) == [a, b]
  {
    assert [a, b][..1] == [a] && [a][..0] == [];
    assert Named([a]) == [a];
  }

  /** A cookie of the scope that nothing stands in the way of. */
  predicate Passes(c: Cookie, host: string, isSuffix: string -> bool) {
    c.name != "" && InScope(c, host) && CleanCookie(c) && Plain(AsStored(c)) && !IsForSuffix(c, host, isSuffix)
  }

  lemma {:induction false} PassingAreKept(cookies: seq<Cookie>, host: string, isSuffix: string -> bool)
    requires HostName(host) && !EndsInDot(host) && cookies != [] && Named(cookies) == cookies
    requires forall i :: 0 <= i < |cookies| ==> Passes(cookies[i], host, isSuffix)
    ensures Checked(Netscape(cookies, host), ScopeHost(host), isSuffix) == Ok(|cookies|)
    ensures JarOf(Netscape(cookies, host), ScopeHost(host), isSuffix) == Some(Filled(AllStored(cookies)))
  {
    HandedOverIsAnswered(cookies, host, isSuffix);
    HandedOverIsStored(cookies, host, isSuffix);
  }

  lemma {:induction false} StoredTwo(a: Cookie, b: Cookie)
    requires Place(AsStored(a)) == Place(AsStored(b))
    ensures Filled(AllStored([a, b])) == map[Place(AsStored(b)) := AsStored(b)]
  {
    assert AllStored([a, b]) == [AsStored(a), AsStored(b)];
    FilledTwo(AsStored(a), AsStored(b));
  }

  /** Two cookies of the scope with one path and name: both are counted, and the jar keeps only the
      one that was added last. */
  lemma {:induction false} TwoCountedOneKept(a: Cookie, b: Cookie, host: string, isSuffix: string -> bool)
    requires HostName(host) && !EndsInDot(host) && Passes(a, host, isSuffix) && Passes(b, host, isSuffix)
    requires Place(AsStored(a)) == Place(AsStored(b))
    ensures Checked(Netscape([a, b], host), ScopeHost(host), isSuffix) == Ok(2)
    ensures JarOf(Netscape([a, b], host), ScopeHost(host), isSuffix) == Some(map[Place(AsStored(b)) := AsStored(b)])
  {
    var both := [a, b];
    TwoNamed(a, b);
    PassingAreKept(both, host, isSuffix);
    StoredTwo(a, b);
  }

  /** There are such cookies: one of a host and one of the domain above it, which the extension keeps
      apart by their domains. */
  lemma {:induction false} HostAndDomainAbove(host: string, above: string, c: Cookie) returns (a: Cookie, b: Cookie)
    requires EndsWith(host, "." + above) && above != "" && above[0] != '.' && host[0] != '.' && host != above
    ensures a == c.(domain := Some(above)) && b == c.(domain := Some(host))
    ensures InScope(a, host) && InScope(b, host) && KeyOf(a) != KeyOf(b) && Place(AsStored(a)) == Place(AsStored(b))
  {
    a, b := c.(domain := Some(above)), c.(domain := Some(host));
    assert !StartsWith(above, ".") && !StartsWith(host, ".");
    assert Lower(host)[|host| - |above| - 1..] == "." + Lower(above);
  }
}
