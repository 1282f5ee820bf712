/**
 From the browser's cookies to the service's answer: what the extension prints of the cookies it
 filtered is read back field by field, and the only refusal left is the public suffix.
 */
module CookieHandover {
  import opened Wrappers
  import opened Strings
  import opened CookieRows

  /** A text that can stand in a field: no tab and no line break. */
  predicate CleanField(s: string) {
    '\t' !in s && '\n' !in s && '\r' !in s
  }

  predicate CleanCookie(c: Cookie) {
    CleanField(c.name) && CleanField(c.value) && (c.path.Some? ==> CleanField(c.path.value))
  }

  /** A host name as an address has it. */
  predicate HostName(host: string) {
    CleanField(host) && '#' !in host && ';' !in host
  }

  // ---- domains of the scope ----

  lemma {:induction false} LowerHas(s: string, c: char)
    requires !('a' <= c <= 'z') && !('A' <= c <= 'Z')
    ensures c in Lower(s) <==> c in s
  {
    if i :| 0 <= i < |s| && s[i] == c {
      assert Lower(s)[i] == c;
    }
    if i :| 0 <= i < |s| && Lower(s)[i] == c {
      assert s[i] == c;
    }
  }

  lemma {:induction false} SuffixHas(s: string, t: string, c: char)
    requires EndsWith(s, t) && c in t
    ensures c in s
  {
    var i :| 0 <= i < |t| && t[i] == c;
    assert s[|s| - |t|..][i] == c;
  }

  /** A character that is no letter and no dot occurs in a domain of the scope only if in the host. */
  lemma {:induction false} DomainHas(c: Cookie, host: string, x: char)
    requires InScope(c, host) && !('a' <= x <= 'z') && !('A' <= x <= 'Z') && x != '.' && x !in host
    ensures x !in c.domain.value
  {
    var domain := c.domain.value;
    var bare := WithoutDot(domain);
    LowerHas(bare, x);
    LowerHas(host, x);
    assert x in domain ==> x in bare;
    if x in Lower(bare) && Lower(host) != Lower(bare) {
      assert x in "." + Lower(bare);
      SuffixHas(Lower(host), "." + Lower(bare), x);
    }
  }

  lemma {:induction false} DomainIsClean(c: Cookie, host: string)
    requires InScope(c, host) && HostName(host)
    ensures CleanField(c.domain.value) && '#' !in c.domain.value && c.domain.value != ""
  {
    DomainHas(c, host, '\t');
    DomainHas(c, host, '\n');
    DomainHas(c, host, '\r');
    DomainHas(c, host, '#');
  }

  // ---- one row ----

  lemma {:induction false} DigitsAreClean(s: string)
    requires forall c <- s :: c in DIGITS
    ensures CleanField(s)
  {
    assert forall i :: 0 <= i < |DIGITS| ==> DIGITS[i] >= '0';
  }

  lemma {:induction false} SignedIsClean(n: int)
    ensures CleanField(Signed(n))
  {
    DigitsAreClean(Decimal(if n < 0 then -n else n));
  }

  lemma {:induction false} FlagIsClean(b: bool)
    ensures CleanField(Flag(b))
  {
  }

  lemma {:induction false} FieldsAreClean(c: Cookie, host: string)
    requires InScope(c, host) && HostName(host) && CleanCookie(c)
    ensures forall i :: 0 <= i < 7 ==> CleanField(Fields(c, host)[i])
  {
    DomainIsClean(c, host);
    FlagIsClean(StartsWith(DomainOf(c, host), "."));
    FlagIsClean(c.secure);
    if c.expiry.Some? {
      SignedIsClean(c.expiry.value.Floor);
    }
    assert CleanField("/") && CleanField("0");
  }

  lemma {:induction false} TrimRightStays(s: string, c: char)
    requires c !in s
    ensures TrimRight(s, c) == s
  {
  }

  lemma {:induction false} RowIsClean(c: Cookie, host: string)
    requires InScope(c, host) && HostName(host) && CleanCookie(c)
    ensures '\n' !in Row(c, host) && '\r' !in Row(c, host)
  {
    FieldsAreClean(c, host);
    JoinHas(Fields(c, host), '\t', '\n');
    JoinHas(Fields(c, host), '\t', '\r');
    assert '\n' !in HTTP_ONLY && '\r' !in HTTP_ONLY;
  }

  lemma {:induction false} TextOfRow(c: Cookie, host: string)
    requires InScope(c, host) && HostName(host)
    ensures var text := Join(Fields(c, host), '\t');
            text != "" && text[0] != '#' && exists x <- text :: !IsWhite(x)
  {
    var fields := Fields(c, host);
    DomainIsClean(c, host);
    var x := if c.secure then 'T' else 'F';
    assert fields[3][0] == x && x in fields[3];
    JoinHas(fields, '\t', x);
    assert Join(fields, '\t')[0] == c.domain.value[0] && c.domain.value[0] in c.domain.value;
  }

  lemma {:induction false} RowOfText(text: string, httpOnly: bool)
    requires text != "" && text[0] != '#' && exists x <- text :: !IsWhite(x)
    ensures var row := (if httpOnly then HTTP_ONLY else "") + text;
            !Skipped(row) && Parsed(row) == Split(text, '\t')
  {
    if httpOnly {
      var row := HTTP_ONLY + text;
      assert HTTP_ONLY[0] == '#' && !IsWhite(HTTP_ONLY[0]) && HTTP_ONLY[0] in row;
      assert HTTP_ONLY <= row && row[|HTTP_ONLY|..] == text;
    } else {
      assert "" + text == text && HTTP_ONLY[0] == '#';
    }
  }

  /** The parser gets the printer's seven fields, an empty value and the HttpOnly prefix included. */
  lemma {:induction false} RowIsReadBack(c: Cookie, host: string)
    requires InScope(c, host) && HostName(host) && CleanCookie(c)
    ensures TrimRight(Row(c, host), '\r') == Row(c, host) && !Skipped(Row(c, host))
    ensures Parsed(Row(c, host)) == Fields(c, host)
  {
    RowIsClean(c, host);
    TrimRightStays(Row(c, host), '\r');
    TextOfRow(c, host);
    RowOfText(Join(Fields(c, host), '\t'), c.httpOnly);
    TextIsSplit(c, host);
  }

  lemma {:induction false} TextIsSplit(c: Cookie, host: string)
    requires InScope(c, host) && HostName(host) && CleanCookie(c)
    ensures Split(Join(Fields(c, host), '\t'), '\t') == Fields(c, host)
  {
    FieldsAreClean(c, host);
    SplitJoin(Fields(c, host), '\t');
  }

  // ---- the scope's rule ----

  lemma {:induction false} TrimLeftIs(s: string, c: char) returns (k: nat)
    ensures k <= |s| && TrimLeft(s, c) == s[k..] && forall i :: 0 <= i < k ==> s[i] == c
    ensures k < |s| ==> s[k] != c
    decreases |s|
  {
    if s != [] && s[0] == c {
      k := TrimLeftIs(s[1..], c);
      k := k + 1;
    } else {
      k := 0;
    }
  }

  predicate EndsInDot(host: string) {
    host != "" && host[|host| - 1] == '.'
  }

  lemma {:induction false} SuffixOfSuffix(s: string, t: string, k: nat)
    requires EndsWith(s, t) && k <= |t|
    ensures EndsWith(s, t[k..])
  {
    assert s[|s| - (|t| - k)..] == s[|s| - |t|..][k..];
  }

  lemma {:induction false} SuffixAbove(target: string, bare: string, k: nat)
    requires k <= |bare| && (target == bare || EndsWith(target, "." + bare))
    ensures EndsWith(target, bare[k..])
  {
    if target == bare {
      assert target[|target| - |bare|..] == bare;
      SuffixOfSuffix(target, bare, k);
    } else {
      SuffixOfSuffix(target, "." + bare, k + 1);
      assert ("." + bare)[k + 1..] == bare[k..];
    }
  }

  lemma {:induction false} LastOfSuffix(s: string, t: string)
    requires EndsWith(s, t) && t != ""
    ensures s != "" && s[|s| - 1] == t[|t| - 1]
  {
    assert s[|s| - |t|..][|t| - 1] == s[|s| - 1];
  }

  lemma {:induction false} BareEndsInNoDot(c: Cookie, host: string)
    requires InScope(c, host) && !EndsInDot(host)
    ensures var bare := Lower(WithoutDot(c.domain.value)); bare[|bare| - 1] != '.'
  {
    var bare := Lower(WithoutDot(c.domain.value));
    assert Lower(host)[|host| - 1] == LowerChar(host[|host| - 1]) != '.';
    if Lower(host) != bare {
      LastOfSuffix(Lower(host), "." + bare);
    }
  }

  /** What is left of a domain of the scope without its dots: never nothing, and still a suffix. */
  lemma {:induction false} BareDomain(c: Cookie, host: string) returns (j: nat)
    requires InScope(c, host) && !EndsInDot(host)
    ensures var bare, d := Lower(WithoutDot(c.domain.value)), Lower(TrimLeft(c.domain.value, '.'));
            && j < |bare| && d == bare[j..] && d != "" && (j > 0 ==> bare[j - 1..] == "." + d)
  {
    var domain := c.domain.value;
    var bare := Lower(WithoutDot(domain));
    var k := TrimLeftIs(domain, '.');
    j := if StartsWith(domain, ".") then k - 1 else k;
    BareEndsInNoDot(c, host);
    assert forall i :: 0 <= i < j ==> bare[i] == '.';
    assert Lower(domain[k..]) == bare[j..];
  }

  /** A cookie the extension lets through lies in the service's scope as well: it is the host, or a
      domain above it, which only the public suffix rule can still refuse. */
  lemma {:induction false} AdmitFollowsScope(c: Cookie, host: string, isSuffix: string -> bool)
    requires InScope(c, host) && !EndsInDot(host)
    ensures var d := Lower(TrimLeft(c.domain.value, '.'));
            Admit(ScopeHost(host), isSuffix, c.domain.value)
            == if d != Lower(host) && isSuffix(d) then Some(PublicSuffix) else None
  {
    var target, bare := Lower(host), Lower(WithoutDot(c.domain.value));
    var d := Lower(TrimLeft(c.domain.value, '.'));
    var j := BareDomain(c, host);
    assert TrimRight(host, '.') == host;
    if j > 0 {
      SuffixAbove(target, bare, j - 1);
    } else {
      assert d == bare;
    }
  }

  /** A scope written with a trailing dot is the one case the two sides disagree on: the extension
      keeps the dot and the service drops it. (A scope of dots alone is none to the service.) */
  lemma {:induction false} ScopesAgreeUnlessDotted(host: string, isSuffix: string -> bool)
    requires ScopeHost(host) != ""
    ensures (forall c :: InScope(c, host) ==> Admit(ScopeHost(host), isSuffix, DomainOf(c, host)) != Some(OutsideScope))
       <==> !EndsInDot(host)
  {
    if EndsInDot(host) {
      var c := Cookie("n", "v", Some("." + host), None, false, false, None);
      assert WithoutDot("." + host) == host;
      assert InScope(c, host);
      DottedIsOutside(host, isSuffix);
    } else {
      forall c | InScope(c, host) ensures Admit(ScopeHost(host), isSuffix, DomainOf(c, host)) != Some(OutsideScope) {
        AdmitFollowsScope(c, host, isSuffix);
      }
    }
  }

  lemma {:induction false} TrimRightEnd(s: string, c: char)
    ensures TrimRight(s, c) != "" ==> TrimRight(s, c)[|TrimRight(s, c)| - 1] != c
    ensures |TrimRight(s, c)| <= |s|
    decreases |s|
  {
    if s != "" && s[|s| - 1] == c {
      TrimRightEnd(s[..|s| - 1], c);
    }
  }

  lemma {:induction false} DottedIsOutside(host: string, isSuffix: string -> bool)
    requires EndsInDot(host) && ScopeHost(host) != ""
    ensures Admit(ScopeHost(host), isSuffix, "." + host) == Some(OutsideScope)
  {
    var k := TrimLeftIs("." + host, '.');
    var rest := ("." + host)[k..];
    var d, scope := Lower(rest), ScopeHost(host);
    TrimRightEnd(host, '.');
    if rest == "" {
      assert forall i :: 0 <= i < |host| ==> host[i] == ("." + host)[i + 1] == '.';
      TrimAllRight(host);
    } else {
      assert d[|d| - 1] == '.';
      assert scope[|scope| - 1] != '.';
      NotSuffix(scope, "." + d);
    }
  }

  lemma {:induction false} NotSuffix(s: string, t: string)
    requires s != "" && t != "" && s[|s| - 1] != t[|t| - 1]
    ensures !EndsWith(s, t)
  {
    if |t| <= |s| {
      assert s[|s| - |t|..][|t| - 1] == s[|s| - 1];
    }
  }

  lemma {:induction false} TrimAllRight(s: string)
    requires forall i :: 0 <= i < |s| ==> s[i] == '.'
    ensures TrimRight(s, '.') == ""
    decreases |s|
  {
    if s != "" {
      TrimAllRight(s[..|s| - 1]);
    }
  }

  // ---- the whole set ----

  /** A cookie set for a public suffix above the host. */
  predicate IsForSuffix(c: Cookie, host: string, isSuffix: string -> bool) {
    var d := Lower(TrimLeft(DomainOf(c, host), '.'));
    d != Lower(host) && isSuffix(d)
  }

  ghost predicate AnyForSuffix(cookies: seq<Cookie>, host: string, isSuffix: string -> bool) {
    exists i :: 0 <= i < |cookies| && IsForSuffix(cookies[i], host, isSuffix)
  }

  lemma {:induction false} CheckOfFields(line: string, fields: seq<string>, scope: string, isSuffix: string -> bool)
    requires !Skipped(line) && Parsed(line) == fields && |fields| == 7 && fields[5] != ""
    ensures CheckLine(line, scope, isSuffix)
         == match Admit(scope, isSuffix, fields[0]) case None => Ok(1) case Some(refusal) => Err(refusal)
  {
  }

  lemma {:induction false} CheckedRow(c: Cookie, host: string, isSuffix: string -> bool)
    requires HostName(host) && !EndsInDot(host) && c.name != "" && InScope(c, host) && CleanCookie(c)
    ensures CheckLine(TrimRight(Row(c, host), '\r'), ScopeHost(host), isSuffix)
         == if IsForSuffix(c, host, isSuffix) then Err(PublicSuffix) else Ok(1)
  {
    RowIsReadBack(c, host);
    CheckOfFields(Row(c, host), Fields(c, host), ScopeHost(host), isSuffix);
    AdmitFollowsScope(c, host, isSuffix);
  }

  lemma {:induction false} TallyOfOnes(results: seq<Result<nat, Refusal>>, bad: seq<bool>, n: nat)
    requires n <= |results| == |bad|
    requires forall i :: 0 <= i < |bad| ==> results[i] == if bad[i] then Err(PublicSuffix) else Ok(1)
    ensures Tally(results, n) == if exists i :: 0 <= i < n && bad[i] then Err(PublicSuffix) else Ok(n)
  {
    if n > 0 {
      TallyOfOnes(results, bad, n - 1);
    }
  }

  lemma {:induction false} LinesOfRows(cookies: seq<Cookie>, host: string)
    requires HostName(host)
    requires forall i :: 0 <= i < |cookies| ==>
               cookies[i].name != "" && InScope(cookies[i], host) && CleanCookie(cookies[i])
    ensures Lines(if cookies == [] then "" else Join(Rows(cookies, host), '\n')) == Rows(cookies, host)
  {
    var rows := Rows(cookies, host);
    if cookies != [] {
      forall i | 0 <= i < |rows| ensures '\n' !in rows[i] {
        RowIsClean(cookies[i], host);
      }
      SplitJoin(rows, '\n');
      TextOfRow(cookies[|rows| - 1], host);
      assert rows[|rows| - 1] != "";
    }
  }

  lemma {:induction false} CheckedRows(cookies: seq<Cookie>, host: string, isSuffix: string -> bool)
    requires HostName(host) && !EndsInDot(host)
    requires forall i :: 0 <= i < |cookies| ==>
               cookies[i].name != "" && InScope(cookies[i], host) && CleanCookie(cookies[i])
    ensures Tally(CheckEach(Rows(cookies, host), ScopeHost(host), isSuffix), |cookies|)
         == if AnyForSuffix(cookies, host, isSuffix) then Err(PublicSuffix) else Ok(|cookies|)
  {
    hide InScope, CleanCookie, ScopeHost, HostName, EndsInDot;
    var results := CheckEach(Rows(cookies, host), ScopeHost(host), isSuffix);
    var bad := seq(|cookies|, i requires 0 <= i < |cookies| => IsForSuffix(cookies[i], host, isSuffix));
    forall i | 0 <= i < |bad| ensures results[i] == if bad[i] then Err(PublicSuffix) else Ok(1) {
      CheckedRow(cookies[i], host, isSuffix);
    }
    TallyOfOnes(results, bad, |cookies|);
    assert (exists i :: 0 <= i < |cookies| && bad[i]) <==> AnyForSuffix(cookies, host, isSuffix);
  }

  lemma {:induction false} NamedAreClean(cookies: seq<Cookie>, host: string)
    requires forall i :: 0 <= i < |cookies| ==> InScope(cookies[i], host) && CleanCookie(cookies[i])
    ensures var named := Named(cookies);
            forall i :: 0 <= i < |named| ==> named[i].name != "" && InScope(named[i], host) && CleanCookie(named[i])
  {
    var named := Named(cookies);
    forall i | 0 <= i < |named| ensures InScope(named[i], host) && CleanCookie(named[i]) {
      assert named[i] in cookies;
    }
  }

  /** The answer to everything the extension can send: refused only for a cookie of a public suffix
      or for want of any cookie, else every cookie with a name is counted, once. */
  lemma {:induction false} HandedOverIsAnswered(cookies: seq<Cookie>, host: string, isSuffix: string -> bool)
    requires HostName(host) && !EndsInDot(host)
    requires forall i :: 0 <= i < |cookies| ==> InScope(cookies[i], host) && CleanCookie(cookies[i])
    ensures var named := Named(cookies);
            Checked(Netscape(cookies, host), ScopeHost(host), isSuffix)
            == if AnyForSuffix(named, host, isSuffix) then Err(PublicSuffix)
               else if named == [] then Err(Empty) else Ok(|named|)
  {
    var named := Named(cookies);
    NamedAreClean(cookies, host);
    LinesOfRows(named, host);
    CheckedRows(named, host, isSuffix);
  }

  // ---- what is added to the jar ----

  datatype Stored = Stored(name: string, value: string, path: string, secure: bool)

  /** What a row adds to the jar: its domain only decides whether the row is let in. */
  function StoredOf(fields: seq<string>): Stored
    requires |fields| == 7
  {
    Stored(fields[5], fields[6], fields[2], Lower(fields[3]) == "true")
  }

  /** What a line adds to the jar; None where it refuses the whole import. */
  function ImportLine(line: string, scope: string, isSuffix: string -> bool): Option<seq<Stored>> {
    if Skipped(line) then Some([])
    else
      var fields := Parsed(line);
      if |fields| != 7 || Admit(scope, isSuffix, fields[0]).Some? then None else Some([StoredOf(fields)])
  }

  function ImportEach(lines: seq<string>, scope: string, isSuffix: string -> bool): (r: seq<Option<seq<Stored>>>)
    ensures |r| == |lines|
    ensures forall i :: 0 <= i < |lines| ==> r[i] == ImportLine(TrimRight(lines[i], '\r'), scope, isSuffix)
  {
    seq(|lines|, i requires 0 <= i < |lines| => ImportLine(TrimRight(lines[i], '\r'), scope, isSuffix))
  }

  /** The jar after the first `n` lines, unless one of them refused the import. */
  function Collected(results: seq<Option<seq<Stored>>>, n: nat): Option<seq<Stored>>
    requires n <= |results|
  {
    if n == 0 then Some([])
    else
      var before := Collected(results, n - 1);
      if before.None? || results[n - 1].None? then None else Some(before.value + results[n - 1].value)
  }

  /** A content none of whose lines has seven fields is read as a header and not as rows. */
  ghost predicate HasRows(content: string) {
    exists l <- Lines(content) :: |Split(l, '\t')| >= 7
  }

  function Imported(content: string, scope: string, isSuffix: string -> bool): Option<seq<Stored>> {
    var lines := Lines(content);
    var rows := Collected(ImportEach(lines, scope, isSuffix), |lines|);
    if rows == Some([]) then None else rows
  }

  function AsStored(c: Cookie): Stored {
    Stored(c.name, c.value, if c.path.Some? then c.path.value else "/", c.secure)
  }

  lemma {:induction false} FlagIsRead(b: bool)
    ensures (Lower(Flag(b)) == "true") == b
  {
    if b {
      assert Lower("TRUE") == "true";
    } else {
      assert Lower("FALSE")[0] == 'f';
    }
  }

  lemma {:induction false} RowIsTaken(c: Cookie, host: string, isSuffix: string -> bool)
    requires HostName(host) && !EndsInDot(host) && InScope(c, host) && CleanCookie(c)
    requires !IsForSuffix(c, host, isSuffix)
    ensures ImportLine(TrimRight(Row(c, host), '\r'), ScopeHost(host), isSuffix) == Some([AsStored(c)])
  {
    RowIsReadBack(c, host);
    FlagIsRead(c.secure);
    AdmitFollowsScope(c, host, isSuffix);
  }

  function AllStored(cookies: seq<Cookie>): (r: seq<Stored>)
    ensures |r| == |cookies| && forall i :: 0 <= i < |cookies| ==> r[i] == AsStored(cookies[i])
  {
    seq(|cookies|, i requires 0 <= i < |cookies| => AsStored(cookies[i]))
  }

  /** Each line is taken for one cookie. */
  ghost predicate OneByOne(results: seq<Option<seq<Stored>>>, stored: seq<Stored>) {
    |results| == |stored| && forall i :: 0 <= i < |results| ==> results[i] == Some([stored[i]])
  }

  lemma {:induction false} CollectedOnes(results: seq<Option<seq<Stored>>>, n: nat, stored: seq<Stored>)
    requires n <= |results| && OneByOne(results, stored)
    ensures Collected(results, n) == Some(stored[..n])
  {
    if n > 0 {
      CollectedOnes(results, n - 1, stored);
      assert stored[..n] == stored[..n - 1] + [stored[n - 1]];
    }
  }

  lemma {:induction false} RowsAreTaken(cookies: seq<Cookie>, host: string, isSuffix: string -> bool)
    requires HostName(host) && !EndsInDot(host) && !AnyForSuffix(cookies, host, isSuffix)
    requires forall i :: 0 <= i < |cookies| ==> InScope(cookies[i], host) && CleanCookie(cookies[i])
    ensures OneByOne(ImportEach(Rows(cookies, host), ScopeHost(host), isSuffix), AllStored(cookies))
  {
    var results := ImportEach(Rows(cookies, host), ScopeHost(host), isSuffix);
    forall i | 0 <= i < |cookies| ensures results[i] == Some([AllStored(cookies)[i]]) {
      assert !IsForSuffix(cookies[i], host, isSuffix);
      RowIsTaken(cookies[i], host, isSuffix);
    }
  }

  lemma {:induction false} ContentIsTaken(content: string, scope: string, isSuffix: string -> bool, stored: seq<Stored>)
    requires OneByOne(ImportEach(Lines(content), scope, isSuffix), stored) && stored != []
    ensures Imported(content, scope, isSuffix) == Some(stored)
  {
    CollectedOnes(ImportEach(Lines(content), scope, isSuffix), |stored|, stored);
    assert stored[..|stored|] == stored;
  }

  /** One cookie is added for every named cookie, in order, with its name, value, path and flag. */
  lemma {:induction false} HandedOverIsAdded(cookies: seq<Cookie>, host: string, isSuffix: string -> bool)
    requires HostName(host) && !EndsInDot(host)
    requires forall i :: 0 <= i < |cookies| ==> InScope(cookies[i], host) && CleanCookie(cookies[i])
    requires Named(cookies) != [] && !AnyForSuffix(Named(cookies), host, isSuffix)
    ensures Imported(Netscape(cookies, host), ScopeHost(host), isSuffix) == Some(AllStored(Named(cookies)))
  {
    var named := Named(cookies);
    NamedAreClean(cookies, host);
    LinesOfRows(named, host);
    RowsAreTaken(named, host, isSuffix);
    ContentIsTaken(Netscape(cookies, host), ScopeHost(host), isSuffix, AllStored(named));
  }

  // ---- the check and the import ----

  lemma {:induction false} TrimKeepsTabs(s: string)
    ensures Count(TrimRight(s, '\r'), '\t') == Count(s, '\t')
    decreases |s|
  {
    if s != "" && s[|s| - 1] == '\r' {
      TrimKeepsTabs(s[..|s| - 1]);
      CountAppend(s[..|s| - 1], ['\r'], '\t');
      assert s == s[..|s| - 1] + ['\r'];
    }
  }

  lemma {:induction false} PrefixAddsNoPart(prefix: string, rest: string, sep: char)
    requires sep !in prefix
    ensures |Split(prefix + rest, sep)| == |Split(rest, sep)|
  {
    SplitCount(prefix + rest, sep);
    SplitCount(rest, sep);
    CountAppend(prefix, rest, sep);
    CountNone(prefix, sep);
  }

  lemma {:induction false} TrimAddsNoPart(l: string)
    ensures |Split(TrimRight(l, '\r'), '\t')| == |Split(l, '\t')|
  {
    TrimKeepsTabs(l);
    SplitCount(l, '\t');
    SplitCount(TrimRight(l, '\r'), '\t');
  }

  /** The prefix has no tab, so a line has as many fields with it as without it. */
  lemma {:induction false} ParsedIsSplit(l: string)
    ensures |Parsed(TrimRight(l, '\r'))| == |Split(l, '\t')|
  {
    var line := TrimRight(l, '\r');
    TrimAddsNoPart(l);
    if StartsWith(line, HTTP_ONLY) {
      assert line == HTTP_ONLY + line[|HTTP_ONLY|..];
      PrefixAddsNoPart(HTTP_ONLY, line[|HTTP_ONLY|..], '\t');
    }
  }

  lemma {:induction false} LineAgrees(l: string, scope: string, isSuffix: string -> bool)
    ensures var line := TrimRight(l, '\r');
            var check := CheckLine(line, scope, isSuffix);
            check.Ok? ==> ImportLine(line, scope, isSuffix).Some?
                          && |ImportLine(line, scope, isSuffix).value| == check.value
                          && (check.value > 0 ==> |Split(l, '\t')| == 7)
  {
    ParsedIsSplit(l);
  }

  lemma {:induction false} CollectedTally(checks: seq<Result<nat, Refusal>>, results: seq<Option<seq<Stored>>>, n: nat)
    requires n <= |checks| == |results|
    requires forall i :: 0 <= i < |checks| ==> checks[i].Ok? ==>
               results[i].Some? && |results[i].value| == checks[i].value
    ensures Tally(checks, n).Ok? ==>
              && Collected(results, n).Some? && |Collected(results, n).value| == Tally(checks, n).value
              && (Tally(checks, n).value > 0 ==> exists i :: 0 <= i < n && checks[i].Ok? && checks[i].value > 0)
  {
    if n > 0 {
      CollectedTally(checks, results, n - 1);
    }
  }

  /** What the check counts, the jar takes: the import after it reads rows, all of them, and never fails. */
  lemma {:induction false} CheckedIsImported(content: string, scope: string, isSuffix: string -> bool)
    requires Checked(content, scope, isSuffix).Ok?
    ensures HasRows(content)
    ensures Imported(content, scope, isSuffix).Some?
    ensures |Imported(content, scope, isSuffix).value| == Checked(content, scope, isSuffix).value
  {
    var lines := Lines(content);
    var checks, results := CheckEach(lines, scope, isSuffix), ImportEach(lines, scope, isSuffix);
    forall i | 0 <= i < |lines|
      ensures checks[i].Ok? ==> results[i].Some? && |results[i].value| == checks[i].value
      ensures checks[i].Ok? && checks[i].value > 0 ==> |Split(lines[i], '\t')| >= 7
    {
      LineAgrees(lines[i], scope, isSuffix);
    }
    CollectedTally(checks, results, |lines|);
    var i :| 0 <= i < |lines| && checks[i].Ok? && checks[i].value > 0;
    assert lines[i] in lines;
  }

  // ---- the cookies of a scope ----

  /** The browser's identity of a cookie. */
  function KeyOf(c: Cookie): (string, string, string) {
    (if c.domain.Some? then c.domain.value else "", if c.path.Some? then c.path.value else "", c.name)
  }

  ghost predicate OneEach(seen: seq<Cookie>) {
    forall i, j :: 0 <= i < j < |seen| ==> KeyOf(seen[i]) != KeyOf(seen[j])
  }

  /** The last cookie in scope of its identity among the first `n`. */
  ghost predicate LastOfKey(all: seq<Cookie>, host: string, n: nat, i: int)
    requires n <= |all|
  {
    && 0 <= i < n && InScope(all[i], host)
    && forall j :: i < j < n && InScope(all[j], host) ==> KeyOf(all[j]) != KeyOf(all[i])
  }

  /** The cookies in scope among the first `n`, each once and as it was answered last. */
  ghost predicate Seen(all: seq<Cookie>, host: string, n: nat, seen: seq<Cookie>)
    requires n <= |all|
  {
    && OneEach(seen)
    && (forall c <- seen :: exists i :: LastOfKey(all, host, n, i) && all[i] == c)
    && (forall i :: LastOfKey(all, host, n, i) ==> all[i] in seen)
  }

  /** `Map.set`: a known key keeps its place and gets the new value, a new key goes last. */
  method Put(seen: seq<Cookie>, cookie: Cookie) returns (r: seq<Cookie>)
    requires OneEach(seen)
    ensures OneEach(r)
    ensures forall i :: 0 <= i < |seen| && KeyOf(seen[i]) == KeyOf(cookie) ==> r == seen[i := cookie]
    ensures (forall i :: 0 <= i < |seen| ==> KeyOf(seen[i]) != KeyOf(cookie)) ==> r == seen + [cookie]
    ensures forall c :: c in r <==> c == cookie || (c in seen && KeyOf(c) != KeyOf(cookie))
  {
    var at := 0;
    while at < |seen| && KeyOf(seen[at]) != KeyOf(cookie)
      invariant 0 <= at <= |seen| && forall i :: 0 <= i < at ==> KeyOf(seen[i]) != KeyOf(cookie)
    {
      at := at + 1;
    }
    r := if at < |seen| then seen[at := cookie] else seen + [cookie];
    assert r[at] == cookie && forall i :: 0 <= i < |seen| && i != at ==> r[i] == seen[i];
  }

  lemma {:induction false} LastOfKeyNext(all: seq<Cookie>, host: string, n: nat, i: int)
    requires n < |all|
    ensures LastOfKey(all, host, n + 1, i)
       <==> if i == n then InScope(all[n], host)
            else LastOfKey(all, host, n, i) && (InScope(all[n], host) ==> KeyOf(all[n]) != KeyOf(all[i]))
  {
  }

  /** What the map holds once it has answered for cookie `n`. */
  ghost predicate HasPut(all: seq<Cookie>, host: string, n: nat, seen: seq<Cookie>, next: seq<Cookie>)
    requires n < |all|
  {
    if !InScope(all[n], host) then next == seen
    else forall c :: c in next <==> c == all[n] || (c in seen && KeyOf(c) != KeyOf(all[n]))
  }

  lemma {:induction false} SeenHolds(all: seq<Cookie>, host: string, n: nat, seen: seq<Cookie>,
                                     next: seq<Cookie>, i: int)
    requires n < |all| && Seen(all, host, n, seen) && HasPut(all, host, n, seen, next)
    requires LastOfKey(all, host, n + 1, i)
    ensures all[i] in next
  {
    LastOfKeyNext(all, host, n, i);
  }

  lemma {:induction false} SeenOnly(all: seq<Cookie>, host: string, n: nat, seen: seq<Cookie>,
                                    next: seq<Cookie>, c: Cookie)
    returns (i: int)
    requires n < |all| && Seen(all, host, n, seen) && HasPut(all, host, n, seen, next) && c in next
    ensures LastOfKey(all, host, n + 1, i) && all[i] == c
  {
    if InScope(all[n], host) && c == all[n] {
      i := n;
    } else {
      i :| LastOfKey(all, host, n, i) && all[i] == c;
    }
    LastOfKeyNext(all, host, n, i);
  }

  lemma {:induction false} SeenNext(all: seq<Cookie>, host: string, n: nat, seen: seq<Cookie>, next: seq<Cookie>)
    requires n < |all| && Seen(all, host, n, seen) && OneEach(next) && HasPut(all, host, n, seen, next)
    ensures Seen(all, host, n + 1, next)
  {
    forall c <- next ensures exists i :: LastOfKey(all, host, n + 1, i) && all[i] == c {
      var i := SeenOnly(all, host, n, seen, next, c);
    }
    forall i | LastOfKey(all, host, n + 1, i) ensures all[i] in next {
      SeenHolds(all, host, n, seen, next, i);
    }
  }

  method ReadScopeCookies(forUrl: seq<Cookie>, forDomain: seq<Cookie>, host: string) returns (seen: seq<Cookie>)
    ensures Seen(forUrl + forDomain, host, |forUrl + forDomain|, seen)
  {
    var all := forUrl + forDomain;
    seen := [];
    for n := 0 to |all|
      invariant Seen(all, host, n, seen)
    {
      var next := seen;
      if InScope(all[n], host) {
        next := Put(seen, all[n]);
      }
      SeenNext(all, host, n, seen, next);
      seen := next;
    }
  }
}
