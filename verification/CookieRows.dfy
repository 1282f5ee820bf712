/**
 The cookies of a hand-over, from the browser to the jar. The extension filters them by the scope's
 host (extension/src/handover.js) and prints them as Netscape rows (extension/src/session.js); the
 service checks every row (crates/rd-api-access/src/browser_session_handlers.rs) by the rule of the
 jar and reads them into it (crates/rd-http/src/cookies.rs).
 */
module CookieRows {
  import opened Wrappers
  import opened Strings

  // ---- the printer ----

  datatype Cookie = Cookie(
    name: string,
    value: string,
    domain: Option<string>,
    path: Option<string>,
    secure: bool,
    httpOnly: bool,
    expiry: Option<real>)      // None for a session cookie

  const HTTP_ONLY := "#HttpOnly_"

  function Flag(b: bool): string {
    if b then "TRUE" else "FALSE"
  }

  function Signed(n: int): string {
    if n < 0 then "-" + Decimal(-n) else Decimal(n)
  }

  function DomainOf(c: Cookie, host: string): string {
    if c.domain.Some? then c.domain.value else host
  }

  /** The seven fields of a cookie's row. */
  function Fields(c: Cookie, host: string): (f: seq<string>)
    ensures |f| == 7
  {
    [DomainOf(c, host),
     Flag(StartsWith(DomainOf(c, host), ".")),
     if c.path.Some? then c.path.value else "/",
     Flag(c.secure),
     if c.expiry.Some? then Signed(c.expiry.value.Floor) else "0",
     c.name,
     c.value]
  }

  function Row(c: Cookie, host: string): string {
    (if c.httpOnly then HTTP_ONLY else "") + Join(Fields(c, host), '\t')
  }

  /** A cookie without a name has no row. */
  function Named(cookies: seq<Cookie>): (r: seq<Cookie>)
    ensures forall i :: 0 <= i < |r| ==> r[i].name != "" && r[i] in cookies
  {
    if cookies == [] then []
    else Named(cookies[..|cookies| - 1])
         + if cookies[|cookies| - 1].name == "" then [] else [cookies[|cookies| - 1]]
  }

  function Rows(cookies: seq<Cookie>, host: string): (r: seq<string>)
    ensures |r| == |cookies| && forall i :: 0 <= i < |r| ==> r[i] == Row(cookies[i], host)
  {
    seq(|cookies|, i requires 0 <= i < |cookies| => Row(cookies[i], host))
  }

  function Netscape(cookies: seq<Cookie>, host: string): string {
    var rows := Rows(Named(cookies), host);
    if rows == [] then "" else Join(rows, '\n')
  }

  method ToNetscape(cookies: seq<Cookie>, host: string) returns (content: string)
    ensures content == Netscape(cookies, host)
  {
    var rows := [];
    for n := 0 to |cookies|
      invariant rows == Rows(Named(cookies[..n]), host)
    {
      var cookie := cookies[n];
      assert cookies[..n + 1][..n] == cookies[..n];
      if cookie.name != "" {
        rows := rows + [Row(cookie, host)];
      }
    }
    assert cookies[..|cookies|] == cookies;
    content := if rows == [] then "" else Join(rows, '\n');
  }

  // ---- the filter ----

  function WithoutDot(domain: string): string {
    if StartsWith(domain, ".") then domain[1..] else domain
  }

  /** The cookie's domain is the host or ends the host after a dot, letter case aside. */
  predicate InScope(c: Cookie, host: string) {
    var domain := if c.domain.Some? then Lower(WithoutDot(c.domain.value)) else "";
    var target := Lower(host);
    domain != "" && target != "" && (target == domain || EndsWith(target, "." + domain))
  }

  // ---- the parser ----

  datatype Refusal = Invalid | OutsideScope | PublicSuffix | Empty

  /** The lines of a text without their ends; no line after the last line feed. */
  function Lines(content: string): seq<string> {
    var parts := Split(content, '\n');
    if parts[|parts| - 1] == "" then parts[..|parts| - 1] else parts
  }

  predicate IsWhite(c: char) {
    || '\t' <= c <= '\r' || c == ' ' || c as int == 0x85 || c as int == 0xA0 || c as int == 0x1680
    || 0x2000 <= c as int <= 0x200A || c as int == 0x2028 || c as int == 0x2029 || c as int == 0x202F
    || c as int == 0x205F || c as int == 0x3000
  }

  predicate Skipped(line: string) {
    (forall c <- line :: IsWhite(c)) || (StartsWith(line, "#") && !StartsWith(line, HTTP_ONLY))
  }

  /** The fields of a line that is not skipped. */
  function Parsed(line: string): seq<string> {
    Split(if StartsWith(line, HTTP_ONLY) then line[|HTTP_ONLY|..] else line, '\t')
  }

  /** The scope as the service holds it. */
  function ScopeHost(host: string): string {
    Lower(TrimRight(host, '.'))
  }

  /** The jar's one rule: the host or a domain above it, and above it no public suffix. */
  function Admit(scope: string, isSuffix: string -> bool, domain: string): Option<Refusal> {
    var d := Lower(TrimLeft(domain, '.'));
    if d == scope then None
    else if d == "" || !EndsWith(scope, "." + d) then Some(OutsideScope)
    else if isSuffix(d) then Some(PublicSuffix)
    else None
  }

  /** What one line does to the count. */
  function CheckLine(line: string, scope: string, isSuffix: string -> bool): Result<nat, Refusal> {
    if Skipped(line) then Ok(0)
    else
      var fields := Parsed(line);
      if |fields| != 7 || fields[5] == "" then Err(Invalid)
      else match Admit(scope, isSuffix, fields[0])
        case None => Ok(1)
        case Some(refusal) => Err(refusal)
  }

  function CheckEach(lines: seq<string>, scope: string, isSuffix: string -> bool): (r: seq<Result<nat, Refusal>>)
    ensures |r| == |lines|
    ensures forall i :: 0 <= i < |lines| ==> r[i] == CheckLine(TrimRight(lines[i], '\r'), scope, isSuffix)
  {
    seq(|lines|, i requires 0 <= i < |lines| => CheckLine(TrimRight(lines[i], '\r'), scope, isSuffix))
  }

  /** The count of the first `n` lines, or the first refusal. */
  function Tally(results: seq<Result<nat, Refusal>>, n: nat): Result<nat, Refusal>
    requires n <= |results|
  {
    if n == 0 then Ok(0)
    else match Tally(results, n - 1)
      case Err(refusal) => Err(refusal)
      case Ok(rows) =>
        match results[n - 1]
        case Err(refusal) => Err(refusal)
        case Ok(more) => Ok(rows + more)
  }

  function Checked(content: string, scope: string, isSuffix: string -> bool): Result<nat, Refusal> {
    var lines := Lines(content);
    match Tally(CheckEach(lines, scope, isSuffix), |lines|)
    case Err(refusal) => Err(refusal)
    case Ok(rows) => if rows == 0 then Err(Empty) else Ok(rows)
  }

  /** The check of one row that is not skipped, as the loop makes it. */
  method RefusedRow(line: string, scope: string, isSuffix: string -> bool) returns (refusal: Option<Refusal>)
    requires !Skipped(line)
    ensures CheckLine(line, scope, isSuffix) == if refusal.Some? then Err(refusal.value) else Ok(1)
  {
    var fields := Parsed(line);
    if |fields| != 7 || fields[5] == "" {
      return Some(Invalid);
    }
    refusal := Admit(scope, isSuffix, fields[0]);
  }

  method CookiesInScope(content: string, scope: string, isSuffix: string -> bool) returns (r: Result<nat, Refusal>)
    ensures r == Checked(content, scope, isSuffix)
  {
    var rows := 0;
    var lines := Lines(content);
    ghost var results := CheckEach(lines, scope, isSuffix);
    for n := 0 to |lines|
      invariant Tally(results, n) == Ok(rows)
    {
      var line := TrimRight(lines[n], '\r');
      if Skipped(line) {
        continue;
      }
      var refusal := RefusedRow(line, scope, isSuffix);
      if refusal.Some? {
        assert results[n] == Err(refusal.value);
        RefusalStays(results, n + 1, |lines|);
        return Err(refusal.value);
      }
      rows := rows + 1;
    }
    r := if rows == 0 then Err(Empty) else Ok(rows);
  }

  lemma {:induction false} RefusalStays(results: seq<Result<nat, Refusal>>, n: nat, m: nat)
    requires n <= m <= |results| && Tally(results, n).Err?
    ensures Tally(results, m) == Tally(results, n)
    decreases m
  {
    if n < m {
      RefusalStays(results, n, m - 1);
    }
  }
}
