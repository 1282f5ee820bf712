/**
 The base64url codec between the server's JSON and the browser's buffers (web/src/webauthn.ts,
 `decode` and `encode`), with `btoa` and `atob` as the browser defines them: section 4 of RFC 4648
 for the first, the forgiving decoder of the WHATWG Infra standard for the second.
 */
module Base64Url {
  import opened Strings
  import opened Wrappers

  // ---- the alphabet of section 4 of RFC 4648 ----

  function Symbol(v: nat): (c: char)
    requires v < 64
    ensures IsSymbol(c)
  {
    if v < 26 then (v + 65) as char
    else if v < 52 then (v + 71) as char
    else if v < 62 then (v - 4) as char
    else if v == 62 then '+'
    else '/'
  }

  predicate IsSymbol(c: char) {
    'A' <= c <= 'Z' || 'a' <= c <= 'z' || '0' <= c <= '9' || c == '+' || c == '/'
  }

  function Value(c: char): (v: nat)
    requires IsSymbol(c)
    ensures v < 64 && Symbol(v) == c
  {
    if 'A' <= c <= 'Z' then c as int - 65
    else if 'a' <= c <= 'z' then c as int - 71
    else if '0' <= c <= '9' then c as int + 4
    else if c == '+' then 62
    else 63
  }

  predicate AllSymbols(s: string) {
    forall i :: 0 <= i < |s| ==> IsSymbol(s[i])
  }

  /** A string whose characters stand for bytes. */
  predicate IsBinary(s: string) {
    forall i :: 0 <= i < |s| ==> s[i] as int < 256
  }

  function Binary(b: Bytes): (s: string)
    ensures IsBinary(s) && |s| == |b| && forall i :: 0 <= i < |b| ==> s[i] as int == b[i]
  {
    seq(|b|, i requires 0 <= i < |b| => b[i] as char)
  }

  function CharCodes(s: string): (b: Bytes)
    requires IsBinary(s)
    ensures |b| == |s| && forall i :: 0 <= i < |s| ==> b[i] == s[i] as int
  {
    seq(|s|, i requires 0 <= i < |s| => s[i] as int)
  }

  // ---- the two browser functions ----

  function Repeat(c: char, n: nat): (s: string)
    ensures |s| == n && forall i :: 0 <= i < n ==> s[i] == c
  {
    seq(n, _ => c)
  }

  type Sextet = x: int | 0 <= x < 64

  datatype Three = Three(x: Byte, y: Byte, z: Byte)
  datatype Four = Four(a: Sextet, b: Sextet, c: Sextet, d: Sextet)

  /** Three bytes as four groups of six bits. */
  function Quad(t: Three): Four {
    Four(t.x / 4, t.x % 4 * 16 + t.y / 16, t.y % 16 * 4 + t.z / 64, t.z % 64)
  }

  /** Four groups of six bits as three bytes. */
  function Triple(q: Four): Three {
    Three(q.a * 4 + q.b / 16, q.b % 16 * 16 + q.c / 4, q.c % 4 * 64 + q.d)
  }

  /** The bytes in groups of six bits, the last one filled up with zeros. */
  function Sextets(b: Bytes): (v: seq<Sextet>)
    ensures |v| == (4 * |b| + 2) / 3
  {
    if b == [] then []
    else if |b| == 1 then
      var q := Quad(Three(b[0], 0, 0));
      [q.a, q.b]
    else if |b| == 2 then
      var q := Quad(Three(b[0], b[1], 0));
      [q.a, q.b, q.c]
    else
      var q := Quad(Three(b[0], b[1], b[2]));
      [q.a, q.b, q.c, q.d] + Sextets(b[3..])
  }

  /** The whole bytes in the groups; bits that fill no byte are dropped. */
  function Octets(v: seq<Sextet>): Bytes {
    if |v| < 2 then []
    else if |v| == 2 then
      var t := Triple(Four(v[0], v[1], 0, 0));
      [t.x]
    else if |v| == 3 then
      var t := Triple(Four(v[0], v[1], v[2], 0));
      [t.x, t.y]
    else
      var t := Triple(Four(v[0], v[1], v[2], v[3]));
      [t.x, t.y, t.z] + Octets(v[4..])
  }

  function Letters(v: seq<Sextet>): (s: string)
    ensures AllSymbols(s) && |s| == |v|
  {
    seq(|v|, i requires 0 <= i < |v| => Symbol(v[i]))
  }

  function Values(s: string): (v: seq<Sextet>)
    requires AllSymbols(s)
    ensures |v| == |s|
  {
    seq(|s|, i requires 0 <= i < |s| => Value(s[i]))
  }

  function Btoa(s: string): string
    requires IsBinary(s)
  {
    Letters(Sextets(CharCodes(s))) + Repeat('=', (3 - |s| % 3) % 3)
  }

  predicate IsBlank(c: char) {
    c as int == 9 || c as int == 10 || c as int == 12 || c as int == 13 || c == ' '
  }

  function NoBlanks(s: string): string {
    if s == [] then [] else (if IsBlank(s[0]) then [] else [s[0]]) + NoBlanks(s[1..])
  }

  /** One or two equals signs go when they complete a group of four. */
  function Unpadded(s: string): string {
    if |s| % 4 == 0 && EndsWith(s, "==") then s[..|s| - 2]
    else if |s| % 4 == 0 && EndsWith(s, "=") then s[..|s| - 1]
    else s
  }

  function Atob(s: string): (r: Option<string>)
    ensures r.Some? ==> IsBinary(r.value)
  {
    var data := Unpadded(NoBlanks(s));
    if |data| % 4 == 1 || !AllSymbols(data) then None else Some(Binary(Octets(Values(data))))
  }

  // ---- the codec ----

  function Replaced(s: string, c: char, d: char): (r: string)
    ensures |r| == |s| && forall i :: 0 <= i < |s| ==> r[i] == if s[i] == c then d else s[i]
  {
    seq(|s|, i requires 0 <= i < |s| => if s[i] == c then d else s[i])
  }

  function UrlSafe(s: string): string {
    Replaced(Replaced(s, '+', '-'), '/', '_')
  }

  function Standard(s: string): string {
    Replaced(Replaced(s, '-', '+'), '_', '/')
  }

  function Encoded(b: Bytes): string {
    TrimRight(UrlSafe(Btoa(Binary(b))), '=')
  }

  /** `padEnd` to a multiple of four. */
  function Filled(s: string): string {
    s + Repeat('=', (4 - |s| % 4) % 4)
  }

  /** What is handed to `atob`. */
  function Padded(s: string): string {
    Filled(Standard(s))
  }

  function Codes(binary: Option<string>): Option<Bytes>
    requires binary.Some? ==> IsBinary(binary.value)
  {
    if binary.Some? then Some(CharCodes(binary.value)) else None
  }

  function Decoded(s: string): Option<Bytes> {
    Codes(Atob(Padded(s)))
  }

  method ToBytes(binary: string) returns (bytes: array<Byte>)
    requires IsBinary(binary)
    ensures bytes[..] == CharCodes(binary)
  {
    bytes := new Byte[|binary|];
    for index := 0 to |binary|
      invariant forall i :: 0 <= i < index ==> bytes[i] == binary[i] as int
    {
      bytes[index] := binary[index] as int;
    }
  }

  /** None where `atob` throws. */
  method Decode(value: string) returns (r: Option<array<Byte>>)
    ensures r.Some? <==> Decoded(value).Some?
    ensures r.Some? ==> r.value[..] == Decoded(value).value
  {
    var padded := Replaced(Replaced(value, '-', '+'), '_', '/');
    var binary := Atob(Filled(padded));
    if binary.Some? {
      var bytes := ToBytes(binary.value);
      r := Some(bytes);
    } else {
      r := None;
    }
  }

  method Encode(value: array<Byte>) returns (s: string)
    ensures s == Encoded(value[..])
  {
    var binary := "";
    for index := 0 to value.Length
      invariant binary == Binary(value[..])[..index]
    {
      binary := binary + [value[index] as char];
    }
    assert binary == Binary(value[..]);
    s := TrimRight(Replaced(Replaced(Btoa(binary), '+', '-'), '/', '_'), '=');
  }

  // ---- groups of three and of four ----

  lemma {:induction false} Parts4(q: nat, r: nat)
    requires r < 4
    ensures (q * 4 + r) / 4 == q && (q * 4 + r) % 4 == r
  {
  }

  lemma {:induction false} Parts16(q: nat, r: nat)
    requires r < 16
    ensures (q * 16 + r) / 16 == q && (q * 16 + r) % 16 == r
  {
  }

  lemma {:induction false} Parts64(q: nat, r: nat)
    requires r < 64
    ensures (q * 64 + r) / 64 == q && (q * 64 + r) % 64 == r
  {
  }

  lemma {:induction false} SixToEight(t: Three)
    ensures Triple(Quad(t)) == t
  {
    Parts16(t.x % 4, t.y / 16);
    Parts4(t.y % 16, t.z / 64);
  }

  lemma {:induction false} EightToSix(q: Four)
    ensures Quad(Triple(q)) == q
  {
    Parts4(q.a, q.b / 16);
    Parts16(q.b % 16, q.c / 4);
    Parts64(q.c % 4, q.d);
  }

  lemma {:induction false} OctetsOfSextets(b: Bytes)
    ensures Octets(Sextets(b)) == b
  {
    if |b| == 1 {
      SixToEight(Three(b[0], 0, 0));
    } else if |b| == 2 {
      SixToEight(Three(b[0], b[1], 0));
    } else if |b| >= 3 {
      SixToEight(Three(b[0], b[1], b[2]));
      OctetsOfSextets(b[3..]);
      assert Sextets(b)[4..] == Sextets(b[3..]);
    }
  }

  /** Groups of four, then nothing, or two or three whose bits that fill no byte are zero. */
  predicate WholeBytes(v: seq<Sextet>) {
    if |v| < 2 then v == []
    else if |v| == 2 then v[1] % 16 == 0
    else if |v| == 3 then v[2] % 4 == 0
    else WholeBytes(v[4..])
  }

  lemma {:induction false} WholeBytesLength(v: seq<Sextet>)
    requires WholeBytes(v)
    ensures |v| % 4 != 1
  {
    if |v| >= 4 {
      WholeBytesLength(v[4..]);
    }
  }

  lemma {:induction false} SextetsOfOctets(v: seq<Sextet>)
    requires WholeBytes(v)
    ensures Sextets(Octets(v)) == v
  {
    if |v| == 2 {
      EightToSix(Four(v[0], v[1], 0, 0));
    } else if |v| == 3 {
      EightToSix(Four(v[0], v[1], v[2], 0));
    } else if |v| >= 4 {
      EightToSix(Four(v[0], v[1], v[2], v[3]));
      SextetsOfOctets(v[4..]);
      assert Octets(v)[3..] == Octets(v[4..]);
    }
  }

  lemma {:induction false} SextetsAreWhole(b: Bytes)
    ensures WholeBytes(Sextets(b))
  {
    if |b| >= 3 {
      SextetsAreWhole(b[3..]);
      assert Sextets(b)[4..] == Sextets(b[3..]);
    }
  }

  lemma {:induction false} ValueOfSymbol(v: nat)
    requires v < 64
    ensures Value(Symbol(v)) == v
  {
  }

  lemma {:induction false} LettersAreValues(v: seq<Sextet>, s: string)
    ensures Values(Letters(v)) == v
    ensures AllSymbols(s) ==> Letters(Values(s)) == s
  {
    forall i | 0 <= i < |v|
      ensures Value(Symbol(v[i])) == v[i]
    {
      ValueOfSymbol(v[i]);
    }
  }

  /** The characters of an encoding before they are made safe for a url, without the padding. */
  function Symbols(b: Bytes): (s: string)
    ensures AllSymbols(s) && |s| == (4 * |b| + 2) / 3
  {
    Letters(Sextets(b))
  }

  // ---- the two alphabets ----

  predicate IsUrlSymbol(c: char) {
    c == '-' || c == '_' || (IsSymbol(c) && c != '+' && c != '/')
  }

  predicate IsUrlText(s: string) {
    forall i :: 0 <= i < |s| ==> IsUrlSymbol(s[i])
  }

  lemma {:induction false} AlphabetsAgree(s: string)
    ensures AllSymbols(s) ==> IsUrlText(UrlSafe(s)) && Standard(UrlSafe(s)) == s
    ensures IsUrlText(s) ==> AllSymbols(Standard(s)) && UrlSafe(Standard(s)) == s
  {
  }

  lemma {:induction false} TrailingPad(s: string, n: nat)
    requires '=' !in s
    ensures TrimRight(s + Repeat('=', n), '=') == s
    decreases n
  {
    var t := s + Repeat('=', n);
    if n == 0 {
      assert t == s;
    } else {
      TrailingPad(s, n - 1);
      assert t[..|t| - 1] == s + Repeat('=', n - 1);
    }
  }

  lemma {:induction false} PadsAreDropped(s: string, n: nat)
    requires AllSymbols(s)
    ensures TrimRight(UrlSafe(s + Repeat('=', n)), '=') == UrlSafe(s)
  {
    assert UrlSafe(s + Repeat('=', n)) == UrlSafe(s) + Repeat('=', n);
    TrailingPad(UrlSafe(s), n);
  }

  lemma {:induction false} CodesOfBinary(b: Bytes)
    ensures CharCodes(Binary(b)) == b
  {
  }

  lemma {:induction false} BtoaOfBinary(b: Bytes)
    ensures Btoa(Binary(b)) == Symbols(b) + Repeat('=', (3 - |b| % 3) % 3)
  {
    CodesOfBinary(b);
  }

  lemma {:induction false} EncodedIsSymbols(b: Bytes)
    ensures Encoded(b) == UrlSafe(Symbols(b))
  {
    BtoaOfBinary(b);
    PadsAreDropped(Symbols(b), (3 - |b| % 3) % 3);
  }

  lemma {:induction false} PaddingLengths(n: nat)
    ensures (4 - (4 * n + 2) / 3 % 4) % 4 == (3 - n % 3) % 3
  {
    var q, r := n / 3, n % 3;
    assert (4 * n + 2) / 3 == 4 * q + (4 * r + 2) / 3;
    assert (4 * q + (4 * r + 2) / 3) % 4 == (4 * r + 2) / 3 % 4;
  }

  /** Decoding hands `atob` the very string encoding got from `btoa`, padding included. */
  lemma {:induction false} PaddingIsRestored(b: Bytes)
    ensures Padded(Encoded(b)) == Btoa(Binary(b))
  {
    EncodedIsSymbols(b);
    BtoaOfBinary(b);
    AlphabetsAgree(Symbols(b));
    PaddingLengths(|b|);
  }

  /** ceil(4n/3) characters, none of them a plus, a slash or an equals sign. */
  lemma {:induction false} EncodingIsUrlText(b: Bytes)
    ensures IsUrlText(Encoded(b))
    ensures |Encoded(b)| == (4 * |b| + 2) / 3
    ensures '+' !in Encoded(b) && '/' !in Encoded(b) && '=' !in Encoded(b)
  {
    EncodedIsSymbols(b);
    AlphabetsAgree(Symbols(b));
  }

  lemma {:induction false} BlanklessIsKept(s: string)
    requires forall i :: 0 <= i < |s| ==> !IsBlank(s[i])
    ensures NoBlanks(s) == s
  {
    if s != [] {
      BlanklessIsKept(s[1..]);
    }
  }

  lemma {:induction false} FillLength(n: nat)
    ensures (n + (4 - n % 4) % 4) % 4 == 0
    ensures (4 - n % 4) % 4 == 3 <==> n % 4 == 1
  {
  }

  lemma {:induction false} FilledHasNoBlanks(d: string)
    requires AllSymbols(d)
    ensures NoBlanks(Filled(d)) == Filled(d)
  {
    BlanklessIsKept(Filled(d));
  }

  /** `atob` takes two equals signs away, so a third is left and refused. */
  lemma {:induction false} ThirdPadIsLeft(d: string)
    requires (|d| + 3) % 4 == 0
    ensures !AllSymbols(Unpadded(d + Repeat('=', 3)))
  {
    var t := d + Repeat('=', 3);
    assert Unpadded(t)[|d|] == '=';
  }

  lemma {:induction false} AtobOfPadded(d: string)
    requires AllSymbols(d)
    ensures Atob(Filled(d)) == if |d| % 4 == 1 then None else Some(Binary(Octets(Values(d))))
  {
    FillLength(|d|);
    FilledHasNoBlanks(d);
    if |d| % 4 == 1 {
      ThirdPadIsLeft(d);
    } else {
      UnpaddedIsShorter(d, (4 - |d| % 4) % 4);
    }
  }

  lemma {:induction false} UnpaddedIsShorter(d: string, n: nat)
    requires AllSymbols(d) && n <= 2 && (|d| + n) % 4 == 0
    ensures Unpadded(d + Repeat('=', n)) == d
  {
    var t := d + Repeat('=', n);
    assert t[..|d|] == d;
    assert n == 2 ==> t[|t| - 2..] == "==";
    assert n == 1 ==> t[|t| - 1..] == "=";
    assert n <= 1 && |t| >= 2 ==> t[|t| - 2..][0] == d[|t| - 2];
    assert n == 0 && |t| >= 1 ==> t[|t| - 1..][0] == d[|t| - 1];
  }

  lemma {:induction false} CodesOfAtob(d: string)
    requires AllSymbols(d)
    ensures Codes(Atob(Filled(d))) == if |d| % 4 == 1 then None else Some(Octets(Values(d)))
  {
    AtobOfPadded(d);
    CodesOfBinary(Octets(Values(d)));
  }

  /** A text of the url alphabet is refused for its length alone. */
  lemma {:induction false} UrlTextIsRead(s: string)
    requires IsUrlText(s)
    ensures AllSymbols(Standard(s))
    ensures Decoded(s) == if |s| % 4 == 1 then None else Some(Octets(Values(Standard(s))))
  {
    AlphabetsAgree(s);
    CodesOfAtob(Standard(s));
  }

  lemma {:induction false} RoundTrip(b: Bytes)
    ensures Decoded(Encoded(b)) == Some(b)
  {
    EncodedIsSymbols(b);
    AlphabetsAgree(Symbols(b));
    UrlTextIsRead(Encoded(b));
    SextetsAreWhole(b);
    WholeBytesLength(Sextets(b));
    LettersAreValues(Sextets(b), "");
    OctetsOfSextets(b);
  }

  /** The texts that encode something: the url alphabet, a possible length, no stray bits. */
  predicate Canonical(s: string) {
    IsUrlText(s) && AllSymbols(Standard(s)) && WholeBytes(Values(Standard(s)))
  }

  /** Together with the round trip: encoding is a bijection from the byte strings to these texts. */
  lemma {:induction false} CanonicalIsExact(s: string)
    ensures Canonical(s) <==> Decoded(s).Some? && Encoded(Decoded(s).value) == s
  {
    if Canonical(s) {
      var v := Values(Standard(s));
      WholeBytesLength(v);
      UrlTextIsRead(s);
      SextetsOfOctets(v);
      LettersAreValues(v, Standard(s));
      AlphabetsAgree(s);
      EncodedIsSymbols(Octets(v));
    }
    if Decoded(s).Some? && Encoded(Decoded(s).value) == s {
      var b := Decoded(s).value;
      EncodedIsSymbols(b);
      AlphabetsAgree(Symbols(b));
      SextetsAreWhole(b);
      LettersAreValues(Sextets(b), "");
    }
  }
}
