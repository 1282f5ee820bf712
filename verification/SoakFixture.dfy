/**
 The files the soak fixture serves (scripts/lib/soak_fixture.py): a periodic content, the ranges it
 answers, and the bodies it sends until an outage cuts them off. A client that resumes as often as
 it likes holds a beginning of the very file whose hash the caller expects.
 */
module SoakFixture {
  import opened Strings
  import opened Wrappers

  const POOL_SIZE: nat := 4 * 1024 * 1024 + 7
  const STRIDE: nat := 104_729
  const CHUNK: nat := 64 * 1024
  const PIECE: nat := 1024 * 1024

  /** The pseudo-random bytes every file is cut from. */
  type Pool = p: Bytes | |p| == POOL_SIZE ghost witness seq(POOL_SIZE, _ => 0)

  function Min(a: int, b: int): int {
    if a <= b then a else b
  }

  // ---- the content ----

  function ByteAt(pool: Pool, seed: nat, i: nat): Byte {
    pool[(i + seed * STRIDE) % POOL_SIZE]
  }

  function Content(pool: Pool, seed: nat, offset: nat, length: nat): (b: Bytes)
    ensures |b| == length
  {
    seq<Byte>(length, k requires 0 <= k < length => ByteAt(pool, seed, offset + k))
  }

  function File(pool: Pool, seed: nat, size: nat): Bytes {
    Content(pool, seed, 0, size)
  }

  lemma {:induction false} InPool(n: nat, k: nat)
    ensures n % POOL_SIZE + k < POOL_SIZE ==> (n + k) % POOL_SIZE == n % POOL_SIZE + k
    ensures n % POOL_SIZE + k == POOL_SIZE ==> (n + k) % POOL_SIZE == 0
  {
    assert n + k == n / POOL_SIZE * POOL_SIZE + (n % POOL_SIZE + k);
  }

  lemma {:induction false} PoolIsContent(pool: Pool, seed: nat, i: nat, take: nat)
    requires take <= POOL_SIZE - (i + seed * STRIDE) % POOL_SIZE
    ensures var start := (i + seed * STRIDE) % POOL_SIZE;
      pool[start..start + take] == Content(pool, seed, i, take)
    ensures var start := (i + seed * STRIDE) % POOL_SIZE;
      start + take == POOL_SIZE ==> (i + take + seed * STRIDE) % POOL_SIZE == 0
  {
    var n := i + seed * STRIDE;
    var start := n % POOL_SIZE;
    forall k | 0 <= k < take
      ensures pool[start..start + take][k] == Content(pool, seed, i, take)[k]
    {
      InPool(n, k);
      assert ByteAt(pool, seed, i + k) == pool[(n + k) % POOL_SIZE];
    }
    InPool(n, take);
  }

  /** The content splits at every point. */
  lemma {:induction false} ContentSplits(pool: Pool, seed: nat, offset: nat, a: nat, b: nat)
    ensures Content(pool, seed, offset, a + b)
         == Content(pool, seed, offset, a) + Content(pool, seed, offset + a, b)
  {
    var whole := Content(pool, seed, offset, a) + Content(pool, seed, offset + a, b);
    forall k | 0 <= k < a + b
      ensures Content(pool, seed, offset, a + b)[k] == whole[k]
    {
      if k >= a {
        assert whole[k] == ByteAt(pool, seed, offset + a + (k - a));
      }
    }
  }

  method ReadContent(pool: Pool, seed: nat, offset: nat, length: nat) returns (out: Bytes)
    ensures out == Content(pool, seed, offset, length)
  {
    var start := (offset + seed * STRIDE) % POOL_SIZE;
    out := [];
    while |out| < length
      invariant |out| <= length && out == Content(pool, seed, offset, |out|)
      invariant |out| < length ==> start == (offset + |out| + seed * STRIDE) % POOL_SIZE
    {
      var take := Min(length - |out|, POOL_SIZE - start);
      PoolIsContent(pool, seed, offset + |out|, take);
      ContentSplits(pool, seed, offset, |out|, take);
      out := out + pool[start..start + take];
      start := 0;
    }
  }

  /** What `expected_sha256` feeds the hash, piece by piece. */
  method Digested(pool: Pool, seed: nat, size: nat) returns (digested: Bytes)
    ensures digested == File(pool, seed, size)
  {
    digested := [];
    var offset := 0;
    while offset < size
      invariant digested == File(pool, seed, Min(offset, size))
      decreases size - offset
    {
      var length := Min(PIECE, size - offset);
      var piece := ReadContent(pool, seed, offset, length);
      ContentSplits(pool, seed, 0, offset, length);
      digested := digested + piece;
      offset := offset + PIECE;
    }
  }

  // ---- the body of an answer ----

  /** How much of a body goes out when `up` chunks do and then at most `torn` bytes of the next. */
  function Delivered(total: nat, up: nat, torn: nat): (n: nat)
    ensures n <= total
  {
    if total <= up * CHUNK then total else up * CHUNK + Min(torn, Min(CHUNK, total - up * CHUNK))
  }

  /**
   The chunk loop. Before the chunk numbered `up` the server goes away, or writing that chunk fails
   after `torn` bytes. The rate limiter has its own module.
   */
  method Send(pool: Pool, seed: nat, first: nat, last: int, up: nat, torn: nat)
    returns (sent: Bytes, counted: nat, cut: bool)
    requires first <= last + 1
    ensures sent == Content(pool, seed, first, Delivered(last + 1 - first, up, torn))
    ensures cut <==> up * CHUNK < last + 1 - first
    ensures counted == Min(up * CHUNK, last + 1 - first)
  {
    sent, counted, cut := [], 0, false;
    var offset := first;
    var n := 0;
    while offset <= last
      invariant first <= offset <= last + 1 && n <= up
      invariant offset - first == Min(n * CHUNK, last + 1 - first) == counted
      invariant sent == Content(pool, seed, first, offset - first)
    {
      var length := Min(CHUNK, last - offset + 1);
      var chunk := ReadContent(pool, seed, offset, length);
      if n == up {
        ContentSplits(pool, seed, first, offset - first, Min(torn, length));
        ContentSplits(pool, seed, offset, Min(torn, length), length - Min(torn, length));
        return sent + chunk[..Min(torn, length)], counted, true;
      }
      ContentSplits(pool, seed, first, offset - first, length);
      sent := sent + chunk;
      counted := counted + length;
      offset := offset + length;
      n := n + 1;
    }
  }

  // ---- ranges ----

  predicate IsSpace(c: char) {
    || '\t' <= c <= '\r' || 0x1c <= c as int <= 0x1f || c == ' ' || c as int == 0x85 || c as int == 0xa0
  }

  function Stripped(s: string): string
    decreases |s|
  {
    if s != [] && IsSpace(s[0]) then Stripped(s[1..])
    else if s != [] && IsSpace(s[|s| - 1]) then Stripped(s[..|s| - 1])
    else s
  }

  predicate IsDigits(s: string) {
    forall i :: 0 <= i < |s| ==> '0' <= s[i] <= '9'
  }

  function NumberOf(s: string): nat
    requires IsDigits(s)
    decreases |s|
  {
    if s == [] then 0 else 10 * NumberOf(s[..|s| - 1]) + (s[|s| - 1] as int - '0' as int)
  }

  /** The first and last position asked for; `None` is answered with 416. */
  function ParseRange(value: string, size: nat): Option<(nat, int)> {
    var v := Stripped(value);
    if !StartsWith(v, "bytes=") then None
    else
      var rest := v[6..];
      var i := IndexOf(rest, '-');
      if i == |rest| || !IsDigits(rest[..i]) || !IsDigits(rest[i + 1..]) then None
      else Bounds(rest[..i], rest[i + 1..], size)
  }

  function Bounds(from: string, upTo: string, size: nat): Option<(nat, int)>
    requires IsDigits(from) && IsDigits(upTo)
  {
    if from == "" && upTo == "" then None
    else if from == "" then
      var suffix := NumberOf(upTo);
      if suffix == 0 then None else Some((if size < suffix then 0 else size - suffix, size - 1))
    else
      var start := NumberOf(from);
      var end := if upTo != "" then NumberOf(upTo) else size - 1;
      if start >= size || end < start then None else Some((start, Min(end, size - 1)))
  }

  /** Whatever the header says, an answered range lies in the file; of an empty file it is empty. */
  lemma {:induction false} RangeIsInBounds(value: string, size: nat)
    requires ParseRange(value, size).Some?
    ensures var (first, last) := ParseRange(value, size).value;
      first <= last + 1 && last < size && (size > 0 ==> first <= last)
  {
  }

  /** The three forms of a byte range (section 14.1.2 of RFC 9110). */
  datatype Wanted = From(first: nat) | FromTo(first: nat, last: nat) | Last(n: nat)

  function FromText(w: Wanted): string {
    if w.Last? then "" else Decimal(w.first)
  }

  function UpToText(w: Wanted): string {
    match w
    case From(_) => ""
    case FromTo(_, last) => Decimal(last)
    case Last(n) => Decimal(n)
  }

  function Header(w: Wanted): string {
    "bytes=" + (FromText(w) + "-" + UpToText(w))
  }

  /** The positions a range selects in a file. */
  predicate Selects(w: Wanted, size: nat, i: nat) {
    i < size && match w
      case From(first) => first <= i
      case FromTo(first, last) => first <= i <= last
      case Last(n) => size - n <= i
  }

  lemma {:induction false} DigitIs(d: nat)
    requires d < 10
    ensures DIGITS[d] as int == '0' as int + d
  {
    assert d == 0 || d == 1 || d == 2 || d == 3 || d == 4 || d == 5 || d == 6 || d == 7 || d == 8 || d == 9;
  }

  lemma {:induction false} OneMoreDigit(s: string, d: nat)
    requires IsDigits(s) && d < 10
    ensures IsDigits(s + [DIGITS[d]]) && NumberOf(s + [DIGITS[d]]) == 10 * NumberOf(s) + d
  {
    DigitIs(d);
    assert (s + [DIGITS[d]])[..|s|] == s;
  }

  lemma {:induction false} DecimalIsRead(n: nat)
    ensures IsDigits(Decimal(n)) && NumberOf(Decimal(n)) == n
  {
    var front := if n < 10 then "" else Decimal(n / 10);
    assert Decimal(n) == front + [DIGITS[n % 10]];
    if n >= 10 {
      DecimalIsRead(n / 10);
    }
    OneMoreDigit(front, n % 10);
  }

  lemma {:induction false} HeaderIsParsed(from: string, upTo: string, size: nat)
    requires IsDigits(from) && IsDigits(upTo)
    ensures ParseRange("bytes=" + (from + "-" + upTo), size) == Bounds(from, upTo, size)
  {
    var rest := from + "-" + upTo;
    var v := "bytes=" + rest;
    assert v[0] == 'b' && (v[|v| - 1] == '-' || v[|v| - 1] in upTo);
    assert Stripped(v) == v;
    assert v[6..] == rest;
    IndexOfSeparator(from, '-', upTo);
    assert rest[..|from|] == from && rest[|from| + 1..] == upTo;
  }

  /** The bounds of a range in numbers. */
  function InNumbers(w: Wanted, size: nat): Option<(nat, int)> {
    match w
    case From(first) => if first >= size then None else Some((first, size - 1))
    case FromTo(first, last) => if first >= size || last < first then None else Some((first, Min(last, size - 1)))
    case Last(n) => if n == 0 then None else Some((if size < n then 0 else size - n, size - 1))
  }

  lemma {:induction false} TextsAreRead(w: Wanted)
    ensures IsDigits(FromText(w)) && IsDigits(UpToText(w))
    ensures !w.Last? ==> FromText(w) != "" && NumberOf(FromText(w)) == w.first
    ensures w.FromTo? ==> UpToText(w) != "" && NumberOf(UpToText(w)) == w.last
    ensures w.Last? ==> UpToText(w) != "" && NumberOf(UpToText(w)) == w.n
  {
    match w
    case From(first) => DecimalIsRead(first);
    case FromTo(first, last) =>
      DecimalIsRead(first);
      DecimalIsRead(last);
    case Last(n) => DecimalIsRead(n);
  }

  lemma {:induction false} HeaderBounds(w: Wanted, size: nat)
    ensures ParseRange(Header(w), size) == InNumbers(w, size)
  {
    TextsAreRead(w);
    HeaderIsParsed(FromText(w), UpToText(w), size);
  }

  /**
   What is answered is what the range selects, and 416 is answered when that is nothing; except that
   a suffix of an empty file is answered with an empty part.
   */
  lemma {:induction false} RangeIsExact(w: Wanted, size: nat)
    ensures var r := ParseRange(Header(w), size);
      r.Some? ==> forall i: nat :: r.value.0 <= i <= r.value.1 <==> Selects(w, size, i)
    ensures ParseRange(Header(w), size).None?
      <==> (forall i: nat :: !Selects(w, size, i)) && !(size == 0 && w.Last? && w.n > 0)
  {
    HeaderBounds(w, size);
    var i := match w case From(first) => first case FromTo(first, last) => first case Last(n) => size - 1;
    assert ParseRange(Header(w), size).Some? && size > 0 ==> Selects(w, size, i);
  }

  // ---- answers ----

  datatype Reply = Whole | Part(first: nat, last: int) | Unsatisfiable

  function Etag(seed: nat, size: nat): string {
    "\"" + (Decimal(seed) + "-" + (Decimal(size) + "\""))
  }

  function Answer(seed: nat, size: nat, range: Option<string>, ifRange: Option<string>): Reply {
    if range.None? || range.value == "" || (ifRange.Some? && ifRange.value != Etag(seed, size)) then Whole
    else
      var parsed := ParseRange(range.value, size);
      if parsed.None? then Unsatisfiable else Part(parsed.value.0, parsed.value.1)
  }

  lemma {:induction false} TagParts(s: string, t: string)
    requires '-' !in s
    ensures var tag := "\"" + (s + "-" + (t + "\""));
      var i := IndexOf(tag[1..], '-');
      tag[1..][..i] == s && tag[1..][i + 1..|tag| - 2] == t
  {
    var tag := "\"" + (s + "-" + (t + "\""));
    assert tag[1..] == s + "-" + (t + "\"");
    IndexOfSeparator(s, '-', t + "\"");
  }

  lemma {:induction false} TagsOfParts(s: string, t: string, u: string, v: string)
    requires '-' !in s && '-' !in u
    ensures "\"" + (s + "-" + (t + "\"")) == "\"" + (u + "-" + (v + "\"")) <==> s == u && t == v
  {
    TagParts(s, t);
    TagParts(u, v);
  }

  lemma {:induction false} DecimalsDiffer(m: nat, n: nat)
    ensures Decimal(m) == Decimal(n) <==> m == n
    ensures '-' !in Decimal(m)
  {
    DecimalIsRead(m);
    DecimalIsRead(n);
  }

  lemma {:induction false} TagsDiffer(seed: nat, size: nat, other: nat, otherSize: nat)
    ensures Etag(seed, size) == Etag(other, otherSize) <==> seed == other && size == otherSize
  {
    DecimalsDiffer(seed, other);
    DecimalsDiffer(other, seed);
    DecimalsDiffer(size, otherSize);
    TagsOfParts(Decimal(seed), Decimal(size), Decimal(other), Decimal(otherSize));
  }

  /** A tag names one file: with the tag of another, an answer is never a part. */
  lemma {:induction false} TagNamesOneFile(seed: nat, size: nat, range: Option<string>, other: nat, otherSize: nat)
    ensures Answer(seed, size, range, Some(Etag(other, otherSize)))
         == if other == seed && otherSize == size then Answer(seed, size, range, None) else Whole
  {
    TagsDiffer(seed, size, other, otherSize);
  }

  // ---- a client that resumes ----

  /** A request and how far its answer gets. */
  datatype Attempt = Attempt(range: Option<string>, ifRange: Option<string>, up: nat, torn: nat)

  /** Bytes written over a file from a position in it. */
  function Written(have: Bytes, at: nat, bytes: Bytes): Bytes
    requires at <= |have|
  {
    have[..at] + bytes + if at + |bytes| < |have| then have[at + |bytes|..] else []
  }

  /** The client writes what arrives where the answer says it belongs, if it holds all before it. */
  function Received(pool: Pool, seed: nat, size: nat, have: Bytes, t: Attempt): Bytes {
    match Answer(seed, size, t.range, t.ifRange)
    case Whole => Written(have, 0, Content(pool, seed, 0, Delivered(size, t.up, t.torn)))
    case Unsatisfiable => have
    case Part(first, last) =>
      if first <= |have| && first <= last + 1 then
        Written(have, first, Content(pool, seed, first, Delivered(last + 1 - first, t.up, t.torn)))
      else have
  }

  function AfterAll(pool: Pool, seed: nat, size: nat, have: Bytes, attempts: seq<Attempt>): Bytes
    decreases |attempts|
  {
    if attempts == [] then have
    else AfterAll(pool, seed, size, Received(pool, seed, size, have, attempts[0]), attempts[1..])
  }

  predicate IsBeginning(pool: Pool, seed: nat, size: nat, have: Bytes) {
    |have| <= size && have == Content(pool, seed, 0, |have|)
  }

  lemma {:induction false} WritingKeepsBeginning(pool: Pool, seed: nat, size: nat, have: Bytes, at: nat, n: nat)
    requires IsBeginning(pool, seed, size, have) && at <= |have| && at + n <= size
    ensures IsBeginning(pool, seed, size, Written(have, at, Content(pool, seed, at, n)))
    ensures |Written(have, at, Content(pool, seed, at, n))| == if at + n < |have| then |have| else at + n
  {
    var w := Written(have, at, Content(pool, seed, at, n));
    forall k | 0 <= k < |w|
      ensures w[k] == ByteAt(pool, seed, k)
    {
      if at <= k < at + n {
        assert w[k] == Content(pool, seed, at, n)[k - at];
      }
    }
  }

  lemma {:induction false} AttemptKeepsBeginning(pool: Pool, seed: nat, size: nat, have: Bytes, t: Attempt)
    requires IsBeginning(pool, seed, size, have)
    ensures IsBeginning(pool, seed, size, Received(pool, seed, size, have, t))
    ensures |Received(pool, seed, size, have, t)| >= |have|
  {
    match Answer(seed, size, t.range, t.ifRange)
    case Whole => WritingKeepsBeginning(pool, seed, size, have, 0, Delivered(size, t.up, t.torn));
    case Unsatisfiable =>
    case Part(first, last) =>
      RangeIsInBounds(t.range.value, size);
      if first <= |have| {
        WritingKeepsBeginning(pool, seed, size, have, first, Delivered(last + 1 - first, t.up, t.torn));
      }
  }

  /** However often it is cut off and resumed, a file that has its size is the file that is hashed. */
  lemma {:induction false} ResumedFileIsTheFile(pool: Pool, seed: nat, size: nat, have: Bytes, attempts: seq<Attempt>)
    requires IsBeginning(pool, seed, size, have)
    ensures var got := AfterAll(pool, seed, size, have, attempts);
      IsBeginning(pool, seed, size, got) && |got| >= |have| && (|got| == size ==> got == File(pool, seed, size))
    decreases |attempts|
  {
    if attempts != [] {
      AttemptKeepsBeginning(pool, seed, size, have, attempts[0]);
      ResumedFileIsTheFile(pool, seed, size, Received(pool, seed, size, have, attempts[0]), attempts[1..]);
    }
  }

  /** A resume from the end of what is there adds exactly what is delivered; uncut, it finishes. */
  lemma {:induction false} ResumeAdvances(pool: Pool, seed: nat, size: nat, have: Bytes, t: Attempt)
    requires IsBeginning(pool, seed, size, have) && |have| < size
    requires t.range == Some(Header(From(|have|))) && (t.ifRange.None? || t.ifRange.value == Etag(seed, size))
    ensures var got := Received(pool, seed, size, have, t);
      got == Content(pool, seed, 0, |have| + Delivered(size - |have|, t.up, t.torn))
    ensures size - |have| <= t.up * CHUNK ==> Received(pool, seed, size, have, t) == File(pool, seed, size)
  {
    HeaderBounds(From(|have|), size);
    assert t.range.value != "" && Answer(seed, size, t.range, t.ifRange) == Part(|have|, size - 1);
    WritingKeepsBeginning(pool, seed, size, have, |have|, Delivered(size - |have|, t.up, t.torn));
  }
}
