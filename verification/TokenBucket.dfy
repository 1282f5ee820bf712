/**
 The token bucket of the soak fixture (scripts/lib/soak_fixture.py, `RateLimiter`): how much it can
 grant in any stretch of time, and which calls return. Time and tokens are real numbers.
 */
module TokenBucket {

  datatype Bucket = Bucket(rate: real, available: real, last: real) {
    predicate Valid() {
      rate > 0.0 && 0.0 <= available <= rate
    }
  }

  function Min(a: real, b: real): (r: real)
    ensures r <= a && r <= b && (r == a || r == b)
  {
    if a <= b then a else b
  }

  /** What flows in between two times. */
  function Inflow(rate: real, since: real, now: real): real {
    (now - since) * rate
  }

  /** What time alone does: the bucket fills at its rate and never over its size. */
  function Refilled(b: Bucket, now: real): Bucket {
    b.(available := Min(b.rate, b.available + Inflow(b.rate, b.last, now)), last := now)
  }

  predicate Grants(b: Bucket, amount: nat, now: real) {
    Refilled(b, now).available >= amount as real
  }

  /** One pass through the lock. */
  function Tried(b: Bucket, amount: nat, now: real): Bucket {
    var r := Refilled(b, now);
    if r.available >= amount as real then r.(available := r.available - amount as real) else r
  }

  /** How long a refused caller sleeps before it tries again. */
  function Nap(b: Bucket, amount: nat): real
    requires b.rate > 0.0
  {
    Min((amount as real - b.available) / b.rate, 0.25)
  }

  lemma {:induction false} InflowIsNotNegative(rate: real, since: real, now: real)
    requires rate > 0.0 && since <= now
    ensures Inflow(rate, since, now) >= 0.0
  {
    var d := now - since;
    assert d * rate >= 0.0;
  }

  lemma {:induction false} TryIsValid(b: Bucket, amount: nat, now: real)
    requires b.Valid() && b.last <= now
    ensures Tried(b, amount, now).Valid() && Tried(b, amount, now).rate == b.rate
    ensures Tried(b, amount, now).last == now
    ensures Refilled(b, now).Valid()
  {
    InflowIsNotNegative(b.rate, b.last, now);
  }

  // ---- any number of callers ----

  /** The passes of all callers, in the order the lock let them in. */
  datatype Try = Try(amount: nat, now: real)

  predicate InOrder(tries: seq<Try>, since: real) {
    tries == [] || (since <= tries[0].now && InOrder(tries[1..], tries[0].now))
  }

  function After(b: Bucket, tries: seq<Try>): Bucket
    decreases |tries|
  {
    if tries == [] then b else After(Tried(b, tries[0].amount, tries[0].now), tries[1..])
  }

  /** What the callers got together. */
  function Granted(b: Bucket, tries: seq<Try>): nat
    decreases |tries|
  {
    if tries == [] then 0
    else
      (if Grants(b, tries[0].amount, tries[0].now) then tries[0].amount else 0)
      + Granted(Tried(b, tries[0].amount, tries[0].now), tries[1..])
  }

  /** What flows over the brim because nobody took it in time. */
  function Overflow(b: Bucket, now: real): real {
    b.available + Inflow(b.rate, b.last, now) - Refilled(b, now).available
  }

  function Spilled(b: Bucket, tries: seq<Try>): real
    decreases |tries|
  {
    if tries == [] then 0.0
    else Overflow(b, tries[0].now) + Spilled(Tried(b, tries[0].amount, tries[0].now), tries[1..])
  }

  lemma {:induction false} InflowAdds(rate: real, x: real, y: real, z: real)
    ensures Inflow(rate, x, z) == Inflow(rate, x, y) + Inflow(rate, y, z)
  {
  }

  lemma {:induction false} TryConserves(b: Bucket, amount: nat, now: real)
    requires b.Valid() && b.last <= now
    ensures var granted := if Grants(b, amount, now) then amount else 0;
      granted as real + Tried(b, amount, now).available + Overflow(b, now) == b.available + Inflow(b.rate, b.last, now)
    ensures Overflow(b, now) >= 0.0
  {
  }

  /** Every token is granted, still there, or was spilled. */
  lemma {:induction false} TokensAreConserved(b: Bucket, tries: seq<Try>)
    requires b.Valid() && InOrder(tries, b.last)
    ensures var e := After(b, tries); e.Valid() && e.rate == b.rate && b.last <= e.last
    ensures var e := After(b, tries);
      Granted(b, tries) as real + e.available + Spilled(b, tries) == b.available + Inflow(b.rate, b.last, e.last)
    ensures Spilled(b, tries) >= 0.0
    decreases |tries|
  {
    if tries != [] {
      var t, e := tries[0], After(b, tries);
      var next := Tried(b, t.amount, t.now);
      TryIsValid(b, t.amount, t.now);
      TryConserves(b, t.amount, t.now);
      TokensAreConserved(next, tries[1..]);
      InflowAdds(b.rate, b.last, t.now, e.last);
      Chain(if Grants(b, t.amount, t.now) then t.amount else 0, Granted(next, tries[1..]),
            b.available, next.available, e.available,
            Overflow(b, t.now), Spilled(next, tries[1..]),
            Inflow(b.rate, b.last, t.now), Inflow(b.rate, t.now, e.last));
    }
  }

  lemma {:induction false} Chain(g: nat, h: nat, a: real, b: real, c: real, s: real, t: real, x: real, y: real)
    requires g as real + b + s == a + x && h as real + c + t == b + y
    ensures (g + h) as real + c + (s + t) == a + (x + y)
  {
  }

  /** From an empty bucket: never more than the rate times the time that passed. */
  lemma {:induction false} NeverAheadOfTheClock(b: Bucket, tries: seq<Try>)
    requires b.Valid() && b.available == 0.0 && InOrder(tries, b.last)
    ensures Granted(b, tries) as real + After(b, tries).available <= Inflow(b.rate, b.last, After(b, tries).last)
  {
    TokensAreConserved(b, tries);
  }

  lemma {:induction false} InOrderSplits(b: Bucket, before: seq<Try>, tries: seq<Try>)
    requires b.Valid() && InOrder(before + tries, b.last)
    ensures InOrder(before, b.last) && After(b, before).Valid() && After(b, before).rate == b.rate
    ensures InOrder(tries, After(b, before).last)
    ensures After(b, before + tries) == After(After(b, before), tries)
    ensures Granted(b, before + tries) == Granted(b, before) + Granted(After(b, before), tries)
    decreases |before|
  {
    if before == [] {
      assert before + tries == tries;
    } else {
      var t := before[0];
      assert (before + tries)[1..] == before[1..] + tries;
      TryIsValid(b, t.amount, t.now);
      InOrderSplits(Tried(b, t.amount, t.now), before[1..], tries);
    }
  }

  lemma {:induction false} LastTryIsNow(b: Bucket, tries: seq<Try>)
    requires tries != []
    ensures After(b, tries).last == tries[|tries| - 1].now
    decreases |tries|
  {
    if |tries| > 1 {
      LastTryIsNow(Tried(b, tries[0].amount, tries[0].now), tries[1..]);
    }
  }

  /** A bucket refilled before its first try behaves as one that is not. */
  lemma {:induction false} RefillFirst(b: Bucket, tries: seq<Try>)
    requires b.Valid() && tries != [] && InOrder(tries, b.last)
    ensures Granted(b, tries) == Granted(Refilled(b, tries[0].now), tries)
    ensures After(b, tries) == After(Refilled(b, tries[0].now), tries)
  {
    TryIsValid(b, tries[0].amount, tries[0].now);
    var r := Refilled(b, tries[0].now);
    assert Refilled(r, tries[0].now) == r;
  }

  /**
   In any window of any run, the callers get at most what flows in meanwhile and one full bucket.
   */
  lemma {:induction false} WindowIsBounded(b: Bucket, before: seq<Try>, window: seq<Try>)
    requires b.Valid() && window != [] && InOrder(before + window, b.last)
    ensures Granted(After(b, before), window) as real
         <= Inflow(b.rate, window[0].now, window[|window| - 1].now) + b.rate
  {
    InOrderSplits(b, before, window);
    var c := After(b, before);
    var r := Refilled(c, window[0].now);
    TryIsValid(c, window[0].amount, window[0].now);
    RefillFirst(c, window);
    TokensAreConserved(r, window);
    LastTryIsNow(r, window);
  }

  // ---- one caller alone ----

  /** The bucket as pass `n` finds it, and its time: every nap lasts as asked and `late(k)` more. */
  function Found(b: Bucket, amount: nat, now: real, late: nat -> real, n: nat): (r: (Bucket, real))
    requires b.rate > 0.0
    ensures r.0.rate == b.rate
  {
    if n == 0 then (b, now)
    else
      var (c, at) := Found(b, amount, now, late, n - 1);
      var tried := Tried(c, amount, at);
      (tried, at + Nap(tried, amount) + late(n - 1))
  }

  predicate GrantsAt(b: Bucket, amount: nat, now: real, late: nat -> real, n: nat)
    requires b.rate > 0.0
  {
    var (c, at) := Found(b, amount, now, late, n);
    Grants(c, amount, at)
  }

  ghost predicate NeverEarly(late: nat -> real) {
    forall k :: late(k) >= 0.0
  }

  predicate RefusedBefore(b: Bucket, amount: nat, now: real, late: nat -> real, n: nat)
    requires b.rate > 0.0
  {
    forall k :: 0 <= k < n ==> !GrantsAt(b, amount, now, late, k)
  }

  /** Pass `passes` is the first to grant. */
  predicate FirstGrant(b: Bucket, amount: nat, now: real, late: nat -> real, passes: nat)
    requires b.rate > 0.0
  {
    passes >= 1 && GrantsAt(b, amount, now, late, passes - 1) && RefusedBefore(b, amount, now, late, passes - 1)
  }

  lemma {:induction false} LongEnough(rate: real, d: real, missing: real)
    requires rate > 0.0 && d >= missing / rate
    ensures d * rate >= missing
  {
    assert missing / rate * rate == missing;
    assert (d - missing / rate) * rate >= 0.0;
  }

  lemma {:induction false} QuarterSecond(rate: real, d: real)
    requires rate > 0.0 && d >= 0.25
    ensures d * rate >= 0.25 * rate
  {
    assert (d - 0.25) * rate >= 0.0;
  }

  lemma {:induction false} NapIsEnough(b: Bucket, amount: nat, now: real)
    requires b.Valid() && b.available < amount as real && now >= b.last + Nap(b, amount)
    ensures now > b.last
    ensures var flow := Inflow(b.rate, b.last, now);
      flow >= amount as real - b.available || flow >= 0.25 * b.rate
  {
    var missing := amount as real - b.available;
    assert missing / b.rate > 0.0;
    if missing / b.rate <= 0.25 {
      LongEnough(b.rate, now - b.last, missing);
    } else {
      QuarterSecond(b.rate, now - b.last);
    }
  }

  lemma {:induction false} Fuller(rate: real, amount: real, available: real, flow: real)
    requires amount <= rate && (flow >= amount - available || flow >= 0.25 * rate)
    ensures Min(rate, available + flow) >= Min(amount, available + 0.25 * rate)
  {
  }

  /** A refused pass leaves a nap after which there is enough, or a quarter more of a bucket. */
  lemma {:induction false} NapFills(c: Bucket, amount: nat, now: real)
    requires c.Valid() && amount as real <= c.rate && c.available < amount as real
    requires now >= c.last + Nap(c, amount)
    ensures now > c.last
    ensures Refilled(c, now).available >= Min(amount as real, c.available + 0.25 * c.rate)
  {
    NapIsEnough(c, amount, now);
    Fuller(c.rate, amount as real, c.available, Inflow(c.rate, c.last, now));
  }

  /** So many quarters of a bucket. */
  function Quarters(rate: real, n: nat): real {
    if n == 0 then 0.0 else Quarters(rate, n - 1) + 0.25 * rate
  }

  lemma {:induction false} FourQuarters(rate: real)
    ensures Quarters(rate, 4) == rate
  {
    assert Quarters(rate, 1) == 0.25 * rate && Quarters(rate, 2) == 0.5 * rate;
    assert Quarters(rate, 3) == 0.75 * rate;
  }

  lemma {:induction false} RefusalsFill(b: Bucket, amount: nat, now: real, late: nat -> real, n: nat)
    requires b.Valid() && b.last <= now && amount as real <= b.rate && NeverEarly(late)
    requires RefusedBefore(b, amount, now, late, n)
    ensures var (c, at) := Found(b, amount, now, late, n);
      c.Valid() && c.last <= at && Refilled(c, at).available >= Min(amount as real, Quarters(b.rate, n))
  {
    var (c, at) := Found(b, amount, now, late, n);
    if n == 0 {
      TryIsValid(b, amount, now);
    } else {
      RefusalsFill(b, amount, now, late, n - 1);
      var (d, before) := Found(b, amount, now, late, n - 1);
      assert !GrantsAt(b, amount, now, late, n - 1);
      TryIsValid(d, amount, before);
      assert late(n - 1) >= 0.0;
      NapFills(c, amount, at);
    }
  }

  lemma {:induction false} RefusedAtMostFour(b: Bucket, amount: nat, now: real, late: nat -> real)
    requires b.Valid() && b.last <= now && NeverEarly(late) && amount as real <= b.rate
    ensures RefusedBefore(b, amount, now, late, 4) ==> GrantsAt(b, amount, now, late, 4)
  {
    if RefusedBefore(b, amount, now, late, 4) {
      RefusalsFill(b, amount, now, late, 4);
      FourQuarters(b.rate);
    }
  }

  /** A call returns exactly when the bucket can ever hold what it asks for; then within five passes. */
  lemma {:induction false} ReturnsExactly(b: Bucket, amount: nat, now: real, late: nat -> real)
    requires b.Valid() && b.last <= now && NeverEarly(late)
    ensures amount as real <= b.rate <==> exists n: nat :: GrantsAt(b, amount, now, late, n)
    ensures amount as real <= b.rate ==> exists n: nat :: n <= 4 && GrantsAt(b, amount, now, late, n)
  {
    if amount as real <= b.rate {
      RefusedAtMostFour(b, amount, now, late);
    }
  }

  // ---- the object ----

  class RateLimiter {
    const rate: real
    var available: real
    var last: real

    function State(): Bucket
      reads this
    {
      Bucket(rate, available, last)
    }

    constructor (bytesPerSecond: real, now: real)
      ensures State() == Bucket(bytesPerSecond, 0.0, now)
    {
      rate := bytesPerSecond;
      available := 0.0;
      last := now;
    }

    /** What happens under the lock. */
    method Pass(amount: nat, now: real) returns (granted: bool, wait: real)
      requires rate > 0.0
      modifies this
      ensures State() == Tried(old(State()), amount, now)
      ensures granted == Grants(old(State()), amount, now)
      ensures !granted ==> Min(wait, 0.25) == Nap(State(), amount)
    {
      var refilled := available + (now - last) * rate;
      available := if refilled <= rate then refilled else rate;
      last := now;
      if available >= amount as real {
        available := available - amount as real;
        return true, 0.0;
      }
      return false, (amount as real - available) / rate;
    }

    /** A caller alone, from `now` on; `late` is what each sleep lasts over. The loop is watched for at
        most `bound` passes: a call that asks for more than the rate is still in it then. */
    method Take(amount: nat, now: real, late: nat -> real, bound: nat) returns (returned: bool, passes: nat)
      modifies this
      ensures rate <= 0.0 ==> returned && passes == 0 && State() == old(State())
      ensures rate > 0.0 ==> State() == Found(old(State()), amount, now, late, passes).0
      ensures rate > 0.0 && returned ==> passes <= bound && FirstGrant(old(State()), amount, now, late, passes)
      ensures rate > 0.0 && !returned ==> passes == bound && RefusedBefore(old(State()), amount, now, late, bound)
      ensures rate > 0.0 && amount as real > rate ==> !returned
      ensures old(State()).Valid() && old(last) <= now && NeverEarly(late) && amount as real <= rate && bound >= 5 ==>
                returned && passes <= 5
    {
      returned, passes := false, 0;
      if rate <= 0.0 {
        return true, 0;
      }
      var at := now;
      ghost var start := State();
      if start.Valid() && last <= now && NeverEarly(late) && amount as real <= rate {
        RefusedAtMostFour(start, amount, now, late);
      }
      while passes < bound
        invariant rate == start.rate && passes <= bound
        invariant (State(), at) == Found(start, amount, now, late, passes)
        invariant RefusedBefore(start, amount, now, late, passes)
      {
        var granted, wait := Pass(amount, at);
        passes := passes + 1;
        if granted {
          return true, passes;
        }
        at := at + (if wait <= 0.25 then wait else 0.25) + late(passes - 1);
      }
    }
  }
}
