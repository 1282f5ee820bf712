/**
 One change of the stored captcha state at a time (extension/src/captcha-state.js, `read`, `write`
 and `mutate`). Every call chains itself behind the promise it finds; which call moves next is up
 to the scheduler. Reads and writes of the session store may fail, and a change may throw.
 */
module MutationQueue {
  import opened Wrappers

  /** What a caller's change makes of the value it is given: a new value and an answer, or a throw. */
  datatype Changed<V, R> = Changed(value: V, result: R) | Threw

  datatype Job<!V, R> = Job(key: string, fallback: V, change: V -> Changed<V, R>)

  /** How far a call has come. `read` and `wrote` say whether the store answered. */
  datatype Phase<V, R> =
    | Waiting
    | Reading
    | Writing(read: bool, value: V, result: R, wrote: bool)
    | Settled(read: bool, wrote: bool, outcome: Option<R>)

  /** A call and the call whose settling it waits for, -1 for none. */
  datatype Slot<!V, R> = Slot(job: Job<V, R>, after: int, phase: Phase<V, R>)

  datatype Queue<!V, R> = Queue(store: map<string, V>, slots: seq<Slot<V, R>>, mutations: int)

  datatype Step<!V, R> =
    | Mutate(job: Job<V, R>)
    | Start(i: nat)
    | ReadReturned(i: nat, ok: bool)
    | StoreWrote(i: nat)
    | WriteReturned(i: nat)

  /** What `read` answers: the stored value, or the fallback for a missing one or a failed read. */
  function Current<V, R>(store: map<string, V>, job: Job<V, R>, ok: bool): V {
    if ok && job.key in store then store[job.key] else job.fallback
  }

  predicate Enabled<V, R>(q: Queue<V, R>, step: Step<V, R>) {
    match step
    case Mutate(_) => true
    case Start(i) =>
      i < |q.slots| && q.slots[i].phase.Waiting?
      && (0 <= q.slots[i].after < |q.slots| ==> q.slots[q.slots[i].after].phase.Settled?)
    case ReadReturned(i, _) => i < |q.slots| && q.slots[i].phase.Reading?
    case StoreWrote(i) => i < |q.slots| && q.slots[i].phase.Writing? && !q.slots[i].phase.wrote
    case WriteReturned(i) => i < |q.slots| && q.slots[i].phase.Writing?
  }

  function Next<V, R>(q: Queue<V, R>, step: Step<V, R>): Queue<V, R>
    requires Enabled(q, step)
  {
    match step
    case Mutate(job) => Queue(q.store, q.slots + [Slot(job, q.mutations, Waiting)], |q.slots|)
    case Start(i) => q.(slots := q.slots[i := q.slots[i].(phase := Reading)])
    case ReadReturned(i, ok) =>
      var phase := match q.slots[i].job.change(Current(q.store, q.slots[i].job, ok))
                   case Changed(value, result) => Writing(ok, value, result, false)
                   case Threw => Settled(ok, false, None);
      q.(slots := q.slots[i := q.slots[i].(phase := phase)])
    case StoreWrote(i) =>
      var slot := q.slots[i];
      q.(store := q.store[slot.job.key := slot.phase.value],
         slots := q.slots[i := slot.(phase := Writing(slot.phase.read, slot.phase.value, slot.phase.result, true))])
    case WriteReturned(i) =>
      var slot := q.slots[i];
      q.(slots := q.slots[i := slot.(phase := Settled(slot.phase.read, slot.phase.wrote, Some(slot.phase.result)))])
  }

  // ---- one after another, in the order of the calls ----

  /** The store after one call run alone: changed only if its change did not throw and was written. */
  function Alone<V, R>(store: map<string, V>, job: Job<V, R>, read: bool, wrote: bool): map<string, V> {
    match job.change(Current(store, job, read))
    case Changed(value, _) => if wrote then store[job.key := value] else store
    case Threw => store
  }

  /** The answer of one call run alone; None for a throw. */
  function Answer<V, R>(store: map<string, V>, job: Job<V, R>, read: bool): Option<R> {
    match job.change(Current(store, job, read))
    case Changed(_, result) => Some(result)
    case Threw => None
  }

  /** The store after the first `n` calls, run one after another; only settled calls count. */
  function Sequential<V, R>(first: map<string, V>, slots: seq<Slot<V, R>>, n: nat): map<string, V>
    requires n <= |slots| && forall i :: 0 <= i < n ==> slots[i].phase.Settled?
  {
    if n == 0 then first
    else Alone(Sequential(first, slots, n - 1), slots[n - 1].job,
               slots[n - 1].phase.read, slots[n - 1].phase.wrote)
  }

  /** Exactly one call is at work: those before it are settled and those after it wait. */
  ghost predicate Turn<V, R>(q: Queue<V, R>, k: nat) {
    && k <= |q.slots|
    && (forall i :: 0 <= i < k ==> q.slots[i].phase.Settled?)
    && (forall i :: k < i < |q.slots| ==> q.slots[i].phase.Waiting?)
    && (k < |q.slots| ==> !q.slots[k].phase.Settled?)
  }

  /** Every settled call got the answer it would have got in the sequential order. */
  ghost predicate Answered<V, R>(first: map<string, V>, slots: seq<Slot<V, R>>, k: nat)
    requires k <= |slots| && forall i :: 0 <= i < k ==> slots[i].phase.Settled?
  {
    forall i :: 0 <= i < k ==>
      slots[i].phase.outcome == Answer(Sequential(first, slots, i), slots[i].job, slots[i].phase.read)
  }

  /** What the call at work holds: the change of the sequential store, perhaps already stored. */
  ghost predicate AtWork<V, R>(before: map<string, V>, store: map<string, V>, slot: Slot<V, R>) {
    match slot.phase
    case Writing(read, value, result, wrote) =>
      && slot.job.change(Current(before, slot.job, read)) == Changed(value, result)
      && store == if wrote then before[slot.job.key := value] else before
    case _ => store == before
  }

  ghost predicate Inv<V, R>(first: map<string, V>, q: Queue<V, R>, k: nat) {
    && (forall i :: 0 <= i < |q.slots| ==> q.slots[i].after == i - 1)
    && q.mutations == |q.slots| - 1
    && Turn(q, k)
    && Answered(first, q.slots, k)
    && if k < |q.slots| then AtWork(Sequential(first, q.slots, k), q.store, q.slots[k])
       else q.store == Sequential(first, q.slots, k)
  }

  /** The sequential store of the first calls does not depend on the later ones. */
  lemma {:induction false} SequentialPrefix<V, R>(first: map<string, V>, a: seq<Slot<V, R>>, b: seq<Slot<V, R>>, n: nat)
    requires n <= |a| && n <= |b| && forall i :: 0 <= i < n ==> a[i] == b[i] && a[i].phase.Settled?
    ensures Sequential(first, a, n) == Sequential(first, b, n)
  {
    if n > 0 {
      SequentialPrefix(first, a, b, n - 1);
    }
  }

  lemma {:induction false} AnsweredPrefix<V, R>(first: map<string, V>, a: seq<Slot<V, R>>, b: seq<Slot<V, R>>, n: nat)
    requires n <= |a| && n <= |b| && forall i :: 0 <= i < n ==> a[i] == b[i] && a[i].phase.Settled?
    requires Answered(first, a, n)
    ensures Answered(first, b, n) && Sequential(first, a, n) == Sequential(first, b, n)
  {
    forall i | 0 <= i < n
      ensures b[i].phase.outcome == Answer(Sequential(first, b, i), b[i].job, b[i].phase.read)
    {
      SequentialPrefix(first, a, b, i);
    }
    SequentialPrefix(first, a, b, n);
  }

  lemma {:induction false} CallKeepsInv<V, R>(first: map<string, V>, q: Queue<V, R>, k: nat, job: Job<V, R>)
    requires Inv(first, q, k)
    ensures Inv(first, Next(q, Mutate(job)), k)
  {
    AnsweredPrefix(first, q.slots, q.slots + [Slot(job, q.mutations, Waiting)], k);
  }

  /** A step that does not settle the call at work. */
  lemma {:induction false} WorkingKeepsInv<V, R>(first: map<string, V>, q: Queue<V, R>, k: nat, step: Step<V, R>)
    requires Inv(first, q, k) && Enabled(q, step) && !step.Mutate? && step.i == k
    requires !Next(q, step).slots[k].phase.Settled?
    ensures Inv(first, Next(q, step), k)
  {
    AnsweredPrefix(first, q.slots, Next(q, step).slots, k);
  }

  lemma {:induction false} AnsweredNext<V, R>(first: map<string, V>, slots: seq<Slot<V, R>>, k: nat)
    requires k < |slots| && (forall i :: 0 <= i <= k ==> slots[i].phase.Settled?) && Answered(first, slots, k)
    requires slots[k].phase.outcome == Answer(Sequential(first, slots, k), slots[k].job, slots[k].phase.read)
    ensures Answered(first, slots, k + 1)
  {
  }

  /** A step that settles it: its effect is the one it has alone, and the next call may start. */
  lemma {:induction false} SettlingKeepsInv<V, R>(first: map<string, V>, q: Queue<V, R>, k: nat, step: Step<V, R>)
    requires Inv(first, q, k) && Enabled(q, step) && !step.Mutate? && step.i == k
    requires Next(q, step).slots[k].phase.Settled?
    ensures Inv(first, Next(q, step), k + 1)
  {
    var n := Next(q, step);
    OthersStay(q, k, step);
    AnsweredPrefix(first, q.slots, n.slots, k);
    var before := Sequential(first, n.slots, k);
    SettledAlone(before, q, n, k, step);
    AnsweredNext(first, n.slots, k);
    NextTurn(q, n, k);
  }

  /** The queue after call `k` settled: nothing else moved. */
  lemma {:induction false} NextTurn<V, R>(q: Queue<V, R>, n: Queue<V, R>, k: nat)
    requires Turn(q, k) && k < |q.slots| && |n.slots| == |q.slots| && n.slots[k].phase.Settled?
    requires forall i :: 0 <= i < |q.slots| && i != k ==> n.slots[i] == q.slots[i]
    ensures Turn(n, k + 1)
  {
  }

  lemma {:induction false} OthersStay<V, R>(q: Queue<V, R>, k: nat, step: Step<V, R>)
    requires Enabled(q, step) && !step.Mutate? && step.i == k
    ensures var n := Next(q, step);
            && n.mutations == q.mutations && |n.slots| == |q.slots|
            && n.slots[k].after == q.slots[k].after && n.slots[k].job == q.slots[k].job
            && forall i :: 0 <= i < |q.slots| && i != k ==> n.slots[i] == q.slots[i]
  {
  }

  lemma {:induction false} SettledAlone<V, R>(before: map<string, V>, q: Queue<V, R>, n: Queue<V, R>, k: nat,
                                              step: Step<V, R>)
    requires Enabled(q, step) && !step.Mutate? && step.i == k && n == Next(q, step) && n.slots[k].phase.Settled?
    requires AtWork(before, q.store, q.slots[k])
    ensures var slot := n.slots[k];
            && slot.phase.outcome == Answer(before, slot.job, slot.phase.read)
            && n.store == Alone(before, slot.job, slot.phase.read, slot.phase.wrote)
  {
  }

  /** Only the call whose turn it is can move. */
  lemma {:induction false} OnlyItsTurn<V, R>(first: map<string, V>, q: Queue<V, R>, k: nat, step: Step<V, R>)
    requires Inv(first, q, k) && Enabled(q, step) && !step.Mutate?
    ensures step.i == k
  {
  }

  /** Whatever the scheduler picks, the calls go on one after another. */
  lemma {:induction false} StepKeepsInv<V, R>(first: map<string, V>, q: Queue<V, R>, k: nat, step: Step<V, R>)
    returns (next: nat)
    requires Inv(first, q, k) && Enabled(q, step)
    ensures Inv(first, Next(q, step), next) && k <= next
  {
    if step.Mutate? {
      CallKeepsInv(first, q, k, step.job);
      next := k;
    } else {
      OnlyItsTurn(first, q, k, step);
      if Next(q, step).slots[k].phase.Settled? {
        SettlingKeepsInv(first, q, k, step);
        next := k + 1;
      } else {
        WorkingKeepsInv(first, q, k, step);
        next := k;
      }
    }
  }

  // ---- runs ----

  /** A run from a stored state: the steps and the states between them. */
  ghost predicate Run<V, R>(first: map<string, V>, steps: seq<Step<V, R>>, states: seq<Queue<V, R>>) {
    && |states| == |steps| + 1 && states[0] == Queue(first, [], -1)
    && forall i :: 0 <= i < |steps| ==> Enabled(states[i], steps[i]) && states[i + 1] == Next(states[i], steps[i])
  }

  lemma {:induction false} RunKeepsInv<V, R>(first: map<string, V>, steps: seq<Step<V, R>>,
                                             states: seq<Queue<V, R>>, i: nat) returns (k: nat)
    requires Run(first, steps, states) && i < |states|
    ensures Inv(first, states[i], k)
  {
    if i == 0 {
      k := 0;
    } else {
      k := RunKeepsInv(first, steps, states, i - 1);
      k := StepKeepsInv(first, states[i - 1], k, steps[i - 1]);
    }
  }

  ghost predicate AllSettled<V, R>(q: Queue<V, R>) {
    forall i :: 0 <= i < |q.slots| ==> q.slots[i].phase.Settled?
  }

  /** The changes applied one after another to a store that does not fail. */
  function InOrder<V, R>(first: map<string, V>, slots: seq<Slot<V, R>>, n: nat): map<string, V>
    requires n <= |slots|
  {
    if n == 0 then first else Alone(InOrder(first, slots, n - 1), slots[n - 1].job, true, true)
  }

  /** The store answered every read and took every write of the first calls. */
  ghost predicate Reliable<V, R>(slots: seq<Slot<V, R>>, n: nat)
    requires n <= |slots| && forall i :: 0 <= i < n ==> slots[i].phase.Settled?
  {
    forall i :: 0 <= i < n ==>
      slots[i].phase.read && (slots[i].phase.outcome.Some? ==> slots[i].phase.wrote)
  }

  lemma {:induction false} ReliableIsAlone<V, R>(store: map<string, V>, job: Job<V, R>, wrote: bool)
    requires Answer(store, job, true).Some? ==> wrote
    ensures Alone(store, job, true, wrote) == Alone(store, job, true, true)
  {
  }

  lemma {:induction false} ReliableIsInOrder<V, R>(first: map<string, V>, slots: seq<Slot<V, R>>, n: nat, k: nat)
    requires n <= k <= |slots| && forall i :: 0 <= i < k ==> slots[i].phase.Settled?
    requires Reliable(slots, k) && Answered(first, slots, k)
    ensures Sequential(first, slots, n) == InOrder(first, slots, n)
  {
    if n > 0 {
      ReliableIsInOrder(first, slots, n - 1, k);
      var slot := slots[n - 1];
      assert slot.phase.read && slot.phase.outcome == Answer(Sequential(first, slots, n - 1), slot.job, true);
      ReliableIsAlone(InOrder(first, slots, n - 1), slot.job, slot.phase.wrote);
    }
  }

  lemma {:induction false} AllSettledAtEnd<V, R>(first: map<string, V>, q: Queue<V, R>, k: nat)
    requires Inv(first, q, k) && AllSettled(q)
    ensures k == |q.slots| && q.store == Sequential(first, q.slots, k) && Answered(first, q.slots, k)
  {
  }

  lemma {:induction false} AnsweredInOrder<V, R>(first: map<string, V>, slots: seq<Slot<V, R>>, i: nat)
    requires (forall j :: 0 <= j < |slots| ==> slots[j].phase.Settled?) && i < |slots|
    requires Reliable(slots, |slots|) && Answered(first, slots, |slots|)
    ensures slots[i].phase.outcome == Answer(InOrder(first, slots, i), slots[i].job, true)
  {
    ReliableIsInOrder(first, slots, i, |slots|);
  }

  /** Overlapping calls on a store that does not fail: once all have settled, the store is what the
      changes make one after another in the order of the calls, every caller has the answer its
      change gives there, and a throw has changed nothing. */
  lemma {:induction false} OverlappingCallsAreSequential<V, R>(
      first: map<string, V>, steps: seq<Step<V, R>>, states: seq<Queue<V, R>>)
    requires Run(first, steps, states)
    ensures var q := states[|steps|];
            AllSettled(q) && Reliable(q.slots, |q.slots|) ==>
              && q.store == InOrder(first, q.slots, |q.slots|)
              && forall i :: 0 <= i < |q.slots| ==>
                   q.slots[i].phase.outcome == Answer(InOrder(first, q.slots, i), q.slots[i].job, true)
  {
    var q := states[|steps|];
    var k := RunKeepsInv(first, steps, states, |steps|);
    if AllSettled(q) && Reliable(q.slots, |q.slots|) {
      AllSettledAtEnd(first, q, k);
      ReliableIsInOrder(first, q.slots, k, k);
      forall i | 0 <= i < |q.slots|
        ensures q.slots[i].phase.outcome == Answer(InOrder(first, q.slots, i), q.slots[i].job, true)
      {
        AnsweredInOrder(first, q.slots, i);
      }
    }
  }

  /** The same with a store that fails now and then: a failed read starts from the fallback, a
      failed write leaves the store as it was, and the order of the calls still decides. */
  lemma {:induction false} FailingStoreIsSequentialToo<V, R>(
      first: map<string, V>, steps: seq<Step<V, R>>, states: seq<Queue<V, R>>)
    requires Run(first, steps, states)
    ensures var q := states[|steps|];
            AllSettled(q) ==>
              q.store == Sequential(first, q.slots, |q.slots|) && Answered(first, q.slots, |q.slots|)
  {
    var k := RunKeepsInv(first, steps, states, |steps|);
    if AllSettled(states[|steps|]) {
      AllSettledAtEnd(first, states[|steps|], k);
    }
  }

  /** Nobody is blocked: as long as a call is open, the first open one can move. */
  lemma {:induction false} OpenCallCanMove<V, R>(first: map<string, V>, q: Queue<V, R>, k: nat)
    returns (step: Step<V, R>)
    requires Inv(first, q, k) && k < |q.slots|
    ensures Enabled(q, step) && !step.Mutate? && step.i == k
  {
    step := match q.slots[k].phase
            case Waiting => Start(k)
            case Reading => ReadReturned(k, true)
            case _ => WriteReturned(k);
  }
}
