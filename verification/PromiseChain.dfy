/**
 The promise chain of extension/src/captcha-state.js: `mutations` holds the promise of the last call,
 every new call waits for the promise it finds there and leaves its own. Each method is the code
 between two awaits and is handed what its call holds; `queue` says how far the calls have come, and
 every method is a step of it. The promise a call waits for is settled exactly when the queue lets
 the call start.
 */
module PromiseChain {
  import opened Wrappers
  import opened MutationQueue

  class Promise {
    var settled: bool
    ghost const of: int    // the call it belongs to, -1 for the resolved one the chain starts with

    constructor (ghost of: int, settled: bool)
      ensures this.of == of && this.settled == settled
    {
      this.of := of;
      this.settled := settled;
    }
  }

  class CaptchaState<!V, R> {
    var store: map<string, V>
    var mutations: Promise
    ghost var chain: seq<Promise>    // the resolved one, then the promise of every call
    ghost var queue: Queue<V, R>

    /** Call `i` waits for `chain[i]` and settles `chain[i + 1]`, with or without a throw. */
    ghost predicate Valid()
      reads this, chain
    {
      && store == queue.store && queue.mutations == |queue.slots| - 1
      && |chain| == |queue.slots| + 1 && mutations == chain[|queue.slots|]
      && (forall i :: 0 <= i < |chain| ==> chain[i].of == i - 1)
      && (forall i :: 0 <= i < |queue.slots| ==> queue.slots[i].after == i - 1)
      && chain[0].settled
      && (forall i :: 0 <= i < |queue.slots| ==> (chain[i + 1].settled <==> queue.slots[i].phase.Settled?))
    }

    constructor (first: map<string, V>)
      ensures Valid() && queue == Queue(first, [], -1)
    {
      var resolved := new Promise(-1, true);
      store, mutations := first, resolved;
      chain, queue := [resolved], Queue(first, [], -1);
    }

    /** `mutate` until it returns its promise. */
    method Call(job: Job<V, R>) returns (waits: Promise, done: Promise)
      requires Valid()
      modifies `mutations, `chain, `queue
      ensures Valid() && queue == Next(old(queue), Mutate(job))
      ensures waits == old(mutations) && mutations == done && fresh(done) && chain == old(chain) + [done]
    {
      waits := mutations;
      done := new Promise(|queue.slots|, false);
      mutations := done;
      chain := chain + [done];
      queue := Next(queue, Mutate(job));
    }

    /** The promise a call waits for is settled: the queue lets it start. */
    ghost method OnTurn(i: nat, waits: Promise)
      requires Valid() && i < |queue.slots| && queue.slots[i].phase.Waiting?
      requires waits == chain[i] && waits.settled
      modifies `queue
      ensures Valid() && Enabled(old(queue), Start(i)) && queue == Next(old(queue), Start(i))
    {
      queue := Next(queue, Start(i));
    }

    /** And only then: the queue lets a waiting call start exactly when its promise is settled. */
    lemma {:induction false} TurnIsItsPromise(i: nat)
      requires Valid()
      ensures Enabled(queue, Start(i)) <==> i < |queue.slots| && queue.slots[i].phase.Waiting? && chain[i].settled
    {
      if 0 < i < |queue.slots| {
        assert chain[i] == chain[(i - 1) + 1];
      }
    }

    /** The read has answered: the change runs at once on what it answered; a throw settles the call. */
    method OnRead(i: nat, job: Job<V, R>, done: Promise, ok: bool) returns (next: Option<(V, R)>)
      requires Valid() && Enabled(queue, ReadReturned(i, ok)) && job == queue.slots[i].job && done == chain[i + 1]
      modifies `queue, done
      ensures Valid() && queue == Next(old(queue), ReadReturned(i, ok))
      ensures next.Some? ==> queue.slots[i].phase == Writing(ok, next.value.0, next.value.1, false)
      ensures next.None? ==> done.settled
    {
      queue := Next(queue, ReadReturned(i, ok));
      var current := if ok && job.key in store then store[job.key] else job.fallback;
      match job.change(current) {
        case Changed(value, result) => next := Some((value, result));
        case Threw =>
          done.settled := true;
          next := None;
      }
    }

    /** The store takes the write; the call does not know yet. */
    method OnStored(i: nat, job: Job<V, R>, value: V)
      requires Valid() && Enabled(queue, StoreWrote(i))
      requires job == queue.slots[i].job && value == queue.slots[i].phase.value
      modifies `store, `queue
      ensures Valid() && queue == Next(old(queue), StoreWrote(i))
    {
      store := store[job.key := value];
      queue := Next(queue, StoreWrote(i));
    }

    /** The write has answered, taken or failed: the call is over and the next one may go. */
    method OnWritten(i: nat, done: Promise)
      requires Valid() && Enabled(queue, WriteReturned(i)) && done == chain[i + 1]
      modifies `queue, done
      ensures Valid() && queue == Next(old(queue), WriteReturned(i)) && done.settled
    {
      done.settled := true;
      queue := Next(queue, WriteReturned(i));
    }
  }
}
