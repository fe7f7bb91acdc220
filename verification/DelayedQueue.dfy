/**
 * Operations that could not reach a server and are tried again later: closing files, releasing entry locks and range
 * locks. The three queues are processed alike, and other threads append while an operation is being tried.
 */
module DelayedQueue {
  import opened Queues
  import opened CacheStores

  /** One try with the mutex dropped: its result, and the operations that other threads enqueued meanwhile. */
  datatype Try<Op> = Try(res: int, arrivals: seq<Op>)

  /** What other threads enqueue during the first n tries. */
  function ArrivedDuring<Op>(tries: seq<Try<Op>>, n: nat): seq<Op>
    requires n <= |tries|
  {
    if n == 0 then [] else ArrivedDuring(tries, n - 1) + tries[n - 1].arrivals
  }

  /** These are the results of the first tries. */
  predicate OutcomesOf<Op>(tries: seq<Try<Op>>, outcomes: seq<int>) {
    |outcomes| <= |tries| && forall t :: 0 <= t < |outcomes| ==> outcomes[t] == tries[t].res
  }

  /** `all` is what was there first, and what other threads enqueue during the first n tries. */
  ghost predicate ArrivedBehind<Op>(first: seq<Op>, all: seq<Op>, tries: seq<Try<Op>>, n: nat) {
    n <= |tries| && all == first + ArrivedDuring(tries, n)
  }

  lemma OneMoreTry<Op>(tries: seq<Try<Op>>, n: nat, first: seq<Op>, before: seq<Op>, after: seq<Op>)
    requires n < |tries| && ArrivedBehind(first, before, tries, n) && after == before + tries[n].arrivals
    ensures ArrivedBehind(first, after, tries, n + 1)
  {
  }

  class DelayedOps<Op(!new)> {
    var queue: seq<Entry<Op>>
    var nextId: nat
    ghost var added: seq<Entry<Op>> // everything ever enqueued
    ghost var results: map<nat, int> // of the freed entries

    ghost predicate Valid()
      reads this
    {
      && nextId == |added| && Numbered(added)
      && queue == Survivors(added, results.Keys)
      // only an answer ends an operation
      && forall id <- results :: id < |added| && results[id] != COMMUNICATION
    }

    constructor ()
      ensures Valid() && queue == [] && added == []
    {
      queue, nextId, added, results := [], 0, [], map[];
    }

    method Add(op: Op)
      requires Valid()
      modifies this`queue, this`nextId, this`added
      ensures Valid() && added == old(added) + [Entry(|old(added)|, op)] && queue == old(queue) + [added[|added| - 1]]
    {
      var newEntry := Entry(nextId, op);
      SurvivorsOfAppend(added, results.Keys, newEntry);
      queue := queue + [newEntry];
      nextId := nextId + 1;
      added := added + [newEntry];
    }

    /** Frees the entry at position k, which has had an answer, and unlinks it; no entry is freed twice. */
    method FreeAndRemove(k: nat, ghost res: int)
      requires Valid() && k < |queue| && res != COMMUNICATION
      modifies this`queue, this`results
      ensures Valid() && queue == old(queue[..k] + queue[k + 1..])
      ensures old(queue)[k].id !in old(results) && results == old(results)[old(queue)[k].id := res]
    {
      InOrder(added, results.Keys, queue, k);
      FreeAt(added, results.Keys, k);
      results := results[queue[k].id := res];
      assert results.Keys == old(results.Keys) + {old(queue)[k].id};
      queue := queue[..k] + queue[k + 1..];
    }

    method Arrive(ops: seq<Op>)
      requires Valid()
      modifies this`queue, this`nextId, this`added
      ensures Valid() && old(added) <= added && old(queue) <= queue && Items(added) == old(Items(added)) + ops
    {
      var k := 0;
      while k < |ops|
        invariant k <= |ops| && Valid() && old(added) <= added && old(queue) <= queue
        invariant Items(added) == old(Items(added)) + ops[..k]
      {
        Add(ops[k]);
        k := k + 1;
      }
    }

    /** Tries the entry at position i and returns the position of the next one. */
    method TryAt(i: nat, attempt: Try<Op>) returns (next: nat)
      requires Valid() && i < |queue|
      modifies this
      ensures Valid() && old(added) <= added && i <= next <= |queue|
      ensures Items(added) == old(Items(added)) + attempt.arrivals
      ensures next == if attempt.res == COMMUNICATION then i + 1 else i
      ensures var id := old(queue)[i].id;
        && id !in old(results) && id < |added|
        && results == (if attempt.res == COMMUNICATION then old(results) else old(results)[id := attempt.res])
        && (forall k :: 0 <= k < next ==> queue[k] == old(queue)[k])
        && (forall k :: next <= k < |queue| ==> id < queue[k].id)
    {
      Arrive(attempt.arrivals);
      InOrder(added, results.Keys, queue, i);
      if attempt.res == COMMUNICATION {
        next := i + 1;
      } else {
        next := i;
        FreeAndRemove(i, attempt.res);
      }
    }

    /**
     * One pass over the queue; it ends early if the thread is told to terminate, here when the tries are used up. The
     * entries tried are returned in order: those without an answer stay, in front of the ones not reached, the others
     * are freed with their answer.
     */
    method ProcessQueue(tries: seq<Try<Op>>) returns (taken: nat, ghost tried: seq<nat>, ghost outcomes: seq<int>)
      requires Valid()
      modifies this
      ensures Valid() && old(added) <= added && taken == |tried| <= |tries|
      ensures Items(added) == old(Items(added)) + ArrivedDuring(tries, taken)
      ensures Settled(old(results), results, tried, outcomes) && OutcomesOf(tries, outcomes)
      // a pass that is not cut short tries every entry, late arrivals included
      ensures taken < |tries| ==> forall id: nat :: id < |added| && id !in old(results) ==> id in tried
    {
      taken, tried, outcomes := 0, [], [];
      var i: nat := 0;
      while i < |queue| && taken < |tries|
        invariant InRun(old(results), old(Items(added)), tries, tried, outcomes, i)
        invariant old(added) <= added && taken == |tried| <= |tries|
        decreases |tries| - taken
      {
        ghost var id;
        i, id := NextTry(i, tries, taken, old(results), old(Items(added)), tried, outcomes);
        tried, outcomes := tried + [id], outcomes + [tries[taken].res];
        taken := taken + 1;
      }
      if taken < |tries| {
        AllTried(added, queue, old(results), results, tried, outcomes);
      }
    }

    /** The entries in front of position i have been tried, and those behind it come later than every entry tried. */
    ghost predicate InPass(before: map<nat, int>, tried: seq<nat>, outcomes: seq<int>, i: nat)
      reads this
    {
      && Valid() && Settled(before, results, tried, outcomes) && i <= |queue|
      && (forall k :: 0 <= k < i ==> queue[k].id in tried)
      && (tried != [] ==> forall k :: i <= k < |queue| ==> tried[|tried| - 1] < queue[k].id)
    }

    /** One more try of a pass. */
    method TryNext(i: nat, attempt: Try<Op>, ghost before: map<nat, int>, ghost tried: seq<nat>,
        ghost outcomes: seq<int>)
      returns (next: nat, ghost id: nat)
      requires InPass(before, tried, outcomes, i) && i < |queue|
      modifies this
      ensures InPass(before, tried + [id], outcomes + [attempt.res], next) && old(added) <= added
      ensures Items(added) == old(Items(added)) + attempt.arrivals
    {
      InOrder(added, results.Keys, queue, i);
      ghost var was := results;
      id := queue[i].id;
      next := TryAt(i, attempt);
      SettledNext(before, was, results, tried, outcomes, id, attempt.res);
    }

    /** In the middle of a pass, with the outcomes of the first tries. */
    ghost predicate InRun(before: map<nat, int>, first: seq<Op>, tries: seq<Try<Op>>, tried: seq<nat>,
        outcomes: seq<int>, i: nat)
      reads this
    {
      && InPass(before, tried, outcomes, i) && OutcomesOf(tries, outcomes)
      && ArrivedBehind(first, Items(added), tries, |tried|)
    }

    method NextTry(i: nat, tries: seq<Try<Op>>, n: nat, ghost before: map<nat, int>, ghost first: seq<Op>,
        ghost tried: seq<nat>, ghost outcomes: seq<int>)
      returns (next: nat, ghost id: nat)
      requires InRun(before, first, tries, tried, outcomes, i) && i < |queue| && n == |tried| < |tries|
      modifies this
      ensures InRun(before, first, tries, tried + [id], outcomes + [tries[n].res], next) && old(added) <= added
    {
      next, id := TryNext(i, tries[n], before, tried, outcomes);
      OneMoreTry(tries, n, first, old(Items(added)), Items(added));
    }
  }

  /** Each entry was tried once, in order, and is freed with its answer or kept; nothing else was freed. */
  ghost predicate Settled(before: map<nat, int>, after: map<nat, int>, tried: seq<nat>, outcomes: seq<int>) {
    && |tried| == |outcomes|
    && (forall t, u :: 0 <= t < u < |tried| ==> tried[t] < tried[u])
    && (forall id <- before :: id in after && after[id] == before[id])
    && (forall id <- after :: id in before || id in tried)
    && (forall t :: 0 <= t < |tried| ==> tried[t] !in before)
    && (forall t :: 0 <= t < |tried| && outcomes[t] == COMMUNICATION ==> tried[t] !in after)
    && (forall t :: 0 <= t < |tried| && outcomes[t] != COMMUNICATION ==>
         tried[t] in after && after[tried[t]] == outcomes[t])
  }

  /** At the end of the queue everything that is not freed has been tried. */
  lemma AllTried<Op(!new)>(added: seq<Entry<Op>>, queue: seq<Entry<Op>>, before: map<nat, int>, after: map<nat, int>,
      tried: seq<nat>, outcomes: seq<int>)
    requires Numbered(added) && queue == Survivors(added, after.Keys) && Settled(before, after, tried, outcomes)
    requires forall k :: 0 <= k < |queue| ==> queue[k].id in tried
    ensures forall id: nat :: id < |added| && id !in before ==> id in tried
  {
    SurvivorsMembers(added, after.Keys);
    forall id: nat | id < |added| && id !in before ensures id in tried {
      if id !in after {
        assert added[id] in queue;
      }
    }
  }

  lemma SettledNext(
    before: map<nat, int>, middle: map<nat, int>, after: map<nat, int>,
    tried: seq<nat>, outcomes: seq<int>, id: nat, res: int)
    requires Settled(before, middle, tried, outcomes) && id !in middle
    requires tried != [] ==> tried[|tried| - 1] < id
    requires after == if res == COMMUNICATION then middle else middle[id := res]
    ensures Settled(before, after, tried + [id], outcomes + [res])
  {
    var n, more, results := |tried|, tried + [id], outcomes + [res];
    assert more[n] == id && results[n] == res;
    assert forall t :: 0 <= t < n ==> more[t] == tried[t] && results[t] == outcomes[t] && tried[t] <= tried[n - 1];
    assert forall x <- tried :: x in more;
    assert id in more;
  }
}
