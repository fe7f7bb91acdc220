/**
 * The asynchronous flusher against application threads, over any number of inodes. Every step is what one thread does
 * between two points where another thread may run: lock operations on an inode's cache lock, the atomic operations of
 * the inode store and of the buffer pool, and the remote write in between.
 */
module Flusher {

  type Inode = int // ordered like the pointers in the store's tree
  type Buf = int

  /** What the application thread inside the cache lock still has to do to the store. */
  datatype Pending = Nothing | AddInode | RemoveInode

  datatype Lock = Unlocked | LockedByApp(pending: Pending) | LockedByFlusher

  datatype Buffer = None | Read(buf: Buf) | Write(buf: Buf)

  /** One inode; refs counts the references held on behalf of its buffer. */
  datatype Slot = Slot(lock: Lock, buffer: Buffer, refs: int)

  datatype FlushResult = Success | InUse | Failed(comm: bool)

  /** Where the flusher is with the inode it took out of the store; discard marks the final flush. */
  datatype Flusher =
    | Idle
    | Taken(i: Inode)
    | Flushing(i: Inode, discard: bool)
    | Dropped(i: Inode, discard: bool) // buffer handed back, inode not yet looked up in the store
    | Flushed(i: Inode, discard: bool, res: FlushResult)
    | FinalFlush(i: Inode) // waiting for the lock
    | Advance(last: Inode)

  datatype State = State(slots: map<Inode, Slot>, store: set<Inode>, free: set<Buf>, flusher: Flusher)

  /**
   * One atomic action; open is the answer of the is-this-file-open check. A buffer that leaves its inode holds no data,
   * or its data has been delivered, unless the action says that the data is lost.
   */
  datatype Action =
    | AppLock(i: Inode) | AppAttach(i: Inode, b: Buffer) | AppAddToStore(i: Inode) | AppDiscard(i: Inode, lost: bool)
    | AppRemoveFromStore(i: Inode) | AppUnlock(i: Inode)
    | TakeFirst | TakeNext | Stop | TryLock(ok: bool) | FlushNothing | FlushDone | FlushLost | FlushFailed(comm: bool)
    | ReleaseFromStore | Conclude(open: bool) | LockForFinalFlush

  predicate Holds(f: Flusher, i: Inode) {
    !f.Idle? && !f.Advance? && f.i == i
  }

  function BufsOf(b: Buffer): set<Buf> {
    if b.None? then {} else {b.buf}
  }

  function SetLock(s: State, i: Inode, l: Lock): State
    requires i in s.slots
  {
    s.(slots := s.slots[i := s.slots[i].(lock := l)])
  }

  function SetBuffer(s: State, i: Inode, b: Buffer): State
    requires i in s.slots
  {
    s.(slots := s.slots[i := s.slots[i].(buffer := b)])
  }

  function AddRefs(s: State, i: Inode, n: int): State
    requires i in s.slots
  {
    s.(slots := s.slots[i := s.slots[i].(refs := s.slots[i].refs + n)])
  }

  // the operations of the inode store

  /** Add, and take a reference if the inode was not a member. */
  function AddAndReference(s: State, i: Inode): State
    requires i in s.slots
  {
    AddRefs(s, i, if i in s.store then 0 else 1).(store := s.store + {i})
  }

  /** Add, passing the caller's reference to the store, or drop that reference if the inode is a member. */
  function AddOrPut(s: State, i: Inode): State
    requires i in s.slots
  {
    AddRefs(s, i, if i in s.store then -1 else 0).(store := s.store + {i})
  }

  function RemoveAndRelease(s: State, i: Inode): State
    requires i in s.slots
  {
    AddRefs(s, i, if i in s.store then -1 else 0).(store := s.store - {i})
  }

  predicate IsFirst(s: State, i: Inode) {
    i in s.store && forall j <- s.store :: i <= j
  }

  predicate IsNextAfter(s: State, last: Inode, i: Inode) {
    i in s.store && last < i && forall j <- s.store :: j <= last || i <= j
  }

  predicate AppStep(s: State, a: Action, t: State) {
    match a
    case AppLock(i) =>
      i in s.slots && s.slots[i].lock.Unlocked? && t == SetLock(s, i, LockedByApp(Nothing))
    case AppAttach(i, b) => // writeCacheFlushed, readCacheFlushed: only with no buffer attached
      && i in s.slots && s.slots[i].lock == LockedByApp(Nothing)
      && s.slots[i].buffer.None? && !b.None? && b.buf in s.free
      && t == SetLock(SetBuffer(s, i, b), i, LockedByApp(AddInode)).(free := s.free - {b.buf})
    case AppAddToStore(i) =>
      && i in s.slots && s.slots[i].lock == LockedByApp(AddInode)
      && t == SetLock(AddAndReference(s, i), i, LockedByApp(Nothing))
    case AppDiscard(i, lost) => // after a flush, for a read buffer, or when the copy from user memory failed
      && i in s.slots && s.slots[i].lock.LockedByApp? && (lost ==> s.slots[i].buffer.Write?)
      && !s.slots[i].lock.pending.RemoveInode? && !s.slots[i].buffer.None?
      && t == SetLock(SetBuffer(s, i, None), i, LockedByApp(RemoveInode)).(free := s.free + {s.slots[i].buffer.buf})
    case AppRemoveFromStore(i) =>
      && i in s.slots && s.slots[i].lock == LockedByApp(RemoveInode)
      && t == SetLock(RemoveAndRelease(s, i), i, LockedByApp(Nothing))
    case AppUnlock(i) =>
      i in s.slots && s.slots[i].lock == LockedByApp(Nothing) && t == SetLock(s, i, Unlocked)
    case _ => false
  }

  predicate FlusherStep(s: State, a: Action, t: State) {
    match (s.flusher, a)
    case (Idle, TakeFirst) =>
      t.flusher.Taken? && IsFirst(s, t.flusher.i) && t == s.(store := s.store - {t.flusher.i}, flusher := t.flusher)
    case (Advance(last), TakeNext) =>
      && t.flusher.Taken? && IsNextAfter(s, last, t.flusher.i)
      && t == s.(store := s.store - {t.flusher.i}, flusher := t.flusher)
    case (Advance(_), Stop) => // end of the tree, or the thread was told to end
      t == s.(flusher := Idle)
    case (Taken(i), TryLock(ok)) =>
      && i in s.slots && (ok ==> s.slots[i].lock.Unlocked?)
      && t == if ok then SetLock(s, i, LockedByFlusher).(flusher := Flushing(i, false))
        else s.(flusher := Flushed(i, false, InUse))
    case (Flushing(i, discard), FlushNothing) =>
      i in s.slots && s.slots[i].buffer.None? && t == SetLock(s, i, Unlocked).(flusher := Flushed(i, discard, Success))
    case (Flushing(i, discard), FlushDone) => // read-ahead data dropped, or data delivered
      && i in s.slots && !s.slots[i].buffer.None?
      && t == SetBuffer(s, i, None).(free := s.free + {s.slots[i].buffer.buf}, flusher := Dropped(i, discard))
    case (Flushing(i, discard), FlushLost) => // given up by the final flush
      && discard && i in s.slots && s.slots[i].buffer.Write?
      && t == SetBuffer(s, i, None).(free := s.free + {s.slots[i].buffer.buf}, flusher := Dropped(i, discard))
    case (Dropped(i, discard), ReleaseFromStore) =>
      i in s.slots && t == SetLock(RemoveAndRelease(s, i), i, Unlocked).(flusher := Flushed(i, discard, Success))
    case (Flushing(i, discard), FlushFailed(comm)) =>
      && !discard && i in s.slots && s.slots[i].buffer.Write?
      && t == SetLock(s, i, Unlocked).(flusher := Flushed(i, false, Failed(comm)))
    case (Flushed(i, discard, res), Conclude(open)) =>
      && i in s.slots
      && t ==
         if discard || res == Success then AddRefs(s, i, -1).(flusher := Advance(i))
         else if res == InUse || (res.comm && open) then AddOrPut(s, i).(flusher := Advance(i))
         else s.(flusher := FinalFlush(i))
    case (FinalFlush(i), LockForFinalFlush) =>
      i in s.slots && s.slots[i].lock.Unlocked? && t == SetLock(s, i, LockedByFlusher).(flusher := Flushing(i, true))
    case _ => false
  }

  predicate Step(s: State, a: Action, t: State) {
    AppStep(s, a, t) || FlusherStep(s, a, t)
  }

  predicate Init(s: State) {
    s.store == {} && s.flusher.Idle? && forall i <- s.slots :: s.slots[i] == Slot(Unlocked, None, 0)
  }

  /** References taken for buffers are exactly those of the store and of the flusher. */
  predicate RefsBalanced(s: State) {
    && s.store <= s.slots.Keys
    && forall i <- s.slots ::
         s.slots[i].refs == (if i in s.store then 1 else 0) + (if Holds(s.flusher, i) then 1 else 0)
  }

  /** The thread that attached a buffer is about to add its inode. */
  predicate BeingAdded(s: State, i: Inode) {
    i in s.slots && s.slots[i].lock == LockedByApp(AddInode)
  }

  /** Every inode with a buffer is in the store, held by the flusher, or being added this moment. */
  predicate NothingForgotten(s: State) {
    forall i <- s.slots :: !s.slots[i].buffer.None? ==> i in s.store || Holds(s.flusher, i) || BeingAdded(s, i)
  }

  ghost predicate IsAttached(s: State, b: Buf) {
    exists i <- s.slots :: b in BufsOf(s.slots[i].buffer)
  }

  /** Each pool buffer is free or attached to exactly one inode. */
  ghost predicate PoolConserved(s: State, pool: set<Buf>) {
    && s.free <= pool
    && (forall i <- s.slots :: BufsOf(s.slots[i].buffer) <= pool - s.free)
    && (forall b <- pool - s.free :: IsAttached(s, b))
    && (forall i <- s.slots, j <- s.slots :: i != j ==> BufsOf(s.slots[i].buffer) !! BufsOf(s.slots[j].buffer))
  }

  /** What the flusher's position says about the inode it holds. */
  predicate FlusherConsistent(s: State) {
    && (!s.flusher.Idle? && !s.flusher.Advance? ==> s.flusher.i in s.slots)
    && (forall i <- s.slots ::
         s.slots[i].lock.LockedByFlusher? <==> Holds(s.flusher, i) && (s.flusher.Flushing? || s.flusher.Dropped?))
    && (forall i <- s.slots :: s.slots[i].lock == LockedByApp(RemoveInode) ==> s.slots[i].buffer.None?)
    && (s.flusher.Dropped? ==> s.slots[s.flusher.i].buffer.None?)
    && (s.flusher.Flushed? && s.flusher.discard ==> s.flusher.res == Success)
    // once a flush has succeeded, a buffer found there is a new one that its owner has added or is adding
    && (s.flusher.Flushed? && s.flusher.res == Success ==>
         var i := s.flusher.i; s.slots[i].buffer.None? || i in s.store || BeingAdded(s, i))
  }

  ghost predicate Inv(s: State, pool: set<Buf>) {
    RefsBalanced(s) && NothingForgotten(s) && PoolConserved(s, pool) && FlusherConsistent(s)
  }

  lemma AppKeepsRefsAndStore(s: State, a: Action, t: State, pool: set<Buf>)
    requires Inv(s, pool) && AppStep(s, a, t)
    ensures RefsBalanced(t) && NothingForgotten(t)
  {
    assert t.flusher == s.flusher;
  }

  lemma FlusherKeepsRefsAndStore(s: State, a: Action, t: State, pool: set<Buf>)
    requires Inv(s, pool) && FlusherStep(s, a, t)
    ensures RefsBalanced(t) && NothingForgotten(t)
  {
  }

  lemma AppKeepsFlusherConsistent(s: State, a: Action, t: State, pool: set<Buf>)
    requires Inv(s, pool) && AppStep(s, a, t)
    ensures FlusherConsistent(t)
  {
    assert t.flusher == s.flusher;
  }

  lemma FlusherKeepsFlusherConsistent(s: State, a: Action, t: State, pool: set<Buf>)
    requires Inv(s, pool) && FlusherStep(s, a, t)
    ensures FlusherConsistent(t)
  {
  }

  /** The only inode whose buffer a step changes, if any. */
  function Touched(s: State, a: Action): set<Inode> {
    match a
    case AppAttach(i, _) => {i}
    case AppDiscard(i, _) => {i}
    case FlushDone => if s.flusher.Flushing? then {s.flusher.i} else {}
    case FlushLost => if s.flusher.Flushing? then {s.flusher.i} else {}
    case _ => {}
  }

  /** A buffer moved from the pool to inode i, or back. */
  predicate Moved(s: State, t: State, i: Inode) {
    && i in s.slots && i in t.slots
    && if s.slots[i].buffer.None? then
         !t.slots[i].buffer.None? && t.slots[i].buffer.buf in s.free && t.free == s.free - {t.slots[i].buffer.buf}
       else
         t.slots[i].buffer.None? && t.free == s.free + {s.slots[i].buffer.buf}
  }

  lemma OnlyTouched(s: State, a: Action, t: State)
    requires Step(s, a, t)
    ensures t.slots.Keys == s.slots.Keys
    ensures forall i <- s.slots :: i !in Touched(s, a) ==> t.slots[i].buffer == s.slots[i].buffer
    ensures Touched(s, a) == {} ==> t.free == s.free
    ensures forall i <- Touched(s, a) :: Moved(s, t, i)
  {
  }

  lemma KeepsPool(s: State, a: Action, t: State, pool: set<Buf>)
    requires PoolConserved(s, pool) && Step(s, a, t)
    ensures PoolConserved(t, pool)
  {
    OnlyTouched(s, a, t);
    if Touched(s, a) == {} {
      BuffersUnchanged(s, t, pool);
    } else {
      var i :| i in Touched(s, a);
      assert Touched(s, a) == {i} && Moved(s, t, i);
      BufferMoved(s, t, pool, i);
    }
  }

  lemma BuffersUnchanged(s: State, t: State, pool: set<Buf>)
    requires PoolConserved(s, pool) && t.slots.Keys == s.slots.Keys && t.free == s.free
    requires forall i <- s.slots :: t.slots[i].buffer == s.slots[i].buffer
    ensures PoolConserved(t, pool)
  {
  }

  lemma BufferMoved(s: State, t: State, pool: set<Buf>, i: Inode)
    requires PoolConserved(s, pool) && t.slots.Keys == s.slots.Keys && Moved(s, t, i)
    requires forall j <- s.slots :: j != i ==> t.slots[j].buffer == s.slots[j].buffer
    ensures PoolConserved(t, pool)
  {
    forall b | b in pool - t.free ensures IsAttached(t, b) {
      if b !in BufsOf(t.slots[i].buffer) {
        assert IsAttached(s, b);
        var j :| j in s.slots && b in BufsOf(s.slots[j].buffer);
        assert b in BufsOf(t.slots[j].buffer);
      }
    }
  }

  lemma StepKeepsInv(s: State, a: Action, t: State, pool: set<Buf>)
    requires Inv(s, pool) && Step(s, a, t)
    ensures Inv(t, pool)
  {
    KeepsPool(s, a, t, pool);
    if AppStep(s, a, t) {
      AppKeepsRefsAndStore(s, a, t, pool);
      AppKeepsFlusherConsistent(s, a, t, pool);
    } else {
      FlusherKeepsRefsAndStore(s, a, t, pool);
      FlusherKeepsFlusherConsistent(s, a, t, pool);
    }
  }

  predicate Run(states: seq<State>, actions: seq<Action>) {
    && |states| == |actions| + 1
    && Init(states[0])
    && forall k :: 0 <= k < |actions| ==> Step(states[k], actions[k], states[k + 1])
  }

  /** The invariant holds in every reachable state, for any number of inodes, buffers and interleavings. */
  lemma {:induction false} ReachableInv(states: seq<State>, actions: seq<Action>, k: nat)
    requires Run(states, actions) && k <= |actions|
    ensures Inv(states[k], states[0].free)
  {
    if k > 0 {
      ReachableInv(states, actions, k - 1);
      StepKeepsInv(states[k - 1], actions[k - 1], states[k], states[0].free);
    }
  }

  /** No reference is dropped that is not held, none is kept for nothing, and unflushed data is always findable. */
  lemma NoLeakNoOverRelease(states: seq<State>, actions: seq<Action>, k: nat, i: Inode)
    requires Run(states, actions) && k <= |actions| && i in states[k].slots
    ensures var s := states[k];
      && 0 <= s.slots[i].refs <= 2
      && (s.flusher.Idle? && i !in s.store ==> s.slots[i].refs == 0)
      && (s.flusher.Idle? && s.slots[i].lock.Unlocked? && !s.slots[i].buffer.None? ==>
           i in s.store && s.slots[i].refs == 1)
  {
    ReachableInv(states, actions, k);
  }

  /** A pass, from the first inode to the end of the store, takes its inodes in their order, so none of them twice. */
  lemma {:induction false} PassIsAscending(states: seq<State>, actions: seq<Action>, j: nat, k: nat, i: Inode)
    requires Run(states, actions) && j <= k <= |actions| && Holds(states[j].flusher, i)
    requires forall x :: j <= x < k ==> !actions[x].Stop?
    ensures var f := states[k].flusher;
      && !f.Idle? && (if f.Advance? then i <= f.last else i <= f.i)
      && (k < |actions| && Takes(actions[k]) ==> states[k + 1].flusher.Taken? && i < states[k + 1].flusher.i)
  {
    if j < k {
      PassIsAscending(states, actions, j, k - 1, i);
      assert !actions[k - 1].Stop? && Step(states[k - 1], actions[k - 1], states[k]);
    }
    assert k < |actions| ==> Step(states[k], actions[k], states[k + 1]);
  }

  // when data is given up

  predicate Takes(a: Action) {
    a.TakeFirst? || a.TakeNext?
  }

  ghost predicate HeldFrom(states: seq<State>, j: nat, k: nat, i: Inode)
    requires k < |states|
  {
    forall x :: j <= x <= k ==> Holds(states[x].flusher, i)
  }

  /** The flusher has held the inode since it took it out of the store. */
  lemma {:induction false} TakenAt(states: seq<State>, actions: seq<Action>, k: nat, i: Inode) returns (take: nat)
    requires Run(states, actions) && k <= |actions| && Holds(states[k].flusher, i)
    ensures take < k && Takes(actions[take]) && states[take + 1].flusher == Taken(i) && HeldFrom(states, take + 1, k, i)
  {
    assert k > 0 && Step(states[k - 1], actions[k - 1], states[k]);
    if Takes(actions[k - 1]) {
      take := k - 1;
    } else {
      take := TakenAt(states, actions, k - 1, i);
    }
  }

  lemma {:induction false} FailedAt(states: seq<State>, actions: seq<Action>, k: nat, i: Inode, comm: bool)
    returns (fail: nat)
    requires Run(states, actions) && k <= |actions| && states[k].flusher == Flushed(i, false, Failed(comm))
    ensures fail < k && actions[fail] == FlushFailed(comm) && states[fail].flusher == Flushing(i, false)
    ensures forall x :: fail < x <= k ==> states[x].flusher == Flushed(i, false, Failed(comm))
  {
    assert k > 0 && Step(states[k - 1], actions[k - 1], states[k]);
    if actions[k - 1].FlushFailed? {
      fail := k - 1;
    } else {
      fail := FailedAt(states, actions, k - 1, i, comm);
    }
  }

  /** The flusher waits for the lock of the final flush, or is in it. */
  predicate IsFinal(f: Flusher) {
    f.FinalFlush? || (f.Flushing? && f.discard)
  }

  lemma {:induction false} DecidedAt(states: seq<State>, actions: seq<Action>, k: nat) returns (decide: nat)
    requires Run(states, actions) && k <= |actions| && IsFinal(states[k].flusher)
    ensures var i := states[k].flusher.i;
      && decide < k && actions[decide].Conclude? && HeldFrom(states, decide, k, i)
      && states[decide].flusher.Flushed? && states[decide].flusher.i == i && !states[decide].flusher.discard
      && states[decide].flusher.res.Failed? && (!states[decide].flusher.res.comm || !actions[decide].open)
  {
    assert k > 0 && Step(states[k - 1], actions[k - 1], states[k]);
    if actions[k - 1].Conclude? {
      decide := k - 1;
    } else {
      decide := DecidedAt(states, actions, k - 1);
    }
  }

  /**
   * The flusher gives data up only after it has tried to deliver it: since it took the inode a flush has failed, and
   * then either that was no communication error, or the file was found closed.
   */
  lemma GivenUpOnlyAfterFailure(states: seq<State>, actions: seq<Action>, k: nat)
    returns (take: nat, fail: nat, decide: nat)
    requires Run(states, actions) && k < |actions| && actions[k].FlushLost?
    ensures var i := if states[k].flusher.Flushing? then states[k].flusher.i else 0;
      && states[k].flusher == Flushing(i, true) && take < fail < decide < k && HeldFrom(states, take + 1, k, i)
      && Takes(actions[take]) && states[take + 1].flusher == Taken(i)
      && actions[fail].FlushFailed? && states[fail].flusher == Flushing(i, false)
      && i in states[fail].slots && states[fail].slots[i].buffer.Write?
      && actions[decide].Conclude? && (!actions[fail].comm || !actions[decide].open)
  {
    assert Step(states[k], actions[k], states[k + 1]);
    var i := states[k].flusher.i;
    decide := DecidedAt(states, actions, k);
    fail := FailedAt(states, actions, decide, i, states[decide].flusher.res.comm);
    take := TakenAt(states, actions, fail, i);
    assert Step(states[fail], actions[fail], states[fail + 1]);
    assert states[take + 1].flusher == Taken(i);
  }

  /** The flusher lets the inode go for a later flush: the lock was busy, or the servers of an open file unreachable. */
  predicate PutsBack(s: State, a: Action) {
    && s.flusher.Flushed? && !s.flusher.discard && a.Conclude?
    && (s.flusher.res.InUse? || (s.flusher.res == Failed(true) && a.open))
  }

  /** What becomes of an inode after its flush: done with, put back, or flushed once more for good, and why. */
  lemma DecisionIsExact(states: seq<State>, actions: seq<Action>, m: nat)
    requires Run(states, actions) && m < |actions| && actions[m].Conclude? && states[m].flusher.Flushed?
    ensures var i, f, t := states[m].flusher.i, states[m].flusher, states[m + 1];
      && (t.flusher == FinalFlush(i) <==> !f.discard && f.res.Failed? && (!f.res.comm || !actions[m].open))
      && (PutsBack(states[m], actions[m]) ==> i in t.store && t.flusher == Advance(i))
      // otherwise it is not taken up again for this flush
      && (!PutsBack(states[m], actions[m]) ==> t.store == states[m].store)
  {
    ReachableInv(states, actions, m);
    assert Step(states[m], actions[m], states[m + 1]);
  }

  /** The action delivers or loses what is in the inode's buffer, or drops its read-ahead data. */
  predicate Empties(s: State, a: Action, i: Inode) {
    match a
    case AppDiscard(j, _) => j == i
    case FlushDone => s.flusher.Flushing? && s.flusher.i == i
    case FlushLost => s.flusher.Flushing? && s.flusher.i == i
    case _ => false
  }

  /** A buffer with data stays until it is delivered or given up. */
  lemma {:induction false} DataStays(states: seq<State>, actions: seq<Action>, j: nat, k: nat, i: Inode)
    requires Run(states, actions) && j <= k <= |actions|
    requires i in states[j].slots && states[j].slots[i].buffer.Write?
    requires forall x :: j <= x < k ==> !Empties(states[x], actions[x], i)
    ensures i in states[k].slots && states[k].slots[i].buffer == states[j].slots[i].buffer
  {
    if j < k {
      DataStays(states, actions, j, k - 1, i);
      assert !Empties(states[k - 1], actions[k - 1], i) && Step(states[k - 1], actions[k - 1], states[k]);
      DataStaysNow(states[k - 1], actions[k - 1], states[k], i);
    }
  }

  lemma DataStaysNow(s: State, a: Action, t: State, i: Inode)
    requires Step(s, a, t) && i in s.slots && s.slots[i].buffer.Write? && !Empties(s, a, i)
    ensures i in t.slots && t.slots[i].buffer == s.slots[i].buffer
  {
    OnlyTouched(s, a, t);
  }

  /** An application thread with this inode, or the flusher taking it. */
  predicate ActsOn(a: Action, t: State, i: Inode) {
    match a
    case AppLock(j) => j == i
    case AppAttach(j, _) => j == i
    case AppAddToStore(j) => j == i
    case AppDiscard(j, _) => j == i
    case AppRemoveFromStore(j) => j == i
    case AppUnlock(j) => j == i
    case _ => Takes(a) && t.flusher == Taken(i)
  }

  /** Then the inode is in the store with its buffer until somebody else acts on it. */
  lemma {:induction false} KeptForLater(states: seq<State>, actions: seq<Action>, m: nat, k: nat)
    requires Run(states, actions) && m < k <= |actions| && PutsBack(states[m], actions[m])
    requires forall x :: m < x < k ==> !ActsOn(actions[x], states[x + 1], states[m].flusher.i)
    ensures var i := states[m].flusher.i;
      && i in states[m].slots && i in states[k].slots && i in states[k].store && !Holds(states[k].flusher, i)
      && states[k].slots[i].buffer == states[m].slots[i].buffer
  {
    var i := states[m].flusher.i;
    assert Step(states[k - 1], actions[k - 1], states[k]);
    if k > m + 1 {
      KeptForLater(states, actions, m, k - 1);
      assert !ActsOn(actions[k - 1], states[k], i);
      OnlyTouched(states[k - 1], actions[k - 1], states[k]);
    }
  }

  /** And what the failed flush could not deliver is still in that buffer, if no application thread came in between. */
  lemma FailureKeepsData(states: seq<State>, actions: seq<Action>, m: nat) returns (fail: nat)
    requires Run(states, actions) && m < |actions|
    requires states[m].flusher.Flushed? && !states[m].flusher.discard && states[m].flusher.res.Failed?
    ensures var i := states[m].flusher.i;
      && fail < m && actions[fail] == FlushFailed(states[m].flusher.res.comm) && i in states[fail].slots
      && states[fail].slots[i].buffer.Write?
      && ((forall x :: fail < x < m ==> !ActsOn(actions[x], states[x + 1], i)) ==>
           i in states[m].slots && states[m].slots[i].buffer == states[fail].slots[i].buffer)
  {
    var i := states[m].flusher.i;
    fail := FailedAt(states, actions, m, i, states[m].flusher.res.comm);
    assert Step(states[fail], actions[fail], states[fail + 1]);
    if forall x :: fail < x < m ==> !ActsOn(actions[x], states[x + 1], i) {
      forall x | fail <= x < m ensures !Empties(states[x], actions[x], i) {
        assert x > fail ==> !ActsOn(actions[x], states[x + 1], i);
      }
      DataStays(states, actions, fail, m, i);
    }
  }

  /** A run to the state in which the flusher holds inode i and an application thread has added it anew. */
  function RaceState(k: nat, i: Inode, b: Buf): State {
    var S := (pending, buffer, refs) => map[i := Slot(LockedByApp(pending), buffer, refs)];
    match k
    case 0 => State(map[i := Slot(Unlocked, None, 0)], {}, {b}, Idle)
    case 1 => State(S(Nothing, None, 0), {}, {b}, Idle)
    case 2 => State(S(AddInode, Write(b), 0), {}, {}, Idle)
    case 3 => State(S(Nothing, Write(b), 1), {i}, {}, Idle)
    case 4 => State(S(Nothing, Write(b), 1), {}, {}, Taken(i))
    case 5 => State(S(RemoveInode, None, 1), {}, {b}, Taken(i))
    case 6 => State(S(Nothing, None, 1), {}, {b}, Taken(i))
    case 7 => State(S(AddInode, Write(b), 1), {}, {}, Taken(i))
    case _ => State(S(Nothing, Write(b), 2), {i}, {}, Taken(i))
  }

  function RaceActions(i: Inode, b: Buf): seq<Action> {
    [AppLock(i), AppAttach(i, Write(b)), AppAddToStore(i), TakeFirst,
     AppDiscard(i, false), AppRemoveFromStore(i), AppAttach(i, Write(b)), AppAddToStore(i)]
  }

  lemma RaceStep(k: nat, i: Inode, b: Buf)
    requires k < 8
    ensures Step(RaceState(k, i, b), RaceActions(i, b)[k], RaceState(k + 1, i, b))
  {
  }

  /** The race that add-or-put is for can happen: store and flusher can hold a reference to the same inode. */
  lemma DoubleReferenceIsReachable(i: Inode, b: Buf)
    ensures exists states: seq<State>, actions: seq<Action> ::
      Run(states, actions) && i in states[|actions|].slots && states[|actions|].slots[i].refs == 2
  {
    var states := seq(9, k requires k >= 0 => RaceState(k, i, b));
    var actions := RaceActions(i, b);
    forall k | 0 <= k < |actions| ensures Step(states[k], actions[k], states[k + 1]) {
      RaceStep(k, i, b);
    }
    assert Run(states, actions);
  }
}
