/**
 * The steps of the flusher's model against the methods of the file cache: what a method does to the buffer, to the
 * store and to the references while it holds the cache lock is a run of application steps.
 */
module FlusherCalls {
  import opened FileBytes
  import opened CacheStores
  import opened FileCache
  import F = Flusher

  /** The steps of the application thread that holds the lock of inode i. */
  ghost predicate AppRun(states: seq<F.State>, actions: seq<F.Action>, i: F.Inode) {
    && |states| == |actions| + 1
    && forall k :: 0 <= k < |actions| ==> IsStepOf(actions[k], i) && F.AppStep(states[k], actions[k], states[k + 1])
  }

  predicate IsStepOf(a: F.Action, i: F.Inode) {
    match a
    case AppAttach(j, _) => j == i
    case AppAddToStore(j) => j == i
    case AppDiscard(j, _) => j == i
    case AppRemoveFromStore(j) => j == i
    case _ => false
  }

  predicate Locked(s: F.State, i: F.Inode) {
    i in s.slots && s.slots[i].lock == F.LockedByApp(F.Nothing)
  }

  /** The state after the inode's buffer has been given up; buffer and store entry of other inodes stay. */
  function GivenUp(s: F.State, i: F.Inode): F.State
    requires i in s.slots
  {
    F.RemoveAndRelease(F.SetBuffer(s, i, F.None), i).(free := s.free + F.BufsOf(s.slots[i].buffer))
  }

  function Attached(s: F.State, i: F.Inode, b: F.Buffer): F.State
    requires i in s.slots && !b.None?
  {
    F.AddAndReference(F.SetBuffer(s, i, b), i).(free := s.free - {b.buf})
  }

  /** Data is lost in this run. */
  predicate Loses(actions: seq<F.Action>) {
    exists k :: 0 <= k < |actions| && actions[k].AppDiscard? && actions[k].lost
  }

  lemma DiscardRun(s: F.State, i: F.Inode, lost: bool) returns (states: seq<F.State>, actions: seq<F.Action>)
    requires Locked(s, i) && !s.slots[i].buffer.None? && (lost ==> s.slots[i].buffer.Write?)
    ensures AppRun(states, actions, i) && states[0] == s && states[|actions|] == GivenUp(s, i)
    ensures Loses(actions) <==> lost
  {
    var m := F.SetLock(F.SetBuffer(s, i, F.None), i, F.LockedByApp(F.RemoveInode))
      .(free := s.free + {s.slots[i].buffer.buf});
    states, actions := [s, m, GivenUp(s, i)], [F.AppDiscard(i, lost), F.AppRemoveFromStore(i)];
    assert actions[0].lost == lost;
    assert F.AppStep(m, actions[1], states[2]);
  }

  lemma AttachRun(s: F.State, i: F.Inode, b: F.Buffer) returns (states: seq<F.State>, actions: seq<F.Action>)
    requires Locked(s, i) && s.slots[i].buffer.None? && !b.None? && b.buf in s.free
    ensures AppRun(states, actions, i) && states[0] == s && states[|actions|] == Attached(s, i, b) && !Loses(actions)
  {
    var m := F.SetLock(F.SetBuffer(s, i, b), i, F.LockedByApp(F.AddInode)).(free := s.free - {b.buf});
    states, actions := [s, m, Attached(s, i, b)], [F.AppAttach(i, b), F.AppAddToStore(i)];
    assert F.AppStep(m, actions[1], states[2]);
  }

  lemma RunsJoin(states: seq<F.State>, actions: seq<F.Action>, more: seq<F.State>, moreActions: seq<F.Action>,
      i: F.Inode)
    requires AppRun(states, actions, i) && AppRun(more, moreActions, i) && more[0] == states[|actions|]
    ensures AppRun(states[..|actions|] + more, actions + moreActions, i)
    ensures (states[..|actions|] + more)[0] == states[0]
    ensures (states[..|actions|] + more)[|actions + moreActions|] == more[|moreActions|]
    ensures Loses(actions + moreActions) <==> Loses(actions) || Loses(moreActions)
  {
    var all, acts := states[..|actions|] + more, actions + moreActions;
    forall k | 0 <= k < |acts| ensures IsStepOf(acts[k], i) && F.AppStep(all[k], acts[k], all[k + 1]) {
      if k < |actions| {
        assert all[k] == states[k] && all[k + 1] == states[k + 1] && acts[k] == actions[k];
      } else {
        assert all[k] == more[k - |actions|] && all[k + 1] == more[k + 1 - |actions|];
        assert acts[k] == moreActions[k - |actions|];
      }
    }
    forall k | 0 <= k < |acts| && acts[k].AppDiscard? && acts[k].lost ensures Loses(actions) || Loses(moreActions) {
      if k < |actions| {
        assert actions[k].lost;
      } else {
        assert moreActions[k - |actions|].lost;
      }
    }
    if k :| 0 <= k < |actions| && actions[k].AppDiscard? && actions[k].lost {
      assert acts[k].lost;
    }
    if k :| 0 <= k < |moreActions| && moreActions[k].AppDiscard? && moreActions[k].lost {
      assert acts[|actions| + k].lost;
    }
  }

  /** What a call may have done, said of the model's states: nothing, gave the buffer up, or left a new one. */
  ghost predicate CallEffect(s: F.State, i: F.Inode, t: F.State)
    requires i in s.slots
  {
    || t == s
    || (t == GivenUp(s, i) && (!s.slots[i].buffer.None? || exists x :: x in s.free))
    || (i in t.slots && !t.slots[i].buffer.None? && t.slots[i].buffer.buf in GivenUp(s, i).free
        && t == Attached(GivenUp(s, i), i, t.slots[i].buffer))
  }

  /** Such an effect is a run of application steps, on this inode only, in which data is lost or not. */
  lemma CallIsAppRun(s: F.State, i: F.Inode, t: F.State, lost: bool)
    returns (states: seq<F.State>, actions: seq<F.Action>)
    requires Locked(s, i) && CallEffect(s, i, t) && (lost ==> s.slots[i].buffer.Write? && t != s)
    ensures AppRun(states, actions, i) && states[0] == s && states[|actions|] == t && (Loses(actions) <==> lost)
  {
    if t == s {
      states, actions := [s], [];
    } else if s.slots[i].buffer.None? {
      states, actions := CallWithoutBuffer(s, i, t);
    } else {
      states, actions := DiscardRun(s, i, lost);
      if t != GivenUp(s, i) {
        var more, moreActions := AttachRun(GivenUp(s, i), i, t.slots[i].buffer);
        RunsJoin(states, actions, more, moreActions, i);
        states, actions := states[..|actions|] + more, actions + moreActions;
      }
    }
  }

  /** An inode without buffer may be in the store; a buffer that is attached and given up at once takes it out. */
  lemma CallWithoutBuffer(s: F.State, i: F.Inode, t: F.State) returns (states: seq<F.State>, actions: seq<F.Action>)
    requires Locked(s, i) && CallEffect(s, i, t) && t != s && s.slots[i].buffer.None?
    ensures AppRun(states, actions, i) && states[0] == s && states[|actions|] == t && !Loses(actions)
  {
    if t == GivenUp(s, i) {
      assert t.slots[i].buffer.None?;
      var x :| x in s.free;
      states, actions := AttachRun(s, i, F.Read(x));
      var more, moreActions := DiscardRun(Attached(s, i, F.Read(x)), i, false);
      assert GivenUp(Attached(s, i, F.Read(x)), i) == t;
      RunsJoin(states, actions, more, moreActions, i);
      states, actions := states[..|actions|] + more, actions + moreActions;
    } else {
      states, actions := AttachRun(s, i, t.slots[i].buffer);
      assert Attached(s, i, t.slots[i].buffer) == t;
    }
  }

  // the methods

  /** The buffers by the numbers they have in the model. */
  type Numbers = map<array<Byte>, F.Buf>

  predicate Numbered(all: set<array<Byte>>, ids: Numbers) {
    all <= ids.Keys && forall a <- ids, b <- ids :: a != b ==> ids[a] != ids[b]
  }

  function BufferOf(buf: array?<Byte>, bufType: FileBufferType, ids: Numbers): F.Buffer {
    if buf == null || buf !in ids then F.None else if bufType == READ then F.Read(ids[buf]) else F.Write(ids[buf])
  }

  ghost function FreeOf(all: set<array<Byte>>, out: set<array<Byte>>, ids: Numbers): set<F.Buf>
    requires all <= ids.Keys
  {
    set b | b in all && b !in out :: ids[b]
  }

  /** What matters here of an inode and its pool. */
  datatype Look = Look(
    all: set<array<Byte>>, out: set<array<Byte>>, buf: array?<Byte>, bufType: FileBufferType, member: bool, refs: int)

  ghost function LookAt(inode: FhgfsInode): Look
    reads inode, inode.pool, inode.refStore
  {
    Look(inode.pool.all, inode.pool.out, inode.buf, inode.bufType, inode in inode.refStore.members, inode.refs)
  }

  /**
   * The state s of the model shows the inode as number i, with the cache lock held; `base` references are not for its
   * buffer.
   */
  ghost predicate Shows(s: F.State, i: F.Inode, look: Look, ids: Numbers, base: int) {
    Locked(s, i) && ShowsBuffer(s, i, look, ids, base)
  }

  ghost predicate ShowsBuffer(s: F.State, i: F.Inode, look: Look, ids: Numbers, base: int) {
    && i in s.slots && Numbered(look.all, ids) && s.slots[i].buffer == BufferOf(look.buf, look.bufType, ids)
    && (i in s.store <==> look.member) && s.slots[i].refs == look.refs - base
    && s.free == FreeOf(look.all, look.out, ids)
  }

  ghost predicate Matches(inode: FhgfsInode, ids: Numbers, base: int, s: F.State, i: F.Inode)
    reads inode, inode.pool, inode.refStore
  {
    Shows(s, i, LookAt(inode), ids, base)
  }

  /** The contract of the file cache about buffer, store and references. */
  predicate CallStep(before: Look, after: Look) {
    var left := before.out - if before.buf == null then {} else {before.buf};
    && after.all == before.all && before.out <= before.all && after.out <= after.all
    && (before.buf != null ==> before.buf in before.out) && (after.buf != null ==> after.buf !in left)
    && after.out == left + (if after.buf == null then {} else {after.buf})
    && after.refs - (if after.member then 1 else 0) == before.refs - (if before.member then 1 else 0)
    && (|| (after.buf == before.buf && after.bufType == before.bufType && after.member == before.member)
        || ((after.buf == null <==> !after.member) && (before.buf != null || before.out < before.all)))
  }

  lemma FreeAfterDiscard(all: set<array<Byte>>, out: set<array<Byte>>, ids: Numbers, buf: array<Byte>)
    requires Numbered(all, ids) && buf in all && buf in out
    ensures FreeOf(all, out - {buf}, ids) == FreeOf(all, out, ids) + {ids[buf]}
  {
  }

  lemma FreeAfterAttach(all: set<array<Byte>>, out: set<array<Byte>>, ids: Numbers, buf: array<Byte>)
    requires Numbered(all, ids) && buf in all && buf !in out
    ensures FreeOf(all, out + {buf}, ids) == FreeOf(all, out, ids) - {ids[buf]} && ids[buf] in FreeOf(all, out, ids)
  {
  }

  lemma FreeLeft(all: set<array<Byte>>, out: set<array<Byte>>, ids: Numbers)
    requires Numbered(all, ids) && out < all
    ensures exists x :: x in FreeOf(all, out, ids)
  {
    var b :| b in all && b !in out;
    var x := ids[b];
    assert x in FreeOf(all, out, ids);
  }

  /** What the contracts of the file cache say of a call is an effect of that kind. */
  lemma EffectOfCall(before: Look, after: Look, ids: Numbers, base: int, s: F.State, i: F.Inode) returns (t: F.State)
    requires CallStep(before, after) && Shows(s, i, before, ids, base)
    ensures CallEffect(s, i, t) && Shows(t, i, after, ids, base)
    ensures (before.buf != null && after.buf == null ==> t != s) && (after == before ==> t == s)
  {
    var all, was, buf := before.all, before.buf, after.buf;
    var left := before.out - if was == null then {} else {was};
    if was != null {
      FreeAfterDiscard(all, before.out, ids, was);
    } else {
      assert left == before.out;
    }
    assert GivenUp(s, i).free == FreeOf(all, left, ids);
    if buf == was && after.bufType == before.bufType && after.member == before.member {
      assert after.out == before.out;
      t := s;
    } else if buf == null {
      if was == null {
        FreeLeft(all, before.out, ids);
      }
      t := GivenUp(s, i);
    } else {
      FreeAfterAttach(all, left, ids, buf);
      t := Attached(GivenUp(s, i), i, BufferOf(buf, after.bufType, ids));
    }
  }

  lemma CallRuns(before: Look, after: Look, ids: Numbers, base: int, s: F.State, i: F.Inode, lost: bool)
    returns (states: seq<F.State>, actions: seq<F.Action>)
    requires CallStep(before, after) && Shows(s, i, before, ids, base)
    requires lost ==> before.buf != null && before.buf in before.all && before.bufType == WRITE && after.buf == null
    ensures AppRun(states, actions, i) && states[0] == s && Shows(states[|actions|], i, after, ids, base)
    ensures (Loses(actions) <==> lost) && (after == before ==> states[|actions|] == s)
  {
    var t := EffectOfCall(before, after, ids, base, s, i);
    states, actions := CallIsAppRun(s, i, t, lost);
  }

  /** The free buffers are those that are not out. */
  lemma PoolSets(pool: BufferStore)
    requires pool.Valid()
    ensures pool.out <= pool.all && (pool.free != [] ==> pool.out < pool.all)
  {
    if pool.free != [] {
      assert pool.free[0] in pool.all && pool.free[0] !in pool.out;
    }
  }

  /** A buffered write under the lock. */
  method LockedWrite(inode: FhgfsInode, user: UserSource, offset: int, fileInfo: FileInfo,
      ghost ids: Numbers, ghost base: int, ghost s: F.State, ghost i: F.Inode)
    returns (res: int, ghost states: seq<F.State>, ghost actions: seq<F.Action>)
    requires inode.Valid() && fileInfo.Valid() && offset >= -1 && Matches(inode, ids, base, s, i)
    modifies inode, inode.remote, inode.pool, inode.refStore, inode.pool.all, fileInfo`cacheHits
    ensures inode.Valid() && AppRun(states, actions, i) && states[0] == s
    ensures Matches(inode, ids, base, states[|actions|], i) && !Loses(actions)
  {
    ghost var before := LookAt(inode);
    PoolSets(inode.pool);
    res := inode.WriteCached(user, offset, fileInfo);
    PoolSets(inode.pool);
    assert CallStep(before, LookAt(inode));
    states, actions := CallRuns(before, LookAt(inode), ids, base, s, i, false);
  }

  /** A buffered read under the lock. */
  method LockedRead(inode: FhgfsInode, size: nat, writable: nat, offset: nat, fileInfo: FileInfo,
      ghost ids: Numbers, ghost base: int, ghost s: F.State, ghost i: F.Inode)
    returns (res: int, data: seq<Byte>, ghost states: seq<F.State>, ghost actions: seq<F.Action>)
    requires inode.Valid() && fileInfo.Valid() && Matches(inode, ids, base, s, i)
    modifies inode, inode.remote, inode.pool, inode.refStore, inode.pool.all, fileInfo`cacheHits
    ensures inode.Valid() && AppRun(states, actions, i) && states[0] == s
    ensures Matches(inode, ids, base, states[|actions|], i) && !Loses(actions)
  {
    ghost var before := LookAt(inode);
    PoolSets(inode.pool);
    res, data := inode.ReadCached(size, writable, offset, fileInfo);
    PoolSets(inode.pool);
    assert CallStep(before, LookAt(inode));
    states, actions := CallRuns(before, LookAt(inode), ids, base, s, i, false);
  }

  /** A flush by the application under the lock. */
  method LockedFlush(inode: FhgfsInode, discardCacheOnError: bool,
      ghost ids: Numbers, ghost base: int, ghost s: F.State, ghost i: F.Inode)
    returns (err: int, ghost states: seq<F.State>, ghost actions: seq<F.Action>)
    requires inode.Valid() && Matches(inode, ids, base, s, i)
    modifies inode, inode.remote, inode.pool, inode.refStore
    ensures inode.Valid() && AppRun(states, actions, i) && states[0] == s
    ensures Matches(inode, ids, base, states[|actions|], i)
    ensures err == SUCCESS ==> inode.remote.contents == old(inode.Contents())
    // data is lost exactly if a write buffer could not be delivered and is not to be kept
    ensures Loses(actions) <==> err != SUCCESS && discardCacheOnError
    ensures err != SUCCESS ==> s.slots[i].buffer.Write? && (!discardCacheOnError ==> states[|actions|] == s)
  {
    ghost var before := LookAt(inode);
    PoolSets(inode.pool);
    err := inode.FlushCacheUnlocked(discardCacheOnError);
    PoolSets(inode.pool);
    ghost var lost := err != SUCCESS && discardCacheOnError;
    assert CallStep(before, LookAt(inode));
    states, actions := CallRuns(before, LookAt(inode), ids, base, s, i, lost);
  }

  // the flusher's own calls

  /** The state after the flusher has emptied the buffer, and after it has looked the inode up in the store. */
  function Emptied(s: F.State, i: F.Inode, discard: bool): F.State
    requires i in s.slots
  {
    F.SetBuffer(s, i, F.None).(free := s.free + F.BufsOf(s.slots[i].buffer), flusher := F.Dropped(i, discard))
  }

  function Released(s: F.State, i: F.Inode, discard: bool): F.State
    requires i in s.slots
  {
    F.SetLock(F.RemoveAndRelease(Emptied(s, i, discard), i), i, F.Unlocked)
      .(flusher := F.Flushed(i, discard, F.Success))
  }

  ghost predicate FlusherRun(states: seq<F.State>, actions: seq<F.Action>) {
    |states| == |actions| + 1 && forall k :: 0 <= k < |actions| ==> F.FlusherStep(states[k], actions[k], states[k + 1])
  }

  /** What a flush leaves of the buffer, by its result. */
  predicate FlushStep(before: Look, after: Look, err: int, discard: bool) {
    && CallStep(before, after) && (before.buf != null ==> before.buf in before.all)
    && (err != SUCCESS ==> before.buf != null && before.bufType == WRITE)
    && if before.buf == null || (err != SUCCESS && !discard) then after == before
       else after.buf == null && !after.member
  }

  lemma FlushRuns(before: Look, after: Look, err: int, discard: bool, ids: Numbers, base: int, s: F.State, i: F.Inode)
    returns (states: seq<F.State>, actions: seq<F.Action>)
    requires FlushStep(before, after, err, discard) && ShowsBuffer(s, i, before, ids, base)
    requires s.slots[i].lock.LockedByFlusher? && s.flusher == F.Flushing(i, discard)
    ensures FlusherRun(states, actions) && states[0] == s
    ensures FlushShown(states[|actions|], i, after, err, discard, ids, base)
    ensures F.FlushLost in actions <==> err != SUCCESS && discard
  {
    if before.buf == null {
      states := [s, F.SetLock(s, i, F.Unlocked).(flusher := F.Flushed(i, discard, F.Success))];
      actions := [F.FlushNothing];
    } else if err != SUCCESS && !discard {
      var res := F.Failed(err == COMMUNICATION);
      states := [s, F.SetLock(s, i, F.Unlocked).(flusher := F.Flushed(i, discard, res))];
      actions := [F.FlushFailed(err == COMMUNICATION)];
    } else {
      FreeAfterDiscard(before.all, before.out, ids, before.buf);
      states, actions := EmptiedRuns(s, i, discard, if err == SUCCESS then F.FlushDone else F.FlushLost);
    }
  }

  lemma EmptiedRuns(s: F.State, i: F.Inode, discard: bool, a: F.Action)
    returns (states: seq<F.State>, actions: seq<F.Action>)
    requires s.flusher == F.Flushing(i, discard) && i in s.slots && !s.slots[i].buffer.None?
    requires a.FlushDone? || (a.FlushLost? && discard && s.slots[i].buffer.Write?)
    ensures FlusherRun(states, actions) && states[0] == s && states[|actions|] == Released(s, i, discard)
    ensures actions == [a, F.ReleaseFromStore]
  {
    var m, t := Emptied(s, i, discard), Released(s, i, discard);
    states, actions := [s, m, t], [a, F.ReleaseFromStore];
    assert F.FlusherStep(s, a, m) && F.FlusherStep(m, actions[1], t);
  }

  /** After the flush the inode is unlocked, and the flusher knows what the call returned. */
  ghost predicate FlushShown(t: F.State, i: F.Inode, after: Look, err: int, discard: bool, ids: Numbers, base: int) {
    && ShowsBuffer(t, i, after, ids, base) && t.slots[i].lock.Unlocked?
    && t.flusher ==
       F.Flushed(i, discard, if err == SUCCESS || discard then F.Success else F.Failed(err == COMMUNICATION))
  }

  /** A flush by the flusher, which has the lock: its first one, or the final one with discard. */
  method FlusherFlush(inode: FhgfsInode, discard: bool,
      ghost ids: Numbers, ghost base: int, ghost s: F.State, ghost i: F.Inode)
    returns (err: int, ghost states: seq<F.State>, ghost actions: seq<F.Action>)
    requires inode.Valid() && ShowsBuffer(s, i, LookAt(inode), ids, base)
    requires s.slots[i].lock.LockedByFlusher? && s.flusher == F.Flushing(i, discard)
    modifies inode, inode.remote, inode.pool, inode.refStore
    ensures inode.Valid() && FlusherRun(states, actions) && states[0] == s
    ensures FlushShown(states[|actions|], i, LookAt(inode), err, discard, ids, base)
    ensures err == SUCCESS ==> inode.remote.contents == old(inode.Contents())
    ensures err != SUCCESS ==> err == inode.remote.failure
    ensures F.FlushLost in actions <==> err != SUCCESS && discard
  {
    ghost var before := LookAt(inode);
    PoolSets(inode.pool);
    err := inode.FlushCacheUnlocked(discard);
    PoolSets(inode.pool);
    assert FlushStep(before, LookAt(inode), err, discard);
    states, actions := FlushRuns(before, LookAt(inode), err, discard, ids, base, s, i);
  }
}
