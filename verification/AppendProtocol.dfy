/**
 * Appends by any number of clients: each takes the append lock at the metadata server, asks for the file size, writes
 * from there on, and gives the lock back. Every request may fail, also after the server has acted on it.
 */
module AppendProtocol {
  import opened FileBytes
  import opened FileView
  import opened CacheStores

  type Owner = nat // who a lock is granted to

  /** Vectors to be written one behind the other, the first one `gap` bytes behind the end of the file. */
  datatype Request = Request(gap: nat, vectors: seq<seq<Byte>>)

  datatype Phase =
    | Idle
    | Locked(req: Request)
    | Writing(req: Request, size: nat, next: nat, last: int) // last: result of the latest write
    | Unlocking(result: int, newOffset: int)

  datatype Client = Client(phase: Phase, needsLockCleanup: bool)

  /**
   * What one append holder has put at the end of the file; intact as long as none of its writes was short or failed.
   */
  datatype Segment = Segment(owner: Owner, req: Request, bytes: seq<Byte>, intact: bool)

  datatype Holder = Free | HeldBy(owner: Owner)

  datatype State = State(file: File, holder: Holder, clients: map<Owner, Client>, segments: seq<Segment>)

  datatype Action =
    | LockOk(c: Owner, req: Request)
    | LockFails(c: Owner, granted: bool)
    | StatOk(c: Owner)
    | StatFails(c: Owner, res: int)
    | WriteNext(c: Owner, res: int)
    | WritesDone(c: Owner)
    | Unlock(c: Owner, ok: bool, released: bool)
    | Cleanup(c: Owner)

  function Move(s: State, c: Owner, p: Phase): State
    requires c in s.clients
  {
    s.(clients := s.clients[c := s.clients[c].(phase := p)])
  }

  predicate MayLock(s: State, c: Owner) {
    s.holder == Free || s.holder == HeldBy(c)
  }

  /** The last segment after the holder's write left the file as `file`; it starts where the others end. */
  function Extended(s: State, file: File, base: nat, full: bool): seq<Segment>
    requires s.segments != []
  {
    var n := |s.segments| - 1;
    var bytes := if base <= |file| then file[base..] else [];
    s.segments[..n] + [s.segments[n].(bytes := bytes, intact := s.segments[n].intact && full)]
  }

  /** Lock operations and the ends of a request; neither file nor segments change. */
  predicate LockStep(s: State, a: Action, t: State)
    requires a.c in s.clients
  {
    var p := s.clients[a.c].phase;
    match a
    case LockOk(c, req) =>
      p.Idle? && MayLock(s, c) && t == Move(s, c, Locked(req)).(holder := HeldBy(c))
    case LockFails(c, granted) => // the client only knows that it must clean up when the file is closed
      && p.Idle? && (granted ==> MayLock(s, c))
      && t == s.(clients := s.clients[c := Client(Idle, true)], holder := if granted then HeldBy(c) else s.holder)
    case StatFails(c, res) =>
      p.Locked? && res < 0 && t == Move(s, c, Unlocking(res, 0))
    case WritesDone(c) =>
      p.Writing? && p.next == |p.req.vectors| && t == Move(s, c, Unlocking(p.last, p.size))
    case Unlock(c, ok, released) => // a failed request may or may not have released the lock
      && p.Unlocking? && (ok ==> released)
      && t == s.(clients := s.clients[c := Client(Idle, s.clients[c].needsLockCleanup || !ok)],
                 holder := if released then Free else s.holder)
    case Cleanup(c) =>
      && p.Idle? && s.clients[c].needsLockCleanup
      && t == s.(clients := s.clients[c := Client(Idle, false)],
                 holder := if s.holder == HeldBy(c) then Free else s.holder)
    case _ => false
  }

  /** The size is known: a new segment starts at the end of the file. */
  predicate StatStep(s: State, c: Owner, t: State)
    requires c in s.clients
  {
    var p := s.clients[c].phase;
    && p.Locked?
    && t == Move(s, c, Writing(p.req, |s.file| + p.req.gap, 0, 0))
         .(segments := s.segments + [Segment(c, p.req, [], true)])
  }

  /** One remote write, with every outcome it may have. */
  ghost predicate WriteStep(init: File, s: State, c: Owner, res: int, t: State)
    requires c in s.clients
  {
    var p := s.clients[c].phase;
    && p.Writing? && p.next < |p.req.vectors| && s.segments != []
    && var v := p.req.vectors[p.next];
      && StoredAt(s.file, t.file, p.size, v, res)
      && t == Move(s, c, if res < 0 then Unlocking(res, p.size) else Writing(p.req, p.size + res, p.next + 1, res))
           .(file := t.file, segments := Extended(s, t.file, Base(init, s), res == |v|))
  }

  ghost predicate Step(init: File, s: State, a: Action, t: State) {
    && a.c in s.clients
    && match a
       case StatOk(c) => StatStep(s, c, t)
       case WriteNext(c, res) => WriteStep(init, s, c, res, t)
       case _ => LockStep(s, a, t)
  }

  function Joined(segments: seq<Segment>): seq<Byte> {
    if segments == [] then [] else Joined(segments[..|segments| - 1]) + segments[|segments| - 1].bytes
  }

  function Concat(vectors: seq<seq<Byte>>): seq<Byte> {
    if vectors == [] then [] else Concat(vectors[..|vectors| - 1]) + vectors[|vectors| - 1]
  }

  /**
   * What complete writes of the data leave at the end of the file: the gap becomes a hole unless nothing was written.
   */
  function Placed(gap: nat, data: seq<Byte>): seq<Byte> {
    if data == [] then [] else Zeros(gap) + data
  }

  predicate InAppend(s: State, c: Owner) {
    c in s.clients && !s.clients[c].phase.Idle?
  }

  predicate IsWriting(s: State, c: Owner) {
    c in s.clients && s.clients[c].phase.Writing?
  }

  /** Where the last segment starts. */
  function Base(init: File, s: State): nat {
    |init| + if s.segments == [] then 0 else |Joined(s.segments[..|s.segments| - 1])|
  }

  /** Whoever is past the lock request holds the lock. */
  predicate LockHeld(s: State) {
    forall c <- s.clients :: InAppend(s, c) ==> s.holder == HeldBy(c)
  }

  predicate SegmentDone(g: Segment) {
    g.intact ==> g.bytes == Placed(g.req.gap, Concat(g.req.vectors))
  }

  /** The writing client owns the last segment and knows how far it has got. */
  predicate WriterAtEnd(init: File, s: State, c: Owner)
    requires IsWriting(s, c)
  {
    var p := s.clients[c].phase;
    && s.segments != [] && p.next <= |p.req.vectors|
    && var g := s.segments[|s.segments| - 1];
      && g.owner == c && g.req == p.req && Base(init, s) + p.req.gap <= p.size
      && (g.intact ==> g.bytes == Placed(p.req.gap, Concat(p.req.vectors[..p.next])))
      && (g.intact ==> p.size == Base(init, s) + p.req.gap + |Concat(p.req.vectors[..p.next])|)
      && (p.next == 0 ==> g.intact)
      && (g.intact && p.next > 0 ==> p.last == |p.req.vectors[p.next - 1]|)
      && (p.next == 1 ==> (g.intact <==> p.last == |p.req.vectors[0]|))
  }

  predicate Inv(init: File, s: State) {
    && LockHeld(s)
    && s.file == init + Joined(s.segments)
    && (forall c <- s.clients :: IsWriting(s, c) ==> WriterAtEnd(init, s, c))
    && (forall k :: 0 <= k < |s.segments| - 1 ==> SegmentDone(s.segments[k]))
    && (s.segments != [] && !SegmentDone(s.segments[|s.segments| - 1]) ==>
          IsWriting(s, s.segments[|s.segments| - 1].owner))
  }

  lemma JoinedSnoc(segments: seq<Segment>, g: Segment)
    ensures Joined(segments + [g]) == Joined(segments) + g.bytes
  {
  }

  /** A write from the end of the file on leaves everything before that end alone. */
  lemma WriteKeepsPrefix(f: File, g: File, base: nat, off: nat, v: seq<Byte>, res: int)
    requires base <= off && base <= |f| && StoredAt(f, g, off, v, res)
    ensures base <= |g| && g[..base] == f[..base]
  {
  }

  lemma WrittenCompletely(f: File, g: File, off: nat, v: seq<Byte>)
    requires StoredAt(f, g, off, v, |v|)
    ensures g == Splice(f, off, v)
  {
    assert v[..|v|] == v;
  }

  lemma PlacedAt(gap: nat, data: seq<Byte>, i: nat)
    requires data != []
    ensures |Placed(gap, data)| == gap + |data|
    ensures i < gap + |data| ==> Placed(gap, data)[i] == if i < gap then 0 else data[i - gap]
  {
  }

  /** The byte at i, with the gap filled by the write or before it. */
  lemma PlacedByte(prefix: File, gap: nat, data: seq<Byte>, v: seq<Byte>, i: nat)
    requires v != [] && i < |prefix| + gap + |data| + |v|
    ensures var f := prefix + Placed(gap, data);
      |f| <= |prefix| + gap + |data| && (prefix + Placed(gap, data + v))[i] ==
      if i < |prefix| + gap + |data| then ByteAt(f, i) else v[i - |prefix| - gap - |data|]
  {
    PlacedAt(gap, data + v, if i < |prefix| then 0 else i - |prefix|);
    if data != [] {
      PlacedAt(gap, data, if i < |prefix| then 0 else i - |prefix|);
    }
  }

  lemma PlacedFurther(g: File, prefix: File, gap: nat, data: seq<Byte>, v: seq<Byte>)
    requires v != [] && g == Splice(prefix + Placed(gap, data), |prefix| + gap + |data|, v)
    ensures g == prefix + Placed(gap, data + v)
  {
    PlacedAt(gap, data + v, 0);
    var want := prefix + Placed(gap, data + v);
    forall i | 0 <= i < |want| ensures |g| == |want| && g[i] == want[i] {
      PlacedByte(prefix, gap, data, v, i);
    }
  }

  lemma NothingFurther(data: seq<Byte>, v: seq<Byte>, all: seq<Byte>)
    requires v == [] && all == data + v
    ensures all == data
  {
  }

  /** A complete write behind the data placed so far places the longer data. */
  lemma CompleteWrite(f: File, g: File, prefix: File, gap: nat, data: seq<Byte>, v: seq<Byte>)
    requires f == prefix + Placed(gap, data) && StoredAt(f, g, |prefix| + gap + |data|, v, |v|)
    ensures g == prefix + Placed(gap, data + v)
  {
    WrittenCompletely(f, g, |prefix| + gap + |data|, v);
    if v == [] {
      NothingFurther(data, v, data + v);
    } else {
      PlacedFurther(g, prefix, gap, data, v);
    }
  }

  /** Without a change of file and segments only the clients matter. */
  lemma SameSegmentsKeepInv(init: File, s: State, t: State)
    requires Inv(init, s) && t.segments == s.segments && t.file == s.file && LockHeld(t)
    requires forall c <- t.clients :: IsWriting(t, c) ==> IsWriting(s, c) && t.clients[c].phase == s.clients[c].phase
    requires s.segments != [] && !SegmentDone(s.segments[|s.segments| - 1]) ==>
      IsWriting(t, s.segments[|s.segments| - 1].owner)
    ensures Inv(init, t)
  {
    forall c | c in t.clients && IsWriting(t, c) ensures WriterAtEnd(init, t, c) {
      assert WriterAtEnd(init, s, c);
    }
  }

  lemma LockStepKeepsInv(init: File, s: State, a: Action, t: State)
    requires Inv(init, s) && a.c in s.clients && LockStep(s, a, t)
    ensures Inv(init, t)
  {
    assert forall c <- t.clients :: c != a.c ==> t.clients[c] == s.clients[c];
    assert InAppend(s, a.c) ==> s.holder == HeldBy(a.c);
    if a.WritesDone? {
      var p := s.clients[a.c].phase;
      assert IsWriting(s, a.c) && WriterAtEnd(init, s, a.c);
      assert p.req.vectors[..p.next] == p.req.vectors;
    }
    assert LockHeld(t);
    SameSegmentsKeepInv(init, s, t);
  }

  lemma StatKeepsInv(init: File, s: State, c: Owner, t: State)
    requires Inv(init, s) && c in s.clients && StatStep(s, c, t)
    ensures Inv(init, t)
  {
    var g := t.segments[|t.segments| - 1];
    JoinedSnoc(s.segments, g);
    assert t.segments[..|s.segments|] == s.segments;
    assert InAppend(s, c) && forall d <- s.clients :: IsWriting(s, d) ==> InAppend(s, d);
    assert forall d <- t.clients :: IsWriting(t, d) ==> d == c;
    var p := t.clients[c].phase;
    assert p.req.vectors[..0] == [];
    if s.segments != [] {
      assert SegmentDone(s.segments[|s.segments| - 1]);
    }
  }

  /** The holder's write leaves the earlier segments alone, and extends its own by the vector if nothing went wrong. */
  lemma WriteGrows(
    f: File, g: File, before: File, bytes: seq<Byte>, off: nat, v: seq<Byte>, res: int, gap: nat, data: seq<Byte>)
    requires f == before + bytes && |before| <= off && StoredAt(f, g, off, v, res)
    ensures |before| <= |g| && g == before + g[|before|..]
    ensures bytes == Placed(gap, data) && off == |before| + gap + |data| && res == |v| ==>
      g[|before|..] == Placed(gap, data + v)
  {
    WriteKeepsPrefix(f, g, |before|, off, v, res);
    assert f[..|before|] == before;
    if bytes == Placed(gap, data) && off == |before| + gap + |data| && res == |v| {
      CompleteWrite(f, g, before, gap, data, v);
    }
  }

  /** What the write did to file and segments. */
  lemma WriteKeepsFile(init: File, s: State, c: Owner, res: int, t: State)
    requires Inv(init, s) && c in s.clients && WriteStep(init, s, c, res, t)
    ensures |t.segments| == |s.segments| && Base(init, t) == Base(init, s) && t.file == init + Joined(t.segments)
    ensures var p, g, h := s.clients[c].phase, s.segments[|s.segments| - 1], t.segments[|s.segments| - 1];
      && WriterAtEnd(init, s, c)
      && h == Segment(c, p.req, h.bytes, g.intact && res == |p.req.vectors[p.next]|)
      && (h.intact ==> h.bytes == Placed(p.req.gap, Concat(p.req.vectors[..p.next]) + p.req.vectors[p.next]))
  {
    var n := |s.segments| - 1;
    var p, g := s.clients[c].phase, s.segments[n];
    assert IsWriting(s, c) && WriterAtEnd(init, s, c);
    var before := init + Joined(s.segments[..n]);
    assert s.file == before + g.bytes;
    WriteGrows(s.file, t.file, before, g.bytes, p.size, p.req.vectors[p.next], res,
      p.req.gap, Concat(p.req.vectors[..p.next]));
    assert t.segments[..n] == s.segments[..n];
    JoinedSnoc(s.segments[..n], t.segments[n]);
  }

  lemma WriteKeepsInv(init: File, s: State, c: Owner, res: int, t: State)
    requires Inv(init, s) && c in s.clients && WriteStep(init, s, c, res, t)
    ensures Inv(init, t)
  {
    var p := s.clients[c].phase;
    WriteKeepsFile(init, s, c, res, t);
    WriteKeepsOthers(init, s, c, res, t);
    assert p.req.vectors[..p.next + 1][..p.next] == p.req.vectors[..p.next];
    assert Concat(p.req.vectors[..p.next + 1]) == Concat(p.req.vectors[..p.next]) + p.req.vectors[p.next];
  }

  lemma WriteKeepsOthers(init: File, s: State, c: Owner, res: int, t: State)
    requires Inv(init, s) && c in s.clients && WriteStep(init, s, c, res, t)
    ensures LockHeld(t) && forall d <- t.clients :: IsWriting(t, d) ==> d == c
    ensures forall k :: 0 <= k < |t.segments| - 1 ==> SegmentDone(t.segments[k])
  {
  }

  ghost predicate Run(init: File, states: seq<State>, actions: seq<Action>) {
    && |states| == |actions| + 1
    && states[0].file == init && states[0].holder == Free && states[0].segments == []
    && (forall c <- states[0].clients :: states[0].clients[c] == Client(Idle, false))
    && forall k :: 0 <= k < |actions| ==> Step(init, states[k], actions[k], states[k + 1])
  }

  /**
   * In every state of every run the file is the initial content followed by what each holder of the lock appended, in
   * the order in which they got the lock; a finished append without a short or failed write is exactly its data.
   */
  lemma {:induction false} FileIsAppendsInLockOrder(init: File, states: seq<State>, actions: seq<Action>, k: nat)
    requires Run(init, states, actions) && k <= |actions|
    ensures Inv(init, states[k])
  {
    if k > 0 {
      FileIsAppendsInLockOrder(init, states, actions, k - 1);
      var s, a, t := states[k - 1], actions[k - 1], states[k];
      if a.StatOk? {
        StatKeepsInv(init, s, a.c, t);
      } else if a.WriteNext? {
        WriteKeepsInv(init, s, a.c, a.res, t);
      } else {
        LockStepKeepsInv(init, s, a, t);
      }
    }
  }

  /** A one-vector append that reports its full length put its data, behind the gap, at the end of the file it found. */
  lemma SingleAppendPlacesItsData(init: File, states: seq<State>, actions: seq<Action>, k: nat, c: Owner, v: seq<Byte>)
    requires Run(init, states, actions) && k < |actions| && actions[k] == WritesDone(c)
    requires Step(init, states[k], actions[k], states[k + 1])
    requires states[k].clients[c].phase.req.vectors == [v] && v != []
    requires states[k + 1].clients[c].phase.result == |v|
    ensures var s := states[k + 1];
      && s.segments != [] && s.clients[c].phase.newOffset == |s.file|
      && var g := s.segments[|s.segments| - 1];
        g.owner == c && g.intact && g.bytes == Zeros(g.req.gap) + v
  {
    FileIsAppendsInLockOrder(init, states, actions, k);
    var s := states[k];
    var p := s.clients[c].phase;
    assert IsWriting(s, c) && WriterAtEnd(init, s, c);
    assert p.req.vectors[..p.next] == [v] && [v][..0] == [] && Concat([v]) == v;
    JoinedSnoc(s.segments[..|s.segments| - 1], s.segments[|s.segments| - 1]);
    assert s.segments == s.segments[..|s.segments| - 1] + [s.segments[|s.segments| - 1]];
  }

  /** An append that reports no error has written all its vectors behind its gap; the result is the last one's count. */
  predicate Reported(init: File, s: State, c: Owner, result: int, newOffset: int) {
    && s.segments != []
    && var g := s.segments[|s.segments| - 1];
      && g.owner == c
      && (g.intact ==>
        && newOffset == Base(init, s) + g.req.gap + |Concat(g.req.vectors)|
        && (g.req.vectors != [] ==> result == |g.req.vectors[|g.req.vectors| - 1]|))
  }

  /** Whatever fails on the way, a result that is no error says so, until the lock has been given back. */
  lemma {:induction false} SuccessMeansWritten(init: File, states: seq<State>, actions: seq<Action>, k: nat, c: Owner)
    requires Run(init, states, actions) && k <= |actions| && c in states[k].clients
    requires states[k].clients[c].phase.Unlocking? && states[k].clients[c].phase.result >= 0
    ensures Reported(init, states[k], c, states[k].clients[c].phase.result, states[k].clients[c].phase.newOffset)
  {
    var s, a, t := states[k - 1], actions[k - 1], states[k];
    assert Step(init, s, a, t);
    FileIsAppendsInLockOrder(init, states, actions, k - 1);
    if a.WritesDone? && a.c == c {
      WrittenAll(init, s, c, t);
    } else {
      OthersStill(init, s, a, t, c);
      SuccessMeansWritten(init, states, actions, k - 1, c);
    }
  }

  lemma WrittenAll(init: File, s: State, c: Owner, t: State)
    requires Inv(init, s) && c in s.clients && LockStep(s, WritesDone(c), t)
    requires s.clients[c].phase.last >= 0
    ensures Reported(init, t, c, s.clients[c].phase.last, s.clients[c].phase.size)
  {
    var p := s.clients[c].phase;
    assert IsWriting(s, c) && WriterAtEnd(init, s, c);
    assert p.req.vectors[..p.next] == p.req.vectors;
  }

  /** While one client gives the lock back nobody else writes. */
  lemma OthersStill(init: File, s: State, a: Action, t: State, c: Owner)
    requires Inv(init, s) && Step(init, s, a, t) && c in t.clients && !(a.WritesDone? && a.c == c)
    requires t.clients[c].phase.Unlocking? && t.clients[c].phase.result >= 0
    ensures c in s.clients && s.clients[c].phase == t.clients[c].phase && t.segments == s.segments
  {
    assert InAppend(s, c) ==> s.holder == HeldBy(c);
    assert InAppend(s, a.c) ==> s.holder == HeldBy(a.c);
  }

  /** The lock is held by a client in an append, or by one that has to clean up after a failed request. */
  ghost predicate LockAccounted(s: State) {
    s.holder.HeldBy? ==>
      var c := s.holder.owner; c in s.clients && (InAppend(s, c) || s.clients[c].needsLockCleanup)
  }

  /** So nobody keeps the lock unknowingly: once its holder has ended and cleaned up, everybody may lock. */
  lemma {:induction false} NobodyKeepsTheLock(init: File, states: seq<State>, actions: seq<Action>, k: nat)
    requires Run(init, states, actions) && k <= |actions|
    ensures LockAccounted(states[k])
    ensures forall c <- states[k].clients ::
      states[k].clients[c] == Client(Idle, false) && MayLock(states[k], c) ==> states[k].holder == Free
  {
    if k > 0 {
      NobodyKeepsTheLock(init, states, actions, k - 1);
      assert Step(init, states[k - 1], actions[k - 1], states[k]);
    }
  }

  /** Nobody else writes or learns a size while a client does. */
  lemma OneWriterAtATime(init: File, states: seq<State>, actions: seq<Action>, k: nat, c: Owner, d: Owner)
    requires Run(init, states, actions) && k <= |actions| && InAppend(states[k], c) && InAppend(states[k], d)
    ensures c == d
  {
    FileIsAppendsInLockOrder(init, states, actions, k);
  }

  /** One write of the loop below; `initial` is what the file held at the stat, `data` what has been appended since. */
  method WriteBehind(remote: RemoteFile, v: seq<Byte>, size: nat, ghost initial: File, ghost gap: nat,
      ghost data: seq<Byte>)
    returns (res: int)
    requires initial <= remote.contents && |initial| + gap <= size
    modifies remote
    ensures initial <= remote.contents && res <= |v| && (res == 0 <==> v == [])
    ensures old(remote.contents) == initial + Placed(gap, data) && size == |initial| + gap + |data| && res == |v| ==>
      remote.contents == initial + Placed(gap, data + v)
  {
    ghost var f, bytes := remote.contents, remote.contents[|initial|..];
    res := remote.WriteFile(v, size);
    WriteGrows(f, remote.contents, initial, bytes, size, v, res, gap, data);
  }

  predicate AllButLastEmpty(vectors: seq<seq<Byte>>) {
    forall k :: 0 <= k < |vectors| - 1 ==> vectors[k] == []
  }

  /**
   * The write loop of one append, while the lock is held: each vector goes where the previous result says the file
   * ends.
   */
  method AppendVectors(remote: RemoteFile, vectors: seq<seq<Byte>>, gap: nat)
    returns (writeRes: int, newOffset: nat, ghost intact: bool)
    modifies remote
    ensures old(remote.contents) <= remote.contents
    ensures intact ==>
      && remote.contents == old(remote.contents) + Placed(gap, Concat(vectors))
      && newOffset == |old(remote.contents)| + gap + |Concat(vectors)|
      && writeRes == if vectors == [] then 0 else |vectors[|vectors| - 1]| // the last vector's count, not the total
    ensures writeRes < 0 ==> !intact
    ensures |vectors| == 1 ==> (intact <==> writeRes == |vectors[0]|)
    // the result is the number of bytes written exactly if only the last vector holds any
    ensures writeRes >= 0 ==> (writeRes == newOffset - (|old(remote.contents)| + gap) <==> AllButLastEmpty(vectors))
  {
    var size := |remote.contents| + gap;
    ghost var initial := remote.contents;
    writeRes, intact := 0, true;
    var i := 0;
    assert vectors[..0] == [];
    while i < |vectors|
      invariant i <= |vectors| && |initial| + gap <= size && initial <= remote.contents
      invariant intact ==> remote.contents == initial + Placed(gap, Concat(vectors[..i]))
      invariant intact ==> size == |initial| + gap + |Concat(vectors[..i])|
      invariant writeRes >= 0 && (i == 0 ==> intact && writeRes == 0)
      invariant i > 0 && intact ==> writeRes == |vectors[i - 1]|
      invariant i == 1 && writeRes == |vectors[0]| ==> intact
      invariant writeRes == size - (|initial| + gap) <==> AllButLastEmpty(vectors[..i])
      invariant size == |initial| + gap <==> forall k :: 0 <= k < i ==> vectors[k] == []
    {
      assert AllButLastEmpty(vectors[..i + 1]) <==> forall k :: 0 <= k < i ==> vectors[k] == [];
      writeRes := WriteBehind(remote, vectors[i], size, initial, gap, Concat(vectors[..i]));
      if writeRes < 0 {
        intact := false;
        break;
      }
      assert vectors[..i + 1][..i] == vectors[..i];
      intact := intact && writeRes == |vectors[i]|;
      size := size + writeRes;
      i := i + 1;
    }
    newOffset := size;
    assert intact ==> vectors[..i] == vectors;
  }

  /** After a short first write the second vector still reports its full length, but a byte is missing in between. */
  lemma LastCountHidesShortWrite()
    ensures StoredAt([], [1], 0, [1, 2], 1) && StoredAt([1], [1, 3], 1, [3], 1)
    ensures [1, 3] != Placed(0, Concat([[1, 2], [3]]))
  {
  }
}
