/** The queue of acknowledgments to metadata servers. Other threads may append whenever a message is being sent. */
module AckManager {
  import opened Queues

  type NodeId = nat

  /** Why an entry was freed. */
  datatype Fate =
    | NoNode
    | NotSerializable
    | Delivered
    | SendFailed
    | DroppedWith(failed: nat) // sending the entry `failed`, to the same node, had failed

  const MAX_NUM_COMM_RETRIES := 1

  /** One send with the mutex dropped: its outcome, and the acks that other threads enqueued meanwhile. */
  datatype Send = Send(ok: bool, arrivals: seq<NodeId>)

  /** As many sends as one ack may need. */
  type Sends = s: seq<Send> | |s| == MAX_NUM_COMM_RETRIES + 1 witness [Send(true, []), Send(true, [])]

  /** What one iteration of the loop meets. */
  datatype Turn = Turn(nodeKnown: bool, serializable: bool, sends: Sends)

  /** Both sends of the turn fail. */
  predicate BothFail(sends: Sends) {
    forall s <- sends :: !s.ok
  }

  /** What the turn means for the entry that is first in the queue. */
  function FateOf(turn: Turn): Fate {
    if !turn.nodeKnown then NoNode
    else if !turn.serializable then NotSerializable
    else if BothFail(turn.sends) then SendFailed else Delivered
  }

  /** What other threads enqueue during a turn: a second send, and what arrives with it, comes after a failed one. */
  function ArrivalsOf(sends: Sends): seq<NodeId> {
    sends[0].arrivals + if sends[0].ok then [] else sends[1].arrivals
  }

  function Outcomes(sends: seq<Send>): (r: seq<bool>)
    ensures |r| == |sends| && forall k :: 0 <= k < |r| ==> r[k] == sends[k].ok
  {
    seq(|sends|, k requires 0 <= k < |sends| => sends[k].ok)
  }

  lemma BothSends(sends: Sends)
    ensures Outcomes(sends[..1]) == [sends[0].ok] && Outcomes(sends[..2]) == [sends[0].ok, sends[1].ok]
    ensures ArrivalsOf(sends) == Arrived(sends, if sends[0].ok then 1 else 2)
  {
    assert Arrived(sends, 1) == sends[0].arrivals;
  }

  /** The outcomes of these sends are those of entry `id`, if there are any. */
  function WithOutcomes(tries: map<nat, seq<bool>>, id: nat, sends: seq<Send>): map<nat, seq<bool>> {
    if sends == [] then tries else tries[id := Outcomes(sends)]
  }

  function TurnArrivals(turn: Turn): seq<NodeId> {
    if turn.nodeKnown && turn.serializable then ArrivalsOf(turn.sends) else []
  }

  /** What other threads enqueue during the first n turns. */
  function ArrivedInTurns(turns: seq<Turn>, n: nat): seq<NodeId>
    requires n <= |turns|
  {
    if n == 0 then [] else ArrivedInTurns(turns, n - 1) + TurnArrivals(turns[n - 1])
  }

  /** `all` is what was there first, and what other threads enqueue in the first n turns. */
  predicate ArrivedBehind(first: seq<NodeId>, all: seq<NodeId>, turns: seq<Turn>, n: nat) {
    n <= |turns| && all == first + ArrivedInTurns(turns, n)
  }

  lemma OneMoreTurn(turns: seq<Turn>, n: nat, first: seq<NodeId>, before: seq<NodeId>, after: seq<NodeId>)
    requires n < |turns| && ArrivedBehind(first, before, turns, n) && after == before + TurnArrivals(turns[n])
    ensures ArrivedBehind(first, after, turns, n + 1)
  {
  }

  /** What has arrived during the first n sends. */
  function Arrived(sends: seq<Send>, n: nat): seq<NodeId>
    requires n <= |sends|
  {
    if n == 0 then [] else Arrived(sends, n - 1) + sends[n - 1].arrivals
  }

  lemma OneMoreSend(sends: seq<Send>, n: nat, first: seq<NodeId>, before: seq<NodeId>, after: seq<NodeId>)
    requires n < |sends| && before == first + Arrived(sends, n) && after == before + sends[n].arrivals
    ensures after == first + Arrived(sends, n + 1)
  {
  }

  /** The fate of entry `id` fits what was tried for it and for the others. */
  predicate Justified(added: seq<Entry<NodeId>>, fate: Fate, tries: map<nat, seq<bool>>, id: nat)
    requires id < |added|
  {
    match fate
    case Delivered => id in tries && (tries[id] == [true] || tries[id] == [false, true])
    case SendFailed => id in tries && tries[id] == [false, false]
    case DroppedWith(f) =>
      id !in tries && f < id && f in tries && tries[f] == [false, false] && added[f].item == added[id].item
    case _ => id !in tries
  }

  class AckManager {
    var ackQueue: seq<Entry<NodeId>>
    var nextId: nat
    ghost var added: seq<Entry<NodeId>> // everything ever enqueued
    ghost var fates: map<nat, Fate> // of the freed entries
    ghost var tries: map<nat, seq<bool>> // outcomes of the sends of each entry

    /** `current` is the entry being processed; -1 if there is none. */
    ghost predicate Inv(current: int)
      reads this
    {
      && nextId == |added| && Numbered(added)
      && ackQueue == Survivors(added, fates.Keys)
      && (forall id <- fates :: id < |added| && Justified(added, fates[id], tries, id))
      && (forall id <- tries :: id in fates || id == current)
    }

    ghost predicate Valid()
      reads this
    {
      Inv(-1)
    }

    constructor ()
      ensures Valid() && ackQueue == [] && added == []
    {
      ackQueue, nextId, added, fates, tries := [], 0, [], map[], map[];
    }

    method AddAckToQueue(metaNodeID: NodeId, ghost current: int)
      requires Inv(current) && current < |added|
      modifies this
      ensures Inv(current) && fates == old(fates) && tries == old(tries)
      ensures added == old(added) + [Entry(|old(added)|, metaNodeID)]
      ensures ackQueue == old(ackQueue) + [added[|added| - 1]]
    {
      var newEntry := Entry(nextId, metaNodeID);
      SurvivorsOfAppend(added, fates.Keys, newEntry);
      ackQueue := ackQueue + [newEntry];
      nextId := nextId + 1;
      added := added + [newEntry];
    }

    /** Frees the entry at position k and unlinks it; no entry is freed twice. */
    method FreeAndRemove(k: nat, ghost fate: Fate, ghost current: int)
      requires Inv(current) && k < |ackQueue|
      modifies this`ackQueue, this`fates
      ensures ackQueue == old(ackQueue[..k] + ackQueue[k + 1..])
      ensures old(ackQueue)[k].id !in old(fates) && fates == old(fates)[old(ackQueue)[k].id := fate]
      ensures ackQueue == Survivors(added, fates.Keys)
    {
      InOrder(added, fates.Keys, ackQueue, k);
      FreeAt(added, fates.Keys, k);
      fates := fates[ackQueue[k].id := fate];
      assert fates.Keys == old(fates.Keys) + {old(ackQueue)[k].id};
      ackQueue := ackQueue[..k] + ackQueue[k + 1..];
    }

    /**
     * Sends one ack, at most twice, with the mutex dropped around each send; true if the last send failed too. The
     * entry being processed stays where it is.
     */
    method SendWithRetry(sends: Sends, ghost current: nat) returns (failed: bool)
      requires Inv(current) && current < |added| && current !in fates && current !in tries
      modifies this
      ensures Inv(current) && fates == old(fates) && old(added) <= added && old(ackQueue) <= ackQueue
      ensures failed <==> !sends[0].ok && !sends[1].ok
      // a send that succeeds is the last one
      ensures tries == old(tries)[current := if sends[0].ok then [true] else [false, sends[1].ok]]
      ensures Items(added) == old(Items(added)) + ArrivalsOf(sends)
    {
      var currentRetryNum := 0;
      failed := false;
      BothSends(sends);
      while currentRetryNum <= MAX_NUM_COMM_RETRIES
        invariant 0 <= currentRetryNum <= MAX_NUM_COMM_RETRIES + 1
        invariant Inv(current) && fates == old(fates) && old(added) <= added && old(ackQueue) <= ackQueue
        invariant forall k :: 0 <= k < currentRetryNum ==> !sends[k].ok
        invariant failed <==> currentRetryNum > 0
        invariant tries == WithOutcomes(old(tries), current, sends[..currentRetryNum])
        invariant Items(added) == old(Items(added)) + Arrived(sends, currentRetryNum)
      {
        SendOnce(sends, currentRetryNum, old(tries), old(Items(added)), current);
        if sends[currentRetryNum].ok {
          failed := false;
          break;
        }
        failed := true;
        currentRetryNum := currentRetryNum + 1;
      }
    }

    /** One send. */
    method SendOnce(sends: seq<Send>, n: nat, ghost before: map<nat, seq<bool>>, ghost items: seq<NodeId>,
        ghost current: nat)
      requires Inv(current) && current < |added| && current !in fates && current !in before
      requires n < |sends| == MAX_NUM_COMM_RETRIES + 1
      requires tries == WithOutcomes(before, current, sends[..n]) && Items(added) == items + Arrived(sends, n)
      modifies this
      ensures Inv(current) && fates == old(fates) && old(added) <= added && old(ackQueue) <= ackQueue
      ensures tries == WithOutcomes(before, current, sends[..n + 1]) && Items(added) == items + Arrived(sends, n + 1)
    {
      Arrive(sends[n].arrivals, current);
      Tried(current, Outcomes(sends[..n + 1]));
      OneMoreSend(sends, n, items, old(Items(added)), Items(added));
    }

    /** Other threads enqueue acks while the mutex is free. */
    method Arrive(nodes: seq<NodeId>, ghost current: int)
      requires Inv(current) && current < |added|
      modifies this
      ensures Inv(current) && fates == old(fates) && tries == old(tries)
      ensures old(added) <= added && old(ackQueue) <= ackQueue && Items(added) == old(Items(added)) + nodes
    {
      var k := 0;
      while k < |nodes|
        invariant k <= |nodes| && Inv(current) && fates == old(fates) && tries == old(tries) && current < |added|
        invariant old(added) <= added && old(ackQueue) <= ackQueue && Items(added) == old(Items(added)) + nodes[..k]
      {
        AddAckToQueue(nodes[k], current);
        k := k + 1;
      }
    }

    ghost method Tried(current: nat, outcomes: seq<bool>)
      requires Inv(current) && current !in fates && (current in tries ==> |tries[current]| < |outcomes|)
      requires |outcomes| <= MAX_NUM_COMM_RETRIES + 1
      modifies this`tries
      ensures Inv(current) && tries == old(tries)[current := outcomes]
    {
      tries := tries[current := outcomes];
    }

    /** Frees all entries for a node from position `from` on, for an entry of that node whose sends failed. */
    method RemoveQueueEntriesByNode(nodeID: NodeId, from: nat, ghost failed: nat)
      requires Inv(failed) && from <= |ackQueue| && failed < |added| && failed !in fates && added[failed].item == nodeID
      requires failed in tries && tries[failed] == [false, false]
      requires forall k :: from <= k < |ackQueue| ==> failed < ackQueue[k].id
      modifies this`ackQueue, this`fates
      ensures Inv(failed) && failed !in fates && OnlyDropped(old(fates), fates, failed)
      ensures from <= |ackQueue| && ackQueue[..from] == old(ackQueue[..from])
      ensures forall k :: from <= k < |ackQueue| ==> ackQueue[k].item != nodeID
    {
      var i := from;
      while i < |ackQueue|
        invariant from <= i <= |ackQueue| && Inv(failed) && failed !in fates && OnlyDropped(old(fates), fates, failed)
        invariant ackQueue[..from] == old(ackQueue[..from])
        invariant forall k :: from <= k < i ==> ackQueue[k].item != nodeID
        invariant forall k :: from <= k < |ackQueue| ==> failed < ackQueue[k].id
        decreases |ackQueue| - i
      {
        if ackQueue[i].item == nodeID {
          Drop(i, failed);
        } else {
          i := i + 1;
        }
      }
    }

    method Drop(i: nat, ghost failed: nat)
      requires Inv(failed) && i < |ackQueue| && failed < |added| && failed !in fates && failed < ackQueue[i].id
      requires failed in tries && tries[failed] == [false, false] && ackQueue[i].item == added[failed].item
      modifies this`ackQueue, this`fates
      ensures Inv(failed) && failed !in fates && ackQueue == old(ackQueue[..i] + ackQueue[i + 1..])
      ensures OnlyDropped(old(fates), fates, failed)
    {
      InOrder(added, fates.Keys, ackQueue, i);
      FreeAndRemove(i, DroppedWith(failed), failed);
    }

    /** Sends the ack at the head of the queue; if that fails for good the later entries of its node go too. */
    method SendOrDrop(sends: Sends) returns (removeAllNextByNode: bool)
      requires Valid() && ackQueue != []
      modifies this
      ensures var current := old(ackQueue)[0];
        && Inv(current.id) && old(added) <= added && current.id < |added| && current.id !in fates
        && ackQueue != [] && ackQueue[0] == current
        && Justified(added, if removeAllNextByNode then SendFailed else Delivered, tries, current.id)
        && (removeAllNextByNode <==> BothFail(sends)) && Items(added) == old(Items(added)) + ArrivalsOf(sends)
        && OnlyDropped(old(fates), fates, current.id)
        && (if removeAllNextByNode then forall k :: 1 <= k < |ackQueue| ==>
             ackQueue[k].item != current.item else fates == old(fates))
    {
      InOrder(added, fates.Keys, ackQueue, 0);
      var currentAck := ackQueue[0];
      removeAllNextByNode := SendWithRetry(sends, currentAck.id);
      if removeAllNextByNode {
        InOrder(added, fates.Keys, ackQueue, 0);
        RemoveQueueEntriesByNode(currentAck.item, 1, currentAck.id);
      }
    }

    /**
     * One iteration: the first entry leaves the queue, whatever happens, and others only if its node cannot be reached.
     */
    method ProcessFirst(turn: Turn)
      requires Valid() && ackQueue != []
      modifies this
      ensures Valid() && old(added) <= added
      ensures var current := old(ackQueue)[0];
        && OnlyDropped(old(fates)[current.id := FateOf(turn)], fates, current.id)
        && if FateOf(turn) == SendFailed then forall k :: 0 <= k < |ackQueue| ==> ackQueue[k].item != current.item
           else fates == old(fates)[current.id := FateOf(turn)]
      ensures Items(added) == old(Items(added)) + TurnArrivals(turn)
    {
      InOrder(added, fates.Keys, ackQueue, 0);
      ghost var fate := if turn.nodeKnown then NotSerializable else NoNode;
      if turn.nodeKnown && turn.serializable {
        var removeAllNextByNode := SendOrDrop(turn.sends);
        fate := if removeAllNextByNode then SendFailed else Delivered;
      }
      EndTurn(fate, ackQueue[0], old(fates));
    }

    /** The first entry has been processed and is freed; others may have been dropped because of it. */
    method EndTurn(ghost fate: Fate, ghost current: Entry<NodeId>, ghost before: map<nat, Fate>)
      requires Inv(current.id) && ackQueue != [] && ackQueue[0] == current && current.id < |added|
      requires Justified(added, fate, tries, current.id) && OnlyDropped(before, fates, current.id)
      modifies this`ackQueue, this`fates
      ensures Valid() && ackQueue == old(ackQueue)[1..] && fates == old(fates)[current.id := fate]
      ensures OnlyDropped(before[current.id := fate], fates, current.id)
    {
      FreeAndRemove(0, fate, current.id);
    }

    /** One more turn of a pass. */
    method TakeTurn(turns: seq<Turn>, n: nat, ghost firsts: seq<nat>, ghost before: map<nat, Fate>)
      returns (ghost id: nat)
      requires Valid() && ackQueue != [] && n == |firsts| < |turns| && Settled(before, fates, turns, firsts)
      requires ComeLater(ackQueue, firsts)
      modifies this
      ensures Valid() && old(added) <= added && Settled(before, fates, turns, firsts + [id])
      ensures Items(added) == old(Items(added)) + TurnArrivals(turns[n])
      ensures ComeLater(ackQueue, firsts + [id])
    {
      InOrder(added, fates.Keys, ackQueue, 0);
      ghost var was, entries, middle := ackQueue, added, fates;
      id := ackQueue[0].id;
      ProcessFirst(turns[n]);
      SettledNext(before, middle, fates, turns, firsts, id);
      forall k | 0 <= k < |ackQueue| ensures id < ackQueue[k].id {
        InOrder(added, fates.Keys, ackQueue, k);
        LaterInQueue(entries, middle.Keys, was, ackQueue[k].id);
      }
    }

    /** In the middle of a pass: these entries have been first in its turns, and the others come later. */
    ghost predicate InPass(before: map<nat, Fate>, items: seq<NodeId>, turns: seq<Turn>, firsts: seq<nat>)
      reads this
    {
      && Valid() && Settled(before, fates, turns, firsts) && ArrivedBehind(items, Items(added), turns, |firsts|)
      && ComeLater(ackQueue, firsts)
    }

    method NextTurn(turns: seq<Turn>, n: nat, ghost firsts: seq<nat>, ghost before: map<nat, Fate>,
        ghost items: seq<NodeId>)
      returns (ghost id: nat)
      requires InPass(before, items, turns, firsts) && ackQueue != [] && n == |firsts| < |turns|
      modifies this
      ensures InPass(before, items, turns, firsts + [id]) && old(added) <= added
    {
      id := TakeTurn(turns, n, firsts, before);
      OneMoreTurn(turns, n, items, old(Items(added)), Items(added));
    }

    /**
     * One pass over the queue; it ends early if the thread is told to terminate, here when the turns are used up. The
     * number of turns taken is returned, and the entries that were first in them; whatever else was freed was dropped
     * because of one of these.
     */
    method ProcessAckQueue(turns: seq<Turn>) returns (taken: nat, ghost firsts: seq<nat>)
      requires Valid()
      modifies this
      ensures Valid() && old(added) <= added && taken == |firsts| <= |turns|
      ensures Settled(old(fates), fates, turns, firsts)
      ensures Items(added) == old(Items(added)) + ArrivedInTurns(turns, taken)
      ensures taken < |turns| ==> ackQueue == [] && forall id: nat :: id < |added| ==> id in fates
    {
      taken, firsts := 0, [];
      while ackQueue != [] && taken < |turns|
        invariant InPass(old(fates), old(Items(added)), turns, firsts)
        invariant old(added) <= added && taken == |firsts| <= |turns|
        decreases |turns| - taken
      {
        ghost var id := NextTurn(turns, taken, firsts, old(fates), old(Items(added)));
        firsts := firsts + [id];
        taken := taken + 1;
      }
      NoneLeft(added, fates.Keys);
    }
  }

  lemma NoneLeft(added: seq<Entry<NodeId>>, freed: set<nat>)
    requires Numbered(added)
    ensures Survivors(added, freed) == [] ==> forall id: nat :: id < |added| ==> id in freed
  {
    SurvivorsMembers(added, freed);
  }

  predicate ComeLater(queue: seq<Entry<NodeId>>, firsts: seq<nat>) {
    firsts != [] ==> forall k :: 0 <= k < |queue| ==> firsts[|firsts| - 1] < queue[k].id
  }

  /** The first entry of the queue has the smallest number of all that have not been freed. */
  lemma LaterInQueue(added: seq<Entry<NodeId>>, freed: set<nat>, q: seq<Entry<NodeId>>, id: nat)
    requires Numbered(added) && q == Survivors(added, freed) && q != [] && id !in freed && id != q[0].id
    ensures q[0].id < id
  {
    InOrder(added, freed, q, 0);
    SurvivorsMembers(added, freed);
    if id < |added| {
      assert added[id] in q;
    }
  }

  /** Each of these entries was first in its turn, in order, and has the fate of the turn. */
  ghost predicate FirstsSettled(before: map<nat, Fate>, after: map<nat, Fate>, turns: seq<Turn>, firsts: seq<nat>) {
    && |firsts| <= |turns|
    && (forall t, u :: 0 <= t < u < |firsts| ==> firsts[t] < firsts[u])
    && (forall t :: 0 <= t < |firsts| ==> firsts[t] !in before)
    && (forall t :: 0 <= t < |firsts| ==> firsts[t] in after && after[firsts[t]] == FateOf(turns[t]))
  }

  /** What else was freed since was dropped because of one of them. */
  ghost predicate Settled(before: map<nat, Fate>, after: map<nat, Fate>, turns: seq<Turn>, firsts: seq<nat>) {
    && FirstsSettled(before, after, turns, firsts)
    && (forall id <- before :: id in after && after[id] == before[id])
    && (forall id <- after :: id in before || id in firsts || DroppedByTurn(after[id], turns, firsts))
  }

  ghost predicate DroppedByTurn(fate: Fate, turns: seq<Turn>, firsts: seq<nat>)
    requires |firsts| <= |turns|
  {
    exists t :: 0 <= t < |firsts| && FateOf(turns[t]) == SendFailed && fate == DroppedWith(firsts[t])
  }

  lemma SettledNext(before: map<nat, Fate>, middle: map<nat, Fate>, after: map<nat, Fate>, turns: seq<Turn>,
      firsts: seq<nat>, id: nat)
    requires Settled(before, middle, turns, firsts) && |firsts| < |turns| && id !in middle
    requires firsts != [] ==> firsts[|firsts| - 1] < id
    requires var fate := FateOf(turns[|firsts|]);
      && OnlyDropped(middle[id := fate], after, id)
      && (fate != SendFailed ==> after == middle[id := fate])
    ensures Settled(before, after, turns, firsts + [id])
  {
    FirstsNext(before, middle, after, turns, firsts, id);
    forall x | x in after && x !in before && x !in firsts + [id] ensures DroppedByTurn(after[x], turns, firsts + [id]) {
      if x in middle {
        assert forall y <- firsts :: y in firsts + [id];
        DroppedEarlier(middle[x], turns, firsts, id);
      } else {
        assert (firsts + [id])[|firsts|] == id;
        DroppedNow(after[x], turns, firsts, id);
      }
    }
  }

  lemma FirstsNext(before: map<nat, Fate>, middle: map<nat, Fate>, after: map<nat, Fate>, turns: seq<Turn>,
      firsts: seq<nat>, id: nat)
    requires FirstsSettled(before, middle, turns, firsts) && |firsts| < |turns| && id !in middle
    requires firsts != [] ==> firsts[|firsts| - 1] < id
    requires id !in before && id in after && after[id] == FateOf(turns[|firsts|])
    requires forall x <- middle :: x in after && after[x] == middle[x]
    ensures FirstsSettled(before, after, turns, firsts + [id])
  {
    var n, more := |firsts|, firsts + [id];
    assert more[n] == id && forall t :: 0 <= t < n ==> more[t] == firsts[t] && firsts[t] <= firsts[n - 1];
  }

  lemma DroppedEarlier(fate: Fate, turns: seq<Turn>, firsts: seq<nat>, id: nat)
    requires |firsts| < |turns|
    ensures DroppedByTurn(fate, turns, firsts) ==> DroppedByTurn(fate, turns, firsts + [id])
  {
    if DroppedByTurn(fate, turns, firsts) {
      var t :| 0 <= t < |firsts| && FateOf(turns[t]) == SendFailed && fate == DroppedWith(firsts[t]);
      assert FateOf(turns[t]) == SendFailed && fate == DroppedWith((firsts + [id])[t]);
    }
  }

  lemma DroppedNow(fate: Fate, turns: seq<Turn>, firsts: seq<nat>, id: nat)
    requires |firsts| < |turns|
    requires FateOf(turns[|firsts|]) == SendFailed && fate == DroppedWith(id)
    ensures DroppedByTurn(fate, turns, firsts + [id])
  {
    var n := |firsts|;
    assert FateOf(turns[n]) == SendFailed && fate == DroppedWith((firsts + [id])[n]);
  }

  /** Nothing happened to freed entries, and what was freed since was dropped because of `failed`. */
  predicate OnlyDropped(before: map<nat, Fate>, after: map<nat, Fate>, failed: nat) {
    && before.Keys <= after.Keys
    && forall id <- after :: if id in before then after[id] == before[id] else after[id] == DroppedWith(failed)
  }
}
