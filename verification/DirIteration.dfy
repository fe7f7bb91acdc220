/**
 * Reading a directory in batches. The server lists the entries behind an offset; the reader keeps the current batch,
 * the position in it, and the offset for the next batch.
 */
module DirIteration {

  const MAX_NAMES := 100
  const EINVAL := 22

  /** serverOffset is the seek position just behind the entry. */
  datatype DirEntry = DirEntry(name: string, entryID: string, serverOffset: int)

  /** Where entry number i starts; the offsets are the server's business, but no two positions share one. */
  function OffsetAt(entries: seq<DirEntry>, i: nat): int
    requires i <= |entries|
  {
    if i == 0 then 0 else entries[i - 1].serverOffset
  }

  ghost predicate DistinctOffsets(entries: seq<DirEntry>) {
    forall i, j :: 0 <= i < j <= |entries| ==> OffsetAt(entries, i) != OffsetAt(entries, j)
  }

  /** The metadata server's directory, unchanged while it is read. */
  class Server {
    const entries: seq<DirEntry>
    ghost var troubled: bool // a listing has failed

    constructor (entries: seq<DirEntry>)
      ensures this.entries == entries && !troubled
    {
      this.entries, troubled := entries, false;
    }

    /** Lists the next entries behind an offset; fewer than asked for only at the end. May fail. */
    method ListDirFromOffset(offset: int, maxNames: nat) returns (err: int, batch: seq<DirEntry>, newOffset: int)
      requires DistinctOffsets(entries) && exists i: nat :: i <= |entries| && OffsetAt(entries, i) == offset
      modifies this
      ensures troubled <==> old(troubled) || err != 0
      ensures err == 0 ==> forall i: nat :: i <= |entries| && OffsetAt(entries, i) == offset ==>
        && i + |batch| <= |entries| && batch == entries[i..i + |batch|] && newOffset == OffsetAt(entries, i + |batch|)
        && (|batch| == maxNames || i + |batch| == |entries|) && |batch| <= maxNames
    {
      err, batch, newOffset := 0, [], offset;
      if * {
        err :| err < 0;
        troubled := true;
        return;
      }
      ghost var at: nat :| at <= |entries| && OffsetAt(entries, at) == offset;
      var i := 0;
      while OffsetAt(entries, i) != offset
        invariant i <= at
        decreases at - i
      {
        i := i + 1;
      }
      var n := if |entries| - i < maxNames then |entries| - i else maxNames;
      batch := entries[i..i + n];
      newOffset := OffsetAt(entries, i + n);
    }
  }

  class DirInfo {
    const server: Server
    var contents: seq<DirEntry>
    var currentContentsPos: nat
    var serverOffset: int
    var endOfDir: bool
    ghost var next: nat // number of the entry to be handed out next

    constructor (server: Server)
      requires DistinctOffsets(server.entries)
      ensures Valid() && next == 0 && this.server == server
    {
      this.server := server;
      contents, currentContentsPos, serverOffset, endOfDir := [], 0, 0, false;
      next := 0;
    }

    /** Entries of the batch not yet handed out. */
    function Left(): nat
      reads this
    {
      if currentContentsPos < |contents| then |contents| - currentContentsPos else 0
    }

    ghost predicate Valid()
      reads this
    {
      && DistinctOffsets(server.entries)
      && next + Left() <= |server.entries|
      && (currentContentsPos < |contents| ==> contents[currentContentsPos..] == server.entries[next..next + Left()])
      && serverOffset == OffsetAt(server.entries, next + Left())
      && (endOfDir ==> next + Left() == |server.entries|)
    }

    /**
     * Fetches a new batch when the current one is used up; afterwards there is an entry to hand out, or none is left.
     */
    method RefreshDirInfoIncremental() returns (err: int)
      requires Valid()
      modifies this`contents, this`currentContentsPos, this`serverOffset, this`endOfDir, server
      ensures Valid() && (server.troubled <==> old(server.troubled) || err != 0)
      ensures err == 0 ==> if next == |server.entries| then contents == []
        else currentContentsPos < |contents| && contents[currentContentsPos] == server.entries[next]
      ensures err != 0 ==> contents == [] && currentContentsPos == 0
    {
      err := 0;
      if endOfDir && currentContentsPos >= |contents| {
        contents := [];
      } else if currentContentsPos >= |contents| {
        var batch, newOffset;
        err, batch, newOffset := server.ListDirFromOffset(serverOffset, MAX_NAMES);
        if err == 0 {
          currentContentsPos, contents, serverOffset := 0, batch, newOffset;
          endOfDir := |contents| < MAX_NAMES;
          assert contents[0..] == contents;
        } else {
          contents, currentContentsPos := [], 0;
        }
      }
      if currentContentsPos < |contents| {
        assert contents[currentContentsPos] == contents[currentContentsPos..][0];
      }
    }

    method HandOut()
      requires Valid() && currentContentsPos < |contents|
      modifies this`currentContentsPos, this`next
      ensures Valid() && next == old(next) + 1 && currentContentsPos == old(currentContentsPos) + 1
    {
      assert contents[currentContentsPos + 1..] == contents[currentContentsPos..][1..];
      currentContentsPos := currentContentsPos + 1;
      next := next + 1;
    }

    /**
     * One readdir call, into a buffer with room for `room` entries: it hands out the next entries in the server's order
     * and stops early only at the end of the directory or with an error.
     */
    method IterateIncremental(room: nat, pos: int) returns (err: int, emitted: seq<DirEntry>, newPos: int)
      requires Valid() && pos == OffsetAt(server.entries, next)
      modifies this, server
      ensures server.troubled <==> old(server.troubled) || err != 0
      ensures Valid() && next == old(next) + |emitted| && emitted == server.entries[old(next)..next]
      ensures newPos == OffsetAt(server.entries, next) && |emitted| <= room
      ensures err == 0 && |emitted| < room ==> next == |server.entries|
    {
      err, emitted, newPos := 0, [], pos;
      while true
        invariant Valid() && next == old(next) + |emitted| && emitted == server.entries[old(next)..next]
        invariant newPos == OffsetAt(server.entries, next) && |emitted| <= room
        invariant server.troubled == old(server.troubled)
        decreases room - |emitted|
      {
        err := RefreshDirInfoIncremental();
        if err != 0 || contents == [] {
          break;
        }
        var entry := contents[currentContentsPos];
        if |emitted| == room {
          break; // the buffer refuses the entry
        }
        emitted := emitted + [entry];
        newPos := entry.serverOffset;
        HandOut();
      }
    }

    /** Seeks to a position that a readdir call has returned, here the start of entry number i. */
    method LlseekDir(offset: int, fromStart: bool, ghost i: nat) returns (res: int)
      requires Valid() && i <= |server.entries| && offset == OffsetAt(server.entries, i)
      modifies this
      ensures Valid()
      ensures if fromStart && offset >= 0 then res == offset && next == i
        else res == -EINVAL && next == old(next) && contents == old(contents)
    {
      if !fromStart || offset < 0 {
        return -EINVAL;
      }
      contents, currentContentsPos := [], 0;
      serverOffset, endOfDir := offset, false;
      next := i;
      return offset;
    }
  }

  /** What an application did: a readdir call with what it handed out, or a seek. */
  datatype Event = Readdir(emitted: seq<DirEntry>) | Seek(offset: int)

  /** An event that leads from entry number `from` to entry number `to`. */
  predicate Leads(entries: seq<DirEntry>, e: Event, from: nat, to: nat)
    requires from <= |entries| && to <= |entries|
  {
    match e
    case Readdir(emitted) => from <= to && emitted == entries[from..to]
    case Seek(offset) => offset == OffsetAt(entries, to)
  }

  /** positions[i] is the number of the entry that comes next after the first i events. */
  ghost predicate Run(entries: seq<DirEntry>, events: seq<Event>, positions: seq<nat>) {
    && |positions| == |events| + 1 && positions[0] == 0
    && (forall i :: 0 <= i < |positions| ==> positions[i] <= |entries|)
    && (forall i {:trigger events[i]} :: 0 <= i < |events| ==>
         Leads(entries, events[i], positions[i], positions[i + 1]))
  }

  /** An open directory: what has been read, and the position the kernel keeps. */
  class DirSession {
    const dirInfo: DirInfo
    var pos: int
    ghost var events: seq<Event>
    ghost var positions: seq<nat>

    ghost predicate Valid()
      reads this, dirInfo
    {
      && dirInfo.Valid() && Run(dirInfo.server.entries, events, positions)
      && dirInfo.next == positions[|events|] && pos == OffsetAt(dirInfo.server.entries, dirInfo.next)
    }

    constructor (server: Server)
      requires DistinctOffsets(server.entries)
      ensures Valid() && fresh(dirInfo) && dirInfo.server == server && events == []
    {
      dirInfo := new DirInfo(server);
      pos, events, positions := 0, [], [0];
    }

    method ReadEntries(room: nat) returns (err: int, emitted: seq<DirEntry>)
      requires Valid()
      modifies this, dirInfo, dirInfo.server
      ensures dirInfo.server.troubled <==> old(dirInfo.server.troubled) || err != 0
      ensures Valid() && events == old(events) + [Readdir(emitted)] && old(positions) <= positions
      ensures err == 0 && |emitted| < room ==> positions[|events|] == |dirInfo.server.entries|
    {
      ghost var from := dirInfo.next;
      err, emitted, pos := dirInfo.IterateIncremental(room, pos);
      Record(Readdir(emitted), from);
    }

    /** Seeks to where event number i had left the directory. */
    method SeekTo(offset: int, fromStart: bool, ghost i: nat) returns (res: int)
      requires Valid() && i <= |events| && offset == OffsetAt(dirInfo.server.entries, positions[i])
      modifies this, dirInfo
      ensures Valid() && old(positions) <= positions
      ensures events == if fromStart && offset >= 0 then old(events) + [Seek(offset)] else old(events)
      ensures res == if fromStart && offset >= 0 then offset else -EINVAL
    {
      ghost var from := dirInfo.next;
      res := dirInfo.LlseekDir(offset, fromStart, positions[i]);
      if res >= 0 {
        pos := offset;
        Record(Seek(offset), from);
      }
    }

    ghost method Record(e: Event, from: nat)
      requires dirInfo.Valid() && Run(dirInfo.server.entries, events, positions) && from == positions[|events|]
      requires Leads(dirInfo.server.entries, e, from, dirInfo.next)
      requires pos == OffsetAt(dirInfo.server.entries, dirInfo.next)
      modifies this`events, this`positions
      ensures Valid() && events == old(events) + [e] && positions == old(positions) + [dirInfo.next]
    {
      events, positions := events + [e], positions + [dirInfo.next];
    }
  }

  /** What the events from number i up to number j have handed out. */
  function Got(events: seq<Event>, i: nat, j: nat): seq<DirEntry>
    requires i <= j <= |events|
  {
    if i == j then [] else Got(events, i, j - 1) + if events[j - 1].Readdir? then events[j - 1].emitted else []
  }

  lemma Joined(entries: seq<DirEntry>, a: nat, b: nat, c: nat)
    requires a <= b <= c <= |entries|
    ensures entries[a..b] + entries[b..c] == entries[a..c]
  {
  }

  /** Without seeks in between, any number of calls with any room hand out every entry once, in order. */
  lemma {:induction false} CallsCoverDirectory(entries: seq<DirEntry>, events: seq<Event>, positions: seq<nat>, i: nat,
      j: nat)
    requires Run(entries, events, positions) && i <= j <= |events| && forall k :: i <= k < j ==> events[k].Readdir?
    ensures positions[i] <= positions[j] <= |entries| && Got(events, i, j) == entries[positions[i]..positions[j]]
    decreases j
  {
    if i < j {
      CallsCoverDirectory(entries, events, positions, i, j - 1);
      assert Leads(entries, events[j - 1], positions[j - 1], positions[j]);
      Joined(entries, positions[i], positions[j - 1], positions[j]);
    }
  }

  /** Reading on after a seek continues exactly behind what had been read when the position was given out. */
  lemma SeekContinues(entries: seq<DirEntry>, events: seq<Event>, positions: seq<nat>, i: nat, s: nat, j: nat)
    requires DistinctOffsets(entries) && Run(entries, events, positions) && i <= s < j <= |events|
    requires events[s] == Seek(OffsetAt(entries, positions[i])) && forall k :: s < k < j ==> events[k].Readdir?
    ensures positions[i] <= positions[j] && Got(events, s + 1, j) == entries[positions[i]..positions[j]]
  {
    assert Leads(entries, events[s], positions[s], positions[s + 1]);
    assert positions[s + 1] == positions[i];
    CallsCoverDirectory(entries, events, positions, s + 1, j);
  }

  predicate IsFirst(entries: seq<DirEntry>, entryID: string, i: nat)
    requires i < |entries|
  {
    entries[i].entryID == entryID && forall j :: 0 <= j < i ==> entries[j].entryID != entryID
  }

  /** Searches a directory for the first entry with an ID. */
  method IterateDirFindName(server: Server, entryID: string) returns (found: bool, name: string, err: int)
    requires DistinctOffsets(server.entries)
    modifies server
    ensures server.troubled <==> old(server.troubled) || err != 0
    ensures found ==>
      exists i: nat :: i < |server.entries| && IsFirst(server.entries, entryID, i) && server.entries[i].name == name
    ensures !found && err == 0 ==> forall j :: 0 <= j < |server.entries| ==> server.entries[j].entryID != entryID
  {
    var dirInfo := new DirInfo(server);
    found, name, err := false, [], 0;
    while true
      invariant dirInfo.Valid() && fresh(dirInfo) && dirInfo.server == server && !found
      invariant server.troubled == old(server.troubled)
      invariant forall j :: 0 <= j < dirInfo.next ==> server.entries[j].entryID != entryID
      decreases |server.entries| - dirInfo.next
    {
      err := dirInfo.RefreshDirInfoIncremental();
      if err != 0 || dirInfo.contents == [] {
        break;
      }
      var entry := dirInfo.contents[dirInfo.currentContentsPos];
      if entry.entryID == entryID {
        assert IsFirst(server.entries, entryID, dirInfo.next);
        found, name := true, entry.name;
        break;
      }
      dirInfo.HandOut();
    }
  }
}
