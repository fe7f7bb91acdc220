/**
 * Whole runs of a client cache. An event is one call, seen as a change of the file the application has written; the
 * sessions at the end make the calls and record them.
 */
module CacheRuns {
  import opened FileBytes
  import opened FileView
  import opened CacheStores
  import FileCache
  import NativePages
  import PagedWrite
  import PageRange

  datatype Event =
    | Write(offset: int, data: seq<Byte>, res: int)
    | Read(from: nat, size: nat, got: seq<Byte>, chunkSize: ChunkSize)
    | FailedRead
    | Flush
    | Discard(off: nat, n: nat) // unflushed data at a position was given up after a failed flush
    | Zeroed(off: nat) // a page that was filled with zeros hid what the servers held at or behind a position
    | AppendTrouble // a call that failed with unflushed append data around, or gave such data up

  ghost predicate Allowed(before: File, e: Event, after: File) {
    match e
    case Write(offset, data, res) => offset >= -1 && StoredAt(before, after, Target(before, offset), data, res)
    case Read(from, size, got, chunkSize) => after == before && ReadOf(before, chunkSize, from, size, got)
    case FailedRead => after == before
    case Flush => after == before
    case Discard(off, n) => forall i: nat :: !(off <= i < off + n) ==> ByteAt(after, i) == ByteAt(before, i)
    case Zeroed(off) => |after| == |before| && forall i: nat :: ZeroedAt(before, off, after, i)
    case AppendTrouble => true
  }

  predicate ZeroedAt(before: File, off: nat, after: File, i: nat) {
    ByteAt(after, i) == ByteAt(before, i) || (i >= off && ByteAt(after, i) == 0)
  }

  /** files[i] is the logical file before event i. */
  ghost predicate Run(files: seq<File>, events: seq<Event>) {
    && |files| == |events| + 1
    && forall i :: 0 <= i < |events| ==> Allowed(files[i], events[i], files[i + 1])
  }

  predicate Complete(e: Event) {
    !e.AppendTrouble? && !e.Discard? && !e.Zeroed? && (e.Write? ==> e.offset >= -1 && e.res == |e.data|)
  }

  /** What the plain file becomes with an event. */
  function Replayed(plain: File, e: Event): File {
    if e.Write? && Complete(e) then Splice(plain, Target(plain, e.offset), e.data) else plain
  }

  /** A plain file without cache, flusher or failures that receives the complete writes only. */
  function Replay(f: File, events: seq<Event>): File {
    if events == [] then f
    else
      Replayed(Replay(f, events[..|events| - 1]), events[|events| - 1])
  }

  /**
   * If no write fails, the logical file is the plain file after every step, so every read returns the plain file's
   * bytes: all of those asked for, unless it stops at a hole.
   */
  lemma {:induction false} RunIsPlainFile(files: seq<File>, events: seq<Event>, k: nat)
    requires Run(files, events) && k <= |events|
    requires forall e <- events[..k] :: Complete(e)
    ensures files[k] == Replay(files[0], events[..k])
    ensures k < |events| && events[k].Read? ==>
      ReadOf(Replay(files[0], events[..k]), events[k].chunkSize, events[k].from, events[k].size, events[k].got)
  {
    if k > 0 {
      assert events[..k][..k - 1] == events[..k - 1];
      forall e | e in events[..k - 1] ensures Complete(e) {
        assert e in events[..k];
      }
      RunIsPlainFile(files, events, k - 1);
      assert events[k - 1] in events[..k];
      CompleteStep(files[k - 1], events[k - 1], files[k]);
    }
    assert k < |events| ==> Allowed(files[k], events[k], files[k + 1]);
  }

  /** A complete event changes the file like the plain file. */
  lemma CompleteStep(before: File, e: Event, after: File)
    requires Allowed(before, e, after) && Complete(e)
    ensures after == if e.Write? then Splice(before, Target(before, e.offset), e.data) else before
  {
    if e.Write? {
      assert e.data[..e.res] == e.data;
    }
  }

  /** Position i lies in the range of a write that did not complete, or of data that was given up. */
  ghost predicate Damaged(events: seq<Event>, i: nat) {
    exists e <- events :: Hits(e, i)
  }

  predicate Hits(e: Event, i: nat) {
    match e
    case Write(offset, data, _) => !Complete(e) && offset <= i < offset + |data|
    case Discard(off, n) => off <= i < off + n
    case _ => false
  }

  /** Only what is behind the plain file has been hidden by zeros. */
  predicate ZeroedBehind(f: File, events: seq<Event>) {
    forall j :: 0 <= j < |events| && events[j].Zeroed? ==> |Replay(f, events[..j])| <= events[j].off
  }

  lemma ZeroedBehindPrefix(f: File, events: seq<Event>, k: nat)
    requires ZeroedBehind(f, events) && k <= |events|
    ensures ZeroedBehind(f, events[..k])
  {
    forall j | 0 <= j < k && events[..k][j].Zeroed? ensures |Replay(f, events[..k][..j])| <= events[..k][j].off {
      assert events[..k][..j] == events[..j];
    }
  }

  lemma ZeroedBehindGrows(f: File, events: seq<Event>, e: Event)
    requires ZeroedBehind(f, events) && (e.Zeroed? ==> |Replay(f, events)| <= e.off)
    ensures ZeroedBehind(f, events + [e])
  {
    forall j | 0 <= j <= |events| && (events + [e])[j].Zeroed?
      ensures |Replay(f, (events + [e])[..j])| <= (events + [e])[j].off
    {
      assert (events + [e])[..j] == events[..j];
      assert events[..|events|] == events;
    }
  }

  /**
   * Failed and short writes, failed flushes and given-up data cannot spread: over any run of positioned calls every
   * byte outside the ranges of the incomplete writes and of the discarded buffers is the byte of the plain file.
   * Without discarded buffers the file is also at least as long.
   */
  lemma {:induction false} DamageStaysInItsRange(files: seq<File>, events: seq<Event>, k: nat, i: nat)
    requires Run(files, events) && k <= |events|
    requires forall e <- events[..k] :: !e.AppendTrouble? && (e.Write? ==> e.offset >= 0)
    requires !Damaged(events[..k], i) && ZeroedBehind(files[0], events[..k])
    ensures ByteAt(files[k], i) == ByteAt(Replay(files[0], events[..k]), i)
    ensures (forall e <- events[..k] :: !e.Discard?) ==> |Replay(files[0], events[..k])| <= |files[k]|
  {
    if k > 0 {
      var e := events[k - 1];
      assert e in events[..k] && events[..k][..k - 1] == events[..k - 1];
      assert forall x <- events[..k - 1] :: x in events[..k];
      ZeroedBehindPrefix(files[0], events[..k], k - 1);
      DamageStaysInItsRange(files, events, k - 1, i);
      assert !Hits(e, i);
      OutsideStep(files[k - 1], e, files[k], Replay(files[0], events[..k - 1]), i);
    }
  }

  /** An event that does not hit a position leaves it like the plain file. */
  lemma OutsideStep(before: File, e: Event, after: File, plain: File, i: nat)
    requires Allowed(before, e, after) && !Hits(e, i) && !e.AppendTrouble? && (e.Write? ==> e.offset >= 0)
    requires ByteAt(before, i) == ByteAt(plain, i) && (e.Zeroed? ==> |plain| <= e.off)
    ensures ByteAt(after, i) == ByteAt(Replayed(plain, e), i)
    ensures !e.Discard? && |plain| <= |before| ==> |Replayed(plain, e)| <= |after|
  {
    if e.Write? {
      WriteElsewhere(before, after, e.offset, e.data, e.res, i);
      SpliceAgrees(before, plain, e.offset, e.data, i);
    } else if e.Zeroed? {
      assert ZeroedAt(before, e.off, after, i);
    }
  }

  lemma SpliceAgrees(f: File, g: File, off: nat, data: seq<Byte>, i: nat)
    requires ByteAt(f, i) == ByteAt(g, i)
    ensures |g| <= |f| ==> |Splice(g, off, data)| <= |Splice(f, off, data)|
    ensures ByteAt(Splice(f, off, data), i) == ByteAt(Splice(g, off, data), i)
  {
  }

  lemma WriteElsewhere(before: File, after: File, off: nat, data: seq<Byte>, res: int, i: nat)
    requires StoredAt(before, after, off, data, res)
    requires res != |data| ==> !(off <= i < off + |data|)
    ensures res == |data| ==> after == Splice(before, off, data)
    ensures res != |data| ==> |before| <= |after| && ByteAt(after, i) == ByteAt(before, i)
  {
  }

  /** One more event. */
  lemma RunGrows(files: seq<File>, events: seq<Event>, e: Event, after: File)
    requires Run(files, events) && Allowed(files[|events|], e, after)
    ensures Run(files + [after], events + [e])
  {
  }

  /** Calls on one inode in buffered mode, whatever the servers, the buffer pool and user memory do. */
  class BufferedSession {
    const inode: FileCache.FhgfsInode
    const fileInfo: FileInfo
    ghost var files: seq<File>
    ghost var events: seq<Event>

    ghost predicate Valid()
      reads this, inode, inode.remote, inode.pool, fileInfo, if inode.buf == null then {} else {inode.buf}
    {
      && inode.Valid() && fileInfo.Valid()
      && Run(files, events) && files[|events|] == inode.Contents()
    }

    constructor (inode: FileCache.FhgfsInode, fileInfo: FileInfo)
      requires inode.Valid() && fileInfo.Valid()
      ensures Valid() && events == [] && files == [inode.Contents()] && this.inode == inode && this.fileInfo == fileInfo
    {
      this.inode, this.fileInfo := inode, fileInfo;
      files, events := [inode.Contents()], [];
    }

    /** One more event, after which the logical file is the inode's. */
    ghost method Record(e: Event)
      requires inode.Valid() && fileInfo.Valid() && Run(files, events)
      requires Allowed(files[|events|], e, inode.Contents())
      modifies this`files, this`events
      ensures Valid() && old(files) <= files && events == old(events) + [e]
    {
      RunGrows(files, events, e, inode.Contents());
      files, events := files + [inode.Contents()], events + [e];
    }

    method Write(user: UserSource, offset: int) returns (res: int)
      requires Valid() && offset >= -1
      modifies this, inode, inode.remote, inode.pool, inode.refStore, inode.pool.all, fileInfo`cacheHits
      ensures Valid() && old(files) <= files
      ensures events == old(events) +
        [if res < 0 && old(inode.View()).cache.AppendCache? then AppendTrouble
         else Event.Write(offset, user.bytes, res)]
    {
      ghost var trouble := inode.View().cache.AppendCache?;
      res := inode.WriteCached(user, offset, fileInfo);
      ghost var e := if res < 0 && trouble then AppendTrouble else Event.Write(offset, user.bytes, res);
      Record(e);
    }

    method Read(size: nat, writable: nat, offset: nat) returns (res: int, data: seq<Byte>)
      requires Valid()
      modifies this, inode, inode.remote, inode.pool, inode.refStore, inode.pool.all, fileInfo`cacheHits
      ensures Valid() && old(files) <= files
      ensures events == old(events) + [if res >= 0 then Event.Read(offset, size, data, inode.remote.chunkSize)
        else if old(inode.View()).cache.AppendCache? then AppendTrouble else FailedRead]
    {
      ghost var trouble := inode.View().cache.AppendCache?;
      res, data := inode.ReadCached(size, writable, offset, fileInfo);
      ghost var e := if res >= 0 then Event.Read(offset, size, data,
          inode.remote.chunkSize) else if trouble then AppendTrouble else FailedRead;
      Record(e);
    }

    /** A flush by the application, or by the flusher thread, which gives the data up in its last attempt. */
    method Flush(discardCacheOnError: bool) returns (err: int)
      requires Valid()
      modifies this, inode, inode.remote, inode.pool, inode.refStore
      ensures Valid() && old(files) <= files
      ensures events == old(events) + [FlushEvent(err, discardCacheOnError, old(inode.View()))]
    {
      ghost var before := inode.View();
      err := inode.FlushCacheUnlocked(discardCacheOnError);
      ghost var e := FlushEvent(err, discardCacheOnError, before);
      if e.Discard? {
        GivenUp(before, inode.remote.contents);
      }
      Record(e);
    }
  }

  /** What a flush was: the data is delivered or kept, or it was given up. */
  function FlushEvent(err: int, discardCacheOnError: bool, before: FileView): Event {
    if err == SUCCESS then Event.Flush
    else
      match before.cache
      case WriteCache(off, data) => if discardCacheOnError then Discard(off, |data|) else Event.Flush
      case AppendCache(_) => AppendTrouble
      case _ => Event.Flush
  }

  /** Without the buffer only the bytes under it may be lost. */
  lemma GivenUp(before: FileView, remote: File)
    requires before.cache.WriteCache? && ChangedWithin(before.remote, remote, before.cache.off, |before.cache.data|)
    ensures Allowed(Logical(before), Discard(before.cache.off, |before.cache.data|), remote)
  {
  }

  /**
   * Calls on one file in native mode; Valid() ends with the first flush that finds no handle, or with an empty copy
   * that marks a whole page.
   */
  class NativeSession {
    const file: NativePages.NativeFile
    ghost var files: seq<File>
    ghost var events: seq<Event>

    ghost predicate Valid()
      reads this, file, file.remote
    {
      file.Valid() && Run(files, events) && files[|events|] == file.Contents()
    }

    constructor (file: NativePages.NativeFile)
      requires file.Valid()
      ensures Valid() && events == [] && files == [file.Contents()] && this.file == file
    {
      this.file := file;
      files, events := [file.Contents()], [];
    }

    method Write(pos: nat, bytes: seq<Byte>, copied: nat) returns (res: int, handle: bool)
      requires Valid() && pos % PageRange.PAGE_SIZE + |bytes| <= PageRange.PAGE_SIZE && bytes != [] && copied <= |bytes|
      modifies this, file, file.remote
      ensures old(files) <= files
      ensures res < 0 || !old(file.MarksWholePage(pos, |bytes|, copied)) ==>
        (handle ==> Valid()) && events == old(events) + [Event.Write(pos, bytes, res)]
    {
      ghost var marks := file.MarksWholePage(pos, |bytes|, copied);
      res, handle := file.Write(pos, bytes, copied);
      if res < 0 || !marks {
        RunGrows(files, events, Event.Write(pos, bytes, res), file.Contents());
        files, events := files + [file.Contents()], events + [Event.Write(pos, bytes, res)];
      }
    }

    method ReadPage(index: nat) returns (res: int, handle: bool, data: seq<Byte>)
      requires Valid() && index in file.pages
      modifies this, file, file.remote
      ensures (handle ==> Valid()) && old(files) <= files
      ensures events == old(events) +
        [if res == 0 then PageRead(file.remote, NativePages.Position(index, 0), PageRange.PAGE_SIZE, data)
         else FailedRead]
    {
      var from := NativePages.Position(index, 0);
      res, handle := file.ReadPage(index);
      data := [];
      if res == 0 {
        data := file.pages[index].data[..Min(PageRange.PAGE_SIZE, Max(0, file.isize - from))];
        assert data == Slice(file.Contents(), from, PageRange.PAGE_SIZE);
      }
      ghost var e := if res == 0 then PageRead(file.remote, from, PageRange.PAGE_SIZE, data) else FailedRead;
      RunGrows(files, events, e, file.Contents());
      files, events := files + [file.Contents()], events + [e];
    }

    method Flush(index: nat) returns (err: int, handle: bool)
      requires Valid() && index in file.pages && file.pages[index].hasRange
      modifies this, file, file.remote
      ensures (handle ==> Valid()) && old(files) <= files && events == old(events) + [Event.Flush]
    {
      err, handle := file.FlushPage(index);
      RunGrows(files, events, Event.Flush, file.Contents());
      files, events := files + [file.Contents()], events + [Event.Flush];
    }
  }

  /** A read of page data. */
  function PageRead(remote: RemoteFile, from: nat, size: nat, data: seq<Byte>): Event {
    Event.Read(from, size, data, remote.chunkSize)
  }

  lemma ReplayOneMore(f: File, events: seq<Event>, e: Event)
    ensures Replay(f, events + [e]) == Replayed(Replay(f, events), e)
  {
    assert (events + [e])[..|events|] == events;
  }

  predicate AllComplete(events: seq<Event>) {
    forall e <- events :: Complete(e)
  }

  lemma AllCompleteBefore(events: seq<Event>, e: Event)
    ensures AllComplete(events + [e]) ==> AllComplete(events) && Complete(e)
  {
    assert e in events + [e];
    assert forall x <- events :: x in events + [e];
  }

  /** What one page's write in paged mode was: the page may have had to be read first, or may have hidden something. */
  function PagedEvents(pos: nat, bytes: seq<Byte>, res: int, began: bool, zeroed: bool, size: nat): seq<Event> {
    if !began then [FailedRead] else (if zeroed then [Zeroed(size)] else []) + [Event.Write(pos, bytes, res)]
  }

  lemma EventsJoin(events: seq<Event>, hidden: seq<Event>, e: Event)
    ensures events + hidden + [e] == events + (hidden + [e])
  {
  }

  /** The part of an up-to-date page before the end of the file. */
  lemma PageSlice(f: File, page: seq<Byte>, index: nat, n: nat)
    requires page == NativePages.PageOf(f, index) && n <= PageRange.PAGE_SIZE
    requires n > 0 ==> NativePages.Position(index, 0) + n <= |f|
    ensures page[..n] == Slice(f, NativePages.Position(index, 0), n)
  {
    var from := NativePages.Position(index, 0);
    forall k: nat | k < n ensures page[k] == Slice(f, from, n)[k] {
      assert page[k] == ByteAt(f, NativePages.Position(index, k));
    }
  }

  /** The client's size covers the plain file also after a write. */
  lemma SizeCovers(plain: File, pos: nat, bytes: seq<Byte>, res: int, size: nat)
    requires |plain| <= size
    ensures |Replayed(plain, Event.Write(pos, bytes, res))| <= PagedWrite.Grown(size, pos, res)
  {
  }

  /** Calls on one file in paged mode. Failed writes may leave the size the client knows behind the servers'. */
  class PagedSession {
    const file: PagedWrite.PagedFile
    ghost var files: seq<File>
    ghost var events: seq<Event>

    /** The plain file ends where the client knows it to end; without failures the servers' file does so too. */
    ghost predicate Valid()
      reads this, file, file.remote
    {
      && file.Valid() && Recorded() && files[|events|] == file.Contents()
      && |Replay(files[0], events)| <= file.isize && (AllComplete(events) ==> file.SizeKnown())
    }

    ghost predicate Recorded()
      reads this
    {
      Run(files, events) && ZeroedBehind(files[0], events)
    }

    constructor (file: PagedWrite.PagedFile)
      requires file.Valid() && file.SizeKnown()
      ensures Valid() && events == [] && files == [file.Contents()] && this.file == file
    {
      this.file := file;
      files, events := [file.Contents()], [];
    }

    /** One more event, after which the logical file is `after`. */
    ghost method Record(e: Event, after: File)
      requires Recorded() && Allowed(files[|events|], e, after) && (e.Zeroed? ==> |Replay(files[0], events)| <= e.off)
      modifies this`files, this`events
      ensures Recorded() && files == old(files) + [after] && events == old(events) + [e]
      ensures Replay(files[0], events) == Replayed(old(Replay(files[0], events)), e)
      ensures AllComplete(events) ==> old(AllComplete(events)) && Complete(e)
    {
      RunGrows(files, events, e, after);
      ZeroedBehindGrows(files[0], events, e);
      ReplayOneMore(files[0], events, e);
      AllCompleteBefore(events, e);
      files, events := files + [after], events + [e];
    }

    /** One page's part of a write, of which `bytes` could be copied from user memory. */
    method Write(pos: nat, len: nat, bytes: seq<Byte>) returns (res: int, began: bool, ghost zeroed: bool,
        ghost size: nat)
      requires Valid() && 0 < len && pos % PageRange.PAGE_SIZE + len <= PageRange.PAGE_SIZE && |bytes| <= len
      modifies this, file, file.remote
      ensures Valid() && old(files) <= files
      ensures events == old(events) + PagedEvents(pos, bytes, res, began, zeroed, size)
      // without failures so far nothing is hidden
      ensures old(AllComplete(events)) ==> !zeroed
    {
      zeroed, size := false, 0;
      var err := file.WriteBegin(pos, len);
      began := err == 0;
      if !began {
        Record(FailedRead, file.Contents());
        return err, began, zeroed, size;
      }
      res, zeroed, size := End(pos, len, bytes);
    }

    /** The end of a write for which the page is prepared. */
    method End(pos: nat, len: nat, bytes: seq<Byte>) returns (res: int, ghost zeroed: bool, ghost size: nat)
      requires 0 < len && pos % PageRange.PAGE_SIZE + len <= PageRange.PAGE_SIZE && |bytes| <= len
      requires file.Begun(pos / PageRange.PAGE_SIZE, pos % PageRange.PAGE_SIZE, len) && Recorded()
      requires files[|events|] == file.Contents() && |Replay(files[0], events)| <= file.isize
      requires AllComplete(events) ==> file.SizeKnown()
      modifies this, file, file.remote
      ensures Valid() && old(files) <= files && events == old(events) + PagedEvents(pos, bytes, res, true, zeroed, size)
      ensures old(AllComplete(events)) ==> !zeroed
    {
      size := file.isize;
      zeroed := Hide(pos / PageRange.PAGE_SIZE, len, |bytes|);
      res := Store(pos, len, bytes);
      EventsJoin(old(events), if zeroed then [Zeroed(size)] else [], Event.Write(pos, bytes, res));
    }

    /** The end of a write once what the page hides is recorded. */
    method Store(pos: nat, len: nat, bytes: seq<Byte>) returns (res: int)
      requires 0 < len && pos % PageRange.PAGE_SIZE + len <= PageRange.PAGE_SIZE && |bytes| <= len
      requires file.Begun(pos / PageRange.PAGE_SIZE, pos % PageRange.PAGE_SIZE, len) && Recorded()
      requires files[|events|] == file.Base(pos / PageRange.PAGE_SIZE, len, |bytes|)
      requires |Replay(files[0], events)| <= file.isize && (AllComplete(events) ==> file.SizeKnown())
      modifies this, file, file.remote
      ensures Valid() && old(files) <= files && events == old(events) + [Event.Write(pos, bytes, res)]
    {
      ghost var size := file.isize;
      res := file.WriteEnd(pos, len, bytes);
      RecordWrite(pos, bytes, res, size);
    }

    /** The write itself. */
    ghost method RecordWrite(pos: nat, bytes: seq<Byte>, res: int, size: nat)
      requires Recorded() && file.Valid() && StoredAt(files[|events|], file.Contents(), pos, bytes, res)
      requires |Replay(files[0], events)| <= size && file.isize == PagedWrite.Grown(size, pos, res)
      requires AllComplete(events) && res == |bytes| ==> file.SizeKnown()
      modifies this`files, this`events
      ensures Valid() && old(files) <= files && events == old(events) + [Event.Write(pos, bytes, res)]
    {
      SizeCovers(Replay(files[0], events), pos, bytes, res, size);
      Record(Event.Write(pos, bytes, res), file.Contents());
    }

    /** What a page filled with zeros hides, if anything, is recorded before the write that makes it dirty. */
    ghost method Hide(index: nat, len: nat, n: nat) returns (zeroed: bool)
      requires PagedWrite.Shaped(file.pages) && index in file.pages && Recorded()
      requires files[|events|] == file.Contents() && |Replay(files[0], events)| <= file.isize
      requires AllComplete(events) ==> file.SizeKnown()
      modifies this`files, this`events
      ensures Recorded() && files[|events|] == file.Base(index, len, n)
      ensures Replay(files[0], events) == old(Replay(files[0], events))
      ensures events == old(events) + (if zeroed then [Zeroed(file.isize)] else []) && old(files) <= files
      ensures AllComplete(events) ==> old(AllComplete(events))
      ensures old(AllComplete(events)) ==> !zeroed
    {
      if file.SizeKnown() {
        PagedWrite.ClearedNothing(file.Contents(), file.isize, index);
      }
      zeroed := file.Base(index, len, n) != file.Contents();
      if zeroed {
        Record(Zeroed(file.isize), file.Base(index, len, n));
      }
    }

    /** Reads the bytes of a page up to the end of the file that the client knows. */
    method ReadPage(index: nat) returns (err: int, data: seq<Byte>)
      requires Valid() && index in file.pages
      modifies this, file, file.remote`failure
      ensures Valid() && old(files) <= files
      ensures events == old(events) +
        [if err == 0 then PageRead(file.remote, NativePages.Position(index, 0), |data|, data) else FailedRead]
      ensures err == 0 ==> |data| == Min(PageRange.PAGE_SIZE, Max(0, file.isize - NativePages.Position(index, 0)))
    {
      err, data := 0, [];
      if !file.pages[index].uptodate {
        ghost var found;
        err, found := file.ReadPageSync(index);
      }
      if err != 0 {
        Record(FailedRead, file.Contents());
        return;
      }
      var from := NativePages.Position(index, 0);
      data := file.pages[index].data[..Min(PageRange.PAGE_SIZE, Max(0, file.isize - from))];
      assert PagedWrite.Shows(file.pages, file.remote.contents, file.isize, index);
      PageSlice(file.Contents(), file.pages[index].data, index, |data|);
      Record(PageRead(file.remote, from, |data|, data), file.Contents());
    }
  }
}
