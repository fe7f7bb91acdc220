/**
 * The one-buffer-per-file client cache. Each method is one call under the exclusive cache lock; its contract
 * says what the call does to the logical file, which is the server contents overlaid by unflushed data.
 */
module FileCache {
  import opened FileBytes
  import opened FileView
  import opened CacheStores

  // smaller read-ahead at the start of a file
  const SLOWSTART_READLEN := 64 * 1024

  predicate InRange(p: int, from: int, n: nat) {
    from <= p < from + n
  }

  ghost predicate Meets(from: int, n: nat, offset: int, size: nat) {
    exists p :: InRange(p, from, n) && InRange(p, offset, size)
  }

  lemma Meet(from: int, n: nat, offset: int, size: nat)
    ensures Meets(from, n, offset, size) <==> n > 0 && size > 0 && from + n - 1 >= offset && from <= offset + size - 1
  {
    if n > 0 && size > 0 && from + n - 1 >= offset && from <= offset + size - 1 {
      assert InRange(Max(from, offset), from, n) && InRange(Max(from, offset), offset, size);
    }
  }

  datatype FileBufferType = NONE | READ | WRITE

  /** Inodes waiting for the asynchronous flusher; the store owns one reference per member. */
  class InodeRefStore {
    var members: set<FhgfsInode>

    method AddAndReferenceInode(inode: FhgfsInode)
      modifies this, inode`refs
      ensures members == old(members) + {inode}
      ensures inode.refs == old(inode.refs) + if inode in old(members) then 0 else 1
    {
      if inode !in members {
        members := members + {inode};
        inode.refs := inode.refs + 1;
      }
    }

    method RemoveAndReleaseInode(inode: FhgfsInode) returns (erased: bool)
      modifies this, inode`refs
      ensures erased == (inode in old(members)) && members == old(members) - {inode}
      ensures inode.refs == old(inode.refs) - if erased then 1 else 0
    {
      erased := inode in members;
      if erased {
        members := members - {inode};
        inode.refs := inode.refs - 1;
      }
    }
  }

  /** The error of a flush whose write returned less than the buffer holds. */
  function FlushError(writeRes: int): int {
    if writeRes > 0 then NOSPACE else -writeRes
  }

  class FhgfsInode {
    const remote: RemoteFile
    const pool: BufferStore
    const refStore: InodeRefStore

    var buf: array?<Byte>
    var bufType: FileBufferType
    var bufUsageLen: nat
    var bufUsageMaxLen: nat
    var fileOffset: int // where the buffer starts in the file, -1 for append
    var refs: int // references held by the open-inode counter of the kernel

    var openByMultipleReaders: bool

    constructor (remote: RemoteFile, pool: BufferStore, refStore: InodeRefStore)
      requires pool.Valid() && SLOWSTART_READLEN <= pool.bufSize
      ensures Valid() && bufType == NONE && Contents() == remote.contents
      ensures this.remote == remote && this.pool == pool && this.refStore == refStore
    {
      this.remote, this.pool, this.refStore := remote, pool, refStore;
      buf, bufType := null, NONE;
      bufUsageLen, bufUsageMaxLen, fileOffset := 0, 0, 0;
      refs := 1;
      openByMultipleReaders := false;
    }

    ghost function View(): FileView
      reads this, remote`contents, if buf == null then {} else {buf}
    {
      FileView(
        remote.contents,
        if buf == null || bufUsageLen > buf.Length then NoCache
        else match bufType {
          case NONE => NoCache
          case READ => ReadCache(if fileOffset < 0 then 0 else fileOffset, buf[..bufUsageLen])
          case WRITE => if fileOffset < 0 then AppendCache(buf[..bufUsageLen])
            else WriteCache(fileOffset, buf[..bufUsageLen])
        })
    }

    ghost function Contents(): File
      reads this, remote`contents, if buf == null then {} else {buf}
    {
      Logical(View())
    }

    /** A positioned buffer lies inside its pool buffer and inside the chunk it starts in. */
    ghost predicate Geometry()
      reads this, remote`contents, pool
    {
      && bufUsageLen <= bufUsageMaxLen <= pool.bufSize
      && fileOffset >= -1
      && (bufType == READ ==> fileOffset >= 0)
      && (fileOffset >= 0 ==> fileOffset + bufUsageMaxLen <= remote.ChunkEnd(fileOffset) + 1)
    }

    /** The buffer, if any, was taken from the pool and not returned. */
    ghost predicate Usable()
      reads this, remote`contents, pool
    {
      && pool.Valid() && SLOWSTART_READLEN <= pool.bufSize
      && (buf == null <==> bufType == NONE)
      && (buf != null ==> buf in pool.out)
    }

    ghost predicate Valid()
      reads this, remote`contents, pool, if buf == null then {} else {buf}
    {
      Usable() && (buf != null ==> Geometry() && Coherent(View()))
    }

    /** What a call did to the buffer: nothing, gave it up, or left a new one, of which the store knows. */
    twostate predicate BufferStep()
      reads this, refStore, pool
    {
      || (buf == old(buf) && bufType == old(bufType) && (this in refStore.members <==> this in old(refStore.members)))
      || ((buf == null <==> this !in refStore.members) && (old(buf) != null || old(pool.free) != []))
    }

    /** References that are not the store's. */
    ghost function OtherRefs(): int
      reads this, refStore
    {
      refs - if this in refStore.members then 1 else 0
    }

    /**
     * Buffers of other inodes stay theirs and keep their bytes, and no buffer but this inode's enters or leaves the
     * pool.
     */
    twostate predicate OthersUntouched()
      reads this, pool, pool.all
    {
      && (forall b <- pool.all :: b in old(pool.out) && b != old(buf) ==> b in pool.out && b != buf && unchanged(b))
      && (forall b <- pool.out :: b == buf || (b in old(pool.out) && b != old(buf)))
    }

    method DiscardCache()
      requires Usable() && bufType != NONE
      modifies this, pool, refStore
      ensures Valid() && bufType == NONE && OthersUntouched()
      ensures refStore.members == old(refStore.members) - {this} && OtherRefs() == old(OtherRefs())
    {
      pool.AddBuf(buf);
      buf := null;
      bufType := NONE;
      var _ := refStore.RemoveAndReleaseInode(this);
    }

    /** A handle-less write: opening or closing the file may fail before or after the write itself. */
    method WriteStatelessInode(data: seq<Byte>, off: int) returns (res: int)
      requires off >= -1
      modifies remote
      ensures res == 0 ==> data == []
      ensures StoredAt(old(remote.contents), remote.contents, Target(old(remote.contents), off), data, res)
      ensures remote.failure == FailureOf(res, |data|, old(remote.failure))
    {
      var reference := remote.Call();
      if reference != SUCCESS {
        return -reference;
      }
      res := remote.WriteFileEx(data, off);
      if res < 0 {
        return;
      }
      var release := remote.Call();
      if release != SUCCESS {
        StoredWithin(old(remote.contents), remote.contents, Target(old(remote.contents), off), data, res);
        res := -release;
      }
    }

    /**
     * Sends unflushed data to the servers, or drops read-ahead data; the buffer survives a failure unless told
     * otherwise.
     */
    method FlushCacheUnlocked(discardCacheOnError: bool) returns (err: int)
      requires Valid()
      modifies this, remote, pool, refStore
      ensures Valid() && err >= SUCCESS && remote.failure == if err == SUCCESS then old(remote.failure) else err
      ensures err == SUCCESS ==> bufType == NONE && Contents() == old(Contents())
      ensures err != SUCCESS ==> old(bufType) == WRITE
      ensures old(bufType) == NONE ==> unchanged(this, pool, refStore)
      ensures err != SUCCESS && discardCacheOnError ==> bufType == NONE
      ensures err != SUCCESS && !discardCacheOnError ==>
        View().cache == old(View()).cache && unchanged(this, pool, refStore)
      ensures err != SUCCESS && !discardCacheOnError && old(fileOffset) >= 0 ==> Contents() == old(Contents())
      ensures err != SUCCESS ==>
        ChangedWithin(
          old(remote.contents), remote.contents, Target(old(remote.contents), old(fileOffset)), old(bufUsageLen))
      ensures OthersUntouched()
      ensures BufferStep()
      ensures OtherRefs() == old(OtherRefs())
    {
      if bufType == NONE {
        return SUCCESS;
      }
      if bufType == READ {
        DiscardCache();
        return SUCCESS;
      }
      ghost var before := View();
      var data := buf[..bufUsageLen];
      var writeRes := WriteStatelessInode(data, fileOffset);
      FlushOutcome(before, remote.contents, writeRes);
      if writeRes < bufUsageLen {
        err := FlushError(writeRes);
        if discardCacheOnError {
          DiscardCache();
        }
        return;
      }
      DiscardCache();
      return SUCCESS;
    }

    /** The rest of the pool buffer or of the chunk, whichever is less. */
    function Room(offset: nat): (r: nat)
      ensures r <= pool.bufSize && offset + r <= remote.ChunkEnd(offset) + 1
      ensures r == pool.bufSize || offset + r == remote.ChunkEnd(offset) + 1
    {
      Min(remote.ChunkEnd(offset) - offset + 1, pool.bufSize)
    }

    lemma RoomAtStart()
      ensures Room(0) == Min(remote.chunkSize, pool.bufSize) && remote.chunkSize >= SLOWSTART_READLEN
    {
      assert 0 / remote.chunkSize == 0;
    }

    /** How much of a new write buffer may be used; 0 if the write must go through. */
    function WriteBufferLen(size: nat, offset: int, fileInfo: FileInfo): (len: nat)
      requires offset >= -1
      reads fileInfo
      ensures len == 0 || size < len <= pool.bufSize
      ensures len > 0 && offset >= 0 ==> offset + len <= remote.ChunkEnd(offset) + 1
      // all the room there is, and whenever the data leaves some of it
      ensures len > 0 ==> len == if offset == -1 then pool.bufSize else Room(offset)
      ensures len > 0 <==>
        && fileInfo.allowCaching && (offset == -1 || fileInfo.cacheHits > 0)
        && size < if offset == -1 then pool.bufSize else Room(offset)
    {
      var isAppendWrite := offset == -1;
      if !fileInfo.allowCaching || (!isAppendWrite && fileInfo.cacheHits <= 0) then 0
      else
        var maxCacheLen := if isAppendWrite then pool.bufSize else Room(offset);
        if size >= maxCacheLen then 0 else maxCacheLen
    }

    /** Writes with no buffer attached: starts a new write buffer if the data fits, else writes through. */
    method WriteCacheFlushed(user: UserSource, offset: int, fileInfo: FileInfo) returns (res: int)
      requires Valid() && bufType == NONE && offset >= -1
      modifies this, remote, pool, refStore, pool.all
      ensures Valid() && OthersUntouched()
      ensures StoredAt(old(Contents()), Contents(), Target(old(Contents()), offset), user.bytes, res)
      ensures BufferStep() && OtherRefs() == old(OtherRefs())
      // what can be buffered reaches no server
      ensures old(WriteBufferLen(|user.bytes|, offset, fileInfo)) > 0 && old(pool.free) != [] ==>
        && remote.contents == old(remote.contents) && remote.failure == old(remote.failure)
        && (res >= 0 ==> bufType == WRITE)
      ensures old(WriteBufferLen(|user.bytes|, offset, fileInfo)) == 0 || old(pool.free) == [] ==> bufType == NONE
      ensures WriteTells(res, |user.bytes|, old(remote.failure), remote.failure, user.readable < |user.bytes|)
    {
      var maxCacheLen := WriteBufferLen(|user.bytes|, offset, fileInfo);
      if maxCacheLen > 0 {
        buf := pool.InstantBuf();
      }
      if buf == null {
        res := remote.WriteFileEx(user.bytes, offset);
        return;
      }
      res := FillWriteBuffer(user, offset, maxCacheLen);
    }

    /** The second half of WriteCacheFlushed: the pool buffer is attached, the data still in user memory. */
    method FillWriteBuffer(user: UserSource, offset: int, maxCacheLen: nat) returns (res: int)
      requires pool.Valid() && SLOWSTART_READLEN <= pool.bufSize
      requires buf != null && buf in pool.out
      requires -1 <= offset && |user.bytes| < maxCacheLen <= pool.bufSize
      requires offset >= 0 ==> offset + maxCacheLen <= remote.ChunkEnd(offset) + 1
      modifies this, pool, refStore, buf
      ensures Valid() && OthersUntouched()
      ensures res < 0 <==> user.readable < |user.bytes|
      ensures res < 0 ==> bufType == NONE && res == -ADDRESSFAULT
      ensures res >= 0 ==> res == |user.bytes| && bufType == WRITE
      ensures StoredAt(remote.contents, Contents(), Target(remote.contents, offset), user.bytes, res)
      ensures (buf == null <==> this !in refStore.members) && OtherRefs() == old(OtherRefs())
    {
      bufType := WRITE;
      var notCopied := CopyFromUser(buf, 0, user);
      if notCopied != 0 {
        FailedUntouched(remote.contents, Target(remote.contents, offset), user.bytes, -ADDRESSFAULT);
        DiscardCache();
        return -ADDRESSFAULT;
      }
      BufferedStore(remote.contents, Max(0, offset), user.bytes);
      KeepWriteData(user.bytes, offset, maxCacheLen);
      return |user.bytes|;
    }

    /** Keeps what has been copied into the buffer, and tells the flusher. */
    method KeepWriteData(data: seq<Byte>, offset: int, maxCacheLen: nat)
      requires Usable() && bufType == WRITE && -1 <= offset && |data| < maxCacheLen <= pool.bufSize
      requires buf[0..0 + |data|] == data && (offset >= 0 ==> offset + maxCacheLen <= remote.ChunkEnd(offset) + 1)
      modifies this, refStore
      ensures Valid() && buf == old(buf) && bufType == WRITE
      ensures View().cache == if offset == -1 then AppendCache(data) else WriteCache(offset, data)
      ensures this in refStore.members && OtherRefs() == old(OtherRefs())
    {
      bufUsageLen, bufUsageMaxLen, fileOffset := |data|, maxCacheLen, offset;
      assert buf[..bufUsageLen] == data;
      refStore.AddAndReferenceInode(this);
    }

    /** Buffered write; offset -1 appends. */
    method WriteCached(user: UserSource, offset: int, fileInfo: FileInfo) returns (res: int)
      requires Valid() && fileInfo.Valid() && offset >= -1
      modifies this, remote, pool, refStore, pool.all, fileInfo`cacheHits
      ensures Valid() && OthersUntouched() && fileInfo.Valid()
      ensures res >= 0 || !old(View()).cache.AppendCache? ==>
        StoredAt(old(Contents()), Contents(), Target(old(Contents()), offset), user.bytes, res)
      ensures BufferStep()
      ensures OtherRefs() == old(OtherRefs())
      // a write is complete unless a call to the servers or user memory fails
      ensures WriteTells(res, |user.bytes|, old(remote.failure), remote.failure, user.readable < |user.bytes|)
      // one that continues the buffer reaches no server as long as there is room left
      ensures old(bufType == WRITE && ContinuesBuffer(|user.bytes|, offset) && !FillsBuffer(|user.bytes|)) ==>
        remote.contents == old(remote.contents) && (res >= 0 ==> View() == Add(old(View()), user.bytes))
      // one that leaves no room is delivered with the buffer
      ensures old(bufType == WRITE && ContinuesBuffer(|user.bytes|, offset) && FillsBuffer(|user.bytes|)) ==>
        res >= 0 ==> bufType == NONE
      ensures fileInfo.cacheHits == if old(WriteHits(|user.bytes|, offset, fileInfo))
        then Min(old(fileInfo.cacheHits) + 1, CACHE_HITS_THRESHOLD)
        else Max(old(fileInfo.cacheHits) - 1, CACHE_MISS_THRESHOLD)
    {
      if bufType == WRITE && ContinuesBuffer(|user.bytes|, offset) {
        ContinuesAtTarget(|user.bytes|, offset);
        fileInfo.IncCacheHits();
        res := ExtendWriteBuffer(user);
        return;
      }
      CountWrite(|user.bytes|, offset, fileInfo);
      res := WriteAfterFlush(user, offset, fileInfo);
    }

    /** A write that continues the buffer goes where the buffer ends. */
    lemma ContinuesAtTarget(size: nat, offset: int)
      requires Valid() && bufType == WRITE && offset >= -1 && ContinuesBuffer(size, offset)
      ensures EndOfBuffer(View()) == Target(Contents(), offset) && (View().cache.AppendCache? <==> fileOffset == -1)
    {
    }

    /** A write that cannot use the buffer; without one it could have been a hit if there had been one. */
    method CountWrite(size: nat, offset: int, fileInfo: FileInfo)
      requires fileInfo.Valid() && !(bufType == WRITE && ContinuesBuffer(size, offset))
      modifies fileInfo`cacheHits
      ensures fileInfo.Valid()
      ensures fileInfo.cacheHits == if old(WriteHits(size, offset, fileInfo))
        then Min(old(fileInfo.cacheHits) + 1, CACHE_HITS_THRESHOLD)
        else Max(old(fileInfo.cacheHits) - 1, CACHE_MISS_THRESHOLD)
    {
      var virtualEnd := fileInfo.lastWriteOffset + pool.bufSize - 1;
      if bufType == NONE && (offset == -1 || (offset >= fileInfo.lastWriteOffset && offset <= virtualEnd)) {
        fileInfo.IncCacheHits();
      } else {
        fileInfo.DecCacheHits();
      }
    }

    /**
     * The write continues the buffer; or there is none, and it would start inside one that had been put where the last
     * write ended.
     */
    predicate WriteHits(size: nat, offset: int, fileInfo: FileInfo)
      reads this, fileInfo
    {
      || (bufType == WRITE && ContinuesBuffer(size, offset))
      || (bufType == NONE && (offset == -1 || InRange(offset, fileInfo.lastWriteOffset, pool.bufSize)))
    }

    /** The read meets read-ahead data; or there is no buffer, and it would meet one put where the last read ended. */
    ghost predicate ReadHits(size: nat, offset: nat, fileInfo: FileInfo)
      reads this, fileInfo
    {
      || (bufType == READ && Meets(fileOffset, bufUsageLen, offset, size))
      || (bufType == NONE && Meets(fileInfo.lastReadOffset, pool.bufSize, offset, size))
    }

    predicate FillsBuffer(size: nat)
      reads this
    {
      bufUsageLen + size == bufUsageMaxLen
    }

    /** The part of WriteCached that cannot use the buffer: it is flushed, and the data written like a first write. */
    method WriteAfterFlush(user: UserSource, offset: int, fileInfo: FileInfo) returns (res: int)
      requires Valid() && offset >= -1
      modifies this, remote, pool, refStore, pool.all
      ensures Valid() && OthersUntouched()
      ensures res >= 0 || !old(View()).cache.AppendCache? ==>
        StoredAt(old(Contents()), Contents(), Target(old(Contents()), offset), user.bytes, res)
      ensures BufferStep()
      ensures OtherRefs() == old(OtherRefs())
      ensures WriteTells(res, |user.bytes|, old(remote.failure), remote.failure, user.readable < |user.bytes|)
    {
      var flushRes := FlushCacheUnlocked(false);
      if flushRes != SUCCESS {
        FailedUntouched(Contents(), Target(Contents(), offset), user.bytes, -flushRes);
        return -flushRes;
      }
      res := WriteCacheFlushed(user, offset, fileInfo);
    }

    /** The write is of the buffer's kind, starts where the buffer ends and fits into the room left. */
    predicate ContinuesBuffer(size: nat, offset: int)
      reads this
    {
      && (offset == -1) == (fileOffset == -1)
      && (offset == -1 || offset == fileOffset + bufUsageLen)
      && bufUsageLen + size <= bufUsageMaxLen
    }

    /** The part of WriteCached that uses the buffer: the data continues it and there is room. */
    method ExtendWriteBuffer(user: UserSource) returns (res: int)
      requires Valid() && bufType == WRITE && bufUsageLen + |user.bytes| <= bufUsageMaxLen
      modifies this, remote, pool, refStore, buf
      ensures Valid() && OthersUntouched()
      ensures res >= 0 || old(fileOffset) != -1 ==>
        StoredAt(old(Contents()), Contents(), EndOfBuffer(old(View())), user.bytes, res)
      ensures BufferStep()
      ensures OtherRefs() == old(OtherRefs())
      ensures WriteTells(res, |user.bytes|, old(remote.failure), remote.failure, user.readable < |user.bytes|)
      ensures !old(FillsBuffer(|user.bytes|)) ==>
        remote.contents == old(remote.contents) && (res >= 0 ==> View() == Add(old(View()), user.bytes))
      ensures old(FillsBuffer(|user.bytes|)) && res >= 0 ==> bufType == NONE
    {
      ghost var before := View();
      var notCopied := AddToBuffer(user);
      if notCopied != 0 {
        FailedUntouched(Logical(before), EndOfBuffer(before), user.bytes, -ADDRESSFAULT);
        return -ADDRESSFAULT;
      }
      BufferExtended(before, View(), user.bytes);
      if bufUsageLen == bufUsageMaxLen {
        var flushRes := FlushCacheUnlocked(false);
        if flushRes != SUCCESS {
          FailedAfterStore(
            Logical(before), Logical(Add(before, user.bytes)), EndOfBuffer(before), user.bytes, -flushRes);
          return -flushRes;
        }
      }
      return |user.bytes|;
    }

    /** Copies user data behind the used part of the buffer and counts it in. */
    method AddToBuffer(user: UserSource) returns (notCopied: nat)
      requires Valid() && bufType == WRITE && bufUsageLen + |user.bytes| <= bufUsageMaxLen
      modifies this`bufUsageLen, buf
      ensures Valid()
      ensures View() == if notCopied == 0 then Add(old(View()), user.bytes) else old(View())
      ensures notCopied == 0 <==> user.readable >= |user.bytes|
      ensures bufUsageLen == old(bufUsageLen) + if notCopied == 0 then |user.bytes| else 0
    {
      ghost var used := buf[..bufUsageLen];
      notCopied := CopyFromUser(buf, bufUsageLen, user);
      assert buf[..bufUsageLen] == used;
      if notCopied == 0 {
        assert buf[..bufUsageLen + |user.bytes|] == used + user.bytes;
        bufUsageLen := bufUsageLen + |user.bytes|;
      }
    }

    /** How much to read ahead into a new buffer; 0 if the read must go through. */
    function ReadBufferLen(size: nat, offset: nat, fileInfo: FileInfo): (len: nat)
      requires SLOWSTART_READLEN <= pool.bufSize
      reads this, fileInfo
      ensures len == 0 || size < len <= pool.bufSize
      ensures len > 0 ==> offset + len <= remote.ChunkEnd(offset) + 1
      // less than all the room there is only at the start of a file
      ensures len > 0 ==> len == Room(offset) || (offset == 0 && size < len == SLOWSTART_READLEN)
      ensures len > 0 <==>
        fileInfo.allowCaching && fileInfo.cacheHits > 0 && !openByMultipleReaders && size < Room(offset)
    {
      if !fileInfo.allowCaching || fileInfo.cacheHits <= 0 || openByMultipleReaders then 0
      else
        var maxCacheLen := Room(offset);
        RoomAtStart();
        if size >= maxCacheLen then 0
        else if offset == 0 && size < SLOWSTART_READLEN then SLOWSTART_READLEN
        else maxCacheLen
    }

    /** The buffer holds what a read of n bytes at offset may return. */
    ghost predicate ReadAhead(offset: nat, n: nat)
      reads this, remote`contents, if buf == null then {} else {buf}
    {
      var c := View().cache;
      c.ReadCache? && c.off == offset && ReadOf(remote.contents, remote.chunkSize, offset, n, c.data)
    }

    /** Reads with no buffer attached: reads ahead into a new buffer if that may pay off, else directly. */
    method ReadCacheFlushed(at: nat, size: nat, writable: nat, offset: nat, fileInfo: FileInfo)
      returns (res: int, data: seq<Byte>)
      requires Valid() && bufType == NONE
      modifies this, remote`failure, pool, refStore, pool.all
      ensures Valid() && OthersUntouched() && Contents() == remote.contents
      ensures ReadTells(res, old(remote.failure), remote.failure, writable < at + size)
      ensures res >= 0 ==> res == |data| && ReadOf(remote.contents, remote.chunkSize, offset, size, data)
      ensures BufferStep() && OtherRefs() == old(OtherRefs())
      // if that may pay off
      ensures var n := old(ReadBufferLen(size, offset, fileInfo));
        if n == 0 || old(pool.free) == [] then bufType == NONE else res > 0 ==> ReadAhead(offset, n)
    {
      var maxCacheLen := ReadBufferLen(size, offset, fileInfo);
      if maxCacheLen > 0 {
        buf := pool.InstantBuf();
      }
      if buf == null {
        res, data := remote.ReadFile(size, offset);
        return;
      }
      res, data := FillReadBuffer(at, size, writable, offset, maxCacheLen);
    }

    /** Reads ahead into a buffer. */
    method FetchInto(dst: array<Byte>, size: nat, offset: nat) returns (readRes: int, ghost fetched: seq<Byte>)
      requires size <= dst.Length
      modifies dst, remote`failure
      ensures remote.failure == if readRes < 0 then -readRes else old(remote.failure)
      ensures readRes >= 0 ==> readRes == |fetched| <= size && dst[..readRes] == fetched
      ensures readRes >= 0 ==> ReadOf(remote.contents, remote.chunkSize, offset, size, fetched)
      ensures readRes > 0 ==> Coherent(FileView(remote.contents, ReadCache(offset, fetched)))
    {
      var data;
      readRes, data := remote.ReadFile(size, offset);
      fetched := data;
      if readRes > 0 {
        StoreBytes(dst, 0, data);
      }
    }

    /** The second half of ReadCacheFlushed: fetches into the attached pool buffer and hands the front part out. */
    method FillReadBuffer(at: nat, size: nat, writable: nat, offset: nat, maxCacheLen: nat)
      returns (res: int, data: seq<Byte>)
      requires pool.Valid() && SLOWSTART_READLEN <= pool.bufSize
      requires buf != null && buf in pool.out && size < maxCacheLen <= pool.bufSize
      requires offset + maxCacheLen <= remote.ChunkEnd(offset) + 1
      modifies this, remote`failure, pool, refStore, buf
      ensures Valid() && OthersUntouched() && Contents() == remote.contents
      ensures res >= 0 ==> res == |data| && ReadOf(remote.contents, remote.chunkSize, offset, size, data)
      ensures ReadTells(res, old(remote.failure), remote.failure, writable < at + size)
      // what has been read ahead is kept
      ensures res > 0 ==> bufType == READ && ReadAhead(offset, maxCacheLen)
      ensures (buf == null <==> this !in refStore.members) && OtherRefs() == old(OtherRefs())
    {
      bufType := READ;
      var readRes, fetched := FetchInto(buf, maxCacheLen, offset);
      if readRes >= 0 {
        ReadPrefix(remote.contents, remote.chunkSize, offset, maxCacheLen, fetched, size);
      }
      if readRes <= 0 {
        DiscardCache();
        return readRes, [];
      }
      var n := Min(size, readRes);
      var notCopied;
      notCopied, data := CopyToUser(at, writable, buf, 0, n);
      if notCopied != 0 {
        DiscardCache();
        return -ADDRESSFAULT, [];
      }
      assert data == fetched[..n];
      KeepReadData(offset, readRes, maxCacheLen, fetched);
      res := n;
    }

    /** Keeps what has been read ahead, and tells the flusher. */
    method KeepReadData(offset: nat, readRes: nat, maxCacheLen: nat, ghost fetched: seq<Byte>)
      requires Usable() && bufType == READ && readRes <= maxCacheLen <= pool.bufSize && buf[..readRes] == fetched
      requires offset + maxCacheLen <= remote.ChunkEnd(offset) + 1
      requires Coherent(FileView(remote.contents, ReadCache(offset, fetched)))
      modifies this, refStore
      ensures Valid() && buf == old(buf) && bufType == READ && Contents() == remote.contents
      ensures View().cache == ReadCache(offset, fetched)
      ensures this in refStore.members && OtherRefs() == old(OtherRefs())
    {
      bufUsageLen, bufUsageMaxLen, fileOffset := readRes, maxCacheLen, offset;
      assert View() == FileView(remote.contents, ReadCache(offset, fetched));
      refStore.AddAndReferenceInode(this);
    }

    /** There is no buffer, and a read is not to make one. */
    predicate IsPlainRead(fileInfo: FileInfo)
      reads this, fileInfo
    {
      (openByMultipleReaders || !fileInfo.allowCaching) && bufType == NONE
    }

    /** Buffered read: returns what one direct read of the logical file may return. */
    method ReadCached(size: nat, writable: nat, offset: nat, fileInfo: FileInfo) returns (res: int, data: seq<Byte>)
      requires Valid() && fileInfo.Valid()
      modifies this, remote, pool, refStore, pool.all, fileInfo`cacheHits
      ensures Valid() && OthersUntouched() && fileInfo.Valid()
      ensures res >= 0 || !old(View()).cache.AppendCache? ==> Contents() == old(Contents())
      ensures res >= 0 ==> res == |data| && ReadOf(old(Contents()), remote.chunkSize, offset, size, data)
      // a read is no error unless a call to the servers or user memory fails
      ensures ReadTells(res, old(remote.failure), remote.failure, writable < size)
      ensures size > 0 && !old(IsPlainRead(fileInfo)) ==>
        fileInfo.cacheHits == if old(ReadHits(size, offset, fileInfo))
          then Min(old(fileInfo.cacheHits) + 1, CACHE_HITS_THRESHOLD)
          else Max(old(fileInfo.cacheHits) - 1, CACHE_MISS_THRESHOLD)
      ensures old(IsPlainRead(fileInfo)) ==>
        fileInfo.cacheHits == old(fileInfo.cacheHits) && unchanged(this, pool, refStore)
      // one that the buffer can serve reaches no server
      ensures size > 0 && old(IsBuffered(size, offset)) && size <= writable ==>
        res == size && remote.failure == old(remote.failure) && unchanged(this, pool, refStore)
      // nothing stays unflushed
      ensures res >= 0 ==> Contents() == remote.contents
      ensures BufferStep()
      ensures OtherRefs() == old(OtherRefs())
    {
      if IsPlainRead(fileInfo) {
        res, data := remote.ReadFile(size, offset); // under the shared lock
        return;
      }
      res, data := ReadExclusive(size, writable, offset, fileInfo);
    }

    /** The part of ReadCached under the exclusive lock. */
    method ReadExclusive(size: nat, writable: nat, offset: nat, fileInfo: FileInfo) returns (res: int, data: seq<Byte>)
      requires Valid() && fileInfo.Valid()
      modifies this, remote, pool, refStore, pool.all, fileInfo`cacheHits
      ensures Valid() && OthersUntouched() && fileInfo.Valid()
      ensures res >= 0 || !old(View()).cache.AppendCache? ==> Contents() == old(Contents())
      ensures res >= 0 ==> res == |data| && ReadOf(old(Contents()), remote.chunkSize, offset, size, data)
      ensures ReadTells(res, old(remote.failure), remote.failure, writable < size)
      ensures size > 0 ==>
        fileInfo.cacheHits == if old(ReadHits(size, offset, fileInfo))
          then Min(old(fileInfo.cacheHits) + 1, CACHE_HITS_THRESHOLD)
          else Max(old(fileInfo.cacheHits) - 1, CACHE_MISS_THRESHOLD)
      ensures size > 0 && old(IsBuffered(size, offset)) && size <= writable ==>
        res == size && remote.failure == old(remote.failure) && unchanged(this, pool, refStore)
      ensures res >= 0 ==> Contents() == remote.contents
      ensures BufferStep()
      ensures OtherRefs() == old(OtherRefs())
    {
      if bufType == READ && OverlapsBuffer(size, offset) {
        Meet(fileOffset, bufUsageLen, offset, size);
        fileInfo.IncCacheHits();
        res, data := ReadThroughBuffer(size, writable, offset, fileInfo);
        return;
      }
      CountRead(size, offset, fileInfo);
      res, data := ReadAfterFlush(size, writable, offset, fileInfo);
    }

    /** A read that cannot use the buffer. */
    method CountRead(size: nat, offset: nat, fileInfo: FileInfo)
      requires fileInfo.Valid() && pool.bufSize > 0 && (bufType == READ ==> !OverlapsBuffer(size, offset))
      modifies fileInfo`cacheHits
      ensures fileInfo.Valid()
      ensures size > 0 ==> fileInfo.cacheHits == if old(ReadHits(size, offset, fileInfo))
        then Min(old(fileInfo.cacheHits) + 1, CACHE_HITS_THRESHOLD)
        else Max(old(fileInfo.cacheHits) - 1, CACHE_MISS_THRESHOLD)
    {
      Meet(fileInfo.lastReadOffset, pool.bufSize, offset, size);
      Meet(fileOffset, bufUsageLen, offset, size);
      var virtualEnd := fileInfo.lastReadOffset + pool.bufSize - 1;
      if bufType == NONE && virtualEnd >= offset && fileInfo.lastReadOffset <= offset + size - 1 {
        fileInfo.IncCacheHits();
      } else {
        fileInfo.DecCacheHits();
      }
    }

    /** The part of ReadCached that cannot use the buffer: it is flushed, and the data read like a first read. */
    method ReadAfterFlush(size: nat, writable: nat, offset: nat, fileInfo: FileInfo) returns (res: int, data: seq<Byte>)
      requires Valid()
      modifies this, remote, pool, refStore, pool.all
      ensures Valid() && OthersUntouched()
      ensures res >= 0 || !old(View()).cache.AppendCache? ==> Contents() == old(Contents())
      ensures res >= 0 ==> res == |data| && ReadOf(old(Contents()), remote.chunkSize, offset, size, data)
      ensures ReadTells(res, old(remote.failure), remote.failure, writable < size)
      // nothing stays unflushed
      ensures res >= 0 ==> Contents() == remote.contents
      ensures BufferStep()
      ensures OtherRefs() == old(OtherRefs())
    {
      var flushRes := FlushCacheUnlocked(false);
      if flushRes != SUCCESS {
        return -flushRes, [];
      }
      res, data := ReadCacheFlushed(0, size, writable, offset, fileInfo);
    }

    /** All bytes of the read have been read ahead. */
    predicate IsBuffered(size: nat, offset: nat)
      reads this
    {
      bufType == READ && fileOffset <= offset && offset + size <= fileOffset + bufUsageLen
    }

    predicate OverlapsBuffer(size: nat, offset: nat)
      reads this
    {
      fileOffset + bufUsageLen - 1 >= offset && fileOffset <= offset + size - 1
    }

    /**
     * A read that meets read-ahead data: the part before the buffer comes from the servers, the part inside it from
     * the buffer, and if a part behind it remains the buffer is given up and the rest read like a first read.
     */
    method ReadThroughBuffer(size: nat, writable: nat, offset: nat, fileInfo: FileInfo)
      returns (res: int, data: seq<Byte>)
      requires Valid() && bufType == READ && OverlapsBuffer(size, offset)
      modifies this, remote`failure, pool, refStore, pool.all
      ensures Valid() && OthersUntouched() && Contents() == remote.contents
      ensures ReadTells(res, old(remote.failure), remote.failure, writable < size)
      ensures res >= 0 ==> res == |data| && ReadOf(remote.contents, remote.chunkSize, offset, size, data)
      ensures old(IsBuffered(size, offset)) && size <= writable ==>
        res == size && remote.failure == old(remote.failure) && unchanged(this, pool, refStore)
      ensures BufferStep()
      ensures OtherRefs() == old(OtherRefs())
    {
      var cacheEndOffset := fileOffset + bufUsageLen - 1;
      var served;
      served, res, data := ServeFromBuffer(size, writable, offset);
      if !served || offset + size - 1 <= cacheEndOffset {
        return;
      }
      res, data := ReadBehindBuffer(data, size, writable, offset, fileInfo);
    }

    /** Reads what lies behind the first part of a read, which has been served: the buffer is given up. */
    method ReadBehindBuffer(first: seq<Byte>, size: nat, writable: nat, offset: nat, fileInfo: FileInfo)
      returns (res: int, data: seq<Byte>)
      requires Valid() && bufType == READ && |first| <= size && first == Slice(remote.contents, offset, |first|)
      modifies this, remote`failure, pool, refStore, pool.all
      ensures Valid() && OthersUntouched() && Contents() == remote.contents
      ensures ReadTells(res, old(remote.failure), remote.failure, writable < size)
      ensures res >= 0 ==> res == |data| && ReadOf(remote.contents, remote.chunkSize, offset, size, data)
      ensures BufferStep() && OtherRefs() == old(OtherRefs())
    {
      var rest;
      res, rest := ReadAnew(|first|, size - |first|, writable, offset + |first|, fileInfo);
      data := first + rest;
      if res >= 0 {
        ReadJoin(remote.contents, remote.chunkSize, offset, first, size, rest);
        res := |first| + res;
      }
    }

    /** Gives the buffer up and reads like a first read. */
    method ReadAnew(at: nat, size: nat, writable: nat, offset: nat, fileInfo: FileInfo)
      returns (res: int, data: seq<Byte>)
      requires Valid() && bufType == READ
      modifies this, remote`failure, pool, refStore, pool.all
      ensures Valid() && OthersUntouched() && Contents() == remote.contents
      ensures ReadTells(res, old(remote.failure), remote.failure, writable < at + size)
      ensures res >= 0 ==> res == |data| && ReadOf(remote.contents, remote.chunkSize, offset, size, data)
      ensures BufferStep() && OtherRefs() == old(OtherRefs())
    {
      DiscardCache();
      res, data := ReadCacheFlushed(at, size, writable, offset, fileInfo);
    }

    /**
     * The parts before and inside the buffer; not served if user memory fails or the first part cannot be read
     * completely.
     */
    method ServeFromBuffer(size: nat, writable: nat, offset: nat) returns (served: bool, res: int, data: seq<Byte>)
      requires Valid() && bufType == READ && OverlapsBuffer(size, offset)
      modifies this, remote`failure, pool, refStore
      ensures Valid() && OthersUntouched() && Contents() == remote.contents
      ensures served ==> unchanged(this, pool, refStore)
      ensures served ==> res == |data| == Min(offset + size, fileOffset + bufUsageLen) - offset
      ensures served ==> data == Slice(remote.contents, offset, res)
      ensures !served && res >= 0 ==> res == |data| && ReadOf(remote.contents, remote.chunkSize, offset, size, data)
      ensures !served && res < 0 ==> Explained(res, remote.failure, writable < size)
      ensures served || res >= 0 ==> remote.failure == old(remote.failure)
      // the buffer is given up unless it is the user's memory that fails
      ensures !served ==> bufType == NONE || (writable < size && unchanged(this, pool, refStore))
      ensures old(remote.Troubled()) ==> remote.Troubled()
      ensures offset >= old(fileOffset) ==> remote.failure == old(remote.failure) && (served || writable < size)
      ensures BufferStep()
      ensures OtherRefs() == old(OtherRefs())
    {
      var complete;
      complete, res, data := ReadBeforeBuffer(size, offset);
      if !complete {
        DiscardCache();
        return false, res, data;
      }
      served, data := AddFromBuffer(data, size, writable, offset);
      res := if served then |data| else -ADDRESSFAULT;
    }

    /** Adds the part inside the buffer to the one before it. */
    method AddFromBuffer(first: seq<Byte>, size: nat, writable: nat, offset: nat) returns (ok: bool, data: seq<Byte>)
      requires Valid() && bufType == READ && OverlapsBuffer(size, offset)
      requires |first| == Max(0, fileOffset - offset) && first == Slice(remote.contents, offset, |first|)
      ensures ok || writable < size
      ensures ok ==> |data| == Min(offset + size, fileOffset + bufUsageLen) - offset
      ensures ok ==> data == Slice(remote.contents, offset, |data|)
    {
      ok, data := CopyFromBuffer(|first|, size, writable, offset);
      if ok {
        SliceJoin(remote.contents, offset, |first|, |data|);
      }
      data := first + data;
    }

    /**
     * The part before the buffer; incomplete after an error or at a hole, as a coherent buffer lies before the end of
     * the file.
     */
    method ReadBeforeBuffer(size: nat, offset: nat) returns (complete: bool, res: int, data: seq<Byte>)
      requires Valid() && bufType == READ && OverlapsBuffer(size, offset)
      modifies remote`failure
      ensures old(remote.Troubled()) ==> remote.Troubled()
      ensures offset >= fileOffset ==> complete && remote.failure == old(remote.failure)
      ensures !complete && res < 0 ==> res == -remote.failure
      ensures complete || res >= 0 ==> remote.failure == old(remote.failure)
      ensures complete ==> |data| == Max(0, fileOffset - offset) && data == Slice(remote.contents, offset, |data|)
      ensures !complete && res >= 0 ==> res == |data| && ReadOf(remote.contents, remote.chunkSize, offset, size, data)
    {
      if offset >= fileOffset {
        return true, 0, [];
      }
      var n := fileOffset - offset;
      res, data := remote.ReadFile(n, offset);
      complete := res == n;
      if 0 <= res < n {
        ReadStopped(remote.contents, remote.chunkSize, offset, n, data, size);
      }
    }

    /** The part of a read that the buffer holds, handed out at `at`; false if user memory cannot take it. */
    method CopyFromBuffer(at: nat, size: nat, writable: nat, offset: nat) returns (ok: bool, copied: seq<Byte>)
      requires Valid() && bufType == READ && OverlapsBuffer(size, offset) && at == Max(0, fileOffset - offset)
      ensures ok || writable < size
      ensures ok ==> |copied| == Min(offset + size, fileOffset + bufUsageLen) - offset - at
      ensures ok ==> copied == Slice(remote.contents, offset + at, |copied|)
    {
      var cacheCopyOffset := Max(0, offset - fileOffset);
      var cacheCopySize := Min(fileOffset + bufUsageLen, offset + size) - (fileOffset + cacheCopyOffset);
      assert at + cacheCopySize <= size;
      var notCopied;
      notCopied, copied := CopyToUser(at, writable, buf, cacheCopyOffset, cacheCopySize);
      ok := notCopied == 0;
      if ok {
        assert copied == buf[..bufUsageLen][cacheCopyOffset..cacheCopyOffset + cacheCopySize];
        BufferSlice(View(), offset + at, cacheCopyOffset, cacheCopySize);
      }
    }
  }

  /** Read-ahead data stands for the same part of the file. */
  lemma BufferSlice(v: FileView, from: nat, at: nat, n: nat)
    requires Coherent(v) && v.cache.ReadCache? && from == v.cache.off + at && at + n <= |v.cache.data|
    ensures |Slice(v.remote, from, n)| == n && Slice(v.remote, from, n) == v.cache.data[at..at + n]
  {
  }

  /** A store whose result was lost still stayed inside its range. */
  lemma StoredWithin(before: File, after: File, off: nat, data: seq<Byte>, res: int)
    requires StoredAt(before, after, off, data, res)
    ensures ChangedWithin(before, after, off, |data|)
  {
  }

  lemma FlushOutcome(before: FileView, remote2: File, res: int)
    requires HasUnflushed(before)
    requires StoredAt(before.remote, remote2, BufferStart(before), before.cache.data, res)
    ensures res == |before.cache.data| ==> remote2 == Logical(before)
    ensures before.cache.WriteCache? ==> Logical(FileView(remote2, before.cache)) == Logical(before)
    ensures ChangedWithin(before.remote, remote2, BufferStart(before), |before.cache.data|)
  {
    var off := BufferStart(before);
    StoredWithin(before.remote, remote2, off, before.cache.data, res);
    FlushKeepsLogical(before.remote, remote2, off, before.cache.data, res);
    SpliceAtEnd(before.remote, before.cache.data);
  }
}
