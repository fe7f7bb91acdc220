/**
 * Reading a striped file with holes. A server may hold less of a chunk than the file's size implies, and a read then
 * stops there; the sparse path reads chunk by chunk and fills the holes with zeros.
 */
module SparseRead {
  import opened FileBytes
  import opened FileView
  import opened CacheStores
  import FileCache

  /** The part of the user's buffer from `at` on holds the zero-extended file from `offset` on. */
  ghost predicate Filled(f: File, bytes: seq<Byte>, at: nat, n: nat, offset: nat) {
    at + n <= |bytes| && forall k :: at <= k < at + n ==> bytes[k] == ByteAt(f, offset + (k - at))
  }

  /** Stores data at `at` and zeros behind it, up to n bytes. */
  method StoreOrClear(buf: array<Byte>, at: nat, data: seq<Byte>, n: nat)
    requires |data| <= n && at + n <= buf.Length
    modifies buf
    ensures buf[..at] == old(buf[..at]) && buf[at..at + n] == data + Zeros(n - |data|)
    ensures buf[at + n..] == old(buf[at + n..])
  {
    StoreBytes(buf, at, data + Zeros(n - |data|));
  }

  /** One round of the loop: the rest of the chunk, or what is wanted of it. */
  method ReadChunk(remote: RemoteFile, buf: array<Byte>, at: nat, n: nat, offset: nat) returns (err: int)
    requires at + n <= buf.Length && n > 0 && offset + n - 1 <= remote.ChunkEnd(offset)
    modifies buf, remote`failure
    ensures err == SUCCESS ==> Filled(remote.contents, buf[..], at, n, offset)
    ensures Tells(err == SUCCESS, old(remote.failure), remote.failure)
    ensures buf[..at] == old(buf[..at]) && buf[at + n..] == old(buf[at + n..])
  {
    var res, data := remote.ReadFile(n, offset);
    if res < 0 {
      return -res;
    }
    StoreOrClear(buf, at, data, n);
    ChunkFilled(remote.contents, remote.chunkSize, data, n, offset);
    FilledAt(remote.contents, data + Zeros(n - |data|), buf[..], at, n, offset);
    return SUCCESS;
  }

  lemma FilledAt(f: File, part: seq<Byte>, bytes: seq<Byte>, at: nat, n: nat, offset: nat)
    requires Filled(f, part, 0, n, offset) && at + n <= |bytes| && bytes[at..at + n] == part
    ensures Filled(f, bytes, at, n, offset)
  {
    forall k | at <= k < at + n ensures bytes[k] == ByteAt(f, offset + (k - at)) {
      assert bytes[k] == part[k - at];
    }
  }

  /** What a read inside one chunk did not find is zero. */
  lemma ChunkFilled(f: File, chunkSize: ChunkSize, data: seq<Byte>, n: nat, offset: nat)
    requires n > 0 && offset + n - 1 <= EndOfChunk(chunkSize, offset) && ReadOf(f, chunkSize, offset, n, data)
    ensures |data| <= n && Filled(f, data + Zeros(n - |data|), 0, n, offset)
  {
    var r := data + Zeros(n - |data|);
    forall k | 0 <= k < n ensures r[k] == ByteAt(f, offset + k) {
      if k < |data| {
        assert data[k] == Slice(f, offset, n)[k];
      } else {
        NotFound(f, chunkSize, data, n, offset, k);
      }
    }
  }

  lemma NotFound(f: File, chunkSize: ChunkSize, data: seq<Byte>, n: nat, offset: nat, k: nat)
    requires offset + n - 1 <= EndOfChunk(chunkSize, offset) && ReadOf(f, chunkSize, offset, n, data)
    requires |data| <= k < n
    ensures ByteAt(f, offset + k) == 0
  {
    ChunkEndsLater(chunkSize, offset, offset + |data|);
  }

  lemma ChunkEndsLater(chunkSize: ChunkSize, p: nat, q: nat)
    requires p <= q
    ensures EndOfChunk(chunkSize, p) <= EndOfChunk(chunkSize, q)
  {
    ChunksBetween(p / chunkSize, q / chunkSize, chunkSize, p, q);
    MoreChunks(p / chunkSize + 1, q / chunkSize + 1, chunkSize);
  }

  lemma ChunksBetween(m: nat, n: nat, chunkSize: nat, p: nat, q: nat)
    requires m * chunkSize <= p <= q < (n + 1) * chunkSize
    ensures m <= n
  {
    if m > n {
      MoreChunks(n + 1, m, chunkSize);
      assert false;
    }
  }

  lemma MoreChunks(m: nat, n: nat, chunkSize: nat)
    requires m <= n
    ensures m * chunkSize <= n * chunkSize
  {
  }

  /**
   * Reads chunk by chunk and clears what the servers do not hold; the caller has made sure that the file is long
   * enough.
   */
  method ReadOrClearUser(remote: RemoteFile, buf: array<Byte>, at: nat, size: nat, offset: nat) returns (err: int)
    requires at + size <= buf.Length
    modifies buf, remote`failure
    ensures err == SUCCESS ==> Filled(remote.contents, buf[..], at, size, offset)
    ensures Tells(err == SUCCESS, old(remote.failure), remote.failure)
    ensures buf[..at] == old(buf[..at]) && buf[at + size..] == old(buf[at + size..])
  {
    var toBeRead, currentOffset := size, offset;
    while toBeRead > 0
      invariant 0 <= toBeRead <= size && currentOffset == offset + (size - toBeRead)
      invariant Filled(remote.contents, buf[..], at, size - toBeRead, offset)
      invariant remote.failure == old(remote.failure)
      invariant buf[..at] == old(buf[..at]) && buf[at + size..] == old(buf[at + size..])
      decreases toBeRead
    {
      var currentBufOffset := size - toBeRead;
      var currentReadSize := Min(remote.ChunkEnd(currentOffset) - currentOffset + 1, toBeRead);
      ghost var was := buf[..];
      err := ReadChunk(remote, buf, at + currentBufOffset, currentReadSize, currentOffset);
      assert buf[..at] == buf[..at + currentBufOffset][..at] && was[..at + currentBufOffset][..at] == was[..at];
      assert buf[at + size..] == buf[at + currentBufOffset + currentReadSize..][toBeRead - currentReadSize..];
      assert was[at + size..] == was[at + currentBufOffset + currentReadSize..][toBeRead - currentReadSize..];
      if err != SUCCESS {
        return;
      }
      FilledLonger(remote.contents, was, buf[..], at, currentBufOffset, currentReadSize, offset);
      currentOffset := currentOffset + currentReadSize;
      toBeRead := toBeRead - currentReadSize;
    }
    return SUCCESS;
  }

  lemma FilledLonger(f: File, was: seq<Byte>, now: seq<Byte>, at: nat, n: nat, m: nat, offset: nat)
    requires |was| == |now| && Filled(f, was, at, n, offset) && Filled(f, now, at + n, m, offset + n)
    requires now[..at + n] == was[..at + n]
    ensures Filled(f, now, at, n + m, offset)
  {
  }

  /** The inode's idea of the file size before and after asking the servers. */
  datatype SizeView = SizeView(before: nat, refreshed: nat)

  /** How many bytes a read returns whose first part found n bytes. */
  function ReadCount(n: nat, size: nat, offset: nat, sizes: SizeView): nat {
    if n < size && sizes.before > offset + n then n + Min(size - n, Max(0, sizes.refreshed - (offset + n))) else n
  }

  /** The sparse path: asks for the file size, and reads up to there; may fail. */
  method ReadSparse(remote: RemoteFile, buf: array<Byte>, at: nat, size: nat, offset: nat, refreshed: nat)
    returns (res: int)
    requires at + size <= buf.Length
    modifies buf, remote`failure
    ensures Tells(res >= 0, old(remote.failure), remote.failure)
    ensures res >= 0 ==>
      res == Min(size, Max(0, refreshed - offset)) && Filled(remote.contents, buf[..], at, res, offset)
    ensures buf[..at] == old(buf[..at])
  {
    var refreshRes := remote.Call(); // asks for the size
    if refreshRes != SUCCESS {
      return -refreshRes;
    }
    if refreshed <= offset {
      return 0;
    }
    var length := Min(size, refreshed - offset);
    var err := ReadOrClearUser(remote, buf, at, length, offset);
    res := if err == SUCCESS then length else -1;
  }

  /** The bytes a read found are at the start of the user's buffer. */
  method StoreRead(buf: array<Byte>, data: seq<Byte>, size: nat, offset: nat, ghost f: File, ghost chunkSize: ChunkSize)
    requires size <= buf.Length && ReadOf(f, chunkSize, offset, size, data)
    modifies buf
    ensures Filled(f, buf[..], 0, |data|, offset) && |data| <= size && (data != [] ==> offset + |data| <= |f|)
    ensures |data| < size ==> IsHole(f, chunkSize, offset + |data|)
  {
    StoreBytes(buf, 0, data);
    forall k | 0 <= k < |data| ensures buf[k] == ByteAt(f, offset + k) {
      assert buf[k] == buf[..][k] == data[k] == Slice(f, offset, size)[k];
    }
  }

  /** What comes after a first part of n bytes: the sparse path, if the inode knows of more. */
  method ReadRest(remote: RemoteFile, buf: array<Byte>, n: nat, size: nat, offset: nat, sizes: SizeView)
    returns (res: int)
    requires n <= size <= buf.Length && Filled(remote.contents, buf[..], 0, n, offset)
    modifies buf, remote`failure
    ensures Tells(res >= 0, old(remote.failure), remote.failure)
    ensures res >= 0 ==> res == ReadCount(n, size, offset, sizes) && Filled(remote.contents, buf[..], 0, res, offset)
  {
    if n == size || sizes.before <= offset + n {
      return n;
    }
    ghost var was := buf[..];
    res := ReadSparse(remote, buf, n, size - n, offset + n, sizes.refreshed);
    if res >= 0 {
      FilledLonger(remote.contents, was, buf[..], 0, n, res, offset);
      res := n + res;
    }
  }

  /** The bytes of the first part and what comes after them. */
  method Deliver(remote: RemoteFile, buf: array<Byte>, data: seq<Byte>, size: nat, offset: nat, sizes: SizeView)
    returns (res: int)
    requires size <= buf.Length && ReadOf(remote.contents, remote.chunkSize, offset, size, data)
    modifies buf, remote`failure
    ensures Tells(res >= 0, old(remote.failure), remote.failure)
    ensures |data| <= size && (data != [] ==> offset + |data| <= |remote.contents|)
    ensures |data| < size ==> IsHole(remote.contents, remote.chunkSize, offset + |data|)
    ensures res >= 0 ==>
      res == ReadCount(|data|, size, offset, sizes) <= size && Filled(remote.contents, buf[..], 0, res, offset)
  {
    StoreRead(buf, data, size, offset, remote.contents, remote.chunkSize);
    res := ReadRest(remote, buf, |data|, size, offset, sizes);
  }

  /**
   * The read call: the buffered read, and the sparse path if it stopped short although the inode knows of more. The
   * buffered read leaves nothing unflushed, so the servers have everything the sparse path asks for.
   */
  method Read(inode: FileCache.FhgfsInode, buf: array<Byte>, size: nat, writable: nat, offset: nat, fileInfo: FileInfo,
      sizes: SizeView)
    returns (res: int, ghost n: int)
    requires inode.Valid() && fileInfo.Valid() && size <= buf.Length && buf !in inode.pool.all
    modifies inode, inode.remote, inode.pool, inode.refStore, inode.pool.all, fileInfo, buf
    ensures inode.Valid() && fileInfo.Valid() && (res >= 0 ==> inode.Contents() == old(inode.Contents()))
    ensures res >= 0 ==> 0 <= n <= size && res == ReadCount(n, size, offset, sizes) <= size
    ensures res >= 0 ==> Filled(inode.Contents(), buf[..], 0, res, offset)
    ensures res >= 0 && n < size ==> IsHole(inode.Contents(), inode.remote.chunkSize, offset + n)
    ensures res >= 0 && n > 0 ==> offset + n <= |inode.Contents()|
    ensures res >= 0 ==> fileInfo.lastReadOffset == offset + res
    ensures res < 0 ==> inode.remote.Troubled() || writable < size
    ensures res >= 0 ==> inode.remote.failure == old(inode.remote.failure)
  {
    var data;
    res, data := inode.ReadCached(size, writable, offset, fileInfo);
    n := res;
    if res < 0 {
      return;
    }
    fileInfo.lastReadOffset := offset + res;
    res := Deliver(inode.remote, buf, data, size, offset, sizes);
    if res >= 0 {
      fileInfo.lastReadOffset := offset + res;
    }
  }

  /**
   * With an up-to-date size from the refresh, the read is complete exactly if the first part already was, or if the
   * size known before reached behind it; a stale smaller size makes the read stop at a hole.
   */
  lemma CompleteIff(f: File, n: nat, size: nat, offset: nat, sizes: SizeView)
    requires sizes.refreshed == |f| && n <= size && (n > 0 ==> offset + n <= |f|)
    ensures ReadCount(n, size, offset, sizes) == Min(size, Max(0, |f| - offset)) <==>
      n == Min(size, Max(0, |f| - offset)) || sizes.before > offset + n
  {
  }
}
