/** What a file means while a client holds a buffer for it, and what a call may do to that meaning. */
module FileView {
  import opened FileBytes

  /** The buffer of one inode: none, read-ahead data, unflushed data at a position, or unflushed append data. */
  datatype Cached =
    | NoCache
    | ReadCache(off: nat, data: seq<Byte>)
    | WriteCache(off: nat, data: seq<Byte>)
    | AppendCache(data: seq<Byte>)

  datatype FileView = FileView(remote: File, cache: Cached)

  /** The file the application has written: the server contents overlaid by the unflushed buffer. */
  function Logical(v: FileView): File {
    match v.cache
    case NoCache => v.remote
    case ReadCache(_, _) => v.remote
    case WriteCache(off, data) => Splice(v.remote, off, data)
    case AppendCache(data) => v.remote + data
  }

  /** Read-ahead data is a non-empty copy of the server bytes it covers. */
  predicate Coherent(v: FileView) {
    match v.cache
    case ReadCache(off, data) => data != [] && off + |data| <= |v.remote| && v.remote[off..off + |data|] == data
    case _ => true
  }

  /**
   * What a write of `data` at `off` returning `res` may do: a non-negative result has stored exactly data[..res]
   * (a short write may have damaged the rest of its own range), a negative one touched at most its own range.
   */
  ghost predicate StoredAt(before: File, after: File, off: nat, data: seq<Byte>, res: int) {
    && res <= |data|
    && (res >= 0 ==> ChangedWithin(Splice(before, off, data[..res]), after, off + res, |data| - res))
    && (res < 0 ==> ChangedWithin(before, after, off, |data|))
  }

  /** Where a write at `offset` goes: -1 stands for the end of the file. */
  function Target(f: File, offset: int): nat
    requires offset >= -1
  {
    if offset == -1 then |f| else offset
  }

  /** A flush that did not deliver everything changed the server only where the buffer lies over it. */
  lemma {:induction false} FlushKeepsLogical(remote: File, remote2: File, off: nat, data: seq<Byte>, res: int)
    requires StoredAt(remote, remote2, off, data, res)
    ensures Logical(FileView(remote2, WriteCache(off, data))) == Logical(FileView(remote, WriteCache(off, data)))
    ensures res == |data| ==> remote2 == Logical(FileView(remote, WriteCache(off, data)))
  {
    if res < 0 {
      SpliceRepairs(remote, remote2, off, data);
    } else {
      SpliceWithin(remote, off, data[..res], Splice(remote, off, data[..res]), off, 0);
      assert ChangedWithin(remote, remote2, off, |data|);
      SpliceRepairs(remote, remote2, off, data);
      assert res == |data| ==> data[..res] == data;
    }
  }

  /** Extending the buffer is storing the new bytes in the logical file. */
  lemma ExtendBuffer(remote: File, off: nat, a: seq<Byte>, b: seq<Byte>)
    ensures Logical(FileView(remote, WriteCache(off, a + b))) ==
            Splice(Logical(FileView(remote, WriteCache(off, a))), off + |a|, b)
    ensures Logical(FileView(remote, AppendCache(a + b))) ==
            Splice(Logical(FileView(remote, AppendCache(a))), |Logical(FileView(remote, AppendCache(a)))|, b)
  {
    SpliceAdjacent(remote, off, a, b);
    SpliceAtEnd(remote + a, b);
    assert remote + (a + b) == remote + a + b;
  }

  /** Data that only went into a fresh buffer has been stored in the logical file. */
  lemma BufferedStore(remote: File, off: nat, data: seq<Byte>)
    ensures StoredAt(remote, Logical(FileView(remote, WriteCache(off, data))), off, data, |data|)
    ensures StoredAt(remote, Logical(FileView(remote, AppendCache(data))), |remote|, data, |data|)
  {
  }

  lemma FailedUntouched(f: File, off: nat, data: seq<Byte>, res: int)
    requires res < 0
    ensures StoredAt(f, f, off, data, res)
  {
  }

  predicate HasUnflushed(v: FileView) {
    v.cache.WriteCache? || v.cache.AppendCache?
  }

  /** v with data added to its write buffer. */
  function Add(v: FileView, data: seq<Byte>): FileView
    requires HasUnflushed(v)
  {
    var all := v.cache.data + data;
    v.(cache := if v.cache.WriteCache? then WriteCache(v.cache.off, all) else AppendCache(all))
  }

  function BufferStart(v: FileView): nat
    requires HasUnflushed(v)
  {
    if v.cache.WriteCache? then v.cache.off else |v.remote|
  }

  function EndOfBuffer(v: FileView): nat
    requires HasUnflushed(v)
  {
    BufferStart(v) + |v.cache.data|
  }

  lemma BufferExtended(before: FileView, after: FileView, data: seq<Byte>)
    requires HasUnflushed(before) && after == Add(before, data)
    ensures StoredAt(Logical(before), Logical(after), EndOfBuffer(before), data, |data|)
  {
    var r, d := before.remote, before.cache.data;
    ExtendBuffer(r, if before.cache.WriteCache? then before.cache.off else 0, d, data);
    StoredCompletely(Logical(before), EndOfBuffer(before), data);
  }

  lemma StoredCompletely(f: File, off: nat, data: seq<Byte>)
    ensures StoredAt(f, Splice(f, off, data), off, data, |data|)
  {
    assert data[..|data|] == data;
  }

  /** A write reported as failed although its data was stored still stayed inside its range. */
  lemma FailedAfterStore(before: File, after: File, off: nat, data: seq<Byte>, res: int)
    requires StoredAt(before, after, off, data, |data|) && res < 0
    ensures StoredAt(before, after, off, data, res)
  {
  }

  // reads

  const STRIPEPATTERN_MIN_CHUNKSIZE := 64 * 1024

  /** Chunk sizes are powers of two, and not smaller than the minimum. */
  type ChunkSize = n: int | n > 0 && n % STRIPEPATTERN_MIN_CHUNKSIZE == 0 witness STRIPEPATTERN_MIN_CHUNKSIZE

  /** Last file position of the chunk holding pos. */
  function EndOfChunk(chunkSize: ChunkSize, pos: nat): (end: nat)
    ensures pos <= end < pos + chunkSize
    ensures end + 1 == (pos / chunkSize + 1) * chunkSize
  {
    pos - pos % chunkSize + chunkSize - 1
  }

  /** From p on the chunk holds nothing but zeros, so that its server may not have it. */
  predicate IsHole(f: File, chunkSize: ChunkSize, p: nat) {
    forall i :: p <= i < |f| && i <= EndOfChunk(chunkSize, p) ==> f[i] == 0
  }

  /** What a read may return: the bytes asked for up to the end of the file, or up to a hole. */
  predicate ReadOf(f: File, chunkSize: ChunkSize, off: nat, size: nat, data: seq<Byte>) {
    && data <= Slice(f, off, size)
    && (|data| < |Slice(f, off, size)| ==> IsHole(f, chunkSize, off + |data|))
  }

  /** A read begins with what a shorter read returns. */
  lemma ReadPrefix(f: File, chunkSize: ChunkSize, off: nat, size: nat, data: seq<Byte>, n: nat)
    requires ReadOf(f, chunkSize, off, size, data) && n <= size
    ensures ReadOf(f, chunkSize, off, n, data[..Min(n, |data|)])
  {
    assert Slice(f, off, n) == Slice(f, off, size)[..|Slice(f, off, n)|];
  }

  /** A read is its complete first part followed by the rest. */
  lemma ReadJoin(f: File, chunkSize: ChunkSize, off: nat, first: seq<Byte>, size: nat, rest: seq<Byte>)
    requires |first| <= size && first == Slice(f, off, |first|)
    requires ReadOf(f, chunkSize, off + |first|, size - |first|, rest)
    ensures ReadOf(f, chunkSize, off, size, first + rest)
  {
    JoinedPrefix(f, off, first, size, rest, first + rest);
    SameHole(f, chunkSize, off + |first| + |rest|, off + |first + rest|);
  }

  lemma JoinedPrefix(f: File, off: nat, first: seq<Byte>, size: nat, rest: seq<Byte>, all: seq<Byte>)
    requires |first| <= size && first == Slice(f, off, |first|) && all == first + rest
    requires rest <= Slice(f, off + |first|, size - |first|)
    ensures all <= Slice(f, off, size)
    ensures |all| < |Slice(f, off, size)| ==> |rest| < |Slice(f, off + |first|, size - |first|)|
  {
    var n := |first|;
    SliceJoin(f, off, n, size - n);
    PrefixJoin(first, rest, Slice(f, off + n, size - n), all, Slice(f, off, size));
  }

  lemma SameHole(f: File, chunkSize: ChunkSize, p: nat, q: nat)
    requires p == q
    ensures IsHole(f, chunkSize, p) <==> IsHole(f, chunkSize, q)
  {
  }

  lemma SliceJoin(f: File, off: nat, n: nat, m: nat)
    requires |Slice(f, off, n)| == n
    ensures Slice(f, off, n + m) == Slice(f, off, n) + Slice(f, off + n, m)
  {
  }

  lemma PrefixJoin(a: seq<Byte>, b: seq<Byte>, c: seq<Byte>, ab: seq<Byte>, ac: seq<Byte>)
    requires b <= c && ab == a + b && ac == a + c
    ensures ab <= ac && |ab| == |a| + |b| && (|ab| < |ac| <==> |b| < |c|)
  {
    assert c == b + c[|b|..];
    assert ac == ab + c[|b|..];
  }

  /** A read that stopped at a hole is as far as a longer read gets. */
  lemma ReadStopped(f: File, chunkSize: ChunkSize, off: nat, n: nat, data: seq<Byte>, size: nat)
    requires ReadOf(f, chunkSize, off, n, data) && |data| < n <= size && off + n <= |f|
    ensures ReadOf(f, chunkSize, off, size, data)
  {
    assert Slice(f, off, n) == Slice(f, off, size)[..n];
    assert data == Slice(f, off, size)[..|data|];
  }
}
