/** The parties around a file buffer: the servers, user memory, the buffer pool and the open-file counters. */
module CacheStores {
  import opened FileBytes
  import opened FileView

  // error codes, negated when they travel in a byte count
  const SUCCESS := 0
  const COMMUNICATION := 3
  const NOSPACE := 14
  const ADDRESSFAULT := 21

  /** The code of the latest failure after a write of n bytes returned res. */
  function FailureOf(res: int, n: nat, was: int): int {
    if res < 0 then -res else if res < n then NOSPACE else was
  }

  /** A result that is no failure hides none. */
  predicate Tells(ok: bool, was: int, failure: int) {
    if ok then failure == was else failure != SUCCESS
  }

  /** A negative result stands for the latest failure of a call, or for user memory that cannot be used. */
  predicate Explained(res: int, failure: int, fault: bool) {
    res == -failure || (res == -ADDRESSFAULT && fault)
  }

  /** The same for writes, of which a complete one hides no failure, and a short one stands for a failure too. */
  predicate WriteTells(res: int, n: nat, was: int, failure: int, fault: bool) {
    if res == n then failure == was
    else
      && (failure != SUCCESS || fault) && (res < 0 ==> Explained(res, failure, fault))
      && (was != SUCCESS ==> failure != SUCCESS)
  }

  /** The same for reads, of which other results hide no failure. */
  predicate ReadTells(res: int, was: int, failure: int, fault: bool) {
    if res >= 0 then failure == was else Explained(res, failure, fault) && (was != SUCCESS ==> failure != SUCCESS)
  }

  /** The servers' copy of one file. Its methods are the remoting calls, with every outcome they may have. */
  class RemoteFile {
    var contents: File
    const chunkSize: ChunkSize
    ghost var failure: int // code of the latest call that failed; a write that stops short means a lack of space

    constructor (contents: File, chunkSize: ChunkSize)
      ensures this.contents == contents && this.chunkSize == chunkSize && !Troubled()
    {
      this.contents, this.chunkSize, failure := contents, chunkSize, SUCCESS;
    }

    /** Some call has failed. */
    ghost predicate Troubled()
      reads this`failure
    {
      failure != SUCCESS
    }

    /** Last file position of the chunk holding pos. */
    function ChunkEnd(pos: nat): (end: nat)
      ensures pos <= end < pos + chunkSize
      ensures end + 1 == (pos / chunkSize + 1) * chunkSize
    {
      EndOfChunk(chunkSize, pos)
    }

    /** A striped write: may stop short or fail, possibly after some servers stored their share. */
    method WriteFile(data: seq<Byte>, off: nat) returns (res: int)
      modifies this
      ensures res == 0 <==> data == []
      ensures StoredAt(old(contents), contents, off, data, res)
      ensures failure == FailureOf(res, |data|, old(failure))
    {
      if data == [] {
        return 0;
      }
      res := *;
      if res > |data| {
        res := |data|;
      } else if res == 0 {
        res := -COMMUNICATION;
      }
      var stored := if res < 0 then contents else Splice(contents, off, data[..res]);
      var lo, n := if res < 0 then off else off + res, if res < 0 then |data| else |data| - res;
      assert ChangedWithin(stored, stored, lo, n);
      var left: File :| ChangedWithin(stored, left, lo, n);
      contents := left;
      failure := FailureOf(res, |data|, failure);
    }

    /** Lock, stat, write at the end, unlock; lock and stat may fail before anything is written. */
    method AppendFile(data: seq<Byte>) returns (res: int)
      modifies this
      ensures res == 0 ==> data == []
      ensures StoredAt(old(contents), contents, |old(contents)|, data, res)
      ensures failure == FailureOf(res, |data|, old(failure))
    {
      if * {
        res :| res < 0;
        failure := -res;
      } else {
        res := WriteFile(data, |contents|);
      }
    }

    /** Positioned write, or an append when off is -1. */
    method WriteFileEx(data: seq<Byte>, off: int) returns (res: int)
      requires off >= -1
      modifies this
      ensures res == 0 ==> data == []
      ensures StoredAt(old(contents), contents, Target(old(contents), off), data, res)
      ensures failure == FailureOf(res, |data|, old(failure))
    {
      if off == -1 {
        res := AppendFile(data);
      } else {
        res := WriteFile(data, off);
      }
    }

    /** A striped read: an error, or what was asked for up to the end of the file or to a hole. */
    method ReadFile(size: nat, off: nat) returns (res: int, data: seq<Byte>)
      modifies this`failure
      ensures failure == if res < 0 then -res else old(failure)
      ensures res >= 0 ==> res == |data| && ReadOf(contents, chunkSize, off, size, data)
    {
      data := Slice(contents, off, size);
      if * {
        var n: nat :| n <= |data| && (n < |data| ==> IsHole(contents, chunkSize, off + n));
        data := data[..n];
      }
      res := |data|;
      if * {
        res :| res < 0;
        failure := -res;
      }
    }

    /** A request that the servers refuse. */
    method Refuse() returns (err: int)
      modifies this`failure
      ensures err < 0 && failure == -err
    {
      err :| err < 0;
      failure := -err;
    }

    /** Opening or closing. */
    method Call() returns (err: int)
      modifies this`failure
      ensures err >= SUCCESS && failure == if err == SUCCESS then old(failure) else err
    {
      err :| err >= SUCCESS;
      failure := if err == SUCCESS then failure else err;
    }
  }

  /** Byte-wise store into an array. */
  method StoreBytes(dst: array<Byte>, at: nat, data: seq<Byte>)
    requires at + |data| <= dst.Length
    modifies dst
    ensures dst[..] == old(dst[..at]) + data + old(dst[at + |data|..])
  {
    ghost var was := dst[..];
    var i := 0;
    while i < |data|
      invariant 0 <= i <= |data|
      invariant dst[..] == was[..at] + data[..i] + was[at + i..]
    {
      dst[at + i] := data[i];
      i := i + 1;
    }
  }

  /** The user's source buffer: `readable` bytes of it can be fetched before a fault. */
  datatype UserSource = UserSource(bytes: seq<Byte>, readable: nat)

  /** Copies until the end or the first unreadable byte; returns how many bytes were not copied. */
  method CopyFromUser(dst: array<Byte>, at: nat, src: UserSource) returns (notCopied: nat)
    requires at + |src.bytes| <= dst.Length
    modifies dst
    ensures notCopied == |src.bytes| - Min(src.readable, |src.bytes|)
    ensures dst[..at] == old(dst[..at])
    ensures notCopied == 0 ==> dst[at..at + |src.bytes|] == src.bytes
  {
    StoreBytes(dst, at, src.bytes[..Min(src.readable, |src.bytes|)]);
    notCopied := |src.bytes| - Min(src.readable, |src.bytes|);
  }

  /**
   * Copies src[from..from+n] to position `at` of the user's buffer, of which only the first `writable` bytes can be
   * stored.
   */
  method CopyToUser(at: nat, writable: nat, src: array<Byte>, from: nat, n: nat)
    returns (notCopied: nat, data: seq<Byte>)
    requires from + n <= src.Length
    ensures notCopied <= n && (notCopied == 0 <==> at + n <= writable || n == 0)
    ensures data == src[from..from + n - notCopied]
  {
    var fits := Min(n, Max(0, writable - at));
    data := src[from..from + fits];
    notCopied := n - fits;
  }

  /** A fixed set of equally sized buffers, each free or handed out. */
  class BufferStore {
    const bufSize: nat
    ghost const all: set<array<Byte>>
    var free: seq<array<Byte>>
    ghost var out: set<array<Byte>> // the buffers that are not free

    ghost predicate Valid()
      reads this
    {
      && (forall b <- all :: b.Length == bufSize)
      && (forall i, j :: 0 <= i < j < |free| ==> free[i] != free[j])
      && all == (set b <- free) + out
      && (forall b <- free :: b !in out)
    }

    method InstantBuf() returns (buf: array?<Byte>)
      requires Valid()
      modifies this
      ensures Valid()
      ensures buf == null <==> old(free) == []
      ensures buf == null ==> free == old(free) && out == old(out)
      ensures buf != null ==> old(free) == free + [buf] && out == old(out) + {buf} && buf !in old(out)
    {
      if free == [] {
        buf := null;
      } else {
        buf := free[|free| - 1];
        free := free[..|free| - 1];
        out := out + {buf};
      }
    }

    method AddBuf(buf: array<Byte>)
      requires Valid() && buf in out
      modifies this
      ensures Valid() && free == old(free) + [buf] && out == old(out) - {buf}
    {
      free := free + [buf];
      out := out - {buf};
    }
  }

  const CACHE_HITS_INITIAL := 3
  const CACHE_HITS_THRESHOLD := 5
  const CACHE_MISS_THRESHOLD := -5

  /** Per open file: whether buffering is allowed and how well it has been guessed to pay off. */
  class FileInfo {
    var allowCaching: bool
    var cacheHits: int
    var lastReadOffset: int
    var lastWriteOffset: int

    predicate Valid()
      reads this
    {
      CACHE_MISS_THRESHOLD <= cacheHits <= CACHE_HITS_THRESHOLD
    }

    constructor (allowCaching: bool)
      ensures Valid() && this.allowCaching == allowCaching && lastReadOffset == lastWriteOffset == 0
    {
      this.allowCaching := allowCaching;
      cacheHits := CACHE_HITS_INITIAL;
      lastReadOffset, lastWriteOffset := 0, 0;
    }

    method IncCacheHits()
      requires Valid()
      modifies this`cacheHits
      ensures Valid() && cacheHits == Min(old(cacheHits) + 1, CACHE_HITS_THRESHOLD)
    {
      if cacheHits < CACHE_HITS_THRESHOLD {
        cacheHits := cacheHits + 1;
      }
    }

    method DecCacheHits()
      requires Valid()
      modifies this`cacheHits
      ensures Valid() && cacheHits == Max(old(cacheHits) - 1, CACHE_MISS_THRESHOLD)
    {
      if cacheHits > CACHE_MISS_THRESHOLD {
        cacheHits := cacheHits - 1;
      }
    }
  }
}
