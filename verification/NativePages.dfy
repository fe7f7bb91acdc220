/**
 * The page cache of a file in native mode. Pages are not brought up to date before a write; each dirty page carries the
 * range of bytes that must be sent, and a write that would leave a gap in the range flushes the page first.
 */
module NativePages {
  import opened FileBytes
  import opened FileView
  import opened PageRange
  import opened CacheStores

  datatype Page = Page(data: seq<Byte>, hasRange: bool, priv: Private, dirty: bool, uptodate: bool)

  predicate Dirty(p: Page, o: nat) {
    p.hasRange && Covers(p.priv, o)
  }

  function Positions(off: nat, n: nat): (r: set<nat>)
    ensures forall pos: nat :: pos in r <==> off <= pos < off + n
  {
    if n == 0 then {} else Positions(off, n - 1) + {off + n - 1}
  }

  function Position(index: nat, o: nat): nat {
    index * PAGE_SIZE + o
  }

  /** The byte at `pos` belongs to a page that still has to send it. */
  predicate Pending(pages: map<nat, Page>, pos: nat) {
    var index := pos / PAGE_SIZE;
    index in pages && Dirty(pages[index], pos % PAGE_SIZE)
  }

  /** What the application has written: the server's bytes (zeros in holes) overlaid by the dirty ranges. */
  function NativeByte(pages: map<nat, Page>, remote: File, pos: nat): Byte
    requires Shaped(pages)
  {
    if Pending(pages, pos) then pages[pos / PAGE_SIZE].data[pos % PAGE_SIZE] else ByteAt(remote, pos)
  }

  function NativeContents(pages: map<nat, Page>, remote: File, isize: nat): (f: File)
    requires Shaped(pages)
  {
    seq(isize, pos requires pos >= 0 => NativeByte(pages, remote, pos))
  }

  predicate Shaped(pages: map<nat, Page>) {
    forall index <- pages :: |pages[index].data| == PAGE_SIZE
  }

  /** A dirty range, which may be empty, lies before the end of the file; the server's file is no longer than that. */
  predicate RangesInFile(pages: map<nat, Page>, remote: File, isize: nat) {
    && Shaped(pages) && |remote| <= isize
    && forall index <- pages :: pages[index].hasRange ==>
         && GetFirst(pages[index].priv) <= GetLast(pages[index].priv) + 1
         && Position(index, GetLast(pages[index].priv)) < isize
  }

  /** An up-to-date page has nothing to send and is a zero-extended copy of the server's bytes. */
  predicate UptodatePages(pages: map<nat, Page>, remote: File)
    requires Shaped(pages)
  {
    forall index <- pages :: pages[index].uptodate ==>
      !pages[index].hasRange && forall o: nat :: o < PAGE_SIZE ==>
        pages[index].data[o] == ByteAt(remote, Position(index, o))
  }

  /** Pages with something to send are in the kernel's set of dirty pages. */
  predicate NoneForgotten(pages: map<nat, Page>) {
    forall index <- pages :: pages[index].hasRange ==> pages[index].dirty
  }

  lemma PageAndOffset(index: nat, o: Offset)
    ensures Position(index, o) / PAGE_SIZE == index && Position(index, o) % PAGE_SIZE == o
  {
  }

  lemma OutsidePage(index: nat, pos: nat)
    ensures pos / PAGE_SIZE == index <==> Position(index, 0) <= pos < Position(index + 1, 0)
  {
  }

  /** The bytes of a page that will be sent. */
  function Payload(p: Page): (r: seq<Byte>)
    requires |p.data| == PAGE_SIZE && GetFirst(p.priv) <= GetLast(p.priv) + 1
  {
    p.data[GetFirst(p.priv)..GetLast(p.priv) + 1]
  }

  /** However a store of a page's range ended, overlaying the range again gives the same file. */
  lemma PartialFlushKeepsContents(pages: map<nat, Page>, remote: File, isize: nat, index: nat, remote2: File, res: int)
    requires RangesInFile(pages, remote, isize) && index in pages && pages[index].hasRange
    requires StoredAt(remote, remote2, Position(index, GetFirst(pages[index].priv)), Payload(pages[index]), res)
    ensures RangesInFile(pages, remote2, isize)
    ensures NativeContents(pages, remote2, isize) == NativeContents(pages, remote, isize)
    ensures UptodatePages(pages, remote) ==> UptodatePages(pages, remote2)
    ensures forall pos: nat :: ByteAt(remote2, pos) != ByteAt(remote, pos) ==> Pending(pages, pos)
  {
    var p := pages[index];
    var off, d := Position(index, GetFirst(p.priv)), Payload(p);
    assert ChangedWithin(remote, remote2, off, |d|) by {
      if res >= 0 {
        SpliceWithin(remote, off, d[..res], Splice(remote, off, d[..res]), off, 0);
      }
    }
    forall pos: nat | off <= pos < off + |d| ensures Pending(pages, pos) {
      PageAndOffset(index, pos - index * PAGE_SIZE);
    }
    forall i: nat, o: nat | i in pages && pages[i].uptodate && o < PAGE_SIZE
      ensures ByteAt(remote2, Position(i, o)) == ByteAt(remote, Position(i, o)) || !UptodatePages(pages, remote)
    {
      PageAndOffset(i, o);
      assert UptodatePages(pages, remote) ==> !Pending(pages, Position(i, o));
    }
  }

  /** After a complete store the range can be cleared: the server has its bytes. */
  lemma FullFlushKeepsContents(pages: map<nat, Page>, remote: File, isize: nat, index: nat, q: Page)
    requires RangesInFile(pages, remote, isize) && index in pages && pages[index].hasRange
    requires q.data == pages[index].data && !q.hasRange
    ensures var off, d := Position(index, GetFirst(pages[index].priv)), Payload(pages[index]);
      && NativeContents(pages[index := q], Splice(remote, off, d), isize) == NativeContents(pages, remote, isize)
      && (forall pos: nat :: Pending(pages[index := q], pos) <==> Pending(pages, pos) && !(off <= pos < off + |d|))
      && (forall pos: nat ::
            NativeByte(pages[index := q], Splice(remote, off, d), pos) == NativeByte(pages, remote, pos))
  {
    var p := pages[index];
    var off, d := Position(index, GetFirst(p.priv)), Payload(p);
    var remote2 := Splice(remote, off, d);
    forall pos: nat
      ensures NativeByte(pages[index := q], remote2, pos) == NativeByte(pages, remote, pos)
      ensures Pending(pages[index := q], pos) <==> Pending(pages, pos) && !(off <= pos < off + |d|)
    {
      if pos / PAGE_SIZE == index {
        PageAndOffset(index, pos % PAGE_SIZE);
        assert Pending(pages, pos) <==> off <= pos < off + |d|;
      } else {
        OutsidePage(index, pos);
      }
    }
  }

  /** Storing into the page and uniting the write with its range stores the data in the file. */
  lemma WriteStores(pages: map<nat, Page>, remote: File, isize: nat, index: nat, o: Offset, bytes: seq<Byte>, q: Page)
    requires RangesInFile(pages, remote, isize) && index in pages && bytes != [] && o + |bytes| <= PAGE_SIZE
    requires q.data == pages[index].data[..o] + bytes + pages[index].data[o + |bytes|..] && q.hasRange
    requires forall i: nat :: Covers(q.priv, i) <==> Dirty(pages[index], i) || o <= i < o + |bytes|
    ensures var pos := Position(index, o);
      NativeContents(pages[index := q], remote, Max(isize, pos + |bytes|)) ==
      Splice(NativeContents(pages, remote, isize), pos, bytes)
  {
    var pos := Position(index, o);
    var f := NativeContents(pages, remote, isize);
    var g := NativeContents(pages[index := q], remote, Max(isize, pos + |bytes|));
    var s := Splice(f, pos, bytes);
    forall k: nat | k < |g| ensures g[k] == s[k] {
      OutsidePage(index, k);
      assert k == Position(k / PAGE_SIZE, k % PAGE_SIZE);
    }
  }

  /** A copy that stopped short changed bytes of the dirty range without extending it. */
  lemma ShortCopyStays(pages: map<nat, Page>, remote: File, isize: nat, index: nat, o: Offset,
      bytes: seq<Byte>, q: Page)
    requires RangesInFile(pages, remote, isize) && index in pages && o + |bytes| <= PAGE_SIZE
    requires q.data == pages[index].data[..o] + bytes + pages[index].data[o + |bytes|..]
    requires q.hasRange == pages[index].hasRange && q.priv == pages[index].priv
    ensures ChangedWithin(NativeContents(pages, remote, isize), NativeContents(pages[index := q], remote, isize),
      Position(index, o), |bytes|)
  {
  }

  /** The zero-extended bytes of a file under a page. */
  function PageOf(f: File, index: nat): (data: seq<Byte>)
    ensures |data| == PAGE_SIZE && forall o: nat :: o < PAGE_SIZE ==> data[o] == ByteAt(f, Position(index, o))
  {
    seq(PAGE_SIZE, o requires o >= 0 => ByteAt(f, Position(index, o)))
  }

  lemma MulPages(q: int, m: int)
    ensures q * (PAGE_SIZE * m) == PAGE_SIZE * (q * m)
  {
  }

  /** Chunks end where pages end. */
  lemma ChunkEndsWithPage(chunkSize: ChunkSize, p: nat)
    ensures exists k: nat :: EndOfChunk(chunkSize, p) + 1 == PAGE_SIZE * k
  {
    var m, q := chunkSize / PAGE_SIZE, p / chunkSize + 1;
    assert chunkSize == PAGE_SIZE * m;
    MulPages(q, m);
    var k := q * m;
    assert EndOfChunk(chunkSize, p) + 1 == PAGE_SIZE * k;
  }

  /** A page lies in one chunk. */
  lemma PageInChunk(chunkSize: ChunkSize, index: nat, o: Offset, k: Offset)
    ensures Position(index, k) <= EndOfChunk(chunkSize, Position(index, o))
  {
    ChunkEndsWithPage(chunkSize, Position(index, o));
  }

  /** What a read of a page returns, filled up with zeros, is the page, also if the read stopped at a hole. */
  lemma PageFromRead(f: File, chunkSize: ChunkSize, index: nat, data: seq<Byte>)
    requires ReadOf(f, chunkSize, Position(index, 0), PAGE_SIZE, data)
    ensures |data| <= PAGE_SIZE && data + Zeros(PAGE_SIZE - |data|) == PageOf(f, index)
  {
    var filled, page := data + Zeros(PAGE_SIZE - |data|), PageOf(f, index);
    forall k: nat | k < PAGE_SIZE ensures filled[k] == page[k] {
      if |data| <= k {
        PageInChunk(chunkSize, index, |data|, k);
      }
    }
  }

  /** The data of a page without a range does not matter. */
  lemma RangelessData(pages: map<nat, Page>, remote: File, isize: nat, index: nat, q: Page)
    requires Shaped(pages) && index in pages && !pages[index].hasRange && !q.hasRange && |q.data| == PAGE_SIZE
    ensures forall pos: nat :: Pending(pages[index := q], pos) <==> Pending(pages, pos)
    ensures NativeContents(pages[index := q], remote, isize) == NativeContents(pages, remote, isize)
  {
  }

  /** A page without a range shows the server's bytes. */
  lemma CleanPage(pages: map<nat, Page>, remote: File, isize: nat, index: nat)
    requires RangesInFile(pages, remote, isize) && index in pages && !pages[index].hasRange
    ensures PageOf(NativeContents(pages, remote, isize), index) == PageOf(remote, index)
  {
  }

  /** Without a file handle no call is made. */
  predicate TellsIf(handle: bool, ok: bool, was: int, failure: int) {
    if handle then Tells(ok, was, failure) else failure == was
  }

  class NativeFile {
    const remote: RemoteFile
    var isize: nat
    var pages: map<nat, Page>
    ghost var unsent: set<nat> // positions written since their last successful write-back

    ghost function Contents(): File
      requires Shaped(pages)
      reads this, remote`contents
    {
      NativeContents(pages, remote.contents, isize)
    }

    /** The invariant, apart from the kernel's dirty marks. */
    ghost predicate Consistent()
      reads this, remote`contents
    {
      && RangesInFile(pages, remote.contents, isize)
      && UptodatePages(pages, remote.contents)
      && forall pos: nat :: pos in unsent <==> Pending(pages, pos)
    }

    ghost predicate Valid()
      reads this, remote`contents
    {
      Consistent() && NoneForgotten(pages)
    }

    /** Only unsent bytes were sent, and only bytes that the server now holds stopped being unsent. */
    twostate predicate SentOnlyUnsent()
      requires old(Shaped(pages))
      reads this, remote`contents
    {
      && (forall pos: nat :: ByteAt(remote.contents, pos) != old(ByteAt(remote.contents, pos)) ==> pos in old(unsent))
      && (forall pos: nat :: pos in old(unsent) && pos !in unsent ==>
            ByteAt(remote.contents, pos) == old(NativeByte(pages, remote.contents, pos)))
    }

    constructor (remote: RemoteFile)
      ensures Valid() && unsent == {} && this.remote == remote && Contents() == remote.contents
    {
      this.remote := remote;
      isize, pages, unsent := |remote.contents|, map[], {};
    }

    /** Writes one page back; `handle` tells whether the file could be opened for that. */
    method FlushPage(index: nat) returns (err: int, handle: bool)
      requires Consistent() && index in pages && pages[index].hasRange
      modifies this`pages, this`unsent, remote
      ensures TellsIf(handle, err == 0, old(remote.failure), remote.failure)
      ensures Consistent() && Contents() == old(Contents()) && SentOnlyUnsent()
      ensures index in pages && unsent <= old(unsent)
      ensures handle && old(NoneForgotten(pages)) ==> NoneForgotten(pages)
      ensures err == 0 && old(pages[index].dirty) ==> !pages[index].hasRange
      // without a handle the page leaves the dirty set although its range stays
      ensures !handle ==> err < 0 && pages == old(pages[index := pages[index].(dirty := false)])
      // from then on flushing it does nothing and reports success
      ensures !old(pages[index].dirty) ==>
        err == 0 && handle && pages == old(pages) && remote.contents == old(remote.contents)
    {
      if !pages[index].dirty {
        return 0, true;
      }
      SetDirty(index, false);
      if * {
        err :| err < 0; // no file handle
        return err, false;
      }
      err := Submit(index);
      handle := true;
    }

    /** Changes the kernel's dirty mark of a page. */
    method SetDirty(index: nat, mark: bool)
      requires Consistent() && index in pages
      modifies this`pages
      ensures Consistent() && Contents() == old(Contents())
      ensures pages == old(pages)[index := old(pages)[index].(dirty := mark)]
    {
      pages := pages[index := pages[index].(dirty := mark)];
      assert forall pos: nat :: Pending(pages, pos) <==> Pending(old(pages), pos);
      assert forall pos: nat :: NativeByte(pages, remote.contents, pos) == NativeByte(old(pages), remote.contents, pos);
    }

    /**
     * Sends the range of a page whose dirty mark has been taken away; a page not written completely gets the mark back.
     */
    method Submit(index: nat) returns (err: int)
      requires Consistent() && index in pages && pages[index].hasRange
      modifies this`pages, this`unsent, remote
      ensures Tells(err == 0, old(remote.failure), remote.failure)
      ensures Consistent() && Contents() == old(Contents()) && SentOnlyUnsent()
      ensures unsent <= old(unsent) && pages.Keys == old(pages).Keys
      ensures forall i <- pages :: i != index ==> pages[i] == old(pages)[i]
      ensures err <= 0 && (err == 0 <==> !pages[index].hasRange)
      ensures pages[index].hasRange ==> pages[index].dirty
    {
      var payload := Payload(pages[index]);
      var offset := Position(index, GetFirst(pages[index].priv));
      ghost var remote0 := remote.contents;
      var written := remote.WriteFile(payload, offset);
      PartialFlushKeepsContents(pages, remote0, isize, index, remote.contents, written);
      if written < |payload| {
        SetDirty(index, true);
        return if written < 0 then written else -1;
      }
      assert payload[..written] == payload;
      ClearRange(index, remote0);
      return 0;
    }

    /** Forgets the range of a page that the server has received. */
    method ClearRange(index: nat, ghost remote0: File)
      requires Consistent() && index in pages && pages[index].hasRange && RangesInFile(pages, remote0, isize)
      requires remote.contents == Splice(remote0, Position(index, GetFirst(pages[index].priv)), Payload(pages[index]))
      modifies this`pages, this`unsent
      ensures Consistent() && Contents() == NativeContents(old(pages), remote0, isize)
      ensures pages == old(pages)[index := old(pages)[index].(hasRange := false)]
      ensures unsent <= old(unsent)
      ensures forall pos: nat :: pos in old(unsent) && pos !in unsent ==>
        ByteAt(remote.contents, pos) == NativeByte(old(pages), remote0, pos)
    {
      var p := pages[index];
      FullFlushKeepsContents(pages, remote0, isize, index, p.(hasRange := false));
      pages := pages[index := p.(hasRange := false)];
      unsent := unsent - Positions(Position(index, GetFirst(p.priv)), |Payload(p)|);
    }

    /**
     * Finds or creates the page for a write to its bytes [first, last]; flushes it first if its range cannot take them.
     */
    method WriteBegin(index: nat, first: Offset, last: Offset) returns (result: int, handle: bool)
      requires Valid() && first <= last
      modifies this`pages, this`unsent, remote
      ensures TellsIf(handle, result == 0, old(remote.failure), remote.failure)
      ensures Consistent() && Contents() == old(Contents()) && SentOnlyUnsent() && unsent <= old(unsent)
      ensures handle ==> Valid()
      ensures !handle ==> result != 0
      ensures result == 0 ==> index in pages && (pages[index].hasRange ==> CanMerge(pages[index].priv, first, last))
      ensures result == 0 ==> (pages[index].hasRange <==> old(CanTake(index, first, last)))
    {
      if index !in pages {
        NewPage(index);
      }
      if !pages[index].hasRange || CanMerge(pages[index].priv, first, last) {
        return 0, true;
      }
      result, handle := FlushPage(index);
    }

    /** A page the cache did not have: neither up to date nor dirty. */
    method NewPage(index: nat)
      requires Valid() && index !in pages
      modifies this`pages
      ensures Valid() && Contents() == old(Contents()) && index in pages && !pages[index].hasRange
      ensures forall pos: nat :: NativeByte(pages, remote.contents, pos) == NativeByte(old(pages), remote.contents, pos)
    {
      pages := pages[index := Page(Zeros(PAGE_SIZE), false, 0, false, false)];
      assert forall pos: nat :: Pending(pages, pos) <==> Pending(old(pages), pos);
      assert forall pos: nat :: NativeByte(pages, remote.contents, pos) == NativeByte(old(pages), remote.contents, pos);
    }

    predicate CanTake(index: nat, first: Offset, last: Offset)
      reads this
    {
      index in pages && pages[index].hasRange && CanMerge(pages[index].priv, first, last)
    }

    /**
     * Nothing was copied to the start of a page that has no range, or none that could take the write: a last offset of
     * -1 makes the whole page the range.
     */
    predicate MarksWholePage(pos: nat, len: nat, copied: nat)
      requires 0 < len && pos % PAGE_SIZE + len <= PAGE_SIZE
      reads this
    {
      copied == 0 && pos % PAGE_SIZE == 0 && !CanTake(pos / PAGE_SIZE, 0, len - 1)
    }

    /** One page's part of a write: `copied` bytes of the data could be fetched from user memory. */
    method Write(pos: nat, bytes: seq<Byte>, copied: nat) returns (res: int, handle: bool)
      requires Valid() && bytes != [] && pos % PAGE_SIZE + |bytes| <= PAGE_SIZE && copied <= |bytes|
      modifies this`pages, this`unsent, this`isize, remote
      ensures TellsIf(handle, res >= 0, old(remote.failure), remote.failure)
      ensures handle ==> res < 0 || res == copied || (res == 0 && copied < |bytes|)
      ensures res < 0 || !old(MarksWholePage(pos, |bytes|, copied)) ==>
        && Consistent() && (handle ==> Valid())
        && StoredAt(old(Contents()), Contents(), pos, bytes, res) && (res < 0 ==> Contents() == old(Contents()))
        && (forall p: nat :: pos <= p < pos + res ==> p in unsent)
        && (forall p: nat :: p in unsent ==> p in old(unsent) || pos <= p < pos + res)
      ensures forall p: nat :: ByteAt(remote.contents, p) != old(ByteAt(remote.contents, p)) ==> p in old(unsent)
      // otherwise the whole page will be sent although none of it has been written
      ensures res >= 0 && old(MarksWholePage(pos, |bytes|, copied)) ==>
        Shaped(pages) && forall p: nat :: p / PAGE_SIZE == pos / PAGE_SIZE ==> Pending(pages, p) && p !in unsent
    {
      var result;
      result, handle := WriteBegin(pos / PAGE_SIZE, pos % PAGE_SIZE, pos % PAGE_SIZE + |bytes| - 1);
      if result != 0 {
        return if result < 0 then result else -result, handle;
      }
      res := WriteCopied(pos, bytes, copied);
    }

    /** Copies into the page that write_begin has prepared, and ends the write. */
    method WriteCopied(pos: nat, bytes: seq<Byte>, copied: nat) returns (res: nat)
      requires Valid() && bytes != [] && pos % PAGE_SIZE + |bytes| <= PAGE_SIZE && copied <= |bytes|
      requires var index, first := pos / PAGE_SIZE, pos % PAGE_SIZE;
        index in pages && (pages[index].hasRange ==> CanMerge(pages[index].priv, first, first + |bytes| - 1))
      modifies this`pages, this`unsent, this`isize
      ensures res == copied || (res == 0 && copied < |bytes|)
      ensures !old(MarksWholePage(pos, |bytes|, copied)) ==>
        && Valid() && StoredAt(old(Contents()), Contents(), pos, bytes, res)
        && (forall p: nat :: p in unsent <==> p in old(unsent) || pos <= p < pos + res)
      ensures old(MarksWholePage(pos, |bytes|, copied)) ==>
        Shaped(pages) && forall p: nat :: p / PAGE_SIZE == pos / PAGE_SIZE ==> Pending(pages, p) && p !in unsent
    {
      if copied == 0 {
        TakeNothing(pos / PAGE_SIZE, pos % PAGE_SIZE, |bytes|);
        return 0;
      }
      res := WriteEnd(pos / PAGE_SIZE, pos % PAGE_SIZE, |bytes|, bytes[..copied]);
      if res > 0 {
        assert Contents() == Splice(old(Contents()), pos, bytes[..res]);
      }
    }

    /** The end of a write of which nothing could be copied. */
    method TakeNothing(index: nat, first: Offset, len: nat)
      requires Valid() && index in pages && 0 < len && first + len <= PAGE_SIZE
      modifies this`pages, this`isize
      ensures old(pages[index].hasRange) || first > 0 ==>
        Valid() && ChangedWithin(old(Contents()), Contents(), Position(index, first), len)
      ensures !old(pages[index].hasRange) && first == 0 ==>
        Shaped(pages) && forall p: nat :: p / PAGE_SIZE == index ==> Pending(pages, p) && p !in unsent
    {
      var p := pages[index];
      if p.hasRange {
        SetDirty(index, true);
        RangelessMark(pages, remote.contents, isize, index, pages[index].(uptodate := false));
        pages := pages[index := pages[index].(uptodate := false)];
        return;
      }
      var q := p.(hasRange := true, priv := Init(first, Masked(first - 1)), dirty := true, uptodate := false);
      EmptyCopyRange(first);
      InitIsWrite(first, Masked(first - 1));
      if first > 0 {
        EmptyRange(pages, remote.contents, isize, index, first, q);
      } else {
        assert forall p: nat :: p / PAGE_SIZE == index ==> Pending(pages[index := q], p) && !Pending(pages, p);
      }
      isize := Max(isize, Position(index, first));
      pages := pages[index := q];
    }

    /** Brings a page up to date; what it still has to send is sent first. */
    method ReadPage(index: nat) returns (res: int, handle: bool)
      requires Consistent() && index in pages
      modifies this`pages, this`unsent, remote
      ensures TellsIf(handle, res == 0, old(remote.failure), remote.failure)
      ensures old(NoneForgotten(pages)) ==> Consistent() && (handle ==> Valid()) && Contents() == old(Contents())
      ensures res == 0 ==>
        index in pages && pages[index].uptodate && pages[index].data == PageOf(remote.contents, index)
      ensures res == 0 && old(NoneForgotten(pages)) ==> pages[index].data == PageOf(Contents(), index)
      // the bytes of a range that is no longer marked dirty are lost
      ensures res == 0 && old(pages[index].hasRange && !pages[index].dirty) ==> remote.contents == old(remote.contents)
    {
      handle := true;
      if pages[index].hasRange {
        res, handle := FlushPage(index);
        if res != 0 {
          return;
        }
      }
      res := FillPage(index);
      if res == 0 && old(NoneForgotten(pages)) {
        CleanPage(pages, remote.contents, isize, index);
      }
    }

    method FillPage(index: nat) returns (res: int)
      requires Consistent() && index in pages
      modifies this`pages, remote`failure
      ensures Tells(res == 0, old(remote.failure), remote.failure)
      ensures res == 0 ==>
        pages == old(pages)[index := old(pages)[index].(data := PageOf(remote.contents, index), uptodate := true)]
      ensures res != 0 ==> pages == old(pages)[index := old(pages)[index].(uptodate := false)]
      ensures Shaped(pages) && (!old(pages[index].hasRange) ==> Consistent() && Contents() == old(Contents()))
    {
      var readRes, data := remote.ReadFile(PAGE_SIZE, Position(index, 0));
      if readRes < 0 {
        pages := pages[index := pages[index].(uptodate := false)];
        res := readRes;
      } else {
        var filled := data + Zeros(PAGE_SIZE - readRes);
        PageFromRead(remote.contents, remote.chunkSize, index, data);
        pages := pages[index := pages[index].(data := filled, uptodate := true)];
        res := 0;
      }
      if !old(pages[index].hasRange) {
        RangelessData(old(pages), remote.contents, isize, index, pages[index]);
      }
    }

    /**
     * Accounts for `copied` bytes at `pos`: the file grows, the range takes them in; a short copy into a range counts
     * as none.
     */
    method WriteEnd(index: nat, first: Offset, len: nat, bytes: seq<Byte>) returns (result: nat)
      requires Valid() && index in pages && 0 < |bytes| <= len && first + len <= PAGE_SIZE
      requires pages[index].hasRange ==> CanMerge(pages[index].priv, first, first + len - 1)
      modifies this`pages, this`unsent, this`isize
      ensures Valid()
      ensures result == if |bytes| != len && old(pages[index].hasRange) then 0 else |bytes|
      ensures result > 0 ==> Contents() == Splice(old(Contents()), Position(index, first), bytes)
      ensures result == 0 ==> ChangedWithin(old(Contents()), Contents(), Position(index, first), |bytes|)
      ensures forall p: nat :: p in unsent <==>
        p in old(unsent) || Position(index, first) <= p < Position(index, first) + result
    {
      var p := pages[index];
      var data := p.data[..first] + bytes + p.data[first + |bytes|..];
      if |bytes| != len && p.hasRange {
        var q := p.(data := data, uptodate := false, dirty := true);
        ShortCopyStays(pages, remote.contents, isize, index, first, bytes, q);
        pages := pages[index := q];
        assert forall pos: nat :: Pending(pages, pos) <==> Pending(old(pages), pos);
        return 0;
      }
      var last := first + |bytes| - 1;
      var priv := if p.hasRange then Merge(p.priv, first, last) else Init(first, last);
      TakenIn(p, first, last, priv);
      Store(index, first, bytes, Page(data, true, priv, true, false));
      return |bytes|;
    }

    /** The page takes data whose range has been united with its own. */
    method Store(index: nat, first: Offset, bytes: seq<Byte>, q: Page)
      requires Valid() && index in pages && bytes != [] && first + |bytes| <= PAGE_SIZE
      requires q.data == pages[index].data[..first] + bytes + pages[index].data[first + |bytes|..]
      requires q.hasRange && q.dirty && !q.uptodate && GetFirst(q.priv) <= GetLast(q.priv)
      requires forall i: nat :: Covers(q.priv, i) <==> Dirty(pages[index], i) || first <= i < first + |bytes|
      modifies this`pages, this`unsent, this`isize
      ensures Valid() && Contents() == Splice(old(Contents()), Position(index, first), bytes)
      ensures forall p: nat :: p in unsent <==>
        p in old(unsent) || Position(index, first) <= p < Position(index, first) + |bytes|
    {
      WriteStores(pages, remote.contents, isize, index, first, bytes, q);
      PendingAfterWrite(pages, index, first, |bytes|, q);
      EndOfRange(pages, remote.contents, isize, index, first, |bytes|, q);
      isize := Max(isize, Position(index, first) + |bytes|);
      pages := pages[index := q];
      unsent := unsent + Positions(Position(index, first), |bytes|);
    }
  }

  /** Marks of a page do not change the file. */
  lemma RangelessMark(pages: map<nat, Page>, remote: File, isize: nat, index: nat, q: Page)
    requires Shaped(pages) && index in pages
    requires q.data == pages[index].data && q.hasRange == pages[index].hasRange && q.priv == pages[index].priv
    ensures forall pos: nat :: Pending(pages[index := q], pos) <==> Pending(pages, pos)
    ensures NativeContents(pages[index := q], remote, isize) == NativeContents(pages, remote, isize)
  {
    assert forall pos: nat :: NativeByte(pages[index := q], remote, pos) == NativeByte(pages, remote, pos);
  }

  /** A page that gets an empty range in front of offset o: the file may grow up to there, by zeros. */
  lemma EmptyRange(pages: map<nat, Page>, remote: File, isize: nat, index: nat, o: Offset, q: Page)
    requires RangesInFile(pages, remote, isize) && index in pages && !pages[index].hasRange && o > 0
    requires q.data == pages[index].data && q.hasRange && GetFirst(q.priv) == o && GetLast(q.priv) == o - 1
    ensures forall pos: nat :: Pending(pages[index := q], pos) <==> Pending(pages, pos)
    ensures var f := NativeContents(pages, remote, isize);
      var g := NativeContents(pages[index := q], remote, Max(isize, Position(index, o)));
      forall n: nat :: n > 0 ==> ChangedWithin(f, g, Position(index, o), n)
    ensures RangesInFile(pages[index := q], remote, Max(isize, Position(index, o)))
  {
    var f := NativeContents(pages, remote, isize);
    var g := NativeContents(pages[index := q], remote, Max(isize, Position(index, o)));
    assert forall pos: nat :: NativeByte(pages[index := q], remote, pos) == NativeByte(pages, remote, pos);
    forall k: nat | k < |g| ensures g[k] == ByteAt(f, k) {
      OutsidePage(k / PAGE_SIZE, k);
      assert k == Position(k / PAGE_SIZE, k % PAGE_SIZE);
      assert Pending(pages, k) ==> k < isize;
    }
  }

  /** The united range ends inside the file. */
  lemma EndOfRange(pages: map<nat, Page>, remote: File, isize: nat, index: nat, first: Offset, n: nat, q: Page)
    requires RangesInFile(pages, remote, isize) && index in pages && 0 < n && first + n <= PAGE_SIZE
    requires GetFirst(q.priv) <= GetLast(q.priv)
    requires forall i: nat :: Covers(q.priv, i) <==> Dirty(pages[index], i) || first <= i < first + n
    ensures Position(index, GetLast(q.priv)) < Max(isize, Position(index, first) + n)
  {
    assert Covers(q.priv, GetLast(q.priv));
  }

  /** The new range holds exactly the old one and the write. */
  lemma TakenIn(p: Page, first: Offset, last: Offset, priv: Private)
    requires first <= last
    requires p.hasRange ==> GetFirst(p.priv) <= GetLast(p.priv) + 1 && CanMerge(p.priv, first, last)
    requires priv == if p.hasRange then Merge(p.priv, first, last) else Init(first, last)
    ensures forall i: nat :: Covers(priv, i) <==> Dirty(p, i) || first <= i <= last
    ensures GetFirst(priv) <= GetLast(priv)
  {
    if p.hasRange {
      MergeIsUnion(p.priv, first, last);
      MergeIsHull(p.priv, first, last);
    } else {
      InitIsWrite(first, last);
    }
  }

  lemma PendingAfterWrite(pages: map<nat, Page>, index: nat, o: Offset, n: nat, q: Page)
    requires index in pages && 0 < n && o + n <= PAGE_SIZE && q.hasRange
    requires forall i: nat :: Covers(q.priv, i) <==> Dirty(pages[index], i) || o <= i < o + n
    ensures forall pos: nat ::
      Pending(pages[index := q], pos) <==> Pending(pages, pos) || Position(index, o) <= pos < Position(index, o) + n
  {
    forall pos: nat
      ensures Pending(pages[index := q], pos) <==>
        Pending(pages, pos) || Position(index, o) <= pos < Position(index, o) + n
    {
      OutsidePage(index, pos);
    }
  }
}
