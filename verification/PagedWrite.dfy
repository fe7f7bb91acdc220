/**
 * Writing through the kernel's page cache in paged mode. A page must be up to date before it may be marked dirty;
 * write_begin avoids reading it when the bytes outside of the write are known to be zeros or will be overwritten.
 */
module PagedWrite {
  import opened FileBytes
  import opened FileView
  import opened PageRange
  import opened CacheStores
  import N = NativePages

  /** checked: what lies outside of the write in progress is up to date. */
  datatype Page = Page(data: seq<Byte>, uptodate: bool, checked: bool, dirty: bool)

  type Pages = map<nat, Page>

  predicate Shaped(pages: Pages) {
    forall index <- pages :: |pages[index].data| == PAGE_SIZE
  }

  predicate IsDirty(pages: Pages, index: nat) {
    index in pages && pages[index].dirty
  }

  function PagedByte(pages: Pages, remote: File, pos: nat): Byte
    requires Shaped(pages)
  {
    if IsDirty(pages, pos / PAGE_SIZE) then pages[pos / PAGE_SIZE].data[pos % PAGE_SIZE] else ByteAt(remote, pos)
  }

  /** The file the application has written: the server's bytes overlaid by the dirty pages. */
  function PagedContents(pages: Pages, remote: File, isize: nat): File
    requires Shaped(pages)
  {
    seq(Max(isize, |remote|), pos requires pos >= 0 => PagedByte(pages, remote, pos))
  }

  /**
   * Up-to-date pages show the bytes of the file, zeros behind its end; only up-to-date pages are dirty; no write is in
   * progress.
   */
  predicate PagesValid(pages: Pages, remote: File, isize: nat) {
    && Shaped(pages)
    && (forall index <- pages :: pages[index].dirty ==> pages[index].uptodate)
    && (forall index <- pages :: !pages[index].checked)
    && (forall index <- pages :: pages[index].uptodate ==> Shows(pages, remote, isize, index))
  }

  predicate Shows(pages: Pages, remote: File, isize: nat, index: nat)
    requires Shaped(pages) && index in pages
  {
    pages[index].data == N.PageOf(PagedContents(pages, remote, isize), index)
  }

  /** The file size after n bytes have been written at pos. */
  function Grown(isize: nat, pos: nat, n: int): nat {
    if n > 0 then Max(isize, pos + n) else isize
  }

  function Overwritten(data: seq<Byte>, o: nat, bytes: seq<Byte>): (r: seq<Byte>)
    requires o + |bytes| <= |data|
    ensures |r| == |data|
  {
    data[..o] + bytes + data[o + |bytes|..]
  }

  /** What must hold of the page when the data has been copied into it: outside of the write it shows the file. */
  predicate ReadyOutside(pages: Pages, remote: File, isize: nat, index: nat, data: seq<Byte>, o: nat, len: nat)
    requires Shaped(pages)
  {
    && |data| == PAGE_SIZE && o + len <= PAGE_SIZE
    && forall k :: 0 <= k < PAGE_SIZE && !(o <= k < o + len) ==>
         data[k] == N.PageOf(PagedContents(pages, remote, isize), index)[k]
  }

  /** The test of write_begin: the size the client knows says that outside of the write there is nothing to read. */
  predicate BehindSize(isize: nat, index: nat, o: nat, len: nat) {
    isize <= N.Position(index, 0) || (o == 0 && isize <= N.Position(index, len))
  }

  predicate ZeroOutside(data: seq<Byte>, o: nat, len: nat) {
    |data| == PAGE_SIZE && forall k :: 0 <= k < PAGE_SIZE && !(o <= k < o + len) ==> data[k] == 0
  }

  /**
   * Between begin and end of a write to the bytes [o, o+len) of a page: only a page filled with zeros is marked
   * checked.
   */
  predicate InProgress(pages: Pages, remote: File, isize: nat, index: nat, o: nat, len: nat) {
    && index in pages && Shaped(pages) && o + len <= PAGE_SIZE
    && PagesValid(pages[index := pages[index].(checked := false)], remote, isize)
    && (pages[index].checked ==>
          !pages[index].uptodate && BehindSize(isize, index, o, len) && ZeroOutside(pages[index].data, o, len))
  }

  /** f with zeros from `from` up to `to`. */
  function Cleared(f: File, from: nat, to: nat): (r: File)
    ensures |r| == |f| && forall i: nat :: ByteAt(r, i) == if from <= i < to then 0 else ByteAt(f, i)
  {
    seq(|f|, i requires 0 <= i < |f| => if from <= i < to then 0 else f[i])
  }

  /** f without what it holds in a page at and behind the size the client knows. */
  function ClearedBehind(f: File, isize: nat, index: nat): File {
    Cleared(f, Max(isize, N.Position(index, 0)), N.Position(index + 1, 0))
  }

  /** Nothing is cleared in a file whose size the client knows. */
  lemma ClearedNothing(f: File, isize: nat, index: nat)
    requires |f| <= isize
    ensures ClearedBehind(f, isize, index) == f
  {
    var g := ClearedBehind(f, isize, index);
    assert forall i :: 0 <= i < |f| ==> g[i] == ByteAt(g, i) == f[i];
  }

  /** The page with the copied bytes; it is up to date if the rest already was, or if there is no rest. */
  function Copied(p: Page, o: nat, len: nat, bytes: seq<Byte>): Page
    requires o + |bytes| <= |p.data|
  {
    var q := p.(data := Overwritten(p.data, o, bytes));
    if q.checked then q.(uptodate := |bytes| == len, checked := false)
    else if !q.uptodate && |bytes| == PAGE_SIZE then q.(uptodate := true)
    else q
  }

  /** After the copy the page is up to date but for the write, or it is clean and may be written synchronously. */
  lemma AfterCopy(pages: Pages, remote: File, isize: nat, index: nat, o: Offset, len: nat, bytes: seq<Byte>, p: Page)
    requires InProgress(pages, remote, isize, index, o, len)
    requires |bytes| <= len && p == Copied(pages[index], o, len, bytes)
    ensures p.uptodate ==>
      p.data[o..o + |bytes|] == bytes && if pages[index].checked then ZeroOutside(p.data, o, |bytes|)
      else ReadyOutside(pages, remote, isize, index, p.data, o, |bytes|)
    ensures !p.uptodate ==> !pages[index].dirty && PagesValid(pages[index := p], remote, isize)
  {
    var begun := pages[index := pages[index].(checked := false)];
    assert forall k: nat :: PagedByte(begun, remote, k) == PagedByte(pages, remote, k);
    assert PagedContents(begun, remote, isize) == PagedContents(pages, remote, isize);
    assert begun[index].dirty ==> begun[index].uptodate;
    if p.uptodate {
      assert !pages[index].checked && pages[index].uptodate ==> Shows(begun, remote, isize, index);
    } else {
      SameContents(begun, remote, isize, index, p);
      assert begun[index := p] == pages[index := p];
      assert forall i <- begun :: begun[i].uptodate ==> Shows(begun, remote, isize, i);
    }
  }

  /** Marking the page dirty with data that shows the file outside of the write stores the write in the file. */
  lemma DirtyStores(pages: Pages, remote: File, isize: nat, index: nat, o: Offset, bytes: seq<Byte>, q: Page)
    requires PagesValid(pages, remote, isize) && index in pages && o + |bytes| <= PAGE_SIZE
    requires ReadyOutside(pages, remote, isize, index, q.data, o, |bytes|) && q.data[o..o + |bytes|] == bytes
    requires q.dirty && q.uptodate
    ensures PagedContents(pages[index := q], remote, Grown(isize, N.Position(index, o), |bytes|)) ==
      Splice(PagedContents(pages, remote, isize), N.Position(index, o), bytes)
  {
    var pos := N.Position(index, o);
    var f := PagedContents(pages, remote, isize);
    var g := PagedContents(pages[index := q], remote, Grown(isize, pos, |bytes|));
    var s := Splice(f, pos, bytes);
    forall k: nat | k < |g| ensures g[k] == s[k] {
      N.OutsidePage(index, k);
      if k / PAGE_SIZE == index {
        var i := k % PAGE_SIZE;
        assert k == N.Position(index, i);
        if o <= i < o + |bytes| {
          assert q.data[i] == q.data[o..o + |bytes|][i - o];
        } else {
          assert q.data[i] == N.PageOf(f, index)[i] == ByteAt(f, k);
        }
      } else {
        EqualBehindEnd(pages, remote, isize, k);
      }
    }
  }

  /**
   * Marking a page dirty that was filled with zeros, whatever the servers hold there: the write is stored, and what the
   * page covers at or behind the size the client knew becomes zeros. Every other byte is unchanged.
   */
  lemma ZeroFillStores(pages: Pages, remote: File, isize: nat, index: nat, o: Offset, bytes: seq<Byte>, q: Page)
    requires PagesValid(pages, remote, isize) && index in pages && o + |bytes| <= PAGE_SIZE && bytes != []
    requires BehindSize(isize, index, o, |bytes|) && ZeroOutside(q.data, o, |bytes|) && q.data[o..o + |bytes|] == bytes
    requires q.dirty && q.uptodate
    ensures PagedContents(pages[index := q], remote, Grown(isize, N.Position(index, o), |bytes|)) ==
      Splice(ClearedBehind(PagedContents(pages, remote, isize), isize, index), N.Position(index, o), bytes)
  {
    var pos := N.Position(index, o);
    var f := PagedContents(pages, remote, isize);
    var g := PagedContents(pages[index := q], remote, Grown(isize, pos, |bytes|));
    var s := Splice(ClearedBehind(f, isize, index), pos, bytes);
    forall k: nat | k < |g| ensures g[k] == s[k] {
      ZeroFillByte(pages, remote, isize, index, o, bytes, q, k);
    }
  }

  lemma ZeroFillByte(pages: Pages, remote: File, isize: nat, index: nat, o: Offset, bytes: seq<Byte>, q: Page, k: nat)
    requires PagesValid(pages, remote, isize) && index in pages && o + |bytes| <= PAGE_SIZE
    requires BehindSize(isize, index, o, |bytes|) && ZeroOutside(q.data, o, |bytes|) && q.data[o..o + |bytes|] == bytes
    requires q.dirty
    ensures PagedByte(pages[index := q], remote, k) ==
      if N.Position(index, o) <= k < N.Position(index, o) + |bytes| then bytes[k - N.Position(index, o)]
      else ByteAt(ClearedBehind(PagedContents(pages, remote, isize), isize, index), k)
  {
    N.OutsidePage(index, k);
    if k / PAGE_SIZE == index {
      var i := k % PAGE_SIZE;
      assert k == N.Position(index, i);
      if o <= i < o + |bytes| {
        assert q.data[i] == q.data[o..o + |bytes|][i - o];
      } else {
        assert k >= isize;
      }
    } else {
      EqualBehindEnd(pages, remote, isize, k);
    }
  }

  /**
   * A failed write may leave a byte at the servers behind the size the client knows; the zero fill of the next one
   * clears it.
   */
  lemma ZeroFillClearsServerByte()
    ensures StoredAt([], [7], 0, [7, 8], -3) && PagesValid(map[], [7], 0) && BehindSize(0, 0, 1, 1)
    ensures ClearedBehind(PagedContents(map[], [7], 0), 0, 0) != PagedContents(map[], [7], 0)
  {
    assert PagedContents(map[], [7], 0) == [7];
    assert ByteAt(ClearedBehind([7], 0, 0), 0) == 0;
  }

  /** Behind the end of the file the overlay gives zeros too. */
  lemma EqualBehindEnd(pages: Pages, remote: File, isize: nat, k: nat)
    requires PagesValid(pages, remote, isize)
    ensures PagedByte(pages, remote, k) == ByteAt(PagedContents(pages, remote, isize), k)
  {
    var index := k / PAGE_SIZE;
    if k >= Max(isize, |remote|) && IsDirty(pages, index) {
      assert pages[index].uptodate && Shows(pages, remote, isize, index);
      assert k == N.Position(index, k % PAGE_SIZE);
    }
  }

  /** The page shows the file after the write, and the other pages still do. */
  lemma ShowsAfterSplice(f: File, g: File, index: nat, o: Offset, bytes: seq<Byte>, data: seq<Byte>)
    requires o + |bytes| <= PAGE_SIZE && |data| == PAGE_SIZE && g == Splice(f, N.Position(index, o), bytes)
    requires forall k :: 0 <= k < PAGE_SIZE && !(o <= k < o + |bytes|) ==> data[k] == N.PageOf(f, index)[k]
    requires data[o..o + |bytes|] == bytes
    ensures data == N.PageOf(g, index)
    ensures forall i: nat :: i != index ==> N.PageOf(g, i) == N.PageOf(f, i)
  {
    forall k | 0 <= k < PAGE_SIZE ensures data[k] == N.PageOf(g, index)[k] {
      if o <= k < o + |bytes| {
        assert data[k] == data[o..o + |bytes|][k - o];
      }
    }
    forall i: nat | i != index ensures N.PageOf(g, i) == N.PageOf(f, i) {
      OtherPage(f, g, index, o, bytes, i);
    }
  }

  lemma OtherPage(f: File, g: File, index: nat, o: Offset, bytes: seq<Byte>, i: nat)
    requires o + |bytes| <= PAGE_SIZE && i != index
    requires ChangedWithin(f, g, N.Position(index, o), |bytes|) || g == Splice(f, N.Position(index, o), bytes)
    ensures N.PageOf(g, i) == N.PageOf(f, i)
  {
    forall k: nat | k < PAGE_SIZE ensures N.PageOf(g, i)[k] == N.PageOf(f, i)[k] {
      N.PageAndOffset(i, k);
      N.OutsidePage(index, N.Position(i, k));
    }
  }

  lemma SyncedByte(pages: Pages, remote: File, isize: nat, index: nat, o: Offset, bytes: seq<Byte>,
      remote2: File, res: int, k: nat)
    requires PagesValid(pages, remote, isize) && o + |bytes| <= PAGE_SIZE
    requires !IsDirty(pages, index) && StoredAt(remote, remote2, N.Position(index, o), bytes, res)
    requires var n := if res > 0 then res else 0; !(N.Position(index, o) + n <= k < N.Position(index, o) + |bytes|)
    ensures PagedByte(pages, remote2, k) ==
      ByteAt(Splice(PagedContents(pages, remote, isize), N.Position(index, o), bytes[..if res > 0 then res else 0]), k)
  {
    N.OutsidePage(index, k);
    EqualBehindEnd(pages, remote, isize, k);
    StoredElsewhere(remote, remote2, N.Position(index, o), bytes, res, k);
  }

  /** A synchronous write of the copied bytes has the same effect on the file as the write it stands for. */
  lemma SyncStores(pages: Pages, remote: File, isize: nat, index: nat, o: Offset, bytes: seq<Byte>,
      remote2: File, res: int)
    requires PagesValid(pages, remote, isize) && o + |bytes| <= PAGE_SIZE
    requires !IsDirty(pages, index) && StoredAt(remote, remote2, N.Position(index, o), bytes, res)
    requires (res == 0 ==> bytes == [])
    ensures var isize2 := Grown(isize, N.Position(index, o), res);
      && StoredAt(
        PagedContents(pages, remote, isize), PagedContents(pages, remote2, isize2), N.Position(index, o), bytes, res)
      && (res == |bytes| && |remote| <= isize ==> |remote2| <= isize2)
  {
    var pos := N.Position(index, o);
    var isize2 := Grown(isize, pos, res);
    var f, g := PagedContents(pages, remote, isize), PagedContents(pages, remote2, isize2);
    var n := if res > 0 then res else 0;
    var s := Splice(f, pos, bytes[..n]);
    forall k: nat | k < |g| && !(pos + n <= k < pos + |bytes|) ensures g[k] == ByteAt(s, k) {
      SyncedByte(pages, remote, isize, index, o, bytes, remote2, res, k);
    }
    assert ChangedWithin(s, g, pos + n, |bytes| - n);
  }

  /** Pages other than the one written synchronously still show the file. */
  lemma SyncKeepsPages(pages: Pages, remote: File, isize: nat, index: nat, o: Offset, bytes: seq<Byte>,
      remote2: File, res: int)
    requires PagesValid(pages, remote, isize) && o + |bytes| <= PAGE_SIZE
    requires index in pages && !pages[index].uptodate
    requires StoredAt(remote, remote2, N.Position(index, o), bytes, res) && (res == 0 ==> bytes == [])
    ensures PagesValid(pages, remote2, Grown(isize, N.Position(index, o), res))
  {
    var pos := N.Position(index, o);
    var f, g := PagedContents(pages, remote, isize), PagedContents(pages, remote2, Grown(isize, pos, res));
    SyncStores(pages, remote, isize, index, o, bytes, remote2, res);
    if res >= 0 {
      SpliceWithin(f, pos, bytes[..res], Splice(f, pos, bytes[..res]), pos, 0);
      assert ChangedWithin(f, g, pos, |bytes|);
    }
    forall i | i in pages && pages[i].uptodate ensures Shows(pages, remote2, Grown(isize, pos, res), i) {
      assert Shows(pages, remote, isize, i);
      OtherPage(f, g, index, o, bytes, i);
    }
  }

  /** Outside of what a write may have damaged the file is as the complete part of the write left it. */
  lemma StoredElsewhere(f: File, g: File, off: nat, bytes: seq<Byte>, res: int, k: nat)
    requires StoredAt(f, g, off, bytes, res)
    requires var n := if res > 0 then res else 0; !(off + n <= k < off + |bytes|)
    ensures ByteAt(g, k) == ByteAt(Splice(f, off, bytes[..if res > 0 then res else 0]), k)
  {
  }

  class PagedFile {
    const remote: RemoteFile
    var isize: nat
    var pages: Pages

    ghost function Contents(): File
      requires Shaped(pages)
      reads this, remote`contents
    {
      PagedContents(pages, remote.contents, isize)
    }

    ghost predicate Valid()
      reads this, remote`contents
    {
      PagesValid(pages, remote.contents, isize)
    }

    /** The client's file size covers what the servers hold. */
    ghost predicate SizeKnown()
      reads this, remote`contents
    {
      |remote.contents| <= isize
    }

    constructor (remote: RemoteFile)
      ensures Valid() && SizeKnown() && Contents() == remote.contents && this.remote == remote
    {
      this.remote := remote;
      isize, pages := |remote.contents|, map[];
    }

    /** Between begin and end of a write to the bytes [o, o+len) of a page. */
    ghost predicate Begun(index: nat, o: nat, len: nat)
      reads this, remote`contents
    {
      InProgress(pages, remote.contents, isize, index, o, len)
    }

    /**
     * The file to which the end of a write adds its bytes: a page filled with zeros takes the place of what is behind
     * the size.
     */
    ghost function Base(index: nat, len: nat, n: nat): File
      requires Shaped(pages) && index in pages
      reads this, remote`contents
    {
      if pages[index].checked && n == len then ClearedBehind(Contents(), isize, index) else Contents()
    }

    /** The write leaves bytes of the page that are not known. */
    predicate NeedsRest(index: nat, len: nat)
      reads this
    {
      len != PAGE_SIZE && !(index in pages && pages[index].uptodate)
    }

    /** Finds or creates the page, and decides whether it has to be read. */
    method WriteBegin(pos: nat, len: nat) returns (err: int)
      requires Valid() && 0 < len && pos % PAGE_SIZE + len <= PAGE_SIZE
      modifies this`pages, this`isize, remote`failure
      ensures Tells(err == 0, old(remote.failure), remote.failure)
      ensures Shaped(pages) && Contents() == old(Contents())
      ensures old(isize) <= isize <= Max(old(isize), |remote.contents|)
      ensures if err == 0 then Begun(pos / PAGE_SIZE, pos % PAGE_SIZE, len) else Valid()
      // a page is filled with zeros exactly if that spares a read; one to be overwritten needs neither
      ensures err == 0 ==> (pages[pos / PAGE_SIZE].checked <==>
        old(NeedsRest(pos / PAGE_SIZE, len)) && BehindSize(old(isize), pos / PAGE_SIZE, pos % PAGE_SIZE, len))
      ensures err == 0 ==> pages[pos / PAGE_SIZE].checked || pages[pos / PAGE_SIZE].uptodate || len == PAGE_SIZE
      ensures !old(NeedsRest(pos / PAGE_SIZE, len)) || BehindSize(old(isize), pos / PAGE_SIZE, pos % PAGE_SIZE, len) ==>
        err == 0 && remote.failure == old(remote.failure)
    {
      var index, offset := pos / PAGE_SIZE, pos % PAGE_SIZE;
      if index !in pages {
        SetCleanPage(index, Page(Zeros(PAGE_SIZE), false, false, false));
      }
      if pages[index].uptodate || len == PAGE_SIZE {
        assert pages[index := pages[index].(checked := false)] == pages;
        return 0;
      }
      if index * PAGE_SIZE >= isize || (offset == 0 && pos + len >= isize) {
        ZeroAround(index, offset, len);
        return 0;
      }
      ghost var found;
      err, found := ReadPageSync(index);
      assert err == 0 ==> pages[index := pages[index].(checked := false)] == pages;
    }

    /** Fills the page with zeros around the coming write. */
    method ZeroAround(index: nat, o: nat, len: nat)
      requires Valid() && index in pages && !pages[index].dirty && !pages[index].uptodate && o + len <= PAGE_SIZE
      requires BehindSize(isize, index, o, len)
      modifies this`pages
      ensures Shaped(pages) && Contents() == old(Contents()) && Begun(index, o, len) && pages[index].checked
    {
      var data := Zeros(o) + pages[index].data[o..o + len] + Zeros(PAGE_SIZE - o - len);
      SetCleanPage(index, Page(data, false, false, false));
      assert pages[index := pages[index].(checked := true)][index := pages[index].(checked := false)] == pages;
      SameContents(pages, remote.contents, isize, index, pages[index].(checked := true));
      pages := pages[index := pages[index].(checked := true)];
      assert ZeroOutside(data, o, len);
    }

    /** Replaces the data of a page that is not dirty. */
    method SetCleanPage(index: nat, q: Page)
      requires Valid() && !IsDirty(pages, index) && |q.data| == PAGE_SIZE && !q.dirty && !q.checked
      requires q.uptodate ==> q.data == N.PageOf(Contents(), index)
      modifies this`pages
      ensures Valid() && Contents() == old(Contents()) && pages == old(pages)[index := q]
    {
      SameContents(pages, remote.contents, isize, index, q);
      pages := pages[index := q];
    }

    /** Reads a page that is not dirty; a size that turns out to be too small is corrected. */
    method ReadPageSync(index: nat) returns (err: int, ghost found: seq<Byte>)
      requires Valid() && index in pages && !pages[index].dirty
      modifies this`pages, this`isize, remote`failure
      ensures Tells(err == 0, old(remote.failure), remote.failure)
      ensures Valid() && Contents() == old(Contents()) && index in pages && (err == 0 ==> pages[index].uptodate)
      ensures old(isize) <= isize <= Max(old(isize), |remote.contents|)
      // the size reaches what the servers have sent
      ensures err == 0 ==>
        && ReadOf(remote.contents, remote.chunkSize, N.Position(index, 0), PAGE_SIZE, found)
        && isize == Grown(old(isize), N.Position(index, 0), |found|)
    {
      var res, data := remote.ReadFile(PAGE_SIZE, N.Position(index, 0));
      found := data;
      if res < 0 {
        SetCleanPage(index, pages[index].(uptodate := false));
        return res, found;
      }
      var filled := data + Zeros(PAGE_SIZE - res);
      N.PageFromRead(remote.contents, remote.chunkSize, index, data);
      CleanPageShows(pages, remote.contents, isize, index);
      SetCleanPage(index, Page(filled, true, false, false));
      SizeCorrected(pages, remote.contents, isize, Grown(isize, N.Position(index, 0), res));
      isize := Grown(isize, N.Position(index, 0), res);
      err := 0;
    }

    /** The page is up to date, or will be once n of len bytes have been copied into it. */
    predicate WillShow(index: nat, len: nat, n: nat)
      requires index in pages
      reads this
    {
      pages[index].uptodate || n == if pages[index].checked then len else PAGE_SIZE
    }

    /** Ends a write of which `bytes` have been copied into the page: marks the page dirty, or writes synchronously. */
    method WriteEnd(pos: nat, len: nat, bytes: seq<Byte>) returns (res: int)
      requires pos % PAGE_SIZE + len <= PAGE_SIZE && |bytes| <= len && 0 < len
      requires Begun(pos / PAGE_SIZE, pos % PAGE_SIZE, len)
      modifies this`pages, this`isize, remote
      ensures Tells(res == |bytes|, old(remote.failure), remote.failure)
      ensures Valid() && StoredAt(old(Base(pos / PAGE_SIZE, len, |bytes|)), Contents(), pos, bytes, res)
      ensures isize == Grown(old(isize), pos, res)
      // a client that knows the size clears nothing
      ensures old(SizeKnown()) ==>
        StoredAt(old(Contents()), Contents(), pos, bytes, res) && (res == |bytes| ==> SizeKnown())
      // either the page takes the data, and then all of it, or it stays clean
      ensures IsDirty(pages, pos / PAGE_SIZE) ==>
        res == |bytes| && remote.contents == old(remote.contents) && remote.failure == old(remote.failure)
      // it does so exactly if outside of the copied bytes it shows the file
      ensures IsDirty(pages, pos / PAGE_SIZE) <==> old(WillShow(pos / PAGE_SIZE, len, |bytes|))
    {
      var index := pos / PAGE_SIZE;
      assert N.Position(index, pos % PAGE_SIZE) == pos;
      if SizeKnown() {
        ClearedNothing(Contents(), isize, index);
      }
      res := EndInPage(index, pos % PAGE_SIZE, len, bytes);
    }

    method EndInPage(index: nat, o: Offset, len: nat, bytes: seq<Byte>) returns (res: int)
      requires Begun(index, o, len) && |bytes| <= len && 0 < len
      modifies this`pages, this`isize, remote
      ensures Tells(res == |bytes|, old(remote.failure), remote.failure)
      ensures Valid() && StoredAt(old(Base(index, len, |bytes|)), Contents(), N.Position(index, o), bytes, res)
      ensures isize == Grown(old(isize), N.Position(index, o), res)
      ensures old(SizeKnown()) && res == |bytes| ==> SizeKnown()
      ensures IsDirty(pages, index) ==>
        res == |bytes| && remote.contents == old(remote.contents) && remote.failure == old(remote.failure)
      ensures IsDirty(pages, index) <==> old(WillShow(index, len, |bytes|))
    {
      var p := Copied(pages[index], o, len, bytes);
      AfterCopy(pages, remote.contents, isize, index, o, len, bytes, p);
      if !p.uptodate {
        res := WriteSynchronously(index, o, bytes, p);
      } else {
        DirtyPage(index, o, bytes, p.(dirty := true));
        res := |bytes|;
      }
    }

    method WriteSynchronously(index: nat, o: Offset, bytes: seq<Byte>, p: Page) returns (res: int)
      requires index in pages && |p.data| == PAGE_SIZE && !p.dirty
      requires !p.checked && !p.uptodate && o + |bytes| <= PAGE_SIZE
      requires Shaped(pages) && PagesValid(pages[index := p], remote.contents, isize) && !pages[index].dirty
      modifies this`pages, this`isize, remote
      ensures Tells(res == |bytes|, old(remote.failure), remote.failure)
      ensures Valid() && StoredAt(old(Contents()), Contents(), N.Position(index, o), bytes, res)
      ensures isize == Grown(old(isize), N.Position(index, o), res)
      ensures (old(SizeKnown()) && res == |bytes| ==> SizeKnown()) && pages == old(pages)[index := p]
    {
      SameContents(pages, remote.contents, isize, index, p);
      pages := pages[index := p];
      ghost var before := remote.contents;
      res := remote.WriteFile(bytes, N.Position(index, o));
      SyncStores(pages, before, isize, index, o, bytes, remote.contents, res);
      SyncKeepsPages(pages, before, isize, index, o, bytes, remote.contents, res);
      isize := Grown(isize, N.Position(index, o), res);
    }

    /**
     * Marks a page dirty that has become up to date: it shows the file outside of the write, or has been filled with
     * zeros.
     */
    method DirtyPage(index: nat, o: Offset, bytes: seq<Byte>, q: Page)
      requires index in pages
      requires Begun(index, o, if pages[index].checked then |bytes| else 0) && o + |bytes| <= PAGE_SIZE
      requires q.dirty && q.uptodate && !q.checked && |q.data| == PAGE_SIZE && q.data[o..o + |bytes|] == bytes
      requires if pages[index].checked then bytes != [] && ZeroOutside(q.data, o, |bytes|)
        else ReadyOutside(pages, remote.contents, isize, index, q.data, o, |bytes|)
      modifies this`pages, this`isize
      ensures Valid() && (old(SizeKnown()) ==> SizeKnown()) && pages == old(pages)[index := q]
      ensures StoredAt(old(Base(index, |bytes|, |bytes|)), Contents(), N.Position(index, o), bytes, |bytes|)
      ensures isize == Grown(old(isize), N.Position(index, o), |bytes|)
    {
      ghost var begun := pages[index := pages[index].(checked := false)];
      ghost var base := Base(index, |bytes|, |bytes|);
      SameMarks(pages, remote.contents, isize, index);
      assert begun[index := q] == pages[index := q];
      if pages[index].checked {
        ZeroFillStores(begun, remote.contents, isize, index, o, bytes, q);
        ClearedPages(Contents(), isize, index, o, |bytes|);
      } else {
        DirtyStores(begun, remote.contents, isize, index, o, bytes, q);
      }
      DirtyKeepsPages(begun, remote.contents, isize, index, o, bytes, q, base);
      isize := Grown(isize, N.Position(index, o), |bytes|);
      pages := pages[index := q];
      assert bytes[..|bytes|] == bytes;
    }
  }

  /** The mark of a zero-filled page does not change the file. */
  lemma SameMarks(pages: Pages, remote: File, isize: nat, index: nat)
    requires Shaped(pages) && index in pages
    ensures var begun := pages[index := pages[index].(checked := false)];
      Shaped(begun) && PagedContents(begun, remote, isize) == PagedContents(pages, remote, isize)
  {
    var begun := pages[index := pages[index].(checked := false)];
    assert forall k: nat :: PagedByte(begun, remote, k) == PagedByte(pages, remote, k);
  }

  /** Up-to-date pages show the file after a page has become dirty. */
  lemma DirtyKeepsPages(pages: Pages, remote: File, isize: nat, index: nat, o: Offset, bytes: seq<Byte>, q: Page,
      base: File)
    requires PagesValid(pages, remote, isize) && index in pages && o + |bytes| <= PAGE_SIZE
    requires q.dirty && q.uptodate && !q.checked && |q.data| == PAGE_SIZE && q.data[o..o + |bytes|] == bytes
    requires forall k :: 0 <= k < PAGE_SIZE && !(o <= k < o + |bytes|) ==> q.data[k] == N.PageOf(base, index)[k]
    requires forall i: nat :: i != index ==> N.PageOf(base, i) == N.PageOf(PagedContents(pages, remote, isize), i)
    requires PagedContents(pages[index := q], remote, Grown(isize, N.Position(index, o), |bytes|)) ==
      Splice(base, N.Position(index, o), bytes)
    ensures PagesValid(pages[index := q], remote, Grown(isize, N.Position(index, o), |bytes|))
  {
    var after, isize2 := pages[index := q], Grown(isize, N.Position(index, o), |bytes|);
    ShowsAfterSplice(base, PagedContents(after, remote, isize2), index, o, bytes, q.data);
    forall i | i in after && after[i].uptodate ensures Shows(after, remote, isize2, i) {
      assert i != index ==> Shows(pages, remote, isize, i);
    }
  }

  /** Outside of the write a page that is cleared behind the size holds zeros; the other pages are as before. */
  lemma ClearedPages(f: File, isize: nat, index: nat, o: nat, len: nat)
    requires BehindSize(isize, index, o, len) && o + len <= PAGE_SIZE
    ensures var g := ClearedBehind(f, isize, index);
      && ZeroOutside(N.PageOf(g, index), o, len)
      && forall i: nat :: i != index ==> N.PageOf(g, i) == N.PageOf(f, i)
  {
    var g := ClearedBehind(f, isize, index);
    forall i: nat | i != index ensures N.PageOf(g, i) == N.PageOf(f, i) {
      forall k: nat | k < PAGE_SIZE ensures N.PageOf(g, i)[k] == N.PageOf(f, i)[k] {
        N.PageAndOffset(i, k);
        N.OutsidePage(index, N.Position(i, k));
      }
    }
  }

  /** A page that is not dirty is the servers'. */
  lemma CleanPageShows(pages: Pages, remote: File, isize: nat, index: nat)
    requires Shaped(pages) && !IsDirty(pages, index)
    ensures N.PageOf(PagedContents(pages, remote, isize), index) == N.PageOf(remote, index)
  {
    var f := PagedContents(pages, remote, isize);
    forall k: nat | k < PAGE_SIZE ensures N.PageOf(f, index)[k] == N.PageOf(remote, index)[k] {
      N.PageAndOffset(index, k);
    }
  }

  /** The client's size does not matter as long as the servers' file is longer. */
  lemma SizeCorrected(pages: Pages, remote: File, isize: nat, isize2: nat)
    requires PagesValid(pages, remote, isize) && isize <= isize2 <= Max(isize, |remote|)
    ensures PagesValid(pages, remote, isize2)
    ensures PagedContents(pages, remote, isize2) == PagedContents(pages, remote, isize)
  {
    assert PagedContents(pages, remote, isize2) == PagedContents(pages, remote, isize);
    assert forall i <- pages :: Shows(pages, remote, isize, i) ==> Shows(pages, remote, isize2, i);
  }

  /** The data of pages that are not dirty does not matter. */
  lemma SameContents(pages: Pages, remote: File, isize: nat, index: nat, q: Page)
    requires Shaped(pages) && |q.data| == PAGE_SIZE && !IsDirty(pages, index) && !q.dirty
    ensures Shaped(pages[index := q])
    ensures PagedContents(pages[index := q], remote, isize) == PagedContents(pages, remote, isize)
  {
    assert forall pos: nat :: PagedByte(pages[index := q], remote, pos) == PagedByte(pages, remote, pos);
  }
}
