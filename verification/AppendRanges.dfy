/**
 * Append ranges of native mode. Appended bytes wait in the page cache behind the end of the file that the client knows;
 * their place in the file is reserved when the first of them is written back.
 */
module AppendRanges {
  import opened FileBytes
  import opened PageRange
  import opened DirtyPages

  /**
   * The descriptor of an append: where it starts in the page cache, how many bytes are to be reserved, how many of them
   * are present, and the place in the file, negative before the reservation.
   */
  datatype Ard = Ard(firstPageIndex: nat, firstPageStart: Offset, size: nat, dataPresent: nat, fileOffset: int)

  function FirstPosition(a: Ard): nat {
    a.firstPageIndex * PAGE_SIZE + a.firstPageStart
  }

  /** Page-cache position behind the last byte that is present. */
  function AppendEnd(a: Ard): nat {
    FirstPosition(a) + a.dataPresent
  }

  function OffsetInPage(p: DirtyPage, a: Ard): Offset {
    if p.index == a.firstPageIndex then a.firstPageStart else 0
  }

  /** Page-cache position of the page's first appended byte. */
  function Position(p: DirtyPage, a: Ard): nat {
    PageOffset(p) + OffsetInPage(p, a)
  }

  /** Length of a page's gather entry. The difference is unsigned, so a negative one is larger than any page. */
  function AppendLen(p: DirtyPage, a: Ard): nat {
    var present, room := AppendEnd(a) - Position(p, a), PAGE_SIZE - OffsetInPage(p, a);
    if present < 0 then room else Min(present, room)
  }

  function AppendEntry(p: DirtyPage, a: Ard): (r: seq<Byte>)
    requires WellFormed(p)
    ensures |r| == AppendLen(p, a)
  {
    p.data[OffsetInPage(p, a)..OffsetInPage(p, a) + AppendLen(p, a)]
  }

  /** Consecutive pages, none of them before the append's first. */
  predicate AppendPages(b: seq<DirtyPage>, a: Ard) {
    && (forall p <- b :: WellFormed(p) && p.index >= a.firstPageIndex)
    && forall k :: 0 <= k < |b| ==> b[k].index == b[0].index + k
  }

  /** What the gather list hands to the server, in order. */
  function AppendGathered(b: seq<DirtyPage>, a: Ard): seq<Byte>
    requires forall p <- b :: WellFormed(p)
  {
    if b == [] then [] else AppendGathered(b[..|b| - 1], a) + AppendEntry(b[|b| - 1], a)
  }

  function AppendLens(b: seq<DirtyPage>, a: Ard): (lens: seq<nat>)
    ensures |lens| == |b|
  {
    if b == [] then [] else AppendLens(b[..|b| - 1], a) + [AppendLen(b[|b| - 1], a)]
  }

  /** Each entry ends where the next page begins. */
  predicate EntriesJoin(b: seq<DirtyPage>, a: Ard) {
    forall k :: 0 <= k < |b| - 1 ==> OffsetInPage(b[k], a) + AppendLen(b[k], a) == PAGE_SIZE
  }

  /**
   * The gather list is one piece of the append exactly if the bytes that are present do not end inside the batch before
   * its last page; while an append is still being copied they may.
   */
  lemma EntriesJoinIff(b: seq<DirtyPage>, a: Ard)
    requires AppendPages(b, a) && b != []
    ensures EntriesJoin(b, a) <==> !(Position(b[0], a) <= AppendEnd(a) < PageOffset(b[|b| - 1]))
  {
    var last := b[|b| - 1];
    if EntriesJoin(b, a) && Position(b[0], a) <= AppendEnd(a) < PageOffset(last) {
      var k := AppendEnd(a) / PAGE_SIZE - b[0].index;
      EndsInPage(b, a, k);
      assert false;
    }
    if !EntriesJoin(b, a) {
      var k :| 0 <= k < |b| - 1 && OffsetInPage(b[k], a) + AppendLen(b[k], a) != PAGE_SIZE;
      PagesInOrder(b[0], b[k], a);
      assert b[k].index < last.index;
    }
  }

  lemma PagesInOrder(p: DirtyPage, q: DirtyPage, a: Ard)
    requires a.firstPageIndex <= p.index <= q.index
    ensures Position(p, a) <= Position(q, a)
    ensures p.index < q.index ==> PageOffset(p) + PAGE_SIZE <= Position(q, a) == PageOffset(q)
  {
  }

  lemma EndsInPage(b: seq<DirtyPage>, a: Ard, k: int)
    requires AppendPages(b, a) && b != [] && k == AppendEnd(a) / PAGE_SIZE - b[0].index
    requires Position(b[0], a) <= AppendEnd(a) < PageOffset(b[|b| - 1])
    ensures 0 <= k < |b| - 1 && OffsetInPage(b[k], a) + AppendLen(b[k], a) < PAGE_SIZE
  {
    assert b[k].index == AppendEnd(a) / PAGE_SIZE;
    PagesInOrder(b[0], b[k], a);
  }

  /** The byte at offset o of the page belongs to the append and is present, as far as the page's length goes. */
  predicate Appended(p: DirtyPage, o: nat, a: Ard) {
    OffsetInPage(p, a) <= o < OffsetInPage(p, a) + AppendLen(p, a)
  }

  /** In a gapless list each page's appended bytes come in their order, page after page. */
  lemma {:induction false} AppendGatheredByte(b: seq<DirtyPage>, a: Ard, k: nat, o: nat, i: int)
    requires AppendPages(b, a) && EntriesJoin(b, a) && k < |b| && Appended(b[k], o, a)
    requires i == PageOffset(b[k]) + o - Position(b[0], a)
    ensures 0 <= i < |AppendGathered(b, a)| && AppendGathered(b, a)[i] == b[k].data[o]
  {
    var n := |b| - 1;
    if k < n {
      Prefix(b, a);
      AppendGatheredByte(b[..n], a, k, o, i);
    } else {
      LastGathered(b, a, o, i);
    }
  }

  lemma LastGathered(b: seq<DirtyPage>, a: Ard, o: nat, i: int)
    requires AppendPages(b, a) && b != [] && EntriesJoin(b, a) && Appended(b[|b| - 1], o, a)
    requires i == PageOffset(b[|b| - 1]) + o - Position(b[0], a)
    ensures 0 <= i < |AppendGathered(b, a)| && AppendGathered(b, a)[i] == b[|b| - 1].data[o]
  {
    var p := b[|b| - 1];
    GatheredEndsAt(b, a);
    assert AppendEntry(p, a)[o - OffsetInPage(p, a)] == p.data[o];
  }

  /** The place in the file of the page's first appended byte. */
  function Place(p: DirtyPage, a: Ard): (r: nat)
    requires a.fileOffset >= 0 && p.index >= a.firstPageIndex
    ensures r == a.fileOffset + Position(p, a) - FirstPosition(a)
  {
    a.fileOffset + (Position(p, a) - FirstPosition(a))
  }

  /** Writing the pages one by one, each to its place. */
  function StorePlaced(f: File, b: seq<DirtyPage>, a: Ard): File
    requires a.fileOffset >= 0 && forall p <- b :: WellFormed(p) && p.index >= a.firstPageIndex
  {
    if b == [] then f
    else
      Splice(StorePlaced(f, b[..|b| - 1], a), Place(b[|b| - 1], a), AppendEntry(b[|b| - 1], a))
  }

  lemma {:induction false} GatheredEndsAt(b: seq<DirtyPage>, a: Ard)
    requires AppendPages(b, a) && b != [] && EntriesJoin(b, a)
    ensures Position(b[0], a) + |AppendGathered(b[..|b| - 1], a)| == Position(b[|b| - 1], a)
  {
    var n := |b| - 1;
    if n > 0 {
      var c := b[..n];
      assert c[0] == b[0] && forall k :: 0 <= k < |c| ==> c[k] == b[k];
      GatheredEndsAt(c, a);
      assert OffsetInPage(b[n - 1], a) + AppendLen(b[n - 1], a) == PAGE_SIZE;
      PagesInOrder(b[n - 1], b[n], a);
    }
  }

  /** A joined gather list, written to the place of its first page, is the same as writing page by page. */
  lemma {:induction false} AppendIsPageByPage(f: File, b: seq<DirtyPage>, a: Ard, off: nat)
    requires AppendPages(b, a) && b != [] && EntriesJoin(b, a) && a.fileOffset >= 0 && off == Place(b[0], a)
    ensures Splice(f, off, AppendGathered(b, a)) == StorePlaced(f, b, a)
  {
    var c := b[..|b| - 1];
    if c != [] {
      Prefix(b, a);
      AppendIsPageByPage(f, c, a, off);
    }
    LastPlaced(f, b, a, off);
  }

  lemma LastPlaced(f: File, b: seq<DirtyPage>, a: Ard, off: nat)
    requires AppendPages(b, a) && b != [] && EntriesJoin(b, a) && a.fileOffset >= 0 && off == Place(b[0], a)
    requires |b| > 1 ==> Splice(f, off, AppendGathered(b[..|b| - 1], a)) == StorePlaced(f, b[..|b| - 1], a)
    ensures Splice(f, off, AppendGathered(b, a)) == StorePlaced(f, b, a)
  {
    var c := b[..|b| - 1];
    LastPlace(b, a);
    OneMoreEntry(f, off, AppendGathered(c, a), AppendEntry(b[|b| - 1], a), StorePlaced(f, c, a),
      Place(b[|b| - 1], a), AppendGathered(b, a), StorePlaced(f, b, a));
  }

  lemma LastPlace(b: seq<DirtyPage>, a: Ard)
    requires AppendPages(b, a) && b != [] && EntriesJoin(b, a) && a.fileOffset >= 0
    ensures Place(b[|b| - 1], a) == Place(b[0], a) + |AppendGathered(b[..|b| - 1], a)|
  {
    GatheredEndsAt(b, a);
  }

  lemma Prefix(b: seq<DirtyPage>, a: Ard)
    requires AppendPages(b, a) && EntriesJoin(b, a) && |b| > 1
    ensures AppendPages(b[..|b| - 1], a) && EntriesJoin(b[..|b| - 1], a) && b[..|b| - 1][0] == b[0]
  {
  }

  /** One more entry behind what has been stored. */
  lemma OneMoreEntry(f: File, off: nat, gathered: seq<Byte>, entry: seq<Byte>, stored: File, at: nat, all: seq<Byte>,
      after: File)
    requires Splice(f, off, gathered) == stored && at == off + |gathered|
    requires all == gathered + entry && after == Splice(stored, at, entry)
    ensures Splice(f, off, all) == after
  {
    SpliceAdjacent(f, off, gathered, entry);
  }

  /** Page-by-page writing puts each appended byte where the append has it. */
  lemma PlacedByte(f: File, b: seq<DirtyPage>, a: Ard, k: nat, o: nat, x: int)
    requires AppendPages(b, a) && EntriesJoin(b, a) && a.fileOffset >= 0 && k < |b| && Appended(b[k], o, a)
    requires x == a.fileOffset + PageOffset(b[k]) + o - FirstPosition(a)
    ensures x >= 0 && ByteAt(StorePlaced(f, b, a), x) == b[k].data[o]
  {
    var off := Place(b[0], a);
    AppendGatheredByte(b, a, k, o, x - off);
    AppendIsPageByPage(f, b, a, off);
    StoredByte(f, off, AppendGathered(b, a), StorePlaced(f, b, a), x - off);
  }

  /** Every batch of an append is written to the append's own offset: right for its first page only. */
  lemma OffsetIsPlaceIff(p: DirtyPage, a: Ard)
    requires a.fileOffset >= 0 && p.index >= a.firstPageIndex
    ensures a.fileOffset == Place(p, a) <==> p.index == a.firstPageIndex
  {
  }

  /**
   * So the second batch `c` of an append, which starts at a later page, is written over the first one, `b`: whatever
   * the file was, it then begins at the append's offset with the bytes of `c`, but page by page with those of `b`.
   */
  lemma LaterBatchOverwrites(f: File, b: seq<DirtyPage>, c: seq<DirtyPage>, a: Ard, before: File, after: File, k: nat)
    requires AppendPages(b + c, a) && EntriesJoin(b + c, a) && a.fileOffset >= 0
    requires b != [] && b[0].index == a.firstPageIndex && PartsWellFormed(b, c)
    requires after == Splice(before, a.fileOffset, AppendGathered(c, a))
    ensures k < |AppendGathered(c, a)| ==> ByteAt(after, a.fileOffset + k) == AppendGathered(c, a)[k]
    ensures k < |AppendGathered(b, a)| ==>
      ByteAt(StorePlaced(f, b + c, a), a.fileOffset + k) == AppendGathered(b, a)[k]
  {
    if k < |AppendGathered(b, a)| {
      FirstPlaced(f, b, c, a, k);
    }
    if k < |AppendGathered(c, a)| {
      StoredByte(before, a.fileOffset, AppendGathered(c, a), after, k);
    }
  }

  predicate PartsWellFormed(b: seq<DirtyPage>, c: seq<DirtyPage>) {
    (forall p <- b :: WellFormed(p)) && forall p <- c :: WellFormed(p)
  }

  lemma FirstPlaced(f: File, b: seq<DirtyPage>, c: seq<DirtyPage>, a: Ard, k: nat)
    requires AppendPages(b + c, a) && EntriesJoin(b + c, a) && a.fileOffset >= 0
    requires b != [] && b[0].index == a.firstPageIndex
    requires PartsWellFormed(b, c)
    requires k < |AppendGathered(b, a)|
    ensures ByteAt(StorePlaced(f, b + c, a), a.fileOffset + k) == AppendGathered(b, a)[k]
  {
    BothPlaced(f, b, c, a);
    StoredByte(f, a.fileOffset, AppendGathered(b, a) + AppendGathered(c, a), StorePlaced(f, b + c, a), k);
  }

  lemma BothPlaced(f: File, b: seq<DirtyPage>, c: seq<DirtyPage>, a: Ard)
    requires AppendPages(b + c, a) && EntriesJoin(b + c, a) && a.fileOffset >= 0
    requires b != [] && b[0].index == a.firstPageIndex
    requires PartsWellFormed(b, c)
    ensures StorePlaced(f, b + c, a) == Splice(f, a.fileOffset, AppendGathered(b, a) + AppendGathered(c, a))
  {
    GatheredOfBoth(b, c, a);
    assert (b + c)[0] == b[0];
    AppendIsPageByPage(f, b + c, a, a.fileOffset);
  }

  lemma StoredByte(f: File, off: nat, x: seq<Byte>, g: File, k: nat)
    requires k < |x| && g == Splice(f, off, x)
    ensures ByteAt(g, off + k) == x[k]
  {
  }

  lemma {:induction false} GatheredOfBoth(b: seq<DirtyPage>, c: seq<DirtyPage>, a: Ard)
    requires forall p <- b + c :: WellFormed(p)
    requires PartsWellFormed(b, c)
    ensures AppendGathered(b + c, a) == AppendGathered(b, a) + AppendGathered(c, a)
  {
    if c == [] {
      assert b + c == b;
    } else {
      var n := |c| - 1;
      assert (b + c)[..|b + c| - 1] == b + c[..n] && (b + c)[|b + c| - 1] == c[n];
      GatheredOfBoth(b, c[..n], a);
      Assoc(AppendGathered(b, a), AppendGathered(c[..n], a), AppendEntry(c[n], a));
    }
  }

  lemma Assoc(x: seq<Byte>, y: seq<Byte>, z: seq<Byte>)
    ensures (x + y) + z == x + (y + z)
  {
  }

  // the reservation: one zero byte at the end of the reserved range

  /** After a complete reservation the file has grown by the range, exactly if the range or that byte is not empty. */
  lemma ReservedIff(f: File, size: nat)
    requires |f| + size > 0
    ensures Splice(f, |f| + size - 1, [0]) == f + Zeros(size) <==> size > 0 || f[|f| - 1] == 0
  {
    var r := Splice(f, |f| + size - 1, [0]);
    if size == 0 {
      assert r[|f| - 1] == 0 && f + Zeros(0) == f;
      assert f[|f| - 1] == 0 ==> r == f;
    } else {
      assert r == f + Zeros(size);
    }
  }

  /** The file and the descriptor after a reservation; a failed write leaves the place of the byte behind. */
  predicate Reserved(f: File, a: Ard, g: File, r: Ard, err: int) {
    var at := |f| + a.size - 1;
    if err == 0 then at >= 0 && g == Splice(f, at, [0]) && r == a.(fileOffset := |f|)
    else (g == f && r == a) || (at >= 0 && ChangedWithin(f, g, at, 1) && r == a.(fileOffset := at))
  }

  /** A completely present append that fits into one batch ends up behind what the file held at the reservation. */
  lemma SingleBatchAppends(f: File, a: Ard, g: File, r: Ard, b: seq<DirtyPage>)
    requires Reserved(f, a, g, r, 0) && a.dataPresent == a.size
    requires b != [] && AppendPages(b, r) && b[0].index == r.firstPageIndex
    requires PageOffset(b[|b| - 1]) < AppendEnd(r) <= PageOffset(b[|b| - 1]) + PAGE_SIZE && a.size > 0
    ensures EntriesJoin(b, r) && Splice(g, r.fileOffset, AppendGathered(b, r)) == f + AppendGathered(b, r)
  {
    GatheredAll(b, r);
    ReservedIff(f, a.size);
    StoreOverZeros(f, AppendGathered(b, r));
  }

  lemma GatheredAll(b: seq<DirtyPage>, a: Ard)
    requires b != [] && AppendPages(b, a) && b[0].index == a.firstPageIndex && a.dataPresent > 0
    requires PageOffset(b[|b| - 1]) < AppendEnd(a) <= PageOffset(b[|b| - 1]) + PAGE_SIZE
    ensures EntriesJoin(b, a) && |AppendGathered(b, a)| == a.dataPresent
  {
    EntriesJoinIff(b, a);
    GatheredEndsAt(b, a);
  }

  lemma StoreOverZeros(f: File, d: seq<Byte>)
    requires d != []
    ensures Splice(f + Zeros(|d|), |f|, d) == f + d
  {
    assert Splice(f + Zeros(|d|), |f|, d) == f + d;
  }

  /** After a failed reservation the next write-back takes the place kept for reserved; only one byte is right there. */
  lemma FailedReservationIsPlaceIff(f: File, a: Ard, g: File, r: Ard, err: int)
    requires Reserved(f, a, g, r, err) && err < 0 && a.fileOffset < 0 <= r.fileOffset
    ensures r.fileOffset == |f| <==> a.size == 1
  {
  }
}
