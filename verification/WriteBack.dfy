/**
 * Write-back of dirty pages in batches: consecutive pages whose ranges join without a gap are gathered into one remote
 * write, and the number of bytes written decides which pages are clean afterwards.
 */
module WriteBack {
  import opened FileBytes
  import opened FileView
  import opened PageRange
  import opened CacheStores
  import opened DirtyPages
  import opened AppendRanges

  const BLOCK_SIZE := 128

  predicate MustFlushBefore(batch: seq<DirtyPage>, next: DirtyPage) {
    if batch == [] then false
    else
      var prev := batch[|batch| - 1];
      || |batch| == BLOCK_SIZE
      || prev.index + 1 != next.index
      || (next.mark.Range? && (next.mark.first != 0 || !prev.mark.Range? || prev.mark.last != PAGE_SIZE - 1))
      || (next.mark.Append? && prev.mark != next.mark)
  }

  /** At most 128 consecutive pages, all of one append or all with ranges that join without a gap. */
  predicate Batch(b: seq<DirtyPage>) {
    && |b| <= BLOCK_SIZE
    && (forall k :: 0 <= k < |b| ==> WellFormed(b[k]) && b[k].index == b[0].index + k)
    && (if b != [] && b[0].mark.Append? then forall k :: 0 <= k < |b| ==> b[k].mark == b[0].mark
        else (forall k :: 0 <= k < |b| ==> b[k].mark.Range?) && forall k :: 0 <= k < |b| ==> Joins(b, k))
  }

  /** Page k has a range that reaches its neighbours in the batch. */
  predicate Joins(b: seq<DirtyPage>, k: nat)
    requires k < |b|
  {
    b[k].mark.Range? && (k > 0 ==> b[k].mark.first == 0) && (k < |b| - 1 ==> b[k].mark.last == PAGE_SIZE - 1)
  }

  /** The flush test accepts a page exactly if the batch extended by it is still a batch. */
  lemma FlushTestIsExact(batch: seq<DirtyPage>, next: DirtyPage)
    requires Batch(batch) && WellFormed(next)
    ensures !MustFlushBefore(batch, next) <==> Batch(batch + [next])
  {
    var b := batch + [next];
    if batch != [] && !MustFlushBefore(batch, next) {
      var n := |batch|;
      assert b[n] == next && b[n - 1] == batch[n - 1] && b[0] == batch[0];
      assert forall k :: 0 <= k < n ==> b[k] == batch[k];
      forall k | 0 <= k < |b| && batch[0].mark.Range? ensures Joins(b, k) {
        assert k < n ==> Joins(batch, k);
      }
    }
    if batch != [] && Batch(b) {
      LastFits(b);
      assert b[..|batch|] == batch;
    }
  }

  lemma LastFits(b: seq<DirtyPage>)
    requires Batch(b) && |b| > 1
    ensures !MustFlushBefore(b[..|b| - 1], b[|b| - 1])
  {
    var n := |b| - 1;
    assert b[n].index == b[0].index + n && b[n - 1].index == b[0].index + n - 1;
    assert b[0].mark.Range? ==> Joins(b, n) && Joins(b, n - 1);
  }

  // the gather list of a batch with ranges

  /** Length of a page's gather entry, clipped at the end of the file. */
  function IovLen(p: DirtyPage, isize: nat): int
    requires p.mark.Range?
  {
    if PageOffset(p) + p.mark.last >= isize then isize - PageOffset(p) - p.mark.first
    else p.mark.last - p.mark.first + 1
  }

  /** The file does not end before the page's first dirty byte. */
  predicate StartsInFile(p: DirtyPage, isize: nat) {
    p.mark.Range? && PageOffset(p) + p.mark.first < isize
  }

  /** The entry has the right length exactly if the file reaches the range; otherwise the difference underflows. */
  lemma ClipIsExact(p: DirtyPage, isize: nat)
    requires WellFormed(p) && p.mark.Range?
    ensures IovLen(p, isize) == Max(0, Min(isize, PageOffset(p) + p.mark.last + 1) - (PageOffset(p) + p.mark.first))
      <==> PageOffset(p) + p.mark.first <= isize
  {
  }

  function Entry(p: DirtyPage, isize: nat): (r: seq<Byte>)
    requires WellFormed(p) && StartsInFile(p, isize)
    ensures |r| == IovLen(p, isize) > 0
  {
    p.data[p.mark.first..p.mark.first + IovLen(p, isize)]
  }

  /** A batch of ranges whose last page starts before the end of the file, so all of them do. */
  predicate RangeBatch(b: seq<DirtyPage>, isize: nat) {
    Batch(b) && (b != [] ==> StartsInFile(b[|b| - 1], isize))
  }

  lemma AllStartInFile(b: seq<DirtyPage>, isize: nat, k: nat)
    requires RangeBatch(b, isize) && k < |b|
    ensures StartsInFile(b[k], isize) && (k < |b| - 1 ==> PageOffset(b[k]) + PAGE_SIZE <= isize)
  {
  }

  lemma RangeBatchPrefix(b: seq<DirtyPage>, isize: nat)
    requires RangeBatch(b, isize) && b != []
    ensures RangeBatch(b[..|b| - 1], isize)
  {
    var c := b[..|b| - 1];
    if |b| > 1 {
      AllStartInFile(b, isize, |b| - 2);
      assert c[|c| - 1] == b[|b| - 2] && c[0] == b[0];
      assert forall k :: 0 <= k < |c| && Joins(b, k) ==> Joins(c, k);
    }
  }

  /** What the gather list hands to the server, in order. */
  function Gathered(b: seq<DirtyPage>, isize: nat): seq<Byte>
    requires RangeBatch(b, isize)
  {
    if b == [] then []
    else
      RangeBatchPrefix(b, isize);
      Gathered(b[..|b| - 1], isize) + Entry(b[|b| - 1], isize)
  }

  /** The file position of the batch's first byte. */
  function Start(b: seq<DirtyPage>): nat
    requires b != [] && b[0].mark.Range?
  {
    PageOffset(b[0]) + b[0].mark.first
  }

  /**
   * The entries lie end to end: each one starts where the previous ones stop, so the list is one contiguous file range.
   */
  lemma {:induction false} GatheredIsContiguous(b: seq<DirtyPage>, isize: nat)
    requires RangeBatch(b, isize) && b != []
    ensures Start(b) + |Gathered(b, isize)| == Min(isize, PageOffset(b[|b| - 1]) + b[|b| - 1].mark.last + 1)
    ensures RangeBatch(b[..|b| - 1], isize)
    ensures Start(b) + |Gathered(b[..|b| - 1], isize)| == PageOffset(b[|b| - 1]) + b[|b| - 1].mark.first
  {
    RangeBatchPrefix(b, isize);
    if |b| > 1 {
      var c := b[..|b| - 1];
      GatheredIsContiguous(c, isize);
      AllStartInFile(b, isize, |b| - 2);
      assert c[|c| - 1] == b[|b| - 2];
      assert b[|b| - 1].index == b[|b| - 2].index + 1;
      assert Joins(b, |b| - 1) && Joins(b, |b| - 2);
    }
  }

  /** Writing the pages one by one, each clipped at the end of the file. */
  function StoreEach(f: File, pages: seq<DirtyPage>, isize: nat): File {
    if pages == [] then f
    else
      var p, g := pages[|pages| - 1], StoreEach(f, pages[..|pages| - 1], isize);
      if WellFormed(p) && StartsInFile(p, isize) then Splice(g, PageOffset(p) + p.mark.first, Entry(p, isize)) else g
  }

  /** One gathered write is the same as writing page by page. */
  lemma {:induction false} BatchedIsPageByPage(f: File, b: seq<DirtyPage>, isize: nat, offset: nat)
    requires RangeBatch(b, isize) && (b != [] ==> offset == Start(b))
    ensures Splice(f, offset, Gathered(b, isize)) == StoreEach(f, b, isize)
  {
    if b != [] {
      var c := b[..|b| - 1];
      LastEntry(b, isize);
      BatchedIsPageByPage(f, c, isize, offset);
      BatchedLast(f, b, isize, offset);
    }
  }

  lemma BatchedLast(f: File, b: seq<DirtyPage>, isize: nat, offset: nat)
    requires RangeBatch(b, isize) && b != [] && offset == Start(b) && RangeBatch(b[..|b| - 1], isize)
    requires Splice(f, offset, Gathered(b[..|b| - 1], isize)) == StoreEach(f, b[..|b| - 1], isize)
    ensures Splice(f, offset, Gathered(b, isize)) == StoreEach(f, b, isize)
  {
    var c, p := b[..|b| - 1], b[|b| - 1];
    LastEntry(b, isize);
    StoreLast(f, b, isize);
    OneMoreEntry(f, offset, Gathered(c, isize), Entry(p, isize), StoreEach(f, c, isize), PageOffset(p) + p.mark.first,
      Gathered(b, isize), StoreEach(f, b, isize));
  }

  lemma LastEntry(b: seq<DirtyPage>, isize: nat)
    requires RangeBatch(b, isize) && b != []
    ensures WellFormed(b[|b| - 1]) && RangeBatch(b[..|b| - 1], isize)
    ensures Gathered(b, isize) == Gathered(b[..|b| - 1], isize) + Entry(b[|b| - 1], isize)
    ensures Start(b) + |Gathered(b[..|b| - 1], isize)| == PageOffset(b[|b| - 1]) + b[|b| - 1].mark.first
    ensures |b| > 1 ==> b[0].mark.Range? && Start(b[..|b| - 1]) == Start(b)
  {
    RangeBatchPrefix(b, isize);
    GatheredIsContiguous(b, isize);
  }

  lemma StoreLast(f: File, pages: seq<DirtyPage>, isize: nat)
    requires pages != [] && WellFormed(pages[|pages| - 1]) && StartsInFile(pages[|pages| - 1], isize)
    ensures var p := pages[|pages| - 1];
      StoreEach(f, pages, isize) ==
      Splice(StoreEach(f, pages[..|pages| - 1], isize), PageOffset(p) + p.mark.first, Entry(p, isize))
  {
  }

  // the same byte by byte

  /** The file position x is in the page's range and before the end of the file. */
  predicate Covers(p: DirtyPage, x: nat, isize: nat) {
    WellFormed(p) && p.mark.Range? && PageOffset(p) + p.mark.first <= x <= PageOffset(p) + p.mark.last && x < isize
  }

  /** The page's own byte for the file position x. */
  function PageByte(p: DirtyPage, x: nat): Byte
    requires WellFormed(p) && PageOffset(p) <= x < PageOffset(p) + PAGE_SIZE
  {
    p.data[x - PageOffset(p)]
  }

  /** Each byte of a range that is in the file is sent, to its own position. */
  lemma {:induction false} GatheredByte(b: seq<DirtyPage>, isize: nat, k: nat, x: nat)
    requires RangeBatch(b, isize) && k < |b| && Covers(b[k], x, isize)
    ensures Start(b) <= x < Start(b) + |Gathered(b, isize)|
    ensures Gathered(b, isize)[x - Start(b)] == PageByte(b[k], x)
  {
    LastEntry(b, isize);
    var c := b[..|b| - 1];
    if k < |b| - 1 {
      assert c[k] == b[k];
      GatheredByte(c, isize, k, x);
    } else {
      GatheredIsContiguous(b, isize);
    }
  }

  /** And nothing else is sent. */
  lemma {:induction false} GatheredFrom(b: seq<DirtyPage>, isize: nat, x: nat)
    requires RangeBatch(b, isize) && b != [] && Start(b) <= x < Start(b) + |Gathered(b, isize)|
    ensures exists k :: 0 <= k < |b| && Covers(b[k], x, isize)
  {
    LastEntry(b, isize);
    GatheredIsContiguous(b, isize);
    var n := |b| - 1;
    var c := b[..n];
    if x < Start(b) + |Gathered(c, isize)| {
      GatheredFrom(c, isize, x);
      var k :| 0 <= k < |c| && Covers(c[k], x, isize);
      assert Covers(b[k], x, isize);
    } else {
      assert Covers(b[n], x, isize);
    }
  }

  /** The byte of the last page whose range covers x, or the old one. */
  function LatestByte(pages: seq<DirtyPage>, isize: nat, x: nat, was: Byte): Byte {
    if pages == [] then was
    else
      var p := pages[|pages| - 1];
      if Covers(p, x, isize) then PageByte(p, x) else LatestByte(pages[..|pages| - 1], isize, x, was)
  }

  /** Page-by-page writing leaves every page's bytes, and changes nothing else. */
  lemma {:induction false} StoreEachByte(f: File, pages: seq<DirtyPage>, isize: nat, x: nat)
    ensures ByteAt(StoreEach(f, pages, isize), x) == LatestByte(pages, isize, x, ByteAt(f, x))
  {
    if pages != [] {
      var c := pages[..|pages| - 1];
      StoreEachByte(f, c, isize, x);
      StoredByte(StoreEach(f, c, isize), StoreEach(f, pages, isize), pages[|pages| - 1], isize, x);
    }
  }

  lemma StoredByte(before: File, after: File, p: DirtyPage, isize: nat, x: nat)
    requires after == if WellFormed(p) && StartsInFile(p, isize) then
        Splice(before, PageOffset(p) + p.mark.first, Entry(p, isize)) else before
    ensures ByteAt(after, x) == if Covers(p, x, isize) then PageByte(p, x) else ByteAt(before, x)
  {
  }

  /** The file after the pages have been written, in bytes. */
  ghost predicate ShowsPages(before: File, after: File, pages: seq<DirtyPage>, isize: nat) {
    forall x: nat :: ByteAt(after, x) == LatestByte(pages, isize, x, ByteAt(before, x))
  }

  lemma StoreEachBytes(f: File, pages: seq<DirtyPage>, isize: nat)
    ensures ShowsPages(f, StoreEach(f, pages, isize), pages, isize)
  {
    forall x: nat ensures ByteAt(StoreEach(f, pages, isize), x) == LatestByte(pages, isize, x, ByteAt(f, x)) {
      StoreEachByte(f, pages, isize, x);
    }
  }

  // which pages a write of `written` bytes makes clean

  function Sum(lens: seq<nat>): nat {
    if lens == [] then 0 else Sum(lens[..|lens| - 1]) + lens[|lens| - 1]
  }

  /** How many of the entries, counted from the first, were written completely. */
  function Delivered(lens: seq<nat>, written: nat): (k: nat)
    ensures k <= |lens|
  {
    if lens == [] then 0 else if written < lens[0] then 0 else 1 + Delivered(lens[1..], written - lens[0])
  }

  /** The bytes written of the first entry that was not written completely. */
  function Leftover(lens: seq<nat>, written: nat): nat {
    if lens == [] then written else if written < lens[0] then written else Leftover(lens[1..], written - lens[0])
  }

  /** The accounting loop: an entry that fits into what is left of the byte count is taken as written. */
  method MarkClean(lens: seq<nat>, written: nat) returns (clean: seq<bool>, result: int)
    ensures clean == Marks(lens, written)
    ensures result == if false in clean then -1 else 0
  {
    var size := written;
    clean, result := [], 0;
    var i := 0;
    while i < |lens|
      invariant 0 <= i <= |lens| && |clean| == i
      invariant clean + Marks(lens[i..], size) == Marks(lens, written)
      invariant result == if false in clean then -1 else 0
    {
      MarksStep(lens, i, size, clean);
      if size >= lens[i] {
        size := size - lens[i];
        clean := clean + [true];
      } else {
        result := -1;
        clean := clean + [false];
      }
      i := i + 1;
    }
  }

  function Marks(lens: seq<nat>, size: nat): (m: seq<bool>)
    ensures |m| == |lens|
  {
    if lens == [] then [] else if size >= lens[0] then [true] + Marks(lens[1..], size - lens[0])
      else [false] + Marks(lens[1..], size)
  }

  lemma MarksStep(lens: seq<nat>, i: nat, size: nat, clean: seq<bool>)
    requires i < |lens|
    ensures var fits := size >= lens[i];
      clean + Marks(lens[i..], size) == clean + [fits] + Marks(lens[i + 1..], if fits then size - lens[i] else size)
  {
  }

  /** Delivered and Leftover are what their names say. */
  lemma {:induction false} DeliveredIsLongestPrefix(lens: seq<nat>, written: nat)
    ensures var k := Delivered(lens, written);
      && Sum(lens[..k]) + Leftover(lens, written) == written
      && (k < |lens| ==> Leftover(lens, written) < lens[k])
  {
    if lens != [] && written >= lens[0] {
      var k := Delivered(lens[1..], written - lens[0]);
      DeliveredIsLongestPrefix(lens[1..], written - lens[0]);
      SumFromFront(lens[..k + 1]);
      assert lens[..k + 1][1..] == lens[1..][..k];
    }
  }

  lemma {:induction false} SumFromFront(lens: seq<nat>)
    requires lens != []
    ensures Sum(lens) == lens[0] + Sum(lens[1..])
  {
    if |lens| > 1 {
      SumFromFront(lens[..|lens| - 1]);
      assert lens[..|lens| - 1][1..] == lens[1..][..|lens| - 2];
    }
  }

  /** With nothing written, the pages whose lengths are 0 are marked. */
  lemma {:induction false} MarksOfNothing(lens: seq<nat>, k: nat)
    requires k < |lens|
    ensures Marks(lens, 0)[k] <==> lens[k] == 0
  {
    if k > 0 {
      MarksOfNothing(lens[1..], k - 1);
    }
  }

  /** The marks after a write: none if it failed. */
  function MarksAfter(lens: seq<nat>, written: int): (m: seq<bool>)
    ensures |m| == |lens|
  {
    if written < 0 then seq(|lens|, _ => false) else Marks(lens, written)
  }

  /** The first entry that fits into what is left is marked; without one none is. */
  lemma {:induction false} SomeMarkIffSomeFits(lens: seq<nat>, size: nat)
    ensures true in Marks(lens, size) <==> exists j :: 0 <= j < |lens| && lens[j] <= size
  {
    if lens != [] {
      SomeMarkIffSomeFits(lens[1..], size);
      if size < lens[0] {
        assert Marks(lens, size) == [false] + Marks(lens[1..], size);
        assert forall j :: 0 < j < |lens| ==> lens[j] == lens[1..][j - 1];
      } else {
        assert Marks(lens, size)[0];
      }
    }
  }

  /** Page j is marked clean although not all of its bytes were written. */
  predicate WronglyClean(lens: seq<nat>, written: nat, j: nat) {
    j < |lens| && Marks(lens, written)[j] && Delivered(lens, written) <= j
  }

  /** Every completely written page is marked clean; what follows is marked as if the rest stood alone. */
  lemma {:induction false} MarksSplit(lens: seq<nat>, written: nat)
    ensures var k := Delivered(lens, written);
      Marks(lens, written) == seq(k, _ => true) + Marks(lens[k..], Leftover(lens, written))
  {
    var k := Delivered(lens, written);
    if k > 0 {
      MarksSplit(lens[1..], written - lens[0]);
      assert lens[1..][k - 1..] == lens[k..];
      assert seq(k, _ => true) == [true] + seq(k - 1, _ => true);
    } else {
      assert lens[k..] == lens;
    }
  }

  /**
   * The pages marked clean always include every completely written one. They are exactly those if and only if every
   * page after the first incomplete one is longer than what was written of that page.
   */
  lemma CleanIsDeliveredIff(lens: seq<nat>, written: nat)
    ensures var k := Delivered(lens, written);
      && (forall j :: 0 <= j < k ==> Marks(lens, written)[j])
      && ((forall j: nat :: !WronglyClean(lens, written, j)) <==>
          (forall j :: k < j < |lens| ==> lens[j] > Leftover(lens, written)))
  {
    var k, left := Delivered(lens, written), Leftover(lens, written);
    WronglyCleanIffTailMarked(lens, written);
    SomeMarkIffSomeFits(lens[k..], left);
    DeliveredIsLongestPrefix(lens, written);
    if j :| k < j < |lens| && lens[j] <= left {
      assert lens[k..][j - k] <= left;
    }
    if i :| 0 <= i < |lens[k..]| && lens[k..][i] <= left {
      assert lens[k + i] <= left;
    }
  }

  /** k entries and a part of the next one have been written. */
  lemma {:induction false} DeliveredAt(lens: seq<nat>, k: nat, part: nat)
    requires k < |lens| && part < lens[k]
    ensures Delivered(lens, Sum(lens[..k]) + part) == k && Leftover(lens, Sum(lens[..k]) + part) == part
  {
    if k > 0 {
      SumFromFront(lens[..k]);
      assert lens[..k][1..] == lens[1..][..k - 1];
      DeliveredAt(lens[1..], k - 1, part);
    }
  }

  predicate NeverDecreasing(lens: seq<nat>) {
    forall i, j :: 0 <= i < j < |lens| ==> lens[i] <= lens[j]
  }

  /** Before the write: the marking will be right whatever the byte count if and only if the lengths never decrease. */
  lemma AlwaysRightIff(lens: seq<nat>)
    ensures (forall written: nat, j: nat :: !WronglyClean(lens, written, j)) <==> NeverDecreasing(lens)
  {
    if NeverDecreasing(lens) {
      forall written: nat, j: nat ensures !WronglyClean(lens, written, j) {
        CleanIsDeliveredIff(lens, written);
        DeliveredIsLongestPrefix(lens, written);
      }
    } else {
      var i, j :| 0 <= i < j < |lens| && lens[i] > lens[j];
      var written := Sum(lens[..i]) + lens[j];
      DeliveredAt(lens, i, lens[j]);
      CleanIsDeliveredIff(lens, written);
      assert exists x: nat :: WronglyClean(lens, written, x);
    }
  }

  lemma AllThenTail(marks: seq<bool>, k: nat, tail: seq<bool>)
    requires marks == seq(k, _ => true) + tail
    ensures |marks| == k + |tail| && forall j :: 0 <= j < |marks| ==> marks[j] == (j < k || tail[j - k])
  {
  }

  lemma WronglyCleanIffTailMarked(lens: seq<nat>, written: nat)
    ensures var k := Delivered(lens, written);
      && (forall j :: 0 <= j < k ==> Marks(lens, written)[j])
      && ((exists j: nat :: WronglyClean(lens, written, j)) <==> true in Marks(lens[k..], Leftover(lens, written)))
  {
    var k := Delivered(lens, written);
    var tail := Marks(lens[k..], Leftover(lens, written));
    MarksSplit(lens, written);
    AllThenTail(Marks(lens, written), k, tail);
    if i :| 0 <= i < |tail| && tail[i] {
      assert WronglyClean(lens, written, k + i);
    }
    if j: nat :| WronglyClean(lens, written, j) {
      assert tail[j - k];
    }
  }

  /** 50 bytes written of a full page make the 10-byte page behind it clean. */
  lemma ShortLastPageIsLost()
    ensures WronglyClean([4096, 10], 50, 1)
  {
  }

  function Indices(b: seq<DirtyPage>): set<nat> {
    set p <- b :: p.index
  }

  /** Gather lengths of a batch with ranges. */
  function Lens(b: seq<DirtyPage>, isize: nat): (lens: seq<nat>)
    requires RangeBatch(b, isize)
    ensures |lens| == |b|
  {
    if b == [] then []
    else
      RangeBatchPrefix(b, isize);
      Lens(b[..|b| - 1], isize) + [|Entry(b[|b| - 1], isize)|]
  }

  lemma {:induction false} LensSum(b: seq<DirtyPage>, isize: nat)
    requires RangeBatch(b, isize)
    ensures Sum(Lens(b, isize)) == |Gathered(b, isize)|
  {
    if b != [] {
      RangeBatchPrefix(b, isize);
      LensSum(b[..|b| - 1], isize);
      var l := Lens(b, isize);
      assert l[..|l| - 1] == Lens(b[..|b| - 1], isize);
    }
  }

  lemma {:induction false} AppendLensSum(b: seq<DirtyPage>, a: Ard)
    requires forall p <- b :: WellFormed(p)
    ensures Sum(AppendLens(b, a)) == |AppendGathered(b, a)|
  {
    if b != [] {
      AppendLensSum(b[..|b| - 1], a);
      var l := AppendLens(b, a);
      assert l[..|l| - 1] == AppendLens(b[..|b| - 1], a);
    }
  }

  /** A complete write leaves no page unmarked. */
  lemma {:induction false} CompleteWriteMarksAll(lens: seq<nat>)
    ensures false !in Marks(lens, Sum(lens))
  {
    if lens != [] {
      SumFromFront(lens);
      CompleteWriteMarksAll(lens[1..]);
    }
  }

  /** A batch is all marked exactly if nothing has failed. */
  lemma SubmitTells(lens: seq<nat>, n: nat, err: int, res: int, allMarked: bool, was: int, failure: int)
    requires if err == 0 then Sum(lens) == n >= res && failure == FailureOf(res, n, was) else failure != SUCCESS
    requires err == 0 && res == n ==> (allMarked <==> false !in Marks(lens, n))
    requires err == 0 && allMarked ==> Sum(lens) <= res
    ensures Tells(err == 0 && allMarked, was, failure)
  {
    if err == 0 && res == n {
      CompleteWriteMarksAll(lens);
    }
  }

  /** If every page is marked, everything was written. */
  lemma {:induction false} AllMarkedIsComplete(lens: seq<nat>, written: nat)
    requires false !in Marks(lens, written)
    ensures Sum(lens) <= written
  {
    if lens != [] {
      SumFromFront(lens);
      assert Marks(lens, written)[0];
      assert forall m <- Marks(lens[1..], written - lens[0]) :: m in Marks(lens, written);
      AllMarkedIsComplete(lens[1..], written - lens[0]);
    }
  }

  /** The pages whose flag has the given value. */
  function Selected(b: seq<DirtyPage>, flags: seq<bool>, value: bool): set<nat>
    requires |b| == |flags|
  {
    if b == [] then {}
    else
      var n := |b| - 1;
      Selected(b[..n], flags[..n], value) + if flags[n] == value then {b[n].index} else {}
  }

  lemma SelectedNext(b: seq<DirtyPage>, flags: seq<bool>, value: bool, i: nat)
    requires i < |b| == |flags|
    ensures Selected(b[..i + 1], flags[..i + 1], value) ==
      Selected(b[..i], flags[..i], value) + if flags[i] == value then {b[i].index} else {}
  {
    assert b[..i + 1][..i] == b[..i] && flags[..i + 1][..i] == flags[..i];
  }

  lemma {:induction false} SelectedMember(b: seq<DirtyPage>, flags: seq<bool>, value: bool, i: nat)
    requires |b| == |flags|
    ensures i in Selected(b, flags, value) <==> exists k :: 0 <= k < |b| && flags[k] == value && b[k].index == i
  {
    if b != [] {
      var n := |b| - 1;
      SelectedMember(b[..n], flags[..n], value, i);
    }
  }

  /** A range that starts before the end of the file, or a part of an append whose descriptor is known. */
  predicate Sendable(p: DirtyPage, known: set<nat>, isize: nat) {
    WellFormed(p) && if p.mark.Range? then StartsInFile(p, isize) else p.mark.ard in known
  }

  /** The reservation that a batch of an append starts with; later batches find it done. */
  predicate ReservedOnce(f: File, a: Ard, g: File, r: Ard, err: int) {
    if a.fileOffset >= 0 then err == 0 && g == f && r == a else Reserved(f, a, g, r, err)
  }

  /** The state of one write-back call, and the marks of the pages of the file. */
  class WritePagesState {
    const remote: RemoteFile
    const isize: nat
    var pages: seq<DirtyPage>
    var dirty: set<nat>
    var ranged: set<nat> // pages that hold a range or a part of an append
    var writeback: set<nat>
    var ards: map<nat, Ard> // the descriptors of the appends that pages belong to
    ghost var sent: seq<DirtyPage> // every page handed to a remote write, in order

    constructor (remote: RemoteFile, isize: nat, dirty: set<nat>, ranged: set<nat>, ards: map<nat, Ard>)
      ensures Valid() && pages == [] && sent == [] && this.remote == remote && this.isize == isize
      ensures this.dirty == dirty && this.ranged == ranged && writeback == {} && this.ards == ards
    {
      this.remote, this.isize, this.dirty, this.ranged, this.ards := remote, isize, dirty, ranged, ards;
      pages, writeback, sent := [], {}, [];
    }

    ghost predicate Valid()
      reads this
    {
      && Batch(pages)
      && (pages != [] && pages[0].mark.Range? ==> RangeBatch(pages, isize))
      && forall p <- pages :: Sendable(p, ards.Keys, isize)
    }

    /** Clears the range of each clean page and marks the others dirty again; these stay under write-back. */
    method Finish(clean: seq<bool>)
      requires |clean| == |pages|
      modifies this`dirty, this`ranged, this`writeback
      ensures ranged == old(ranged) - Selected(pages, clean, true)
      ensures writeback == old(writeback) - Selected(pages, clean, true)
      ensures dirty == old(dirty) + Selected(pages, clean, false)
    {
      var i := 0;
      while i < |pages|
        invariant 0 <= i <= |pages|
        invariant ranged == old(ranged) - Selected(pages[..i], clean[..i], true)
        invariant writeback == old(writeback) - Selected(pages[..i], clean[..i], true)
        invariant dirty == old(dirty) + Selected(pages[..i], clean[..i], false)
      {
        SelectedNext(pages, clean, true, i);
        SelectedNext(pages, clean, false, i);
        if clean[i] {
          ranged, writeback := ranged - {pages[i].index}, writeback - {pages[i].index};
        } else {
          dirty := dirty + {pages[i].index};
        }
        i := i + 1;
      }
      assert pages[..|pages|] == pages && clean[..|clean|] == clean;
    }

    /** Ends write-back of all pages after a failed write and marks them dirty again. */
    method FailAll()
      modifies this`dirty, this`writeback
      ensures dirty == old(dirty) + Indices(pages) && writeback == old(writeback) - Indices(pages)
    {
      var i := 0;
      while i < |pages|
        invariant 0 <= i <= |pages|
        invariant dirty == old(dirty) + Indices(pages[..i]) && writeback == old(writeback) - Indices(pages[..i])
      {
        assert pages[..i + 1] == pages[..i] + [pages[i]];
        dirty, writeback := dirty + {pages[i].index}, writeback - {pages[i].index};
        i := i + 1;
      }
      assert pages[..|pages|] == pages;
    }

    /** Reserves the place of an append in the file, unless that has been done. */
    method AllocateArd(id: nat) returns (err: int)
      requires id in ards
      modifies this`ards, remote
      ensures Tells(err == 0, old(remote.failure), remote.failure)
      ensures err <= 0 && id in ards && ards == old(ards)[id := ards[id]]
      ensures old(ards[id].fileOffset) >= 0 ==> err == 0 && ards == old(ards) && remote.contents == old(remote.contents)
      ensures old(ards[id].fileOffset) < 0 ==>
        Reserved(old(remote.contents), old(ards[id]), remote.contents, ards[id], err)
    {
      if ards[id].fileOffset >= 0 {
        return 0;
      }
      var refused := remote.Call(); // lock and file size
      if refused != SUCCESS {
        return -refused;
      }
      if |remote.contents| + ards[id].size == 0 {
        err := remote.Refuse();
        return;
      }
      var at := |remote.contents| + ards[id].size - 1;
      ghost var f := remote.contents;
      var res := remote.WriteFile([0], at);
      if res < 0 {
        ards := ards[id := ards[id].(fileOffset := at)];
        return res;
      }
      assert [0][..res] == [0] && Splice(f, at, [0]) == remote.contents;
      ards := ards[id := ards[id].(fileOffset := at + res - ards[id].size)];
      return 0;
    }

    /** Where the batch goes, its data and the gather lengths; without a reservation the lengths are stale. */
    method Prepare() returns (err: int, offset: nat, data: seq<Byte>, lens: seq<nat>)
      requires Valid() && pages != []
      modifies this`ards, remote
      ensures Tells(err == 0, old(remote.failure), remote.failure)
      ensures Valid() && err <= 0 && |lens| == |pages| && (err == 0 ==> Sum(lens) == |data|)
      ensures pages[0].mark.Range? ==>
        && err == 0 && ards == old(ards) && remote.contents == old(remote.contents)
        && offset == Start(pages) && data == Gathered(pages, isize) && lens == Lens(pages, isize)
      ensures pages[0].mark.Append? ==>
        var id := pages[0].mark.ard;
        && id in old(ards) && ards.Keys == old(ards.Keys)
        && ReservedOnce(old(remote.contents), old(ards[id]), remote.contents, ards[id], err)
        && (err == 0 ==>
          && offset == ards[id].fileOffset
          && data == AppendGathered(pages, ards[id]) && lens == AppendLens(pages, ards[id]))
    {
      assert Sendable(pages[0], ards.Keys, isize);
      if pages[0].mark.Range? {
        LensSum(pages, isize);
        return 0, Start(pages), Gathered(pages, isize), Lens(pages, isize);
      }
      var id := pages[0].mark.ard;
      err := AllocateArd(id);
      offset, data, lens := 0, [], *;
      if |lens| != |pages| {
        lens := seq(|pages|, _ => 0);
      }
      if err == 0 {
        offset, data := ards[id].fileOffset, AppendGathered(pages, ards[id]);
        lens := AppendLens(pages, ards[id]);
        AppendLensSum(pages, ards[id]);
      }
    }

    /**
     * Writes the batch. The marks afterwards are those of MarkClean for `written` bytes and the lengths `lens`; `f` is
     * the server's file after the preparation, which ended with `err`.
     */
    method Submit() returns (result: int, ghost clean: seq<bool>, ghost written: int, ghost lens: seq<nat>,
        ghost f: File, ghost err: int)
      requires Valid()
      modifies this, remote
      ensures Tells(result == 0, old(remote.failure), remote.failure)
      ensures Valid() && pages == [] && result <= 0 && err <= 0 && ards.Keys == old(ards.Keys)
      ensures sent == old(sent) + old(pages)
      ensures |lens| == |old(pages)| && clean == MarksAfter(lens, written)
      ensures result == 0 <==> err == 0 && false !in clean
      ensures ranged == old(ranged) - Selected(old(pages), clean, true)
      ensures dirty == old(dirty) + Selected(old(pages), clean, false)
      ensures writeback == old(writeback) - if written < 0 then Indices(old(pages))
        else Selected(old(pages), clean, true)
      ensures old(pages) == [] ==> remote.contents == old(remote.contents)
      ensures old(pages) != [] && old(pages[0].mark.Range?) ==>
        && err == 0 && lens == Lens(old(pages), isize)
        && StoredAt(old(remote.contents), remote.contents, Start(old(pages)), Gathered(old(pages), isize), written)
      ensures old(pages) != [] && old(pages[0].mark.Append?) ==>
        && var id := old(pages[0].mark.ard);
        && id in old(ards) && ReservedOnce(old(remote.contents), old(ards[id]), f, ards[id], err)
        && if err < 0 then remote.contents == f && written == 0
           else
             && StoredAt(f, remote.contents, ards[id].fileOffset, AppendGathered(old(pages), ards[id]), written)
             && lens == AppendLens(old(pages), ards[id])
    {
      f, err := remote.contents, 0;
      if pages == [] {
        return 0, [], 0, [], f, err;
      }
      var failed, offset, data, iovLens := Prepare();
      f, err, lens := remote.contents, failed, iovLens;
      var res := 0;
      if failed == 0 {
        res := remote.WriteFile(data, offset);
      }
      result, clean := Account(iovLens, failed, res);
      SubmitTells(iovLens, |data|, failed, res, false !in clean, old(remote.failure), remote.failure);
      written := res;
      sent := sent + pages;
      pages := [];
    }

    /** The marks of the pages after a write of `res` bytes, or after a preparation that failed. */
    method Account(lens: seq<nat>, err: int, res: int) returns (result: int, ghost clean: seq<bool>)
      requires pages != [] && |lens| == |pages| && err <= 0 && (err < 0 ==> res == 0)
      modifies this`dirty, this`ranged, this`writeback
      ensures result <= 0 && clean == MarksAfter(lens, res) && (result == 0 <==> err == 0 && false !in clean)
      ensures result == 0 ==> Sum(lens) <= res
      ensures ranged == old(ranged) - Selected(pages, clean, true)
      ensures dirty == old(dirty) + Selected(pages, clean, false)
      ensures writeback == old(writeback) - if res < 0 then Indices(pages) else Selected(pages, clean, true)
    {
      if res < 0 {
        FailAll();
        clean, result := MarksAfter(lens, res), res;
        assert clean[0] == false;
        NoneSelected(pages, clean);
      } else {
        var flags;
        flags, result := MarkClean(lens, res);
        Finish(flags);
        clean := flags;
        if result == 0 {
          AllMarkedIsComplete(lens, res);
          result := err;
        }
      }
    }

    /** The pages taken out of the kernel's dirty set that still hold unsent bytes. */
    ghost function InFlight(): set<nat>
      reads this
    {
      ranged - dirty
    }

    /** The server's file once the batch has been written. */
    ghost function Promised(): File
      reads this, remote`contents
    {
      StoreEach(remote.contents, pages, isize)
    }

    /** Submits the batch: nothing of it stays in flight, and on success the server's file is the promised one. */
    method Drain() returns (result: int)
      requires Valid()
      modifies this, remote
      ensures Tells(result == 0, old(remote.failure), remote.failure)
      ensures Valid() && pages == [] && result <= 0 && ranged <= old(ranged) && ards.Keys == old(ards.Keys)
      ensures sent == old(sent) + old(pages)
      ensures InFlight() == old(InFlight()) - Indices(old(pages)) && old(ranged) - Indices(old(pages)) <= ranged
      ensures result == 0 ==> ranged == old(ranged) - Indices(old(pages))
      ensures result == 0 && OnlyRanges(old(pages)) ==> remote.contents == old(Promised()) == Promised()
    {
      ghost var clean, written, lens, f, err;
      result, clean, written, lens, f, err := Submit();
      EachSelected(old(pages), clean);
      if result == 0 && old(pages) != [] {
        assert old(pages)[0] in old(pages);
        if OnlyRanges(old(pages)) {
          CompleteSubmit(old(remote.contents), remote.contents, old(pages), isize, written);
        }
        if i :| i in Selected(old(pages), clean, false) {
          SelectedMember(old(pages), clean, false, i);
        }
      }
    }

    /**
     * What has been handed to the servers is clean, and everything in flight is in the batch or is the page `extra`.
     */
    ghost predicate Tracked(extra: set<nat>)
      reads this
    {
      Valid() && ranged !! Indices(sent) && InFlight() <= Indices(pages) + extra
    }

    /**
     * Takes one page whose dirty mark has been cleared into the batch; submits the batch first if the page does not
     * fit.
     */
    method Callback(page: DirtyPage) returns (err: int)
      requires Tracked({page.index}) && Sendable(page, ards.Keys, isize)
      modifies this, remote
      ensures Tells(err == 0, old(remote.failure), remote.failure)
      ensures err <= 0 && ards.Keys == old(ards.Keys)
      ensures err == 0 ==> Tracked({}) && sent + pages == old(sent + pages) + [page] && page.index in writeback
      ensures err == 0 && OnlyRanges(old(pages)) ==> Promised() == StoreEach(old(Promised()), [page], isize)
      // the page that could not be taken in is neither in the batch nor marked dirty again
      ensures err < 0 ==> pages == [] && sent == old(sent + pages) && InFlight() == old(InFlight() - Indices(pages))
      ensures old(ranged - Indices(pages)) <= ranged
    {
      if MustFlushBefore(pages, page) {
        var flushRes := Drain();
        if flushRes < 0 {
          return flushRes;
        }
      }
      Take(page);
      return 0;
    }

    method Take(page: DirtyPage)
      requires Valid() && Sendable(page, ards.Keys, isize) && !MustFlushBefore(pages, page)
      modifies this`pages, this`writeback
      ensures Valid() && pages != [] && pages == old(pages) + [page] && page.index in writeback
      ensures Promised() == StoreEach(old(Promised()), [page], isize)
      ensures Indices(pages) == Indices(old(pages)) + {page.index}
    {
      var longer := pages + [page];
      BatchTakes(pages, page, longer, ards.Keys, isize);
      StoreSnoc(remote.contents, pages, page, isize);
      pages := longer;
      writeback := writeback + {page.index};
    }

    /**
     * Clears the dirty mark of a page and hands it to the callback; `file` is the server's file before all `done`
     * pages.
     */
    method HandOver(page: DirtyPage, ghost file: File, ghost done: seq<DirtyPage>) returns (err: int)
      requires Tracked({}) && Sendable(page, ards.Keys, isize) && sent + pages == done
      requires OnlyRanges(done) ==> Promised() == StoreEach(file, done, isize)
      modifies this, remote
      ensures Tells(err == 0, old(remote.failure), remote.failure)
      ensures err <= 0 && ards.Keys == old(ards.Keys)
      ensures err == 0 ==> Tracked({}) && sent + pages == done + [page]
      ensures err == 0 && OnlyRanges(done) ==> Promised() == StoreEach(file, done + [page], isize)
      ensures err < 0 ==> sent == done && InFlight() == ({page.index} * old(ranged)) - Indices(old(pages))
      ensures old(ranged - Indices(pages)) <= ranged
    {
      StoreSnoc(file, done, page, isize);
      dirty := dirty - {page.index};
      err := Callback(page);
    }

    /** Hands dirty pages to the callback until one fails, then submits the rest; returns how many were taken in. */
    method WritePages(todo: seq<DirtyPage>) returns (err: int, n: nat)
      requires Tracked({}) && pages == [] && sent == []
      requires forall p <- todo :: Sendable(p, ards.Keys, isize)
      modifies this, remote
      ensures Tells(err == 0, old(remote.failure), remote.failure)
      ensures n <= |todo| && sent == todo[..n]
      ensures err == 0 ==> n == |todo|
      ensures err == 0 && OnlyRanges(todo) ==> remote.contents == StoreEach(old(remote.contents), todo, isize)
      ensures err == 0 && OnlyRanges(todo) ==> ShowsPages(old(remote.contents), remote.contents, todo, isize)
      ensures err == 0 ==> ranged !! Indices(todo)
      // a page whose range was not cleared is marked dirty, except the one whose callback failed
      ensures InFlight() <= if n == |todo| then {} else {todo[n].index}
      // and that one is always lost
      ensures DistinctPages(todo) && Indices(todo) <= old(ranged) ==> (InFlight() == {} <==> n == |todo|)
    {
      n := 0;
      while n < |todo|
        invariant remote.failure == old(remote.failure)
        invariant n <= |todo| && Tracked({}) && sent + pages == todo[..n] && ards.Keys == old(ards.Keys)
        invariant OnlyRanges(todo[..n]) ==> Promised() == StoreEach(old(remote.contents), todo[..n], isize)
        invariant old(ranged) - Indices(todo[..n]) <= ranged
      {
        assert todo[..n + 1] == todo[..n] + [todo[n]];
        ghost var before, batch := ranged, pages;
        BatchIsTaken(todo[..n], sent, batch);
        assert todo[n] in todo;
        err := HandOver(todo[n], old(remote.contents), todo[..n]);
        StillRanged(todo, n, batch, old(ranged), before, ranged);
        if err != 0 {
          return;
        }
        n := n + 1;
      }
      assert todo[..n] == todo;
      err := Drain();
      StoreEachBytes(old(remote.contents), todo, isize);
    }
  }

  predicate OnlyRanges(b: seq<DirtyPage>) {
    forall p <- b :: p.mark.Range?
  }

  /** No page twice. */
  predicate DistinctPages(todo: seq<DirtyPage>) {
    forall i, j :: 0 <= i < j < |todo| ==> todo[i].index != todo[j].index
  }

  /** Pages not handed over yet keep their ranges, so the one whose callback failed still has its own. */
  lemma StillRanged(
    todo: seq<DirtyPage>, n: nat, batch: seq<DirtyPage>, first: set<nat>, before: set<nat>, after: set<nat>)
    requires n < |todo| && Indices(batch) <= Indices(todo[..n])
    requires first - Indices(todo[..n]) <= before && before - Indices(batch) <= after
    ensures first - Indices(todo[..n + 1]) <= after
    ensures DistinctPages(todo) && Indices(todo) <= first ==>
      {todo[n].index} * before - Indices(batch) == {todo[n].index}
  {
    assert todo[..n + 1] == todo[..n] + [todo[n]];
    assert todo[n] in todo;
    if DistinctPages(todo) {
      assert todo[n].index !in Indices(todo[..n]);
    }
  }

  lemma BatchIsTaken(todo: seq<DirtyPage>, sent: seq<DirtyPage>, batch: seq<DirtyPage>)
    requires sent + batch == todo
    ensures Indices(batch) <= Indices(todo)
  {
    assert forall p <- batch :: p in sent + batch;
  }

  lemma BatchTakes(batch: seq<DirtyPage>, page: DirtyPage, b: seq<DirtyPage>, known: set<nat>, isize: nat)
    requires Batch(batch) && !MustFlushBefore(batch, page) && b == batch + [page]
    requires Sendable(page, known, isize) && forall p <- batch :: Sendable(p, known, isize)
    ensures Batch(b) && Indices(b) == Indices(batch) + {page.index} && forall p <- b :: Sendable(p, known, isize)
    ensures b[0].mark.Range? ==> RangeBatch(b, isize)
  {
    FlushTestIsExact(batch, page);
    assert b[|b| - 1] == page;
    if b[0].mark.Range? {
      assert b[|b| - 1].mark.Range?;
    }
    forall i ensures i in Indices(b) <==> i in Indices(batch) + {page.index} {
      assert page in b && forall p <- batch :: p in b;
    }
  }

  lemma StoreSnoc(f: File, b: seq<DirtyPage>, page: DirtyPage, isize: nat)
    ensures StoreEach(f, b + [page], isize) == StoreEach(StoreEach(f, b, isize), [page], isize)
  {
  }

  lemma EachSelected(b: seq<DirtyPage>, flags: seq<bool>)
    requires |b| == |flags|
    ensures Selected(b, flags, false) + Selected(b, flags, true) == Indices(b)
  {
    forall i: nat ensures i in Indices(b) <==> i in Selected(b, flags, false) + Selected(b, flags, true) {
      SelectedMember(b, flags, false, i);
      SelectedMember(b, flags, true, i);
      if p :| p in b && p.index == i {
        var k :| 0 <= k < |b| && b[k] == p;
        assert flags[k] == false || flags[k] == true;
      }
    }
  }

  /** All pages clean means all bytes at the server. */
  lemma CompleteSubmit(before: File, after: File, b: seq<DirtyPage>, isize: nat, written: nat)
    requires b != [] && RangeBatch(b, isize) && false !in Marks(Lens(b, isize), written)
    requires StoredAt(before, after, Start(b), Gathered(b, isize), written)
    ensures after == StoreEach(before, b, isize)
  {
    AllMarkedIsComplete(Lens(b, isize), written);
    LensSum(b, isize);
    assert Gathered(b, isize)[..written] == Gathered(b, isize);
    BatchedIsPageByPage(before, b, isize, Start(b));
  }

  /** The same for an append: all of the batch is at the append's offset, which is right for its first pages. */
  lemma CompleteAppend(f: File, after: File, b: seq<DirtyPage>, a: Ard, written: nat)
    requires b != [] && AppendPages(b, a) && a.fileOffset >= 0 && false !in Marks(AppendLens(b, a), written)
    requires StoredAt(f, after, a.fileOffset, AppendGathered(b, a), written)
    ensures after == Splice(f, a.fileOffset, AppendGathered(b, a))
    ensures EntriesJoin(b, a) && b[0].index == a.firstPageIndex ==> after == StorePlaced(f, b, a)
  {
    AllMarkedIsComplete(AppendLens(b, a), written);
    AppendLensSum(b, a);
    assert AppendGathered(b, a)[..written] == AppendGathered(b, a);
    if EntriesJoin(b, a) && b[0].index == a.firstPageIndex {
      AppendIsPageByPage(f, b, a, a.fileOffset);
    }
  }

  lemma NoneSelected(b: seq<DirtyPage>, flags: seq<bool>)
    requires |b| == |flags| && forall k :: 0 <= k < |flags| ==> !flags[k]
    ensures Selected(b, flags, false) == Indices(b) && Selected(b, flags, true) == {}
  {
  }
}
