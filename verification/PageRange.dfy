/**
 * The dirty byte range ("PVR") of a page, packed into page->private: first offset in the low PAGE_SHIFT bits, last
 * offset in the next PAGE_SHIFT bits. Pages have 4096 bytes. The range operations are written as arithmetic on the
 * fields; the masks and shifts of a 64-bit word are shown to be the same operations.
 */
module PageRange {

  const PAGE_SIZE := 4096

  /** The value of page->private. */
  type Private = p: int | 0 <= p < 0x1_0000_0000_0000_0000

  type Offset = i: int | 0 <= i < PAGE_SIZE

  function GetFirst(priv: Private): Offset {
    priv % PAGE_SIZE
  }

  function GetLast(priv: Private): Offset {
    priv / PAGE_SIZE % PAGE_SIZE
  }

  function SetFirst(priv: Private, first: Offset): Private {
    priv - priv % PAGE_SIZE + first
  }

  function SetLast(priv: Private, last: Offset): Private {
    priv - priv / PAGE_SIZE % PAGE_SIZE * PAGE_SIZE + last * PAGE_SIZE
  }

  predicate CanMerge(priv: Private, first: Offset, last: Offset) {
    var oldFirst, oldLast := GetFirst(priv), GetLast(priv);
    || first == oldLast + 1 || last + 1 == oldFirst
    || oldFirst <= first <= oldLast
    || oldFirst <= last <= oldLast
  }

  function Merge(priv: Private, first: Offset, last: Offset): Private {
    var p := if GetFirst(priv) > first then SetFirst(priv, first) else priv;
    if GetLast(p) < last then SetLast(p, last) else p
  }

  function Init(first: Offset, last: Offset): Private {
    SetLast(SetFirst(0, first), last)
  }

  /** Offset i of the page is in the range. */
  predicate Covers(priv: Private, i: nat) {
    GetFirst(priv) <= i <= GetLast(priv)
  }

  /** A value shifted into the low field and masked there, as unsigned arithmetic does it. */
  function Masked(v: int): Offset {
    v % PAGE_SIZE
  }

  /** The bits above the two fields. */
  function Above(priv: Private): nat {
    priv / PAGE_SIZE / PAGE_SIZE
  }

  // the same operations on a 64-bit word, with masks and shifts

  function MaskedFirst(priv: bv64): bv64 { priv & 0xFFF }

  function MaskedLast(priv: bv64): bv64 { (priv & 0xFFF000) >> 12 }

  function MaskIntoFirst(priv: bv64, first: bv64): bv64 { (priv & !0xFFF) | (first & 0xFFF) }

  function MaskIntoLast(priv: bv64, last: bv64): bv64 { (priv & !0xFFF000) | ((last << 12) & 0xFFF000) }

  /** The masked fields are the arithmetic ones, and with the bits above them they make up the word. */
  lemma MaskedFields(priv: bv64)
    ensures MaskedFirst(priv) == priv % 4096 && MaskedLast(priv) == priv / 4096 % 4096
    ensures priv == ((priv >> 24) << 24) | (MaskedLast(priv) << 12) | MaskedFirst(priv)
  {
  }

  /** The masking setter of the first offset changes exactly that field. */
  lemma MaskIntoFirstFields(priv: bv64, v: bv64)
    ensures MaskedFirst(MaskIntoFirst(priv, v)) == v & 0xFFF
    ensures MaskIntoFirst(priv, v) & !0xFFF == priv & !0xFFF
  {
  }

  /** The masking setter of the last offset changes exactly that field. */
  lemma MaskIntoLastFields(priv: bv64, v: bv64)
    ensures MaskedLast(MaskIntoLast(priv, v)) == v & 0xFFF
    ensures MaskIntoLast(priv, v) & !0xFFF000 == priv & !0xFFF000
  {
  }

  /** Setting one field stores it and leaves the other one, and the bits above them, alone. */
  lemma FieldsIndependent(priv: Private, v: Offset)
    ensures GetFirst(SetFirst(priv, v)) == v && GetLast(SetFirst(priv, v)) == GetLast(priv)
    ensures GetLast(SetLast(priv, v)) == v && GetFirst(SetLast(priv, v)) == GetFirst(priv)
    ensures Above(SetFirst(priv, v)) == Above(priv) == Above(SetLast(priv, v))
  {
    var hi := priv / PAGE_SIZE / PAGE_SIZE;
    assert priv == hi * PAGE_SIZE * PAGE_SIZE + GetLast(priv) * PAGE_SIZE + GetFirst(priv);
    Fields(hi, GetLast(priv), v);
    Fields(hi, v, GetFirst(priv));
    assert SetFirst(priv, v) == hi * PAGE_SIZE * PAGE_SIZE + GetLast(priv) * PAGE_SIZE + v;
    assert SetLast(priv, v) == hi * PAGE_SIZE * PAGE_SIZE + v * PAGE_SIZE + GetFirst(priv);
  }

  lemma Fields(hi: nat, last: Offset, first: Offset)
    ensures var p := hi * PAGE_SIZE * PAGE_SIZE + last * PAGE_SIZE + first;
      p % PAGE_SIZE == first && p / PAGE_SIZE % PAGE_SIZE == last
  {
  }

  /** A freshly initialised range is exactly the write. */
  lemma InitIsWrite(first: Offset, last: Offset)
    ensures GetFirst(Init(first, last)) == first && GetLast(Init(first, last)) == last
  {
  }

  /** Merging gives the hull of the old range and the write. */
  lemma MergeIsHull(priv: Private, first: Offset, last: Offset)
    ensures GetFirst(Merge(priv, first, last)) == if first < GetFirst(priv) then first else GetFirst(priv)
    ensures GetLast(Merge(priv, first, last)) == if GetLast(priv) < last then last else GetLast(priv)
  {
    FieldsIndependent(priv, first);
    FieldsIndependent(SetFirst(priv, first), last);
    FieldsIndependent(priv, last);
  }

  /**
   * The old range may be empty. After an accepted merge the range is the union of the old range and the write, so no
   * unwritten byte enters it.
   */
  lemma MergeIsUnion(priv: Private, first: Offset, last: Offset)
    requires first <= last && GetFirst(priv) <= GetLast(priv) + 1 && CanMerge(priv, first, last)
    ensures forall i: nat :: Covers(Merge(priv, first, last), i) <==> Covers(priv, i) || first <= i <= last
  {
    MergeIsHull(priv, first, last);
  }

  /**
   * The merge test accepts exactly the writes whose union with the old range has no gap, except those that contain the
   * old range with room on both sides: for these the page is flushed first although a merge would be safe.
   */
  lemma CanMergeIffNoGap(priv: Private, first: Offset, last: Offset)
    requires first <= last && GetFirst(priv) <= GetLast(priv) + 1
    ensures CanMerge(priv, first, last) <==>
      && (forall i: nat :: Covers(Merge(priv, first, last), i) ==> Covers(priv, i) || first <= i <= last)
      && !(first < GetFirst(priv) && GetLast(priv) < last)
  {
    MergeIsHull(priv, first, last);
    var m := Merge(priv, first, last);
    if last + 1 < GetFirst(priv) {
      assert Covers(m, last + 1);
    }
    if GetLast(priv) + 1 < first {
      assert Covers(m, GetLast(priv) + 1);
    }
  }

  /** Write-back of a zero-byte copy: nothing, unless the copy was for the start of the page, then the whole page. */
  lemma EmptyCopyRange(first: Offset)
    ensures var m := Init(first, Masked(first - 1));
      if first == 0 then forall i: nat :: Covers(m, i) <==> i < PAGE_SIZE else forall i: nat :: !Covers(m, i)
  {
  }
}
