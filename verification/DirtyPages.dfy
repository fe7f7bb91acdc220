/** Dirty pages of native mode, as a write-back hands them over. */
module DirtyPages {
  import opened FileBytes
  import opened PageRange

  /** What a dirty page holds: a range of bytes at their final position, or a part of an append. */
  datatype Mark = Range(first: Offset, last: Offset) | Append(ard: nat)

  datatype DirtyPage = DirtyPage(index: nat, mark: Mark, data: seq<Byte>)

  predicate WellFormed(p: DirtyPage) {
    |p.data| == PAGE_SIZE && (p.mark.Range? ==> p.mark.first <= p.mark.last)
  }

  function PageOffset(p: DirtyPage): nat {
    p.index * PAGE_SIZE
  }
}
