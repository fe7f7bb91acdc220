/** File contents as byte sequences: reading past the end gives zeros (a hole), and a write is one splice. */
module FileBytes {

  type Byte = b: int | 0 <= b < 256

  type File = seq<Byte>

  function Min(a: int, b: int): int {
    if a < b then a else b
  }

  function Max(a: int, b: int): int {
    if a < b then b else a
  }

  /** The byte at position i of a file whose tail is an endless hole. */
  function ByteAt(f: File, i: nat): Byte {
    if i < |f| then f[i] else 0
  }

  function Zeros(n: nat): (z: seq<Byte>)
    ensures |z| == n && forall i :: 0 <= i < n ==> z[i] == 0
  {
    seq(n, _ => 0)
  }

  /** The contents of f after d has been stored at offset off; a gap below off becomes a hole. */
  function Splice(f: File, off: nat, d: seq<Byte>): (r: File)
    ensures |r| == if d == [] then |f| else Max(|f|, off + |d|)
    ensures forall i :: 0 <= i < |r| ==> r[i] == if off <= i < off + |d| then d[i - off] else ByteAt(f, i)
  {
    if d == [] then f
    else
      var padded := f + Zeros(Max(0, off - |f|));
      padded[..off] + d + if off + |d| < |f| then f[off + |d|..] else []
  }

  /** g differs from f at most inside [off, off+n); the file may also have grown, but not past that range. */
  predicate ChangedWithin(f: File, g: File, off: nat, n: nat) {
    && |f| <= |g| <= (if n == 0 then |f| else Max(|f|, off + n))
    && forall i :: 0 <= i < |g| && !(off <= i < off + n) ==> g[i] == ByteAt(f, i)
  }

  /** The bytes a read of `size` bytes at `off` finds: all of them, or those up to the end of the file. */
  function Slice(f: File, off: nat, size: nat): (r: seq<Byte>)
    ensures |r| == Min(size, Max(0, |f| - off))
    ensures forall i :: 0 <= i < |r| ==> r[i] == f[off + i]
  {
    if off >= |f| then [] else f[off..off + Min(size, |f| - off)]
  }

  /** Whatever a failed store left inside its range, storing the whole range afterwards repairs it. */
  lemma SpliceRepairs(f: File, g: File, off: nat, d: seq<Byte>)
    requires ChangedWithin(f, g, off, |d|)
    ensures Splice(g, off, d) == Splice(f, off, d)
  {
  }

  /** Two adjacent stores are one store of the concatenation. */
  lemma SpliceAdjacent(f: File, off: nat, a: seq<Byte>, b: seq<Byte>)
    ensures Splice(Splice(f, off, a), off + |a|, b) == Splice(f, off, a + b)
  {
  }

  /** An append is a store at the end of the file. */
  lemma SpliceAtEnd(f: File, d: seq<Byte>)
    ensures Splice(f, |f|, d) == f + d
  {
  }

  /** A store, however much of it was damaged afterwards inside its own range, stays inside that range. */
  lemma SpliceWithin(f: File, off: nat, d: seq<Byte>, g: File, off2: nat, n: nat)
    requires off <= off2 && off2 + n <= off + |d|
    requires ChangedWithin(Splice(f, off, d), g, off2, n)
    ensures ChangedWithin(f, g, off, |d|)
  {
  }
}
