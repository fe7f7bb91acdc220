/** Queues whose mutex is dropped while an entry is processed: what is left after arbitrary appends and removals. */
module Queues {

  /** A heap-allocated queue entry; its id is its place in the order of allocation. */
  datatype Entry<T> = Entry(id: nat, item: T)

  predicate Numbered<T(!new)>(added: seq<Entry<T>>) {
    forall i :: 0 <= i < |added| ==> added[i].id == i
  }

  function Items<T>(entries: seq<Entry<T>>): (r: seq<T>)
    ensures |r| == |entries| && forall k :: 0 <= k < |r| ==> r[k] == entries[k].item
  {
    seq(|entries|, k requires 0 <= k < |entries| => entries[k].item)
  }

  /** The entries that have not been freed, in the order in which they were added. */
  function Survivors<T>(added: seq<Entry<T>>, freed: set<nat>): seq<Entry<T>> {
    if added == [] then []
    else
      var e := added[|added| - 1];
      Survivors(added[..|added| - 1], freed) + if e.id in freed then [] else [e]
  }

  lemma SurvivorsOfAppend<T(!new)>(added: seq<Entry<T>>, freed: set<nat>, e: Entry<T>)
    requires e.id !in freed
    ensures Survivors(added + [e], freed) == Survivors(added, freed) + [e]
  {
  }

  lemma {:induction false} SurvivorsMembers<T(!new)>(added: seq<Entry<T>>, freed: set<nat>)
    requires Numbered(added)
    ensures forall e <- Survivors(added, freed) :: e.id < |added| && e == added[e.id] && e.id !in freed
    ensures forall i: nat :: i < |added| && i !in freed ==> added[i] in Survivors(added, freed)
    ensures forall i, j :: 0 <= i < j < |Survivors(added, freed)| ==>
      Survivors(added, freed)[i].id < Survivors(added, freed)[j].id
  {
    if added != [] {
      var n := |added| - 1;
      SurvivorsMembers(added[..n], freed);
      var q := Survivors(added, freed);
      forall i: nat | i < |added| && i !in freed ensures added[i] in q {
        if i == n {
          assert q[|q| - 1] == added[n];
        } else {
          assert added[..n][i] in Survivors(added[..n], freed);
        }
      }
    }
  }

  /** The survivors are in allocation order, and none of them has been freed. */
  lemma InOrder<T(!new)>(added: seq<Entry<T>>, freed: set<nat>, q: seq<Entry<T>>, k: nat)
    requires Numbered(added) && q == Survivors(added, freed) && k < |q|
    ensures q[k].id < |added| && q[k] == added[q[k].id] && q[k].id !in freed
    ensures forall j :: k < j < |q| ==> q[k].id < q[j].id
  {
    SurvivorsMembers(added, freed);
  }

  lemma WithoutAt<T>(r: seq<T>, last: seq<T>, k: nat)
    requires k < |r|
    ensures (r + last)[..k] + (r + last)[k + 1..] == r[..k] + r[k + 1..] + last
  {
  }

  /** Freeing the entry at position k and unlinking it leaves exactly the other survivors. */
  lemma {:induction false} FreeAt<T(!new)>(added: seq<Entry<T>>, freed: set<nat>, k: nat)
    requires Numbered(added) && k < |Survivors(added, freed)|
    ensures var q := Survivors(added, freed);
      Survivors(added, freed + {q[k].id}) == q[..k] + q[k + 1..]
  {
    var n := |added| - 1;
    var q, r := Survivors(added, freed), Survivors(added[..n], freed);
    if k < |r| {
      InOrder(added[..n], freed, r, k);
      FreeAt(added[..n], freed, k);
      WithoutAt(r, if added[n].id in freed then [] else [added[n]], k);
    } else {
      FreeOther(added[..n], freed, n);
      assert q == r + [added[n]];
    }
  }

  lemma {:induction false} FreeOther<T(!new)>(added: seq<Entry<T>>, freed: set<nat>, id: nat)
    requires Numbered(added) && |added| <= id
    ensures Survivors(added, freed + {id}) == Survivors(added, freed)
  {
    if added != [] {
      FreeOther(added[..|added| - 1], freed, id);
    }
  }
}
