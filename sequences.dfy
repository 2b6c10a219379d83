/** Positional edits on sequences, as Rust's `Vec::insert`, `Vec::remove` and
    the remove-then-insert reorder of `Animation::move_frame` perform them.
    These functions are the specifications the in-place methods of the
    animation store are proved against. */
module Sequences {

  /** `s` with `x` placed at position `i`; the elements from `i` on shift one
      place right. `Vec::insert` panics unless `i <= len`. */
  function Insert<T>(s: seq<T>, i: nat, x: T): (r: seq<T>)
    requires i <= |s|
    ensures |r| == |s| + 1
    ensures r[i] == x
    ensures forall j :: 0 <= j < i ==> r[j] == s[j]
    ensures forall j :: i <= j < |s| ==> r[j + 1] == s[j]
    ensures multiset(r) == multiset(s) + multiset{x}
  {
    assert s == s[..i] + s[i..];
    s[..i] + [x] + s[i..]
  }

  /** `s` without its element at position `i`; the elements after it shift one
      place left. `Vec::remove` panics unless `i < len`. */
  function Remove<T>(s: seq<T>, i: nat): (r: seq<T>)
    requires i < |s|
    ensures |r| == |s| - 1
    ensures forall j :: 0 <= j < i ==> r[j] == s[j]
    ensures forall j :: i <= j < |r| ==> r[j] == s[j + 1]
    ensures multiset(r) == multiset(s) - multiset{s[i]}
  {
    assert s == s[..i] + [s[i]] + s[i + 1..];
    s[..i] + s[i + 1..]
  }

  /** The element at `from` taken out and put back so that it ends up at
      position `to`: remove, then insert into the shortened sequence. */
  function Move<T>(s: seq<T>, from: nat, to: nat): (r: seq<T>)
    requires from < |s| && to < |s|
    ensures |r| == |s|
    ensures r[to] == s[from]
    ensures multiset(r) == multiset(s)
  {
    Insert(Remove(s, from), to, s[from])
  }

  /** Inserting and then removing at the same position gives back the
      original sequence. */
  lemma InsertThenRemove<T>(s: seq<T>, i: nat, x: T)
    requires i <= |s|
    ensures Remove(Insert(s, i, x), i) == s
  {
  }

  /** Removing an element and inserting it back where it was is the identity. */
  lemma RemoveThenInsert<T>(s: seq<T>, i: nat)
    requires i < |s|
    ensures Insert(Remove(s, i), i, s[i]) == s
  {
  }

  /** Where every element of `s` lands after `Move(s, from, to)`: the moved
      element is at `to`, the elements strictly between the two positions
      shift by one towards `from`, and all others keep their place. */
  lemma MovePositions<T>(s: seq<T>, from: nat, to: nat, k: nat)
    requires from < |s| && to < |s| && k < |s|
    ensures k == to ==> Move(s, from, to)[k] == s[from]
    ensures from < to && from <= k < to ==> Move(s, from, to)[k] == s[k + 1]
    ensures to < from && to < k <= from ==> Move(s, from, to)[k] == s[k - 1]
    ensures k < from && k < to ==> Move(s, from, to)[k] == s[k]
    ensures k > from && k > to ==> Move(s, from, to)[k] == s[k]
  {
    var d := Remove(s, from);
    if k < to {
      assert Move(s, from, to)[k] == d[k];
    } else if k > to {
      assert Move(s, from, to)[k] == d[k - 1];
    }
  }

  /** Moving an element to its own position changes nothing. */
  lemma MoveToSamePlace<T>(s: seq<T>, i: nat)
    requires i < |s|
    ensures Move(s, i, i) == s
  {
  }

  /** A move is undone by the move in the opposite direction. */
  lemma MoveUndone<T>(s: seq<T>, from: nat, to: nat)
    requires from < |s| && to < |s|
    ensures Move(Move(s, from, to), to, from) == s
  {
    var m := Move(s, from, to);
    assert m[to] == s[from];
    assert Remove(m, to) == Remove(s, from) by {
      InsertThenRemove(Remove(s, from), to, s[from]);
    }
    RemoveThenInsert(s, from);
  }
}
