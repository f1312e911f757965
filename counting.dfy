/** Counting the pointer objects that refer to a cell. The model's central
    invariant is that a live cell's reference count equals `Refs(slots, c)`. */
module Counting {
  import opened Types

  /** 1 when pointer `x` refers to cell `c`, else 0. */
  function Ind(x: Slot, c: CellId): nat
  {
    if x.target == Some(c) then 1 else 0
  }

  /** The number of pointer objects in `s` that refer to cell `c`. */
  function Refs(s: seq<Slot>, c: CellId): nat
    decreases |s|
  {
    if s == [] then 0 else Refs(s[..|s| - 1], c) + Ind(s[|s| - 1], c)
  }

  /** The number of non-null pointer objects in `s`. */
  function Held(s: seq<Slot>): nat
    decreases |s|
  {
    if s == [] then 0 else Held(s[..|s| - 1]) + (if s[|s| - 1].target.Some? then 1 else 0)
  }

  /** Retargeting one pointer moves exactly one reference from its old target
      to its new one; no other cell's count of referrers changes. */
  lemma {:induction false} RefsUpdate(s: seq<Slot>, i: nat, x: Slot, c: CellId)
    requires i < |s|
    ensures Refs(s[i := x], c) == Refs(s, c) - Ind(s[i], c) + Ind(x, c)
    decreases |s|
  {
    var n := |s| - 1;
    if i == n {
      assert s[i := x][..n] == s[..n];
    } else {
      assert s[i := x][..n] == s[..n][i := x];
      RefsUpdate(s[..n], i, x, c);
    }
  }

  /** Adding pointer objects adds their references. */
  lemma {:induction false} RefsConcat(s: seq<Slot>, t: seq<Slot>, c: CellId)
    ensures Refs(s + t, c) == Refs(s, c) + Refs(t, c)
    decreases |t|
  {
    if t != [] {
      var n := |t| - 1;
      assert (s + t)[..|s + t| - 1] == s + t[..n];
      RefsConcat(s, t[..n], c);
    } else {
      assert s + t == s;
    }
  }

  /** No pointer refers to `c` exactly when its count of referrers is zero. */
  lemma {:induction false} RefsZero(s: seq<Slot>, c: CellId)
    ensures Refs(s, c) == 0 <==> forall j | 0 <= j < |s| :: s[j].target != Some(c)
    decreases |s|
  {
    if s != [] {
      var n := |s| - 1;
      RefsZero(s[..n], c);
      assert forall j | 0 <= j < n :: s[..n][j] == s[j];
    }
  }

  /** A pointer that refers to `c` is its sole referrer exactly when `c` has
      one referrer: the meaning of `unique()`. */
  lemma {:induction false} RefsSole(s: seq<Slot>, i: nat, c: CellId)
    requires i < |s| && s[i].target == Some(c)
    ensures Refs(s, c) == 1 <==> forall j | 0 <= j < |s| && j != i :: s[j].target != Some(c)
    decreases |s|
  {
    var n := |s| - 1;
    assert forall j | 0 <= j < n :: s[..n][j] == s[j];
    if i == n {
      RefsZero(s[..n], c);
    } else {
      RefsSole(s[..n], i, c);
      RefsZero(s[..n], c);
    }
  }

  /** Retargeting one pointer changes the number of non-null pointers only by
      the change in that pointer's own nullness. */
  lemma {:induction false} HeldUpdate(s: seq<Slot>, i: nat, x: Slot)
    requires i < |s|
    ensures Held(s[i := x]) == Held(s) - (if s[i].target.Some? then 1 else 0) + (if x.target.Some? then 1 else 0)
    decreases |s|
  {
    var n := |s| - 1;
    if i == n {
      assert s[i := x][..n] == s[..n];
    } else {
      assert s[i := x][..n] == s[..n][i := x];
      HeldUpdate(s[..n], i, x);
    }
  }
}
