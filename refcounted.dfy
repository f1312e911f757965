/** The single-threaded intrusive reference-counted pointers of `mserefcounted.h`.

    `Heap` stands for the memory of one thread: every `TRefWithTargetObj`
    allocation is a cell (its `CRefCounter` count, the object, and the
    pointer members of that object), and every pointer object, whatever its
    class, is a slot that refers to at most one cell. The methods are the
    pointer operations; they update the slots and counts in place, and the
    ghost field `destructions` records, per cell, how many times its object
    has been destroyed. */
module RefCounted {
  import opened Types
  import opened Counting
  import opened Memory

  class Heap<V> {
    var cells: seq<Cell<V>>
    var slots: seq<Slot>
    ghost var destructions: seq<nat>

    /** The object in cell `c` exists. */
    ghost predicate Alive(c: CellId)
      reads this
    {
      AliveIn(cells, destructions, c)
    }

    ghost predicate Structure()
      reads this
    {
      StructureOf(cells, slots, destructions)
    }

    ghost predicate Balanced(pending: multiset<CellId>)
      reads this
    {
      BalancedOf(cells, slots, destructions, pending)
    }

    ghost predicate WrappersHold()
      reads this
    {
      WrappersOf(slots)
    }

    /** The state between two pointer operations: every live object's count
        is the number of pointers that refer to it, and no pointer of a
        not-null or fixed class is null. */
    ghost predicate Valid()
      reads this
    {
      Structure() && Balanced(multiset{}) && WrappersHold()
    }

    /** A pointer object that exists. */
    ghost predicate Usable(p: SlotId)
      reads this
    {
      p < |slots| && slots[p].live
    }

    constructor ()
      ensures Valid()
      ensures cells == [] && slots == [] && destructions == []
    {
      cells, slots, destructions := [], [], [];
    }

    // ------------------------------------------------------------------
    // Queries

    /** `get()`: the cell the pointer refers to. A non-null result is never
        dangling: the object exists and is counted at least once. */
    function Get(p: SlotId): (r: Option<CellId>)
      reads this
      requires Valid() && Usable(p)
      ensures r.Some? ==> Alive(r.value) && cells[r.value].count >= 1
      ensures r.Some? <==> slots[p].target.Some?
    {
      slots[p].target
    }

    /** `operator bool`: whether the pointer has a target. A not-null or fixed
        pointer always tests true. */
    function IsNonNull(p: SlotId): (r: bool)
      reads this
      requires Valid() && Usable(p)
      ensures r <==> slots[p].target.Some?
      ensures slots[p].kind.variant != Plain ==> r
    {
      Get(p).Some?
    }

    /** `unique()`: true for a null pointer, and otherwise true exactly when no
        other pointer refers to the same object. */
    function Unique(p: SlotId): (r: bool)
      reads this
      requires Valid() && Usable(p)
      ensures r <==> (slots[p].target == None ||
                      forall q | 0 <= q < |slots| && q != p :: slots[q].target != slots[p].target)
    {
      match slots[p].target
      case None => true
      case Some(c) =>
        RefsSole(slots, p, c);
        cells[c].count == 1
    }

    /** `operator==`: both pointers refer to the same object, or both are null.
        Two distinct equal non-null pointers share ownership, so neither is unique. */
    function Equal(p: SlotId, q: SlotId): (r: bool)
      reads this
      requires Valid() && Usable(p) && Usable(q)
      ensures r <==> slots[p].target == slots[q].target
      ensures r && p != q && slots[p].target.Some? ==> !Unique(p) && !Unique(q)
    {
      Get(p) == Get(q)
    }

    /** `operator*` and `operator->` of `TRefCountedPointer`, which the const
        pointers delegate to: a null pointer throws `out_of_range`, any other
        yields the object it refers to, which exists. */
    method Deref(p: SlotId) returns (r: Result<V>)
      requires Valid() && Usable(p)
      ensures r.Err? <==> slots[p].target.None?
      ensures r.Ok? ==> Alive(slots[p].target.value) && r.value == cells[slots[p].target.value].value
    {
      if slots[p].target.None? {
        r := Err(OutOfRange);
      } else {
        r := Ok(cells[slots[p].target.value].value);
      }
    }

    /** `TRefCountedNotNullPointer::operator*`, inherited by the fixed pointer,
        which does no null check: under `Valid()` their invariant guarantees a
        target that exists. The const not-null and fixed classes forward to the
        checked base dereference instead, which under `Valid()` never throws
        and gives the same value. */
    method DerefNotNull(p: SlotId) returns (v: V)
      requires Valid() && Usable(p) && slots[p].kind.variant != Plain
      ensures slots[p].target.Some? && Alive(slots[p].target.value)
      ensures v == cells[slots[p].target.value].value
    {
      v := cells[slots[p].target.value].value;
    }

    // ------------------------------------------------------------------
    // Counting

    /** `acquire(c)`: point `p` at `r` and increment `r`'s count. The old
        target is not released here; the caller still holds that reference. */
    method Acquire(p: SlotId, r: Option<CellId>, ghost pending: multiset<CellId>)
      requires Structure() && Balanced(pending) && Usable(p)
      requires r.Some? ==> Alive(r.value)
      modifies this
      ensures Structure() && Balanced(pending + Owned(old(slots[p].target)))
      ensures slots == old(slots)[p := old(slots[p]).(target := r)]
      ensures cells == Bump(old(cells), r)
      ensures r.Some? ==> cells[r.value].count == old(cells[r.value].count) + 1
      ensures destructions == old(destructions)
    {
      RetargetKeeps(cells, slots, destructions, pending, p, r);
      slots := slots[p := slots[p].(target := r)];
      if r.Some? {
        cells := cells[r.value := cells[r.value].(count := cells[r.value].count + 1)];
      }
    }

    /** `dorelease(c)`: nothing for null; if the count is 1 the cell is deleted
        and its object destroyed exactly once; otherwise the count is
        decremented and nothing else changes. `pending` holds the releases in
        progress, this one included. `deleted` lists the objects destroyed,
        in the order their `delete` started; each was referred to only by
        pointer members of objects before it. */
    method DoRelease(r: Option<CellId>, ghost pending: multiset<CellId>) returns (ghost deleted: seq<CellId>)
      requires Structure() && Balanced(pending)
      requires Owned(r) <= pending
      modifies this
      ensures Structure() && Balanced(pending - Owned(r))
      ensures DeletedInOrder(old(slots), None, deleted) && DestroyedAre(old(destructions), destructions, deleted)
      ensures Evolved(old(cells), old(slots), old(destructions), cells, slots, destructions, None)
      ensures r.Some? && old(cells[r.value].count) == 1 ==>
                old(destructions[r.value]) == 0 && destructions[r.value] == 1
      ensures r.Some? && old(cells[r.value].count) != 1 ==>
                cells == Drop(old(cells), r) && slots == old(slots) && destructions == old(destructions)
      ensures r.Some? && old(cells[r.value].count) == 1 && old(cells[r.value].members) == [] ==>
                cells == old(cells) && slots == old(slots) && destructions == old(destructions)[r.value := 1]
      ensures r.None? ==> cells == old(cells) && slots == old(slots) && destructions == old(destructions)
      ensures Held(slots) <= old(Held(slots))
      decreases Held(slots), if r.Some? then 4 else 0
    {
      if r.None? {
        EvolvedRefl(cells, slots, destructions);
        deleted := [];
      } else if cells[r.value].count == 1 {
        deleted := Delete(r.value, pending);
      } else {
        Decrement(r.value, pending);
        deleted := [];
      }
    }

    /** `CRefCounter::decrement` on a count other than 1 (its assert that the
        count stays non-negative holds): nothing else changes. */
    method Decrement(c: CellId, ghost pending: multiset<CellId>)
      requires Structure() && Balanced(pending)
      requires c in pending && cells[c].count != 1
      modifies this
      ensures Structure() && Balanced(pending - multiset{c})
      ensures Evolved(old(cells), old(slots), old(destructions), cells, slots, destructions, None)
      ensures cells == Drop(old(cells), Some(c))
      ensures slots == old(slots) && destructions == old(destructions)
    {
      DecrementKeeps(cells, slots, destructions, pending, c);
      assert 0 <= cells[c].count;
      cells := cells[c := cells[c].(count := cells[c].count - 1)];
    }

    /** `delete` of the cell whose last reference is being released: the
        object's destructor runs its members' destructors, then the object
        itself is destroyed (and counted, as a `Trackable` of the tests is). */
    method Delete(c: CellId, ghost pending: multiset<CellId>) returns (ghost deleted: seq<CellId>)
      requires Structure() && Balanced(pending)
      requires c in pending && cells[c].count == 1
      modifies this
      ensures Structure() && Balanced(pending - multiset{c})
      ensures deleted != [] && deleted[0] == c
      ensures DeletedInOrder(old(slots), None, deleted) && DestroyedAre(old(destructions), destructions, deleted)
      ensures Evolved(old(cells), old(slots), old(destructions), cells, slots, destructions, None)
      ensures old(destructions[c]) == 0 && destructions[c] == 1
      ensures old(cells[c].members) == [] ==>
                cells == old(cells) && slots == old(slots) && destructions == old(destructions)[c := 1]
      ensures Held(slots) <= old(Held(slots))
      decreases Held(slots), 3
    {
      CascadeStart(cells, slots, destructions, c, pending);
      ghost var cs0, ss0, ds0 := cells, slots, destructions;
      var acc := DestroyMembers(c, pending);
      CascadeDone(cs0, ss0, ds0, cells, slots, destructions, c, pending, acc);
      destructions := destructions[c := 1];
      deleted := [c] + acc;
    }

    /** The member destructors run by `delete` on cell `c`: each pointer member
        of the object, in reverse order of declaration, is destroyed. `acc`
        lists the objects destroyed meanwhile, in the order their `delete`
        started. */
    method DestroyMembers(c: CellId, ghost pending: multiset<CellId>) returns (ghost acc: seq<CellId>)
      requires c < |cells|
      requires Cascading(cells, slots, destructions, cells, slots, destructions, c, |cells[c].members|, pending, [])
      modifies this
      ensures Cascading(old(cells), old(slots), old(destructions), cells, slots, destructions, c, 0, pending, acc)
      ensures old(cells[c].members) == [] ==>
                cells == old(cells) && slots == old(slots) && destructions == old(destructions)
      ensures Held(slots) <= old(Held(slots))
      decreases Held(slots), 2
    {
      ghost var cs0, ss0, ds0 := cells, slots, destructions;
      var i: nat := |cells[c].members|;
      acc := [];
      while i > 0
        invariant Cascading(cs0, ss0, ds0, cells, slots, destructions, c, i, pending, acc)
        invariant Held(slots) <= Held(ss0)
        invariant i == |cs0[c].members| ==> cells == cs0 && slots == ss0 && destructions == ds0
      {
        acc := DestroyMember(c, i - 1, cs0, ss0, ds0, pending, acc);
        i := i - 1;
      }
    }

    /** The destructor of pointer member `i` of the object in cell `c`:
        `~TRefCountedPointer` releases the member's target, and the objects
        that release destroys join the deletion order. */
    method DestroyMember(c: CellId, i: nat, ghost cs0: seq<Cell<V>>, ghost ss0: seq<Slot>, ghost ds0: seq<nat>,
                         ghost pending: multiset<CellId>, ghost acc: seq<CellId>) returns (ghost acc': seq<CellId>)
      requires Cascading(cs0, ss0, ds0, cells, slots, destructions, c, i + 1, pending, acc)
      modifies this
      ensures Cascading(cs0, ss0, ds0, cells, slots, destructions, c, i, pending, acc')
      ensures Held(slots) <= old(Held(slots))
      decreases Held(slots), 1
    {
      ghost var csA, ssA, dsA := cells, slots, destructions;
      var m := cells[c].members[i];
      var x := slots[m].target;
      KillKeeps(cells, slots, destructions, pending, m);
      slots := slots[m := Killed(slots[m])];
      var o := DoRelease(x, pending + Owned(x));
      assert pending + Owned(x) - Owned(x) == pending;
      CascadeStep(cs0, ss0, ds0, csA, ssA, dsA, cells, slots, destructions, c, i + 1, pending, acc, o);
      acc' := acc + o;
    }

    // ------------------------------------------------------------------
    // Pointer operations

    /** The body of `operator=` once `this != &r`: `auto_release keep` holds
        the old target while `acquire` takes the new one, then `keep`'s
        destructor releases the old target. Retargeting to the same object
        changes nothing, because the acquire comes first. The objects
        destroyed are exactly `deleted`, and in the memory before, each was
        referred to only by `p` or by pointer members of objects before it. */
    method Retarget(p: SlotId, r: Option<CellId>) returns (ghost deleted: seq<CellId>)
      requires Structure() && Balanced(multiset{}) && Usable(p)
      requires r.Some? ==> Alive(r.value)
      modifies this
      ensures Structure() && Balanced(multiset{})
      ensures DeletedInOrder(old(slots), Some(p), deleted) && DestroyedAre(old(destructions), destructions, deleted)
      ensures Evolved(old(cells), old(slots), old(destructions), cells, slots, destructions, Some(p))
      ensures Retired(old(slots[p]).(target := r), slots[p], old(destructions), destructions)
      ensures var t := old(slots[p].target);
              t.Some? && t != r && old(cells[t.value].count) == 1 ==>
                old(destructions[t.value]) == 0 && destructions[t.value] == 1
      ensures var t := old(slots[p].target);
              t.None? || t == r || old(cells[t.value].count) != 1 ==>
                && slots == old(slots)[p := old(slots[p]).(target := r)]
                && destructions == old(destructions)
                && cells == Drop(Bump(old(cells), r), t)
    {
      ghost var cs0, ss0 := cells, slots;
      var keep := slots[p].target;
      Acquire(p, r, multiset{});
      ghost var csM := cells;
      deleted := DoRelease(keep, Owned(keep));
      Rooted(ss0, p, ss0[p].(target := r), deleted);
      assert Owned(keep) - Owned(keep) == multiset{};
      EvolvedExcept(cs0, ss0, old(destructions), csM, p, ss0[p].(target := r), cells, slots, destructions);
      RetargetFate(cs0, ss0, old(destructions), p, r, cells, slots, destructions);
    }

    /** `operator=` of every pointer class that has a public one: plain and
        not-null pointers and their const counterparts (a fixed pointer's is
        private). Self-assignment is a no-op; otherwise `dst` refers to what
        `src` referred to and its old target is released. The not-null and
        fixed invariants survive, and no fixed pointer moves. */
    method Assign(dst: SlotId, src: SlotId) returns (ghost deleted: seq<CellId>)
      requires Valid() && Usable(dst) && Usable(src)
      requires slots[dst].kind.variant != Fixed && CanConvert(slots[dst].kind, slots[src].kind)
      modifies this
      ensures Valid()
      ensures DeletedInOrder(old(slots), Some(dst), deleted) && DestroyedAre(old(destructions), destructions, deleted)
      ensures Evolved(old(cells), old(slots), old(destructions), cells, slots, destructions, Some(dst))
      ensures FixedKept(old(slots), slots)
      ensures Retired(old(slots[dst]).(target := old(slots[src].target)), slots[dst], old(destructions), destructions)
      ensures old(slots[dst].owner).None? ==> slots[dst] == old(slots[dst]).(target := old(slots[src].target))
      ensures dst == src || old(slots[dst].target) == old(slots[src].target) ==>
                cells == old(cells) && slots == old(slots) && destructions == old(destructions)
      ensures var t := old(slots[dst].target);
              t.Some? && t != old(slots[src].target) && old(cells[t.value].count) == 1 ==>
                old(destructions[t.value]) == 0 && destructions[t.value] == 1
      ensures var t, r := old(slots[dst].target), old(slots[src].target);
              dst != src && (t.None? || t == r || old(cells[t.value].count) != 1) ==>
                && slots == old(slots)[dst := old(slots[dst]).(target := r)]
                && destructions == old(destructions)
                && cells == Drop(Bump(old(cells), r), t)
    {
      deleted := [];
      if dst != src {
        ghost var cs0, ss0 := cells, slots;
        deleted := Retarget(dst, slots[src].target);
        if ss0[dst].target == ss0[src].target {
          assert slots == ss0;
          assert cells == Drop(Bump(cs0, ss0[src].target), ss0[src].target);
        }
        EvolvedKeeps(old(cells), ss0, old(destructions), cells, slots, destructions,
                     dst, ss0[dst].(target := ss0[src].target));
      }
    }

    /** `clear()` as the corrected design has it: only on a plain pointer (or
        its const counterpart), which becomes null and releases its target.
        The null temporary the source assigns from needs no acquire or release. */
    method Clear(p: SlotId) returns (ghost deleted: seq<CellId>)
      requires Valid() && Usable(p) && slots[p].kind.variant == Plain
      modifies this
      ensures Valid()
      ensures DeletedInOrder(old(slots), Some(p), deleted) && DestroyedAre(old(destructions), destructions, deleted)
      ensures Evolved(old(cells), old(slots), old(destructions), cells, slots, destructions, Some(p))
      ensures FixedKept(old(slots), slots)
      ensures Retired(old(slots[p]).(target := None), slots[p], old(destructions), destructions)
      ensures old(slots[p].owner).None? ==> slots[p] == old(slots[p]).(target := None)
      ensures var t := old(slots[p].target);
              t.Some? && old(cells[t.value].count) == 1 ==>
                old(destructions[t.value]) == 0 && destructions[t.value] == 1
      ensures var t := old(slots[p].target);
              t.None? || old(cells[t.value].count) != 1 ==>
                && slots == old(slots)[p := old(slots[p]).(target := None)]
                && destructions == old(destructions)
                && cells == Drop(old(cells), t)
    {
      ghost var ss0 := slots;
      deleted := Retarget(p, None);
      EvolvedKeeps(old(cells), ss0, old(destructions), cells, slots, destructions, p, ss0[p].(target := None));
    }

    /** `clear()` as written: public in `TRefCountedPointer` and
        `TRefCountedConstPointer`, so inherited by the not-null and fixed
        classes, and assigning null through the base `operator=`. Memory stays
        consistent and the old target meets the same fate as under `Clear`,
        but the pointer is null whatever its class. */
    method ClearAsWritten(p: SlotId) returns (ghost deleted: seq<CellId>)
      requires Valid() && Usable(p)
      modifies this
      ensures Structure() && Balanced(multiset{})
      ensures DeletedInOrder(old(slots), Some(p), deleted) && DestroyedAre(old(destructions), destructions, deleted)
      ensures Evolved(old(cells), old(slots), old(destructions), cells, slots, destructions, Some(p))
      ensures Retired(old(slots[p]).(target := None), slots[p], old(destructions), destructions)
      ensures old(slots[p].owner).None? ==> slots[p] == old(slots[p]).(target := None)
      ensures var t := old(slots[p].target);
              t.Some? && old(cells[t.value].count) == 1 ==>
                old(destructions[t.value]) == 0 && destructions[t.value] == 1
      ensures var t := old(slots[p].target);
              t.None? || old(cells[t.value].count) != 1 ==>
                && slots == old(slots)[p := old(slots[p]).(target := None)]
                && destructions == old(destructions)
                && cells == Drop(old(cells), t)
    {
      deleted := Retarget(p, None);
    }

    /** `~TRefCountedPointer` (and the destructors of the derived and const
        classes, which add nothing) on a pointer variable or temporary: it
        releases its target, which is destroyed when this was its only
        pointer and otherwise loses one count. */
    method Destroy(p: SlotId) returns (ghost deleted: seq<CellId>)
      requires Valid() && Usable(p) && slots[p].owner.None?
      modifies this
      ensures Valid()
      ensures DeletedInOrder(old(slots), Some(p), deleted) && DestroyedAre(old(destructions), destructions, deleted)
      ensures Evolved(old(cells), old(slots), old(destructions), cells, slots, destructions, Some(p))
      ensures FixedKept(old(slots), slots)
      ensures slots[p] == Killed(old(slots[p]))
      ensures var t := old(slots[p].target);
              t.Some? && old(cells[t.value].count) == 1 ==>
                old(destructions[t.value]) == 0 && destructions[t.value] == 1
      ensures var t := old(slots[p].target);
              t.Some? && old(cells[t.value].count) == 1 && old(cells[t.value].members) == [] ==>
                && slots == old(slots)[p := Killed(old(slots[p]))]
                && destructions == old(destructions)[t.value := 1] && cells == old(cells)
      ensures var t := old(slots[p].target);
              t.None? || old(cells[t.value].count) != 1 ==>
                && slots == old(slots)[p := Killed(old(slots[p]))]
                && destructions == old(destructions)
                && cells == Drop(old(cells), t)
    {
      ghost var cs0, ss0 := cells, slots;
      var t := slots[p].target;
      KillKeeps(cells, slots, destructions, multiset{}, p);
      slots := slots[p := Killed(slots[p])];
      deleted := DoRelease(t, Owned(t));
      Rooted(ss0, p, Killed(ss0[p]), deleted);
      assert Owned(t) - Owned(t) == multiset{};
      EvolvedExcept(cs0, ss0, old(destructions), cs0, p, Killed(ss0[p]), cells, slots, destructions);
      EvolvedKeeps(cs0, ss0, old(destructions), cells, slots, destructions, p, Killed(ss0[p]));
    }

    /** `make_refcounted`: `TRefCountedPointer::make_refcounted` (a plain
        pointer) and `TRefCountedFixedPointer::make_refcounted`, which the free
        function forwards to (a fixed pointer). A fresh object `v` with `n`
        null pointer members is allocated with count 1; the private
        constructor adopts it without incrementing, so the new pointer is its
        only owner. Nothing that existed changes. */
    method Make(kind: Kind, v: V, n: nat) returns (p: SlotId)
      requires Valid() && !kind.isConst && kind.variant != NotNull
      modifies this
      ensures Valid() && Usable(p)
      ensures p == old(|slots|) + n
      ensures slots[p].target == Some(old(|cells|)) && slots[p].kind == kind && slots[p].owner.None?
      ensures cells[old(|cells|)].count == 1 && cells[old(|cells|)].value == v
      ensures Unique(p)
      ensures cells == old(cells) + [NewCell(v, old(|slots|), n)]
      ensures slots == Allocated(old(slots), old(|cells|), kind, n)
      ensures destructions == old(destructions) + [0]
    {
      AllocateKeeps(cells, slots, destructions, kind, v, n);
      p := |slots| + n;
      cells, slots, destructions :=
        cells + [NewCell(v, |slots|, n)], Allocated(slots, |cells|, kind, n), destructions + [0];
    }

    /** The default and `nullptr_t` constructors of a plain pointer or a
        const pointer: a new null pointer variable. */
    method NewNull(kind: Kind) returns (p: SlotId)
      requires Valid() && kind.variant == Plain
      modifies this
      ensures Valid() && Usable(p) && p == old(|slots|)
      ensures slots == old(slots) + [Slot(true, None, kind, None)]
      ensures cells == old(cells) && destructions == old(destructions)
      ensures !IsNonNull(p) && Unique(p)
    {
      AppendNullKeeps(cells, slots, destructions, kind);
      p := |slots|;
      slots := slots + [Slot(true, None, kind, None)];
    }

    /** The copy and converting constructors (a const pointer from its
        non-const counterpart, a plain or not-null pointer from a derived
        one): `acquire` on the source's target. The copy refers to the same
        object, whose count goes up by one; copying null changes no count. */
    method Copy(src: SlotId, kind: Kind) returns (p: SlotId)
      requires Valid() && Usable(src) && CanConvert(kind, slots[src].kind)
      modifies this
      ensures Valid() && Usable(p) && p == old(|slots|) && p != src
      ensures slots == old(slots) + [Slot(true, None, kind, old(slots[src].target))]
      ensures cells == Bump(old(cells), old(slots[src].target)) && destructions == old(destructions)
      ensures Equal(p, src)
      ensures slots[src].target.Some? ==>
                cells[slots[src].target.value].count == old(cells[slots[src].target.value].count) + 1
                && !Unique(p) && !Unique(src)
      ensures slots[src].target.None? ==> cells == old(cells)
    {
      AppendNullKeeps(cells, slots, destructions, kind);
      p := |slots|;
      slots := slots + [Slot(true, None, kind, None)];
      Acquire(p, slots[src].target, multiset{});
      assert slots == old(slots) + [Slot(true, None, kind, old(slots[src].target))];
    }
  }
}
