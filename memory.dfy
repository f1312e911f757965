/** The invariants of a thread's memory of counted objects and pointers, as
    predicates over its plain contents, with the lemmas showing that each
    elementary step of the pointer operations preserves them. `cs` are the
    `TRefWithTargetObj` cells, `ss` the pointer objects, `ds` the number of
    times each cell's object has been destroyed. */
module Memory {
  import opened Types
  import opened Counting

  /** A pointer object after its destructor has run. */
  function Killed(x: Slot): Slot
  {
    x.(live := false, target := None)
  }

  /** The reference that a release of `r` still has to drop. */
  ghost function Owned(r: Option<CellId>): multiset<CellId>
  {
    if r.Some? then multiset{r.value} else multiset{}
  }

  /** The object in cell `c` exists: it was allocated and not yet destroyed. */
  ghost predicate AliveIn<V>(cs: seq<Cell<V>>, ds: seq<nat>, c: CellId)
  {
    c < |cs| && c < |ds| && ds[c] == 0
  }

  /** The shape of memory: no object is destroyed twice, no pointer dangles,
      a destroyed pointer is null, and the pointer members of an object are
      plain pointers that are destroyed with it. */
  ghost predicate StructureOf<V>(cs: seq<Cell<V>>, ss: seq<Slot>, ds: seq<nat>)
  {
    && |ds| == |cs|
    && (forall c | 0 <= c < |ds| :: ds[c] <= 1)
    && (forall s | 0 <= s < |ss| && ss[s].target.Some? :: AliveIn(cs, ds, ss[s].target.value))
    && (forall s | 0 <= s < |ss| && !ss[s].live :: ss[s].target == None)
    && (forall s | 0 <= s < |ss| && ss[s].owner.Some? ::
          && ss[s].owner.value < |cs|
          && s in cs[ss[s].owner.value].members
          && ss[s].kind == PlainKind
          && (!AliveIn(cs, ds, ss[s].owner.value) ==> !ss[s].live))
    && (forall c, i | 0 <= c < |cs| && 0 <= i < |cs[c].members| ::
          cs[c].members[i] < |ss| && ss[cs[c].members[i]].owner == Some(c))
  }

  /** Every live object's count is at least 1 and equals the number of
      pointers that refer to it plus the releases of it still in progress. */
  ghost predicate BalancedOf<V>(cs: seq<Cell<V>>, ss: seq<Slot>, ds: seq<nat>, pending: multiset<CellId>)
  {
    && (forall c | c in pending :: AliveIn(cs, ds, c))
    && (forall c: CellId {:trigger cs[c]} | AliveIn(cs, ds, c) :: cs[c].count >= 1 && cs[c].count == Refs(ss, c) + pending[c])
  }

  /** Not-null and fixed pointers (const or not) that exist are never null. */
  ghost predicate WrappersOf(ss: seq<Slot>)
  {
    forall s | 0 <= s < |ss| && ss[s].live && ss[s].kind.variant != Plain :: ss[s].target.Some?
  }

  /** Destruction counts only grow, and each from 0 to 1 at most. */
  ghost predicate Monotone(d0: seq<nat>, d1: seq<nat>)
  {
    && |d0| == |d1|
    && forall c | 0 <= c < |d0| :: d1[c] == d0[c] || (d0[c] == 0 && d1[c] == 1)
  }

  /** A pointer object either kept its state or was destroyed together with
      the object that contains it, an object destroyed in between. */
  ghost predicate Retired(before: Slot, after: Slot, d0: seq<nat>, d1: seq<nat>)
  {
    || after == before
    || (&& after == Killed(before)
        && before.owner.Some?
        && before.owner.value < |d0| && before.owner.value < |d1|
        && d0[before.owner.value] == 0 && d1[before.owner.value] == 1)
  }

  /** No fixed pointer that still exists was retargeted. */
  ghost predicate FixedKept(before: seq<Slot>, after: seq<Slot>)
  {
    forall s | 0 <= s < |before| && s < |after| && before[s].kind.variant == Fixed && after[s].live ::
      after[s].target == before[s].target
  }

  /** The cells after `acquire` incremented the count of `r`. */
  function Bump<V>(cs: seq<Cell<V>>, r: Option<CellId>): (r': seq<Cell<V>>)
    requires r.Some? ==> r.value < |cs|
    ensures |r'| == |cs|
    ensures Drop(r', r) == cs
  {
    if r.Some? then cs[r.value := cs[r.value].(count := cs[r.value].count + 1)] else cs
  }

  /** The cells after `decrement` on `t`, the inverse of `Bump`. */
  function Drop<V>(cs: seq<Cell<V>>, t: Option<CellId>): (r': seq<Cell<V>>)
    requires t.Some? ==> t.value < |cs|
    ensures |r'| == |cs|
  {
    if t.Some? then cs[t.value := cs[t.value].(count := cs[t.value].count - 1)] else cs
  }

  /** `acquire`: retargeting a live pointer at a live object (or at null) and
      incrementing that object's count keeps memory consistent; the pointer's
      old target becomes a pending release. */
  lemma RetargetKeeps<V>(cs: seq<Cell<V>>, ss: seq<Slot>, ds: seq<nat>, pending: multiset<CellId>,
                         p: SlotId, r: Option<CellId>)
    requires StructureOf(cs, ss, ds) && BalancedOf(cs, ss, ds, pending)
    requires p < |ss| && ss[p].live && (r.Some? ==> AliveIn(cs, ds, r.value))
    ensures StructureOf(Bump(cs, r), ss[p := ss[p].(target := r)], ds)
    ensures BalancedOf(Bump(cs, r), ss[p := ss[p].(target := r)], ds, pending + Owned(ss[p].target))
  {
    var ss' := ss[p := ss[p].(target := r)];
    var cs' := Bump(cs, r);
    forall c | 0 <= c < |cs| ensures cs'[c].members == cs[c].members && cs'[c].value == cs[c].value {
    }
    forall c: CellId ensures Refs(ss', c) == Refs(ss, c) - Ind(ss[p], c) + Ind(ss'[p], c) {
      RefsUpdate(ss, p, ss'[p], c);
    }
    assert forall c | 0 <= c < |cs| :: AliveIn(cs', ds, c) == AliveIn(cs, ds, c);
  }

  /** Destroying one pointer object keeps memory consistent; its old target
      becomes a pending release and, if it had a target, one fewer pointer is
      non-null. */
  lemma KillKeeps<V>(cs: seq<Cell<V>>, ss: seq<Slot>, ds: seq<nat>, pending: multiset<CellId>, m: SlotId)
    requires StructureOf(cs, ss, ds) && BalancedOf(cs, ss, ds, pending)
    requires m < |ss|
    ensures StructureOf(cs, ss[m := Killed(ss[m])], ds)
    ensures BalancedOf(cs, ss[m := Killed(ss[m])], ds, pending + Owned(ss[m].target))
    ensures Held(ss[m := Killed(ss[m])]) == Held(ss) - (if ss[m].target.Some? then 1 else 0)
    ensures WrappersOf(ss) ==> WrappersOf(ss[m := Killed(ss[m])])
  {
    var ss' := ss[m := Killed(ss[m])];
    forall c: CellId ensures Refs(ss', c) == Refs(ss, c) - Ind(ss[m], c) {
      RefsUpdate(ss, m, ss'[m], c);
    }
    HeldUpdate(ss, m, ss'[m]);
  }

  /** `decrement`: dropping one pending reference to an object whose count is
      not 1 keeps memory consistent. */
  lemma DecrementKeeps<V>(cs: seq<Cell<V>>, ss: seq<Slot>, ds: seq<nat>, pending: multiset<CellId>, c: CellId)
    requires StructureOf(cs, ss, ds) && BalancedOf(cs, ss, ds, pending)
    requires c in pending && cs[c].count != 1
    ensures cs[c].count >= 2
    ensures StructureOf(cs[c := cs[c].(count := cs[c].count - 1)], ss, ds)
    ensures BalancedOf(cs[c := cs[c].(count := cs[c].count - 1)], ss, ds, pending - multiset{c})
  {
    var cs' := cs[c := cs[c].(count := cs[c].count - 1)];
    assert forall k | 0 <= k < |cs| :: AliveIn(cs', ds, k) == AliveIn(cs, ds, k);
  }

  /** The end of `delete`: once no pointer refers to an object and all its
      pointer members are destroyed, recording its destruction drops its last
      pending reference and keeps memory consistent. */
  lemma DestroyKeeps<V>(cs: seq<Cell<V>>, ss: seq<Slot>, ds: seq<nat>, pending: multiset<CellId>, c: CellId)
    requires StructureOf(cs, ss, ds) && BalancedOf(cs, ss, ds, pending)
    requires AliveIn(cs, ds, c) && pending[c] == 1
    requires forall s | 0 <= s < |ss| :: ss[s].target != Some(c)
    requires forall j | 0 <= j < |cs[c].members| :: !ss[cs[c].members[j]].live
    ensures StructureOf(cs, ss, ds[c := 1])
    ensures BalancedOf(cs, ss, ds[c := 1], pending - multiset{c})
  {
    var ds' := ds[c := 1];
    forall s | 0 <= s < |ss| && ss[s].owner == Some(c) ensures !ss[s].live {
      var j :| 0 <= j < |cs[c].members| && cs[c].members[j] == s;
    }
  }

  /** Adding a live, null, local pointer object keeps memory consistent. */
  lemma AppendNullKeeps<V>(cs: seq<Cell<V>>, ss: seq<Slot>, ds: seq<nat>, k: Kind)
    requires StructureOf(cs, ss, ds) && BalancedOf(cs, ss, ds, multiset{})
    ensures StructureOf(cs, ss + [Slot(true, None, k, None)], ds)
    ensures BalancedOf(cs, ss + [Slot(true, None, k, None)], ds, multiset{})
    ensures WrappersOf(ss) && k.variant == Plain ==> WrappersOf(ss + [Slot(true, None, k, None)])
  {
    var ss' := ss + [Slot(true, None, k, None)];
    forall c: CellId ensures Refs(ss', c) == Refs(ss, c) {
      RefsConcat(ss, [Slot(true, None, k, None)], c);
      assert [Slot(true, None, k, None)][..0] == [];
    }
  }

  /** The pointers after `new TRefWithTargetObj<X>(args...)`: the object's
      pointer members, null, then one pointer of kind `k` to the new cell. */
  function Allocated(ss: seq<Slot>, c: CellId, k: Kind, n: nat): seq<Slot>
  {
    ss + seq(n, i => Slot(true, Some(c), PlainKind, None)) + [Slot(true, None, k, Some(c))]
  }

  /** The fresh cell: count 1, the object, and its pointer members. */
  function NewCell<V>(v: V, first: SlotId, n: nat): Cell<V>
  {
    Cell(1, v, seq(n, i => first + i))
  }

  /** An object without pointer members lists none, and its allocation adds
      only the new pointer. */
  lemma NoMembers<V>(ss: seq<Slot>, c: CellId, k: Kind, v: V)
    ensures NewCell(v, |ss|, 0) == Cell(1, v, [])
    ensures Allocated(ss, c, k, 0) == ss + [Slot(true, None, k, Some(c))]
  {
  }

  /** Allocation adds exactly one reference, to the fresh cell. */
  lemma AllocatedRefs(ss: seq<Slot>, c: CellId, k: Kind, n: nat, d: CellId)
    ensures Refs(Allocated(ss, c, k, n), d) == Refs(ss, d) + (if d == c then 1 else 0)
  {
    var nulls := seq(n, i => Slot(true, Some(c), PlainKind, None));
    var last := [Slot(true, None, k, Some(c))];
    assert Allocated(ss, c, k, n) == (ss + nulls) + last;
    RefsConcat(ss + nulls, last, d);
    RefsConcat(ss, nulls, d);
    RefsZero(nulls, d);
    assert last[..0] == [];
  }

  /** The shape of memory survives `new TRefWithTargetObj<X>(args...)`. */
  lemma AllocateStructure<V>(cs: seq<Cell<V>>, ss: seq<Slot>, ds: seq<nat>, k: Kind, v: V, n: nat)
    requires StructureOf(cs, ss, ds)
    ensures StructureOf(cs + [NewCell(v, |ss|, n)], Allocated(ss, |cs|, k, n), ds + [0])
  {
    var ss' := Allocated(ss, |cs|, k, n);
    var cs' := cs + [NewCell(v, |ss|, n)];
    var ds' := ds + [0];
    assert forall s | 0 <= s < |ss| :: ss'[s] == ss[s];
    assert forall c | 0 <= c < |cs| :: cs'[c] == cs[c];
    assert forall c | 0 <= c < |cs'| :: AliveIn(cs', ds', c) == (c == |cs| || AliveIn(cs, ds, c));
    forall s | 0 <= s < |ss'| && ss'[s].owner.Some?
      ensures ss'[s].owner.value < |cs'| && s in cs'[ss'[s].owner.value].members
    {
      if s >= |ss| {
        assert cs'[|cs|].members[s - |ss|] == s;
      }
    }
  }

  /** `new TRefWithTargetObj<X>(args...)`: a fresh cell with count 1, whose
      object's pointer members are fresh null pointers, and one fresh pointer
      of kind `k` that refers to it, keep memory consistent. */
  lemma AllocateKeeps<V>(cs: seq<Cell<V>>, ss: seq<Slot>, ds: seq<nat>, k: Kind, v: V, n: nat)
    requires StructureOf(cs, ss, ds) && BalancedOf(cs, ss, ds, multiset{}) && WrappersOf(ss)
    ensures StructureOf(cs + [NewCell(v, |ss|, n)], Allocated(ss, |cs|, k, n), ds + [0])
    ensures BalancedOf(cs + [NewCell(v, |ss|, n)], Allocated(ss, |cs|, k, n), ds + [0], multiset{})
    ensures WrappersOf(Allocated(ss, |cs|, k, n))
  {
    var ss' := Allocated(ss, |cs|, k, n);
    var cs' := cs + [NewCell(v, |ss|, n)];
    var ds' := ds + [0];
    AllocateStructure(cs, ss, ds, k, v, n);
    assert forall s | 0 <= s < |ss| :: ss'[s] == ss[s];
    assert forall c | 0 <= c < |cs| :: cs'[c] == cs[c];
    assert forall c | 0 <= c < |cs'| :: AliveIn(cs', ds', c) == (c == |cs| || AliveIn(cs, ds, c));
    forall c: CellId ensures Refs(ss', c) == Refs(ss, c) + (if c == |cs| then 1 else 0) {
      AllocatedRefs(ss, |cs|, k, n, c);
    }
    RefsZero(ss, |cs|);
  }

  /** Between two states of the same memory: no cell or pointer appeared or
      vanished, every object and its list of pointer members is unchanged,
      destructions only progressed, and every pointer other than `except`
      kept its state or was destroyed together with the object containing it. */
  ghost predicate Evolved<V>(cs0: seq<Cell<V>>, ss0: seq<Slot>, ds0: seq<nat>,
                             cs1: seq<Cell<V>>, ss1: seq<Slot>, ds1: seq<nat>, except: Option<SlotId>)
  {
    && |cs1| == |cs0| && |ss1| == |ss0|
    && (forall c | 0 <= c < |cs0| :: cs1[c].value == cs0[c].value && cs1[c].members == cs0[c].members)
    && Monotone(ds0, ds1)
    && (forall s | 0 <= s < |ss0| && Some(s) != except :: Retired(ss0[s], ss1[s], ds0, ds1))
  }

  /** Two steps of a destruction cascade compose: `b` is the state inside the
      destructor of `c` (whose own destruction is recorded at the end), `e`
      the state after a nested release that left `c` alive. */
  lemma RetiredStep(a: Slot, b: Slot, e: Slot, d0: seq<nat>, dm: seq<nat>, d2: seq<nat>, c: CellId)
    requires Monotone(d0, dm) && Monotone(dm, d2) && c < |dm| && dm[c] == 0 && d2[c] == 0
    requires Retired(a, b, d0, dm[c := 1]) && Retired(b, e, dm, d2)
    ensures Retired(a, e, d0, d2[c := 1])
  {
  }

  /** Pointers that only kept their state or were destroyed keep the not-null
      invariant, and no fixed pointer was retargeted. */
  lemma RetiredKeeps(ss0: seq<Slot>, ss1: seq<Slot>, ds0: seq<nat>, ds1: seq<nat>)
    requires |ss0| == |ss1|
    requires forall s | 0 <= s < |ss0| :: Retired(ss0[s], ss1[s], ds0, ds1)
    ensures WrappersOf(ss0) ==> WrappersOf(ss1)
    ensures FixedKept(ss0, ss1)
  {
  }

  /** The objects in `order` had their `delete` started in that order, and in
      memory `ss` each of them was referred to only by the pointer `root` or
      by pointer members of objects earlier in the order: no pointer outside
      the cascade kept one of them alive. */
  ghost predicate DeletedInOrder(ss: seq<Slot>, root: Option<SlotId>, order: seq<CellId>)
  {
    forall k, s | 0 <= k < |order| && 0 <= s < |ss| && ss[s].target == Some(order[k]) ::
      Some(s) == root || (ss[s].owner.Some? && ss[s].owner.value in order[..k])
  }

  /** One instance of `DeletedInOrder`: a pointer that refers to the `k`-th
      object is the root or a member of an object before it. */
  lemma DeletedBefore(ss: seq<Slot>, root: Option<SlotId>, order: seq<CellId>, k: nat, s: SlotId)
    requires DeletedInOrder(ss, root, order)
    requires k < |order| && s < |ss| && ss[s].target == Some(order[k])
    ensures Some(s) == root || (ss[s].owner.Some? && ss[s].owner.value in order[..k])
  {
  }

  /** Exactly the objects in `order` were destroyed between `d0` and `d1`. */
  ghost predicate DestroyedAre(d0: seq<nat>, d1: seq<nat>, order: seq<CellId>)
  {
    && |d1| == |d0|
    && (forall k | 0 <= k < |order| :: order[k] < |d0|)
    && (forall c | 0 <= c < |d0| :: (d0[c] == 0 && d1[c] == 1) <==> c in order)
  }

  /** Every object of `objs` is referred to by the pointer `refs[j]`, a member
      of an object of `objs` other than `root`: two objects that refer to each
      other, or any longer cycle, with the members that close it. */
  ghost predicate SelfHeld(ss: seq<Slot>, root: Option<SlotId>, objs: seq<CellId>, refs: seq<SlotId>)
  {
    && |refs| == |objs|
    && forall j {:trigger refs[j]} | 0 <= j < |objs| ::
         && refs[j] < |ss| && Some(refs[j]) != root
         && ss[refs[j]].target == Some(objs[j])
         && ss[refs[j]].owner.Some? && ss[refs[j]].owner.value in objs
  }

  /** One instance of `SelfHeld`: the `j`-th object is referred to by a member
      of the object `o` of the set. */
  lemma HeldAmong(ss: seq<Slot>, root: Option<SlotId>, objs: seq<CellId>, refs: seq<SlotId>, j: nat)
    returns (o: CellId)
    requires SelfHeld(ss, root, objs, refs) && j < |objs|
    ensures refs[j] < |ss| && Some(refs[j]) != root && ss[refs[j]].target == Some(objs[j])
    ensures ss[refs[j]].owner == Some(o) && o in objs
  {
    o := ss[refs[j]].owner.value;
  }

  /** Objects held among themselves are never in a deletion order unless one
      of the members that hold them is the released pointer itself: a cycle
      reached only through its own members leaks. */
  lemma {:induction false} CycleKept(ss: seq<Slot>, root: Option<SlotId>, order: seq<CellId>,
                                     objs: seq<CellId>, refs: seq<SlotId>)
    requires DeletedInOrder(ss, root, order)
    requires SelfHeld(ss, root, objs, refs)
    ensures forall j | 0 <= j < |objs| :: objs[j] !in order
  {
    CycleAbsent(ss, root, order, objs, refs, |order|);
  }

  /** `CycleKept` for the first `k` entries of the order, by induction on `k`. */
  lemma {:induction false} CycleAbsent(ss: seq<Slot>, root: Option<SlotId>, order: seq<CellId>,
                                       objs: seq<CellId>, refs: seq<SlotId>, k: nat)
    requires DeletedInOrder(ss, root, order) && k <= |order|
    requires SelfHeld(ss, root, objs, refs)
    ensures forall i | 0 <= i < k :: order[i] !in objs
    decreases k
  {
    if k > 0 {
      CycleAbsent(ss, root, order, objs, refs, k - 1);
      if order[k - 1] in objs {
        var j :| 0 <= j < |objs| && objs[j] == order[k - 1];
        var o := HeldAmong(ss, root, objs, refs, j);
        DeletedBefore(ss, root, order, k - 1, refs[j]);
        assert false;
      }
    }
  }

  /** A deletion order found after first setting pointer `p` to `x` is one
      rooted at `p` in the memory before. */
  lemma Rooted(ss: seq<Slot>, p: SlotId, x: Slot, order: seq<CellId>)
    requires p < |ss| && DeletedInOrder(ss[p := x], None, order)
    ensures DeletedInOrder(ss, Some(p), order)
  {
    forall k, s | 0 <= k < |order| && 0 <= s < |ss| && ss[s].target == Some(order[k]) && s != p
      ensures ss[s].owner.Some? && ss[s].owner.value in order[..k]
    {
      assert ss[p := x][s] == ss[s];
    }
  }

  /** Memory during `delete` of the object in cell `c`, after its pointer
      members from index `i` on have been destroyed and released, compared
      with memory when the delete began: no pointer refers to `c`, whose last
      reference is the release in progress, and every pointer kept its state
      or was destroyed along with `c` or with an object destroyed meanwhile.
      `acc` lists the objects destroyed meanwhile, in the order their
      `delete` started, each referred to (when the delete of `c` began) only
      by members of `c` or of objects before it. */
  ghost predicate Cascading<V>(cs0: seq<Cell<V>>, ss0: seq<Slot>, ds0: seq<nat>,
                               cs: seq<Cell<V>>, ss: seq<Slot>, ds: seq<nat>,
                               c: CellId, i: nat, pending: multiset<CellId>, acc: seq<CellId>)
  {
    && StructureOf(cs, ss, ds) && BalancedOf(cs, ss, ds, pending)
    && AliveIn(cs, ds, c) && pending[c] == 1
    && |cs| == |cs0| && |ss| == |ss0|
    && i <= |cs[c].members|
    && (forall s | 0 <= s < |ss| :: ss[s].target != Some(c))
    && (forall j | i <= j < |cs[c].members| :: !ss[cs[c].members[j]].live)
    && (forall k | 0 <= k < |cs| :: cs[k].value == cs0[k].value && cs[k].members == cs0[k].members)
    && Monotone(ds0, ds)
    && (forall s | 0 <= s < |ss| :: Retired(ss0[s], ss[s], ds0, ds[c := 1]))
    && DeletedInOrder(ss0, None, [c] + acc)
    && DestroyedAre(ds0, ds, acc)
  }

  /** `delete` begins once the last reference to `c` is being released. */
  lemma CascadeStart<V>(cs: seq<Cell<V>>, ss: seq<Slot>, ds: seq<nat>, c: CellId, pending: multiset<CellId>)
    requires StructureOf(cs, ss, ds) && BalancedOf(cs, ss, ds, pending)
    requires c in pending && cs[c].count == 1
    ensures Cascading(cs, ss, ds, cs, ss, ds, c, |cs[c].members|, pending, [])
  {
    RefsZero(ss, c);
  }

  /** The frame part of one cascade step: a pointer's history from the start
      of the delete composes with the kill of member `m` and a nested release. */
  lemma RetiredThrough(ss0: seq<Slot>, ds0: seq<nat>, ssA: seq<Slot>, dsA: seq<nat>,
                       ssB: seq<Slot>, dsB: seq<nat>, c: CellId, m: SlotId)
    requires |ss0| == |ssA| == |ssB| && m < |ssA|
    requires Monotone(ds0, dsA) && Monotone(dsA, dsB)
    requires c < |dsA| && dsA[c] == 0 && dsB[c] == 0
    requires ssA[m].owner == Some(c)
    requires forall s | 0 <= s < |ssA| :: Retired(ss0[s], ssA[s], ds0, dsA[c := 1])
    requires forall s | 0 <= s < |ssA| :: Retired(ssA[m := Killed(ssA[m])][s], ssB[s], dsA, dsB)
    ensures forall s | 0 <= s < |ssB| :: Retired(ss0[s], ssB[s], ds0, dsB[c := 1])
  {
    var ss1 := ssA[m := Killed(ssA[m])];
    forall s | 0 <= s < |ssB| ensures Retired(ss0[s], ssB[s], ds0, dsB[c := 1]) {
      assert Retired(ss1[s], ssB[s], dsA, dsB);
      RetiredStep(ss0[s], ss1[s], ssB[s], ds0, dsA, dsB, c);
    }
  }

  /** The order part of one cascade step: the objects whose delete a
      member's release started, appended to those before, still form a
      deletion order from the start of the delete of `c`. */
  lemma OrderStep(ss0: seq<Slot>, ds0: seq<nat>, ssA: seq<Slot>, dsA: seq<nat>, dsB: seq<nat>,
                  c: CellId, m: SlotId, acc: seq<CellId>, o: seq<CellId>)
    requires |ss0| == |ssA| && m < |ssA| && ssA[m].owner == Some(c)
    requires Monotone(ds0, dsA) && Monotone(dsA, dsB) && c < |dsA| && dsA[c] == 0
    requires forall s | 0 <= s < |ssA| :: Retired(ss0[s], ssA[s], ds0, dsA[c := 1])
    requires DeletedInOrder(ss0, None, [c] + acc) && DestroyedAre(ds0, dsA, acc)
    requires DeletedInOrder(ssA[m := Killed(ssA[m])], None, o) && DestroyedAre(dsA, dsB, o)
    ensures DeletedInOrder(ss0, None, [c] + (acc + o)) && DestroyedAre(ds0, dsB, acc + o)
  {
    var order := [c] + (acc + o);
    forall k, s | 0 <= k < |order| && 0 <= s < |ss0| && ss0[s].target == Some(order[k])
      ensures ss0[s].owner.Some? && ss0[s].owner.value in order[..k]
    {
      OrderEntry(ss0, ds0, ssA, dsA, c, m, acc, o, k, s);
    }
  }

  /** One entry of `OrderStep`: a pointer that referred to the `k`-th object
      of the extended order was a member of an object before it. */
  lemma OrderEntry(ss0: seq<Slot>, ds0: seq<nat>, ssA: seq<Slot>, dsA: seq<nat>,
                   c: CellId, m: SlotId, acc: seq<CellId>, o: seq<CellId>, k: nat, s: SlotId)
    requires |ss0| == |ssA| && m < |ssA| && ssA[m].owner == Some(c)
    requires c < |dsA| && dsA[c] == 0
    requires s < |ss0| && Retired(ss0[s], ssA[s], ds0, dsA[c := 1])
    requires DeletedInOrder(ss0, None, [c] + acc) && DestroyedAre(ds0, dsA, acc)
    requires DeletedInOrder(ssA[m := Killed(ssA[m])], None, o)
    requires k < 1 + |acc| + |o| && ss0[s].target == Some(([c] + (acc + o))[k])
    ensures ss0[s].owner.Some? && ss0[s].owner.value in ([c] + (acc + o))[..k]
  {
    var order := [c] + (acc + o);
    var n := 1 + |acc|;
    if k < n {
      assert order[k] == ([c] + acc)[k] && order[..k] == ([c] + acc)[..k];
      DeletedBefore(ss0, None, [c] + acc, k, s);
    } else {
      assert order[..k][0] == c;
      var j := k - n;
      assert order[k] == o[j];
      var w := ss0[s].owner;
      if ssA[s] == ss0[s] && s != m {
        assert ssA[m := Killed(ssA[m])][s] == ss0[s];
        DeletedBefore(ssA[m := Killed(ssA[m])], None, o, j, s);
        var i :| 0 <= i < j && o[..j][i] == w.value;
        assert order[..k][n + i] == w.value;
      } else if w != Some(c) {
        assert w.value in acc;
        var i :| 0 <= i < |acc| && acc[i] == w.value;
        assert order[..k][1 + i] == w.value;
      }
    }
  }

  /** Destroying member `i - 1` of the object in `c` (memory `ssA` becoming
      `ssA[m := Killed(ssA[m])]`), then the nested release of its target
      (ending in memory B), keeps the cascade consistent. */
  lemma CascadeStep<V>(cs0: seq<Cell<V>>, ss0: seq<Slot>, ds0: seq<nat>,
                       csA: seq<Cell<V>>, ssA: seq<Slot>, dsA: seq<nat>,
                       csB: seq<Cell<V>>, ssB: seq<Slot>, dsB: seq<nat>,
                       c: CellId, i: nat, pending: multiset<CellId>, acc: seq<CellId>, o: seq<CellId>)
    requires Cascading(cs0, ss0, ds0, csA, ssA, dsA, c, i, pending, acc) && 0 < i
    requires StructureOf(csB, ssB, dsB) && BalancedOf(csB, ssB, dsB, pending)
    requires Evolved(csA, ssA[csA[c].members[i - 1] := Killed(ssA[csA[c].members[i - 1]])], dsA,
                     csB, ssB, dsB, None)
    requires DeletedInOrder(ssA[csA[c].members[i - 1] := Killed(ssA[csA[c].members[i - 1]])], None, o)
    requires DestroyedAre(dsA, dsB, o)
    ensures Cascading(cs0, ss0, ds0, csB, ssB, dsB, c, i - 1, pending, acc + o)
  {
    var m := csA[c].members[i - 1];
    var ss1 := ssA[m := Killed(ssA[m])];
    RetiredThrough(ss0, ds0, ssA, dsA, ssB, dsB, c, m);
    OrderStep(ss0, ds0, ssA, dsA, dsB, c, m, acc, o);
    forall j | i - 1 <= j < |csB[c].members| ensures !ssB[csB[c].members[j]].live {
      assert Retired(ss1[csA[c].members[j]], ssB[csA[c].members[j]], dsA, dsB);
    }
    forall s | 0 <= s < |ssB| ensures ssB[s].target != Some(c) {
      assert Retired(ss1[s], ssB[s], dsA, dsB);
    }
  }

  /** The end of `delete`: with every member destroyed, recording the
      destruction of `c` drops its last pending reference, and memory has
      evolved from the state in which the delete began. */
  lemma CascadeDone<V>(cs0: seq<Cell<V>>, ss0: seq<Slot>, ds0: seq<nat>,
                       cs: seq<Cell<V>>, ss: seq<Slot>, ds: seq<nat>,
                       c: CellId, pending: multiset<CellId>, acc: seq<CellId>)
    requires Cascading(cs0, ss0, ds0, cs, ss, ds, c, 0, pending, acc)
    ensures ds0[c] == 0
    ensures StructureOf(cs, ss, ds[c := 1]) && BalancedOf(cs, ss, ds[c := 1], pending - multiset{c})
    ensures Evolved(cs0, ss0, ds0, cs, ss, ds[c := 1], None)
    ensures DeletedInOrder(ss0, None, [c] + acc) && DestroyedAre(ds0, ds[c := 1], [c] + acc)
  {
    DestroyKeeps(cs, ss, ds, pending, c);
    assert Monotone(ds0, ds[c := 1]);
  }

  /** Nothing changed: memory has trivially evolved. */
  lemma EvolvedRefl<V>(cs: seq<Cell<V>>, ss: seq<Slot>, ds: seq<nat>)
    ensures Evolved(cs, ss, ds, cs, ss, ds, None)
  {
  }

  /** One pointer `p` was set to `x` (memory `ssM`, with cells that differ
      only in counts), then a release ran: memory has evolved except at `p`,
      and `p` itself went from `x` to its final state. */
  lemma EvolvedExcept<V>(cs0: seq<Cell<V>>, ss0: seq<Slot>, ds0: seq<nat>,
                         csM: seq<Cell<V>>, p: SlotId, x: Slot,
                         cs1: seq<Cell<V>>, ss1: seq<Slot>, ds1: seq<nat>)
    requires p < |ss0| && |csM| == |cs0|
    requires forall c | 0 <= c < |cs0| :: csM[c].value == cs0[c].value && csM[c].members == cs0[c].members
    requires Evolved(csM, ss0[p := x], ds0, cs1, ss1, ds1, None)
    ensures Evolved(cs0, ss0, ds0, cs1, ss1, ds1, Some(p))
    ensures Retired(x, ss1[p], ds0, ds1)
  {
    assert Retired(ss0[p := x][p], ss1[p], ds0, ds1);
    forall s | 0 <= s < |ss0| && Some(s) != Some(p) ensures Retired(ss0[s], ss1[s], ds0, ds1) {
      assert ss0[p := x][s] == ss0[s];
    }
  }

  /** After an operation that evolved memory except at pointer `p`, which went
      from `x` to its final state: no not-null or fixed pointer became null,
      provided `x` is not one, and no fixed pointer other than possibly `p`
      was retargeted. */
  lemma EvolvedKeeps<V>(cs0: seq<Cell<V>>, ss0: seq<Slot>, ds0: seq<nat>,
                        cs1: seq<Cell<V>>, ss1: seq<Slot>, ds1: seq<nat>, p: SlotId, x: Slot)
    requires Evolved(cs0, ss0, ds0, cs1, ss1, ds1, Some(p)) && p < |ss0|
    requires Retired(x, ss1[p], ds0, ds1) && x.kind == ss0[p].kind
    ensures WrappersOf(ss0) && (x.live && x.kind.variant != Plain ==> x.target.Some?) ==> WrappersOf(ss1)
    ensures (ss0[p].kind.variant == Fixed && x.live ==> x.target == ss0[p].target) ==> FixedKept(ss0, ss1)
  {
  }

  /** The fate of the old target `t` of pointer `p` when `acquire(r)` (cells
      `Bump(cs0, r)`) preceded its release: restated against the memory
      before the acquire. */
  lemma RetargetFate<V>(cs0: seq<Cell<V>>, ss0: seq<Slot>, ds0: seq<nat>, p: SlotId, r: Option<CellId>,
                        cs1: seq<Cell<V>>, ss1: seq<Slot>, ds1: seq<nat>)
    requires p < |ss0| && (r.Some? ==> r.value < |cs0|) && |ds1| == |ds0|
    requires ss0[p].target.Some? ==> ss0[p].target.value < |cs0| && ss0[p].target.value < |ds0|
    requires var t, csM := ss0[p].target, Bump(cs0, r);
             && (t.Some? && csM[t.value].count == 1 ==> ds0[t.value] == 0 && ds1[t.value] == 1)
             && (t.Some? && csM[t.value].count != 1 ==>
                   cs1 == Drop(csM, t) && ss1 == ss0[p := ss0[p].(target := r)] && ds1 == ds0)
             && (t.None? ==> cs1 == csM && ss1 == ss0[p := ss0[p].(target := r)] && ds1 == ds0)
    requires ss0[p].target == r && r.Some? ==> cs0[r.value].count >= 1
    ensures var t := ss0[p].target;
            t.Some? && t != r && cs0[t.value].count == 1 ==> ds0[t.value] == 0 && ds1[t.value] == 1
    ensures var t := ss0[p].target;
            t.None? || t == r || cs0[t.value].count != 1 ==>
              && ss1 == ss0[p := ss0[p].(target := r)] && ds1 == ds0
              && cs1 == Drop(Bump(cs0, r), t)
  {
    var t := ss0[p].target;
    if t.Some? && t != r {
      assert Bump(cs0, r)[t.value].count == cs0[t.value].count;
    }
  }
}
