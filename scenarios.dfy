/** The lifecycle tests of `TRefCountedPointer_test`, replayed on the model.
    A `Trackable` is a cell whose value is its id; its construction is the
    allocation of the cell and its destruction the ghost `destructions` entry,
    so the tests' `constructions` and `destructions` maps are read off the
    cells and that sequence. Each checkpoint of the tests is an `assert` or a
    postcondition of one phase of the test. */
module Scenarios {
  import opened Types
  import opened Memory
  import opened RefCounted

  /** The class of what the free `make_refcounted` returns. */
  const FixedKind := Kind(Fixed, false)

  /** `TRefCountedConstPointer` and `TRefCountedFixedConstPointer`. */
  const ConstKind := Kind(Plain, true)
  const FixedConstKind := Kind(Fixed, true)

  /** `p` is a `TRefCountedPointer` variable that refers to `t`. */
  ghost predicate Local<V>(h: Heap<V>, p: SlotId, t: Option<CellId>)
    reads h
  {
    LocalOf(h, p, PlainKind, t)
  }

  /** `p` is a pointer variable of class `k` that refers to `t`. */
  ghost predicate LocalOf<V>(h: Heap<V>, p: SlotId, k: Kind, t: Option<CellId>)
    reads h
  {
    p < |h.slots| && h.slots[p] == Slot(true, None, k, t)
  }

  /** The destructor of a pointer variable that is not the last referrer of
      its object: the object loses one count, and nothing else changes. */
  method DropShared<V>(h: Heap<V>, p: SlotId)
    requires h.Valid() && h.Usable(p) && h.slots[p].owner.None?
    requires h.slots[p].target.Some? ==> h.slots[p].target.value < |h.cells| && h.cells[h.slots[p].target.value].count != 1
    modifies h
    ensures h.Valid() && h.slots == old(h.slots)[p := Killed(old(h.slots[p]))]
    ensures h.cells == Drop(old(h.cells), old(h.slots[p].target)) && h.destructions == old(h.destructions)
  {
    ghost var deleted := h.Destroy(p);
  }

  /** The destructor of the last pointer to an object without pointer
      members: the object is destroyed, and nothing else changes. */
  method DropLast<V>(h: Heap<V>, p: SlotId)
    requires h.Valid() && h.Usable(p) && h.slots[p].owner.None? && h.slots[p].target.Some?
    requires h.slots[p].target.value < |h.cells| && h.cells[h.slots[p].target.value].count == 1
    requires h.cells[h.slots[p].target.value].members == []
    modifies h
    ensures h.Valid() && h.slots == old(h.slots)[p := Killed(old(h.slots[p]))]
    ensures h.cells == old(h.cells) && h.destructions == old(h.destructions)[old(h.slots[p].target.value) := 1]
  {
    ghost var deleted := h.Destroy(p);
  }

  /** `dst = src` where the object `dst` referred to keeps another referrer:
      `dst` is retargeted, the counts of the two objects move by one, and
      nothing is destroyed. */
  method AssignShared<V>(h: Heap<V>, dst: SlotId, src: SlotId)
    requires h.Valid() && h.Usable(dst) && h.Usable(src) && dst != src
    requires h.slots[dst].kind.variant != Fixed && CanConvert(h.slots[dst].kind, h.slots[src].kind)
    requires h.slots[dst].target.Some? ==> h.slots[dst].target.value < |h.cells| && h.cells[h.slots[dst].target.value].count != 1
    modifies h
    ensures h.Valid() && h.slots == old(h.slots)[dst := old(h.slots[dst]).(target := old(h.slots[src].target))]
    ensures h.cells == Drop(Bump(old(h.cells), old(h.slots[src].target)), old(h.slots[dst].target))
    ensures h.destructions == old(h.destructions)
  {
    ghost var deleted := h.Assign(dst, src);
  }

  /** A pointer variable of class `k` copy-constructed from the fixed
      temporary `tmp`, which is then destroyed: the variable takes over the
      temporary's reference, and no count changes. */
  method Adopt<V>(h: Heap<V>, tmp: SlotId, k: Kind) returns (p: SlotId)
    requires h.Valid() && h.Usable(tmp) && h.slots[tmp].owner.None? && h.slots[tmp].kind == FixedKind
    requires CanConvert(k, FixedKind)
    modifies h
    ensures h.Valid() && p == old(|h.slots|)
    ensures h.slots == old(h.slots)[tmp := Killed(old(h.slots[tmp]))] + [Slot(true, None, k, old(h.slots[tmp].target))]
    ensures h.cells == old(h.cells) && h.destructions == old(h.destructions)
  {
    assert h.IsNonNull(tmp) && h.cells[h.Get(tmp).value].count >= 1;
    p := h.Copy(tmp, k);
    DropShared(h, tmp);
  }

  /** `target_t p = make_refcounted<X>(args...)`: the free function returns a
      fixed pointer temporary, the plain pointer is copy-constructed from it,
      and the temporary is destroyed at the end of the full expression. The
      new object, with `n` null pointer members, ends up with exactly one
      pointer, `p`; nothing that existed changes. */
  method MakePlain<V>(h: Heap<V>, v: V, n: nat) returns (p: SlotId)
    requires h.Valid()
    modifies h
    ensures h.Valid() && Local(h, p, Some(old(|h.cells|))) && h.Unique(p)
    ensures |h.slots| == old(|h.slots|) + n + 2 && h.slots[..old(|h.slots|)] == old(h.slots)
    ensures forall s | old(|h.slots|) <= s < old(|h.slots|) + n ::
              h.slots[s] == Slot(true, Some(old(|h.cells|)), PlainKind, None)
    ensures h.cells == old(h.cells) + [NewCell(v, old(|h.slots|), n)]
    ensures h.destructions == old(h.destructions) + [0]
  {
    var tmp := h.Make(FixedKind, v, n);
    p := Adopt(h, tmp, PlainKind);
  }

  /** The start of `testBehaviour`: the static null `Nil`, `a` made from
      "aap", and the null `hold`. */
  method BehaviourStart() returns (h: Heap<string>, nilStatic: SlotId, a: SlotId, hold: SlotId)
    ensures fresh(h) && h.Valid()
    ensures Local(h, nilStatic, None) && Local(h, a, Some(0)) && Local(h, hold, None) && nilStatic != hold
    ensures h.cells == [Cell(1, "aap", [])] && h.destructions == [0]
  {
    h := new Heap<string>();
    nilStatic := h.NewNull(PlainKind);
    NoMembers(h.slots, |h.cells|, FixedKind, "aap");
    a := MakePlain(h, "aap", 0);
    hold := h.NewNull(PlainKind);
  }

  /** `target_t b = make_refcounted<Trackable>("noot"); target_t c =
      make_refcounted<Trackable>("mies");` at the start of the inner block. */
  method BehaviourMake(h: Heap<string>, nilStatic: SlotId, a: SlotId, hold: SlotId)
    returns (b: SlotId, c: SlotId)
    requires h.Valid()
    requires Local(h, nilStatic, None) && Local(h, a, Some(0)) && Local(h, hold, None) && nilStatic != hold
    requires h.cells == [Cell(1, "aap", [])] && h.destructions == [0]
    modifies h
    ensures h.Valid()
    ensures Local(h, nilStatic, None) && Local(h, a, Some(0)) && Local(h, hold, None) && nilStatic != hold
    ensures Local(h, b, Some(1)) && Local(h, c, Some(2))
    ensures h.cells == [Cell(1, "aap", []), Cell(1, "noot", []), Cell(1, "mies", [])]
    ensures h.destructions == [0, 0, 0]
  {
    NoMembers(h.slots, |h.cells|, FixedKind, "noot");
    b := MakePlain(h, "noot", 0);
    NoMembers(h.slots, |h.cells|, FixedKind, "mies");
    c := MakePlain(h, "mies", 0);
  }

  /** `target_t nil(Nil); target_t a2 = a;`: copies compare equal to their
      source, a copy of null refers to nothing, and "aap" gains a referrer. */
  method BehaviourCopies(h: Heap<string>, nilStatic: SlotId, a: SlotId)
    returns (nil: SlotId, a2: SlotId)
    requires h.Valid() && Local(h, nilStatic, None) && Local(h, a, Some(0))
    requires |h.cells| == 3 && h.cells[0] == Cell(1, "aap", [])
    modifies h
    ensures h.Valid() && nil == old(|h.slots|) && a2 == nil + 1
    ensures h.slots == old(h.slots) + [Slot(true, None, PlainKind, None), Slot(true, None, PlainKind, Some(0))]
    ensures h.Equal(a2, a) && !h.Equal(nil, a)
    ensures h.cells == old(h.cells)[0 := Cell(2, "aap", [])] && h.destructions == old(h.destructions)
  {
    nil := h.Copy(nilStatic, PlainKind);
    a2 := h.Copy(a, PlainKind);
  }

  /** `hold = b;`: "noot" now has two referrers. */
  method BehaviourHold(h: Heap<string>, hold: SlotId, b: SlotId)
    requires h.Valid()
    requires Local(h, hold, None) && Local(h, b, Some(1))
    requires |h.cells| == 3 && h.cells[1] == Cell(1, "noot", [])
    modifies h
    ensures h.Valid() && Local(h, hold, Some(1)) && Local(h, b, Some(1)) && b != hold
    ensures h.cells == old(h.cells)[1 := Cell(2, "noot", [])] && h.destructions == old(h.destructions)
    ensures h.slots == old(h.slots)[hold := Slot(true, None, PlainKind, Some(1))]
  {
    AssignShared(h, hold, b);
  }

  /** Leaving the inner block destroys `a2` and `nil` first: "aap" is back to
      one referrer. */
  method BehaviourDropCopies(h: Heap<string>, a: SlotId, nil: SlotId, a2: SlotId)
    requires h.Valid()
    requires Local(h, a, Some(0)) && Local(h, nil, None) && Local(h, a2, Some(0)) && a2 != a
    requires |h.cells| == 3 && h.cells[0] == Cell(2, "aap", [])
    modifies h
    ensures h.Valid() && Local(h, a, Some(0))
    ensures h.cells == old(h.cells)[0 := Cell(1, "aap", [])] && h.destructions == old(h.destructions)
    ensures h.slots == old(h.slots)[a2 := Killed(old(h.slots[a2]))][nil := Killed(old(h.slots[nil]))]
  {
    DropShared(h, a2);
    DropShared(h, nil);
  }

  /** Then `c` and `b`: "mies" is destroyed, since `c` was its only pointer;
      "noot" survives, since `hold` still refers to it. */
  method BehaviourDropMade(h: Heap<string>, b: SlotId, c: SlotId, hold: SlotId)
    requires h.Valid()
    requires Local(h, b, Some(1)) && Local(h, c, Some(2)) && Local(h, hold, Some(1)) && b != hold
    requires |h.cells| == 3 && h.cells[1] == Cell(2, "noot", []) && h.cells[2] == Cell(1, "mies", [])
    requires h.destructions == [0, 0, 0]
    modifies h
    ensures h.Valid()
    ensures h.cells == old(h.cells)[1 := Cell(1, "noot", [])] && h.destructions == [0, 0, 1]
    ensures h.slots == old(h.slots)[c := Killed(old(h.slots[c]))][b := Killed(old(h.slots[b]))]
  {
    DropLast(h, c);
    DropShared(h, b);
  }

  /** The inner block of `testBehaviour` up to its end: "noot" and "mies"
      are made, `a2 == a`, `nil != a`, nothing is destroyed yet, and `hold`
      is the second referrer of "noot". */
  method BehaviourOpen(h: Heap<string>, nilStatic: SlotId, a: SlotId, hold: SlotId)
    returns (b: SlotId, c: SlotId, nil: SlotId, a2: SlotId)
    requires h.Valid()
    requires Local(h, nilStatic, None) && Local(h, a, Some(0)) && Local(h, hold, None) && nilStatic != hold
    requires h.cells == [Cell(1, "aap", [])] && h.destructions == [0]
    modifies h
    ensures h.Valid()
    ensures Local(h, nilStatic, None) && Local(h, a, Some(0)) && Local(h, hold, Some(1)) && nilStatic != hold
    ensures Local(h, b, Some(1)) && Local(h, c, Some(2)) && Local(h, nil, None) && Local(h, a2, Some(0))
    ensures b != hold && a2 != a && nil != nilStatic
    ensures h.cells == [Cell(2, "aap", []), Cell(2, "noot", []), Cell(1, "mies", [])]
    ensures h.destructions == [0, 0, 0]
  {
    b, c := BehaviourMake(h, nilStatic, a, hold);
    nil, a2 := BehaviourCopies(h, nilStatic, a);
    BehaviourHold(h, hold, b);
  }

  /** Leaving the inner block destroys its four variables: "mies" is
      destroyed, "noot" survives since `hold` still refers to it. */
  method BehaviourClose(h: Heap<string>, nilStatic: SlotId, a: SlotId, hold: SlotId,
                        b: SlotId, c: SlotId, nil: SlotId, a2: SlotId)
    requires h.Valid()
    requires Local(h, nilStatic, None) && Local(h, a, Some(0)) && Local(h, hold, Some(1)) && nilStatic != hold
    requires Local(h, b, Some(1)) && Local(h, c, Some(2)) && Local(h, nil, None) && Local(h, a2, Some(0))
    requires b != hold && a2 != a && nil != nilStatic
    requires h.cells == [Cell(2, "aap", []), Cell(2, "noot", []), Cell(1, "mies", [])]
    requires h.destructions == [0, 0, 0]
    modifies h
    ensures h.Valid()
    ensures Local(h, nilStatic, None) && Local(h, a, Some(0)) && Local(h, hold, Some(1)) && nilStatic != hold
    ensures h.cells == [Cell(1, "aap", []), Cell(1, "noot", []), Cell(1, "mies", [])]
    ensures h.destructions == [0, 0, 1]
  {
    BehaviourDropCopies(h, a, nil, a2);
    BehaviourDropMade(h, b, c, hold);
  }

  /** `hold = Nil;` after the block: `hold` was the only referrer of "noot",
      which is destroyed now; "aap" is not. */
  method BehaviourRelease(h: Heap<string>, nilStatic: SlotId, a: SlotId, hold: SlotId)
    requires h.Valid()
    requires Local(h, nilStatic, None) && Local(h, a, Some(0)) && Local(h, hold, Some(1)) && nilStatic != hold
    requires h.cells == [Cell(1, "aap", []), Cell(1, "noot", []), Cell(1, "mies", [])]
    requires h.destructions == [0, 0, 1]
    modifies h
    ensures h.Valid() && Local(h, hold, None) && Local(h, a, Some(0))
    ensures |h.cells| == 3
    ensures h.cells[0].value == "aap" && h.cells[1].value == "noot" && h.cells[2].value == "mies"
    ensures h.destructions == [0, 1, 1]
  {
    assert h.Unique(hold);
    ghost var pa := h.slots[a];
    ghost var deleted := h.Assign(hold, nilStatic);
    assert Retired(pa, h.slots[a], old(h.destructions), h.destructions);
  }

  /** `testBehaviour`: objects "aap", "noot" and "mies" are each constructed
      once; leaving the inner block destroys "mies" but not "noot", still held
      by `hold`; `hold = Nil` then destroys "noot"; "aap", held by `a`
      throughout, is not destroyed before the test returns (leaving the test
      body, which destroys it, is not part of this scenario). */
  method TestBehaviour() returns (h: Heap<string>)
    ensures h.Valid()
    ensures |h.cells| == 3
    ensures h.cells[0].value == "aap" && h.cells[1].value == "noot" && h.cells[2].value == "mies"
    ensures h.destructions == [0, 1, 1]
  {
    var nilStatic, a, hold;
    h, nilStatic, a, hold := BehaviourStart();
    var b, c, nil, a2 := BehaviourOpen(h, nilStatic, a, hold);
    BehaviourClose(h, nilStatic, a, hold, b, c, nil, a2);
    BehaviourRelease(h, nilStatic, a, hold);
  }

  /** `TRefCountedPointer<Linked> node = make_refcounted<Linked>("parent");`
      on a fresh heap: the parent's `next` member is slot 0, and null. */
  method LinkedStart() returns (h: Heap<string>, node: SlotId)
    ensures fresh(h) && h.Valid()
    ensures Local(h, node, Some(0)) && h.IsNonNull(node) && h.Unique(node)
    ensures |h.slots| >= 1 && h.slots[0] == Slot(true, Some(0), PlainKind, None)
    ensures h.cells == [Cell(1, "parent", [0])] && h.destructions == [0]
  {
    h := new Heap<string>();
    node := MakePlain(h, "parent", 1);
    assert h.cells[0].members == [0];
  }

  /** `node->next = make_refcounted<Linked>("child");`: the fixed temporary
      is assigned to the member and then destroyed, so the child's only
      referrer is the parent's member. Nothing is destroyed. */
  method LinkedNext(h: Heap<string>, node: SlotId) returns (m1: SlotId)
    requires h.Valid() && Local(h, node, Some(0))
    requires |h.slots| >= 1 && h.slots[0] == Slot(true, Some(0), PlainKind, None)
    requires h.cells == [Cell(1, "parent", [0])] && h.destructions == [0]
    modifies h
    ensures h.Valid() && Local(h, node, Some(0))
    ensures h.slots[0] == Slot(true, Some(0), PlainKind, Some(1))
    ensures m1 < |h.slots| && h.slots[m1] == Slot(true, Some(1), PlainKind, None)
    ensures h.cells == [Cell(1, "parent", [0]), Cell(1, "child", [m1])] && h.destructions == [0, 0]
  {
    m1 := |h.slots|;
    var tmp := h.Make(FixedKind, "child", 1);
    assert h.cells[1].members == [m1];
    assert h.cells == [Cell(1, "parent", [0]), Cell(1, "child", [m1])];
    AssignShared(h, 0, tmp);
    assert h.cells == [Cell(1, "parent", [0]), Cell(2, "child", [m1])];
    DropShared(h, tmp);
  }

  /** The first `node = node->next;`: the child gains `node` before the
      parent loses it; the parent is destroyed, its member with it, and
      `node` becomes the child's only referrer. */
  method LinkedAdvance(h: Heap<string>, node: SlotId, m1: SlotId)
    requires h.Valid() && Local(h, node, Some(0))
    requires h.slots[0] == Slot(true, Some(0), PlainKind, Some(1))
    requires m1 < |h.slots| && h.slots[m1] == Slot(true, Some(1), PlainKind, None)
    requires h.cells == [Cell(1, "parent", [0]), Cell(1, "child", [m1])] && h.destructions == [0, 0]
    modifies h
    ensures h.Valid() && Local(h, node, Some(1)) && h.IsNonNull(node) && h.Unique(node)
    ensures m1 < |h.slots| && h.slots[m1] == Slot(true, Some(1), PlainKind, None)
    ensures |h.cells| == 2 && h.cells[1].members == [m1] && h.destructions == [1, 0]
    ensures h.cells[0].value == "parent" && h.cells[1].value == "child"
  {
    assert h.Unique(0);
    ghost var deleted := h.Assign(node, 0);
  }

  /** The second `node = node->next;`: `node` becomes null and the child,
      which it alone referred to, is destroyed. */
  method LinkedEnd(h: Heap<string>, node: SlotId, m1: SlotId)
    requires h.Valid() && Local(h, node, Some(1)) && h.Unique(node)
    requires m1 < |h.slots| && h.slots[m1] == Slot(true, Some(1), PlainKind, None)
    requires |h.cells| == 2 && h.cells[1].members == [m1] && h.destructions == [1, 0]
    requires h.cells[0].value == "parent" && h.cells[1].value == "child"
    modifies h
    ensures h.Valid() && Local(h, node, None) && !h.IsNonNull(node)
    ensures h.destructions == [1, 1]
    ensures |h.cells| == 2 && h.cells[0].value == "parent" && h.cells[1].value == "child"
  {
    ghost var deleted := h.Assign(node, m1);
  }

  /** `testLinked`: two objects are constructed; the first `node = node->next`
      destroys the parent only, the second destroys the child. */
  method TestLinked() returns (h: Heap<string>)
    ensures h.Valid() && |h.cells| == 2
    ensures h.cells[0].value == "parent" && h.cells[1].value == "child"
    ensures h.destructions == [1, 1]
  {
    var node;
    h, node := LinkedStart();
    var m1 := LinkedNext(h, node);
    LinkedAdvance(h, node, m1);
    LinkedEnd(h, node, m1);
  }

  /** `test1` up to `A_refcounted_ptr1 = mse::make_refcounted<A>();`: a null
      plain pointer is assigned the fixed temporary, which is then destroyed.
      The object `A` is modelled by its member `b`, initialised to 3. */
  method Test1Start() returns (h: Heap<int>, p1: SlotId)
    ensures fresh(h) && h.Valid() && Local(h, p1, Some(0))
    ensures h.cells == [Cell(1, 3, [])] && h.destructions == [0]
  {
    h := new Heap<int>();
    p1 := h.NewNull(PlainKind);
    NoMembers(h.slots, |h.cells|, FixedKind, 3);
    var tmp := h.Make(FixedKind, 3, 0);
    AssignShared(h, p1, tmp);
    DropShared(h, tmp);
  }

  /** `A_refcounted_ptr2 = A_refcounted_ptr1; A_refcounted_ptr2 = nullptr;`
      and the dereference of `A_refcounted_ptr2` that throws
      `std::out_of_range`, while `A_refcounted_ptr1` still reads 3. */
  method Test1Null(h: Heap<int>, p1: SlotId) returns (p2: SlotId, r: Result<int>)
    requires h.Valid() && Local(h, p1, Some(0))
    requires h.cells == [Cell(1, 3, [])] && h.destructions == [0]
    modifies h
    ensures h.Valid() && Local(h, p1, Some(0)) && Local(h, p2, None) && p2 != p1
    ensures r == Err(OutOfRange)
    ensures h.cells == [Cell(1, 3, [])] && h.destructions == [0]
  {
    var v := h.Deref(p1);
    assert v == Ok(3);
    p2 := h.Copy(p1, PlainKind);
    ghost var deleted := h.Clear(p2);
    r := h.Deref(p2);
  }

  /** `if (A_refcounted_ptr2) {} else if (A_refcounted_ptr2 !=
      A_refcounted_ptr1) { A_refcounted_ptr2 = A_refcounted_ptr1; }`: the
      pointer is null and differs, so the last branch runs and the two
      compare equal afterwards. */
  method Test1Reassign(h: Heap<int>, p1: SlotId, p2: SlotId)
    requires h.Valid() && Local(h, p1, Some(0)) && Local(h, p2, None) && p2 != p1
    requires h.cells == [Cell(1, 3, [])] && h.destructions == [0]
    modifies h
    ensures h.Valid() && Local(h, p1, Some(0)) && Local(h, p2, Some(0)) && h.Equal(p2, p1)
    ensures h.cells == [Cell(2, 3, [])] && h.destructions == [0]
  {
    assert !h.IsNonNull(p2) && !h.Equal(p2, p1);
    AssignShared(h, p2, p1);
  }

  /** `TRefCountedConstPointer<A> rcp = A_refcounted_ptr1; ... rcp2 = rcp;`:
      const pointers share the count of the object they refer to. */
  method Test1Const(h: Heap<int>, p1: SlotId, p2: SlotId) returns (rcp: SlotId, rcp2: SlotId)
    requires h.Valid() && Local(h, p1, Some(0)) && Local(h, p2, Some(0)) && p2 != p1
    requires h.cells == [Cell(2, 3, [])] && h.destructions == [0]
    modifies h
    ensures h.Valid() && Local(h, p1, Some(0)) && Local(h, p2, Some(0)) && p2 != p1
    ensures LocalOf(h, rcp, ConstKind, Some(0)) && LocalOf(h, rcp2, ConstKind, Some(0)) && rcp != rcp2
    ensures h.Equal(rcp, p1) && h.Equal(rcp2, rcp)
    ensures h.cells == [Cell(4, 3, [])] && h.destructions == [0]
  {
    rcp := h.Copy(p1, ConstKind);
    rcp2 := h.Copy(rcp, ConstKind);
  }

  /** `rcp = mse::make_refcounted<A>();`: a const pointer is retargeted to a
      new object, so the first object loses one referrer. */
  method Test1ConstMake(h: Heap<int>, rcp: SlotId)
    requires h.Valid() && LocalOf(h, rcp, ConstKind, Some(0))
    requires h.cells == [Cell(4, 3, [])] && h.destructions == [0]
    modifies h
    ensures h.Valid() && LocalOf(h, rcp, ConstKind, Some(1))
    ensures h.cells == [Cell(3, 3, []), Cell(1, 3, [])] && h.destructions == [0, 0]
    ensures h.slots == old(h.slots)[rcp := Slot(true, None, ConstKind, Some(1))] + [Slot(false, None, FixedKind, None)]
  {
    NoMembers(h.slots, |h.cells|, FixedKind, 3);
    var tmp := h.Make(FixedKind, 3, 0);
    assert h.cells == [Cell(4, 3, []), Cell(1, 3, [])];
    AssignShared(h, rcp, tmp);
    assert h.cells == [Cell(3, 3, []), Cell(2, 3, [])];
    DropShared(h, tmp);
  }

  /** `TRefCountedFixedConstPointer<A> rfcp = mse::make_refcounted<A>();` and
      its dereference, which yields the new object's 3. */
  method Test1FixedConst(h: Heap<int>) returns (rfcp: SlotId, r: Result<int>)
    requires h.Valid()
    modifies h
    ensures h.Valid() && LocalOf(h, rfcp, FixedConstKind, Some(old(|h.cells|)))
    ensures h.slots == old(h.slots) + [Slot(false, None, FixedKind, None), Slot(true, None, FixedConstKind, Some(old(|h.cells|)))]
    ensures h.cells == old(h.cells) + [Cell(1, 3, [])] && h.destructions == old(h.destructions) + [0]
    ensures r == Ok(3)
  {
    NoMembers(h.slots, |h.cells|, FixedKind, 3);
    var tmp := h.Make(FixedKind, 3, 0);
    rfcp := Adopt(h, tmp, FixedConstKind);
    r := h.Deref(rfcp);
  }

  /** The block of `test1` up to its end: `A_refcounted_ptr2` ends up equal
      to `A_refcounted_ptr1`, `rcp2` shares the first object, and `rcp` and
      `rfcp` each hold a new object of their own. */
  method Test1Open(h: Heap<int>, p1: SlotId) returns (p2: SlotId, rcp: SlotId, rcp2: SlotId, r: Result<int>)
    requires h.Valid() && Local(h, p1, Some(0))
    requires h.cells == [Cell(1, 3, [])] && h.destructions == [0]
    modifies h
    ensures h.Valid() && Local(h, p1, Some(0)) && Local(h, p2, Some(0)) && p2 != p1
    ensures LocalOf(h, rcp, ConstKind, Some(1)) && LocalOf(h, rcp2, ConstKind, Some(0))
    ensures r == Err(OutOfRange)
    ensures h.cells == [Cell(3, 3, []), Cell(1, 3, [])] && h.destructions == [0, 0]
  {
    p2, r := Test1Null(h, p1);
    Test1Reassign(h, p1, p2);
    rcp, rcp2 := Test1Const(h, p1, p2);
    Test1ConstMake(h, rcp);
  }

  /** Leaving the block of `test1` destroys `rfcp` first, the only referrer
      of its object, and then `rcp2`. */
  method Test1DropConst(h: Heap<int>, rcp2: SlotId, rfcp: SlotId)
    requires h.Valid() && LocalOf(h, rcp2, ConstKind, Some(0)) && LocalOf(h, rfcp, FixedConstKind, Some(2))
    requires |h.cells| == 3 && h.cells[0] == Cell(3, 3, []) && h.cells[2] == Cell(1, 3, [])
    requires h.destructions == [0, 0, 0]
    modifies h
    ensures h.Valid()
    ensures h.slots == old(h.slots)[rfcp := Killed(old(h.slots[rfcp]))][rcp2 := Killed(old(h.slots[rcp2]))]
    ensures h.cells == old(h.cells)[0 := Cell(2, 3, [])] && h.destructions == [0, 0, 1]
  {
    DropLast(h, rfcp);
    DropShared(h, rcp2);
  }

  /** Then `rcp`, the only referrer of the object made for it, and
      `A_refcounted_ptr2`. */
  method Test1DropRest(h: Heap<int>, p2: SlotId, rcp: SlotId)
    requires h.Valid() && Local(h, p2, Some(0)) && LocalOf(h, rcp, ConstKind, Some(1))
    requires |h.cells| == 3 && h.cells[0] == Cell(2, 3, []) && h.cells[1] == Cell(1, 3, [])
    requires h.destructions == [0, 0, 1]
    modifies h
    ensures h.Valid()
    ensures h.slots == old(h.slots)[rcp := Killed(old(h.slots[rcp]))][p2 := Killed(old(h.slots[p2]))]
    ensures h.cells == old(h.cells)[0 := Cell(1, 3, [])] && h.destructions == [0, 1, 1]
  {
    DropLast(h, rcp);
    DropShared(h, p2);
  }

  /** Leaving the block of `test1` destroys `rfcp`, `rcp2`, `rcp` and
      `A_refcounted_ptr2`, in reverse order of declaration: both objects made
      inside the block are destroyed, the first object is not. */
  method Test1Close(h: Heap<int>, p1: SlotId, p2: SlotId, rcp: SlotId, rcp2: SlotId, rfcp: SlotId)
    requires h.Valid() && Local(h, p1, Some(0)) && Local(h, p2, Some(0)) && p2 != p1
    requires LocalOf(h, rcp, ConstKind, Some(1)) && LocalOf(h, rcp2, ConstKind, Some(0))
    requires LocalOf(h, rfcp, FixedConstKind, Some(2))
    requires h.cells == [Cell(3, 3, []), Cell(1, 3, []), Cell(1, 3, [])] && h.destructions == [0, 0, 0]
    modifies h
    ensures h.Valid() && Local(h, p1, Some(0))
    ensures h.cells == [Cell(1, 3, []), Cell(1, 3, []), Cell(1, 3, [])] && h.destructions == [0, 1, 1]
  {
    Test1DropConst(h, rcp2, rfcp);
    Test1DropRest(h, p2, rcp);
  }

  /** `test1`: a null dereference throws, the first object survives the
      block and still reads 3 through `A_refcounted_ptr1` after it, and the
      two objects made inside the block are destroyed with it. */
  method Test1() returns (h: Heap<int>, thrown: Result<int>, last: Result<int>)
    ensures h.Valid() && thrown == Err(OutOfRange) && last == Ok(3)
    ensures h.destructions == [0, 1, 1]
  {
    var p1;
    h, p1 := Test1Start();
    var p2, rcp, rcp2;
    p2, rcp, rcp2, thrown := Test1Open(h, p1);
    var rfcp, inner := Test1FixedConst(h);
    Test1Close(h, p1, p2, rcp, rcp2, rfcp);
    last := h.Deref(p1);
  }

  /** `clear()` on the fixed pointer that `make_refcounted` returns, which
      compiles because `clear` is a public member of `TRefCountedPointer`:
      memory stays consistent, but a live fixed pointer is now null, which
      the not-null and fixed classes exist to rule out. */
  method ClearFixedAsWritten() returns (h: Heap<int>, p: SlotId)
    ensures h.Structure() && h.Balanced(multiset{}) && !h.WrappersHold()
    ensures p < |h.slots| && h.slots[p] == Slot(true, None, FixedKind, None)
  {
    h := new Heap<int>();
    p := h.Make(FixedKind, 0, 0);
    ghost var deleted := h.ClearAsWritten(p);
  }
}
