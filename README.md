# Intrusive reference-counted pointers of `mserefcounted.h`

This project models the single-threaded reference-counted owning pointers of
SaferCPlusPlus (`mserefcounted.h`) and proves what their operations do to
reference counts, object lifetimes and the pointers themselves.

What is modelled:

- A `TRefWithTargetObj<Y>` allocation holds a `CRefCounter` that starts at 1,
  the object, and the object's own pointer members. In the model it is a
  *cell*: `Types.Cell`.
- Every pointer object is a *slot*: `Types.Slot`. This covers local
  variables, temporaries and pointer members inside counted objects. A slot
  records whether it still exists, which object (if any) it is a member of,
  its class, and the cell it refers to.
- `RefCounted.Heap` is the memory of one thread. It holds the cells, the
  slots and a ghost record of how many times each object has been
  destroyed. Its methods are the pointer operations and update this state
  in place:
  - construction, copy and converting copy;
  - `operator=` with its `auto_release`;
  - `clear`, the destructor, and `make_refcounted`;
  - `acquire`, `release` and `dorelease`, including the destructor cascade
    that `delete` runs through an object's pointer members.
- The queries are `get`, `operator bool`, `unique`, `==` and the checked and
  unchecked dereferences.
- The pointer classes are `Types.Kind`: plain, not-null or fixed, each const
  or not. A const pointer wraps a plain `TRefCountedPointer` and forwards every
  operation to it, so it is the same slot with a flag. `Types.CanConvert`
  holds the constructors and assignments the classes expose.
- `Memory` states the invariants as predicates on plain sequences, with one
  preservation lemma per elementary step:
  - `StructureOf`: no dangling pointer, a destroyed pointer is null, and the
    members of a destroyed object are destroyed.
  - `BalancedOf`: a live object's count equals the number of pointers that
    refer to it, and is at least 1.
  - `WrappersOf`: a not-null or fixed pointer that exists is never null.
- Every release also returns, as a ghost result, the objects it destroyed, in
  the order their `delete` started. Before the release, each of them was
  referred to only by the released pointer or by pointer members of objects
  earlier in that order (`Memory.DeletedInOrder`). Together with the counting
  invariant, this means a cascade destroys exactly the objects that the
  released reference alone kept alive.
- `Scenarios` replays `testBehaviour`, `testLinked` and `test1`. A test
  object's construction is the allocation of its cell. Its destruction is
  the ghost `destructions` entry, which is recorded after its pointer members
  are released, as `~Trackable` runs after the members of `Linked`.

## Model

| member | source | states |
|---|---|---|
| Counting.RefsUpdate | mserefcounted.h:152-155 | retargeting one pointer moves exactly one reference from its old target to its new one; no other object's number of referrers changes |
| Counting.RefsConcat | mserefcounted.h:72-73 | adding pointer objects adds exactly their references |
| Counting.RefsZero | mserefcounted.h:167-178 | an object has no referrers exactly when no pointer refers to it |
| Counting.RefsSole | mserefcounted.h:136-138 | a pointer that refers to an object is its only referrer exactly when the object has one referrer |
| Counting.HeldUpdate | mserefcounted.h:167-178 | destroying or retargeting one pointer changes the number of non-null pointers only by that pointer's own change (the measure that makes the destructor cascade finite) |
| Memory.Bump | mserefcounted.h:49 | `increment` changes no cell except the target, and a decrement of the same target undoes it exactly |
| Memory.RetargetKeeps | mserefcounted.h:152-155 | `acquire` on an object that exists keeps memory consistent, and the old target becomes a release still owed |
| Memory.KillKeeps | mserefcounted.h:157-159 | destroying a pointer keeps memory consistent, its target becomes a release still owed, one fewer pointer is non-null if it had a target, and the not-null invariant is kept |
| Memory.DecrementKeeps | mserefcounted.h:50 | a count that is not 1 and still owes a release is at least 2, so `decrement`'s assert holds, the count stays at least 1, and memory stays consistent |
| Memory.DestroyKeeps | mserefcounted.h:170-172 | once no pointer refers to the object and its members are destroyed, recording its destruction keeps memory consistent |
| Memory.AppendNullKeeps | mserefcounted.h:72-73 | a new null pointer keeps memory consistent, and a new null plain pointer keeps the not-null invariant |
| Memory.AllocatedRefs | mserefcounted.h:148-150 | the private constructor adds exactly one reference, to the new object, without incrementing |
| Memory.AllocateStructure | mserefcounted.h:140-145 | the shape of memory survives allocation |
| Memory.AllocateKeeps | mserefcounted.h:140-150 | allocation keeps all three invariants |
| Memory.RetiredStep | mserefcounted.h:167-178 | two steps of a destructor cascade compose |
| Memory.RetiredKeeps | mserefcounted.h:219-239 | pointers that kept their state or were destroyed keep the not-null invariant, and no fixed pointer was retargeted |
| Memory.CascadeStart | mserefcounted.h:170-172 | when `delete` starts, no pointer refers to the object |
| Memory.RetiredThrough | mserefcounted.h:170-172 | each pointer's fate composes across one member's release |
| Memory.CascadeStep | mserefcounted.h:170-172 | destroying and releasing one more member keeps the cascade's invariant, and the objects that release deleted extend the deletion order |
| Memory.CascadeDone | mserefcounted.h:170-172 | after the last member, the object is destroyed once, memory is consistent, every other pointer kept its state or died with a destroyed object, and exactly the object and those deleted during its delete were destroyed, in a deletion order that starts with it |
| Memory.EvolvedRefl | mserefcounted.h:169 | memory that did not change has evolved from itself: no object or pointer appeared, every pointer kept its state, nothing more was destroyed (the frame fact for a release that does nothing) |
| Memory.EvolvedExcept | mserefcounted.h:82-87 | the assigned pointer gets its new target and every other pointer kept its state or died with a destroyed object |
| Memory.EvolvedKeeps | mserefcounted.h:186-239 | a change to one pointer `p` that leaves no live not-null or fixed pointer null keeps the not-null invariant; if `p` is fixed and keeps its target, no fixed pointer moves |
| Memory.RetargetFate | mserefcounted.h:161-178 | after `acquire` then `auto_release`, the old target is destroyed if it was not the new target and had count 1; otherwise the state is exactly one retarget plus one increment and one decrement |
| Memory.CycleKept | mserefcounted.h:167-178 | objects each referred to by a pointer member of one of them (two objects that refer to each other, or any longer cycle) are in no deletion order unless one of those members is the released pointer: releasing any other pointer never destroys them, the cycle leaks |
| Memory.CycleAbsent | mserefcounted.h:167-178 | the same for the first `k` entries of a deletion order, by induction on `k` |
| Memory.Rooted | mserefcounted.h:74-76 | a deletion order found after the released pointer was set or destroyed is one rooted at that pointer in the memory before |
| Memory.OrderStep | mserefcounted.h:170-172 | the objects a member's release deleted, appended to those deleted before, still form a deletion order from the start of the enclosing `delete`, and are exactly the objects destroyed |
| Memory.OrderEntry | mserefcounted.h:170-172 | a pointer that referred to an object of the extended order was a member of the deleted object or of an object before it in the order |
| RefCounted.Heap.Get | mserefcounted.h:135 | `get()` is null exactly for a null pointer; otherwise the object exists and its count is at least 1 |
| RefCounted.Heap.IsNonNull | mserefcounted.h:80 | `operator bool` is true exactly when the pointer has a target, and always for a not-null or fixed pointer |
| RefCounted.Heap.Unique | mserefcounted.h:136-138 | `unique()` is true for null, and otherwise true exactly when no other pointer refers to the same object |
| RefCounted.Heap.Equal | mserefcounted.h:92-97 | `==` holds exactly when both refer to the same object or both are null; two distinct equal non-null pointers are both not unique |
| RefCounted.Heap.Deref | mserefcounted.h:127-134 | dereferencing throws `out_of_range` exactly for a null pointer; otherwise it yields the object, which exists |
| RefCounted.Heap.DerefNotNull | mserefcounted.h:195-202 | the unchecked dereference of a not-null or fixed pointer always finds an object that exists |
| RefCounted.Heap.Acquire | mserefcounted.h:152-155 | the pointer is retargeted, the new target's count goes up by exactly one, and the old reference is still owed |
| RefCounted.Heap.DoRelease | mserefcounted.h:167-178 | null changes nothing; a count of 1 destroys the object exactly once; any other count is decremented and nothing else changes; the objects destroyed are exactly a deletion order in which each was referred to only by members of objects before it |
| RefCounted.Heap.Decrement | mserefcounted.h:50 | only the count of `c` drops by one |
| RefCounted.Heap.Delete | mserefcounted.h:170-172 | the object whose count is 1 is destroyed exactly once and heads the deletion order; exactly the objects in that order are destroyed, each referred to only by members of objects before it; memory stays consistent, and every pointer kept its state or died with a destroyed object |
| RefCounted.Heap.DestroyMembers | mserefcounted.h:170-172 | every pointer member of the deleted object is destroyed and released; the objects destroyed meanwhile are exactly a deletion order in which each was referred to only by members of the object or of objects before it |
| RefCounted.Heap.DestroyMember | mserefcounted.h:74-76 | one member's destructor releases its target; the objects that release destroys join the deletion order, and the cascade's invariant is kept |
| RefCounted.Heap.Retarget | mserefcounted.h:82-87 | the new target is acquired before the old one is released; the old target is destroyed exactly when it had count 1 and differs from the new one, and otherwise the new state is exact; the objects destroyed are exactly a deletion order in which each was referred to, before the call, only by `p` or by members of objects before it |
| RefCounted.Heap.Assign | mserefcounted.h:82-87 | self-assignment and assignment of the same target change nothing; otherwise the target moves and the old one is released, and the objects destroyed form a deletion order rooted at `dst`; the wrapper invariants hold and no fixed pointer moves |
| RefCounted.Heap.Clear | mserefcounted.h:81 | the pointer becomes null and its old target is released, destroyed exactly when its count was 1 and otherwise decremented; the objects destroyed form a deletion order rooted at the pointer; the wrapper invariants hold |
| RefCounted.Heap.ClearAsWritten | mserefcounted.h:81 | `clear()` on any class nulls the pointer; the old target is destroyed exactly when its count was 1 and otherwise decremented, and the objects destroyed form a deletion order rooted at the pointer; counts stay consistent, but the not-null invariant is not kept |
| RefCounted.Heap.Destroy | mserefcounted.h:74-76 | the destructor releases the target: destroyed when it was the only pointer, otherwise decremented, and nothing else changes; the objects destroyed form a deletion order rooted at the pointer |
| RefCounted.Heap.Make | mserefcounted.h:140-150 | `make_refcounted` gives a fresh object with count 1 whose single pointer is unique; nothing that existed changes |
| RefCounted.Heap.NewNull | mserefcounted.h:72-73 | the default and `nullptr` constructors give a null pointer that is unique and changes no count |
| RefCounted.Heap.Copy | mserefcounted.h:77-79 | a copy refers to the same object and compares equal; a non-null target gains exactly one count and neither pointer is unique; copying null changes no count |
| Scenarios.MakePlain | mserefcounted.h:242-244 | `target_t p = make_refcounted(...)` leaves a fresh object with count 1 and `p` as its unique pointer |
| Scenarios.Adopt | mserefcounted.h:242-244 | copying from the fixed temporary and destroying it leaves all counts as they were |
| Scenarios.BehaviourStart | mserefcounted.h:391-410 | "aap" is constructed once and nothing is destroyed |
| Scenarios.BehaviourMake | mserefcounted.h:412-413 | "noot" and "mies" are constructed, each with one referrer |
| Scenarios.BehaviourCopies | mserefcounted.h:414-418 | `a2 == a`, `nil != a`, and "aap" gains a referrer |
| Scenarios.BehaviourHold | mserefcounted.h:429 | `hold = b` gives "noot" a second referrer |
| Scenarios.BehaviourDropCopies | mserefcounted.h:430 | leaving the block destroys `a2` and `nil` without destroying "aap" |
| Scenarios.BehaviourDropMade | mserefcounted.h:430-436 | destroying `c` destroys "mies"; destroying `b` leaves "noot" alive |
| Scenarios.BehaviourOpen | mserefcounted.h:412-429 | inside the block nothing is destroyed and the counts are 2, 2 and 1 |
| Scenarios.BehaviourClose | mserefcounted.h:430-436 | after the block only "mies" is destroyed |
| Scenarios.BehaviourRelease | mserefcounted.h:438-443 | `hold = Nil` destroys "noot" and not "aap" |
| Scenarios.TestBehaviour | mserefcounted.h:389-447 | each object is constructed once; "noot" and "mies" are destroyed once and "aap" is not destroyed before the test returns (leaving the function body is not replayed) |
| Scenarios.LinkedStart | mserefcounted.h:464-465 | `node` is non-null and unique; the parent's `next` is null |
| Scenarios.LinkedNext | mserefcounted.h:466-469 | two objects exist, none destroyed, and the child's only referrer is the parent's `next` |
| Scenarios.LinkedAdvance | mserefcounted.h:471-475 | `node = node->next` destroys exactly the parent and leaves `node` the unique pointer to the child |
| Scenarios.LinkedEnd | mserefcounted.h:477-481 | the second `node = node->next` makes `node` null and destroys the child |
| Scenarios.TestLinked | mserefcounted.h:455-484 | both objects end up destroyed exactly once |
| Scenarios.Test1Start | mserefcounted.h:508-514 | assigning `make_refcounted` to a null pointer leaves one object with count 1 |
| Scenarios.Test1Null | mserefcounted.h:517-528 | copying the pointer and assigning `nullptr` to the copy leaves the count at 1, and dereferencing the null copy throws `out_of_range` |
| Scenarios.Test1Reassign | mserefcounted.h:532-537 | the null pointer differs from the other one, and after assignment they compare equal |
| Scenarios.Test1Const | mserefcounted.h:539-540 | const pointers share the count of the object they refer to and compare equal |
| Scenarios.Test1ConstMake | mserefcounted.h:541 | retargeting a const pointer to a new object drops one count of the old one |
| Scenarios.Test1FixedConst | mserefcounted.h:542-545 | a fixed const pointer from `make_refcounted` dereferences to the new object |
| Scenarios.Test1Open | mserefcounted.h:517-541 | the block's pointer operations leave the counts at 3 and 1 with nothing destroyed |
| Scenarios.Test1DropConst | mserefcounted.h:546 | destroying `rfcp` destroys its object; destroying `rcp2` only decrements |
| Scenarios.Test1DropRest | mserefcounted.h:546 | destroying `rcp` destroys its object; destroying `A_refcounted_ptr2` only decrements |
| Scenarios.Test1Close | mserefcounted.h:546 | leaving the block destroys both objects made in it, not the first, whose count is back to 1 |
| Scenarios.Test1 | mserefcounted.h:486-549 | the null dereference throws, the two objects made in the block are destroyed, and after it the first object still exists and reads 3 |
| Scenarios.ClearFixedAsWritten | mserefcounted.h:81 | `clear()` on a fixed pointer leaves a live fixed pointer that is null |

## Left out

- `mseasyncshared.h` is not part of this model. It layers cross-thread locking over `std::shared_ptr` and the standard mutexes, which cannot be seen here.
- The build option that makes these classes aliases of `std::shared_ptr` (mserefcounted.h:28-36) adds no logic of its own.
- `operator<` compares raw addresses, which the model does not have.
- The private `operator&` overloads and the `explicit operator _Ty*` casts are not modelled. They are type-system devices.
- The `template <class Y>` cross-type constructors and assignments are modelled only as the same-type operations. They behave identically on the count.
- Whether a dereference returns a const or a mutable reference is not modelled.
- Real deallocation is replaced by the ghost `destructions` record. Non-pointer parts of an object's destructor are not modelled.
- A counted object's pointer members are null plain pointers when it is made, as in `Linked`. Other member classes and initial targets are not modelled.
- Pointer objects are never reclaimed: a destroyed slot stays in the sequence, marked as no longer existing.
- A cycle of objects that refer to each other leaks, as in the source: `Memory.CycleKept` shows that releasing a pointer other than the members that close the cycle never destroys its objects. Releasing one of those members can destroy the whole cycle, in the source as in the model. The model does not track which objects have become unreachable.
- The null temporary that `clear()` assigns from is not materialised. Constructing and destroying it changes no count.
- The test harness's `std::map` bookkeeping, where `operator[]` inserts zero entries, is not modelled. Neither are the `size()` checks that depend on it. The tests' `B::foo1` native-pointer call is not modelled either.
- RefCounted.Heap.Acquire: counts are unbounded integers; the `int` overflow of `m_counter` after 2^31 - 1 copies is not modelled.
- RefCounted.Heap.DoRelease: when the released object has pointer members, the new counts are not given as a formula. They follow from the invariant that each live object's count is its number of referrers, over the pointers that remain. The counts of destroyed objects are left unspecified, because their counter is freed.
- RefCounted.Heap.Delete: as for `DoRelease`, the counts after a cascade follow from the invariant rather than from a formula.
- RefCounted.Heap.DestroyMembers: as for `Delete`, the counts after a cascade follow from the invariant rather than from a formula.
- RefCounted.Heap.DestroyMember: the nested release's counts follow from the invariant rather than from a formula.
- RefCounted.Heap.Retarget: when the old target is destroyed and has pointer members, the counts follow from the invariant rather than from a formula.
- RefCounted.Heap.Destroy: the counts after a cascade follow from the invariant rather than from a formula.
- RefCounted.Heap.Assign: the counts after a cascade follow from the invariant rather than from a formula.
- RefCounted.Heap.Clear: the counts after a cascade follow from the invariant rather than from a formula.
- RefCounted.Heap.ClearAsWritten: the counts after a cascade follow from the invariant rather than from a formula.
- RefCounted.Heap.DerefNotNull: it holds in the corrected design, where only plain pointers can be cleared, so not-null and fixed pointers are never null. As written, `clear()` (mserefcounted.h:81, 258) can null such a pointer. The non-const classes' `operator*` (mserefcounted.h:195-202) then reads through null unchecked. The const not-null and fixed classes forward to the checked base dereference (mserefcounted.h:322-325, 353-354 to 127-128) and throw `out_of_range`. The model describes neither behaviour after such a clear.

## Findings

| source | as written | input that shows it | evidently intended | confidence | as-written member | corrected member |
|---|---|---|---|---|---|---|
| mserefcounted.h:81 | `clear()` is a public member of `TRefCountedPointer`, and likewise of `TRefCountedConstPointer` at line 258. `TRefCountedNotNullPointer` and `TRefCountedFixedPointer` (and their const counterparts) inherit it publicly. It assigns null through the base `operator=`. | `clear()` on the fixed pointer that `make_refcounted` returns, replayed in `Scenarios.ClearFixedAsWritten`. A live fixed pointer is then null, and `TRefCountedNotNullPointer::operator*` (line 195) dereferences it without a check. | `clear()` is available only on plain pointers, so that not-null and fixed pointers are never null | not executed | RefCounted.Heap.ClearAsWritten | RefCounted.Heap.Clear |
