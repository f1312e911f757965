/** Values shared by the model of the intrusive reference-counted pointers:
    identities of heap cells and of pointer objects, pointer kinds, and the
    error raised by a checked dereference. */
module Types {

  /** Identity of a `TRefWithTargetObj` allocation (the counter plus the object). */
  type CellId = nat

  /** Identity of one pointer object, wherever it lives (a local variable,
      a temporary, or a pointer member inside a counted object). */
  type SlotId = nat

  datatype Option<T> = None | Some(value: T)

  /** The three pointer classes: `TRefCountedPointer`, `TRefCountedNotNullPointer`
      and `TRefCountedFixedPointer`. */
  datatype Variant = Plain | NotNull | Fixed

  /** A pointer class together with its const-ness: `isConst` selects the
      `TRefCountedConstPointer` family, whose every class wraps a plain
      `TRefCountedPointer` and forwards to it. */
  datatype Kind = Kind(variant: Variant, isConst: bool)

  /** One pointer object. `live` is false once it has been destroyed; `owner` is
      `Some(c)` when the pointer is a data member of the object held in cell `c`;
      `target` is the cell it refers to, `None` for a null pointer. */
  datatype Slot = Slot(live: bool, owner: Option<CellId>, kind: Kind, target: Option<CellId>)

  /** One `TRefWithTargetObj`: the `CRefCounter` count, the object, and the
      pointer members of that object (as slot ids). */
  datatype Cell<V> = Cell(count: int, value: V, members: seq<SlotId>)

  /** `std::out_of_range`, thrown when a null pointer is dereferenced. */
  datatype Error = OutOfRange

  datatype Result<T> = Ok(value: T) | Err(error: Error)

  /** The kind of the pointer members of counted objects and of local
      `TRefCountedPointer` variables. */
  const PlainKind := Kind(Plain, false)

  /** Whether a pointer of kind `to` may be constructed or assigned from one of
      kind `from`: const may be added but never removed; a not-null pointer only
      comes from a not-null or fixed one; a fixed pointer only from a fixed one. */
  predicate CanConvert(to: Kind, from: Kind)
  {
    && (to.isConst || !from.isConst)
    && match to.variant
       case Plain => true
       case NotNull => from.variant != Plain
       case Fixed => from.variant == Fixed
  }
}
