/** The queries and rewrites of `ModifierSlot` in `src/slot.rs` that do not
    involve the editor: what a slot holds, and `take`/`drag`, which replace
    the slot and hand back the node it held. */
module Slots {
  import opened Wrappers
  import opened Traits
  import opened Cations
  import opened Modifiers

  /** `is_empty`. */
  function IsEmpty(s: ModifierSlot): (r: bool)
    ensures r <==> s == Empty
  {
    match s
    case Empty => true
    case _ => false
  }

  /** `mod_ref` and `mod_mut`: the node of an occupied slot. */
  function ModRef(s: ModifierSlot): (r: Option<Cation<DynMod>>)
    ensures r.Some? <==> s.Occupied?
    ensures r.Some? ==> r.value == s.node
  {
    if s.Occupied? then Some(s.node) else None
  }

  /** `take(replacement)`: the slot becomes `replacement`; the node it held,
      if any, is handed back. */
  function Take(s: ModifierSlot, replacement: ModifierSlot): (r: (ModifierSlot, Option<Cation<DynMod>>))
    ensures r.0 == replacement
    ensures r.1 == ModRef(s)
  {
    match s
    case Occupied(n) => (replacement, Some(n))
    case _ => (replacement, None)
  }

  /** `drag`: an occupied slot is replaced by the placeholder `Dragged` with
      its node's identity and the node is handed back; any other slot is left
      alone. */
  function Drag(s: ModifierSlot): (r: (ModifierSlot, Option<Cation<DynMod>>))
    ensures s.Occupied? ==> r == (Dragged(s.node.id), Some(s.node))
    ensures !s.Occupied? ==> r == (s, None)
  {
    match ModRef(s)
    case Some(n) => Take(s, Dragged(n.id))
    case None => (s, None)
  }

  /** `from_index`: a fresh node, with no cache, holding the default value of
      the entry's type under that entry. */
  function FromIndex(index: ModifierIndex, last: Uuid): (r: (ModifierSlot, Uuid))
    ensures r.0.Occupied? && r.0.node.cache.None?
    ensures r.0.node.modifier.index == index && WellTyped(r.0.node.modifier)
    ensures r.0.node.id > last && r.1 == r.0.node.id
  {
    var made := Modifiers.FromIndex(index, last);
    var node := New(made.0, made.1);
    (Occupied(node.0), node.1)
  }
}
