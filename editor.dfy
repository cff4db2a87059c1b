/** The `Editor` of `src/editor.rs`: the modifier registry kept sorted by
    name, the selected node, and the drag-and-drop handoff between slots
    (`dragging` while a node is carried, `dropped` once it is let go). The
    slot transitions of `ModifierSlot::view` in `src/slot.rs`, which read and
    write these fields, are here too. */
module Editors {
  import opened Wrappers
  import opened Traits
  import opened Cations
  import opened Modifiers
  import opened Sorting
  import Slots

  /** `ModId`: the identity and registry entry of the selected node. */
  datatype ModId = ModId(id: Uuid, index: ModifierIndex)

  /** `ModId::from_dyn_cation`. */
  function FromDynCation(c: Cation<DynMod>): (r: ModId)
    ensures r.id == c.id && r.index == c.modifier.index
  {
    ModId(c.id, c.modifier.index)
  }

  /** `ModId::try_from_slot`: the slot's node, or the error "slot is empty"
      for a slot without one. */
  function TryFromSlot(s: ModifierSlot): (r: Result<ModId, string>)
    ensures r.Ok? <==> s.Occupied?
    ensures r.Ok? ==> r.value == FromDynCation(s.node)
    ensures r.Err? ==> r.error == "slot is empty"
  {
    match Slots.ModRef(s)
    case Some(c) => Ok(ModId(c.id, c.modifier.index))
    case None => Err("slot is empty")
  }

  // ---------------------------------------------------------------------
  // The registry order: `a.name.cmp(&b.name)`, lexicographic

  predicate LexLe(a: string, b: string)
    decreases |a|
  {
    a == [] || (b != [] && (a[0] < b[0] || (a[0] == b[0] && LexLe(a[1..], b[1..]))))
  }

  lemma {:induction false} LexLeTotal(a: string, b: string)
    ensures LexLe(a, b) || LexLe(b, a)
    decreases |a|
  {
    if a != [] && b != [] && a[0] == b[0] {
      LexLeTotal(a[1..], b[1..]);
    }
  }

  lemma {:induction false} LexLeTransitive(a: string, b: string, c: string)
    requires LexLe(a, b) && LexLe(b, c)
    ensures LexLe(a, c)
    decreases |a|
  {
    if a != [] && b != [] && c != [] && a[0] == b[0] && b[0] == c[0] {
      LexLeTransitive(a[1..], b[1..], c[1..]);
    }
  }

  /** Registry entries ordered by name. */
  function NameLe(): (ModifierIndex, ModifierIndex) -> bool
  {
    (a: ModifierIndex, b: ModifierIndex) => LexLe(a.name, b.name)
  }

  lemma NameOrderTotal()
    ensures TotalPreorder(NameLe())
  {
    forall a: ModifierIndex, b: ModifierIndex
      ensures NameLe()(a, b) || NameLe()(b, a)
    {
      LexLeTotal(a.name, b.name);
    }
    forall a: ModifierIndex, b: ModifierIndex, c: ModifierIndex | NameLe()(a, b) && NameLe()(b, c)
      ensures NameLe()(a, c)
    {
      LexLeTransitive(a.name, b.name, c.name);
    }
  }

  /** The registry after `add_index(i)`: `i` pushed, then everything sorted
      by name. One entry more, nothing lost, and sorted. */
  function AddIndexTo(index: seq<ModifierIndex>, i: ModifierIndex): (r: seq<ModifierIndex>)
    ensures |r| == |index| + 1
    ensures multiset(r) == multiset(index) + multiset{i}
    ensures SortedBy(r, NameLe())
  {
    NameOrderTotal();
    SortBySorted(index + [i], NameLe());
    SortBy(index + [i], NameLe())
  }

  /** On a sorted registry the stable sort places the new entry after every
      entry whose name is not greater, and moves nothing else. */
  lemma AddIndexInserts(index: seq<ModifierIndex>, i: ModifierIndex)
    requires SortedBy(index, NameLe())
    ensures AddIndexTo(index, i) == InsertBy(index, i, NameLe())
  {
    PushSort(index, i, NameLe());
  }

  // ---------------------------------------------------------------------
  // Drag and drop

  /** The state one slot's `view` reads and writes: the slot and the
      editor's `selected`, `dragging` and `dropped`. */
  datatype Frame = Frame(slot: ModifierSlot, selected: Option<ModId>, dragging: Option<Cation<DynMod>>, dropped: Option<Cation<DynMod>>)

  /** What the slot's widgets reported this frame: the name toggle clicked,
      a drag started on the handle, the deletion confirmed, the "place here"
      label hovered, and whether the pointer still carries something. */
  datatype SlotInput = SlotInput(toggleClicked: bool, dragStarted: bool, deleteConfirmed: bool, placeHovered: bool, anythingDragged: bool)

  /** `held` is the node with identity `id`. */
  predicate Carries(held: Option<Cation<DynMod>>, id: Uuid)
  {
    held.Some? && held.value.id == id
  }

  /** `ModifierSlot::view` for one frame.
      - A node: a toggle click selects it; a drag start moves it into
        `dragging`, leaving the placeholder; a confirmed deletion empties the
        slot.
      - Empty, while something is carried: hovering the label once the
        pointer let go moves the carried node in.
      - A placeholder: it stays while its node is carried, takes the node
        back (clearing `dropped`) once that node was dropped, and otherwise
        becomes empty (the node went elsewhere). */
  function SlotView(f: Frame, ev: SlotInput): (r: Frame)
    ensures f.slot.Occupied? ==>
      r.dropped == f.dropped &&
      r.selected == (if ev.toggleClicked then Some(FromDynCation(f.slot.node)) else f.selected) &&
      r.dragging == (if ev.dragStarted then Some(f.slot.node) else f.dragging) &&
      r.slot == (if ev.deleteConfirmed then Empty else if ev.dragStarted then Dragged(f.slot.node.id) else f.slot)
    ensures f.slot.Empty? && f.dragging.Some? && ev.placeHovered && !ev.anythingDragged ==>
      r == f.(slot := Occupied(f.dragging.value), dragging := None)
    ensures f.slot.Empty? && !(f.dragging.Some? && ev.placeHovered && !ev.anythingDragged) ==> r == f
    ensures f.slot.Dragged? && Carries(f.dragging, f.slot.id) ==> r == f
    ensures f.slot.Dragged? && !Carries(f.dragging, f.slot.id) && Carries(f.dropped, f.slot.id) ==>
      r == f.(slot := Occupied(f.dropped.value), dropped := None)
    ensures f.slot.Dragged? && !Carries(f.dragging, f.slot.id) && !Carries(f.dropped, f.slot.id) ==>
      r == f.(slot := Empty)
  {
    match f.slot
    case Occupied(n) =>
      var selected := if ev.toggleClicked then Some(FromDynCation(n)) else f.selected;
      var dragged := if ev.dragStarted then Slots.Drag(f.slot) else (f.slot, f.dragging);
      var slot := if ev.deleteConfirmed then Slots.Take(dragged.0, Empty).0 else dragged.0;
      Frame(slot, selected, dragged.1, f.dropped)
    case Empty =>
      if f.dragging.Some? && ev.placeHovered && !ev.anythingDragged then
        f.(slot := Occupied(f.dragging.value), dragging := None)
      else f
    case Dragged(id) =>
      if f.dragging.Some? && f.dragging.value.id == id then f
      else if f.dropped.Some? && f.dropped.value.id == id then
        f.(slot := Occupied(f.dropped.value), dropped := None)
      else f.(slot := Slots.Take(f.slot, Empty).0)
  }

  /** The end of `Editor::view`: once nothing is being dragged any more, the
      carried node becomes the dropped one. */
  function Handoff(dragging: Option<Cation<DynMod>>, dropped: Option<Cation<DynMod>>, anythingDragged: bool): (r: (Option<Cation<DynMod>>, Option<Cation<DynMod>>))
    ensures !anythingDragged && dragging.Some? ==> r == (None, dragging)
    ensures anythingDragged || dragging.None? ==> r == (dragging, dropped)
  {
    if !anythingDragged && dragging.Some? then (None, dragging) else (dragging, dropped)
  }

  /** A node dragged off its slot and let go anywhere but on an empty slot
      comes back to the slot it left, and nothing stays carried or dropped. */
  lemma DragAndReturn(n: Cation<DynMod>, selected: Option<ModId>, carried: Option<Cation<DynMod>>, drag: SlotInput, idle: SlotInput)
    requires drag.dragStarted && !drag.deleteConfirmed
    ensures var picked := SlotView(Frame(Occupied(n), selected, carried, None), drag);
      var (dragging, dropped) := Handoff(picked.dragging, picked.dropped, false);
      var back := SlotView(Frame(picked.slot, picked.selected, dragging, dropped), idle);
      back.slot == Occupied(n) && back.dragging.None? && back.dropped.None?
  {
  }

  /** A node dragged from slot A and let go over an empty slot B, which is
      drawn before A, ends in B; A ends empty and nothing stays carried. */
  lemma MoveToEmptySlot(n: Cation<DynMod>, selected: Option<ModId>, dropped: Option<Cation<DynMod>>, drag: SlotInput, release: SlotInput, idle: SlotInput)
    requires drag.dragStarted && !drag.deleteConfirmed
    requires release.placeHovered && !release.anythingDragged
    requires dropped.None? || dropped.value.id != n.id
    ensures var a1 := SlotView(Frame(Occupied(n), selected, None, dropped), drag);
      var b2 := SlotView(Frame(Empty, a1.selected, a1.dragging, a1.dropped), release);
      var a2 := SlotView(Frame(a1.slot, b2.selected, b2.dragging, b2.dropped), idle);
      b2.slot == Occupied(n) && a2.slot == Empty && a2.dragging.None? && a2.dropped == dropped
  {
  }

  class Editor {
    var index: seq<ModifierIndex>
    var selected: Option<ModId>
    var dragging: Option<Cation<DynMod>>
    var dropped: Option<Cation<DynMod>>

    /** `Editor::default`: no entries, nothing selected, carried or dropped. */
    constructor()
      ensures index == [] && selected.None? && dragging.None? && dropped.None?
    {
      index := [];
      selected := None;
      dragging := None;
      dropped := None;
    }

    /** `add_index`: push, then sort by name. */
    method AddIndex(i: ModifierIndex)
      modifies this
      ensures index == AddIndexTo(old(index), i)
      ensures selected == old(selected) && dragging == old(dragging) && dropped == old(dropped)
    {
      index := index + [i];
      index := SortBy(index, NameLe());
    }

    /** `select_cation`. */
    method SelectCation(c: Cation<DynMod>)
      modifies this
      ensures selected == Some(FromDynCation(c))
      ensures SelectedId() == Some(c.id)
      ensures index == old(index) && dragging == old(dragging) && dropped == old(dropped)
    {
      selected := Some(ModId(c.id, c.modifier.index));
    }

    /** `try_select_slot`: select the slot's node, or report "slot is empty"
        and leave the selection alone. */
    method TrySelectSlot(s: ModifierSlot) returns (r: Result<(), string>)
      modifies this
      ensures r == (if s.Occupied? then Ok(()) else Err("slot is empty"))
      ensures s.Occupied? ==> selected == Some(FromDynCation(s.node))
      ensures !s.Occupied? ==> selected == old(selected)
      ensures index == old(index) && dragging == old(dragging) && dropped == old(dropped)
    {
      var id := TryFromSlot(s);
      if id.Err? {
        return Err(id.error);
      }
      selected := Some(id.value);
      return Ok(());
    }

    /** `selected_id`. */
    function SelectedId(): (r: Option<Uuid>)
      reads this
      ensures r.Some? <==> selected.Some?
      ensures r.Some? ==> r.value == selected.value.id
    {
      match selected
      case Some(m) => Some(m.id)
      case None => None
    }

    /** `is_modifier_selected::<T>()` for the type `t`: something is selected
        and its entry is `t`'s. */
    function IsModifierSelected(t: TypeId): (r: bool)
      reads this
      ensures r <==> selected.Some? && selected.value.index.id == t
    {
      selected.Some? && IndexEq(selected.value.index, Index(t))
    }

    /** The handoff at the end of `Editor::view`. */
    method EndFrame(anythingDragged: bool)
      modifies this
      ensures (dragging, dropped) == Handoff(old(dragging), old(dropped), anythingDragged)
      ensures index == old(index) && selected == old(selected)
    {
      if !anythingDragged {
        if dragging.Some? {
          dropped := dragging;
          dragging := None;
        }
      }
    }

    /** `ModifierSlot::view` on slot `s` with this editor, step by step. */
    method ViewSlot(s: ModifierSlot, ev: SlotInput) returns (r: ModifierSlot)
      modifies this
      ensures Frame(r, selected, dragging, dropped) == SlotView(Frame(s, old(selected), old(dragging), old(dropped)), ev)
      ensures index == old(index)
    {
      r := s;
      if s.Occupied? {
        if ev.toggleClicked {
          SelectCation(s.node);
        }
        if ev.dragStarted {
          var dragged := Slots.Drag(r);
          r := dragged.0;
          dragging := dragged.1;
        }
        if ev.deleteConfirmed {
          var taken := Slots.Take(r, Empty);
          r := taken.0;
        }
      } else if s.Empty? {
        if dragging.Some? && ev.placeHovered && !ev.anythingDragged {
          r := Occupied(dragging.value);
          dragging := None;
        }
      } else {
        if dragging.Some? && dragging.value.id == s.id {
        } else if dropped.Some? && dropped.value.id == s.id {
          r := Occupied(dropped.value);
          dropped := None;
        } else {
          var taken := Slots.Take(r, Empty);
          r := taken.0;
        }
      }
    }
  }
}
