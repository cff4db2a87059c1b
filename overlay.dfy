/** `Overlay` of `src/modifier/collection/overlay.rs`: the image of a child
    slot, evaluated on the overlay's own input, composited over that input at
    `target`; in the viewer the target is dragged with the pointer. The
    variant itself is `Modifiers.Overlay`, and its `apply` is part of
    `Pipeline.ApplyModifier`. */
module Overlays {
  import opened Wrappers
  import opened Images
  import opened Positions
  import opened Primitives
  import opened Cations
  import opened Traits
  import opened Modifiers
  import opened Pipeline

  /** `Overlay::default`: at the origin, an empty slot, not dragging. */
  function Default(): (r: Modifier)
    ensures r.Overlay? && r.target == ZERO && r.input == Empty && !r.dragging
    ensures TypeOf(r) == OverlayType
  {
    Overlay(ZERO, Empty, false)
  }

  /** The registry's instancer for `Overlay` is `Default`. */
  lemma InstanceIsDefault(last: Uuid)
    ensures Instance(OverlayType, last) == (Default(), last)
  {
  }

  /** `PartialEq for Overlay`: target and slot; the drag flag is not
      compared, in either direction. */
  lemma EqIgnoresDragging(target: Position, input: ModifierSlot, a: bool, b: bool, other: Modifier)
    ensures ModEq(Overlay(target, input, a), Overlay(target, input, b))
    ensures ModEq(Overlay(target, input, a), other) <==>
      other.Overlay? && other.target == target && SlotEq(input, other.input)
  {
    SlotEqReflexive(input);
  }

  /** Without a node in the slot, or without an input image, `apply` hands
      the input image through. */
  lemma PassThrough(lib: Library, o: Modifier, input: Output, last: Uuid)
    requires o.Overlay?
    requires !o.input.Occupied? || input.image.None?
    ensures ApplyModifier(lib, o, input, last).1 == input.image
  {
  }

  /** With a node in the slot, the node is asked for its output on the
      overlay's own input; when both that output and the input have an image,
      the result is the composite at `target`, and otherwise the input image. */
  lemma Composites(lib: Library, o: Modifier, input: Output, last: Uuid)
    requires o.Overlay? && o.input.Occupied?
    ensures var child := NodeOutput(lib, o.input.node, input, last);
      var r := ApplyModifier(lib, o, input, last);
      r.0 == o.(input := Occupied(child.0)) && r.2 == child.2 &&
      r.1 == if child.1.image.Some? && input.image.Some? then
               Some(lib.overlay(input.image.value, child.1.image.value, o.target))
             else input.image
  {
  }

  /** What the pointer did in one frame: inside the viewer's rectangle, a
      button pressed, the primary button down, a button released, any button
      down, and the movement in image coordinates (`delta · ppp / scale`). */
  datatype Pointer = Pointer(inRect: bool, anyPressed: bool, primaryDown: bool, anyReleased: bool, anyDown: bool, moved: Position)

  /** The drag handling of `Overlay::view` while the overlay is selected. */
  function View(o: Modifier, selected: bool, p: Pointer): (r: Modifier)
    requires o.Overlay?
    ensures r.Overlay? && r.input == o.input
    ensures !selected ==> r == o
    ensures r.target != o.target ==> r.dragging && p.anyDown && r.target == Add(o.target, p.moved)
    ensures selected && !p.anyDown ==> !r.dragging && r.target == o.target
    ensures selected && p.inRect && p.anyPressed && p.primaryDown ==>
      r.dragging == p.anyDown && r.target == (if p.anyDown then Add(o.target, p.moved) else o.target)
    ensures selected && p.inRect && !(p.anyPressed && p.primaryDown) && p.anyReleased ==>
      !r.dragging && r.target == o.target
    ensures selected && !(p.inRect && ((p.anyPressed && p.primaryDown) || p.anyReleased)) ==>
      r.dragging == (o.dragging && p.anyDown) && r.target == (if r.dragging then Add(o.target, p.moved) else o.target)
  {
    if !selected then o
    else
      var grabbed :=
        if p.inRect && p.anyPressed && p.primaryDown then true
        else if p.inRect && p.anyReleased then false
        else o.dragging;
      if grabbed && p.anyDown then o.(target := Add(o.target, p.moved), dragging := true)
      else o.(dragging := false)
  }

  /** The drag flag alone is invisible to equality, so a frame that does not
      move the target never invalidates a cache holding this overlay. */
  lemma ViewWithoutMoveKeepsEquality(o: Modifier, selected: bool, p: Pointer)
    requires o.Overlay?
    requires View(o, selected, p).target == o.target
    ensures ModEq(View(o, selected, p), o)
  {
    SlotEqReflexive(o.input);
  }

  /** `Overlay::view`'s drag handling, step by step. */
  method ViewSteps(o: Modifier, selected: bool, p: Pointer) returns (r: Modifier)
    requires o.Overlay?
    ensures r == View(o, selected, p)
  {
    r := o;
    if selected {
      if p.inRect {
        if p.anyPressed && p.primaryDown {
          r := r.(dragging := true);
        } else if p.anyReleased {
          r := r.(dragging := false);
        }
      }
      if r.dragging && p.anyDown {
        r := r.(target := Add(r.target, p.moved));
      } else {
        r := r.(dragging := false);
      }
    }
  }
}
