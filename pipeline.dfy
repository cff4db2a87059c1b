/** Evaluation of the modifier chain: `Cation::output` on a node
    (`src/modifier/cation.rs`), `Modifier::apply` of every type, the
    `ModifierSlot::output` of `src/slot.rs`, and the fold of
    `src/modifier/collection/list.rs` that feeds each node's output to the
    next. Applying a modifier may update it (a nested node refreshes its
    cache), so each step returns the modifier afterwards; the identity
    counter `last` is threaded through every step. */
module Pipeline {
  import opened Wrappers
  import opened Images
  import opened Positions
  import opened Primitives
  import opened Cations
  import opened Modifiers
  import Resizing
  import Fills
  import Buckets
  import Pencils

  /** `Cation::output`: on a cache hit, the stored output and nothing else;
      otherwise `Cation::apply`: run the modifier, mint a fresh output and
      store the snapshot of the modifier as it is after the run, that output
      and the input's identity. */
  function NodeOutput(lib: Library, c: Cation<DynMod>, input: Output, last: Uuid): (r: (Cation<DynMod>, Output, Uuid))
    ensures r.0.id == c.id && r.0.modifier.index == c.modifier.index
    ensures TypeOf(r.0.modifier.modifier) == TypeOf(c.modifier.modifier)
    ensures r.2 >= last
    ensures CheckCache(c, input, DynEq) ==> r == (c, c.cache.value.output, last)
    ensures !CheckCache(c, input, DynEq) ==> r.1.id > last && r.1.id == r.2
    ensures r.0.cache.Some? && r.1 == r.0.cache.value.output
    ensures CheckCache(r.0, input, DynEq)
    decreases c
  {
    if CheckCache(c, input, DynEq) then (c, c.cache.value.output, last)
    else
      var ran := ApplyModifier(lib, c.modifier.modifier, input, last);
      var applied := c.modifier.(modifier := ran.0);
      ModEqReflexive(ran.0);
      Store(c, applied, input, ran.1, ran.2)
  }

  /** `Modifier::apply` of each type, with the unified signature
      `apply(Output) -> Option<Image>`. Only a `Source` or a `List` (which may
      hold a `Source`) can produce an image from no image. */
  function ApplyModifier(lib: Library, m: Modifier, input: Output, last: Uuid): (r: (Modifier, Option<Image>, Uuid))
    ensures TypeOf(r.0) == TypeOf(m)
    ensures r.2 >= last
    ensures input.image.None? && !m.Source? && !m.List? ==> r.1.None?
    ensures !m.BucketMod? && !m.Overlay? && !m.List? ==> r.0 == m && r.2 == last
    ensures m.Overlay? ==> r.0.target == m.target && r.0.dragging == m.dragging
    ensures m.List? ==> |r.0.contents| == |m.contents|
    decreases m
  {
    match m
    case GrayScaleFilter => (m, if input.image.Some? then Some(lib.grayscale(input.image.value)) else None, last)
    case Source(path) => (m, lib.open(path), last)
    case Hue(d) => (m, if input.image.Some? then Some(lib.huerotate(input.image.value, d)) else None, last)
    case Brighten(v) => (m, if input.image.Some? then Some(lib.brighten(input.image.value, v)) else None, last)
    case Contrast(v) => (m, if input.image.Some? then Some(lib.contrast(input.image.value, v)) else None, last)
    case Invert => (m, if input.image.Some? then Some(lib.invert(input.image.value)) else None, last)
    case Blur(sigma) => (m, if input.image.Some? then Some(lib.blur(input.image.value, sigma.Get())) else None, last)
    case ResizeMod(rs) => (m, Resizing.Apply(lib, rs, input.image), last)
    case BucketMod(b) =>
      var ran := Buckets.Apply(b, input, last);
      (BucketMod(ran.0), ran.1, ran.2)
    case FillMod(f) => (m, Fills.Apply(f, input.image), last)
    case PencilModifier(p) => (m, Pencils.Apply(lib, p, input), last)
    case Overlay(target, slot, dragging) =>
      if slot.Occupied? then
        var ran := NodeOutput(lib, slot.node, input, last);
        var image := if ran.1.image.Some? && input.image.Some? then Some(lib.overlay(input.image.value, ran.1.image.value, target)) else input.image;
        (Overlay(target, Occupied(ran.0), dragging), image, ran.2)
      else (m, input.image, last)
    case List(contents) =>
      var start := NewOutput(input.image, last);
      var ran := Fold(lib, contents, start.0, start.1);
      (List(ran.0), ran.1.image, ran.2)
  }

  /** `ModifierSlot::output`: a node's output; an empty or dragged-away slot
      hands the input through. */
  function SlotOutput(lib: Library, s: ModifierSlot, input: Output, last: Uuid): (r: (ModifierSlot, Output, Uuid))
    ensures !s.Occupied? ==> r == (s, input, last)
    ensures s.Occupied? ==> r.0.Occupied? && r.0.node.id == s.node.id
    ensures s.Occupied? ==> CheckCache(r.0.node, input, DynEq) && r.1 == r.0.node.cache.value.output
    ensures r.2 >= last
  {
    match s
    case Occupied(n) =>
      var ran := NodeOutput(lib, n, input, last);
      (Occupied(ran.0), ran.1, ran.2)
    case _ => (s, input, last)
  }

  /** The loop of `List::apply` over the first `|cs|` nodes, starting from
      output `o`: the nodes afterwards, the output of the last of them (`o`
      itself when there is none), and the counter. */
  function Fold(lib: Library, cs: seq<Cation<DynMod>>, o: Output, last: Uuid): (r: (seq<Cation<DynMod>>, Output, Uuid))
    ensures |r.0| == |cs|
    ensures forall i :: 0 <= i < |cs| ==> r.0[i].id == cs[i].id
    ensures r.2 >= last
    ensures cs == [] ==> r == ([], o, last)
    decreases cs
  {
    if cs == [] then ([], o, last)
    else
      var n := |cs| - 1;
      var front := Fold(lib, cs[..n], o, last);
      var ran := NodeOutput(lib, cs[n], front.1, front.2);
      (front.0 + [ran.0], ran.1, ran.2)
  }

  /** Asking a node again for the same input is a cache hit: the same output
      (same identity), the node unchanged, no identity consumed. */
  lemma OutputTwice(lib: Library, c: Cation<DynMod>, input: Output, last: Uuid)
    ensures var first := NodeOutput(lib, c, input, last);
      NodeOutput(lib, first.0, input, first.2) == first
  {
  }

  /** A node whose modifier or input changed since its snapshot recomputes
      and hands out an output never seen before. */
  lemma ChangeRecomputes(lib: Library, c: Cation<DynMod>, input: Output, last: Uuid)
    requires c.cache.Some? && c.cache.value.output.id <= last
    requires !DynEq(c.cache.value.modifier, c.modifier) || c.cache.value.inputId != input.id
    ensures NodeOutput(lib, c, input, last).1.id > last
    ensures NodeOutput(lib, c, input, last).1 != c.cache.value.output
  {
  }

  /** An empty list hands its input image through. */
  lemma EmptyListKeepsImage(lib: Library, input: Output, last: Uuid)
    ensures ApplyModifier(lib, List([]), input, last).1 == input.image
  {
  }

  /** The node has no cache, or its cache answers an input with an identity
      handed out no later than `floor`. */
  predicate Stale(c: Cation<DynMod>, floor: Uuid)
  {
    c.cache.None? || c.cache.value.inputId <= floor
  }

  /** Feeding the fold an output newer than every input the nodes' caches
      recorded makes every node recompute: each cache then records an input
      minted after `floor`, and so does the fold's result. */
  lemma {:induction false} FoldMisses(lib: Library, cs: seq<Cation<DynMod>>, o: Output, last: Uuid, floor: Uuid)
    requires floor <= last && o.id > floor
    requires forall i :: 0 <= i < |cs| ==> Stale(cs[i], floor)
    ensures var r := Fold(lib, cs, o, last);
      (forall i :: 0 <= i < |cs| ==> r.0[i].cache.Some? && r.0[i].cache.value.inputId > floor) &&
      r.1.id > floor
    decreases |cs|
  {
    if cs != [] {
      var n := |cs| - 1;
      FoldMisses(lib, cs[..n], o, last, floor);
      var front := Fold(lib, cs[..n], o, last);
      assert !CheckCache(cs[n], front.1, DynEq);
    }
  }

  /** `List` wraps its input in a fresh `Output`, so whenever the list itself
      runs, no node's cache can answer: every node recomputes, even on an
      unchanged input. */
  lemma ListRecomputes(lib: Library, contents: seq<Cation<DynMod>>, input: Output, last: Uuid)
    requires forall i :: 0 <= i < |contents| ==> Stale(contents[i], last)
    ensures var r := ApplyModifier(lib, List(contents), input, last).0;
      forall i :: 0 <= i < |contents| ==> r.contents[i].cache.Some? && r.contents[i].cache.value.inputId > last
  {
    FoldMisses(lib, contents, NewOutput(input.image, last).0, NewOutput(input.image, last).1, last);
  }

  /** The loop of `List::apply`: each node is asked for its output on the
      previous node's output, starting from the input wrapped in a fresh
      `Output`; the result is the image of the last output. */
  method ListApply(lib: Library, contents: seq<Cation<DynMod>>, input: Output, last: Uuid)
    returns (nodes: seq<Cation<DynMod>>, image: Option<Image>, next: Uuid)
    ensures (List(nodes), image, next) == ApplyModifier(lib, List(contents), input, last)
  {
    var start := NewOutput(input.image, last);
    var borrow := start.0;
    next := start.1;
    nodes := [];
    for i := 0 to |contents|
      invariant (nodes, borrow, next) == Fold(lib, contents[..i], start.0, start.1)
    {
      assert contents[..i + 1][..i] == contents[..i];
      var step := NodeOutput(lib, contents[i], borrow, next);
      nodes := nodes + [step.0];
      borrow := step.1;
      next := step.2;
    }
    assert contents[..|contents|] == contents;
    image := borrow.image;
  }
}
