/** The type-erased modifier of `src/modifier/cation.rs` (`DynMod`) and the
    slot of `src/slot.rs`, over the closed set of modifier types of
    `src/modifier/collection/`. A `Box<dyn Modifier>` becomes the union
    `Modifier`; its dynamic type is `TypeOf`, and `DynMod` pairs it with the
    registry entry it was made from. Modifiers, nodes and slots nest (an
    overlay holds a slot, a list holds nodes), so they are declared together. */
module Modifiers {
  import opened Wrappers
  import opened Positions
  import opened Applied
  import opened Traits
  import opened Cations
  import Resizing
  import Fills
  import Buckets
  import Pencils
  import SimplePencils
  import RainbowPencils
  import PixelSorters

  datatype Modifier =
    | GrayScaleFilter
    | Source(path: string)
    | Hue(degrees: int)
    | Brighten(value: int)
    | Contrast(contrast: real)
    | Invert
    | Blur(sigma: AppliedValue<real>)
    | ResizeMod(resize: Resizing.Resize)
    | BucketMod(bucket: Buckets.Bucket)
    | FillMod(fill: Fills.Fill)
    | PencilModifier(pencilMod: Pencils.PencilMod)
    | Overlay(target: Position, input: ModifierSlot, dragging: bool)
    | List(contents: seq<Cation<DynMod>>)

  /** `DynMod`: the registry entry and the boxed modifier. */
  datatype DynMod = DynMod(index: ModifierIndex, modifier: Modifier)

  /** `ModifierSlot`: a node, the placeholder left behind by a node being
      dragged away, or nothing. */
  datatype ModifierSlot = Occupied(node: Cation<DynMod>) | Dragged(id: Uuid) | Empty

  /** The kind of pencil a `PencilMod` is instantiated with. */
  function PencilKindOf(p: Pencils.Pencil): PencilKind
  {
    match p
    case Simple(_) => SimplePencilType
    case Rainbow(_) => RainbowPencilType
    case Sorter(_) => PixelSorterType
  }

  /** The concrete (dynamic) type of a modifier value. */
  function TypeOf(m: Modifier): TypeId
  {
    match m
    case GrayScaleFilter => GrayScaleFilterType
    case Source(_) => SourceType
    case Hue(_) => HueType
    case Brighten(_) => BrightenType
    case Contrast(_) => ContrastType
    case Invert => InvertType
    case Blur(_) => BlurType
    case ResizeMod(_) => ResizeType
    case BucketMod(_) => BucketType
    case FillMod(_) => FillType
    case PencilModifier(p) => PencilModType(PencilKindOf(p.pencil))
    case Overlay(_, _, _) => OverlayType
    case List(_) => ListType
  }

  /** The invariant every constructor of `DynMod` establishes: the entry
      describes the boxed value's type. */
  predicate WellTyped(d: DynMod)
  {
    d.index.id == TypeOf(d.modifier)
  }

  // ---------------------------------------------------------------------
  // Equality: each type's own `PartialEq`, and `false` across types

  /** `DynPartialEq::eq` on two boxed modifiers: `false` when the concrete
      types differ, otherwise the type's own equality (derived, except that
      `Source` compares paths, `Overlay` ignores `dragging`, `AppliedValue`
      compares its applied register and a node ignores its cache). */
  predicate ModEq(a: Modifier, b: Modifier)
    decreases a
  {
    match a
    case GrayScaleFilter => b.GrayScaleFilter?
    case Source(p) => b.Source? && b.path == p
    case Hue(d) => b.Hue? && b.degrees == d
    case Brighten(v) => b.Brighten? && b.value == v
    case Contrast(v) => b.Contrast? && b.contrast == v
    case Invert => b.Invert?
    case Blur(s) => b.Blur? && Applied.Eq(s, b.sigma)
    case ResizeMod(r) => b.ResizeMod? && b.resize == r
    case BucketMod(x) => b.BucketMod? && Buckets.Eq(x, b.bucket)
    case FillMod(f) => b.FillMod? && b.fill == f
    case PencilModifier(p) => b.PencilModifier? && Pencils.Eq(p, b.pencilMod)
    case Overlay(t, s, _) => b.Overlay? && b.target == t && SlotEq(s, b.input)
    case List(cs) => b.List? && ListEq(cs, b.contents)
  }

  /** `PartialEq for Cation<DynMod>`: identity and modifier. */
  predicate NodeEqual(a: Cation<DynMod>, b: Cation<DynMod>)
    decreases a
  {
    a.id == b.id && ModEq(a.modifier.modifier, b.modifier.modifier)
  }

  /** Derived `PartialEq` of `ModifierSlot`. */
  predicate SlotEq(s: ModifierSlot, t: ModifierSlot)
    decreases s
  {
    match s
    case Occupied(n) => t.Occupied? && NodeEqual(n, t.node)
    case Dragged(id) => t.Dragged? && t.id == id
    case Empty => t.Empty?
  }

  /** Derived `PartialEq` of `List`: the node vectors, element by element. */
  predicate ListEq(cs: seq<Cation<DynMod>>, ds: seq<Cation<DynMod>>)
    decreases cs
  {
    |cs| == |ds| && forall i :: 0 <= i < |cs| ==> NodeEqual(cs[i], ds[i])
  }

  /** `PartialEq for DynMod`: the boxed modifiers; the entries are not
      compared. */
  predicate DynEq(a: DynMod, b: DynMod)
  {
    ModEq(a.modifier, b.modifier)
  }

  /** Equal modifiers have the same concrete type: comparing across types is
      always `false`. */
  lemma EqSameType(a: Modifier, b: Modifier)
    requires ModEq(a, b)
    ensures TypeOf(a) == TypeOf(b)
  {
    if a.PencilModifier? {
      assert Pencils.PencilEq(a.pencilMod.pencil, b.pencilMod.pencil);
    }
  }

  /** Every modifier equals itself, so a cache snapshot of the current
      modifier never reports a change. */
  lemma {:induction false} ModEqReflexive(m: Modifier)
    ensures ModEq(m, m)
    decreases m
  {
    match m
    case Overlay(_, s, _) =>
      SlotEqReflexive(s);
    case List(cs) =>
      ListEqReflexive(cs);
    case PencilModifier(p) =>
      assert Pencils.PencilEq(p.pencil, p.pencil);
    case _ =>
  }

  lemma {:induction false} SlotEqReflexive(s: ModifierSlot)
    ensures SlotEq(s, s)
    decreases s
  {
    if s.Occupied? {
      NodeEqualReflexive(s.node);
    }
  }

  lemma {:induction false} ListEqReflexive(cs: seq<Cation<DynMod>>)
    ensures ListEq(cs, cs)
    decreases cs
  {
    forall i | 0 <= i < |cs|
      ensures NodeEqual(cs[i], cs[i])
    {
      NodeEqualReflexive(cs[i]);
    }
  }

  lemma {:induction false} NodeEqualReflexive(c: Cation<DynMod>)
    ensures NodeEqual(c, c)
    decreases c
  {
    ModEqReflexive(c.modifier.modifier);
  }

  /** `Cation`'s generic equality instantiated at `DynMod` is `NodeEqual`. */
  lemma NodeEqualIsNodeEq(a: Cation<DynMod>, b: Cation<DynMod>)
    ensures NodeEqual(a, b) <==> NodeEq(a, b, DynEq)
  {
  }

  // ---------------------------------------------------------------------
  // Construction and downcasting

  /** The pencil `PencilMod<T>::default()` starts with, for each `T`. */
  function DefaultPencil(k: PencilKind): (p: Pencils.Pencil)
    ensures PencilKindOf(p) == k
  {
    match k
    case SimplePencilType => Pencils.Simple(SimplePencils.Default())
    case RainbowPencilType => Pencils.Rainbow(RainbowPencils.Default())
    case PixelSorterType => Pencils.Sorter(PixelSorters.Default())
  }

  /** The instancer of the entry of type `t`: `T::default()`. Only
      `Bucket::default` creates a node, so only it consumes an identity. */
  function Instance(t: TypeId, last: Uuid): (r: (Modifier, Uuid))
    ensures TypeOf(r.0) == t
    ensures t != BucketType ==> r.1 == last
    ensures t == BucketType ==> r.1 > last
  {
    match t
    case GrayScaleFilterType => (GrayScaleFilter, last)
    case SourceType => (Source(""), last)
    case HueType => (Hue(0), last)
    case BrightenType => (Brighten(0), last)
    case ContrastType => (Contrast(0.0), last)
    case InvertType => (Invert, last)
    case BlurType => (Blur(AppliedValue(0.0, 0.0)), last)
    case ResizeType => (ResizeMod(Resizing.Default()), last)
    case BucketType =>
      var made := Buckets.Default(last);
      (BucketMod(made.0), made.1)
    case FillType => (FillMod(Fills.Default()), last)
    case PencilModType(k) => (PencilModifier(Pencils.Default(DefaultPencil(k))), last)
    case OverlayType => (Overlay(ZERO, Empty, false), last)
    case ListType => (List([]), last)
  }

  /** `DynMod::new`: the value with the entry of its own type. */
  function DynNew(m: Modifier): (r: DynMod)
    ensures r.modifier == m && r.index.id == TypeOf(m) && r.index.name == ShortName(TypeOf(m))
    ensures WellTyped(r)
  {
    DynMod(Index(TypeOf(m)), m)
  }

  /** `DynMod::from_index`: the given entry and its type's default value. */
  function FromIndex(index: ModifierIndex, last: Uuid): (r: (DynMod, Uuid))
    ensures r.0.index == index && WellTyped(r.0)
    ensures r.1 >= last
  {
    var made := Instance(index.id, last);
    (DynMod(index, made.0), made.1)
  }

  /** `DynMod::modifier::<T>` (and `modifier_mut`): the boxed value when the
      entry is `T`'s, nothing otherwise. */
  function Downcast(d: DynMod, t: TypeId): (r: Option<Modifier>)
    ensures r.Some? <==> IndexEq(d.index, Index(t))
    ensures r.Some? ==> r.value == d.modifier
  {
    if IndexEq(d.index, Index(t)) then Some(d.modifier) else None
  }

  /** On a well-typed `DynMod` a successful downcast yields a value of the
      requested type, which is what makes the unchecked pointer cast sound;
      and at most one type's downcast succeeds. */
  lemma DowncastSound(d: DynMod, t: TypeId, u: TypeId)
    requires WellTyped(d)
    ensures Downcast(d, t).Some? ==> TypeOf(Downcast(d, t).value) == t
    ensures Downcast(d, t).Some? && Downcast(d, u).Some? ==> t == u
  {
  }
}
