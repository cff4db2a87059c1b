/** `src/modifier/collection/mod.rs`: registering the thirteen modifier types
    an editor offers, and the per-frame dispatch that lets the selected
    modifier react to the pointer. */
module Collection {
  import opened Wrappers
  import opened Positions
  import opened Traits
  import opened Cations
  import opened Sorting
  import opened Modifiers
  import opened Editors
  import MagicWands
  import Buckets
  import Pencils

  // ---------------------------------------------------------------------
  // Registration

  /** How many types `init_modifiers_collection` registers. */
  const REGISTERED := 13

  /** The `k`-th type `init_modifiers_collection` registers. */
  function RegisteredType(k: nat): TypeId
    requires k < REGISTERED
  {
    if k == 0 then GrayScaleFilterType
    else if k == 1 then SourceType
    else if k == 2 then HueType
    else if k == 3 then BrightenType
    else if k == 4 then ContrastType
    else if k == 5 then InvertType
    else if k == 6 then BlurType
    else if k == 7 then ResizeType
    else if k == 8 then BucketType
    else if k == 9 then FillType
    else if k == 10 then PencilModType(SimplePencilType)
    else if k == 11 then PencilModType(RainbowPencilType)
    else PencilModType(PixelSorterType)
  }

  /** Every type of the modifier union is registered, once, except `Overlay`
      and `List`, which the editor's menu never offers. (`MagicWand` is not a
      type of the union: it appears only inside the bucket.) */
  lemma RegisteredTypes(t: TypeId)
    ensures (exists k :: 0 <= k < REGISTERED && RegisteredType(k) == t) <==> t != OverlayType && t != ListType
  {
    if t != OverlayType && t != ListType {
      var k :=
        match t
        case GrayScaleFilterType => 0
        case SourceType => 1
        case HueType => 2
        case BrightenType => 3
        case ContrastType => 4
        case InvertType => 5
        case BlurType => 6
        case ResizeType => 7
        case BucketType => 8
        case FillType => 9
        case PencilModType(SimplePencilType) => 10
        case PencilModType(RainbowPencilType) => 11
        case PencilModType(PixelSorterType) => 12
        case _ => 0;
      assert RegisteredType(k) == t;
    }
  }

  lemma RegisteredOnce(i: nat, j: nat)
    requires i < REGISTERED && j < REGISTERED
    ensures RegisteredType(i) == RegisteredType(j) ==> i == j
  {
  }

  /** `T::get_index()`, with its name already reduced to the type's short
      name. */
  function Entry(t: TypeId): (r: ModifierIndex)
    ensures r.id == t
  {
    ModifierIndex(ShortName(t), t)
  }

  lemma EntryIsIndex(t: TypeId)
    ensures Entry(t) == Index(t)
  {
  }

  /** The entries after the first `n` registrations on an editor holding
      `index`. */
  function Registering(index: seq<ModifierIndex>, n: nat): (r: seq<ModifierIndex>)
    requires n <= REGISTERED
    ensures |r| == |index| + n
    ensures n > 0 || SortedBy(index, NameLe()) ==> SortedBy(r, NameLe())
  {
    if n == 0 then index else AddIndexTo(Registering(index, n - 1), Entry(RegisteredType(n - 1)))
  }

  /** `add_index` keeps every entry and adds the new one, and nothing else. */
  lemma AddIndexMembers(index: seq<ModifierIndex>, i: ModifierIndex, x: ModifierIndex)
    ensures x in AddIndexTo(index, i) <==> x in index || x == i
  {
    assert x in AddIndexTo(index, i) <==> x in multiset(AddIndexTo(index, i));
    assert x in index <==> x in multiset(index);
  }

  /** `x` is the entry of one of the first `n` registered types. */
  predicate AmongFirst(x: ModifierIndex, n: nat)
    requires n <= REGISTERED
  {
    exists k :: 0 <= k < n && x == Entry(RegisteredType(k))
  }

  lemma AmongFirstStep(x: ModifierIndex, n: nat)
    requires 0 < n <= REGISTERED
    ensures AmongFirst(x, n) <==> AmongFirst(x, n - 1) || x == Entry(RegisteredType(n - 1))
  {
    if AmongFirst(x, n) && x != Entry(RegisteredType(n - 1)) {
      var k :| 0 <= k < n && x == Entry(RegisteredType(k));
      assert k < n - 1;
    }
  }

  /** After `n` registrations the editor holds its old entries and the entries
      of the first `n` registered types, and nothing else. */
  lemma {:induction false} RegisteringMembers(index: seq<ModifierIndex>, n: nat, x: ModifierIndex)
    requires n <= REGISTERED
    ensures x in Registering(index, n) <==> x in index || AmongFirst(x, n)
  {
    if n > 0 {
      RegisteringMembers(index, n - 1, x);
      AddIndexMembers(Registering(index, n - 1), Entry(RegisteredType(n - 1)), x);
      AmongFirstStep(x, n);
    }
  }

  /** `init_modifier::<T>`: add `T`'s entry to the editor. */
  method InitModifier(e: Editor, t: TypeId)
    modifies e
    ensures e.index == AddIndexTo(old(e.index), Entry(t))
    ensures e.selected == old(e.selected) && e.dragging == old(e.dragging) && e.dropped == old(e.dropped)
  {
    EntryIsIndex(t);
    e.AddIndex(Index(t));
  }

  /** `init_modifiers_collection`: the thirteen registrations, in order. */
  method InitModifiersCollection(e: Editor)
    modifies e
    ensures e.index == Registering(old(e.index), REGISTERED)
    ensures e.selected == old(e.selected) && e.dragging == old(e.dragging) && e.dropped == old(e.dropped)
  {
    ghost var base := e.index;
    InitModifier(e, GrayScaleFilterType);
    assert e.index == Registering(base, 1);
    InitModifier(e, SourceType);
    assert e.index == Registering(base, 2);
    InitModifier(e, HueType);
    assert e.index == Registering(base, 3);
    InitModifier(e, BrightenType);
    assert e.index == Registering(base, 4);
    InitModifier(e, ContrastType);
    assert e.index == Registering(base, 5);
    InitModifier(e, InvertType);
    assert e.index == Registering(base, 6);
    InitModifier(e, BlurType);
    assert e.index == Registering(base, 7);
    InitModifier(e, ResizeType);
    assert e.index == Registering(base, 8);
    InitModifier(e, BucketType);
    assert e.index == Registering(base, 9);
    InitModifier(e, FillType);
    assert e.index == Registering(base, 10);
    InitModifier(e, PencilModType(SimplePencilType));
    assert e.index == Registering(base, 11);
    InitModifier(e, PencilModType(RainbowPencilType));
    assert e.index == Registering(base, 12);
    InitModifier(e, PencilModType(PixelSorterType));
    assert e.index == Registering(base, 13);
  }

  /** Registering the collection in a fresh editor yields thirteen entries,
      sorted by name: exactly the entry of every type of the modifier union
      but `Overlay` and `List`. */
  lemma InitFromEmpty(index: seq<ModifierIndex>, x: ModifierIndex)
    requires index == []
    ensures |Registering(index, REGISTERED)| == REGISTERED
    ensures SortedBy(Registering(index, REGISTERED), NameLe())
    ensures x in Registering(index, REGISTERED) <==> x.id != OverlayType && x.id != ListType && x == Entry(x.id)
  {
    RegisteringMembers(index, REGISTERED, x);
    RegisteredTypes(x.id);
    if x.id != OverlayType && x.id != ListType && x == Entry(x.id) {
      var k :| 0 <= k < REGISTERED && RegisteredType(k) == x.id;
      assert x == Entry(RegisteredType(k));
    }
  }

  // ---------------------------------------------------------------------
  // Per-frame dispatch

  /** What the bucket reads from the pointer in one frame: a primary click,
      whether a widget wants the pointer, and the hovered image position. */
  datatype BucketInput = BucketInput(primaryClicked: bool, wantsPointer: bool, hovered: Position)

  /** `get_modifier_mut::<PencilMod<T>>()` followed by the pencil's
      `update`; the entry decides, and nothing happens under any other
      entry. */
  function UpdatePencil(d: DynMod, k: PencilKind, update: Pencils.PencilMod -> Pencils.PencilMod): (r: DynMod)
    ensures r.index == d.index
    ensures d.index.id == PencilModType(k) && d.modifier.PencilModifier? ==>
      r.modifier == PencilModifier(update(d.modifier.pencilMod))
    ensures !(d.index.id == PencilModType(k) && d.modifier.PencilModifier?) ==> r == d
  {
    if d.index.id == PencilModType(k) && d.modifier.PencilModifier? then
      d.(modifier := PencilModifier(update(d.modifier.pencilMod)))
    else d
  }

  /** `get_modifier_mut::<Bucket>()` followed by `Bucket::update`. */
  function UpdateBucket(d: DynMod, input: BucketInput): (r: DynMod)
    ensures r.index == d.index
    ensures d.index.id == BucketType && d.modifier.BucketMod? ==>
      r.modifier == BucketMod(Buckets.Update(d.modifier.bucket, input.primaryClicked, input.wantsPointer, input.hovered))
    ensures !(d.index.id == BucketType && d.modifier.BucketMod?) ==> r == d
  {
    if d.index.id == BucketType && d.modifier.BucketMod? then
      d.(modifier := BucketMod(Buckets.Update(d.modifier.bucket, input.primaryClicked, input.wantsPointer, input.hovered)))
    else d
  }

  /** `process_modifiers` on the selected node's modifier, if any: the three
      pencil updates and the bucket update, tried in that order. The pencils'
      own `update` is the parameter `update`. */
  function ProcessModifiers(selected: Option<DynMod>, update: Pencils.PencilMod -> Pencils.PencilMod, input: BucketInput): (r: Option<DynMod>)
    ensures r.Some? <==> selected.Some?
    ensures r.Some? ==> r.value.index == selected.value.index
  {
    match selected
    case None => None
    case Some(d) =>
      var simple := UpdatePencil(d, SimplePencilType, update);
      var rainbow := UpdatePencil(simple, RainbowPencilType, update);
      var sorter := UpdatePencil(rainbow, PixelSorterType, update);
      Some(UpdateBucket(sorter, input))
  }

  /** On a well-typed modifier exactly the update of its own type runs, once:
      a pencil is updated by `update`, a bucket by `Bucket::update`, and any
      other modifier is left as it is. */
  lemma ProcessUpdatesOnlyOwnType(d: DynMod, update: Pencils.PencilMod -> Pencils.PencilMod, input: BucketInput)
    requires WellTyped(d)
    ensures var r := ProcessModifiers(Some(d), update, input).value;
      (d.modifier.PencilModifier? ==> r == d.(modifier := PencilModifier(update(d.modifier.pencilMod)))) &&
      (d.modifier.BucketMod? ==>
        r == d.(modifier := BucketMod(Buckets.Update(d.modifier.bucket, input.primaryClicked, input.wantsPointer, input.hovered)))) &&
      (!d.modifier.PencilModifier? && !d.modifier.BucketMod? ==> r == d)
  {
  }

  /** A pencil update that keeps the pencil's kind keeps the modifier
      well-typed. */
  lemma ProcessKeepsWellTyped(d: DynMod, update: Pencils.PencilMod -> Pencils.PencilMod, input: BucketInput)
    requires WellTyped(d)
    requires forall p :: PencilKindOf(update(p).pencil) == PencilKindOf(p.pencil)
    ensures WellTyped(ProcessModifiers(Some(d), update, input).value)
  {
    ProcessUpdatesOnlyOwnType(d, update, input);
  }

  /** A click that moves a selected bucket's target makes its node's cache
      miss on the next frame, whatever the input: the bucket recomputes. */
  lemma ClickInvalidatesCache(c: Cation<DynMod>, update: Pencils.PencilMod -> Pencils.PencilMod, input: BucketInput, o: Output)
    requires WellTyped(c.modifier) && c.modifier.modifier.BucketMod?
    requires CheckCache(c, o, DynEq)
    requires input.primaryClicked && !input.wantsPointer
    requires c.modifier.modifier.bucket.wand.target != Some(RoundToPixel(input.hovered))
    ensures !CheckCache(c.(modifier := ProcessModifiers(Some(c.modifier), update, input).value), o, DynEq)
  {
    ProcessUpdatesOnlyOwnType(c.modifier, update, input);
    var snapshot := c.cache.value.modifier.modifier;
    assert snapshot.BucketMod? && snapshot.bucket.wand.target == c.modifier.modifier.bucket.wand.target;
  }
}
