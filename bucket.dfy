/** `Bucket` of `src/modifier/collection/bucket.rs`: the magic wand with a
    `Fill` child, so the selection is painted one colour. */
module Buckets {
  import opened Wrappers
  import opened Images
  import opened Positions
  import opened Fills
  import opened Cations
  import opened MagicWands

  datatype Bucket = Bucket(wand: MagicWand)

  /** `Bucket::default`: no target, threshold 0, and a fresh node holding the
      default (black) fill as child. */
  function Default(last: Uuid): (r: (Bucket, Uuid))
    ensures r.0.wand.target.None? && r.0.wand.threshold == 0.0 && r.0.wand.child.Some?
    ensures var c := r.0.wand.child.value;
      c.modifier == Fill(BLACK) && c.cache.None? && c.id > last && r.1 == c.id
  {
    var made := New(Fills.Default(), last);
    var w := MagicWand(None, 0.0, Some(made.0));
    (Bucket(w), made.1)
  }

  /** Derived equality of `Bucket`: the wands'. */
  predicate Eq(a: Bucket, b: Bucket)
  {
    MagicWands.Eq(a.wand, b.wand)
  }

  /** `Bucket::apply`: the wand's. */
  function Apply(b: Bucket, input: Output, last: Uuid): (r: (Bucket, Option<Image>, Uuid))
    ensures r.2 >= last
    ensures input.image.None? ==> r.1.None?
    ensures b.wand.target.None? ==> r == (b, input.image, last)
    ensures r.0.wand.target == b.wand.target && r.0.wand.threshold == b.wand.threshold
  {
    var (w, image, next) := MagicWands.Apply(b.wand, input, last);
    (Bucket(w), image, next)
  }

  /** A fresh bucket has no target, so it hands every input through. */
  lemma FreshBucketUnchanged(last: Uuid, input: Output, now: Uuid)
    ensures Apply(Default(last).0, input, now).1 == input.image
  {
  }

  /** When the child node recomputes, every selected pixel takes the fill
      colour and every other pixel keeps its own. */
  lemma PaintsSelection(b: Bucket, input: Output, last: Uuid, p: UVec2)
    requires b.wand.target.Some? && b.wand.child.Some?
    requires !CheckCache(b.wand.child.value, input, FillEq)
    requires input.image.Some? && ContainsPixel(input.image.value, p)
    ensures var img := input.image.value;
      var out := Apply(b, input, last).1;
      out.Some? && ContainsPixel(out.value, p) &&
      At(out.value, p) ==
        if p in Selection(img, b.wand.target.value, b.wand.threshold)
        then FromColor32(b.wand.child.value.modifier.color)
        else At(img, p)
  {
    var img := input.image.value;
    var child := ChildOutput(b.wand.child.value, input, last).1;
    assert child.image == Fills.Apply(b.wand.child.value.modifier, input.image);
    assert ContainsPixel(child.image.value, p);
  }

  /** `Bucket::update`: the wand's. */
  function Update(b: Bucket, primaryClicked: bool, wantsPointer: bool, hovered: Position): (r: Bucket)
    ensures primaryClicked && !wantsPointer ==> r.wand.target == Some(RoundToPixel(hovered))
    ensures !(primaryClicked && !wantsPointer) ==> r == b
    ensures r.wand.threshold == b.wand.threshold && r.wand.child == b.wand.child
  {
    Bucket(MagicWands.Update(b.wand, primaryClicked, wantsPointer, hovered))
  }

  /** The threshold slider's range: from 0 to the brightness of white. */
  function ClampThreshold(t: real): (r: real)
    ensures 0.0 <= r <= WHITE_SUM
    ensures 0.0 <= t <= WHITE_SUM ==> r == t
    ensures t < 0.0 ==> r == 0.0
    ensures t > WHITE_SUM ==> r == WHITE_SUM
  {
    if t < 0.0 then 0.0 else if t > WHITE_SUM then WHITE_SUM else t
  }

  /** Dragging the threshold slider in `Bucket::view` to `edited`. */
  function EditThreshold(b: Bucket, edited: real): (r: Bucket)
    ensures 0.0 <= r.wand.threshold <= WHITE_SUM
    ensures r.wand.target == b.wand.target && r.wand.child == b.wand.child
  {
    b.(wand := b.wand.(threshold := ClampThreshold(edited)))
  }

  /** Once edited, the threshold stays within range through updates and
      applies. */
  lemma ThresholdStaysInRange(b: Bucket, edited: real, clicked: bool, wants: bool, hovered: Position, input: Output, last: Uuid)
    ensures var e := EditThreshold(b, edited);
      0.0 <= Apply(Update(e, clicked, wants, hovered), input, last).0.wand.threshold <= WHITE_SUM
  {
  }
}
