# image-mod modifier engine in Dafny

image-mod is an image editor in which an image flows through a chain of
*modifiers*. Each modifier sits in a caching node (`Cation`). A node
recomputes its `Output` only when its modifier value changed or the
upstream output's identity changed, and every recomputation mints a fresh
identity. This project models the `src/modifier/` generation of that engine:

- the caching node and the `Output` identity;
- type erasure through `DynMod`, `ModifierIndex` and `Modifier::name`;
- the registry of modifier types and the per-frame update dispatch;
- the `List` fold and the slots that hold nodes;
- the editor's selection and drag-and-drop bookkeeping;
- `AppliedValue`;
- the pixel grid, `Position` arithmetic and the pixel algorithms: magic wand, bucket, fill, overlay, the pencils, resize and the canvas enumeration.

Values are datatypes. The editor (`Editors.Editor`) and `AppliedValue`
(`Applied.AppliedCell`) are classes whose methods update fields in place.
Every loop of the source is a method with loop invariants, proved equal to
a specification function. The properties of the source are lemmas about
those functions:

- cache hits and misses;
- freshness of identities;
- the registry being sorted and complete;
- the magic-wand selection;
- the rainbow hue count;
- the pixel sorter permuting and sorting its run, for integer walking directions;
- the row-major canvas enumeration.

The modifier signature is unified as `apply(Output) -> Option<Image>`
(the one `src/modifier/cation.rs:38` calls). `Modification` and
`ModOutput`, which `list.rs`, `magic_wand.rs` and `pencil/mod.rs` import
from a module that is not part of this model, are taken to be `Cation` and
`Output`. A modifier's `apply` may change the modifier (a nested node
refreshes its cache), so each apply returns the modifier afterwards.
Identities (`Uuid`) are natural numbers drawn from a counter that is threaded
through every call. `0` is `Uuid::nil()`.

Files:

| file | module | source |
|---|---|---|
| `wrappers.dfy` | `Wrappers` | `Option`/`Result` |
| `position.dfy` | `Positions` | `src/position.rs` |
| `image.dfy` | `Images` | `src/image.rs` |
| `primitives.dfy` | `Primitives` | the image-library calls, as parameters |
| `applied.dfy` | `Applied` | `src/applied.rs` |
| `sorting.dfy` | `Sorting` | Rust's stable `sort_by` |
| `traits.dfy` | `Traits` | `src/modifier/traits.rs` |
| `cation.dfy` | `Cations` | `src/modifier/cation.rs` |
| `modifiers.dfy` | `Modifiers` | `DynMod`, `ModifierSlot` and the union of modifier types |
| `pipeline.dfy` | `Pipeline` | `Cation::output`, `apply` of every type, `list.rs` |
| `slot.dfy` | `Slots` | `src/slot.rs` |
| `editor.dfy` | `Editors` | `src/editor.rs` and the slot transitions of `src/slot.rs` |
| `collection.dfy` | `Collection` | `src/modifier/collection/mod.rs` |
| `fill.dfy` | `Fills` | `fill.rs` |
| `magic_wand.dfy` | `MagicWands` | `magic_wand.rs` |
| `bucket.dfy` | `Buckets` | `bucket.rs` |
| `overlay.dfy` | `Overlays` | `overlay.rs` |
| `resize.dfy` | `Resizing` | `resize.rs` |
| `pencil.dfy`, `simple.dfy`, `rainbow.dfy`, `sort.dfy` | `Pencils`, `SimplePencils`, `RainbowPencils`, `PixelSorters` | `pencil/*.rs` |
| `canvas.dfy` | `Canvas` | `src/selectors/collection/canvas.rs` |

## Model

Definitional helpers (`Traits.Name`, `Cations.CheckCache`, `Cations.NodeEq`, `Modifiers.ModEq`, `Images.ContainsPixel`, `Positions.Add`, `Resizing.DisplayFilter` and the like) have no row of their own: each is described by the rows of the lemmas about it, which cite the same source lines.

| member | source | states |
|---|---|---|
| Positions.FromU32 | src/position.rs:12-24 | an unsigned pair becomes a non-negative position with those integer parts (`ZERO`, `ONE`) |
| Positions.FromI32 | src/position.rs:26-31 | a signed pair becomes a position with those integer parts |
| Positions.Trunc | src/position.rs:42-45 | `as i32` truncates toward zero: the result lies within one of the value, on the side of zero |
| Positions.ToI32 | src/position.rs:42-45 | the saturating `f32 as i32` cast: always within i32 range, equal to the truncation when that fits, negative exactly when the value is at most -1 |
| Positions.IntoI32 | src/position.rs:42-45 | both components are cast; a component is negative iff it is at most -1, so -0.5 gives 0 |
| Positions.TryIntoU32 | src/position.rs:33-40 | `Err("negative value")` exactly when a component is at most -1; otherwise the truncated components, each at most one above the coordinate |
| Positions.IntoI32FromI32 | src/position.rs:26-45 | `into_i32(from_i32(x, y)) == (x, y)` for every i32 pair |
| Positions.TryIntoU32FromU32 | src/position.rs:19-40 | `try_into_u32(from_u32(x, y)) == Ok((x, y))` for every pair within i32 range |
| Positions.SaturateU32 | src/modifier/collection/pencil/mod.rs:57 | the saturating cast to u32: in range unchanged, negative to 0, too large to `u32::MAX` |
| Positions.AsUVec2 | src/modifier/collection/pencil/mod.rs:57-62 | `as_uvec2`: each in-range non-negative coordinate lands on the pixel containing it; negative ones on 0 |
| Positions.Round | src/modifier/collection/magic_wand.rs:25 | `round` is within one half of the value and keeps its sign |
| Positions.RoundToPixel | src/modifier/collection/magic_wand.rs:23-26 | the hovered position rounded to a pixel lies within one half of it, per coordinate |
| Positions.Min | src/position.rs:51-56 | component-wise minimum: below both, and equal to one of them |
| Positions.Max | src/position.rs:58-63 | component-wise maximum: above both, and equal to one of them |
| Positions.Lerp | src/position.rs:73-75 | `lerp(a, b, 0) == a` and `lerp(a, b, 1) == b` |
| Positions.AddSub | src/position.rs:78-104 | `(a + b) - b == a`, `(a - b) + b == a`, and addition commutes |
| Positions.DotProperties | src/position.rs:65-67 | `dot` is symmetric, non-negative on a vector with itself, and linear under scaling |
| Positions.DivScale | src/position.rs:120-134 | dividing by a non-zero scalar undoes multiplying by it |
| Positions.MinMaxPartition | src/position.rs:51-63 | `min(a, b) + max(a, b) == a + b`: each coordinate of each input goes to exactly one side |
| Images.FromColor32 | src/modifier/collection/fill.rs:25 | an 8-bit colour becomes channels in [0, 1]; its brightness `sum_rgb` lies in [0, 3], is 3 for white and 0 for black |
| Images.GetPixel | src/image.rs:56-73 | `Ok` with the pixel's colour exactly when the position is inside the grid; otherwise `Err("pixel outside image")` |
| Images.SetPixel | src/image.rs:46-64 | inside the grid: `Ok`, same size, the pixel holds the colour and every other pixel is unchanged; outside: `Err("pixel outside image")` |
| Images.WritePixel | src/image.rs:46-54 | `set_pixel(..).ok()`: writes the one pixel when inside, and leaves the image unchanged otherwise |
| Images.GetAfterSet | src/image.rs:46-73 | reading a pixel just set inside the grid yields the colour written |
| Images.Ext | src/image.rs:56-64 | two images of the same size that agree on every pixel are equal |
| Images.DefaultImage | src/image.rs:16-22 | the default image is 1×1 |
| Images.MakeImage | src/image.rs:61-64 | an image of the requested size whose pixels are the given function |
| Applied.AppliedValue.Set | src/applied.rs:26-30 | a write through `deref_mut` goes to `temp` and leaves the value read unchanged |
| Applied.AppliedValue.Commit | src/applied.rs:12-16 | after `commit` the value read is the edited one |
| Applied.New | src/applied.rs:38-44 | `new(v)` reads `v` and holds `v` as its edit |
| Applied.View | src/applied.rs:46-52 | the widget edits `temp`; the value read changes to the edit iff the response reports drag-released or lost focus |
| Applied.ViewWidget | src/applied.rs:46-52 | `view` around a widget that starts from `temp`: the edit, if any, lands in `temp`; without a released drag or lost focus the value stays equal to what it was, with one it reads the edited value |
| Applied.WriteThenCommit | src/applied.rs:12-36 | a write is invisible to reads and to equality until `commit`, after which it is read |
| Applied.CommitIdempotent | src/applied.rs:12-16 | committing twice is committing once |
| Applied.EqIgnoresTemp | src/applied.rs:32-36 | equality compares only the value read; it is an equivalence |
| Applied.NewCommitted | src/applied.rs:12-44 | a fresh value is already committed |
| Applied.AppliedCell.constructor | src/applied.rs:38-44 | `new(v)` in place |
| Applied.AppliedCell.Write | src/applied.rs:26-30 | an in-place write through `deref_mut` leaves the value read unchanged |
| Applied.AppliedCell.Commit | src/applied.rs:12-16 | in-place `commit`: the value read becomes the old edit |
| Applied.AppliedCell.ViewFrame | src/applied.rs:46-52 | in-place `view`, as `Applied.View` |
| Sorting.InsertBy | src/editor.rs:52-55 | inserting into a sorted vector adds exactly the new element (length and multiset) |
| Sorting.SortBy | src/modifier/collection/pencil/sort.rs:90-102 | `sort_by` returns a permutation of its input |
| Sorting.InsertSorted | src/editor.rs:52-55 | insertion keeps a vector sorted under a total preorder |
| Sorting.SortBySorted | src/modifier/collection/pencil/sort.rs:90-102 | `sort_by` under a total preorder returns a sorted sequence |
| Sorting.InsertLast | src/editor.rs:52-55 | inserting an element no smaller than all others appends it (stability) |
| Sorting.SortSortedIdentity | src/editor.rs:52-55 | sorting an already sorted sequence leaves it unchanged |
| Sorting.PushSort | src/editor.rs:52-55 | `push` then `sort_by` on a sorted vector is insertion at the stable position |
| Traits.FirstIndexOf | src/modifier/traits.rs:17 | the first occurrence of the separator, or the length when there is none |
| Traits.SplitInclusive | src/modifier/traits.rs:17 | `split_inclusive('<')`: the pieces concatenate back to the input, each non-final piece ends with its only `<`, and no piece is empty |
| Traits.LastSegmentSuffix | src/modifier/traits.rs:18 | `split("::").last()` is a suffix of its input |
| Traits.LastSegmentNoSep | src/modifier/traits.rs:18 | the last segment contains no `::` |
| Traits.LastSegmentWhole | src/modifier/traits.rs:18 | the last segment is the whole string iff the string has no `::`; otherwise it is at least two shorter |
| Traits.LastSegmentNonEmpty | src/modifier/traits.rs:18 | a string not ending in `:` has a non-empty last segment |
| Traits.LastSegmentSnoc | src/modifier/traits.rs:18 | appending a non-colon character to a string appends it to its last segment |
| Traits.LastSegmentAfter | src/modifier/traits.rs:18 | a prefix without `::` followed by `::` is dropped by `last()` |
| Traits.MapLastSegment | src/modifier/traits.rs:18 | the `map` keeps one result per piece |
| Traits.NameHasNoSeparator | src/modifier/traits.rs:12-21 | `name()` never contains `::` |
| Traits.NameKeepsBrackets | src/modifier/traits.rs:16-20 | `name()` has as many `<` as the type path |
| Traits.SegmentCount | src/modifier/traits.rs:17-18 | on a piece whose only `<` is its last character, taking the last segment keeps the `<` count |
| Traits.ConcatCount | src/modifier/traits.rs:17-20 | mapping and concatenating the pieces keeps the `<` count |
| Traits.ConcatSegmentsNoSep | src/modifier/traits.rs:17-20 | the concatenated last segments contain no `::` |
| Traits.SplitOne | src/modifier/traits.rs:17 | a non-empty string without the separator splits into itself |
| Traits.SplitTwo | src/modifier/traits.rs:17 | `x<y` splits into `x<` and `y` |
| Traits.PathLast | src/modifier/traits.rs:18 | the last segment of a `::`-joined path is its last component |
| Traits.PlainName | src/modifier/traits.rs:12-21 | the name of a non-generic path is its last component |
| Traits.GenericName | src/modifier/traits.rs:12-21 | `a::b::Outer<c::Inner>` is named `Outer<Inner>` |
| Traits.CollectionName | src/modifier/traits.rs:12-21 | a collection type's path is named by its type name |
| Traits.GenericCollectionName | src/modifier/traits.rs:12-21 | `PencilMod<..::RainbowPencil>`-shaped paths are named `PencilMod<RainbowPencil>` |
| Traits.PencilModName | src/modifier/traits.rs:12-21 | each pencil modifier's type path is named as the registry names it |
| Traits.IndexName | src/modifier/traits.rs:12-21 | for every modifier type, `name()` of its type path is the short name the registry uses |
| Traits.TypeLocation | src/modifier/traits.rs:16 | every non-generic type lives at a module path of well-formed segments |
| Traits.PencilLocation | src/modifier/traits.rs:16 | every pencil type lives at a module path of well-formed segments |
| Traits.CollectionSegments | src/modifier/traits.rs:16 | a collection path is made of well-formed segments |
| Traits.Index | src/modifier/traits.rs:23-32 | `index()` records the type and its `name()` |
| Traits.IndexEqByType | src/modifier/traits.rs:84-88 | an entry equals `T::index()` iff its type id is `T`, whatever its name |
| Traits.CountAppend | src/modifier/traits.rs:20 | counting `<` distributes over concatenation |
| Cations.NewOutput | src/modifier/cation.rs:122-127 | `Output::new` keeps the image and mints an identity never handed out before, and not nil |
| Cations.NewEmpty | src/modifier/cation.rs:129-134 | `new_empty` has no image and the nil identity |
| Cations.New | src/modifier/cation.rs:15-21 | a fresh node holds the modifier, no cache and a fresh identity |
| Cations.Store | src/modifier/cation.rs:37-47 | `apply` keeps the identity, stores the snapshot of the modifier, the fresh output and the input's identity |
| Cations.StoreHits | src/modifier/cation.rs:23-47 | right after `apply`, `check_cache` on the same input holds |
| Cations.FreshMisses | src/modifier/cation.rs:15-27 | a fresh node misses on every input, so its first `output` recomputes |
| Cations.CacheKeyedByInput | src/modifier/cation.rs:23-27 | a cache that answers one input misses on every input with another identity |
| Cations.NodeEqIgnoresCache | src/modifier/cation.rs:50-54 | node equality is identity and modifier; the cache does not matter |
| Modifiers.EqSameType | src/modifier/traits.rs:51-63 | the `DynPartialEq` comparison of values of different concrete types is false |
| Modifiers.ModEqReflexive | src/modifier/traits.rs:51-63 | every modifier equals itself, through nested slots and lists |
| Modifiers.SlotEqReflexive | src/slot.rs:15-20 | the derived slot equality is reflexive |
| Modifiers.ListEqReflexive | src/modifier/collection/list.rs:9-12 | element-wise list equality is reflexive |
| Modifiers.NodeEqualReflexive | src/modifier/cation.rs:50-54 | every node equals itself |
| Modifiers.NodeEqualIsNodeEq | src/modifier/cation.rs:50-54 | node equality over `DynMod` is the generic `Cation` equality with the `DynMod` comparison |
| Modifiers.DefaultPencil | src/modifier/collection/pencil/mod.rs:20-25 | the default pencil of each kind is of that kind |
| Modifiers.Instance | src/modifier/traits.rs:30 | the instancer yields a value of exactly the entry's type; only a bucket (whose fill child is a node) consumes an identity |
| Modifiers.DynNew | src/modifier/cation.rs:63-71 | `DynMod::new` records the value's own type and name, so the result is well-typed |
| Modifiers.FromIndex | src/modifier/cation.rs:73-78 | `DynMod::from_index` keeps the entry and the instancer's value matches it |
| Modifiers.Downcast | src/modifier/cation.rs:80-96 | `modifier::<M>`/`modifier_mut::<M>` return the value iff the entry equals `M::index()`, and none otherwise |
| Modifiers.DowncastSound | src/modifier/cation.rs:80-96 | on a well-typed `DynMod` a successful downcast yields a value of that type, and at most one type downcasts |
| Pipeline.NodeOutput | src/modifier/cation.rs:29-47 | `output`: on a hit the stored output and nothing consumed; on a miss a fresh identity; either way the node keeps its identity and type and afterwards hits on that input |
| Pipeline.ApplyModifier | src/modifier/cation.rs:105-108 | `apply` keeps the modifier's type; without an input image only `Source` and `List` can produce one; only bucket, overlay and list change themselves |
| Pipeline.SlotOutput | src/slot.rs:48-54 | an occupied slot asks its node; an empty or dragged-away slot hands the input through unchanged |
| Pipeline.Fold | src/modifier/collection/list.rs:18-21 | the fold keeps every node's identity, in order; no nodes hand the start through |
| Pipeline.OutputTwice | src/modifier/cation.rs:23-35 | asking again for the same input returns the same output and changes nothing |
| Pipeline.ChangeRecomputes | src/modifier/cation.rs:23-47 | a changed modifier or input identity recomputes, and the output differs from the stored one |
| Pipeline.EmptyListKeepsImage | src/modifier/collection/list.rs:15-25 | an empty list returns the input image |
| Pipeline.FoldMisses | src/modifier/collection/list.rs:18-21 | fed an output newer than all recorded inputs, every node in the fold recomputes |
| Pipeline.ListRecomputes | src/modifier/collection/list.rs:16-21 | because the list wraps its input in a fresh `Output`, every node recomputes whenever the list runs |
| Pipeline.ListApply | src/modifier/collection/list.rs:15-26 | the `for` loop over `iter_mut` computes the list's `apply` |
| Slots.IsEmpty | src/slot.rs:41-46 | `is_empty` holds exactly for `Empty` |
| Slots.ModRef | src/slot.rs:56-70 | `mod_ref`/`mod_mut` give the node iff the slot holds one |
| Slots.Take | src/slot.rs:76-81 | `take(r)` leaves `r` and hands back the node iff there was one |
| Slots.Drag | src/slot.rs:72-74 | `drag` leaves `Dragged(id)` and hands back the node; other slots are untouched |
| Slots.FromIndex | src/slot.rs:37-39 | a fresh node without cache, holding a well-typed value under exactly that entry |
| Editors.FromDynCation | src/editor.rs:32-37 | the selection records the node's identity and entry |
| Editors.TryFromSlot | src/editor.rs:39-48 | `Ok` exactly for an occupied slot; otherwise `Err("slot is empty")` |
| Editors.LexLeTotal | src/editor.rs:54 | string order compares every pair |
| Editors.LexLeTransitive | src/editor.rs:54 | string order is transitive |
| Editors.NameOrderTotal | src/editor.rs:54 | ordering entries by name is a total preorder |
| Editors.AddIndexTo | src/editor.rs:52-55 | `add_index` grows the registry by exactly the new entry and leaves it sorted by name |
| Editors.AddIndexInserts | src/editor.rs:52-55 | on a sorted registry, `add_index` is the stable insertion of the entry |
| Editors.SlotView | src/slot.rs:115-193 | the slot transitions of one frame: toggle selects, drag moves the node to `dragging` leaving `Dragged(id)`, delete empties; an empty slot takes the dropped node; a `Dragged(id)` slot stays while its node is dragged, takes it back from `dropped`, or becomes `Empty` |
| Editors.Handoff | src/editor.rs:71-76 | at the end of a frame with nothing dragged, `dragging` moves to `dropped`; otherwise both stay |
| Editors.DragAndReturn | src/slot.rs:125-193 | a node dragged and released over no slot returns to its own slot, leaving neither `dragging` nor `dropped` |
| Editors.MoveToEmptySlot | src/slot.rs:125-193 | a node dragged onto an empty slot lands there and its old slot becomes `Empty` |
| Editors.Editor.constructor | src/editor.rs:15-24 | by default the registry is empty and nothing is selected, dragged or dropped |
| Editors.Editor.AddIndex | src/editor.rs:52-55 | in-place `add_index`; nothing else changes |
| Editors.Editor.SelectCation | src/editor.rs:79-90 | after `select_cation(c)`, `selected_id()` is `c.id`; nothing else changes |
| Editors.Editor.TrySelectSlot | src/editor.rs:83-86 | on an occupied slot selects its node; on any other slot returns `Err("slot is empty")` with the selection unchanged |
| Editors.Editor.SelectedId | src/editor.rs:88-90 | the selected node's identity iff something is selected |
| Editors.Editor.IsModifierSelected | src/editor.rs:92-96 | holds iff something is selected and its entry's type is `T` |
| Editors.Editor.EndFrame | src/editor.rs:71-76 | the in-place handoff |
| Editors.Editor.ViewSlot | src/slot.rs:103-195 | the in-place slot transitions on the editor's fields |
| Collection.RegisteredTypes | src/modifier/collection/mod.rs:33-47 | every type of the modifier union except `Overlay` and `List` is registered, once (`MagicWand` is not in the union, see Left out) |
| Collection.RegisteredOnce | src/modifier/collection/mod.rs:33-47 | the thirteen registered types are distinct |
| Collection.Entry | src/modifier/collection/mod.rs:78-80 | the entry registered for a type carries that type |
| Collection.EntryIsIndex | src/modifier/collection/mod.rs:78-80 | the entry is `T::index()` |
| Collection.Registering | src/modifier/collection/mod.rs:33-47 | after `n` registrations the registry grew by `n` and is sorted |
| Collection.AddIndexMembers | src/editor.rs:52-55 | `add_index` keeps every entry and adds exactly the new one |
| Collection.AmongFirstStep | src/modifier/collection/mod.rs:33-47 | the first `n` registrations are the first `n - 1` and the `n`-th |
| Collection.RegisteringMembers | src/modifier/collection/mod.rs:33-47 | after `n` registrations the registry holds the old entries and those of the first `n` types, and nothing else |
| Collection.InitModifier | src/modifier/collection/mod.rs:78-80 | `init_modifier::<T>` adds `T`'s entry and changes nothing else |
| Collection.InitModifiersCollection | src/modifier/collection/mod.rs:33-47 | the thirteen registrations in order |
| Collection.InitFromEmpty | src/modifier/collection/mod.rs:33-47 | from an empty editor: thirteen entries, sorted by name, exactly the entries of every type of the modifier union but `Overlay` and `List` |
| Collection.UpdatePencil | src/modifier/collection/mod.rs:51-70 | a pencil's `update` runs iff the entry is that pencil's; the entry is kept |
| Collection.UpdateBucket | src/modifier/collection/mod.rs:72-74 | the bucket's `update` runs iff the entry is the bucket's |
| Collection.ProcessModifiers | src/modifier/collection/mod.rs:49-76 | only a selected node is touched, and its entry is kept |
| Collection.ProcessUpdatesOnlyOwnType | src/modifier/collection/mod.rs:51-74 | on a well-typed modifier exactly the update of its own type runs; other modifiers are unchanged |
| Collection.ProcessKeepsWellTyped | src/modifier/collection/mod.rs:49-76 | the dispatch keeps a modifier well-typed |
| Collection.ClickInvalidatesCache | src/modifier/collection/mod.rs:72-74 | a click that moves a bucket's target makes its node recompute |
| Fills.Default | src/modifier/collection/fill.rs:13-19 | the default colour is black |
| Fills.Filled | src/modifier/collection/fill.rs:22-28 | every pixel becomes the colour and the size is kept |
| Fills.Apply | src/modifier/collection/fill.rs:22-28 | with an image: same size, every pixel the fill colour; without: nothing |
| Fills.ApplyLoop | src/modifier/collection/fill.rs:22-28 | the loop over all coordinates computes `apply` |
| Fills.ApplyIdempotent | src/modifier/collection/fill.rs:24-26 | filling twice is filling once |
| Fills.ApplyIgnoresPixels | src/modifier/collection/fill.rs:24-26 | the result depends only on the size, not on the pixels |
| MagicWands.SelectFrom | src/modifier/collection/magic_wand.rs:42-47 | a coordinate is kept iff its brightness differs from the target's by less than the threshold |
| MagicWands.Selection | src/modifier/collection/magic_wand.rs:39-48 | a pixel is selected iff the target is inside, the pixel is inside, and the brightness difference is strictly below the threshold |
| MagicWands.Recolor | src/modifier/collection/magic_wand.rs:50-53 | selected pixels take the child's colour at that coordinate; every other pixel and the size are unchanged |
| MagicWands.SelectLoop | src/modifier/collection/magic_wand.rs:39-48 | the selection loop computes the selection |
| MagicWands.RecolorLoop | src/modifier/collection/magic_wand.rs:50-53 | the write loop computes the recolouring |
| MagicWands.SelectAndRecolor | src/modifier/collection/magic_wand.rs:39-53 | both loops: selection on the unmodified input, then recolouring |
| MagicWands.ChildOutput | src/modifier/collection/magic_wand.rs:37 | the fill child is asked on the wand's own input: a hit returns the stored output, a miss fills the input |
| MagicWands.Apply | src/modifier/collection/magic_wand.rs:34-60 | without target or child, the input image; otherwise the recoloured input when both images exist, the input image when not |
| MagicWands.OnlySelectedChange | src/modifier/collection/magic_wand.rs:39-53 | a changed pixel was selected; so the threshold was positive, and threshold 0 changes nothing |
| MagicWands.Update | src/modifier/collection/magic_wand.rs:21-30 | an unconsumed primary click sets the target to the rounded hovered pixel; anything else changes nothing |
| Buckets.Default | src/modifier/collection/bucket.rs:20-29 | no target, threshold 0 and a fresh black fill child |
| Buckets.Apply | src/modifier/collection/bucket.rs:37-40 | the wand's `apply`; without a target the input image is returned |
| Buckets.FreshBucketUnchanged | src/modifier/collection/bucket.rs:20-40 | a fresh bucket returns the input image |
| Buckets.PaintsSelection | src/modifier/collection/magic_wand.rs:39-53 | on recomputation each selected pixel becomes the fill colour and every other pixel is kept |
| Buckets.Update | src/modifier/collection/bucket.rs:31-35 | the wand's `update` |
| Buckets.ClampThreshold | src/modifier/collection/bucket.rs:47-50 | the drag value is clamped to [0, brightness of white] |
| Buckets.EditThreshold | src/modifier/collection/bucket.rs:45-52 | editing the threshold keeps it in range and changes nothing else |
| Buckets.ThresholdStaysInRange | src/modifier/collection/bucket.rs:31-52 | edit, update and apply keep the threshold in range |
| Overlays.Default | src/modifier/collection/overlay.rs:17-25 | target zero, empty slot, not dragging |
| Overlays.InstanceIsDefault | src/modifier/collection/overlay.rs:17-25 | the registry's instancer yields the default |
| Overlays.EqIgnoresDragging | src/modifier/collection/overlay.rs:27-31 | equality is target and slot; the drag flag is ignored |
| Overlays.PassThrough | src/modifier/collection/overlay.rs:34-42 | without a node or an input image, the input image is returned |
| Overlays.Composites | src/modifier/collection/overlay.rs:34-42 | the node is asked on the overlay's own input; with both images the child is composited at `target` |
| Overlays.View | src/modifier/collection/overlay.rs:44-68 | `target` changes only while dragging with a button down, by the pointer's movement; a press with primary down inside the view starts a drag, a release inside it ends it; in every other frame the drag goes on exactly while it was on and a button is down, moving `target` by the pointer's movement, and otherwise ends |
| Overlays.ViewWithoutMoveKeepsEquality | src/modifier/collection/overlay.rs:27-68 | a frame that does not move the target leaves the overlay equal to before |
| Overlays.ViewSteps | src/modifier/collection/overlay.rs:48-67 | the statements of `view` compute its drag handling |
| Resizing.Default | src/modifier/collection/resize.rs:22-29 | relative 100% with the Gaussian filter |
| Resizing.TargetSize | src/modifier/collection/resize.rs:34-41 | absolute requests exactly the size; relative requests `max(size · p / 100, 1)` per dimension |
| Resizing.HundredPercentKeepsSize | src/modifier/collection/resize.rs:38-41 | 100% of a non-empty image requests its own size |
| Resizing.Apply | src/modifier/collection/resize.rs:32-44 | without an image nothing; a refused resize keeps the image |
| Resizing.Toggle | src/modifier/collection/resize.rs:46-58 | the checkbox switches mode and resets the size to (100, 100), keeping the filter |
| Resizing.ToggleTwice | src/modifier/collection/resize.rs:46-58 | toggling twice returns to the mode; from the default, to the default |
| Resizing.DisplayFilterInjective | src/modifier/collection/resize.rs:136-144 | different filters get different labels |
| Pencils.Default | src/modifier/collection/pencil/mod.rs:20-25 | no pixels, no last pixel |
| Pencils.PencilPixel | src/modifier/collection/pencil/mod.rs:32 | `pencil.pixel`: the simple pencil returns its colour and changes nothing; the rainbow pencil returns a colour without touching the image; the sorter returns none |
| Pencils.Paint | src/modifier/collection/pencil/mod.rs:32-34 | one replay step keeps the size |
| Pencils.Replay | src/modifier/collection/pencil/mod.rs:31-35 | the replay keeps the size |
| Pencils.Apply | src/modifier/collection/pencil/mod.rs:28-38 | an image iff the input has one, of the same size |
| Pencils.ApplyLoop | src/modifier/collection/pencil/mod.rs:28-38 | the loop over the recorded pixels, on a clone of the pencil, computes `apply` |
| Pencils.SimpleReplay | src/modifier/collection/pencil/simple.rs:20-22 | every recorded pixel ends up the pencil's colour and every other pixel is kept |
| Pencils.RainbowReplay | src/modifier/collection/pencil/mod.rs:30-35 | the replayed rainbow pencil is the pencil after the whole stroke |
| Pencils.SorterReplay | src/modifier/collection/pencil/mod.rs:30-35 | the sorter is unchanged, and each step is the sorter's own rewrite of the image |
| Pencils.CeilSqrt | src/modifier/collection/pencil/mod.rs:53 | `delta.length().ceil()`: the least natural number whose square reaches the squared distance |
| Pencils.CeilSqrtFrom | src/modifier/collection/pencil/mod.rs:53 | the search for that number |
| Pencils.Between | src/modifier/collection/pencil/mod.rs:50-59 | a jump of more than one pixel adds exactly `ceil(d) - 1` intermediate points, otherwise none |
| Pencils.PencilView | src/modifier/collection/pencil/mod.rs:41-41 | `Pencil::view` on the pencil in hand keeps its kind and runs that pencil's widgets |
| Pencils.UntouchedView | src/modifier/collection/pencil/mod.rs:41-41 | with no widget touched the simple pencil and the sorter stay equal, and the rainbow pencil only has its hue reduced mod 1 |
| Pencils.View | src/modifier/collection/pencil/mod.rs:40-70 | the pencil becomes what its own widgets leave; `pixels` only grows; while primary is down over the image the intermediate points and the current pixel are appended and it becomes the last pixel; otherwise the last pixel is cleared |
| Pencils.BetweenLoop | src/modifier/collection/pencil/mod.rs:53-58 | the interpolation loop computes the intermediate points |
| Pencils.ViewSteps | src/modifier/collection/pencil/mod.rs:40-69 | the statements of `view` compute the pencil's widgets and the stroke recording |
| SimplePencils.Default | src/modifier/collection/pencil/simple.rs:11-17 | the default colour is black |
| SimplePencils.Pixel | src/modifier/collection/pencil/simple.rs:20-22 | always `Some` of the pencil's colour, whatever the position and image |
| SimplePencils.View | src/modifier/collection/pencil/simple.rs:24-29 | the colour button leaves the picked colour, or the pencil unchanged when nothing was picked |
| RainbowPencils.Default | src/modifier/collection/pencil/rainbow.rs:11-19 | hue 0, saturation 1, value 1, rotation 0.01, no last pixel |
| RainbowPencils.Pixel | src/modifier/collection/pencil/rainbow.rs:22-36 | the hue advances by the rotation exactly when there was a last pixel and it differs; the last pixel becomes this one; the colour is built from hue, value, value |
| RainbowPencils.Run | src/modifier/collection/pencil/rainbow.rs:22-36 | after a stroke, the last pixel is the stroke's last; the rotation is kept |
| RainbowPencils.Changes | src/modifier/collection/pencil/rainbow.rs:23-27 | the number of consecutive pairs that differ is less than the stroke's length |
| RainbowPencils.FromU32Injective | src/modifier/collection/pencil/rainbow.rs:24 | two pixels compare equal as positions iff they are the same pixel |
| RainbowPencils.RunHue | src/modifier/collection/pencil/rainbow.rs:23-29 | from a fresh pencil, the hue after a stroke is `h0 + r · #changes`, not reduced mod 1 |
| RainbowPencils.Rotated | src/modifier/collection/pencil/rainbow.rs:25 | adding the rotation `n` times adds `n` times the rotation |
| RainbowPencils.RunHueSteps | src/modifier/collection/pencil/rainbow.rs:23-29 | the hue after a stroke is the start rotated once per change |
| RainbowPencils.RunHueStep | src/modifier/collection/pencil/rainbow.rs:23-27 | one more pixel either keeps the change count and the hue, or adds one change and one rotation |
| RainbowPencils.RepeatKeepsHue | src/modifier/collection/pencil/rainbow.rs:23-27 | repeating the last pixel does not advance the hue |
| RainbowPencils.RemOne | src/modifier/collection/pencil/rainbow.rs:45-45 | `h % 1.0`: strictly between -1 and 1, with the sign of `h`, a whole number away from `h`, and `h` itself when already in range |
| RainbowPencils.View | src/modifier/collection/pencil/rainbow.rs:38-73 | one frame of the widgets: an untouched hue widget stores the hue reduced mod 1, an edit stores degrees / 360; the rotation is kept or set to degrees / 360; saturation, value and last pixel are kept |
| RainbowPencils.ViewSettles | src/modifier/collection/pencil/rainbow.rs:44-54 | untouched widgets change the pencil on the first frame at most, and not at all for a hue strictly between -1 and 1 |
| RainbowPencils.RunAfterView | src/modifier/collection/pencil/rainbow.rs:44-54 | a stroke replayed after an untouched frame advances from the reduced hue by one rotation per change of position |
| PixelSorters.Default | src/modifier/collection/pencil/sort.rs:23-31 | angle straight down the y axis, threshold 0.1, both directions, all committed |
| PixelSorters.AlongNeg | src/modifier/collection/pencil/sort.rs:47-70 | the backward walk steps the opposite way |
| PixelSorters.View | src/modifier/collection/pencil/sort.rs:111-156 | the threshold and the angle go through `AppliedValue::view`; a clicked direction button selects its direction, otherwise the direction is kept |
| PixelSorters.EqSortsAlike | src/modifier/collection/pencil/sort.rs:16-21 | two sorters that compare equal collect the same run and produce the same image |
| PixelSorters.UncommittedEditSortsAlike | src/modifier/collection/pencil/sort.rs:111-156 | a frame that drags the threshold or angle without releasing it leaves the sorter equal, so it sorts exactly as before |
| PixelSorters.Walk | src/modifier/collection/pencil/sort.rs:45-88 | a walk is in bounds and strictly advances along its direction |
| PixelSorters.WalkShape | src/modifier/collection/pencil/sort.rs:46-64 | each step is one step of `d` from the last, taken only when both pixels are inside and differ in brightness by less than the threshold; the walk stops at the first failure |
| PixelSorters.WalkFromOutside | src/modifier/collection/pencil/sort.rs:49-51 | a walk from outside the image is empty |
| PixelSorters.WalkLoop | src/modifier/collection/pencil/sort.rs:46-64 | the `loop` computes the walk |
| PixelSorters.WalkUnfold | src/modifier/collection/pencil/sort.rs:46-64 | one step of the walk |
| PixelSorters.Run | src/modifier/collection/pencil/sort.rs:35-88 | the run is in bounds, without repetition, and holds the seed iff it is inside |
| PixelSorters.RunDistinct | src/modifier/collection/pencil/sort.rs:41-88 | the seed and the two walks, going opposite ways, never repeat a pixel |
| PixelSorters.CollectRun | src/modifier/collection/pencil/sort.rs:35-88 | the seed push and the walks chosen by `direction` compute the run |
| PixelSorters.PositionOrderTotal | src/modifier/collection/pencil/sort.rs:90-94 | the position order is a total preorder |
| PixelSorters.BrightnessOrderTotal | src/modifier/collection/pencil/sort.rs:102 | the brightness order is a total preorder |
| PixelSorters.SortedPositions | src/modifier/collection/pencil/sort.rs:90-94 | the sorted positions are a permutation of the run, in bounds, and ordered along the direction |
| PixelSorters.PositionsDistinct | src/modifier/collection/pencil/sort.rs:90-94 | the sorted positions do not repeat |
| PixelSorters.Read | src/modifier/collection/pencil/sort.rs:96-100 | one colour per position, read from that position |
| PixelSorters.ReadLoop | src/modifier/collection/pencil/sort.rs:96-100 | the read loop computes the colours |
| PixelSorters.SortedColors | src/modifier/collection/pencil/sort.rs:102 | the sorted colours are a permutation of the colours read |
| PixelSorters.WriteBack | src/modifier/collection/pencil/sort.rs:104-106 | writing back keeps the size and every pixel not written |
| PixelSorters.WriteBackAt | src/modifier/collection/pencil/sort.rs:104-106 | with distinct positions, the `i`-th position holds the `i`-th colour |
| PixelSorters.WriteBackLands | src/modifier/collection/pencil/sort.rs:104-106 | reading the written positions returns the colours written |
| PixelSorters.WriteBackLoop | src/modifier/collection/pencil/sort.rs:104-106 | the zip loop computes the write-back |
| PixelSorters.Pixel | src/modifier/collection/pencil/sort.rs:34-109 | returns none, keeps the size and every pixel outside the run |
| PixelSorters.PixelSteps | src/modifier/collection/pencil/sort.rs:34-109 | the statements of `pixel` compute it |
| PixelSorters.SortsRun | src/modifier/collection/pencil/sort.rs:90-106 | the colours on the run after the call are a permutation of those before, in non-decreasing brightness along the sorted positions |
| PixelSorters.PermutationDistinct | src/modifier/collection/pencil/sort.rs:90-94 | a rearrangement of a sequence without repetition has none |
| PixelSorters.DistinctCount | src/modifier/collection/pencil/sort.rs:90-94 | each element of a sequence without repetition occurs once |
| PixelSorters.SameElements | src/modifier/collection/pencil/sort.rs:90-102 | a permutation has the same elements |
| PixelSorters.PermutedInBounds | src/modifier/collection/pencil/sort.rs:99-105 | a permutation of in-bounds positions is in bounds, so the unwraps cannot fail |
| Canvas.Coords | src/selectors/collection/canvas.rs:13-15 | `w·h` coordinates, element `i` being `(i mod w, i div w)`; every pixel occurs, at its row-major rank |
| Canvas.RowMajorElement | src/selectors/collection/canvas.rs:14 | element `i` is `(i mod w, i div w)` |
| Canvas.RowMajor | src/selectors/collection/canvas.rs:14 | an in-bounds pixel's rank is below `w·h` and maps back to the pixel |
| Canvas.GetPixels | src/selectors/collection/canvas.rs:9-19 | no image, no pixels; otherwise `w·h` in-bounds coordinates |
| Canvas.EveryPixelOnce | src/selectors/collection/canvas.rs:13-15 | every pixel of the image occurs exactly once |
| Canvas.CoordsAsWritten | src/selectors/collection/canvas.rs:13-15 | the range as written, with `size.x * size.y` wrapping in u32, has `w·h mod 2^32` elements |
| Canvas.AsWrittenAgrees | src/selectors/collection/canvas.rs:13-15 | below `2^32` pixels the written range is the row-major enumeration |
| Canvas.AsWrittenDropsEveryPixel | src/selectors/collection/canvas.rs:13-15 | a 65536×65536 image yields no pixel as written, against `2^32` |

## Left out

- Drawing the interface is not modelled: widget layout, menus, `view_dragging`, `view_with_frame`, `add_mod_widget` and the side panel of `Editor::view`. The state changes a frame makes are modelled as explicit inputs: pointer state, clicks, drag start, delete confirmation, the hovered pixel, and what each pencil's widgets report (`Pencils.PencilWidgets`).
- File I/O and threads are not modelled. `Source::apply` opens a file through `Library.open`, which is a parameter. `Image::open`, `save` and `into_bevy_image` are not part of this model.
- The image-library operations are fields of the parameter `Primitives.Library`, because their code is not part of this model: grayscale, hue rotation, brightness, contrast, blur, invert, `Image::resize`, `Image::overlay` and `Color::from_hsv`. Every property holds for all of them.
- In-place updates are modelled on values. Examples are `set_pixel`, a node's cache, the rainbow pencil's state and `take`/`drag` on `*self`. The source owns every node exclusively and clones nodes into cache snapshots, so no aliasing is lost. The editor and `AppliedValue` are classes updated in place.
- `Uuid::new_v4` is a counter: each fresh identity is one above the last identity handed out. Uniqueness is then exact instead of probabilistic.
- Floating point is real arithmetic, with no rounding or NaN. Brightness, hue, threshold and positions are `real`. `f32 as i32`/`as u32` saturation and truncation are written out in `Positions`.
- PixelSorters.Walk: the direction `(cos θ, sin θ)` is a non-zero integer step instead of a float vector. The sort key `dot · length` is replaced by `dot · |dot| · |p|²`, which orders positions the same way. Positions therefore stay on pixels, and a float step's repeated visits to one pixel are not modelled, so in the source the run is a permutation only for axis-aligned angles (at 45° the float positions (2.879, 2.879) and (2.172, 2.172) both fall in pixel (2, 2)).
- PixelSorters.CanStep: `Image::pixel_at_vec2` and `set_pixel_vec` (`sort.rs:49-105`) are not defined in the source files of this model. They are read as failing for a position with a negative component or beyond the image (`PixelSorters.Inside`), and `Walk` terminates only under that reading. A conversion that saturated negative components to 0, as the earlier generation's `as_uvec2` does, would make a walk that reaches row or column 0 compare that pixel with itself forever (at the default angle π/2 going `Forward`, a difference of 0 is below the threshold 0.1), so the source would not terminate there.
- Pencils.View: the pencils' widgets report their edits directly: the rainbow and sorter drag widgets' clamping to their ranges (egui's `DragValue`, not part of this model) is not modelled, so an edit may be any value. The pointer position is given in image coordinates. `hovered_pixel`'s zoom and pan maths is not part of this model. The interpolated points are abstract: their number is exact (`ceil(d) - 1`), their coordinates come from a real-valued `lerp`.
- Overlays.View: the pointer movement is given already scaled (`delta · ppp / scale`).
- Collection.ProcessModifiers: `get_selected_mod_mut`, the search of the project tree for the selected node, is not part of this model. The dispatch takes the selected node, if any, directly.
- Collection.UpdatePencil: `PencilMod::update` is not defined in the source, so a pencil's update is the parameter `update`.
- MagicWands.Recolor: where the child's image is smaller than the input, the source would panic on the `unwrap` at `magic_wand.rs:51`. The model leaves such a pixel unchanged instead of modelling the panic. A fill child always has the input's size, so this cannot arise for the bucket.
- MagicWands: the wand is modelled only as the bucket's `MagicWand<Fill>`, its only instantiation in the source. It is not a type of the modifier union `Modifiers.Modifier`, so the registry statements do not mention it; the source never registers it either.
- The default `view` hook (`traits.rs:34-35`) changes nothing and is not a separate member. A modifier without a `view` is unchanged by a frame.
- The unsafe pointer casts of `DynMod::modifier`/`modifier_mut` are modelled as a check on the entry's type over the tagged union `Modifiers.Modifier`. The instancer closure of `ModifierIndex` is `Modifiers.Instance` applied to the entry's type.
- `Resize::view`'s number fields (labelled "new height" for `size.x`) only set the size fields. They are interface only.
- The earlier generations under `src/mods/` and `src/tools/` and the other Bevy selectors (`src/selectors/ui.rs`, `plugin.rs`, `selection.rs`) are not part of this model; `src/selectors/collection/canvas.rs` is modelled in `Canvas`.

Choices where the code is followed:

- The magic wand's threshold comparison is strict (`<`, `magic_wand.rs:44`), so a threshold of 0 selects nothing, not even the target. A comparison that let a threshold of 0 select the pixels of exactly the target's brightness is not what the code does.
- The rainbow pencil's hue is not reduced mod 1 during a replay: the k-th change of position paints hue `h0 + k·r`, not `(h0 + k·r) mod 1`. Only the pencil's widget reduces the stored hue, once per frame (`RainbowPencils.View`). The colour is built from `(h, v, v)`: the third component is used for both saturation and value, not a full saturation.
- A `List` holds nodes (`Cation<DynMod>`), not slots that can be empty or marked as being moved.

## Findings

| source | as written | input that shows it | evidently intended | confidence | as-written member | corrected member |
|---|---|---|---|---|---|---|
| src/selectors/collection/canvas.rs:13 | `0..(size.x * size.y)` multiplies two `u32`; in a release build the product wraps modulo 2^32 | a 65536×65536 image: the product wraps to 0, so no pixel is enumerated instead of 2^32 | enumerate all `w·h` pixels, with the product computed in a wider type | not executed; low, since images of 2^32 pixels are unusual (a debug build panics instead) | Canvas.CoordsAsWritten, Canvas.AsWrittenDropsEveryPixel | Canvas.Coords, Canvas.EveryPixelOnce |
