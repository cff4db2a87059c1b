/** The type-level part of `src/modifier/traits.rs`: every concrete modifier
    type has a `TypeId` and a registry entry (`ModifierIndex`) whose display
    name is derived from the Rust type path by `name()`. */
module Traits {

  /** The three pencils `PencilMod` is instantiated with. */
  datatype PencilKind = SimplePencilType | RainbowPencilType | PixelSorterType

  /** `TypeId` of each concrete modifier type of `src/modifier/collection/`. */
  datatype TypeId =
    | GrayScaleFilterType
    | SourceType
    | HueType
    | BrightenType
    | ContrastType
    | InvertType
    | BlurType
    | ResizeType
    | BucketType
    | FillType
    | PencilModType(pencil: PencilKind)
    | OverlayType
    | ListType

  /** A registry entry. The instancer is determined by the type id (it yields
      the type's default value), so it is not stored. */
  datatype ModifierIndex = ModifierIndex(name: string, id: TypeId)

  /** `ModifierIndex` equality: the type ids, nothing else. */
  predicate IndexEq(a: ModifierIndex, b: ModifierIndex)
  {
    a.id == b.id
  }

  // ---------------------------------------------------------------------
  // `name()`: `type_name().split_inclusive("<").map(last "::" segment).concat()`

  function Concat(ss: seq<string>): string
  {
    if ss == [] then [] else ss[0] + Concat(ss[1..])
  }

  /** The index of the first `c` in `s`, or `|s|` when there is none. */
  function FirstIndexOf(s: string, c: char): (k: nat)
    ensures k <= |s|
    ensures forall i :: 0 <= i < k ==> s[i] != c
    ensures k < |s| ==> s[k] == c
  {
    if s == [] then 0
    else if s[0] == c then 0
    else 1 + FirstIndexOf(s[1..], c)
  }

  /** A piece of `split_inclusive(c)`: non-empty, with `c` at most as its last
      character, and ending in `c` unless it is the last piece. */
  predicate Piece(p: string, c: char, last: bool)
  {
    p != [] && (!last ==> p[|p| - 1] == c) && forall j :: 0 <= j < |p| - 1 ==> p[j] != c
  }

  predicate Pieces(ps: seq<string>, c: char)
    decreases |ps|
  {
    ps == [] || (Piece(ps[0], c, |ps| == 1) && Pieces(ps[1..], c))
  }

  /** `str::split_inclusive(c)`: the pieces, each ending just after a `c`
      except possibly the last, that concatenate back to `s`; the empty string
      has no pieces. */
  function SplitInclusive(s: string, c: char): (r: seq<string>)
    decreases |s|
    ensures Concat(r) == s
    ensures Pieces(r, c)
  {
    if s == [] then []
    else
      var k := FirstIndexOf(s, c);
      if k == |s| then
        assert Concat([s]) == s + Concat([]);
        [s]
      else
        var rest := SplitInclusive(s[k + 1..], c);
        assert ([s[..k + 1]] + rest)[1..] == rest;
        assert s[..k + 1] + s[k + 1..] == s;
        [s[..k + 1]] + rest
  }

  /** `s` contains the separator `::`. */
  predicate HasSep(s: string)
    decreases |s|
  {
    |s| >= 2 && ((s[0] == ':' && s[1] == ':') || HasSep(s[1..]))
  }

  /** `s.split("::").last()`: the text after the last separator found by a
      left-to-right, non-overlapping scan (all of `s` when there is none). */
  function LastSegment(s: string): string
    decreases |s|
  {
    if |s| < 2 then s
    else if s[0] == ':' && s[1] == ':' then LastSegment(s[2..])
    else
      var t := LastSegment(s[1..]);
      if t == s[1..] then s else t
  }

  /** The last segment is a suffix. */
  lemma {:induction false} LastSegmentSuffix(s: string)
    ensures |LastSegment(s)| <= |s| && LastSegment(s) == s[|s| - |LastSegment(s)|..]
    decreases |s|
  {
    if |s| >= 2 {
      var k := if s[0] == ':' && s[1] == ':' then 2 else 1;
      var rest := s[k..];
      LastSegmentSuffix(rest);
      var t := LastSegment(rest);
      assert rest[|rest| - |t|..] == s[|s| - |t|..];
    }
  }

  /** The last segment holds no separator. */
  lemma {:induction false} LastSegmentNoSep(s: string)
    ensures !HasSep(LastSegment(s))
    decreases |s|
  {
    if |s| >= 2 {
      if s[0] == ':' && s[1] == ':' {
        LastSegmentNoSep(s[2..]);
      } else {
        LastSegmentNoSep(s[1..]);
      }
    }
  }

  /** A string is its own last segment exactly when it has no separator; with
      a separator, the last segment is shorter by at least the separator. */
  lemma {:induction false} LastSegmentWhole(s: string)
    ensures LastSegment(s) == s <==> !HasSep(s)
    ensures HasSep(s) ==> |LastSegment(s)| + 2 <= |s|
    decreases |s|
  {
    if |s| >= 2 {
      if s[0] == ':' && s[1] == ':' {
        LastSegmentSuffix(s[2..]);
      } else {
        LastSegmentWhole(s[1..]);
      }
    }
  }

  /** A string that does not end in `:` has a non-empty last segment. */
  lemma {:induction false} LastSegmentNonEmpty(s: string)
    requires |s| > 0 && s[|s| - 1] != ':'
    ensures |LastSegment(s)| > 0
    decreases |s|
  {
    if |s| >= 2 {
      if s[0] == ':' && s[1] == ':' {
        assert s[2..][|s| - 3] == s[|s| - 1];
        LastSegmentNonEmpty(s[2..]);
      } else {
        assert s[1..][|s| - 2] == s[|s| - 1];
        LastSegmentNonEmpty(s[1..]);
      }
    }
  }

  function MapLastSegment(pieces: seq<string>): (r: seq<string>)
    ensures |r| == |pieces|
  {
    if pieces == [] then [] else [LastSegment(pieces[0])] + MapLastSegment(pieces[1..])
  }

  /** `Modifier::name()` applied to the type path `path`. */
  function Name(path: string): string
  {
    Concat(MapLastSegment(SplitInclusive(path, '<')))
  }

  /** The number of occurrences of `c` in `s`. */
  function Count(s: string, c: char): nat
  {
    if s == [] then 0 else (if s[0] == c then 1 else 0) + Count(s[1..], c)
  }

  lemma {:induction false} CountAppend(a: string, b: string, c: char)
    ensures Count(a + b, c) == Count(a, c) + Count(b, c)
  {
    if a != [] {
      assert (a + b)[0] == a[0];
      assert (a + b)[1..] == a[1..] + b;
      CountAppend(a[1..], b, c);
    } else {
      assert a + b == b;
    }
  }

  /** No separator straddles a join whose left side does not end in `:`. */
  lemma {:induction false} NoSepJoin(a: string, b: string)
    requires !HasSep(a) && !HasSep(b)
    requires a == [] || a[|a| - 1] != ':'
    ensures !HasSep(a + b)
  {
    if a == [] {
      assert a + b == b;
    } else {
      NoSepJoin(a[1..], b);
      assert (a + b)[1..] == a[1..] + b;
      if |a| == 1 {
        assert (a + b)[0] != ':';
      }
    }
  }

  /** The segments of inclusive pieces, joined, contain no separator. */
  lemma {:induction false} ConcatSegmentsNoSep(pieces: seq<string>)
    requires Pieces(pieces, '<')
    ensures !HasSep(Concat(MapLastSegment(pieces)))
  {
    if pieces != [] {
      var tail := MapLastSegment(pieces[1..]);
      var s0 := LastSegment(pieces[0]);
      assert MapLastSegment(pieces) == [s0] + tail;
      assert ([s0] + tail)[1..] == tail;
      assert Concat(MapLastSegment(pieces)) == s0 + Concat(tail);
      ConcatSegmentsNoSep(pieces[1..]);
      LastSegmentNoSep(pieces[0]);
      if |pieces| > 1 {
        SegmentEnd(pieces[0]);
        NoSepJoin(s0, Concat(tail));
      } else {
        assert pieces[1..] == [];
        assert Concat(tail) == [];
        assert s0 + Concat(tail) == s0;
      }
    }
  }

  /** The segment of a piece ending in `<` ends in `<` too. */
  lemma {:induction false} SegmentEnd(p: string)
    requires p != [] && p[|p| - 1] == '<'
    ensures LastSegment(p) != [] && LastSegment(p)[|LastSegment(p)| - 1] == '<'
  {
    var r := LastSegment(p);
    LastSegmentSuffix(p);
    LastSegmentNonEmpty(p);
    assert r[|r| - 1] == p[|p| - 1];
  }

  /** The result of `name()` never contains `::`. */
  lemma NameHasNoSeparator(path: string)
    ensures !HasSep(Name(path))
  {
    ConcatSegmentsNoSep(SplitInclusive(path, '<'));
  }

  /** Dropping the path prefix of a piece keeps its `<`, which can only be
      its last character. */
  lemma {:induction false} SegmentCount(p: string)
    requires forall j :: 0 <= j < |p| - 1 ==> p[j] != '<'
    ensures Count(LastSegment(p), '<') == Count(p, '<')
  {
    LastSegmentSuffix(p);
    var k := |p| - |LastSegment(p)|;
    if k == |p| && k > 0 && p[k - 1] != ':' {
      LastSegmentNonEmpty(p);
    }
    DropUncounted(p, k, '<');
  }

  /** Dropping a prefix without `c` keeps the count of `c`. */
  lemma {:induction false} DropUncounted(s: string, k: nat, c: char)
    requires k <= |s|
    requires forall j :: 0 <= j < k ==> s[j] != c
    ensures Count(s[k..], c) == Count(s, c)
    decreases k
  {
    if k > 0 {
      DropUncounted(s[1..], k - 1, c);
      assert s[1..][k - 1..] == s[k..];
    }
  }

  lemma {:induction false} ConcatCount(pieces: seq<string>)
    requires Pieces(pieces, '<')
    ensures Count(Concat(MapLastSegment(pieces)), '<') == Count(Concat(pieces), '<')
  {
    if pieces != [] {
      var tail := MapLastSegment(pieces[1..]);
      var s0 := LastSegment(pieces[0]);
      assert MapLastSegment(pieces) == [s0] + tail;
      assert ([s0] + tail)[1..] == tail;
      ConcatCount(pieces[1..]);
      SegmentCount(pieces[0]);
      CountAppend(s0, Concat(tail), '<');
      CountAppend(pieces[0], Concat(pieces[1..]), '<');
    }
  }

  /** `name()` keeps every generic bracket: the number of `<` is unchanged. */
  lemma NameKeepsBrackets(path: string)
    ensures Count(Name(path), '<') == Count(path, '<')
  {
    ConcatCount(SplitInclusive(path, '<'));
  }

  // ---------------------------------------------------------------------
  // The type paths of the modifiers and their registry names

  /** `s` has no character `c`. */
  predicate NoChar(s: string, c: char)
  {
    c !in s
  }

  /** Path segments joined by `::`, as `type_name` writes a type path. */
  function Path(segs: seq<string>): string
    requires |segs| > 0
  {
    if |segs| == 1 then segs[0] else segs[0] + "::" + Path(segs[1..])
  }

  /** A well-formed path segment: non-empty, without `:` or `<`. */
  predicate Segment(s: string)
  {
    s != [] && NoChar(s, ':') && NoChar(s, '<')
  }

  predicate Segments(segs: seq<string>)
  {
    forall k :: 0 <= k < |segs| ==> Segment(segs[k])
  }

  /** The module path of a type defined in `src/modifier/collection/`. */
  function CollectionPath(file: seq<string>, ty: string): seq<string>
  {
    ["image_mod", "modifier", "collection"] + file + [ty]
  }

  /** The file and the identifier of every modifier type but `PencilMod`. */
  function TypeLocation(t: TypeId): (r: (string, string))
    requires !t.PencilModType?
    ensures Segment(r.0) && Segment(r.1)
  {
    match t
    case GrayScaleFilterType => ("grayscale", "GrayScaleFilter")
    case SourceType => ("source", "Source")
    case HueType => ("hue", "Hue")
    case BrightenType => ("brighten", "Brighten")
    case ContrastType => ("contrast", "Contrast")
    case InvertType => ("invert", "Invert")
    case BlurType => ("blur", "Blur")
    case ResizeType => ("resize", "Resize")
    case BucketType => ("bucket", "Bucket")
    case FillType => ("fill", "Fill")
    case OverlayType => ("overlay", "Overlay")
    case ListType => ("list", "List")
  }

  /** The file under `pencil/` and the identifier of each pencil. */
  function PencilLocation(kind: PencilKind): (r: (string, string))
    ensures Segment(r.0) && Segment(r.1)
  {
    match kind
    case SimplePencilType => ("simple", "SimplePencil")
    case RainbowPencilType => ("rainbow", "RainbowPencil")
    case PixelSorterType => ("sort", "PixelSorter")
  }

  function PencilPath(kind: PencilKind): seq<string>
  {
    CollectionPath(["pencil", PencilLocation(kind).0], PencilLocation(kind).1)
  }

  /** What `type_name::<T>()` returns for each modifier type (the crate is
      `image_mod`); `PencilMod` is generic over its pencil. */
  function TypePath(t: TypeId): string
  {
    if t.PencilModType? then
      Path(CollectionPath(["pencil"], "PencilMod")) + "<" + Path(PencilPath(t.pencil)) + ">"
    else
      Path(CollectionPath([TypeLocation(t).0], TypeLocation(t).1))
  }

  /** The display name each type ends up with: its identifier, with the
      pencil's identifier as the generic argument of `PencilMod`. */
  function ShortName(t: TypeId): string
  {
    if t.PencilModType? then "PencilMod" + "<" + PencilLocation(t.pencil).1 + ">"
    else TypeLocation(t).1
  }

  /** `Modifier::index()`: the entry for type `t`. */
  function Index(t: TypeId): (r: ModifierIndex)
    ensures r.id == t
    ensures r.name == ShortName(t)
  {
    IndexName(t);
    ModifierIndex(Name(TypePath(t)), t)
  }

  lemma {:induction false} FirstIndexIs(s: string, c: char, k: nat)
    requires k < |s| && s[k] == c
    requires forall i :: 0 <= i < k ==> s[i] != c
    ensures FirstIndexOf(s, c) == k
  {
    if k > 0 {
      FirstIndexIs(s[1..], c, k - 1);
    }
  }

  /** A non-empty string without `c` is a single piece. */
  lemma {:induction false} SplitOne(x: string, c: char)
    requires x != [] && NoChar(x, c)
    ensures SplitInclusive(x, c) == [x]
  {
  }

  /** A string with a single `c` splits right after it. */
  lemma {:induction false} SplitTwo(x: string, y: string, c: char)
    requires NoChar(x, c) && y != [] && NoChar(y, c)
    ensures SplitInclusive(x + [c] + y, c) == [x + [c], y]
  {
    var s := x + [c] + y;
    FirstIndexIs(s, c, |x|);
    assert s[..|x| + 1] == x + [c];
    assert s[|x| + 1..] == y;
    SplitOne(y, c);
  }

  lemma {:induction false} NoColonNoSep(s: string)
    requires NoChar(s, ':')
    ensures !HasSep(s)
  {
    if |s| >= 2 {
      NoColonNoSep(s[1..]);
    }
  }

  /** A separator preceded by a separator-free prefix ends the prefix's
      influence on the last segment. */
  lemma {:induction false} LastSegmentAfter(p: string, y: string)
    requires !HasSep(p) && (p == [] || p[|p| - 1] != ':')
    ensures LastSegment(p + "::" + y) == LastSegment(y)
    decreases |p|
  {
    var s := p + "::" + y;
    LastSegmentSuffix(y);
    if p == [] {
      assert s == "::" + y;
      LastSegmentSep(y);
    } else {
      assert s[1..] == p[1..] + "::" + y;
      if |p| > 1 {
        LastSegmentAfter(p[1..], y);
        assert s[0] == p[0] && s[1] == p[1];
      } else {
        assert s[1..] == "::" + y;
        LastSegmentSep(y);
        assert s[0] == p[0] && s[1] == ':';
      }
      LastSegmentSkip(s);
    }
  }

  /** A leading separator is dropped. */
  lemma LastSegmentSep(y: string)
    ensures LastSegment("::" + y) == LastSegment(y)
  {
    var s := "::" + y;
    assert s[0] == ':' && s[1] == ':' && s[2..] == y;
  }

  /** A leading character that does not start a separator is dropped when
      the rest has a separator. */
  lemma LastSegmentSkip(s: string)
    requires |s| >= 2 && !(s[0] == ':' && s[1] == ':')
    requires LastSegment(s[1..]) != s[1..]
    ensures LastSegment(s) == LastSegment(s[1..])
  {
  }

  /** Appending a character other than `:` appends it to the last segment. */
  lemma {:induction false} LastSegmentSnoc(s: string, ch: char)
    requires ch != ':'
    ensures LastSegment(s + [ch]) == LastSegment(s) + [ch]
    decreases |s|
  {
    if |s| <= 1 {
      SnocShort(s, ch);
    } else if s[0] == ':' && s[1] == ':' {
      LastSegmentSnoc(s[2..], ch);
      SnocAfterSep(s, ch);
    } else {
      LastSegmentSnoc(s[1..], ch);
      SnocAfterChar(s, ch);
    }
  }

  lemma SnocShort(s: string, ch: char)
    requires |s| <= 1 && ch != ':'
    ensures LastSegment(s + [ch]) == LastSegment(s) + [ch]
  {
    var t := s + [ch];
    if |s| == 1 {
      assert t[1..] == [ch];
    }
  }

  lemma SnocAfterSep(s: string, ch: char)
    requires |s| >= 2 && s[0] == ':' && s[1] == ':'
    requires LastSegment(s[2..] + [ch]) == LastSegment(s[2..]) + [ch]
    ensures LastSegment(s + [ch]) == LastSegment(s) + [ch]
  {
    var t := s + [ch];
    assert t[0] == ':' && t[1] == ':' && t[2..] == s[2..] + [ch];
  }

  lemma SnocAfterChar(s: string, ch: char)
    requires |s| >= 2 && !(s[0] == ':' && s[1] == ':')
    requires LastSegment(s[1..] + [ch]) == LastSegment(s[1..]) + [ch]
    ensures LastSegment(s + [ch]) == LastSegment(s) + [ch]
  {
    var t := s + [ch];
    assert t[0] == s[0] && t[1] == s[1] && t[1..] == s[1..] + [ch];
    SnocKeepsInequality(LastSegment(s[1..]), s[1..], ch);
  }

  lemma SnocKeepsInequality(u: string, v: string, ch: char)
    ensures u + [ch] == v + [ch] <==> u == v
  {
    if u + [ch] == v + [ch] {
      assert u == (u + [ch])[..|u|];
      assert v == (v + [ch])[..|v|];
    }
  }

  lemma {:induction false} PathLast(segs: seq<string>)
    requires |segs| > 0
    requires forall k :: 0 <= k < |segs| ==> segs[k] != [] && NoChar(segs[k], ':')
    ensures LastSegment(Path(segs)) == segs[|segs| - 1]
  {
    var first := segs[0];
    assert first != [] && NoChar(first, ':');
    NoColonNoSep(first);
    LastSegmentWhole(first);
    if |segs| > 1 {
      var rest := segs[1..];
      assert Path(segs) == first + "::" + Path(rest);
      assert first[|first| - 1] != ':';
      LastSegmentAfter(first, Path(rest));
      forall k | 0 <= k < |rest|
        ensures rest[k] != [] && NoChar(rest[k], ':')
      {
        assert rest[k] == segs[k + 1];
      }
      PathLast(rest);
      assert rest[|rest| - 1] == segs[|segs| - 1];
    }
  }

  lemma {:induction false} PathNoChar(segs: seq<string>, c: char)
    requires |segs| > 0 && c != ':'
    requires forall k :: 0 <= k < |segs| ==> NoChar(segs[k], c)
    ensures NoChar(Path(segs), c)
  {
    if |segs| > 1 {
      PathNoChar(segs[1..], c);
      var rest := Path(segs[1..]);
      forall i | 0 <= i < |Path(segs)|
        ensures Path(segs)[i] != c
      {
        if i >= |segs[0]| + 2 {
          assert Path(segs)[i] == rest[i - |segs[0]| - 2];
        }
      }
    }
  }

  /** The name of a non-generic type is its last path segment. */
  lemma {:induction false} PlainName(segs: seq<string>)
    requires |segs| > 0
    requires forall k :: 0 <= k < |segs| ==> segs[k] != [] && NoChar(segs[k], ':') && NoChar(segs[k], '<')
    ensures Name(Path(segs)) == segs[|segs| - 1]
  {
    PathNoChar(segs, '<');
    SplitOne(Path(segs), '<');
    PathLast(segs);
    assert MapLastSegment([Path(segs)]) == [segs[|segs| - 1]];
    assert Concat([segs[|segs| - 1]]) == segs[|segs| - 1] + [];
  }

  lemma JoinFour(a: string, b: string, c: string, d: string)
    ensures (a + b) + (c + d) == a + b + c + d
  {
  }

  lemma MapTwo(p: string, q: string)
    ensures MapLastSegment([p, q]) == [LastSegment(p), LastSegment(q)]
  {
    assert [p, q][1..] == [q];
    assert [q][1..] == [];
  }

  lemma ConcatTwo(a: string, b: string)
    ensures Concat([a, b]) == a + b
  {
    assert [a, b][1..] == [b];
    assert [b][1..] == [];
    assert Concat([b]) == b + [];
  }

  /** The name of `Outer<Inner>` is `OuterLast<InnerLast>`. */
  lemma {:induction false} GenericName(outer: seq<string>, inner: seq<string>)
    requires |outer| > 0 && |inner| > 0
    requires forall k :: 0 <= k < |outer| ==> outer[k] != [] && NoChar(outer[k], ':') && NoChar(outer[k], '<')
    requires forall k :: 0 <= k < |inner| ==> inner[k] != [] && NoChar(inner[k], ':') && NoChar(inner[k], '<')
    ensures Name(Path(outer) + "<" + Path(inner) + ">") == outer[|outer| - 1] + "<" + inner[|inner| - 1] + ">"
  {
    var x := Path(outer);
    var z := Path(inner);
    var y := z + ">";
    PathNoChar(outer, '<');
    PathNoChar(inner, '<');
    assert NoChar(y, '<') by {
      forall i | 0 <= i < |y|
        ensures y[i] != '<'
      {
        if i < |z| {
          assert y[i] == z[i];
        }
      }
    }
    var a := x + ['<'];
    assert x + "<" + z + ">" == a + y;
    SplitTwo(x, y, '<');
    PathLast(outer);
    PathLast(inner);
    LastSegmentSnoc(x, '<');
    LastSegmentSnoc(z, '>');
    MapTwo(a, y);
    ConcatTwo(LastSegment(a), LastSegment(y));
    var full := x + "<" + z + ">";
    assert SplitInclusive(full, '<') == [a, y];
    assert Name(full) == LastSegment(a) + LastSegment(y);
    var ol := outer[|outer| - 1];
    var il := inner[|inner| - 1];
    assert LastSegment(a) == ol + ['<'];
    assert LastSegment(y) == il + ['>'];
    JoinFour(ol, "<", il, ">");
  }

  lemma CollectionSegments(file: seq<string>, ty: string)
    requires Segments(file) && Segment(ty)
    ensures Segments(CollectionPath(file, ty))
  {
    assert Segment("image_mod") && Segment("modifier") && Segment("collection");
    var p := CollectionPath(file, ty);
    forall k | 0 <= k < |p|
      ensures Segment(p[k])
    {
      if 3 <= k < 3 + |file| {
        assert p[k] == file[k - 3];
      }
    }
  }

  /** The registry name of a type defined in a collection file is the type's
      own identifier. */
  lemma CollectionName(file: seq<string>, ty: string)
    requires Segments(file) && Segment(ty)
    ensures Name(Path(CollectionPath(file, ty))) == ty
  {
    CollectionSegments(file, ty);
    PlainName(CollectionPath(file, ty));
  }

  /** The registry name of a collection type generic over another one. */
  lemma GenericCollectionName(ofile: seq<string>, oty: string, ifile: seq<string>, ity: string)
    requires Segments(ofile) && Segment(oty) && Segments(ifile) && Segment(ity)
    ensures Name(Path(CollectionPath(ofile, oty)) + "<" + Path(CollectionPath(ifile, ity)) + ">")
         == oty + "<" + ity + ">"
  {
    CollectionSegments(ofile, oty);
    CollectionSegments(ifile, ity);
    GenericName(CollectionPath(ofile, oty), CollectionPath(ifile, ity));
  }

  lemma PencilModName(kind: PencilKind)
    ensures Name(TypePath(PencilModType(kind))) == ShortName(PencilModType(kind))
  {
    var loc := PencilLocation(kind);
    assert Segment("pencil") && Segment("PencilMod");
    assert Segments(["pencil"]) && Segments(["pencil", loc.0]);
    GenericCollectionName(["pencil"], "PencilMod", ["pencil", loc.0], loc.1);
  }

  /** The name `name()` derives from each type path is the type's short name. */
  lemma IndexName(t: TypeId)
    ensures Name(TypePath(t)) == ShortName(t)
  {
    if t.PencilModType? {
      PencilModName(t.pencil);
    } else {
      var (file, ty) := TypeLocation(t);
      assert Segments([file]);
      CollectionName([file], ty);
    }
  }

  /** Registry entries are equal exactly when their types are, whatever
      their names. */
  lemma {:induction false} IndexEqByType(a: ModifierIndex, t: TypeId)
    ensures IndexEq(a, Index(t)) <==> a.id == t
  {
  }
}
