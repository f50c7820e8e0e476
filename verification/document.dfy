/**
 * The map document: the ordered stroke list (later strokes are drawn on top), the stroke taken
 * out of the list while it is being dragged, the grid, the dirty flag and the notifications the
 * document fires; with its bounding rectangle and the composition of the map image.
 */
module Document {
  import opened Basics
  import opened Text
  import opened Events
  import opened Images
  import opened Strokes
  import opened Grids

  /** `sys.maxint` on a 64-bit build: the starting value of the minimum in `_getBoundingRect`. */
  const MAXINT: int := 0x7fff_ffff_ffff_ffff

  /** The arguments each `@event` method of the document fires with. */
  datatype Notice =
    | BrushDirChanged(brushDir: Option<string>)
    | BrushChanged(brushPath: string)
    | MapChanged(needsPaint: bool)
    | NewMap
    | GridChanged

  // ---------------------------------------------------------------------------------------
  // Strokes as values

  /** The rectangles of a list of strokes, in list order. */
  function RectsOf(ss: seq<BrushStroke>): (rs: seq<Rect>)
    reads ss
    ensures |rs| == |ss|
    ensures forall i :: 0 <= i < |ss| ==> rs[i] == ss[i].GetRect()
  {
    if |ss| == 0 then [] else [ss[0].GetRect()] + RectsOf(ss[1..])
  }

  /** Every rectangle moved by (-dx, -dy). */
  function Shifted(rs: seq<Rect>, dx: int, dy: int): (r: seq<Rect>)
    ensures |r| == |rs|
    ensures forall i :: 0 <= i < |rs| ==> r[i] == rs[i].(x := rs[i].x - dx, y := rs[i].y - dy)
  {
    seq(|rs|, i requires 0 <= i < |rs| => rs[i].(x := rs[i].x - dx, y := rs[i].y - dy))
  }

  lemma ShiftedPointwise(before: seq<Rect>, after: seq<Rect>, dx: int, dy: int)
    requires |before| == |after|
    requires forall j :: 0 <= j < |after| ==> after[j] == before[j].(x := before[j].x - dx, y := before[j].y - dy)
    ensures after == Shifted(before, dx, dy)
  {
  }

  /** No stroke object appears twice. */
  ghost predicate Distinct(ss: seq<BrushStroke>)
  {
    forall i, j :: 0 <= i < j < |ss| ==> ss[i] != ss[j]
  }

  // ---------------------------------------------------------------------------------------
  // Hit test

  /** Index of the first rectangle in list order (the bottom-most stroke) containing the point. */
  function FirstHit(rs: seq<Rect>, px: int, py: int): (r: Option<nat>)
    ensures r.Some? ==> r.value < |rs|
  {
    if |rs| == 0 then None
    else if Contains(rs[0], px, py) then Some(0)
    else match FirstHit(rs[1..], px, py)
      case None => None
      case Some(i) => Some(i + 1)
  }

  /**
   * A hit is the least index whose rectangle contains the point; there is no hit exactly when
   * no rectangle contains it.
   */
  lemma {:induction false} FirstHitFacts(rs: seq<Rect>, px: int, py: int)
    ensures FirstHit(rs, px, py).Some? ==>
      FirstHit(rs, px, py).value < |rs| && Contains(rs[FirstHit(rs, px, py).value], px, py) &&
      forall j :: 0 <= j < FirstHit(rs, px, py).value ==> !Contains(rs[j], px, py)
    ensures FirstHit(rs, px, py).None? <==> forall j :: 0 <= j < |rs| ==> !Contains(rs[j], px, py)
  {
    if |rs| > 0 && !Contains(rs[0], px, py) {
      FirstHitFacts(rs[1..], px, py);
      assert forall j :: 1 <= j < |rs| ==> rs[j] == rs[1..][j - 1];
    }
  }

  /** In a list without repeats, `list.remove(s[i])` removes position i, and the rest has no repeats. */
  lemma RemoveDistinct(ss: seq<BrushStroke>, i: int)
    requires Distinct(ss) && 0 <= i < |ss|
    ensures IndexOf(ss, ss[i]) == i
    ensures RemoveFirst(ss, ss[i]) == ss[..i] + ss[i + 1..]
    ensures Distinct(ss[..i] + ss[i + 1..]) && ss[i] !in ss[..i] + ss[i + 1..]
  {
    var j := IndexOf(ss, ss[i]);
    assert ss[j] == ss[i];
    DropDistinct(ss, i);
  }

  lemma DropDistinct(ss: seq<BrushStroke>, i: int)
    requires Distinct(ss) && 0 <= i < |ss|
    ensures Distinct(ss[..i] + ss[i + 1..]) && ss[i] !in ss[..i] + ss[i + 1..]
  {
    var rest := ss[..i] + ss[i + 1..];
    forall k | 0 <= k < |rest|
      ensures rest[k] == ss[if k < i then k else k + 1]
    {
    }
  }

  lemma DistinctSnoc(ss: seq<BrushStroke>, s: BrushStroke)
    requires Distinct(ss) && s !in ss
    ensures Distinct(ss + [s])
  {
  }

  /**
   * Taking element i out and appending it again keeps the same elements, puts that one on top
   * and leaves the others in their order.
   */
  lemma MoveToTop<T>(s: seq<T>, i: int)
    requires 0 <= i < |s|
    ensures multiset(s[..i] + s[i + 1..] + [s[i]]) == multiset(s)
    ensures (s[..i] + s[i + 1..] + [s[i]])[|s| - 1] == s[i]
  {
    assert s == s[..i] + [s[i]] + s[i + 1..];
    calc {
      multiset(s);
      multiset(s[..i]) + multiset{s[i]} + multiset(s[i + 1..]);
      multiset(s[..i] + s[i + 1..] + [s[i]]);
    }
  }

  // ---------------------------------------------------------------------------------------
  // Bounding rectangle

  /** The grid as `_getBoundingRect` sees it: whether it is present and enabled, and its cell. */
  datatype GridCfg = GridCfg(on: bool, cellW: int, cellH: int)

  /** One step of the accumulation loop: the minimum corner and the maximum right/bottom edges. */
  function Step(acc: Rect, r: Rect): Rect
  {
    Rect(Min(acc.x, r.x), Min(acc.y, r.y), Max(acc.w, r.x + r.w), Max(acc.h, r.y + r.h))
  }

  /** The accumulation loop over rs, from acc. */
  function Fold(acc: Rect, rs: seq<Rect>): Rect
  {
    if |rs| == 0 then acc else Step(Fold(acc, rs[..|rs| - 1]), rs[|rs| - 1])
  }

  /** The rectangle before grid alignment: all zero without strokes, else the loop from (maxint, maxint, 0, 0). */
  function RawBounds(rs: seq<Rect>): Rect
  {
    if |rs| == 0 then Rect(0, 0, 0, 0) else Fold(Rect(MAXINT, MAXINT, 0, 0), rs)
  }

  /**
   * Grid alignment as the source writes it: x drops to the cell line at or below it (Python
   * modulo), w grows by what x dropped and then by its own remainder; the same for y and h.
   */
  function Align(b: Rect, cellW: int, cellH: int): Rect
    requires cellW != 0 && cellH != 0
  {
    var xMod := PyMod(b.x, cellW);
    var w1 := b.w + xMod;
    var yMod := PyMod(b.y, cellH);
    var h1 := b.h + yMod;
    Rect(b.x - xMod, b.y - yMod, w1 + PyMod(w1, cellW), h1 + PyMod(h1, cellH))
  }

  /** `_getBoundingRect`: x and y are the corner, w and h the right and bottom edges. */
  function Bounds(rs: seq<Rect>, g: GridCfg): Rect
    requires g.on ==> g.cellW != 0 && g.cellH != 0
  {
    if g.on then Align(RawBounds(rs), g.cellW, g.cellH) else RawBounds(rs)
  }

  /** Least x, least y, greatest right edge and greatest bottom edge of a non-empty list. */
  function MinX(rs: seq<Rect>): int requires |rs| > 0
  { if |rs| == 1 then rs[0].x else Min(MinX(rs[..|rs| - 1]), rs[|rs| - 1].x) }

  function MinY(rs: seq<Rect>): int requires |rs| > 0
  { if |rs| == 1 then rs[0].y else Min(MinY(rs[..|rs| - 1]), rs[|rs| - 1].y) }

  function MaxRight(rs: seq<Rect>): int requires |rs| > 0
  { if |rs| == 1 then rs[0].x + rs[0].w else Max(MaxRight(rs[..|rs| - 1]), rs[|rs| - 1].x + rs[|rs| - 1].w) }

  function MaxBottom(rs: seq<Rect>): int requires |rs| > 0
  { if |rs| == 1 then rs[0].y + rs[0].h else Max(MaxBottom(rs[..|rs| - 1]), rs[|rs| - 1].y + rs[|rs| - 1].h) }

  /** MinX and the others are the extrema: bounds of every element, reached by one. */
  lemma {:induction false} ExtremaFacts(rs: seq<Rect>)
    requires |rs| > 0
    ensures forall i :: 0 <= i < |rs| ==>
      MinX(rs) <= rs[i].x && MinY(rs) <= rs[i].y &&
      rs[i].x + rs[i].w <= MaxRight(rs) && rs[i].y + rs[i].h <= MaxBottom(rs)
    ensures exists i :: 0 <= i < |rs| && MinX(rs) == rs[i].x
    ensures exists i :: 0 <= i < |rs| && MinY(rs) == rs[i].y
    ensures exists i :: 0 <= i < |rs| && MaxRight(rs) == rs[i].x + rs[i].w
    ensures exists i :: 0 <= i < |rs| && MaxBottom(rs) == rs[i].y + rs[i].h
  {
    var n := |rs|;
    if n > 1 {
      var init := rs[..n - 1];
      ExtremaFacts(init);
      assert forall i :: 0 <= i < n - 1 ==> init[i] == rs[i];
      if MinX(rs) == MinX(init) {
        var i :| 0 <= i < n - 1 && MinX(init) == init[i].x;
        assert MinX(rs) == rs[i].x;
      } else {
        assert MinX(rs) == rs[n - 1].x;
      }
      if MinY(rs) == MinY(init) {
        var i :| 0 <= i < n - 1 && MinY(init) == init[i].y;
        assert MinY(rs) == rs[i].y;
      } else {
        assert MinY(rs) == rs[n - 1].y;
      }
      if MaxRight(rs) == MaxRight(init) {
        var i :| 0 <= i < n - 1 && MaxRight(init) == init[i].x + init[i].w;
        assert MaxRight(rs) == rs[i].x + rs[i].w;
      } else {
        assert MaxRight(rs) == rs[n - 1].x + rs[n - 1].w;
      }
      if MaxBottom(rs) == MaxBottom(init) {
        var i :| 0 <= i < n - 1 && MaxBottom(init) == init[i].y + init[i].h;
        assert MaxBottom(rs) == rs[i].y + rs[i].h;
      } else {
        assert MaxBottom(rs) == rs[n - 1].y + rs[n - 1].h;
      }
    } else {
      assert MinX(rs) == rs[0].x;
    }
  }

  lemma {:induction false} FoldIsExtrema(rs: seq<Rect>)
    requires |rs| > 0
    ensures Fold(Rect(MAXINT, MAXINT, 0, 0), rs) ==
      Rect(Min(MAXINT, MinX(rs)), Min(MAXINT, MinY(rs)), Max(0, MaxRight(rs)), Max(0, MaxBottom(rs)))
  {
    if |rs| > 1 {
      FoldIsExtrema(rs[..|rs| - 1]);
    }
  }

  /**
   * Without strokes the raw rectangle is (0, 0, 0, 0). Otherwise x and y are the least stroke
   * x and y (capped at maxint), and w and h are the greatest right and bottom edges, but never
   * below 0: edges, not sizes.
   */
  lemma RawBoundsFacts(rs: seq<Rect>)
    ensures |rs| == 0 ==> RawBounds(rs) == Rect(0, 0, 0, 0)
    ensures |rs| > 0 ==> (RawBounds(rs) ==
      Rect(Min(MAXINT, MinX(rs)), Min(MAXINT, MinY(rs)), Max(0, MaxRight(rs)), Max(0, MaxBottom(rs))))
  {
    if |rs| > 0 {
      FoldIsExtrema(rs);
    }
  }

  /**
   * With a positive cell, the aligned x is a multiple of the cell width, at most the raw x and
   * less than one cell below it, and the right edge never shrinks; the same for y and h.
   */
  lemma AlignFacts(b: Rect, cellW: int, cellH: int)
    requires cellW > 0 && cellH > 0
    ensures Align(b, cellW, cellH).x % cellW == 0
    ensures Align(b, cellW, cellH).x <= b.x < Align(b, cellW, cellH).x + cellW
    ensures Align(b, cellW, cellH).w >= b.w
    ensures Align(b, cellW, cellH).y % cellH == 0
    ensures Align(b, cellW, cellH).y <= b.y < Align(b, cellW, cellH).y + cellH
    ensures Align(b, cellW, cellH).h >= b.h
  {
    ModSelf(b.x, cellW);
    ModSelf(b.y, cellH);
  }

  lemma ModSelf(a: int, c: int)
    requires c > 0
    ensures (a - a % c) % c == 0
  {
    assert a - a % c == (a / c) * c;
    MulDivExact(a / c, c);
  }

  /**
   * The right and bottom edges are padded by their own remainder rather than rounded up to a
   * cell line: 27-pixel cells with strokes at (10,10) and (50,5), both 20 x 20, give right
   * edge 106 and bottom edge 43, neither a multiple of 27.
   */
  lemma AlignedEdgesNotOnGrid()
    ensures var b := Bounds([Rect(10, 10, 20, 20), Rect(50, 5, 20, 20)], GridCfg(true, 27, 27));
      b == Rect(0, 0, 106, 43) && b.w % 27 != 0 && b.h % 27 != 0
  {
    var rs := [Rect(10, 10, 20, 20), Rect(50, 5, 20, 20)];
    assert rs[..1] == [Rect(10, 10, 20, 20)] && rs[..1][..0] == [];
    assert Fold(Rect(MAXINT, MAXINT, 0, 0), rs[..1]) == Rect(10, 10, 30, 30);
    assert RawBounds(rs) == Rect(10, 5, 70, 30);
  }

  lemma {:induction false} MinXShifted(rs: seq<Rect>, dx: int, dy: int)
    requires |rs| > 0
    ensures MinX(Shifted(rs, dx, dy)) == MinX(rs) - dx
    ensures MinY(Shifted(rs, dx, dy)) == MinY(rs) - dy
  {
    if |rs| > 1 {
      assert Shifted(rs, dx, dy)[..|rs| - 1] == Shifted(rs[..|rs| - 1], dx, dy);
      MinXShifted(rs[..|rs| - 1], dx, dy);
    }
  }

  /** With coordinates up to maxint, the raw corner is exactly the least x and y. */
  lemma RawCorner(rs: seq<Rect>)
    requires |rs| > 0
    requires forall i :: 0 <= i < |rs| ==> rs[i].x <= MAXINT && rs[i].y <= MAXINT
    ensures RawBounds(rs).x == MinX(rs) && RawBounds(rs).y == MinY(rs)
  {
    RawBoundsFacts(rs);
    ExtremaFacts(rs);
  }

  /** A corner coordinate m aligned to the cell c, subtracted, and aligned again, gives 0. */
  lemma RealignedCorner(m: int, c: int)
    requires 0 < c <= MAXINT
    ensures var p := m - (m - PyMod(m, c)); Min(MAXINT, p) == p && p - PyMod(p, c) == 0
  {
    var p := PyMod(m, c);
    assert m - (m - p) == p;
    DivModUnique(p, c, 0, p);
  }

  /** Moving every rectangle by (dx, dy) moves the raw corner by the same amount (capped at maxint). */
  lemma ShiftedCorner(rs: seq<Rect>, dx: int, dy: int)
    requires |rs| > 0
    requires forall i :: 0 <= i < |rs| ==> rs[i].x <= MAXINT && rs[i].y <= MAXINT
    ensures RawBounds(Shifted(rs, dx, dy)).x == Min(MAXINT, RawBounds(rs).x - dx)
    ensures RawBounds(Shifted(rs, dx, dy)).y == Min(MAXINT, RawBounds(rs).y - dy)
  {
    RawCorner(rs);
    MinXShifted(rs, dx, dy);
    RawBoundsFacts(Shifted(rs, dx, dy));
  }

  /**
   * After the strokes are moved by the corner `buildImage` found, the corner is (0, 0), so a
   * second call moves nothing (for stroke coordinates up to maxint and cells no wider).
   */
  lemma SecondBuildAtOrigin(rs: seq<Rect>, g: GridCfg)
    requires forall i :: 0 <= i < |rs| ==> rs[i].x <= MAXINT && rs[i].y <= MAXINT
    requires g.on ==> 0 < g.cellW <= MAXINT && 0 < g.cellH <= MAXINT
    ensures var b := Bounds(rs, g);
      Bounds(Shifted(rs, b.x, b.y), g).x == 0 && Bounds(Shifted(rs, b.x, b.y), g).y == 0
  {
    if |rs| == 0 {
      var b := Bounds(rs, g);
      assert Shifted(rs, b.x, b.y) == [];
    } else {
      ShiftedAgain(rs, g);
    }
  }

  /** The non-empty case of SecondBuildAtOrigin. */
  lemma ShiftedAgain(rs: seq<Rect>, g: GridCfg)
    requires |rs| > 0
    requires forall i :: 0 <= i < |rs| ==> rs[i].x <= MAXINT && rs[i].y <= MAXINT
    requires g.on ==> 0 < g.cellW <= MAXINT && 0 < g.cellH <= MAXINT
    ensures var b := Bounds(rs, g);
      Bounds(Shifted(rs, b.x, b.y), g).x == 0 && Bounds(Shifted(rs, b.x, b.y), g).y == 0
  {
    var b := Bounds(rs, g);
    ShiftedCorner(rs, b.x, b.y);
    if g.on {
      AlignAgain(RawBounds(rs), RawBounds(Shifted(rs, b.x, b.y)), g.cellW, g.cellH);
    }
  }

  /** The aligned corner of a raw rectangle whose corner is the remainder left by a first alignment is (0, 0). */
  lemma AlignAgain(r: Rect, r2: Rect, cw: int, ch: int)
    requires 0 < cw <= MAXINT && 0 < ch <= MAXINT
    requires r2.x == Min(MAXINT, r.x - Align(r, cw, ch).x) && r2.y == Min(MAXINT, r.y - Align(r, cw, ch).y)
    ensures Align(r2, cw, ch).x == 0 && Align(r2, cw, ch).y == 0
  {
    RealignedCorner(r.x, cw);
    RealignedCorner(r.y, ch);
  }

  // ---------------------------------------------------------------------------------------
  // Composition

  /** What `buildImage` draws, in order: grid cells or a stroke's bitmap in its rectangle. */
  datatype Layer = GridLayer(cells: seq<(int, int)>) | StrokeLayer(rect: Rect, bitmap: Image)

  /**
   * The composed bitmap: its size, what was drawn over the white background in order, and
   * whether its alpha was then derived by the white-as-alpha rule.
   */
  datatype Composite = Composite(width: int, height: int, layers: seq<Layer>, masked: bool)

  /** The stroke layers, bottom to top. */
  function StrokeLayers(ss: seq<BrushStroke>): (ls: seq<Layer>)
    reads ss
    ensures |ls| == |ss|
    ensures forall i :: 0 <= i < |ss| ==> ls[i] == StrokeLayer(ss[i].GetRect(), ss[i].bmp)
  {
    if |ss| == 0 then [] else [StrokeLayer(ss[0].GetRect(), ss[0].bmp)] + StrokeLayers(ss[1..])
  }

  // ---------------------------------------------------------------------------------------
  // Cache effects of dropping strokes

  /** The cache keys held by a list of strokes, in order. */
  function KeysOf(ss: seq<BrushStroke>): (ks: seq<string>)
    reads ss
    ensures |ks| == |ss|
    ensures forall i :: 0 <= i < |ss| ==> ks[i] == ss[i].Key()
  {
    if |ss| == 0 then [] else [ss[0].Key()] + KeysOf(ss[1..])
  }

  /** The cache after releasing each key in order. */
  function ReleasedAll(c: map<string, Entry>, ks: seq<string>): map<string, Entry>
  {
    if |ks| == 0 then c else ReleasedAll(Released(c, ks[0]), ks[1..])
  }

  /** Releasing a list of keys leaves every entry whose key is not in the list as it was. */
  lemma {:induction false} ReleasedAllFrame(c: map<string, Entry>, ks: seq<string>, k: string)
    requires k !in ks
    ensures k in ReleasedAll(c, ks) <==> k in c
    ensures k in c ==> ReleasedAll(c, ks)[k] == c[k]
  {
    if |ks| > 0 {
      assert k != ks[0];
      ReleasedAllFrame(Released(c, ks[0]), ks[1..], k);
    }
  }

  /**
   * A key held (count at least 1) at least as many times as it is released loses one count per
   * release, and leaves the cache exactly when its count reaches 0.
   */
  lemma {:induction false} ReleasedAllCount(c: map<string, Entry>, ks: seq<string>, k: string)
    requires k in c && c[k].count >= 1 && c[k].count >= multiset(ks)[k]
    ensures k in ReleasedAll(c, ks) <==> c[k].count > multiset(ks)[k]
    ensures k in ReleasedAll(c, ks) ==> ReleasedAll(c, ks)[k] == c[k].(count := c[k].count - multiset(ks)[k])
  {
    if |ks| > 0 {
      var c1 := Released(c, ks[0]);
      assert ks == [ks[0]] + ks[1..];
      assert multiset(ks) == multiset{ks[0]} + multiset(ks[1..]);
      if ks[0] != k {
        ReleasedAllCount(c1, ks[1..], k);
      } else if c[k].count == 1 {
        assert k !in ks[1..];
        ReleasedAllFrame(c1, ks[1..], k);
      } else {
        ReleasedAllCount(c1, ks[1..], k);
      }
    }
  }

  /** The path, position and rotation of each stroke, in list order. */
  function FieldsOf(ss: seq<BrushStroke>): (fs: seq<StrokeFields>)
    reads ss
    ensures |fs| == |ss|
    ensures forall i :: 0 <= i < |ss| ==> fs[i] == StrokeFields(ss[i].imgPath, ss[i].x, ss[i].y, ss[i].rot)
  {
    if |ss| == 0 then [] else [StrokeFields(ss[0].imgPath, ss[0].x, ss[0].y, ss[0].rot)] + FieldsOf(ss[1..])
  }

  lemma FieldsOfSnoc(ss: seq<BrushStroke>, s: BrushStroke)
    ensures FieldsOf(ss + [s]) == FieldsOf(ss) + [StrokeFields(s.imgPath, s.x, s.y, s.rot)]
  {
    assert forall i :: 0 <= i < |ss| ==> (ss + [s])[i] == ss[i];
  }

  /** The cache after acquiring, in order, the image of each stroke, loaded by `decode` under the mask policy. */
  function AcquiredAll(c: map<string, Entry>, fs: seq<StrokeFields>, decode: (string, int) -> Image, whiteMask: bool)
    : map<string, Entry>
    decreases |fs|
  {
    if |fs| == 0 then c
    else
      var f := fs[0];
      AcquiredAll(Acquired(c, CacheKey(f.imgPath, f.rot), LoadedImage(decode, whiteMask, f.imgPath, f.rot)), fs[1..],
                  decode, whiteMask)
  }

  /** The cache key of a stroke with these fields. */
  function KeyOf(f: StrokeFields): string
  {
    CacheKey(f.imgPath, f.rot)
  }

  /**
   * The bitmap cache after the strokes with these fields have each been built in order: every
   * key that has no bitmap yet gets one converted from its cached image.
   */
  function WithBitmaps(bc: map<string, Image>, c: map<string, Entry>, fs: seq<StrokeFields>): map<string, Image>
  {
    if |fs| == 0 then bc
    else
      var key := KeyOf(fs[|fs| - 1]);
      var prev := WithBitmaps(bc, c, fs[..|fs| - 1]);
      if key in c then WithBitmap(prev, key, c[key].image) else prev
  }

  /** The cache keys of strokes with these fields, in order. */
  function KeysOfFields(fs: seq<StrokeFields>): (ks: seq<string>)
    ensures |ks| == |fs| && forall j :: 0 <= j < |fs| ==> ks[j] == KeyOf(fs[j])
  {
    if |fs| == 0 then [] else KeysOfFields(fs[..|fs| - 1]) + [KeyOf(fs[|fs| - 1])]
  }

  /**
   * Building strokes keeps every bitmap already cached, and adds exactly the strokes' cached
   * keys, each with a bitmap of its cached image.
   */
  lemma {:induction false} WithBitmapsFacts(bc: map<string, Image>, c: map<string, Entry>, fs: seq<StrokeFields>, k: string)
    ensures k in WithBitmaps(bc, c, fs) <==> k in bc || (k in c && k in KeysOfFields(fs))
    ensures k in WithBitmaps(bc, c, fs) ==> WithBitmaps(bc, c, fs)[k] == if k in bc then bc[k] else c[k].image
  {
    if |fs| > 0 {
      var init := fs[..|fs| - 1];
      var last := KeyOf(fs[|fs| - 1]);
      WithBitmapsFacts(bc, c, init, k);
    }
  }

  /** Bitmaps depend only on the cached images of the strokes' keys. */
  lemma {:induction false} WithBitmapsFrame(bc: map<string, Image>, c0: map<string, Entry>, c1: map<string, Entry>,
                                            fs: seq<StrokeFields>)
    requires forall j :: 0 <= j < |fs| ==>
      KeyOf(fs[j]) in c0 && KeyOf(fs[j]) in c1 && c0[KeyOf(fs[j])].image == c1[KeyOf(fs[j])].image
    ensures WithBitmaps(bc, c0, fs) == WithBitmaps(bc, c1, fs)
  {
    if |fs| > 0 {
      WithBitmapsFrame(bc, c0, c1, fs[..|fs| - 1]);
    }
  }

  /** The key, bitmap and size each stroke holds, in list order. */
  function HeldOf(ss: seq<BrushStroke>): (hs: seq<Held>)
    reads ss
    ensures |hs| == |ss| && forall i {:trigger hs[i]} :: 0 <= i < |ss| ==> hs[i] == Held(ss[i].imgPath, ss[i].rot, ss[i].bmp, ss[i].w, ss[i].h)
  {
    if |ss| == 0 then [] else [Held(ss[0].imgPath, ss[0].rot, ss[0].bmp, ss[0].w, ss[0].h)] + HeldOf(ss[1..])
  }

  /** Every holding is the bitmap bc caches for its key, at that bitmap's size (AllCachedInIff). */
  predicate AllCachedIn(hs: seq<Held>, bc: map<string, Image>)
  {
    |hs| == 0 || (AllCachedIn(hs[..|hs| - 1], bc) && CachedIn(hs[|hs| - 1], bc))
  }

  lemma {:induction false} AllCachedInIff(hs: seq<Held>, bc: map<string, Image>)
    ensures AllCachedIn(hs, bc) <==> forall i :: 0 <= i < |hs| ==> CachedIn(hs[i], bc)
  {
    if |hs| > 0 {
      var init, last := hs[..|hs| - 1], hs[|hs| - 1];
      AllCachedInIff(init, bc);
      assert AllCachedIn(hs, bc) == (AllCachedIn(init, bc) && CachedIn(last, bc));
      forall i | 0 <= i < |init|
        ensures init[i] == hs[i]
      {
      }
    }
  }

  /** A stroke built after the others, which gained no bitmap in between, extends the list. */
  lemma AllCachedSnoc(ss: seq<BrushStroke>, s: BrushStroke, bc: map<string, Image>, key: string, img: Image)
    requires AllCachedIn(HeldOf(ss), bc) && CachedIn(s.Holding(), WithBitmap(bc, key, img))
    ensures AllCachedIn(HeldOf(ss + [s]), WithBitmap(bc, key, img))
  {
    var hs, hs' := HeldOf(ss), HeldOf(ss + [s]);
    assert hs' == hs + [s.Holding()];
    AllCachedInIff(hs, bc);
    AllCachedInIff(hs', WithBitmap(bc, key, img));
  }

  /**
   * Acquiring stroke i's image and converting its bitmap is the next step of building the
   * strokes up to i, and every key built so far stays cached.
   */
  lemma BitmapStep(bc0: map<string, Image>, c0: map<string, Entry>, c1: map<string, Entry>, all: seq<StrokeFields>,
                   i: int, loaded: Image)
    requires 0 <= i < |all|
    requires forall j :: 0 <= j < i ==> KeyOf(all[j]) in c0
    requires c1 == Acquired(c0, KeyOf(all[i]), loaded)
    ensures forall j :: 0 <= j <= i ==> KeyOf(all[j]) in c1
    ensures WithBitmap(WithBitmaps(bc0, c0, all[..i]), KeyOf(all[i]), c1[KeyOf(all[i])].image) ==
      WithBitmaps(bc0, c1, all[..i + 1])
  {
    var key, prefix, full := KeyOf(all[i]), all[..i], all[..i + 1];
    AcquiredKeeps(c0, all, i, loaded);
    forall j | 0 <= j < |prefix|
      ensures KeyOf(prefix[j]) in c0 && KeyOf(prefix[j]) in c1 && c0[KeyOf(prefix[j])].image == c1[KeyOf(prefix[j])].image
    {
      assert prefix[j] == all[j];
    }
    WithBitmapsFrame(bc0, c0, c1, prefix);
    assert full[..|full| - 1] == prefix && full[|full| - 1] == all[i];
  }

  /** Acquiring stroke i's key keeps every earlier key cached with its image, and caches key i. */
  lemma AcquiredKeeps(c0: map<string, Entry>, all: seq<StrokeFields>, i: int, loaded: Image)
    requires 0 <= i < |all|
    requires forall j :: 0 <= j < i ==> KeyOf(all[j]) in c0
    ensures forall j :: 0 <= j <= i ==> KeyOf(all[j]) in Acquired(c0, KeyOf(all[i]), loaded)
    ensures forall j :: 0 <= j < i ==> Acquired(c0, KeyOf(all[i]), loaded)[KeyOf(all[j])].image == c0[KeyOf(all[j])].image
  {
    AcquiredFacts(c0, KeyOf(all[i]), loaded);
  }

  /**
   * The fields of the strokes the loop of `fromNode` builds: one per element, in order, up to
   * the first element that does not parse (where the source raises).
   */
  function ParsedPrefix(elems: seq<Attributes>): (fs: seq<StrokeFields>)
    ensures |fs| <= |elems|
  {
    if |elems| == 0 then []
    else match ParseStroke(elems[0])
      case None => []
      case Some(f) => [f] + ParsedPrefix(elems[1..])
  }

  /**
   * Each stroke built reads from the element at its position, and the loop stops exactly at the
   * first element that does not parse: all elements give strokes iff every one parses.
   */
  lemma {:induction false} ParsedPrefixFacts(elems: seq<Attributes>)
    ensures forall i :: 0 <= i < |ParsedPrefix(elems)| ==> ParseStroke(elems[i]) == Some(ParsedPrefix(elems)[i])
    ensures |ParsedPrefix(elems)| < |elems| ==> ParseStroke(elems[|ParsedPrefix(elems)|]).None?
    ensures |ParsedPrefix(elems)| == |elems| <==> forall i :: 0 <= i < |elems| ==> ParseStroke(elems[i]).Some?
  {
    if |elems| > 0 && ParseStroke(elems[0]).Some? {
      var rest := elems[1..];
      ParsedPrefixFacts(rest);
      assert forall i :: 0 < i < |elems| ==> elems[i] == rest[i - 1];
    }
  }

  /** Whether element i yields the i-th stroke, for an i the loop can reach. */
  lemma {:induction false} ParsedPrefixAt(elems: seq<Attributes>, i: int)
    requires 0 <= i <= |ParsedPrefix(elems)| && i < |elems|
    ensures i < |ParsedPrefix(elems)| <==> ParseStroke(elems[i]).Some?
    ensures i < |ParsedPrefix(elems)| ==> ParsedPrefix(elems)[i] == ParseStroke(elems[i]).value
  {
    if i > 0 {
      assert elems[1..][i - 1] == elems[i];
      ParsedPrefixAt(elems[1..], i - 1);
    }
  }

  /** The attributes of each stroke, in list order, as `toNode` writes them. */
  function StrokeNodes(ss: seq<BrushStroke>): (ns: seq<Attributes>)
    reads ss
    ensures |ns| == |ss|
    ensures forall i :: 0 <= i < |ss| ==> ns[i] == ss[i].ToNode()
  {
    if |ss| == 0 then [] else [ss[0].ToNode()] + StrokeNodes(ss[1..])
  }

  /** Each stroke element written by `toNode` reads back as the stroke it came from. */
  lemma StrokeNodesRoundTrip(ss: seq<BrushStroke>)
    ensures forall i :: 0 <= i < |ss| ==>
      ParseStroke(StrokeNodes(ss)[i]) == Some(StrokeFields(ss[i].imgPath, ss[i].x, ss[i].y, ss[i].rot))
  {
    forall i | 0 <= i < |ss|
      ensures ParseStroke(StrokeNodes(ss)[i]) == Some(StrokeFields(ss[i].imgPath, ss[i].x, ss[i].y, ss[i].rot))
    {
      StrokeRoundTrip(ss[i].imgPath, ss[i].x, ss[i].y, ss[i].rot);
    }
  }

  /**
   * Saving then loading gives back the strokes: in a map whose stroke elements are the ones
   * `toNode` writes for ss, every element parses, and the strokes `fromNode` builds carry the
   * fields of ss, in order.
   */
  lemma {:induction false} DocumentStrokesRoundTrip(ss: seq<BrushStroke>, node: MapNode)
    requires node.strokes.Some? && StrokeElements(node.strokes.value) == StrokeNodes(ss)
    ensures |NodeStrokes(node)| == |ss| && ParsedPrefix(NodeStrokes(node)) == FieldsOf(ss)
  {
    StrokeNodesRoundTrip(ss);
    ParsedPrefixFacts(StrokeNodes(ss));
  }

  /** A child element of `strokes`: its tag and attributes. */
  datatype Element = Element(tag: string, attrs: Attributes)

  /** The `map` element: a `brushDir` attribute and optional `grid`, `strokes` and `images` children. */
  datatype MapNode = MapNode(brushDir: Option<string>, grid: Option<Attributes>, strokes: Option<seq<Element>>,
                             images: Option<ImagesNode>)

  /**
   * The image cache after the `images` child is read: the new white-mask policy (re-applied to
   * the entries already held when it changes), the records added, and whether every record was
   * well formed. Without an `images` child nothing changes.
   */
  function LoadedImages(c: map<string, Entry>, whiteMask: bool, images: Option<ImagesNode>): (r: (map<string, Entry>, bool, bool))
    ensures images.None? ==> r == (c, whiteMask, true)
    ensures images.Some? ==> r.1 == (images.value.whiteMask == Some("true"))
  {
    match images
    case None => (c, whiteMask, true)
    case Some(n) =>
      var mask := n.whiteMask == Some("true");
      var loaded := LoadRecords(if whiteMask == mask then c else Remasked(c, mask), n.children, mask);
      (loaded.0, mask, loaded.1)
  }

  /** The `stroke` elements among the children, in order; elements with other tags are skipped. */
  function StrokeElements(es: seq<Element>): (r: seq<Attributes>)
    ensures |r| <= |es|
  {
    if |es| == 0 then []
    else (if es[|es| - 1].tag == "stroke" then StrokeElements(es[..|es| - 1]) + [es[|es| - 1].attrs]
          else StrokeElements(es[..|es| - 1]))
  }

  /** The stroke elements of a map document; none without a `strokes` child. */
  function NodeStrokes(node: MapNode): seq<Attributes>
  {
    if node.strokes.Some? then StrokeElements(node.strokes.value) else []
  }

  /** Tagging each node as a `stroke` element and filtering them back gives the nodes again. */
  lemma {:induction false} StrokeElementsOfTagged(ns: seq<Attributes>)
    ensures StrokeElements(seq(|ns|, i requires 0 <= i < |ns| => Element("stroke", ns[i]))) == ns
  {
    var es := seq(|ns|, i requires 0 <= i < |ns| => Element("stroke", ns[i]));
    if |ns| > 0 {
      var init := ns[..|ns| - 1];
      assert es[..|es| - 1] == seq(|init|, i requires 0 <= i < |init| => Element("stroke", init[i]));
      StrokeElementsOfTagged(init);
    }
  }

  /** The layer of grid cells `buildImage` draws on one side of the strokes, if any. */
  function GridLayers(g: Grid?, includeGrid: bool, above: bool, width: int, height: int): seq<Layer>
    reads g
    requires includeGrid && g != null && g.enabled ==> g.w > 0 && g.h > 0
  {
    if includeGrid && g != null && g.enabled && g.renderAbove == above
    then [GridLayer(Tiles(StartOf(g.x, g.w), StartOf(g.y, g.h), g.w, g.h, width, height))]
    else []
  }

  /**
   * The edges are clamped at 0, so strokes lying entirely left of (or above) the origin give
   * an empty rectangle: `buildImage` then produces no image at all.
   */
  lemma NegativeStrokesGiveNoImage(rs: seq<Rect>)
    requires forall i :: 0 <= i < |rs| ==> rs[i].x + rs[i].w <= 0
    ensures RawBounds(rs).w == 0
  {
    RawBoundsFacts(rs);
    if |rs| > 0 {
      ExtremaFacts(rs);
    }
  }

  /**
   * Strokes loaded for the first |ss| of the fields all: distinct, apart from other, with those
   * fields, their keys in the cache c, and each holding the bitmap that bc (bc0 plus those keys'
   * bitmaps) caches.
   */
  ghost predicate LoadedAs(ss: seq<BrushStroke>, all: seq<StrokeFields>, other: BrushStroke?,
                           c: map<string, Entry>, bc0: map<string, Image>, bc: map<string, Image>)
    reads ss
  {
    |ss| <= |all| && Distinct(ss) && other !in ss && FieldsOf(ss) == all[..|ss|] &&
    (forall j :: 0 <= j < |ss| ==> KeyOf(all[j]) in c) &&
    bc == WithBitmaps(bc0, c, all[..|ss|]) && AllCachedIn(HeldOf(ss), bc)
  }

  /**
   * The stroke loop of `fromNode`: a new list with one stroke per element, each acquiring its
   * image and holding that key's bitmap; ok is false at the first element that does not parse,
   * keeping the strokes built.
   */
  method LoadStrokes(cache: ImageCache, elems: seq<Attributes>, other: BrushStroke?) returns (ss: seq<BrushStroke>, ok: bool)
    modifies cache
    ensures cache.whiteMask == old(cache.whiteMask)
    ensures Distinct(ss) && other !in ss
    ensures FieldsOf(ss) == ParsedPrefix(elems)
    ensures ok <==> |ss| == |elems|
    ensures cache.cache == AcquiredAll(old(cache.cache), FieldsOf(ss), cache.decode, cache.whiteMask)
    ensures cache.bmpCache == WithBitmaps(old(cache.bmpCache), cache.cache, FieldsOf(ss))
    ensures AllCachedIn(HeldOf(ss), cache.bmpCache)
  {
    ghost var c0, bc0, decode, mask := cache.cache, cache.bmpCache, cache.decode, cache.whiteMask;
    ghost var all := ParsedPrefix(elems);
    ss := [];
    ok := true;
    while ok && |ss| < |elems|
      invariant |ss| <= |all|
      invariant !ok ==> |ss| == |all| < |elems|
      invariant cache.whiteMask == mask
      invariant AcquiredAll(cache.cache, all[|ss|..], decode, mask) == AcquiredAll(c0, all, decode, mask)
      invariant LoadedAs(ss, all, other, cache.cache, bc0, cache.bmpCache)
      decreases |elems| - |ss|, ok
    {
      ss, ok := LoadNext(cache, elems, all, bc0, ss, other);
    }
    assert all[..|ss|] == all;
  }

  /** One turn of the stroke loop: the stroke for element |ss| appended, unless that element does not parse. */
  method LoadNext(cache: ImageCache, elems: seq<Attributes>, ghost all: seq<StrokeFields>, ghost bc0: map<string, Image>,
                  ss: seq<BrushStroke>, other: BrushStroke?)
    returns (ss': seq<BrushStroke>, ok: bool)
    requires all == ParsedPrefix(elems) && |ss| <= |all| && |ss| < |elems|
    requires LoadedAs(ss, all, other, cache.cache, bc0, cache.bmpCache)
    modifies cache
    ensures cache.whiteMask == old(cache.whiteMask)
    ensures ok <==> |ss| < |all|
    ensures !ok ==> ss' == ss && cache.cache == old(cache.cache) && cache.bmpCache == old(cache.bmpCache)
    ensures ok ==> |ss'| == |ss| + 1
    ensures |ss'| <= |all| && LoadedAs(ss', all, other, cache.cache, bc0, cache.bmpCache)
    ensures AcquiredAll(cache.cache, all[|ss'|..], cache.decode, cache.whiteMask) ==
      AcquiredAll(old(cache.cache), all[|ss|..], cache.decode, cache.whiteMask)
  {
    var i := |ss|;
    ParsedPrefixAt(elems, i);
    ghost var c0, b0 := cache.cache, cache.bmpCache;
    // `int()` raises on an element that does not parse, before any stroke is built
    if ParseStroke(elems[i]).None? {
      return ss, false;
    }
    var r := StrokeFromNode(cache, elems[i]);
    var s := r.value;
    StrokesKept(ss);
    LoadedNext(ss, s, all, other, bc0, c0, cache.cache, b0, cache.bmpCache, cache.decode, cache.whiteMask);
    ss', ok := ss + [s], true;
  }

  /** Strokes none of whose objects changed keep their fields and holdings. */
  twostate lemma StrokesKept(ss: seq<BrushStroke>)
    requires forall i :: 0 <= i < |ss| ==> unchanged(ss[i])
    ensures FieldsOf(ss) == old(FieldsOf(ss)) && HeldOf(ss) == old(HeldOf(ss))
  {
  }

  /** Everything one loaded stroke adds: its fields, its acquisition and its cached bitmap. */
  lemma LoadedNext(ss: seq<BrushStroke>, s: BrushStroke, all: seq<StrokeFields>, other: BrushStroke?,
                   bc0: map<string, Image>, c0: map<string, Entry>, c1: map<string, Entry>,
                   b0: map<string, Image>, b1: map<string, Image>, decode: (string, int) -> Image, mask: bool)
    requires |ss| < |all| && s !in ss && s != other
    requires LoadedAs(ss, all, other, c0, bc0, b0)
    requires StrokeFields(s.imgPath, s.x, s.y, s.rot) == all[|ss|]
    requires c1 == Acquired(c0, s.Key(), LoadedImage(decode, mask, s.imgPath, s.rot))
    requires b1 == WithBitmap(b0, s.Key(), c1[s.Key()].image) && CachedIn(s.Holding(), b1)
    ensures LoadedAs(ss + [s], all, other, c1, bc0, b1)
    ensures AcquiredAll(c1, all[|ss| + 1..], decode, mask) == AcquiredAll(c0, all[|ss|..], decode, mask)
  {
    var i := |ss|;
    assert s.Key() == KeyOf(all[i]);
    LoadedOne(ss, s, all, other);
    AcquiredStep(c0, c1, all, i, decode, mask);
    BitmapsNext(ss, s, all, bc0, c0, c1, b0, b1, LoadedImage(decode, mask, s.imgPath, s.rot));
  }

  /** The bitmap part of one loaded stroke: the new key is cached, and every stroke holds its bitmap. */
  lemma BitmapsNext(ss: seq<BrushStroke>, s: BrushStroke, all: seq<StrokeFields>, bc0: map<string, Image>,
                    c0: map<string, Entry>, c1: map<string, Entry>, b0: map<string, Image>, b1: map<string, Image>,
                    loaded: Image)
    requires |ss| < |all|
    requires forall j :: 0 <= j < |ss| ==> KeyOf(all[j]) in c0
    requires b0 == WithBitmaps(bc0, c0, all[..|ss|]) && AllCachedIn(HeldOf(ss), b0)
    requires c1 == Acquired(c0, KeyOf(all[|ss|]), loaded) && s.Key() == KeyOf(all[|ss|])
    requires b1 == WithBitmap(b0, s.Key(), c1[s.Key()].image) && CachedIn(s.Holding(), b1)
    ensures forall j :: 0 <= j < |ss| + 1 ==> KeyOf(all[j]) in c1
    ensures b1 == WithBitmaps(bc0, c1, all[..|ss| + 1]) && AllCachedIn(HeldOf(ss + [s]), b1)
  {
    BitmapStep(bc0, c0, c1, all, |ss|, loaded);
    AllCachedSnoc(ss, s, b0, s.Key(), c1[s.Key()].image);
  }

  /** One more loaded stroke, new and with the next parsed fields, extends the loaded prefix. */
  lemma LoadedOne(ss: seq<BrushStroke>, s: BrushStroke, all: seq<StrokeFields>, other: BrushStroke?)
    requires |ss| < |all| && Distinct(ss) && other !in ss && s !in ss && s != other
    requires FieldsOf(ss) == all[..|ss|] && StrokeFields(s.imgPath, s.x, s.y, s.rot) == all[|ss|]
    ensures Distinct(ss + [s]) && other !in ss + [s] && FieldsOf(ss + [s]) == all[..|ss| + 1]
  {
    TakeSnoc(all, |ss|);
    FieldsOfSnoc(ss, s);
    DistinctSnoc(ss, s);
  }

  /** Acquiring the image of stroke i is the first step of acquiring those from i on. */
  lemma AcquiredStep(c0: map<string, Entry>, c1: map<string, Entry>, all: seq<StrokeFields>, i: int,
                     decode: (string, int) -> Image, mask: bool)
    requires 0 <= i < |all|
    requires c1 == Acquired(c0, CacheKey(all[i].imgPath, all[i].rot), LoadedImage(decode, mask, all[i].imgPath, all[i].rot))
    ensures AcquiredAll(c1, all[i + 1..], decode, mask) == AcquiredAll(c0, all[i..], decode, mask)
  {
    DropNext(all, i);
  }

  class MapDocument<Cb(==)> {
    /** The listener registry the document inherits in the source. */
    const events: EventProducer<string, Cb>
    /** Every callback invocation the document's events have made, in order. */
    var fired: seq<Call<Cb, Notice>>
    var brushDir: Option<string>
    var brush: Brush?
    var strokes: seq<BrushStroke>
    var dirty: bool
    var lastSavePath: Option<string>
    var selected: BrushStroke?
    var grid: Grid?

    /** Strokes are listed once each, and the selected stroke is out of the list. */
    ghost predicate Valid()
      reads this`strokes, this`selected
    {
      Distinct(strokes) && (selected != null ==> selected !in strokes)
    }

    function Calls(name: string, notice: Notice): seq<Call<Cb, Notice>>
      reads this, events
    {
      Dispatch(events.listeners, name, notice)
    }

    /** The grid as the bounding rectangle sees it. */
    function GridConfig(): GridCfg
      reads this, grid
    {
      if grid != null && grid.enabled then GridCfg(true, grid.w, grid.h) else GridCfg(false, 0, 0)
    }

    constructor ()
      ensures Valid() && fresh(events) && events.listeners == map[]
      ensures fired == [] && brushDir == None && brush == null && strokes == []
      ensures !dirty && lastSavePath == None && selected == null && grid == null
    {
      events := new EventProducer();
      fired := [];
      brushDir := None;
      brush := null;
      strokes := [];
      dirty := false;
      lastSavePath := None;
      selected := null;
      grid := null;
    }

    /** Runs an `@event` method whose body does nothing: fires `name` and logs the calls. */
    method Notify(name: string, notice: Notice)
      modifies this`fired
      ensures fired == old(fired) + Calls(name, notice)
    {
      var _, calls := events.Event(name, (n: Notice) => 0, notice);
      fired := fired + calls;
    }

    method MarkDirty(needsPaint: bool)
      modifies this`dirty, this`fired
      ensures dirty
      ensures fired == old(fired) + Calls("onMapChanged", MapChanged(needsPaint))
    {
      dirty := true;
      Notify("onMapChanged", MapChanged(needsPaint));
    }

    method ClearDirty()
      modifies this`dirty
      ensures !dirty
    {
      dirty := false;
    }

    method SetBrushDir(dir: Option<string>)
      modifies this`brushDir, this`fired
      ensures brushDir == dir
      ensures fired == old(fired) + Calls("onBrushDirChanged", BrushDirChanged(dir))
    {
      brushDir := dir;
      Notify("onBrushDirChanged", BrushDirChanged(dir));
    }

    method SetBrush(imgPath: string) returns (b: Brush)
      modifies this`brush, this`fired
      ensures fresh(b) && brush == b && b.imgPath == imgPath && b.rot == ROT_NONE
      ensures fired == old(fired) + Calls("onBrushChanged", BrushChanged(imgPath))
    {
      b := new Brush(imgPath);
      brush := b;
      Notify("onBrushChanged", BrushChanged(imgPath));
    }

    /**
     * `strokeBrush`: with a brush, a new stroke centred on the point goes on top of the list;
     * the document is marked dirty either way.
     */
    method StrokeBrush(cache: ImageCache, px: int, py: int)
      requires Valid()
      modifies this`strokes, this`dirty, this`fired, cache
      ensures Valid()
      ensures brush == null ==> strokes == old(strokes) && cache.cache == old(cache.cache) && cache.bmpCache == old(cache.bmpCache)
      ensures brush != null ==>
        |strokes| == |old(strokes)| + 1 && strokes[..|old(strokes)|] == old(strokes) &&
        var s := strokes[|old(strokes)|];
        fresh(s) && s.imgPath == brush.imgPath && s.rot == brush.rot &&
        s.x == px - s.w / 2 && s.y == py - s.h / 2 &&
        cache.cache == Acquired(old(cache.cache), s.Key(), cache.Fresh(s.imgPath, s.rot)) &&
        cache.bmpCache == WithBitmap(old(cache.bmpCache), s.Key(), cache.cache[s.Key()].image) &&
        CachedIn(s.Holding(), cache.bmpCache)
      ensures cache.whiteMask == old(cache.whiteMask)
      ensures dirty && fired == old(fired) + Calls("onMapChanged", MapChanged(true))
    {
      if brush != null {
        var s := brush.CreateStroke(cache, px, py);
        strokes := strokes + [s];
      }
      MarkDirty(true);
    }

    /** `findStroke`: scans the list from the bottom and returns the first stroke under the point. */
    method FindStroke(px: int, py: int) returns (s: BrushStroke?)
      ensures FirstHit(RectsOf(strokes), px, py).None? ==> s == null
      ensures FirstHit(RectsOf(strokes), px, py).Some? ==> s == strokes[FirstHit(RectsOf(strokes), px, py).value]
    {
      var rs := RectsOf(strokes);
      FirstHitFacts(rs, px, py);
      var i := 0;
      while i < |strokes|
        invariant 0 <= i <= |strokes|
        invariant forall j :: 0 <= j < i ==> !Contains(rs[j], px, py)
      {
        if strokes[i].IsInside(px, py) {
          return strokes[i];
        }
        i := i + 1;
      }
      return null;
    }

    /**
     * `selectStroke`: the first stroke in list order under the point is taken out of the list
     * and becomes the selection; on a miss the list is unchanged and nothing is selected.
     */
    method SelectStroke(cache: ImageCache, px: int, py: int) returns (s: BrushStroke?)
      requires Valid()
      modifies this`selected, this`strokes, cache
      ensures Valid()
      ensures selected == s
      ensures old(FirstHit(RectsOf(strokes), px, py)).None? ==> s == null && strokes == old(strokes)
      ensures old(FirstHit(RectsOf(strokes), px, py)).Some? ==>
        var i := old(FirstHit(RectsOf(strokes), px, py)).value;
        s == old(strokes)[i] && strokes == old(strokes)[..i] + old(strokes)[i + 1..]
      ensures old(selected) != null ==> cache.cache == Released(old(cache.cache), old(selected.Key()))
      ensures old(selected) == null ==> cache.cache == old(cache.cache)
      ensures cache.bmpCache == old(cache.bmpCache) && cache.whiteMask == old(cache.whiteMask)
    {
      ghost var rs := RectsOf(strokes);
      ghost var hit := FirstHit(rs, px, py);
      s := FindStroke(px, py);
      ReleaseSelected(cache);
      if s != null {
        Detach(s, hit.value);
      }
      selected := s;
    }

    /** The stroke losing the selection is collected, which gives back its cache reference. */
    method ReleaseSelected(cache: ImageCache)
      modifies cache
      ensures selected != null ==> cache.cache == Released(old(cache.cache), selected.Key())
      ensures selected == null ==> cache.cache == old(cache.cache)
      ensures cache.bmpCache == old(cache.bmpCache) && cache.whiteMask == old(cache.whiteMask)
      ensures RectsOf(strokes) == old(RectsOf(strokes))
      ensures old(Valid()) ==> Valid()
    {
      if selected != null {
        selected.Release(cache);
      }
    }

    /** The `remove` of `selectStroke`: the stroke at index i leaves the list. */
    method Detach(s: BrushStroke, ghost i: int)
      requires Distinct(strokes) && 0 <= i < |strokes| && strokes[i] == s
      modifies this`strokes
      ensures strokes == old(strokes)[..i] + old(strokes)[i + 1..]
      ensures Distinct(strokes) && s !in strokes
    {
      RemoveDistinct(strokes, i);
      strokes := RemoveFirst(strokes, s);
    }

    /** `replaceSelectedStroke`: the selection goes back on top of the list and is cleared. */
    method ReplaceSelectedStroke()
      requires Valid()
      modifies this`selected, this`strokes, this`dirty, this`fired
      ensures Valid()
      ensures old(selected) == null ==>
        selected == null && strokes == old(strokes) && dirty == old(dirty) && fired == old(fired)
      ensures old(selected) != null ==>
        strokes == old(strokes) + [old(selected)] && selected == null && dirty &&
        fired == old(fired) + Calls("onMapChanged", MapChanged(true))
    {
      if selected != null {
        strokes := strokes + [selected];
        selected := null;
        MarkDirty(true);
      }
    }

    /**
     * `deleteStroke`: clears the selection if it is that stroke, removes it from the list if it
     * is there, and marks the document dirty in every case. A stroke the document held gives
     * back its cache reference.
     */
    method DeleteStroke(cache: ImageCache, stroke: BrushStroke?)
      requires Valid()
      modifies this`selected, this`strokes, this`dirty, this`fired, cache
      ensures Valid()
      ensures selected == (if old(selected) == stroke then null else old(selected))
      ensures strokes == (if stroke in old(strokes) then RemoveFirst(old(strokes), stroke) else old(strokes))
      ensures stroke != null && (stroke == old(selected) || stroke in old(strokes)) ==>
        cache.cache == Released(old(cache.cache), stroke.Key())
      ensures !(stroke != null && (stroke == old(selected) || stroke in old(strokes))) ==>
        cache.cache == old(cache.cache)
      ensures cache.whiteMask == old(cache.whiteMask) && cache.bmpCache == old(cache.bmpCache)
      ensures dirty && fired == old(fired) + Calls("onMapChanged", MapChanged(true))
    {
      var held := stroke != null && (stroke == selected || stroke in strokes);
      Forget(stroke);
      if held {
        stroke.Release(cache);
      }
      MarkDirty(true);
    }

    /** The list and selection part of `deleteStroke`. */
    method Forget(stroke: BrushStroke?)
      requires Valid()
      modifies this`selected, this`strokes
      ensures Valid()
      ensures selected == (if old(selected) == stroke then null else old(selected))
      ensures strokes == (if stroke in old(strokes) then RemoveFirst(old(strokes), stroke) else old(strokes))
    {
      if selected == stroke {
        selected := null;
      }
      if stroke in strokes {
        RemoveFirstSpec(strokes, stroke);
        strokes := RemoveFirst(strokes, stroke);
      }
    }

    method DeleteSelectedStroke(cache: ImageCache)
      requires Valid()
      modifies this`selected, this`strokes, this`dirty, this`fired, cache
      ensures Valid()
      ensures old(selected) == null ==>
        selected == null && strokes == old(strokes) && dirty == old(dirty) && cache.cache == old(cache.cache) &&
        fired == old(fired)
      ensures old(selected) != null ==>
        selected == null && strokes == old(strokes) && dirty &&
        cache.cache == Released(old(cache.cache), old(selected).Key()) &&
        fired == old(fired) + Calls("onMapChanged", MapChanged(true))
      ensures cache.whiteMask == old(cache.whiteMask) && cache.bmpCache == old(cache.bmpCache)
    {
      if selected != null {
        DeleteStroke(cache, selected);
      }
    }

    /** `_getBoundingRect`, accumulating over the strokes as the source does. */
    method GetBoundingRect() returns (b: Rect)
      requires grid != null && grid.enabled ==> grid.w != 0 && grid.h != 0
      ensures b == Bounds(RectsOf(strokes), GridConfig())
    {
      var x, y, w, h := StrokeExtent();
      if grid != null && grid.enabled {
        var xMod := PyMod(x, grid.w);
        x := x - xMod;
        w := w + xMod;
        w := w + PyMod(w, grid.w);
        var yMod := PyMod(y, grid.h);
        y := y - yMod;
        h := h + yMod;
        h := h + PyMod(h, grid.h);
      }
      b := Rect(x, y, w, h);
    }

    /** The loop of `_getBoundingRect`: least corner and greatest edges, all zero without strokes. */
    method StrokeExtent() returns (x: int, y: int, w: int, h: int)
      ensures Rect(x, y, w, h) == RawBounds(RectsOf(strokes))
    {
      var rs := RectsOf(strokes);
      x, y, w, h := 0, 0, 0, 0;
      if |rs| == 0 {
        return;
      }
      x, y := MAXINT, MAXINT;
      var i := 0;
      while i < |rs|
        invariant 0 <= i <= |rs|
        invariant Rect(x, y, w, h) == Fold(Rect(MAXINT, MAXINT, 0, 0), rs[..i])
      {
        var r := strokes[i].GetRect();
        TakeSnoc(rs, i);
        x := Min(x, r.x);
        y := Min(y, r.y);
        w := Max(w, r.x + r.w);
        h := Max(h, r.y + r.h);
        i := i + 1;
      }
      assert rs[..i] == rs;
    }

    /**
     * `buildImage`: finds the bounding rectangle; an empty one gives no image and moves
     * nothing. Otherwise every stroke in the list moves by minus the corner, so the rectangle's
     * size is the edges minus the corner, and the strokes are composed over a white background
     * with the grid below or above them. The returned corner is the one before the move.
     */
    method BuildImage(cache: ImageCache, includeGrid: bool, useWhiteMask: bool)
      returns (ox: int, oy: int, img: Option<Composite>)
      requires Valid()
      requires grid != null && grid.enabled ==> grid.w != 0 && grid.h != 0
      requires includeGrid && grid != null && grid.enabled ==> grid.w > 0 && grid.h > 0
      requires includeGrid && grid == null ==> RawBounds(RectsOf(strokes)).w < 1 || RawBounds(RectsOf(strokes)).h < 1
      modifies strokes
      ensures var b := old(Bounds(RectsOf(strokes), GridConfig()));
        (ox, oy) == (b.x, b.y) &&
        (b.w < 1 || b.h < 1 ==> img.None? && RectsOf(strokes) == old(RectsOf(strokes))) &&
        (!(b.w < 1 || b.h < 1) ==> RectsOf(strokes) == Shifted(old(RectsOf(strokes)), b.x, b.y)) &&
        (!(b.w < 1 || b.h < 1) ==> img.Some? && img.value.width == b.w - b.x && img.value.height == b.h - b.y)
      ensures img.Some? ==> img.value == Picture(cache, includeGrid, useWhiteMask, img.value.width, img.value.height)
      ensures forall i :: 0 <= i < |strokes| ==> strokes[i].rot == old(strokes[i].rot) && strokes[i].bmp == old(strokes[i].bmp)
      ensures selected != null ==> unchanged(selected)
    {
      ghost var rs := RectsOf(strokes);
      var b := GetBoundingRect();
      assert RectsOf(strokes) == rs;
      ox, oy := b.x, b.y;
      img := Render(cache, includeGrid, useWhiteMask, b);
    }

    /**
     * What `buildImage` draws on a w x h bitmap: the grid below, the strokes in list order, the
     * grid above, and the white mask when both the caller and the cache ask for it.
     */
    ghost function Picture(cache: ImageCache, includeGrid: bool, useWhiteMask: bool, w: int, h: int): Composite
      reads this, grid, strokes, cache
      requires includeGrid && grid != null && grid.enabled ==> grid.w > 0 && grid.h > 0
    {
      Composite(w, h, GridLayers(grid, includeGrid, false, w, h) + StrokeLayers(strokes) +
        GridLayers(grid, includeGrid, true, w, h), useWhiteMask && cache.whiteMask)
    }

    /**
     * `buildImage` once the bounding rectangle b is known: nothing for an empty one, else move
     * the strokes by minus the corner and draw.
     */
    method Render(cache: ImageCache, includeGrid: bool, useWhiteMask: bool, b: Rect) returns (img: Option<Composite>)
      requires Valid()
      requires includeGrid && grid != null && grid.enabled ==> grid.w > 0 && grid.h > 0
      requires includeGrid && grid == null ==> b.w < 1 || b.h < 1
      modifies strokes
      ensures b.w < 1 || b.h < 1 ==> img.None? && RectsOf(strokes) == old(RectsOf(strokes))
      ensures !(b.w < 1 || b.h < 1) ==> RectsOf(strokes) == Shifted(old(RectsOf(strokes)), b.x, b.y)
      ensures !(b.w < 1 || b.h < 1) ==> img.Some? && img.value.width == b.w - b.x && img.value.height == b.h - b.y
      ensures img.Some? ==> img.value == Picture(cache, includeGrid, useWhiteMask, img.value.width, img.value.height)
      ensures forall i :: 0 <= i < |strokes| ==> strokes[i].rot == old(strokes[i].rot) && strokes[i].bmp == old(strokes[i].bmp)
      ensures selected != null ==> unchanged(selected)
    {
      if b.w < 1 || b.h < 1 {
        return None;
      }
      var w, h := Normalise(b.x, b.y, b.w, b.h);
      var c := Compose(cache, includeGrid, useWhiteMask, w, h);
      img := Some(c);
    }

    /**
     * The non-empty case of `buildImage` before drawing: the image size is the edges minus the
     * corner, and the strokes move by minus the corner when it is not (0, 0).
     */
    method Normalise(ox: int, oy: int, right: int, bottom: int) returns (w: int, h: int)
      requires Distinct(strokes)
      modifies strokes
      ensures w == right - ox && h == bottom - oy
      ensures grid != null ==> unchanged(grid)
      ensures RectsOf(strokes) == Shifted(old(RectsOf(strokes)), ox, oy)
      ensures forall i :: 0 <= i < |strokes| ==> strokes[i].rot == old(strokes[i].rot) && strokes[i].bmp == old(strokes[i].bmp)
    {
      ghost var rs0 := RectsOf(strokes);
      w, h := right, bottom;
      if ox != 0 || oy != 0 {
        w := w - ox;
        h := h - oy;
        ShiftStrokes(ox, oy);
      } else {
        ShiftedPointwise(rs0, rs0, ox, oy);
      }
    }

    /** The drawing part of `buildImage`: the grid below, the strokes in order, the grid above, then the mask. */
    method Compose(cache: ImageCache, includeGrid: bool, useWhiteMask: bool, w: int, h: int) returns (c: Composite)
      requires includeGrid ==> grid != null
      requires includeGrid && grid.enabled ==> grid.w > 0 && grid.h > 0
      ensures c == Picture(cache, includeGrid, useWhiteMask, w, h)
    {
      var below, above := GridCells(includeGrid, w, h);
      c := Composite(w, h, below + StrokeLayers(strokes) + above, useWhiteMask && cache.whiteMask);
    }

    /** The grid cells `buildImage` draws below and above the strokes, over a w x h bitmap. */
    method GridCells(includeGrid: bool, w: int, h: int) returns (below: seq<Layer>, above: seq<Layer>)
      requires includeGrid ==> grid != null
      requires includeGrid && grid.enabled ==> grid.w > 0 && grid.h > 0
      ensures below == GridLayers(grid, includeGrid, false, w, h)
      ensures above == GridLayers(grid, includeGrid, true, w, h)
    {
      below, above := [], [];
      if includeGrid && grid.enabled && !grid.renderAbove {
        var cells := grid.Draw(w, h);
        below := [GridLayer(cells)];
      }
      if includeGrid && grid.enabled && grid.renderAbove {
        var cells := grid.Draw(w, h);
        above := [GridLayer(cells)];
      }
    }

    /** The loop of `buildImage` moving every listed stroke by (-dx, -dy). */
    method ShiftStrokes(dx: int, dy: int)
      requires Distinct(strokes)
      modifies strokes
      ensures RectsOf(strokes) == Shifted(old(RectsOf(strokes)), dx, dy)
      ensures forall i :: 0 <= i < |strokes| ==> strokes[i].rot == old(strokes[i].rot) && strokes[i].bmp == old(strokes[i].bmp)
    {
      var ss, i := strokes, 0;
      while i < |ss|
        invariant 0 <= i <= |ss|
        invariant forall j :: 0 <= j < i ==> ss[j].x == old(ss[j].x) - dx && ss[j].y == old(ss[j].y) - dy
        invariant forall j :: i <= j < |ss| ==> ss[j].x == old(ss[j].x) && ss[j].y == old(ss[j].y)
        invariant forall j :: 0 <= j < |ss| ==> ss[j].rot == old(ss[j].rot) && ss[j].bmp == old(ss[j].bmp)
      {
        ss[i].x, ss[i].y := ss[i].x - dx, ss[i].y - dy;
        i := i + 1;
      }
      ShiftedPointwise(old(RectsOf(ss)), RectsOf(ss), dx, dy);
    }

    /** Gives back the cache reference of every stroke in the list, bottom to top. */
    method ReleaseStrokes(cache: ImageCache)
      modifies cache
      ensures cache.cache == ReleasedAll(old(cache.cache), KeysOf(strokes))
      ensures cache.bmpCache == old(cache.bmpCache) && cache.whiteMask == old(cache.whiteMask)
    {
      ghost var keys := KeysOf(strokes);
      ghost var c0 := cache.cache;
      var i := 0;
      while i < |strokes|
        invariant 0 <= i <= |strokes|
        invariant KeysOf(strokes) == keys
        invariant ReleasedAll(cache.cache, keys[i..]) == ReleasedAll(c0, keys)
        invariant cache.bmpCache == old(cache.bmpCache) && cache.whiteMask == old(cache.whiteMask)
      {
        DropNext(keys, i);
        cache.ReleaseImage(strokes[i].imgPath, strokes[i].rot);
        i := i + 1;
      }
    }

    /**
     * `new` after the save prompt: unless it was cancelled, the strokes are dropped (giving
     * back their cache references), a 27 x 27 grid at the origin replaces the grid, the
     * document is clean, and the new-map then grid-changed events fire. The selection is kept.
     */
    method New(cache: ImageCache, cancelled: bool)
      requires Valid()
      modifies this`strokes, this`grid, this`dirty, this`fired, cache
      ensures Valid() && selected == old(selected)
      ensures cancelled ==> (strokes == old(strokes) && grid == old(grid) && dirty == old(dirty) &&
        fired == old(fired) && cache.cache == old(cache.cache))
      ensures !cancelled ==>
        strokes == [] && fresh(grid) && grid.State() == GridState(0, 0, 27, 27, 1, "black", false, false, true) &&
        !dirty && cache.cache == ReleasedAll(old(cache.cache), old(KeysOf(strokes))) &&
        fired == old(fired) + Calls("onNewMap", NewMap) + Calls("onGridChanged", GridChanged)
      ensures cache.whiteMask == old(cache.whiteMask) && cache.bmpCache == old(cache.bmpCache)
    {
      if cancelled {
        return;
      }
      ghost var keys := KeysOf(strokes);
      ReleaseStrokes(cache);
      assert cache.cache == ReleasedAll(old(cache.cache), keys);
      strokes := [];
      grid := new Grid(27, 27, 0, 0);
      ClearDirty();
      Notify("onNewMap", NewMap);
      Notify("onGridChanged", GridChanged);
    }

    /**
     * `toNode`: the brush directory, the grid's attributes, one `stroke` element per listed
     * stroke in list order (the selected stroke is not in the list, so it is not written) and the
     * image cache's records.
     */
    method ToNode(cache: ImageCache) returns (node: MapNode)
      requires grid != null
      ensures node.brushDir == brushDir && node.grid == Some(grid.ToNode())
      ensures node.strokes.Some? && StrokeElements(node.strokes.value) == StrokeNodes(strokes)
      ensures node.images.Some? && PathsOf(node.images.value.children) == cache.cache.Keys
      ensures node.images.Some? && node.images.value.whiteMask == (if cache.whiteMask then Some("true") else None)
      ensures node.images.Some? && forall i, j :: 0 <= i < j < |node.images.value.children| ==>
        node.images.value.children[i].path != node.images.value.children[j].path
      ensures node.images.Some? && forall r :: r in node.images.value.children ==> Describes(r, cache.cache)
    {
      var ns := StrokeNodes(strokes);
      var es := seq(|ns|, i requires 0 <= i < |ns| => Element("stroke", ns[i]));
      StrokeElementsOfTagged(ns);
      var images := cache.ToNode();
      node := MapNode(brushDir, Some(grid.ToNode()), Some(es), Some(images));
    }

    /**
     * `fromNode`: sets the brush directory, loads the image records, drops the old strokes,
     * builds one stroke per `stroke` element in order and reads the grid's attributes; then the
     * new-map and grid-changed events fire. ok is false where the source raises part-way (a bad
     * image record, a bad stroke, a bad grid or no grid to read into), with the state reached so
     * far. The dirty flag is not touched.
     */
    method FromNode(cache: ImageCache, node: MapNode) returns (ok: bool)
      requires Valid()
      modifies this`brushDir, this`strokes, this`fired, cache, grid
      ensures Valid() && selected == old(selected) && dirty == old(dirty) && grid == old(grid)
      ensures brushDir == node.brushDir
      ensures cache.whiteMask == LoadedImages(old(cache.cache), old(cache.whiteMask), node.images).1
      ensures ok ==> LoadedImages(old(cache.cache), old(cache.whiteMask), node.images).2 && |strokes| == |NodeStrokes(node)|
      ensures !LoadedImages(old(cache.cache), old(cache.whiteMask), node.images).2 ==>
        !ok && strokes == old(strokes) && cache.cache == LoadedImages(old(cache.cache), old(cache.whiteMask), node.images).0 &&
        fired == old(fired) + Calls("onBrushDirChanged", BrushDirChanged(node.brushDir)) &&
        (grid == null || grid.State() == old(grid.State()))
      ensures LoadedImages(old(cache.cache), old(cache.whiteMask), node.images).2 && !ok ==> fired == old(fired) + Calls("onBrushDirChanged", BrushDirChanged(node.brushDir))
      ensures LoadedImages(old(cache.cache), old(cache.whiteMask), node.images).2 ==>
        FieldsOf(strokes) == ParsedPrefix(NodeStrokes(node)) &&
        cache.cache == AcquiredAll(ReleasedAll(LoadedImages(old(cache.cache), old(cache.whiteMask), node.images).0, old(KeysOf(strokes))),
                                   FieldsOf(strokes), cache.decode, cache.whiteMask)
      ensures cache.bmpCache ==
        var base := if old(cache.whiteMask) == cache.whiteMask then old(cache.bmpCache) else map[];
        if LoadedImages(old(cache.cache), old(cache.whiteMask), node.images).2 then WithBitmaps(base, cache.cache, FieldsOf(strokes)) else base
      ensures LoadedImages(old(cache.cache), old(cache.whiteMask), node.images).2 ==> AllCachedIn(HeldOf(strokes), cache.bmpCache)
      ensures LoadedImages(old(cache.cache), old(cache.whiteMask), node.images).2 && |strokes| < |NodeStrokes(node)| ==>
        !ok && (grid == null || grid.State() == old(grid.State()))
      ensures LoadedImages(old(cache.cache), old(cache.whiteMask), node.images).2 && |strokes| == |NodeStrokes(node)| && node.grid.Some? && grid != null ==>
        Decoded(old(grid.State()), node.grid.value) == Decoding(grid.State(), ok)
      ensures LoadedImages(old(cache.cache), old(cache.whiteMask), node.images).2 && |strokes| == |NodeStrokes(node)| && node.grid.Some? && grid == null ==> !ok
      ensures LoadedImages(old(cache.cache), old(cache.whiteMask), node.images).2 && |strokes| == |NodeStrokes(node)| && node.grid.None? ==>
        ok && (grid == null || grid.State() == old(grid.State()))
      ensures ok ==>
        fired == old(fired) + Calls("onBrushDirChanged", BrushDirChanged(node.brushDir)) +
          Calls("onNewMap", NewMap) + Calls("onGridChanged", GridChanged)
    {
      assert this as object != cache && this as object != grid;
      ok := LoadHeader(cache, node);
      if ok {
        ok := LoadContent(cache, node);
      }
    }

    /** The strokes and the grid of `fromNode`, once the header and the images are read. */
    method LoadContent(cache: ImageCache, node: MapNode) returns (ok: bool)
      requires Valid()
      modifies this`strokes, this`fired, cache, grid
      ensures Valid()
      ensures cache.whiteMask == old(cache.whiteMask)
      ensures FieldsOf(strokes) == ParsedPrefix(NodeStrokes(node))
      ensures ok ==> |strokes| == |NodeStrokes(node)|
      ensures cache.cache == AcquiredAll(ReleasedAll(old(cache.cache), old(KeysOf(strokes))), FieldsOf(strokes), cache.decode, cache.whiteMask)
      ensures cache.bmpCache == WithBitmaps(old(cache.bmpCache), cache.cache, FieldsOf(strokes))
      ensures AllCachedIn(HeldOf(strokes), cache.bmpCache)
      ensures !ok ==> fired == old(fired)
      ensures |strokes| < |NodeStrokes(node)| ==> !ok && (grid == null || grid.State() == old(grid.State()))
      ensures |strokes| == |NodeStrokes(node)| && node.grid.Some? && grid != null ==>
        Decoded(old(grid.State()), node.grid.value) == Decoding(grid.State(), ok)
      ensures |strokes| == |NodeStrokes(node)| && node.grid.Some? && grid == null ==> !ok
      ensures |strokes| == |NodeStrokes(node)| && node.grid.None? ==> ok && (grid == null || grid.State() == old(grid.State()))
      ensures ok ==> fired == old(fired) + Calls("onNewMap", NewMap) + Calls("onGridChanged", GridChanged)
    {
      assert this as object != cache && this as object != grid;
      ok := ReloadStrokes(cache, NodeStrokes(node));
      if ok {
        ok := LoadGrid(node);
      }
    }

    /** The start of `fromNode`: the brush directory is set (and announced), then the images are read. */
    method LoadHeader(cache: ImageCache, node: MapNode) returns (ok: bool)
      modifies this`brushDir, this`fired, cache
      ensures brushDir == node.brushDir
      ensures fired == old(fired) + Calls("onBrushDirChanged", BrushDirChanged(node.brushDir))
      ensures (cache.cache, cache.whiteMask, ok) == LoadedImages(old(cache.cache), old(cache.whiteMask), node.images)
      ensures cache.bmpCache == if old(cache.whiteMask) == cache.whiteMask then old(cache.bmpCache) else map[]
      ensures old(Valid()) ==> Valid()
      ensures KeysOf(strokes) == old(KeysOf(strokes))
      ensures grid != null ==> grid.State() == old(grid.State())
    {
      ghost var keys := KeysOf(strokes);
      SetBrushDir(node.brushDir);
      assert KeysOf(strokes) == keys;
      ok := ReadImages(cache, node);
    }

    /** The image records are read into the cache, when the map has an images element. */
    method ReadImages(cache: ImageCache, node: MapNode) returns (ok: bool)
      modifies cache
      ensures (cache.cache, cache.whiteMask, ok) == LoadedImages(old(cache.cache), old(cache.whiteMask), node.images)
      ensures cache.bmpCache == if old(cache.whiteMask) == cache.whiteMask then old(cache.bmpCache) else map[]
      ensures KeysOf(strokes) == old(KeysOf(strokes))
    {
      ok := true;
      if node.images.Some? {
        ok := cache.FromNode(node.images.value);
      }
    }

    /**
     * The end of `fromNode`: the grid reads its attributes (there must be a grid to read into),
     * then the new-map and grid-changed events fire; nothing fires when the grid fails.
     */
    method LoadGrid(node: MapNode) returns (ok: bool)
      modifies grid, this`fired
      ensures old(Valid()) ==> Valid()
      ensures FieldsOf(strokes) == old(FieldsOf(strokes)) && HeldOf(strokes) == old(HeldOf(strokes))
      ensures node.grid.Some? && grid != null ==> Decoded(old(grid.State()), node.grid.value) == Decoding(grid.State(), ok)
      ensures node.grid.Some? && grid == null ==> !ok
      ensures node.grid.None? ==> ok && (grid == null || grid.State() == old(grid.State()))
      ensures ok ==> fired == old(fired) + Calls("onNewMap", NewMap) + Calls("onGridChanged", GridChanged)
      ensures !ok ==> fired == old(fired)
    {
      ok := ReadGrid(node);
      if ok {
        Announce();
      }
    }

    /** The grid reads its attributes, when the map has a grid element. */
    method ReadGrid(node: MapNode) returns (ok: bool)
      modifies grid
      ensures old(Valid()) ==> Valid()
      ensures FieldsOf(strokes) == old(FieldsOf(strokes)) && HeldOf(strokes) == old(HeldOf(strokes))
      ensures node.grid.Some? && grid != null ==> Decoded(old(grid.State()), node.grid.value) == Decoding(grid.State(), ok)
      ensures node.grid.Some? && grid == null ==> !ok
      ensures node.grid.None? ==> ok && (grid == null || grid.State() == old(grid.State()))
    {
      ok := true;
      if node.grid.Some? {
        if grid == null {
          return false;
        }
        ok := grid.FromNode(node.grid.value);
      }
    }

    /** The new-map and grid-changed events, in that order. */
    method Announce()
      modifies this`fired
      ensures old(Valid()) ==> Valid()
      ensures FieldsOf(strokes) == old(FieldsOf(strokes)) && HeldOf(strokes) == old(HeldOf(strokes))
      ensures fired == old(fired) + Calls("onNewMap", NewMap) + Calls("onGridChanged", GridChanged)
    {
      Notify("onNewMap", NewMap);
      Notify("onGridChanged", GridChanged);
    }

    /**
     * The middle of `fromNode`: the old strokes give back their images, then the stroke loop
     * builds the new list.
     */
    method ReloadStrokes(cache: ImageCache, elems: seq<Attributes>) returns (ok: bool)
      modifies this`strokes, cache
      ensures Valid()
      ensures cache.whiteMask == old(cache.whiteMask)
      ensures FieldsOf(strokes) == ParsedPrefix(elems)
      ensures ok <==> |strokes| == |elems|
      ensures cache.cache == AcquiredAll(ReleasedAll(old(cache.cache), old(KeysOf(strokes))), FieldsOf(strokes), cache.decode, cache.whiteMask)
      ensures cache.bmpCache == WithBitmaps(old(cache.bmpCache), cache.cache, FieldsOf(strokes))
      ensures AllCachedIn(HeldOf(strokes), cache.bmpCache)
    {
      ghost var keys := KeysOf(strokes);
      ReleaseStrokes(cache);
      assert KeysOf(strokes) == keys;
      var ss;
      ss, ok := LoadStrokes(cache, elems, selected);
      SetStrokes(ss);
    }

    /** The assignment of a freshly loaded list: the strokes themselves are untouched by it. */
    method SetStrokes(ss: seq<BrushStroke>)
      modifies this`strokes
      ensures strokes == ss
      ensures FieldsOf(strokes) == old(FieldsOf(ss))
      ensures HeldOf(strokes) == old(HeldOf(ss))
    {
      strokes := ss;
    }
  }
}
