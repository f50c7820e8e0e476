/**
 * Brushes and the strokes stamped with them: a stroke holds one reference to the cached image
 * for its path and rotation, a position, and the size of that image when it was placed.
 */
module Strokes {
  import opened Basics
  import opened Text
  import opened Images

  const ROT_NONE: int := 0
  const ROT_90: int := 1
  const ROT_180: int := 2
  const ROT_270: int := 3

  /** `rot += direction`, then wrap: above ROT_270 becomes ROT_NONE, below ROT_NONE becomes ROT_270. */
  function NextRot(rot: int, direction: int): int
  {
    var r := rot + direction;
    if r > ROT_270 then ROT_NONE else if r < ROT_NONE then ROT_270 else r
  }

  /**
   * Whatever the rotation and step, the result is a valid rotation; for a single step in either
   * direction it is the rotation plus the step, modulo 4.
   */
  lemma NextRotFacts(rot: int, direction: int)
    ensures ROT_NONE <= NextRot(rot, direction) <= ROT_270
    ensures ROT_NONE <= rot <= ROT_270 && (direction == 1 || direction == -1) ==>
      NextRot(rot, direction) == (rot + direction) % 4
  {
  }

  /** Four single steps in the same direction come back to the starting rotation. */
  lemma FourTurns(rot: int, direction: int)
    requires ROT_NONE <= rot <= ROT_270 && (direction == 1 || direction == -1)
    ensures NextRot(NextRot(NextRot(NextRot(rot, direction), direction), direction), direction) == rot
  {
    NextRotFacts(rot, direction);
    NextRotFacts(NextRot(rot, direction), direction);
    NextRotFacts(NextRot(NextRot(rot, direction), direction), direction);
    NextRotFacts(NextRot(NextRot(NextRot(rot, direction), direction), direction), direction);
  }

  /** Larger steps do not wrap modulo 4: two steps from ROT_270 land on ROT_NONE, not ROT_90. */
  lemma LargeStepNotModular()
    ensures NextRot(ROT_270, 2) == ROT_NONE && (ROT_270 + 2) % 4 == ROT_90
  {
  }

  /** A stroke's rectangle: x, y, w, h. */
  datatype Rect = Rect(x: int, y: int, w: int, h: int)

  /** The half-open hit test `[x, x+w) x [y, y+h)`. */
  predicate Contains(r: Rect, px: int, py: int)
  {
    px >= r.x && py >= r.y && px < r.x + r.w && py < r.y + r.h
  }

  /** The attributes `toNode` writes for a stroke. */
  function StrokeAttrs(imgPath: string, x: int, y: int, rot: int): Attributes
  {
    map["imgPath" := imgPath, "x" := IntToString(x), "y" := IntToString(y), "rot" := IntToString(rot)]
  }

  /** What a stroke took from the cache: the path and rotation keying it, the bitmap, and its size. */
  datatype Held = Held(imgPath: string, rot: int, bmp: Image, w: int, h: int)

  /** The bitmap is the one bc caches for the key, and the size is that bitmap's. */
  predicate CachedIn(hd: Held, bc: map<string, Image>)
  {
    var key := CacheKey(hd.imgPath, hd.rot);
    key in bc && hd.bmp == bc[key] && hd.w == hd.bmp.width && hd.h == hd.bmp.height
  }

  /** What `fromNode` reads from a stroke element before building the stroke. */
  datatype StrokeFields = StrokeFields(imgPath: string, x: int, y: int, rot: int)

  /** None where the source raises: a missing path, or x, y or rot missing or not an integer. */
  function ParseStroke(node: Attributes): Option<StrokeFields>
  {
    if "imgPath" !in node then None
    else match (GetInt(node, "x"), GetInt(node, "y"), GetInt(node, "rot"))
      case (Some(x), Some(y), Some(rot)) => Some(StrokeFields(node["imgPath"], x, y, rot))
      case _ => None
  }

  /** A stroke element reads back as the path, position and rotation it was written from. */
  lemma StrokeRoundTrip(imgPath: string, x: int, y: int, rot: int)
    ensures ParseStroke(StrokeAttrs(imgPath, x, y, rot)) == Some(StrokeFields(imgPath, x, y, rot))
  {
    ParseIntToString(x);
    ParseIntToString(y);
    ParseIntToString(rot);
  }

  /**
   * `createStroke` centring: the corner is the click point less half the size (floor division),
   * so a stroke of positive size contains the point it was stamped at.
   */
  lemma CentredOnClick(px: int, py: int, w: int, h: int)
    requires w > 0 && h > 0
    ensures Contains(Rect(px - w / 2, py - h / 2, w, h), px, py)
  {
  }

  class BrushStroke {
    const imgPath: string
    var rot: int
    var x: int
    var y: int
    /** Size of the bitmap acquired at construction; rotation does not update it. */
    const w: int
    const h: int
    var bmp: Image

    function Key(): string
      reads this
    {
      CacheKey(imgPath, rot)
    }

    function GetRect(): Rect
      reads this
    {
      Rect(x, y, w, h)
    }

    predicate IsInside(px: int, py: int)
      reads this
    {
      Contains(GetRect(), px, py)
    }

    function ToNode(): Attributes
      reads this
    {
      StrokeAttrs(imgPath, x, y, rot)
    }

    /** The key, bitmap and size the stroke holds. */
    function Holding(): Held
      reads this
    {
      Held(imgPath, rot, bmp, w, h)
    }

    /** Acquires the image for (imgPath, rot) from the cache and takes its size. */
    constructor (cache: ImageCache, imgPath: string, x: int, y: int, rot: int)
      modifies cache
      ensures this.imgPath == imgPath && this.rot == rot && this.x == x && this.y == y
      ensures cache.cache == Acquired(old(cache.cache), CacheKey(imgPath, rot), cache.Fresh(imgPath, rot))
      ensures cache.bmpCache == WithBitmap(old(cache.bmpCache), CacheKey(imgPath, rot), cache.cache[CacheKey(imgPath, rot)].image)
      ensures cache.whiteMask == old(cache.whiteMask)
      ensures bmp == cache.bmpCache[CacheKey(imgPath, rot)] && w == bmp.width && h == bmp.height
    {
      this.imgPath := imgPath;
      this.rot := rot;
      this.x := x;
      this.y := y;
      var b := cache.GetImage(imgPath, rot);
      this.bmp := b;
      this.w := b.width;
      this.h := b.height;
    }

    /**
     * `rotate`: releases the current key, steps the rotation with wrap-around, acquires the new
     * key. Position and size are unchanged.
     */
    method Rotate(cache: ImageCache, direction: int)
      modifies this, cache
      ensures rot == NextRot(old(rot), direction)
      ensures x == old(x) && y == old(y)
      ensures cache.cache == Acquired(Released(old(cache.cache), old(Key())), Key(), cache.Fresh(imgPath, rot))
      ensures cache.bmpCache == WithBitmap(old(cache.bmpCache), Key(), cache.cache[Key()].image)
      ensures cache.whiteMask == old(cache.whiteMask)
      ensures bmp == cache.bmpCache[Key()]
    {
      cache.ReleaseImage(imgPath, rot);
      rot := rot + direction;
      if rot > ROT_270 {
        rot := ROT_NONE;
      }
      if rot < ROT_NONE {
        rot := ROT_270;
      }
      bmp := cache.GetImage(imgPath, rot);
    }

    /** Gives back the stroke's reference (the source does this when the stroke is collected). */
    method Release(cache: ImageCache)
      modifies cache
      ensures cache.cache == Released(old(cache.cache), Key())
      ensures cache.bmpCache == old(cache.bmpCache) && cache.whiteMask == old(cache.whiteMask)
    {
      cache.ReleaseImage(imgPath, rot);
    }
  }

  /** `BrushStroke.fromNode`: None where the source raises before building the stroke. */
  method StrokeFromNode(cache: ImageCache, node: Attributes) returns (s: Option<BrushStroke>)
    modifies cache
    ensures ParseStroke(node).None? ==> s.None? && cache.cache == old(cache.cache) && cache.bmpCache == old(cache.bmpCache)
    ensures ParseStroke(node).Some? ==>
      (s.Some? && fresh(s.value) &&
       StrokeFields(s.value.imgPath, s.value.x, s.value.y, s.value.rot) == ParseStroke(node).value &&
       cache.cache == Acquired(old(cache.cache), s.value.Key(), cache.Fresh(s.value.imgPath, s.value.rot)) &&
       cache.bmpCache == WithBitmap(old(cache.bmpCache), s.value.Key(), cache.cache[s.value.Key()].image) &&
       CachedIn(s.value.Holding(), cache.bmpCache))
    ensures cache.whiteMask == old(cache.whiteMask)
  {
    var f := ParseStroke(node);
    if f.None? {
      return None;
    }
    var stroke := new BrushStroke(cache, f.value.imgPath, f.value.x, f.value.y, f.value.rot);
    s := Some(stroke);
  }

  class Brush {
    const imgPath: string
    var rot: int

    constructor (imgPath: string)
      ensures this.imgPath == imgPath && rot == ROT_NONE
    {
      this.imgPath := imgPath;
      this.rot := ROT_NONE;
    }

    method Rotate(direction: int)
      modifies this
      ensures rot == NextRot(old(rot), direction)
    {
      rot := rot + direction;
      if rot > ROT_270 {
        rot := ROT_NONE;
      }
      if rot < ROT_NONE {
        rot := ROT_270;
      }
    }

    /** `createStroke`: a new stroke at the brush's rotation whose centre is the click point. */
    method CreateStroke(cache: ImageCache, px: int, py: int) returns (s: BrushStroke)
      modifies cache
      ensures fresh(s)
      ensures s.imgPath == imgPath && s.rot == rot
      ensures s.x == px - s.w / 2 && s.y == py - s.h / 2
      ensures cache.cache == Acquired(old(cache.cache), CacheKey(imgPath, rot), cache.Fresh(imgPath, rot))
      ensures cache.bmpCache == WithBitmap(old(cache.bmpCache), CacheKey(imgPath, rot), cache.cache[CacheKey(imgPath, rot)].image)
      ensures CachedIn(s.Holding(), cache.bmpCache)
      ensures cache.whiteMask == old(cache.whiteMask)
    {
      s := new BrushStroke(cache, imgPath, px, py, rot);
      s.x := s.x - s.w / 2;
      s.y := s.y - s.h / 2;
    }
  }
}
