/**
 * The shared image cache: decoded brush images keyed by `"<path>_<rot>"` with a reference count,
 * the bitmaps converted from them, and the white-as-alpha policy.
 */
module Images {
  import opened Basics
  import opened Text

  /**
   * A wx.Image as far as this model needs it: its size, packed RGB bytes and one alpha byte per
   * pixel (empty when the image has no alpha channel). A converted bitmap is the same value.
   */
  datatype Image = Image(width: int, height: int, rgb: seq<byte>, alpha: seq<byte>)

  /** R + G + B of pixel i. */
  function Sum3(rgb: seq<byte>, i: int): int
    requires 0 <= i < |rgb| / 3
  {
    rgb[3 * i] as int + rgb[3 * i + 1] as int + rgb[3 * i + 2] as int
  }

  /** Alpha of pixel i under the white-as-alpha rule: 255 minus the integer mean of R, G and B. */
  function WhiteAlphaAt(rgb: seq<byte>, i: int): byte
    requires 0 <= i < |rgb| / 3
  {
    255 - Sum3(rgb, i) / 3
  }

  /** The alpha buffer `setImageAlpha` builds: one byte per complete RGB triple. */
  function WhiteAlpha(rgb: seq<byte>): seq<byte>
  {
    seq(|rgb| / 3, i requires 0 <= i < |rgb| / 3 => WhiteAlphaAt(rgb, i))
  }

  /** The alpha buffer `clearImageAlpha` sets: fully opaque, one byte per RGB triple. */
  function OpaqueAlpha(rgb: seq<byte>): seq<byte>
  {
    seq(|rgb| / 3, _ => 255)
  }

  /** An image with its alpha recomputed under the given policy. */
  function Masked(img: Image, whiteMask: bool): Image
  {
    img.(alpha := if whiteMask then WhiteAlpha(img.rgb) else OpaqueAlpha(img.rgb))
  }

  /**
   * White pixels become fully transparent, black ones fully opaque, and alpha never increases
   * as a pixel gets lighter.
   */
  lemma WhiteAlphaFacts(rgb: seq<byte>, i: int, j: int)
    requires 0 <= i < |rgb| / 3 && 0 <= j < |rgb| / 3
    ensures |WhiteAlpha(rgb)| == |rgb| / 3
    ensures rgb[3 * i] == rgb[3 * i + 1] == rgb[3 * i + 2] == 255 ==> WhiteAlpha(rgb)[i] == 0
    ensures rgb[3 * i] == rgb[3 * i + 1] == rgb[3 * i + 2] == 0 ==> WhiteAlpha(rgb)[i] == 255
    ensures Sum3(rgb, i) <= Sum3(rgb, j) ==> WhiteAlpha(rgb)[j] <= WhiteAlpha(rgb)[i]
  {
  }

  /** Turning the white mask on and then off leaves every cached pixel fully opaque. */
  lemma MaskThenClear(img: Image)
    ensures Masked(Masked(img, true), false).alpha == OpaqueAlpha(img.rgb)
    ensures forall i :: 0 <= i < |Masked(Masked(img, true), false).alpha| ==>
      Masked(Masked(img, true), false).alpha[i] == 255
    ensures |Masked(Masked(img, true), false).alpha| == |img.rgb| / 3
  {
  }

  /** `setImageAlpha`, building the alpha buffer one pixel at a time as the source does. */
  method SetImageAlpha(img: Image) returns (r: Image)
    ensures r == Masked(img, true)
  {
    var data := img.rgb;
    var alpha: seq<byte> := [];
    var i := 0;
    while i < |data| / 3
      invariant 0 <= i <= |data| / 3
      invariant alpha == WhiteAlpha(data)[..i]
    {
      alpha := alpha + [255 - (data[i * 3] as int + data[i * 3 + 1] as int + data[i * 3 + 2] as int) / 3];
      i := i + 1;
    }
    r := img.(alpha := alpha);
  }

  /** `clearImageAlpha`. */
  function ClearImageAlpha(img: Image): (r: Image)
    ensures r == img.(alpha := r.alpha) && |r.alpha| == |img.rgb| / 3
    ensures forall i :: 0 <= i < |r.alpha| ==> r.alpha[i] == 255
  {
    Masked(img, false)
  }

  /** A cache entry: the image and the number of strokes holding it. */
  datatype Entry = Entry(image: Image, count: int)

  /** The cache after `getImage` of key: a new entry counts 1, an existing one gains 1. */
  function Acquired(c: map<string, Entry>, key: string, loaded: Image): map<string, Entry>
  {
    if key in c then c[key := c[key].(count := c[key].count + 1)] else c[key := Entry(loaded, 1)]
  }

  /** The cache after `releaseImage` of key: one less, dropped when that reaches 0; absent keys are ignored. */
  function Released(c: map<string, Entry>, key: string): map<string, Entry>
  {
    if key !in c then c
    else if c[key].count - 1 == 0 then c - {key}
    else c[key := c[key].(count := c[key].count - 1)]
  }

  /** After an acquire the key is cached with a count one higher than before (or 1), others untouched. */
  lemma AcquiredFacts(c: map<string, Entry>, key: string, loaded: Image)
    ensures key in Acquired(c, key, loaded)
    ensures Acquired(c, key, loaded)[key].count == (if key in c then c[key].count + 1 else 1)
    ensures Acquired(c, key, loaded)[key].image == (if key in c then c[key].image else loaded)
    ensures forall k :: k != key ==> (k in Acquired(c, key, loaded) <==> k in c)
    ensures forall k :: k != key && k in c ==> Acquired(c, key, loaded)[k] == c[k]
  {
  }

  /** Release deletes the entry exactly when its count reaches 0, and touches nothing else. */
  lemma ReleasedFacts(c: map<string, Entry>, key: string)
    ensures key !in c ==> Released(c, key) == c
    ensures key in c ==> (key !in Released(c, key) <==> c[key].count == 1)
    ensures key in Released(c, key) ==> Released(c, key)[key] == c[key].(count := c[key].count - 1)
    ensures forall k :: k != key ==> (k in Released(c, key) <==> k in c)
    ensures forall k :: k != key && k in c ==> Released(c, key)[k] == c[k]
  {
  }

  /**
   * Acquire then release restores the cache when the key was absent or held by at least one
   * stroke. An entry loaded from a saved document with count 0 is instead dropped.
   */
  lemma AcquireThenRelease(c: map<string, Entry>, key: string, loaded: Image)
    ensures key !in c || c[key].count >= 1 ==> Released(Acquired(c, key, loaded), key) == c
    ensures key in c && c[key].count == 0 ==> Released(Acquired(c, key, loaded), key) == c - {key}
  {
    if key in c && c[key].count >= 1 {
      assert Acquired(c, key, loaded)[key := c[key]] == c;
    } else if key !in c {
      assert Acquired(c, key, loaded) - {key} == c;
    }
  }

  /** The bitmap cache after `getImage`: a bitmap is converted only when none is cached for the key. */
  function WithBitmap(bc: map<string, Image>, key: string, img: Image): map<string, Image>
  {
    if key in bc then bc else bc[key := img]
  }

  /** Every cached image re-masked under a new policy; the counts are kept. */
  function Remasked(c: map<string, Entry>, whiteMask: bool): map<string, Entry>
  {
    map k | k in c :: c[k].(image := Masked(c[k].image, whiteMask))
  }

  /** Base64 text (RFC 4648 section 4) of a byte string, kept as an invertible wrapper. */
  datatype Base64Text = Base64Text(bytes: seq<byte>)

  function B64Encode(data: seq<byte>): Base64Text { Base64Text(data) }

  function B64Decode(t: Base64Text): seq<byte> { t.bytes }

  /** One `image` child of the `images` element: cache key, width and height text, RGB data. */
  datatype ImageRecord = ImageRecord(path: string, w: string, h: string, data: Base64Text)

  /** The `images` element: its optional `whiteMask` attribute and its children in order. */
  datatype ImagesNode = ImagesNode(whiteMask: Option<string>, children: seq<ImageRecord>)

  function RecordOf(key: string, img: Image): ImageRecord
  {
    ImageRecord(key, IntToString(img.width), IntToString(img.height), B64Encode(img.rgb))
  }

  /**
   * The image a record decodes to (before its alpha is set), or None where the source raises:
   * w or h is not an integer, or the data is not three bytes per pixel (`SetData` refuses it).
   */
  function DecodeRecord(r: ImageRecord): (img: Option<Image>)
    ensures img.Some? <==>
      (ParseInt(r.w).Some? && ParseInt(r.h).Some? &&
       |B64Decode(r.data)| == 3 * ParseInt(r.w).value * ParseInt(r.h).value)
  {
    match (ParseInt(r.w), ParseInt(r.h))
    case (Some(w), Some(h)) =>
      var data := B64Decode(r.data);
      if |data| == 3 * w * h then Some(Image(w, h, data, [])) else None
    case _ => None
  }

  /**
   * A record written for an image whose data is three bytes per pixel reads back as that
   * image, without its alpha (which `fromNode` then recomputes under the policy).
   */
  lemma RecordRoundTrip(key: string, img: Image)
    requires |img.rgb| == 3 * img.width * img.height
    ensures DecodeRecord(RecordOf(key, img)) == Some(img.(alpha := []))
  {
    ParseIntToString(img.width);
    ParseIntToString(img.height);
  }

  /**
   * The cache after loading records in order: a key already cached (including one added by an
   * earlier record) is skipped, a new one is inserted with count 0; the bool is false when a
   * record fails to parse, in which case the records after it are not read.
   */
  function LoadRecords(c: map<string, Entry>, recs: seq<ImageRecord>, whiteMask: bool): (map<string, Entry>, bool)
    decreases |recs|
  {
    if |recs| == 0 then (c, true)
    else if recs[0].path in c then LoadRecords(c, recs[1..], whiteMask)
    else match DecodeRecord(recs[0])
      case None => (c, false)
      case Some(img) =>
        LoadRecords(c[recs[0].path := Entry(Masked(img, whiteMask), 0)], recs[1..], whiteMask)
  }

  /** The keys named by a sequence of records. */
  function PathsOf(recs: seq<ImageRecord>): set<string>
  {
    set r | r in recs :: r.path
  }

  /** A record holds exactly the cache entry its path names. */
  predicate Describes(r: ImageRecord, c: map<string, Entry>)
  {
    r.path in c && r == RecordOf(r.path, c[r.path].image)
  }

  lemma PathsOfAppend(recs: seq<ImageRecord>, r: ImageRecord)
    ensures PathsOf(recs + [r]) == PathsOf(recs) + {r.path}
  {
    assert forall q :: q in recs + [r] <==> q in recs || q == r;
  }

  /**
   * Loading never overwrites or drops an entry already cached, and every entry it adds has
   * count 0, is named by one of the records and carries the alpha of the current policy.
   */
  lemma {:induction false} LoadNeverOverwrites(c: map<string, Entry>, recs: seq<ImageRecord>, whiteMask: bool)
    ensures forall k :: k in c ==> k in LoadRecords(c, recs, whiteMask).0 && LoadRecords(c, recs, whiteMask).0[k] == c[k]
    ensures LoadRecords(c, recs, whiteMask).0.Keys <= c.Keys + PathsOf(recs)
    ensures forall k :: k in LoadRecords(c, recs, whiteMask).0 && k !in c ==>
      LoadRecords(c, recs, whiteMask).0[k].count == 0 &&
      Masked(LoadRecords(c, recs, whiteMask).0[k].image, whiteMask) == LoadRecords(c, recs, whiteMask).0[k].image
    decreases |recs|
  {
    if |recs| > 0 {
      var r := recs[0];
      assert PathsOf(recs) == {r.path} + PathsOf(recs[1..]) by {
        assert forall q :: q in recs <==> q == r || q in recs[1..];
      }
      if r.path in c {
        LoadNeverOverwrites(c, recs[1..], whiteMask);
      } else if DecodeRecord(r).Some? {
        var c1 := c[r.path := Entry(Masked(DecodeRecord(r).value, whiteMask), 0)];
        LoadNeverOverwrites(c1, recs[1..], whiteMask);
      }
    }
  }

  /** The loop of `toNode`: the record of each key, in the order given. */
  method RecordsFor(keys: seq<string>, c: map<string, Entry>) returns (children: seq<ImageRecord>)
    requires forall k :: k in keys ==> k in c
    ensures |children| == |keys|
    ensures forall j :: 0 <= j < |keys| ==> children[j] == RecordOf(keys[j], c[keys[j]].image)
  {
    children := [];
    var i := 0;
    while i < |keys|
      invariant 0 <= i <= |keys|
      invariant |children| == i
      invariant forall j :: 0 <= j < i ==> children[j] == RecordOf(keys[j], c[keys[j]].image)
    {
      children := children + [RecordOf(keys[i], c[keys[i]].image)];
      i := i + 1;
    }
  }

  /** Records of every key of c, each once, name every entry once and describe it. */
  lemma RecordsDescribe(keys: seq<string>, c: map<string, Entry>, children: seq<ImageRecord>)
    requires forall k :: k in keys <==> k in c
    requires forall i, j :: 0 <= i < j < |keys| ==> keys[i] != keys[j]
    requires |children| == |keys|
    requires forall j :: 0 <= j < |keys| ==> children[j] == RecordOf(keys[j], c[keys[j]].image)
    ensures PathsOf(children) == c.Keys
    ensures forall i, j :: 0 <= i < j < |children| ==> children[i].path != children[j].path
    ensures forall r :: r in children ==> Describes(r, c)
  {
    assert forall j :: 0 <= j < |children| ==> children[j].path == keys[j];
    forall k | k in keys
      ensures k in PathsOf(children)
    {
      var j :| 0 <= j < |keys| && keys[j] == k;
      assert children[j] in children;
    }
  }

  /** The elements of a set, each once, in an order the caller cannot rely on (a dict's iteration order). */
  method InSomeOrder(s: set<string>) returns (ks: seq<string>)
    ensures forall k :: k in ks <==> k in s
    ensures forall i, j :: 0 <= i < j < |ks| ==> ks[i] != ks[j]
  {
    ks := [];
    var todo := s;
    while todo != {}
      invariant todo <= s
      invariant forall k :: k in ks <==> k in s && k !in todo
      invariant forall i, j :: 0 <= i < j < |ks| ==> ks[i] != ks[j]
      decreases todo
    {
      var k :| k in todo;
      ks := ks + [k];
      todo := todo - {k};
    }
  }

  /** A decoded image, with white-as-alpha applied when the policy is on. */
  function LoadedImage(decode: (string, int) -> Image, whiteMask: bool, imgPath: string, rot: int): Image
  {
    if whiteMask then Masked(decode(imgPath, rot), true) else decode(imgPath, rot)
  }

  class ImageCache {
    /** Reading the image file at a path and rotating it by 90 degrees rot times (wx, not modelled). */
    const decode: (string, int) -> Image
    var cache: map<string, Entry>
    var bmpCache: map<string, Image>
    var whiteMask: bool

    constructor (decode: (string, int) -> Image)
      ensures this.decode == decode
      ensures cache == map[] && bmpCache == map[] && whiteMask
    {
      this.decode := decode;
      cache := map[];
      bmpCache := map[];
      whiteMask := true;
    }

    /** The image `_loadImage` produces for a path and rotation under the current policy. */
    function Fresh(imgPath: string, rot: int): Image
      reads this
    {
      LoadedImage(decode, whiteMask, imgPath, rot)
    }

    /** `_loadImage`: the decoded image, with white-as-alpha applied when the policy is on. */
    method LoadImage(imgPath: string, rot: int) returns (img: Image)
      ensures img == Fresh(imgPath, rot)
    {
      img := decode(imgPath, rot);
      if whiteMask {
        img := SetImageAlpha(img);
      }
    }

    /**
     * `getImage`: acquires one reference to the key's entry, loading it when absent, converts a
     * bitmap when none is cached for the key, and returns the cached bitmap.
     */
    method GetImage(imgPath: string, rot: int) returns (bmp: Image)
      modifies this
      ensures var key := CacheKey(imgPath, rot);
        cache == Acquired(old(cache), key, Fresh(imgPath, rot)) &&
        bmpCache == WithBitmap(old(bmpCache), key, cache[key].image) &&
        key in bmpCache && bmp == bmpCache[key]
      ensures whiteMask == old(whiteMask)
    {
      var key := CacheKey(imgPath, rot);
      if key !in cache {
        var img := LoadImage(imgPath, rot);
        cache := cache[key := Entry(img, 1)];
      } else {
        cache := cache[key := cache[key].(count := cache[key].count + 1)];
      }
      if key !in bmpCache {
        bmpCache := bmpCache[key := cache[key].image];
      }
      bmp := bmpCache[key];
    }

    /** `releaseImage`: gives back one reference; the bitmap cache is left as it is. */
    method ReleaseImage(imgPath: string, rot: int)
      modifies this
      ensures cache == Released(old(cache), CacheKey(imgPath, rot))
      ensures bmpCache == old(bmpCache) && whiteMask == old(whiteMask)
    {
      var key := CacheKey(imgPath, rot);
      if key in cache {
        cache := cache[key := cache[key].(count := cache[key].count - 1)];
        if cache[key].count == 0 {
          cache := cache - {key};
        }
      }
    }

    /**
     * `setWhiteMask`: a change of policy empties the bitmap cache and recomputes the alpha of
     * every cached image; setting the current policy again does nothing.
     */
    method SetWhiteMask(mask: bool)
      modifies this
      ensures whiteMask == mask
      ensures old(whiteMask) == mask ==> cache == old(cache) && bmpCache == old(bmpCache)
      ensures old(whiteMask) != mask ==> cache == Remasked(old(cache), mask) && bmpCache == map[]
    {
      if whiteMask != mask {
        whiteMask := mask;
        bmpCache := map[];
        var todo := cache.Keys;
        while todo != {}
          invariant whiteMask == mask && bmpCache == map[]
          invariant todo <= cache.Keys
          invariant cache.Keys == old(cache).Keys
          invariant forall k :: k in cache ==>
            cache[k] == if k in todo then old(cache)[k] else old(cache)[k].(image := Masked(old(cache)[k].image, mask))
          decreases todo
        {
          var k :| k in todo;
          var img := cache[k].image;
          if mask {
            img := SetImageAlpha(img);
          } else {
            img := ClearImageAlpha(img);
          }
          cache := cache[k := cache[k].(image := img)];
          todo := todo - {k};
        }
        assert cache == Remasked(old(cache), mask);
      }
    }

    /** `toNode`: one record per cached entry, in the dictionary's (unspecified) order. */
    method ToNode() returns (node: ImagesNode)
      ensures node.whiteMask == (if whiteMask then Some("true") else None)
      ensures PathsOf(node.children) == cache.Keys
      ensures forall i, j :: 0 <= i < j < |node.children| ==> node.children[i].path != node.children[j].path
      ensures forall r :: r in node.children ==> Describes(r, cache)
    {
      var c := cache;
      var keys := InSomeOrder(c.Keys);
      var children := RecordsFor(keys, c);
      RecordsDescribe(keys, c, children);
      node := ImagesNode(if whiteMask then Some("true") else None, children);
    }

    /**
     * `fromNode`: sets the policy from the `whiteMask` attribute, then adds each record whose key
     * is not cached yet with count 0; ok is false when a record's size fails to parse or its
     * data has the wrong length (the source raises there, keeping the records loaded before it).
     * A change of policy empties the bitmap cache; loading records does not touch it.
     */
    method FromNode(node: ImagesNode) returns (ok: bool)
      modifies this
      ensures whiteMask == (node.whiteMask == Some("true"))
      ensures bmpCache == if old(whiteMask) == whiteMask then old(bmpCache) else map[]
      ensures var before := if old(whiteMask) == whiteMask then old(cache) else Remasked(old(cache), whiteMask);
        (cache, ok) == LoadRecords(before, node.children, whiteMask)
    {
      SetWhiteMask(node.whiteMask == Some("true"));
      ghost var before := cache;
      ghost var bc := bmpCache;
      var i := 0;
      ok := true;
      while i < |node.children|
        invariant 0 <= i <= |node.children|
        invariant whiteMask == (node.whiteMask == Some("true")) && bmpCache == bc
        invariant LoadRecords(before, node.children, whiteMask) == LoadRecords(cache, node.children[i..], whiteMask)
      {
        var r := node.children[i];
        assert node.children[i..][1..] == node.children[i + 1..];
        if r.path !in cache {
          var w := ParseInt(r.w);
          var h := ParseInt(r.h);
          if w.None? || h.None? {
            ok := false;
            return;
          }
          var data := B64Decode(r.data);
          if |data| != 3 * w.value * h.value {
            ok := false;
            return;
          }
          var img := Image(w.value, h.value, data, []);
          if whiteMask {
            img := SetImageAlpha(img);
          } else {
            img := ClearImageAlpha(img);
          }
          cache := cache[r.path := Entry(img, 0)];
        }
        i := i + 1;
      }
    }
  }
}
