# geomorph-painter document core in Dafny

geomorph-painter is a small wxPython editor for tile maps. The user stamps "brushes" onto a canvas. A brush is an image file plus a quarter-turn rotation. Each stamp becomes a *brush stroke* at a pixel position. This project models the editor's document layer:

- **`Events`** (`events.dfy`): the listener registry every document inherits. It maps an event id to its ordered list of callbacks. Firing an event yields the calls it makes, in order.
- **`Images`** (`images.dfy`): the shared image cache.
  - Each entry is keyed by `"<path>_<rot>"` and holds a decoded image with a reference count.
  - There is a cache of converted bitmaps and the white-as-alpha policy.
  - The cache is written to and read from the `images` element of a saved map.
- **`Strokes`** (`strokes.dfy`):
  - the brush and its rotation;
  - brush strokes, which hold a cache reference for their image;
  - a stroke's hit test, rotation and XML attributes.
- **`Grids`** (`grid.dfy`):
  - the grid overlay's snapping arithmetic;
  - the cell origins its `draw` strokes;
  - its XML attributes.
- **`Document`** (`document.dfy`): the map document itself.
  - The stroke list is ordered bottom to top. The selected stroke is lifted out of the list while it is dragged.
  - The document also holds the dirty flag and the notifications it fires.
  - Its operations are: stroking and selecting, deleting and replacing, the bounding rectangle, composing the map image, `new`, and saving to and loading from the `map` element.
- **`Text`** (`text.dfy`) and **`Basics`** (`basics.dfy`): shared arithmetic and decimal text. Decimal text is `'%d' % n` and `int(s)`, with their round trip, and the cache-key format.

How the state is represented:

- Objects whose fields the source updates are classes: `EventProducer`, `ImageCache`, `Brush`, `BrushStroke`, `Grid` and `MapDocument`.
- XML elements are maps from attribute name to text, or small datatypes.
- Pixels are byte sequences.
- Drawing is represented by what gets drawn: grid cell origins, and stroke bitmaps placed in their rectangles, in order.
- The singleton `ImageCache.getInstance()` is passed explicitly to the operations that use it.
- A `BrushStroke`'s `__del__` is modelled as an explicit `Release` on the cache. It is called wherever the document drops its last reference to a stroke: deleting it, replacing the stroke list, and replacing the selection in `selectStroke`.

Where the code and its description differ, the model follows the code:

- **Hit test.** `findStroke` returns the *bottom-most* stroke under the point, the first in list order.
- **`snapEnabled`.** `Grid.fromNode` reads it from the `enabled` attribute (`Grids.SnapFlagNotRestored`).
- **Bounding-rectangle edges.** `_getBoundingRect` pads its right and bottom edges by their own remainder, not up to a cell line (`Document.AlignedEdgesNotOnGrid`).
- **Loading strokes.** `fromNode` loads strokes into a list where the selected stroke is not present, and it does not clear the dirty flag.

## Model

| member | source | states |
|---|---|---|
| Events.EventProducer.constructor | src/util/events.py:9-10 | a new producer has no listeners |
| Events.EventProducer.AddEventListener | src/util/events.py:12-15 | the callback is appended to the list of its event id, creating the list when the id is new; the registry invariant (no id with an empty list) is kept |
| Events.AddedAppends | src/util/events.py:12-15 | after adding, the id's list is its old list (or none) plus the callback; every other id keeps its list |
| Events.EventProducer.RemoveEventListener | src/util/events.py:17-21 | an unknown id is a no-op; a known id without the callback raises, changing nothing; otherwise the first occurrence goes and an emptied id is deleted; the invariant is kept |
| Events.RemoveFirstSpec | src/util/events.py:19 | `list.remove` drops exactly one occurrence, the first: one shorter, same multiset minus the callback, prefix before it untouched |
| Events.RegistryInvariant | src/util/events.py:12-21 | adding and (successful) removing both preserve "no event id maps to an empty list" |
| Events.AddThenRemove | src/util/events.py:12-21 | removing a callback just added (and not already registered for that id) restores the registry exactly |
| Events.EventProducer.FireEvent | src/util/events.py:23-26 | the calls made are exactly the dispatch of the id's list with the arguments |
| Events.CallsInRegistrationOrder | src/util/events.py:24-26 | firing calls each registered callback once per registration, in registration order, with the same arguments |
| Events.DispatchUnregistered | src/util/events.py:24 | firing an id nobody listens to calls nothing |
| Events.EventProducer.Event | src/util/events.py:1-6 | the decorated method returns its body's value, and the event named after it fires with the same arguments |
| Text.ParseIntToString | src/doc/map.py:364-374 | every integer written with `'%d'` reads back through `int()` as itself |
| Text.IntToStringInjective | src/doc/grid.py:61-65 | distinct integers have distinct decimal texts |
| Text.CacheKeyInjective | src/doc/map.py:406 | the key `"<path>_<rot>"` determines both the path and the rotation (the rotation text has no underscore) |
| Images.WhiteAlphaFacts | src/doc/map.py:459-464 | the white-as-alpha buffer has one byte per RGB triple; white is transparent, black opaque, and alpha never rises as a pixel's R+G+B rises |
| Images.SetImageAlpha | src/doc/map.py:459-464 | the loop builds the alpha 255 - (R+G+B)/3 for every pixel, keeping the RGB data |
| Images.ClearImageAlpha | src/doc/map.py:466-469 | the alpha becomes fully opaque, one byte per RGB triple; the size and RGB data are unchanged |
| Images.MaskThenClear | src/doc/map.py:459-469 | clearing after masking leaves a fully opaque image of the right length: the two policies undo each other's alpha |
| Images.AcquiredFacts | src/doc/map.py:405-410 | acquiring a key adds a count-1 entry with the loaded image if absent, otherwise adds one to its count keeping its image; other keys are untouched |
| Images.ReleasedFacts | src/doc/map.py:415-420 | releasing an absent key does nothing; a present key loses one count and leaves the cache when its count was 1; other keys are untouched |
| Images.AcquireThenRelease | src/doc/map.py:405-420 | a release after an acquire restores the cache (an entry loaded from a saved map with count 0 instead leaves the cache) |
| Images.ImageCache.constructor | src/doc/map.py:387-390 | both caches empty, white mask on |
| Images.ImageCache.LoadImage | src/doc/map.py:451-457 | the image decoded for a path and rotation, with white-as-alpha applied exactly when the policy is on |
| Images.ImageCache.GetImage | src/doc/map.py:405-413 | the entry is acquired (loaded only on a miss), a bitmap is converted only when none is cached, and the cached bitmap for the key is returned |
| Images.ImageCache.ReleaseImage | src/doc/map.py:415-420 | the cache becomes the released cache; bitmaps and policy unchanged |
| Images.ImageCache.SetWhiteMask | src/doc/map.py:392-400 | an unchanged policy changes nothing; a changed one re-masks every cached image (counts kept) and empties the bitmap cache |
| Images.RecordsFor | src/doc/map.py:426-433 | one `image` record per key in order, carrying the key, width and height text and the base64 RGB data of its entry |
| Images.RecordsDescribe | src/doc/map.py:422-434 | the records name exactly the cached keys, each once, and each describes its entry |
| Images.InSomeOrder | src/doc/map.py:426 | a dictionary's keys iterated in some order: each key exactly once |
| Images.ImageCache.ToNode | src/doc/map.py:422-434 | `whiteMask="true"` exactly when the policy is on; one record per cached key, no duplicates, each describing its entry |
| Images.LoadNeverOverwrites | src/doc/map.py:436-449 | loading records never changes or drops an entry already cached; new keys come from the records, with count 0 and the current alpha policy applied |
| Images.ImageCache.FromNode | src/doc/map.py:436-449 | the policy is set first (re-masking held images and emptying the bitmaps if it changes, otherwise keeping the bitmaps), then records are loaded in order; ok is false at the first record whose size is not an integer or whose data is not three bytes per pixel |
| Images.DecodeRecord | src/doc/map.py:439-444 | a record decodes exactly when both sizes are integers and the data holds three bytes per pixel |
| Images.RecordRoundTrip | src/doc/map.py:422-444 | the record written for an image reads back as that image, with the alpha left for the policy to recompute |
| Strokes.NextRotFacts | src/doc/map.py:302-308 | the rotation stays in 0..3, and a step of +1 or -1 is addition modulo 4 |
| Strokes.FourTurns | src/doc/map.py:302-308 | four quarter turns in the same direction give back the starting rotation |
| Strokes.LargeStepNotModular | src/doc/map.py:303-307 | a step of 2 from 270 degrees resets to 0 instead of wrapping to 90 |
| Strokes.Brush.constructor | src/doc/map.py:289-292 | a brush starts unrotated with its image path |
| Strokes.Brush.Rotate | src/doc/map.py:302-308 | the rotation becomes the next rotation in that direction |
| Strokes.BrushStroke.constructor | src/doc/map.py:324-332 | a stroke takes one cache reference for its path and rotation, holds that key's bitmap, and its size is the bitmap's |
| Strokes.BrushStroke.Rotate | src/doc/map.py:352-359 | the old key is released before the new rotation's key is acquired; position kept; the stroke holds the new bitmap |
| Strokes.BrushStroke.Release | src/doc/map.py:334-335 | dropping a stroke releases its key once; nothing else in the cache changes |
| Strokes.Brush.CreateStroke | src/doc/map.py:317-321 | a new stroke with the brush's path and rotation, acquired once, holding the bitmap cached for its key at that bitmap's size, placed so that it is centred on the click (integer halves) |
| Strokes.CentredOnClick | src/doc/map.py:317-321 | a stroke of positive size placed that way contains the click point |
| Strokes.StrokeRoundTrip | src/doc/map.py:361-375 | a stroke's `stroke` element reads back as the same path, position and rotation |
| Strokes.StrokeFromNode | src/doc/map.py:369-375 | an element that parses gives a new stroke with its fields, acquiring its key once and holding the bitmap cached for it at that bitmap's size; one that does not raises, changing neither cache |
| Grids.Grid.constructor | src/doc/grid.py:5-14 | the given geometry, black, disabled, no snap, drawn above strokes |
| Grids.RoundTrip | src/doc/grid.py:59-79 | writing then reading a grid restores position, cell, line width, colour and `enabled`; `snapEnabled` comes back as `enabled`; `renderAbove` is kept |
| Grids.SnapFlagNotRestored | src/doc/grid.py:78-79 | a grid saved with snapping on but disabled reads back with snapping off |
| Grids.Grid.FromNode | src/doc/grid.py:71-79 | attributes are assigned in order; a missing or non-integer one stops there with the earlier fields already set |
| Grids.Grid.Snap | src/doc/grid.py:54-57 | each coordinate moves toward zero to a multiple of the scaled cell, by less than one cell |
| Grids.SnapCoordFacts | src/doc/grid.py:57 | `int(v / c) * c` is a multiple of c between 0 and v, less than c away from v |
| Grids.SnapIdempotent | src/doc/grid.py:57 | snapping a snapped coordinate changes nothing |
| Grids.SnapTwice | src/doc/grid.py:54-57 | snapping a snapped point gives the same point |
| Grids.StartOffset | src/doc/grid.py:29-34 | the loop steps the origin down by whole cells until it is at most 0, giving the start offset characterised by `StartOfFacts` |
| Grids.StartOfFacts | src/doc/grid.py:29-34 | the start offset is at most 0, congruent to the origin modulo the cell, within one cell of 0 for a positive origin, and the origin itself otherwise |
| Grids.Grid.Draw | src/doc/grid.py:37-50 | the cells drawn are the column-by-column tiling of the view from the start offsets |
| Grids.Grid.DrawColumn | src/doc/grid.py:42-45 | one column appends the cells from the start y down to the view's bottom |
| Grids.ColumnShape | src/doc/grid.py:42-45 | a column has one cell per step, each at `y + j*h` and inside the view, and the next step would leave the view |
| Grids.TilesByColumn | src/doc/grid.py:40-49 | the tiling is the concatenation of the columns at `x, x+w, …` while `x < width` |
| Grids.StepsBound | src/doc/grid.py:40-48 | every step taken starts inside the view and the step after the last is outside |
| Document.MapDocument.constructor | src/doc/map.py:11-19 | no listeners, no brush or brush directory, no strokes, clean, nothing selected, no grid |
| Document.MapDocument.Notify | src/doc/map.py:262-280 | an `@event` method fires its own name with its arguments, and the calls are logged |
| Document.MapDocument.MarkDirty | src/doc/map.py:94-96 | the document is dirty and `onMapChanged` has fired |
| Document.MapDocument.ClearDirty | src/doc/map.py:98-99 | the document is clean |
| Document.MapDocument.SetBrushDir | src/doc/map.py:258-261 | the directory is set and `onBrushDirChanged` fires with it |
| Document.MapDocument.SetBrush | src/doc/map.py:21-24 | a new unrotated brush for the path is current, and `onBrushChanged` fires |
| Document.MapDocument.StrokeBrush | src/doc/map.py:26-29 | without a brush the strokes and the caches are unchanged; with one, a new stroke from the brush goes on top, centred on the point, acquiring its image and holding the bitmap cached for its key; either way the map is dirty and `onMapChanged` fires |
| Document.FirstHitFacts | src/doc/map.py:88-92 | the hit is the least index whose rectangle contains the point; none exactly when no rectangle does |
| Document.MapDocument.FindStroke | src/doc/map.py:88-92 | returns the bottom-most stroke under the point, or none |
| Document.MapDocument.SelectStroke | src/doc/map.py:65-69 | the stroke found becomes the selection and is taken out of the list at its position; no hit clears the selection and leaves the list; the stroke selected before is collected, so its key is released once; the bitmaps and policy are unchanged |
| Document.MapDocument.ReleaseSelected | src/doc/map.py:65 | the outgoing selection, if any, releases its key; the stroke list and the document invariant are kept |
| Document.MapDocument.Detach | src/doc/map.py:68 | removing a listed stroke drops exactly its position, and it is no longer listed |
| Document.RemoveDistinct | src/doc/map.py:68 | in a list without repeats, `remove` of the i-th stroke drops position i and leaves no repeats |
| Document.MapDocument.ReplaceSelectedStroke | src/doc/map.py:75-79 | a selected stroke goes back on top of the list, the selection clears, and the map is marked dirty; without one the selection stays empty and the list, the dirty flag and the events are unchanged |
| Document.MoveToTop | src/doc/map.py:68-77 | lifting a stroke out and putting it back keeps the same strokes and puts it on top |
| Document.MapDocument.DeleteStroke | src/doc/map.py:81-86 | the selection clears if it is that stroke, the stroke leaves the list if listed, its key is released if the document held it, the bitmaps and policy are unchanged, and the map is marked dirty |
| Document.MapDocument.Forget | src/doc/map.py:82-85 | the selection and list updates of `deleteStroke`, keeping the document invariant |
| Document.MapDocument.DeleteSelectedStroke | src/doc/map.py:71-73 | the selected stroke is dropped and released, and the map is marked dirty; without a selection it stays empty and the list, the dirty flag, the cache and the events are unchanged; the bitmaps and policy are unchanged either way |
| Document.RawBoundsFacts | src/doc/map.py:230-243 | without strokes the rectangle is zero; otherwise the least x and y (capped at maxint) and the greatest right and bottom edges (at least 0) |
| Document.FoldIsExtrema | src/doc/map.py:236-243 | the min/max loop computes those extrema |
| Document.ExtremaFacts | src/doc/map.py:238-243 | the extrema bound every stroke rectangle and are reached by one |
| Document.AlignFacts | src/doc/map.py:245-254 | with a grid, the corner moves down to a cell multiple, less than a cell away, and the right and bottom edges never shrink |
| Document.AlignedEdgesNotOnGrid | src/doc/map.py:248-254 | example: the padded edges need not lie on a cell line |
| Document.NegativeStrokesGiveNoImage | src/doc/map.py:33-34 | strokes entirely left of x = 0 give a zero-width rectangle, so no image |
| Document.MapDocument.StrokeExtent | src/doc/map.py:230-243 | the loop's rectangle is the raw bounds of the stroke rectangles |
| Document.MapDocument.GetBoundingRect | src/doc/map.py:229-256 | the raw bounds, grid-aligned when the grid is present and enabled |
| Document.SecondBuildAtOrigin | src/doc/map.py:31-41 | after `buildImage` shifts the strokes by the corner, a second bounding rectangle starts at (0, 0) |
| Document.MapDocument.ShiftStrokes | src/doc/map.py:39-41 | every stroke rectangle moves by (-x, -y); rotations and bitmaps unchanged |
| Document.MapDocument.Normalise | src/doc/map.py:36-41 | the image size is edge minus corner, and the strokes are shifted by the corner |
| Document.MapDocument.GridCells | src/doc/map.py:49-56 | grid cells are drawn below or above the strokes as `renderAbove` says, only when asked for and enabled |
| Document.MapDocument.Compose | src/doc/map.py:43-61 | the picture on a white background: grid below, strokes bottom to top, grid above, with white-as-alpha when asked and the cache's policy is on |
| Document.MapDocument.Render | src/doc/map.py:33-61 | an empty rectangle gives no image and leaves the strokes; otherwise the strokes are shifted and the image is that size and picture |
| Document.MapDocument.BuildImage | src/doc/map.py:31-63 | returns the bounding corner; no image for an empty rectangle; otherwise strokes are shifted by the corner and the picture has the corner-relative size |
| Document.MapDocument.ReleaseStrokes | src/doc/map.py:105 | dropping the list releases each stroke's key once, in order |
| Document.ReleasedAllCount | src/doc/map.py:415-420 | a key released n times loses n counts and leaves the cache exactly when its count runs out |
| Document.ReleasedAllFrame | src/doc/map.py:415-420 | releasing other keys leaves an entry as it was |
| Document.MapDocument.New | src/doc/map.py:101-110 | cancelled: nothing changes; otherwise the strokes are released and emptied, a 27-pixel grid replaces the grid, the map is clean, and `onNewMap` then `onGridChanged` fire; the bitmaps and policy are unchanged |
| Document.StrokeNodesRoundTrip | src/doc/map.py:196-197 | each stroke element written reads back as its stroke's fields |
| Document.DocumentStrokesRoundTrip | src/doc/map.py:194-219 | a map whose stroke elements are the ones `toNode` writes loads back every stroke, with the saved strokes' fields in order |
| Document.StrokeElementsOfTagged | src/doc/map.py:195-219 | the `stroke` elements written are exactly the ones `fromNode` picks out, in order |
| Document.MapDocument.ToNode | src/doc/map.py:186-203 | the brush directory, the grid's attributes, one `stroke` element per listed stroke in order, and the `images` element: `whiteMask="true"` exactly when the policy is on, and one record per cached key, no duplicates, each describing its entry; its stroke elements load back as the saved strokes (`DocumentStrokesRoundTrip`) |
| Document.LoadedImages | src/doc/map.py:209-211 | without an `images` element the cache is unchanged; with one the policy follows its `whiteMask` attribute |
| Document.ParsedPrefixFacts | src/doc/map.py:217-219 | the i-th loaded stroke comes from the i-th stroke element; loading stops exactly at the first that does not parse |
| Document.ParsedPrefixAt | src/doc/map.py:217-219 | element i gives stroke i exactly when it parses |
| Document.LoadStrokes | src/doc/map.py:217-219 | a fresh list whose strokes carry the parsed prefix of the elements, each acquired in order; ok exactly when all parsed; the bitmaps are the old ones plus one per new key, and every stroke holds the bitmap cached for its key at that bitmap's size |
| Document.LoadNext | src/doc/map.py:218-219 | one more element either extends the parsed list by a new stroke, acquires it and converts its bitmap if missing, or stops with nothing changed |
| Document.LoadedNext | src/doc/map.py:219 | a new stroke holding its cached bitmap, with the next parsed fields, extends the loaded prefix: keys, bitmaps and holdings |
| Document.BitmapsNext | src/doc/map.py:219 | one more stroke built extends the bitmap cache by its key and keeps every earlier stroke's holding cached |
| Document.BitmapStep | src/doc/map.py:405-413 | acquiring stroke i's image and converting its bitmap is the next step of building bitmaps for the strokes up to i |
| Document.AcquiredKeeps | src/doc/map.py:405-410 | acquiring one key keeps every earlier key cached with its image |
| Document.WithBitmapsFacts | src/doc/map.py:405-413 | building strokes keeps every bitmap already cached and adds exactly the strokes' cached keys, each with its cached image |
| Document.WithBitmapsFrame | src/doc/map.py:412-413 | the bitmaps built depend only on the cached images of the strokes' keys |
| Document.KeysOfFields | src/doc/map.py:406 | one cache key per stroke, in order |
| Document.AllCachedInIff | src/doc/map.py:330-332 | every stroke holds the bitmap cached for its key, at that bitmap's size, exactly when each one does |
| Document.AllCachedSnoc | src/doc/map.py:330-332 | a stroke built after the others, which gained no bitmap in between, extends the list of holdings |
| Document.LoadedOne | src/doc/map.py:219 | a new stroke with the next parsed fields extends the loaded prefix without repeats |
| Document.AcquiredStep | src/doc/map.py:219 | acquiring one stroke's image is the first step of acquiring all of them from there on |
| Document.MapDocument.LoadHeader | src/doc/map.py:206-211 | the brush directory is set and announced, then the `images` element (if any) is loaded; the bitmaps are kept unless the policy changes, which empties them; the strokes, the grid and the invariant are kept |
| Document.MapDocument.ReadImages | src/doc/map.py:209-211 | the `images` element, if present, is loaded into the cache; otherwise nothing changes |
| Document.MapDocument.ReloadStrokes | src/doc/map.py:214-219 | the old strokes are released, then the new list holds the parsed prefix, acquired in order, each stroke holding its key's cached bitmap |
| Document.MapDocument.LoadGrid | src/doc/map.py:222-227 | the grid reads its element if there is one (failing with no grid); only on success do `onNewMap` and `onGridChanged` fire; the strokes are untouched |
| Document.MapDocument.ReadGrid | src/doc/map.py:222-225 | no `grid` element leaves the grid; one with no grid present fails; otherwise the grid reads it |
| Document.MapDocument.Announce | src/doc/map.py:226-227 | `onNewMap` then `onGridChanged` fire, and nothing else changes |
| Document.MapDocument.LoadContent | src/doc/map.py:213-227 | strokes then grid, with the combined cache effect of releasing the old strokes and acquiring the new, and each new stroke holding its cached bitmap; a stroke that does not parse stops before the grid, which stays as it was; otherwise the grid reads its element, keeping what it assigned before a bad attribute; no event fires on failure |
| Document.MapDocument.FromNode | src/doc/map.py:205-227 | directory, images, strokes, grid and the two events in source order; once the images have loaded, the strokes of a map written by `toNode` come back as the saved ones (with `DocumentStrokesRoundTrip`); the cache equals images loaded, old strokes released and the parsed strokes acquired; the bitmaps are the new ones for those strokes, each of which holds its own; a bad `images` element stops before the strokes, with only the directory announced and the strokes and grid as they were; after good images, a bad stroke leaves the grid as it was, a bad grid attribute keeps what the grid assigned before it, and either way only the directory was announced; the selection and the dirty flag are untouched |

## Left out

- File dialogs, save prompts and file I/O (`load`, `save`, `saveAs`, `export`, `checkForSave`) are not part of this model. `New` takes the prompt's outcome as a parameter.
- wx drawing is modelled by what is drawn: grid cell origins and stroke bitmaps in their rectangles. Translations, pens, line paths, brush previews (`Brush.draw`, `_createBmp`) and `BrushStroke.draw` are not modelled.
- Decoding and rotating an image file (`wx.Image(path)`, `Rotate90`) is an opaque function given to the cache. Converting an image to a bitmap is the identity.
- Base64 is an invertible wrapper. The character alphabet of RFC 4648 is not modelled.
- XML elements are attribute maps and small datatypes. Element order within an attribute set, text nodes and whitespace are not modelled.
- The colour is kept as its text (`wx.Colour.Set`/`GetAsString`). Colour-name normalisation is not modelled.
- `ImageCache.getInstance()` is passed explicitly rather than being a process-wide singleton.
- `BrushStroke.__del__` is an explicit `Release` at the points where the document drops its last reference to a stroke. The timing of Python's garbage collection, and strokes still referenced from outside the document, are not modelled.
- Notification payloads carry the values that matter rather than the objects: the brush path, `needsPaint`, nothing for `onNewMap`/`onGridChanged`. Callbacks are not run; the calls they would receive are logged.
- Images.ImageCache.ToNode: the dictionary's iteration order is left unspecified. The records are stated to cover every key once, not their order.
- Images.SetImageAlpha: the RGB buffer is read as numbers. In Python 2, if `GetData()` returns a `str`, `data[i]` is a one-character string and the sum as written would not be numeric; the model follows the evident intent.
- Text.ParseInt: accepts an optional sign followed by decimal digits. Python's `int()` also allows surrounding whitespace, which is not modelled.
- Grids.Grid.Snap: the scale is an integer and the scaled cell must be positive. Fractional zoom factors and negative cells are not modelled, and the division by zero that a zero cell raises is excluded by the precondition.
- Grids.Grid.Draw: requires positive cell sizes. With a cell of 0 or less the source's loops do not terminate.
- Document.MapDocument.GetBoundingRect: requires non-zero cell sizes when the grid is enabled. With a zero cell the source raises on the modulo.
- Document.MapDocument.BuildImage: when a grid is wanted, requires it to be present whenever there is something to draw, and to have positive cells when enabled. Without a grid the source raises on `self.grid.enabled`, and with non-positive cells its grid loops do not terminate.
- Document.MapDocument.FromNode: states that the loaded strokes are listed once each and never equal the selected stroke, rather than that each stroke object is newly allocated.
- Document.MapDocument.ReloadStrokes: like FromNode, states no repeats and no overlap with the selection, not freshness.
- Document.MapDocument.New: the selection is kept as the source keeps it, and that stroke's cache reference is not released.
- Document.MapDocument.New: the new grid's colour is the value "black". In the source, the default colour argument of `Grid.__init__` is the one shared `wx.BLACK` object, and `Grid.fromNode` changes it in place with `self.color.Set`. After a map with another grid colour has been loaded into a default-coloured grid, a grid made by `new` has that colour. This aliasing is not modelled.
- Grids.Grid.constructor: the default colour is the value "black", not a shared colour object. Changes that `Grid.FromNode` makes to the colour stay in that grid.
- Integers are unbounded. `sys.maxint` is the 64-bit value 2^63 - 1, used only as the starting minimum.
