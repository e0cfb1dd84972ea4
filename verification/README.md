# Photobooth compositing engine in Dafny

This project models the pixel and compositing engine of the Photobooth photo
editor. The model has four parts, each a module:

- `Pixbuf` (`pixbuf.dfy`): the pixel buffers the filters work on. A buffer is a
  flat byte sequence with a width, height, channel count (at least three) and
  row stride. It also has the bounds-checked `GetPixel`/`SetPixel` accessors,
  which read and write the red, green and blue bytes at offset
  `row * rowstride + col * nChannels`.
- `Filters` (`filters.dfy`): the five filters `NoneFilter`, `GrayscaleFilter`,
  `LightenFilter`, `DarkenFilter` and `JitterFilter`. `Run` mirrors the source's
  structure: it copies the buffer, then walks the rows and, within each row, the
  columns. Its contract `Transformed` says that every pixel is replaced by the
  filter's output for the input pixel and that every alpha and padding byte is
  copied. The jitter filter's random source is an explicit stream of draws in
  [-100, 99].
- `FilterFactory` (`filter_factory.dfy`): the name → filter registry, a
  `map<string, Filter>`. It has strict registration, lenient removal, strict
  lookup, the five built-in names, and a method that lists the names.
- `Layers` (`layers.dfy`): a layer is an unchanging image and name plus a
  mutable centre and scale. The module covers the footprint (C# truncation toward
  zero), the "too large → skip" rule, the clamped top-left corner and the
  closed-box hit test. The pixel blending of the graphics library is a parameter
  `blend`, which is only required to keep the target's layout.
- `CompositeModel` (`composite_model.dfy`): the base image, the layer stack, the
  composite image, the registry and two callback lists. Each operation returns
  the new model together with the log of notifications it fired, in firing
  order. Layer-index errors are `Failure` results that leave the model unchanged.

`results.dfy` holds the `Option` and `Result` types.

## Notes on the source

The model follows the code wherever a comment in the source disagrees with it:

- `src/FilterFactory.cs:23` says a second registration replaces the first. The
  code throws, so `FilterFactory.RegisterFilter` fails and keeps the registry.
- `src/FilterFactory.cs:43` says `Create` returns null for an unknown name. The
  dictionary indexer throws, so `FilterFactory.Create` returns `Failure`.
  `CompositeModel.RunFilter` catches that failure and does nothing.
- `src/Filter.cs:31` and `:56` say `row < Width` and `col < Height`. The
  asserts check `row < Height` and `col < Width`, and so does `InBounds`.
- `src/CompositeModel.cs:134-135` replaces the layer list before it tries to
  decode. A failed load therefore loses the layers (see Findings).
- The built-in filters are registered under their class names (`"NoneFilter"`,
  `"GrayscaleFilter"`, and so on), not under short names.
- Adding a layer fires the composite callbacks first and the layer callbacks
  second. Deleting a layer and a successful load fire both lists in that order.
- Any recompute starts again from the base. It therefore discards filters that
  ran since the previous recompute (`MoveDiscardsFilter`).
- Add-then-delete gives back the previous model exactly when its composite is
  up to date with base and layers (`Consistent`; `AddThenDeleteRestores`). A stale
  composite is never given back (`AddThenDeleteDropsFilteredComposite`). Two
  things make the composite stale: a filter run that changed it, and a failed load
  on a model whose layers show on the composite (`FailedLoadLeavesStaleComposite`).
  A filter that leaves the composite as it was, such as a name bound to
  `NoneFilter`, keeps it up to date.

## Model

| member | source | states |
|---|---|---|
| `Pixbuf.PixelIsItsBytes` | src/Filter.cs:33-54 | `GetPixel` reads exactly the pixel's first three bytes at `row*rowstride + col*nChannels`: two buffers of one layout give the same colour there iff those three bytes agree. |
| `Pixbuf.IndexInRange` | src/Filter.cs:35-43 | An in-bounds pixel at offset `row*rowstride + col*nChannels` has all of its channel bytes inside the buffer. |
| `Pixbuf.PixelsDisjoint` | src/Filter.cs:67-75 | The three colour bytes of two different in-bounds pixels never overlap. |
| `Pixbuf.SetPixel` | src/Filter.cs:58-77 | Reading the pixel back gives the colour written. No other byte changes: not other pixels, alpha bytes or row padding. The layout is kept. |
| `Pixbuf.SetOwnColorIsNoOp` | src/Filter.cs:33-77 | Writing back the colour `GetPixel` returned leaves the buffer identical (the accessors are inverse). |
| `Pixbuf.Clamp` | src/Layer.cs:39-40 | `Math.Clamp(v, lo, hi)` for lo ≤ hi: the result lies in [lo, hi], is v when v does, and is the nearer bound otherwise. |
| `Filters.ClampByte` | src/Filter.cs:136-138 | `Math.Clamp(v, 0, 255)`: v itself when it is a byte value, 0 below, 255 above. |
| `Filters.PixelOut` | src/Filter.cs:109-206 | The colour each filter writes for one pixel: `NoneFilter` keeps it; grayscale writes one truncated-average grey level in all three channels; lighten never darkens and darken never lightens any channel; jitter writes each channel clamped after adding draw 3k, 3k+1 or 3k+2 (red, green, blue) of the random stream, where k is the pixel's raster position. |
| `Filters.Gray` | src/Filter.cs:109-113 | All three channels equal g, where 3g ≤ r+g+b < 3g+3 (the truncated average), so g lies between the smallest and the largest channel. |
| `Filters.LightenChannel` | src/Filter.cs:136-141 | The result is never darker and at most 100 brighter. It is exactly c+100 unless it saturates at 255. |
| `Filters.DarkenChannel` | src/Filter.cs:166-171 | The result is never brighter and at most 100 darker. It is exactly c−100 unless it saturates at 0. |
| `Filters.JitterChannel` | src/Filter.cs:199-214 | The channel is `Math.Clamp(c + offset, 0, 255)`: c + offset when that is a byte value, 0 below, 255 above. With an offset from `Random.Next(-100, 100)` it therefore lands in [max(0,c−100), min(255,c+99)]. |
| `Filters.MapColumns` | src/Filter.cs:107-114 | The inner loop filters pixels col.. of the row. It leaves every earlier pixel and every other row as they were, and keeps every non-colour byte. |
| `Filters.MapRows` | src/Filter.cs:105-115 | The outer loop filters every pixel of rows row.. and leaves earlier rows and non-colour bytes as they were. |
| `Filters.Run` | src/Filter.cs:87-210 | Every filter returns a valid buffer with the input's layout. Each pixel holds the filter's output for the input pixel at the same place, and alpha and padding bytes are copied. |
| `Filters.TransformedIsUnique` | src/Filter.cs:100-117 | The pixel-by-pixel description of a filter's result admits exactly one buffer. |
| `Filters.IdentityIsCopy` | src/Filter.cs:87-91 | `NoneFilter` returns a buffer byte-identical to its input. |
| `Filters.GrayscaleIdempotent` | src/Filter.cs:109-113 | Applying grayscale to its own output gives the same buffer again. |
| `Filters.DarkenUndoesLighten` | src/Filter.cs:126-177 | Darkening a lightened buffer restores it when no colour channel exceeded 155 (nothing saturated). |
| `Filters.JitterStaysNear` | src/Filter.cs:195-201 | Each channel of the jittered buffer at pixel (r, c) is the input channel plus its own draw (3k, 3k+1, 3k+2 for raster position k), clamped to [0,255]. It therefore stays in [max(0,c−100), min(255,c+99)]. |
| `Filters.LightenDarkenExample` | src/Filter.cs:126-177 | A buffer filled with (200,100,50) darkens to (100,0,0) and lightens to (255,200,150) at every pixel. |
| `FilterFactory.RegisterFilter` | src/FilterFactory.cs:24-31 | A present name fails with a duplicate error and does not replace anything. A new name is added with its filter, and every other entry keeps its filter. |
| `FilterFactory.DeregisterFilter` | src/FilterFactory.cs:35-41 | The name is removed if present. An absent name leaves the registry identical. Other entries are untouched. |
| `FilterFactory.Create` | src/FilterFactory.cs:44-47 | Succeeds exactly when the name is registered and yields the registered filter. An absent name is an error, never a null filter. |
| `FilterFactory.RegisterAll` | src/FilterFactory.cs:15-19 | Successive registrations of distinct new names all succeed. The registry gains exactly those names, each with its own filter. |
| `FilterFactory.NewFactory` | src/FilterFactory.cs:13-20 | A new factory holds exactly the five class names, each mapped to its own filter. |
| `FilterFactory.BuiltinsDistinct` | src/FilterFactory.cs:15-19 | The five built-in names are pairwise distinct, so none of the constructor's registrations throws. |
| `FilterFactory.BuiltinsRegistered` | src/FilterFactory.cs:13-20 | The constructor's five registrations into an empty dictionary all succeed, and the keys are exactly the built-in names. |
| `FilterFactory.BuiltinsRegisteredWith` | src/FilterFactory.cs:15-19 | Each built-in name is registered with its own filter's creator. |
| `FilterFactory.RegisterThenDeregister` | src/FilterFactory.cs:24-41 | Registering a new name and then deregistering it restores the original registry. |
| `FilterFactory.RegisterThenCreate` | src/FilterFactory.cs:24-47 | After registering a new name, `Create` on it yields the filter just registered. |
| `FilterFactory.DeregisterThenCreateFails` | src/FilterFactory.cs:35-47 | After deregistration, `Create` on that name fails. |
| `FilterFactory.GetFilterNames` | src/FilterFactory.cs:51-54 | The list holds exactly the registered names with no duplicates. Its length is the number of entries. |
| `Layers.NewLayer` | src/Layer.cs:9-20 | A new layer keeps the given image and name, with scale 1 and centre (0,0). |
| `Layers.Trunc` | src/Layer.cs:27-28 | The `(int)` cast rounds toward zero: it drops less than 1 and never changes sign. |
| `Layers.HalfTowardZero` | src/Layer.cs:34-35 | C# `n/2` rounds toward zero, including for a negative footprint. |
| `Layers.Place` | src/Layer.cs:25-40 | No placement is made exactly when the truncated footprint is wider or taller than the target. Otherwise the rectangle has the footprint's extent and lies inside the target. Its corner is the ideal corner whenever that fits. |
| `Layers.PlacementIsNearest` | src/Layer.cs:34-40 | No in-bounds corner is closer to the ideal corner (centre minus half footprint) than the clamped one. |
| `Layers.ClampedTruncIsClampedFloor` | src/Layer.cs:34-40 | Truncation and floor give the same corner once it is clamped at 0. |
| `Layers.Apply` | src/Layer.cs:25-43 | Applying a layer keeps the target's layout. A layer too large for the target leaves it exactly as it was. |
| `Layers.Hits` | src/Layer.cs:48-57 | A point hits iff it lies within half the scaled width of the centre horizontally and within half the scaled height vertically. |
| `Layers.HitsBoundary` | src/Layer.cs:50-56 | For a non-negative scale, points on the box edges hit and points one unit beyond any edge miss. |
| `Layers.CenteredPlacementExample` | src/Layer.cs:27-40 | A 20×20 layer at scale 1 centred at (50,50) on a 100×100 target is drawn at (40,40) with extent 20×20, i.e. to (60,60). |
| `CompositeModel.Notify` | src/CompositeModel.cs:67 | The log holds one notification per registration, in list order. |
| `CompositeModel.Composite` | src/CompositeModel.cs:65-66 | The composite of any layer stack has the base's dimensions and layout. |
| `CompositeModel.ComputeCompImage` | src/CompositeModel.cs:63-68 | Starting from a copy of the base and applying each layer in list order yields the composite of the base and the whole stack. |
| `CompositeModel.CompositeAppend` | src/CompositeModel.cs:66 | A layer appended to the stack is drawn last, on top of the composite of the layers below it. |
| `CompositeModel.NewModel` | src/CompositeModel.cs:10-14 | A new model has no layers and no callbacks, the five built-in filters, and a composite equal to its base. |
| `CompositeModel.Recompute` | src/CompositeModel.cs:63-68 | A recompute keeps the invariant and makes the composite agree with base and layers. It changes nothing else and fires each composite callback once, in order. |
| `CompositeModel.AddLayer` | src/CompositeModel.cs:110-116 | The stack grows by one at the top and the earlier layers are unchanged. The new layer is drawn over the composite of the others. Composite callbacks fire, then layer callbacks. |
| `CompositeModel.DeleteLayer` | src/CompositeModel.cs:73-78 | Fails, changing nothing, iff id is out of range. Otherwise exactly layer id is removed, the rest keep their order, and both callback lists fire (composite first). |
| `CompositeModel.ScaleLayer` | src/CompositeModel.cs:83-88 | Fails iff id is out of range. Otherwise only layer id's scale changes, multiplied by the factor. Only composite callbacks fire. |
| `CompositeModel.MoveLayer` | src/CompositeModel.cs:94-99 | Fails iff id is out of range. Otherwise only layer id's centre changes, set to (x,y). Only composite callbacks fire. |
| `CompositeModel.GetLayerName` | src/CompositeModel.cs:103-106 | Returns layer id's name (possibly empty) iff id is in range, and an index error otherwise. |
| `CompositeModel.LoadBaseImage` | src/CompositeModel.cs:130-145 | The layer stack is always emptied. The result is true iff decoding succeeded. On success base and composite equal the decoded image and both callback lists fire. On failure base and composite are kept and nothing fires. |
| `CompositeModel.LoadBaseImageAtomic` | src/CompositeModel.cs:130-145 | Corrected load: on a failed decode the model is exactly as before and nothing fires. On success it behaves like the original. |
| `CompositeModel.RunFilter` | src/CompositeModel.cs:151-161 | An unregistered name changes nothing and fires nothing. A registered name replaces the composite with that filter's output on the current composite, changes nothing else and fires the composite callbacks. |
| `CompositeModel.RegisterFilter` | src/CompositeModel.cs:164-167 | Fails iff the name is already registered. Otherwise the name is added with its filter and nothing else changes. |
| `CompositeModel.DeregisterFilter` | src/CompositeModel.cs:170-173 | The name leaves the registry. Every other name keeps the filter it had. An absent name leaves the model identical. Nothing outside the registry changes. |
| `CompositeModel.FirstIndex` | src/CompositeModel.cs:39 | The position of the earliest registration of a handle. |
| `CompositeModel.RemoveFirst` | src/CompositeModel.cs:39 | Removal takes exactly one registration of the handle out of the list. An unregistered handle leaves the list unchanged. |
| `CompositeModel.RemovesFirstOccurrence` | src/CompositeModel.cs:39 | The registration removed is the earliest one, and all others keep their order. |
| `CompositeModel.AddLayerChangedCallback` | src/CompositeModel.cs:44-47 | The handle is appended to the layer callbacks, even if it is already there. Nothing else changes. |
| `CompositeModel.RemoveLayerChangedCallback` | src/CompositeModel.cs:37-40 | The earliest registration is removed from the layer callbacks (no-op if absent). Nothing else changes. |
| `CompositeModel.AddCompositeChangedCallback` | src/CompositeModel.cs:58-61 | The handle is appended to the composite callbacks, even if it is already there. Nothing else changes. |
| `CompositeModel.RemoveCompositeChangedCallback` | src/CompositeModel.cs:51-54 | The earliest registration is removed from the composite callbacks (no-op if absent). Nothing else changes. |
| `CompositeModel.AddThenDeleteRestores` | src/CompositeModel.cs:73-116 | Adding a layer and deleting the last index gives back the previous model when its composite was up to date. |
| `CompositeModel.AddThenDeleteDropsFilteredComposite` | src/CompositeModel.cs:63-78 | If the composite is out of date with base and layers (a filter changed it, or a failed load dropped the layers), add-then-delete does not restore it. |
| `CompositeModel.ScaleByOneIsNoOp` | src/CompositeModel.cs:83-88 | Scaling any layer by 1 leaves an up-to-date model identical. |
| `CompositeModel.MoveBackRestores` | src/CompositeModel.cs:94-99 | Position is absolute: moving a layer back to its old centre restores an up-to-date model exactly. |
| `CompositeModel.ScaleInverseRestores` | src/CompositeModel.cs:83-88 | Scale is relative: scaling by a non-zero factor and then by its inverse restores an up-to-date model exactly. |
| `CompositeModel.MoveDiscardsFilter` | src/CompositeModel.cs:94-99 | A move after a filter run gives the same model as the move alone: the recompute drops the filter's effect. |
| `CompositeModel.FiltersAccumulate` | src/CompositeModel.cs:151-161 | Two filter runs compose: the second filters the first one's output. |
| `CompositeModel.IdentityFilterKeepsComposite` | src/CompositeModel.cs:151-161 | Running a name bound to `NoneFilter` leaves the model identical. |
| `CompositeModel.GrayscaleTwiceIsOnce` | src/CompositeModel.cs:151-161 | Running grayscale a second time leaves the model as the first run left it. |
| `CompositeModel.FailedLoadLosesLayers` | src/CompositeModel.cs:134-142 | A failed load on a model with layers reports false yet empties the layer stack. |
| `CompositeModel.FailedLoadLeavesStaleComposite` | src/CompositeModel.cs:134-142 | A failed load on an up-to-date model whose layers show on the composite leaves the composite out of date: the layers are gone, but the composite still shows them. |
| `CompositeModel.FailedAtomicLoadKeepsLayers` | src/CompositeModel.cs:130-145 | A failed atomic load reports false and keeps the model, layers included. |
| `CompositeModel.AddThenRemoveCallback` | src/CompositeModel.cs:39-47 | Removing a handle just added restores the list if the handle was new. Otherwise the earlier registration goes and the new one stays last. |

## Left out

- `SaveCompositeImage` (`src/CompositeModel.cs:121-124`): it only encodes to a file, and encoding and file I/O are outside the model.
- Decoding an image file: `LoadBaseImage` takes the decoder's answer as an `Option<Image>` instead of a file name.
- The pixel blending inside the graphics library's `Composite` call (nearest-neighbour resampling, source alpha). It is the parameter `blend`, constrained only to keep the target's layout.
- `Layers.Apply`: states only that the layout is kept and that an oversize layer leaves the target unchanged. Which pixels the blend writes, and that it writes only inside the placement rectangle, is not modelled, because that is the library's code.
- `System.Random` construction: the jitter filter reads an explicit stream of draws (`RandomStream`, values in [-100, 99]). It draws three per pixel in raster order.
- The console message `Layer.Apply` prints when it skips a layer that is too large.
- IEEE double arithmetic for layer position, scale and hit testing: the model uses exact reals.
- `Layers.Trunc`, `Layers.Place`: the footprint, the ideal corner and `target.Width - layerWidth` are assumed to fit in a 32-bit `int`. In C# an out-of-range `(int)` cast of a double gives a platform-defined value, and the subtraction wraps, so `Math.Clamp` can then throw part-way through `ScaleLayer`. The model uses unbounded integers, so it always either skips the layer or places it.
- The state before the first successful load, when base and composite are null. `NewModel(base)` is a new `CompositeModel` followed by a load that succeeds with no callbacks registered. On the null state the callback and registry operations and `GetLayerName` still work and `RunFilter` swallows its failure, but every operation that recomputes the composite dereferences the null base and throws. The main window registers its two callbacks before its start-up load, and its composite callback throws because the canvas does not exist yet. That load therefore reports false and fires no layer callback, though it has already set base and composite. The state it leaves is `NewModel(base)` followed by `AddCompositeChangedCallback` and `AddLayerChangedCallback`.
- Exceptions thrown by user callbacks, including those caught by the `try` blocks of `LoadBaseImage` and `RunFilter`.
- User-written filter classes: the registry maps names to the five built-in filter kinds only.
- The enumeration order of `GetFilterNames`, which the dictionary does not specify.
- The `NumLayers` and `CompositeImage` getters: they only read a field. The `FilterNames` getter returns the registry's name list, which `FilterFactory.GetFilterNames` models.
- The `Debug.Assert` checks in `GetPixel`/`SetPixel` become preconditions. `AddLayer`'s "non-empty pixels" precondition is not imposed because nothing in the model depends on it.
- The main window, list view, canvas and the mouse-drag transform tool: these are UI code.

## Findings

| source | as written | input that shows it | evidently intended | confidence | as-written member | corrected member |
|---|---|---|---|---|---|---|
| src/CompositeModel.cs:134-142 | The layer list is replaced by an empty one before the file is decoded, and a decode failure returns false. | Any model with at least one layer, then a load of a file that fails to decode: the call returns false but the layers are gone, while the composite still shows them. | Decode first; on failure return false and leave the model as it was. | medium, not executed | `CompositeModel.LoadBaseImage` (exhibited by `CompositeModel.FailedLoadLosesLayers`) | `CompositeModel.LoadBaseImageAtomic` (proved by `CompositeModel.FailedAtomicLoadKeepsLayers`) |
