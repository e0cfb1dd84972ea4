/**
 * The composite model: a base image, an ordered stack of layers, the
 * composite image derived from them, the filter registry and two ordered
 * callback lists. Every operation returns the new model together with the
 * log of callbacks it fired, in firing order.
 */
module CompositeModel {
  import opened Results
  import opened Pixbuf
  import opened Filters
  import FilterFactory
  import opened Layers

  /** A registered callback, compared by identity; the same handle may be registered more than once. */
  type CallbackId = nat

  /** Which of the two callback lists a notification came from. */
  datatype Channel = CompositeChanged | LayersChanged

  datatype Notification = Notification(channel: Channel, callback: CallbackId)

  datatype Model = Model(
    base: Image,
    comp: Image,
    layers: seq<Layer>,
    filters: FilterFactory.Registry,
    compositeCallbacks: seq<CallbackId>,
    layerCallbacks: seq<CallbackId>)

  /** A model after an operation, with the notifications the operation fired. */
  datatype Step = Step(model: Model, log: seq<Notification>)

  datatype ModelError =
    | IndexOutOfRange(id: int)          // a layer index outside 0 .. NumLayers-1
    | DuplicateFilter(name: string)     // `RegisterFilter` of a name already registered

  /** The base is a valid buffer and the composite always has the base's dimensions and layout. */
  ghost predicate Inv(m: Model)
  {
    Valid(m.base) && SameLayout(m.comp, m.base)
  }

  /**
   * Invokes every callback of a list once, in registration order (a `foreach`
   * over the list): the log has one entry per registration, in list order.
   */
  function Notify(cbs: seq<CallbackId>, ch: Channel): (log: seq<Notification>)
    ensures |log| == |cbs|
    ensures forall i | 0 <= i < |cbs| :: log[i] == Notification(ch, cbs[i])
  {
    if |cbs| == 0 then []
    else Notify(cbs[..|cbs| - 1], ch) + [Notification(ch, cbs[|cbs| - 1])]
  }

  /**
   * The composite of a base and a layer stack: a copy of the base with every
   * layer applied on top, first layer first. It always has the base's layout.
   */
  function Composite(base: Image, layers: seq<Layer>, blend: Blender): (comp: Image)
    requires Valid(base) && PreservesLayout(blend)
    ensures SameLayout(comp, base) && Valid(comp)
    decreases |layers|
  {
    if |layers| == 0 then base
    else Apply(layers[|layers| - 1], Composite(base, layers[..|layers| - 1], blend), blend)
  }

  /** The composite loop as the source writes it: copy the base, then apply each layer in list order. */
  method ComputeCompImage(base: Image, layers: seq<Layer>, blend: Blender) returns (comp: Image)
    requires Valid(base) && PreservesLayout(blend)
    ensures comp == Composite(base, layers, blend)
  {
    comp := base;
    var i := 0;
    while i < |layers|
      invariant 0 <= i <= |layers|
      invariant comp == Composite(base, layers[..i], blend)
    {
      assert layers[..i + 1][..i] == layers[..i];
      comp := Apply(layers[i], comp, blend);
      i := i + 1;
    }
    assert layers[..i] == layers;
  }

  /** A layer appended to the stack is drawn last, on top of the composite of the layers below it. */
  lemma CompositeAppend(base: Image, layers: seq<Layer>, l: Layer, blend: Blender)
    requires Valid(base) && PreservesLayout(blend)
    ensures Composite(base, layers + [l], blend) == Apply(l, Composite(base, layers, blend), blend)
  {
    assert (layers + [l])[..|layers|] == layers;
  }

  /** The composite shown is the one the base and the layers determine (no filter has been run since). */
  ghost predicate Consistent(m: Model, blend: Blender)
    requires Inv(m) && PreservesLayout(blend)
  {
    m.comp == Composite(m.base, m.layers, blend)
  }

  /** The model right after construction and a first successful load of `base`. */
  function NewModel(base: Image): (m: Model)
    requires Valid(base)
    ensures Inv(m) && m.layers == [] && m.comp == m.base == base
    ensures m.filters == FilterFactory.NewFactory()
    ensures m.compositeCallbacks == [] && m.layerCallbacks == []
  {
    Model(base, base, [], FilterFactory.NewFactory(), [], [])
  }

  /** Rebuilds the composite from the base and the layers and fires the composite callbacks. */
  function Recompute(m: Model, blend: Blender): (s: Step)
    requires Inv(m) && PreservesLayout(blend)
    ensures Inv(s.model) && Consistent(s.model, blend)
    ensures s.model.base == m.base && s.model.layers == m.layers && s.model.filters == m.filters
    ensures s.model.compositeCallbacks == m.compositeCallbacks && s.model.layerCallbacks == m.layerCallbacks
    ensures s.log == Notify(m.compositeCallbacks, CompositeChanged)
  {
    Step(m.(comp := Composite(m.base, m.layers, blend)), Notify(m.compositeCallbacks, CompositeChanged))
  }

  /**
   * Appends a new layer (scale 1, centred at the origin) at the top of the
   * stack, recomputes the composite, then fires the composite callbacks and
   * after them the layer callbacks. Earlier layers are untouched.
   */
  function AddLayer(m: Model, pixels: Image, name: string, blend: Blender): (s: Step)
    requires Inv(m) && PreservesLayout(blend)
    ensures Inv(s.model) && Consistent(s.model, blend)
    ensures |s.model.layers| == |m.layers| + 1
    ensures s.model.layers[..|m.layers|] == m.layers
    ensures s.model.layers[|m.layers|] == NewLayer(pixels, name)
    ensures s.model.comp == Apply(NewLayer(pixels, name), Composite(m.base, m.layers, blend), blend)
    ensures s.model.base == m.base && s.model.filters == m.filters
    ensures s.model.compositeCallbacks == m.compositeCallbacks && s.model.layerCallbacks == m.layerCallbacks
    ensures s.log == Notify(m.compositeCallbacks, CompositeChanged) + Notify(m.layerCallbacks, LayersChanged)
  {
    var l := NewLayer(pixels, name);
    CompositeAppend(m.base, m.layers, l, blend);
    var r := Recompute(m.(layers := m.layers + [l]), blend);
    assert (m.layers + [l])[..|m.layers|] == m.layers;
    Step(r.model, r.log + Notify(m.layerCallbacks, LayersChanged))
  }

  /**
   * Removes the layer at index id, keeping the others in order, recomputes
   * the composite and fires the composite callbacks, then the layer
   * callbacks. An index outside the stack fails (the list throws) before
   * anything changes.
   */
  function DeleteLayer(m: Model, id: int, blend: Blender): (r: Result<Step, ModelError>)
    requires Inv(m) && PreservesLayout(blend)
    ensures r.Failure? <==> !(0 <= id < |m.layers|)
    ensures r.Failure? ==> r.error == IndexOutOfRange(id)
    ensures r.Success? ==> Inv(r.value.model) && Consistent(r.value.model, blend)
    ensures r.Success? ==> |r.value.model.layers| == |m.layers| - 1
    ensures r.Success? ==> forall j | 0 <= j < |m.layers| - 1 ::
              r.value.model.layers[j] == (if j < id then m.layers[j] else m.layers[j + 1])
    ensures r.Success? ==> r.value.model.base == m.base && r.value.model.filters == m.filters
    ensures r.Success? ==> r.value.model.compositeCallbacks == m.compositeCallbacks
    ensures r.Success? ==> r.value.model.layerCallbacks == m.layerCallbacks
    ensures r.Success? ==> r.value.log == Notify(m.compositeCallbacks, CompositeChanged) + Notify(m.layerCallbacks, LayersChanged)
  {
    if !(0 <= id < |m.layers|) then Failure(IndexOutOfRange(id))
    else
      var s := Recompute(m.(layers := m.layers[..id] + m.layers[id + 1..]), blend);
      Success(Step(s.model, s.log + Notify(m.layerCallbacks, LayersChanged)))
  }

  /** Layer l with its scale multiplied by factor (`Size *= factor`). */
  function Rescale(l: Layer, factor: real): Layer
  {
    l.(size := l.size * factor)
  }

  /** Puts l in place of layer id and recomputes; the common tail of `ScaleLayer` and `MoveLayer`. */
  function ReplaceLayer(m: Model, id: int, l: Layer, blend: Blender): (s: Step)
    requires Inv(m) && PreservesLayout(blend) && 0 <= id < |m.layers|
    ensures Inv(s.model) && Consistent(s.model, blend)
    ensures |s.model.layers| == |m.layers| && s.model.layers[id] == l
    ensures forall j | 0 <= j < |m.layers| && j != id :: s.model.layers[j] == m.layers[j]
    ensures s.model.base == m.base && s.model.filters == m.filters
    ensures s.model.compositeCallbacks == m.compositeCallbacks && s.model.layerCallbacks == m.layerCallbacks
    ensures s.log == Notify(m.compositeCallbacks, CompositeChanged)
  {
    Recompute(m.(layers := m.layers[id := l]), blend)
  }

  /**
   * Multiplies the scale of layer id by `factor` (relative, not absolute),
   * recomputes the composite and fires only the composite callbacks. No
   * other layer, and not the layer's name, image or position, changes. An
   * index outside the stack fails before anything changes.
   */
  function ScaleLayer(m: Model, id: int, factor: real, blend: Blender): (r: Result<Step, ModelError>)
    requires Inv(m) && PreservesLayout(blend)
    ensures r.Failure? <==> !(0 <= id < |m.layers|)
    ensures r.Failure? ==> r.error == IndexOutOfRange(id)
    ensures r.Success? ==> Inv(r.value.model) && Consistent(r.value.model, blend)
    ensures r.Success? ==> |r.value.model.layers| == |m.layers|
    ensures r.Success? ==> forall j | 0 <= j < |m.layers| && j != id :: r.value.model.layers[j] == m.layers[j]
    ensures r.Success? ==> r.value.model.layers[id].size == m.layers[id].size * factor
    ensures r.Success? ==> r.value.model.layers[id].name == m.layers[id].name
    ensures r.Success? ==> r.value.model.layers[id].original == m.layers[id].original
    ensures r.Success? ==> r.value.model.layers[id].x == m.layers[id].x && r.value.model.layers[id].y == m.layers[id].y
    ensures r.Success? ==> r.value.model.base == m.base && r.value.model.filters == m.filters
    ensures r.Success? ==> r.value.model.compositeCallbacks == m.compositeCallbacks
    ensures r.Success? ==> r.value.model.layerCallbacks == m.layerCallbacks
    ensures r.Success? ==> r.value.log == Notify(m.compositeCallbacks, CompositeChanged)
  {
    if !(0 <= id < |m.layers|) then Failure(IndexOutOfRange(id))
    else
      Success(ReplaceLayer(m, id, Rescale(m.layers[id], factor), blend))
  }

  /**
   * Sets the centre of layer id to (x, y) (absolute, not relative),
   * recomputes the composite and fires only the composite callbacks. No other
   * layer, and not the layer's name, image or scale, changes. An index
   * outside the stack fails before anything changes.
   */
  function MoveLayer(m: Model, id: int, x: real, y: real, blend: Blender): (r: Result<Step, ModelError>)
    requires Inv(m) && PreservesLayout(blend)
    ensures r.Failure? <==> !(0 <= id < |m.layers|)
    ensures r.Failure? ==> r.error == IndexOutOfRange(id)
    ensures r.Success? ==> Inv(r.value.model) && Consistent(r.value.model, blend)
    ensures r.Success? ==> |r.value.model.layers| == |m.layers|
    ensures r.Success? ==> forall j | 0 <= j < |m.layers| && j != id :: r.value.model.layers[j] == m.layers[j]
    ensures r.Success? ==> r.value.model.layers[id].x == x && r.value.model.layers[id].y == y
    ensures r.Success? ==> r.value.model.layers[id].name == m.layers[id].name
    ensures r.Success? ==> r.value.model.layers[id].original == m.layers[id].original
    ensures r.Success? ==> r.value.model.layers[id].size == m.layers[id].size
    ensures r.Success? ==> r.value.model.base == m.base && r.value.model.filters == m.filters
    ensures r.Success? ==> r.value.model.compositeCallbacks == m.compositeCallbacks
    ensures r.Success? ==> r.value.model.layerCallbacks == m.layerCallbacks
    ensures r.Success? ==> r.value.log == Notify(m.compositeCallbacks, CompositeChanged)
  {
    if !(0 <= id < |m.layers|) then Failure(IndexOutOfRange(id))
    else
      Success(ReplaceLayer(m, id, m.layers[id].(x := x, y := y), blend))
  }

  /** The name of layer id (possibly empty); an index outside the stack fails. */
  function GetLayerName(m: Model, id: int): (r: Result<string, ModelError>)
    ensures r.Success? <==> 0 <= id < |m.layers|
    ensures r.Success? ==> r.value == m.layers[id].name
    ensures r.Failure? ==> r.error == IndexOutOfRange(id)
  {
    if 0 <= id < |m.layers| then Success(m.layers[id].name) else Failure(IndexOutOfRange(id))
  }

  /**
   * `LoadBaseImage` as the source writes it, with the decoder's answer for the
   * file as input. The layer stack is replaced by an empty one BEFORE the
   * decode: on success the base becomes the decoded image, the composite is
   * recomputed (so equals the new base) and the composite callbacks and then
   * the layer callbacks fire; on failure it reports false with the layers
   * already gone, but base, composite and callbacks untouched and nothing fired.
   */
  function LoadBaseImage(m: Model, decoded: Option<Image>, blend: Blender): (r: (bool, Step))
    requires Inv(m) && PreservesLayout(blend)
    requires decoded.Some? ==> Valid(decoded.value)
    ensures Inv(r.1.model)
    ensures r.0 <==> decoded.Some?
    ensures r.1.model.layers == []
    ensures r.1.model.filters == m.filters
    ensures r.1.model.compositeCallbacks == m.compositeCallbacks && r.1.model.layerCallbacks == m.layerCallbacks
    ensures r.0 ==> r.1.model.base == decoded.value && r.1.model.comp == decoded.value
    ensures r.0 ==> r.1.log == Notify(m.compositeCallbacks, CompositeChanged) + Notify(m.layerCallbacks, LayersChanged)
    ensures !r.0 ==> r.1.model.base == m.base && r.1.model.comp == m.comp && r.1.log == []
  {
    var cleared := m.(layers := []);
    match decoded
    case None => (false, Step(cleared, []))
    case Some(img) =>
      var s := Recompute(cleared.(base := img, comp := img), blend);
      (true, Step(s.model, s.log + Notify(m.layerCallbacks, LayersChanged)))
  }

  /**
   * The load with the atomic contract a failed load evidently should have:
   * the decode happens first, and on failure the model is exactly as before.
   */
  function LoadBaseImageAtomic(m: Model, decoded: Option<Image>, blend: Blender): (r: (bool, Step))
    requires Inv(m) && PreservesLayout(blend)
    requires decoded.Some? ==> Valid(decoded.value)
    ensures Inv(r.1.model)
    ensures r.0 <==> decoded.Some?
    ensures !r.0 ==> r.1 == Step(m, [])
    ensures r.0 ==> r.1.model.layers == [] && r.1.model.base == decoded.value && r.1.model.comp == decoded.value
    ensures r.0 ==> r.1.model.filters == m.filters
    ensures r.0 ==> r.1.model.compositeCallbacks == m.compositeCallbacks && r.1.model.layerCallbacks == m.layerCallbacks
    ensures r.0 ==> r.1.log == Notify(m.compositeCallbacks, CompositeChanged) + Notify(m.layerCallbacks, LayersChanged)
  {
    match decoded
    case None => (false, Step(m, []))
    case Some(img) =>
      var s := Recompute(m.(layers := [], base := img, comp := img), blend);
      (true, Step(s.model, s.log + Notify(m.layerCallbacks, LayersChanged)))
  }

  /**
   * Runs the filter registered under `name` on the current composite (not the
   * base) and fires the composite callbacks. An unknown name makes the
   * registry's lookup throw, which is caught: nothing changes and nothing fires.
   */
  function RunFilter(m: Model, name: string, noise: RandomStream): (s: Step)
    requires Inv(m)
    ensures Inv(s.model)
    ensures name !in m.filters ==> s == Step(m, [])
    ensures name in m.filters ==> Transformed(m.comp, s.model.comp, m.filters[name], noise)
    ensures name in m.filters ==> s.model == m.(comp := s.model.comp)
    ensures name in m.filters ==> s.log == Notify(m.compositeCallbacks, CompositeChanged)
  {
    match FilterFactory.Create(m.filters, name)
    case Failure(_) => Step(m, [])
    case Success(f) =>
      Step(m.(comp := Run(f, noise, m.comp)), Notify(m.compositeCallbacks, CompositeChanged))
  }

  /** Pass-through to the registry: a duplicate name fails and leaves the model as it was. */
  function RegisterFilter(m: Model, name: string, f: Filter): (r: Result<Model, ModelError>)
    ensures r.Failure? <==> name in m.filters
    ensures r.Failure? ==> r.error == DuplicateFilter(name)
    ensures r.Success? ==> r.value == m.(filters := m.filters[name := f])
  {
    match FilterFactory.RegisterFilter(m.filters, name, f)
    case Failure(_) => Failure(DuplicateFilter(name))
    case Success(reg) => Success(m.(filters := reg))
  }

  /** Pass-through to the registry: removes the name if present; nothing else changes. */
  function DeregisterFilter(m: Model, name: string): (r: Model)
    ensures r.filters.Keys == m.filters.Keys - {name}
    ensures forall n | n in r.filters :: r.filters[n] == m.filters[n]
    ensures name !in m.filters ==> r == m
    ensures r == m.(filters := r.filters)
  {
    m.(filters := FilterFactory.DeregisterFilter(m.filters, name))
  }

  /** The index of the first registration of cb. */
  function FirstIndex(cbs: seq<CallbackId>, cb: CallbackId): (k: int)
    requires cb in cbs
    ensures 0 <= k < |cbs| && cbs[k] == cb && cb !in cbs[..k]
  {
    if cbs[0] == cb then 0
    else
      var k := 1 + FirstIndex(cbs[1..], cb);
      assert cbs[..k] == [cbs[0]] + cbs[1..][..k - 1];
      k
  }

  /**
   * `List.Remove`: deletes one registration of cb, keeping the order of the
   * rest (which one is stated by `RemovesFirstOccurrence`); a handle that is
   * not registered leaves the list as it is.
   */
  function RemoveFirst(cbs: seq<CallbackId>, cb: CallbackId): (r: seq<CallbackId>)
    ensures cb !in cbs ==> r == cbs
    ensures multiset(r) == multiset(cbs) - multiset{cb}
  {
    if |cbs| == 0 then []
    else if cbs[0] == cb then
      assert cbs == [cbs[0]] + cbs[1..];
      cbs[1..]
    else
      var rest := RemoveFirst(cbs[1..], cb);
      assert cbs == [cbs[0]] + cbs[1..];
      [cbs[0]] + rest
  }

  /** When the head is another handle, the first occurrence is one further than in the tail. */
  lemma FirstIndexSkipsHead(cbs: seq<CallbackId>, cb: CallbackId)
    requires cb in cbs && cbs[0] != cb
    ensures cb in cbs[1..] && FirstIndex(cbs, cb) == FirstIndex(cbs[1..], cb) + 1
  {
    assert cbs == [cbs[0]] + cbs[1..];
  }

  /** Cutting out position k + 1 of a list is keeping its head and cutting position k out of its tail. */
  lemma CutAfterHead(cbs: seq<CallbackId>, k: int)
    requires 0 <= k < |cbs| - 1
    ensures cbs[..k + 1] + cbs[k + 2..] == [cbs[0]] + (cbs[1..][..k] + cbs[1..][k + 1..])
  {
    assert cbs[..k + 1] == [cbs[0]] + cbs[1..][..k];
    assert cbs[k + 2..] == cbs[1..][k + 1..];
  }

  /** The registration removed is the earliest one: later duplicates stay where they are. */
  lemma {:induction false} RemovesFirstOccurrence(cbs: seq<CallbackId>, cb: CallbackId)
    requires cb in cbs
    ensures RemoveFirst(cbs, cb) == cbs[..FirstIndex(cbs, cb)] + cbs[FirstIndex(cbs, cb) + 1..]
  {
    if cbs[0] != cb {
      var tail := cbs[1..];
      var k := FirstIndex(tail, cb);
      assert FirstIndex(cbs, cb) == k + 1 by { FirstIndexSkipsHead(cbs, cb); }
      assert RemoveFirst(cbs, cb) == [cbs[0]] + (tail[..k] + tail[k + 1..]) by {
        RemovesFirstOccurrence(tail, cb);
      }
      CutAfterHead(cbs, k);
    }
  }

  /** Appends cb to the layer callbacks; a handle may be registered twice. */
  function AddLayerChangedCallback(m: Model, cb: CallbackId): (r: Model)
    ensures r.layerCallbacks == m.layerCallbacks + [cb]
    ensures r == m.(layerCallbacks := r.layerCallbacks)
  {
    m.(layerCallbacks := m.layerCallbacks + [cb])
  }

  /** Removes the first registration of cb from the layer callbacks; a no-op if it is absent. */
  function RemoveLayerChangedCallback(m: Model, cb: CallbackId): (r: Model)
    ensures r.layerCallbacks == RemoveFirst(m.layerCallbacks, cb)
    ensures r == m.(layerCallbacks := r.layerCallbacks)
  {
    m.(layerCallbacks := RemoveFirst(m.layerCallbacks, cb))
  }

  /** Appends cb to the composite callbacks; a handle may be registered twice. */
  function AddCompositeChangedCallback(m: Model, cb: CallbackId): (r: Model)
    ensures r.compositeCallbacks == m.compositeCallbacks + [cb]
    ensures r == m.(compositeCallbacks := r.compositeCallbacks)
  {
    m.(compositeCallbacks := m.compositeCallbacks + [cb])
  }

  /** Removes the first registration of cb from the composite callbacks; a no-op if it is absent. */
  function RemoveCompositeChangedCallback(m: Model, cb: CallbackId): (r: Model)
    ensures r.compositeCallbacks == RemoveFirst(m.compositeCallbacks, cb)
    ensures r == m.(compositeCallbacks := r.compositeCallbacks)
  {
    m.(compositeCallbacks := RemoveFirst(m.compositeCallbacks, cb))
  }

  /**
   * Adding a layer and then deleting the last index gives back the model it
   * started from, provided its composite was the one its layers determine.
   */
  lemma AddThenDeleteRestores(m: Model, pixels: Image, name: string, blend: Blender)
    requires Inv(m) && PreservesLayout(blend) && Consistent(m, blend)
    ensures var added := AddLayer(m, pixels, name, blend).model;
            && DeleteLayer(added, |m.layers|, blend).Success?
            && DeleteLayer(added, |m.layers|, blend).value.model == m
  {
    var added := AddLayer(m, pixels, name, blend).model;
    var deleted := DeleteLayer(added, |m.layers|, blend).value.model;
    assert added.layers[..|m.layers|] + added.layers[|m.layers| + 1..] == m.layers;
    assert deleted.layers == m.layers;
  }

  /**
   * Without the consistency premise the round trip does not hold: if a filter
   * has changed the composite since the last recompute, adding and deleting a
   * layer throws the filter's effect away.
   */
  lemma AddThenDeleteDropsFilteredComposite(m: Model, pixels: Image, name: string, blend: Blender)
    requires Inv(m) && PreservesLayout(blend) && !Consistent(m, blend)
    ensures var added := AddLayer(m, pixels, name, blend).model;
            DeleteLayer(added, |m.layers|, blend).value.model.comp != m.comp
  {
    var added := AddLayer(m, pixels, name, blend).model;
    assert added.layers[..|m.layers|] + added.layers[|m.layers| + 1..] == m.layers;
  }

  /** Scaling a layer by 1 leaves a consistent model exactly as it was. */
  lemma ScaleByOneIsNoOp(m: Model, id: int, blend: Blender)
    requires Inv(m) && PreservesLayout(blend) && Consistent(m, blend)
    requires 0 <= id < |m.layers|
    ensures ScaleLayer(m, id, 1.0, blend).Success?
    ensures ScaleLayer(m, id, 1.0, blend).value.model == m
  {
    ScaleIsReplace(m, id, 1.0, blend);
    assert Rescale(m.layers[id], 1.0) == m.layers[id];
    ReplaceWithOwnIsNoOp(m, id, blend);
  }

  /** Putting a layer back in its own slot of an up-to-date model changes nothing. */
  lemma ReplaceWithOwnIsNoOp(m: Model, id: int, blend: Blender)
    requires Inv(m) && PreservesLayout(blend) && Consistent(m, blend) && 0 <= id < |m.layers|
    ensures ReplaceLayer(m, id, m.layers[id], blend).model == m
  {
    assert m.layers[id := m.layers[id]] == m.layers;
  }

  /** Of two replacements of the same slot only the second leaves a trace. */
  lemma ReplaceTwice(m: Model, id: int, a: Layer, b: Layer, blend: Blender)
    requires Inv(m) && PreservesLayout(blend) && 0 <= id < |m.layers|
    ensures ReplaceLayer(ReplaceLayer(m, id, a, blend).model, id, b, blend) == ReplaceLayer(m, id, b, blend)
  {
    assert m.layers[id := a][id := b] == m.layers[id := b];
  }

  /** Moving a layer back to where it was undoes a move of an up-to-date model. */
  lemma MoveBackRestores(m: Model, id: int, x: real, y: real, blend: Blender)
    requires Inv(m) && PreservesLayout(blend) && Consistent(m, blend)
    requires 0 <= id < |m.layers|
    ensures var moved := MoveLayer(m, id, x, y, blend).value.model;
            MoveLayer(moved, id, m.layers[id].x, m.layers[id].y, blend).value.model == m
  {
    var l := m.layers[id];
    var shifted := l.(x := x, y := y);
    var moved := ReplaceLayer(m, id, shifted, blend).model;
    assert MoveLayer(m, id, x, y, blend).value.model == moved;
    assert shifted.(x := l.x, y := l.y) == l;
    assert MoveLayer(moved, id, l.x, l.y, blend).value.model == ReplaceLayer(moved, id, l, blend).model;
    ReplaceTwice(m, id, shifted, l, blend);
    ReplaceWithOwnIsNoOp(m, id, blend);
  }

  /** A successful `ScaleLayer` is `ReplaceLayer` with the rescaled layer. */
  lemma ScaleIsReplace(m: Model, id: int, factor: real, blend: Blender)
    requires Inv(m) && PreservesLayout(blend) && 0 <= id < |m.layers|
    ensures ScaleLayer(m, id, factor, blend) == Success(ReplaceLayer(m, id, Rescale(m.layers[id], factor), blend))
  {
  }

  /** Scaling a layer that was just put in place is one replacement with the rescaled layer. */
  lemma ScaleAfterReplace(m: Model, id: int, a: Layer, factor: real, blend: Blender)
    requires Inv(m) && PreservesLayout(blend) && 0 <= id < |m.layers|
    ensures ScaleLayer(ReplaceLayer(m, id, a, blend).model, id, factor, blend)
              == Success(ReplaceLayer(m, id, Rescale(a, factor), blend))
  {
    var replaced := ReplaceLayer(m, id, a, blend).model;
    assert replaced.layers[id] == a;
    ScaleIsReplace(replaced, id, factor, blend);
    ReplaceTwice(m, id, a, Rescale(a, factor), blend);
  }

  /** Rescaling a layer by a non-zero factor and then by its inverse gives the layer back. */
  lemma ScaleByInverse(l: Layer, f: real)
    requires f != 0.0
    ensures Rescale(Rescale(l, f), 1.0 / f) == l
  {
    calc {
      l.size * f * (1.0 / f);
      l.size * (f * (1.0 / f));
      l.size;
    }
  }

  /** Scaling is relative: scaling by a non-zero factor and then by its inverse undoes it. */
  lemma ScaleInverseRestores(m: Model, id: int, factor: real, blend: Blender)
    requires Inv(m) && PreservesLayout(blend) && Consistent(m, blend)
    requires 0 <= id < |m.layers| && factor != 0.0
    ensures var scaled := ScaleLayer(m, id, factor, blend).value.model;
            ScaleLayer(scaled, id, 1.0 / factor, blend).value.model == m
  {
    var l := m.layers[id];
    ScaleIsReplace(m, id, factor, blend);
    ScaleAfterReplace(m, id, Rescale(l, factor), 1.0 / factor, blend);
    ScaleByInverse(l, factor);
    ReplaceWithOwnIsNoOp(m, id, blend);
  }

  /**
   * A move recomputes the composite from the base, so whatever filter ran
   * before it leaves no trace: moving after a filter gives the same model as
   * moving without it.
   */
  lemma MoveDiscardsFilter(m: Model, name: string, noise: RandomStream, id: int, x: real, y: real, blend: Blender)
    requires Inv(m) && PreservesLayout(blend)
    ensures MoveLayer(RunFilter(m, name, noise).model, id, x, y, blend) == MoveLayer(m, id, x, y, blend)
  {
  }

  /** Filters work on the current composite, so two runs compose: the second filters the first's output. */
  lemma FiltersAccumulate(m: Model, first: string, second: string, noise1: RandomStream, noise2: RandomStream)
    requires Inv(m) && first in m.filters && second in m.filters
    ensures var once := RunFilter(m, first, noise1).model;
            RunFilter(once, second, noise2).model.comp
              == Run(m.filters[second], noise2, Run(m.filters[first], noise1, m.comp))
  {
  }

  /** The identity filter leaves the composite byte-for-byte as it was. */
  lemma IdentityFilterKeepsComposite(m: Model, name: string, noise: RandomStream)
    requires Inv(m) && name in m.filters && m.filters[name] == NoneFilter
    ensures RunFilter(m, name, noise).model == m
  {
    IdentityIsCopy(m.comp, noise);
  }

  /** Running the grayscale filter a second time does not change the composite again. */
  lemma GrayscaleTwiceIsOnce(m: Model, name: string, noise1: RandomStream, noise2: RandomStream)
    requires Inv(m) && name in m.filters && m.filters[name] == GrayscaleFilter
    ensures var once := RunFilter(m, name, noise1).model;
            RunFilter(once, name, noise2).model == once
  {
    GrayscaleIdempotent(m.comp, noise1, noise2);
  }

  /**
   * The load as written loses the layer stack on a failed decode even though
   * it reports failure: a model with layers keeps none of them.
   */
  lemma FailedLoadLosesLayers(m: Model, blend: Blender)
    requires Inv(m) && PreservesLayout(blend) && |m.layers| > 0
    ensures var r := LoadBaseImage(m, None, blend);
            !r.0 && r.1.model.layers == [] && r.1.model != m
  {
  }

  /**
   * A failed load on an up-to-date model whose layers show on the composite
   * leaves a stale composite: the layers are gone but the composite still
   * shows them, so a later add-then-delete cannot give it back.
   */
  lemma FailedLoadLeavesStaleComposite(m: Model, blend: Blender)
    requires Inv(m) && PreservesLayout(blend) && Consistent(m, blend) && m.comp != m.base
    ensures var after := LoadBaseImage(m, None, blend).1.model;
            Inv(after) && !Consistent(after, blend)
  {
  }

  /** A failed atomic load keeps the layer stack. */
  lemma FailedAtomicLoadKeepsLayers(m: Model, blend: Blender)
    requires Inv(m) && PreservesLayout(blend)
    ensures var r := LoadBaseImageAtomic(m, None, blend);
            !r.0 && r.1.model.layers == m.layers && r.1.model == m
  {
  }

  /**
   * Registering a handle and removing it again: when it was not registered
   * before, the list is back as it was; when it was, the earlier registration
   * is the one removed and the new one stays at the end.
   */
  lemma {:induction false} AddThenRemoveCallback(cbs: seq<CallbackId>, cb: CallbackId)
    ensures cb !in cbs ==> RemoveFirst(cbs + [cb], cb) == cbs
    ensures cb in cbs ==> RemoveFirst(cbs + [cb], cb) == RemoveFirst(cbs, cb) + [cb]
  {
    if |cbs| == 0 {
      assert RemoveFirst([cb], cb) == [];
    } else {
      assert (cbs + [cb])[1..] == cbs[1..] + [cb];
      assert cbs == [cbs[0]] + cbs[1..];
      AddThenRemoveCallback(cbs[1..], cb);
      if cbs[0] != cb {
        assert RemoveFirst(cbs + [cb], cb) == [cbs[0]] + RemoveFirst(cbs[1..] + [cb], cb);
      }
    }
  }
}
