/**
 * The state kernel of src/three/rectPlacerThree.ts with Three.js abstracted
 * away: disposable resources are objects that count their `dispose` calls,
 * an InstancedMesh is a fixed-size array of (position, scale) slots with a
 * draw count, and the animation loop is the `rafId` it keeps.
 */
module Placer {
  import opened Wrappers
  import opened Rect
  import RectParser

  /** Anything with a `dispose()` method: geometries, materials, textures, the renderer, the controls. */
  class Resource {
    var disposeCount: nat

    constructor()
      ensures disposeCount == 0
    {
      disposeCount := 0;
    }

    method Dispose()
      modifies this
      ensures disposeCount == old(disposeCount) + 1
    {
      disposeCount := disposeCount + 1;
    }
  }

  /** A mesh's `material`, which Three.js allows to be one material or an array of them. */
  datatype MaterialArg = Single(material: Resource) | Many(materials: seq<Resource>)

  function Elements(ms: seq<Resource>): set<Resource> {
    set m | m in ms
  }

  function MaterialSet(mat: MaterialArg): set<Resource> {
    match mat
    case Single(m) => {m}
    case Many(ms) => Elements(ms)
  }

  /** The materials in the order `forEach` visits them; a lone material is a one-element list. */
  function MaterialList(mat: MaterialArg): seq<Resource> {
    match mat
    case Single(m) => [m]
    case Many(ms) => ms
  }

  /** Calls `dispose` on every element of `rs` in order, so a repeated element is disposed once per occurrence. */
  method DisposeEach(rs: seq<Resource>)
    modifies Elements(rs)
    ensures forall r :: r in rs ==> r.disposeCount == old(r.disposeCount) + multiset(rs)[r]
  {
    for i := 0 to |rs|
      invariant forall r :: r in rs ==> r.disposeCount == old(r.disposeCount) + multiset(rs[..i])[r]
    {
      assert rs[..i + 1] == rs[..i] + [rs[i]];
      rs[i].Dispose();
    }
    assert rs[..|rs|] == rs;
  }

  /** The set of resources released together when the placer is disposed. */
  class ResourceTracker {
    var resources: set<Resource>

    constructor()
      ensures resources == {}
    {
      resources := {};
    }

    /** Adds `res` and hands the same object back; a set keeps one entry per object. */
    method Track(res: Resource) returns (r: Resource)
      modifies this
      ensures r == res
      ensures resources == old(resources) + {res}
      ensures res in old(resources) ==> resources == old(resources)
      ensures |resources| == |old(resources)| + (if res in old(resources) then 0 else 1)
    {
      resources := resources + {res};
      r := res;
    }

    /** Tracks each element of an array of materials, or the single material. */
    method TrackMaterial(mat: MaterialArg)
      modifies this
      ensures resources == old(resources) + MaterialSet(mat)
    {
      match mat
      case Single(m) =>
        var _ := Track(m);
      case Many(ms) =>
        for i := 0 to |ms|
          invariant resources == old(resources) + Elements(ms[..i])
        {
          assert Elements(ms[..i + 1]) == Elements(ms[..i]) + {ms[i]} by {
            assert ms[..i + 1] == ms[..i] + [ms[i]];
          }
          var _ := Track(ms[i]);
        }
        assert ms[..|ms|] == ms;
    }

    /**
     * Disposes every tracked resource exactly once and empties the set;
     * nothing outside the set is touched.
     */
    method DisposeAll()
      modifies this, resources
      ensures resources == {}
      ensures forall r :: r in old(resources) ==> r.disposeCount == old(r.disposeCount) + 1
    {
      var todo := resources;
      ghost var done: set<Resource> := {};
      while todo != {}
        invariant resources == old(resources)
        invariant todo <= old(resources) && done == old(resources) - todo
        invariant forall r :: r in done ==> r.disposeCount == old(r.disposeCount) + 1
        invariant forall r :: r in todo ==> r.disposeCount == old(r.disposeCount)
        decreases |todo|
      {
        var r :| r in todo;
        r.Dispose();
        todo := todo - {r};
        done := done + {r};
      }
      resources := {};
    }
  }

  /** Creates a resource and tracks it, as `this.res.track(new ...)` does. */
  method TrackNew(t: ResourceTracker) returns (r: Resource)
    modifies t
    ensures fresh(r) && r.disposeCount == 0
    ensures r !in old(t.resources)
    ensures t.resources == old(t.resources) + {r}
  {
    r := new Resource();
    r := t.Track(r);
  }

  /**
   * The resources `initScene` tracks: a geometry and a material each for the
   * ground, the sky and the four walls, then the unit box both instance
   * buffers share.
   */
  method TrackedEnvironment() returns (t: ResourceTracker)
    ensures fresh(t) && |t.resources| == 13
    ensures forall r :: r in t.resources ==> fresh(r) && r.disposeCount == 0
  {
    t := new ResourceTracker();
    for n := 0 to 12
      invariant |t.resources| == n
      invariant forall r :: r in t.resources ==> fresh(r) && r.disposeCount == 0
    {
      var _ := TrackNew(t);
    }
    var rectGeom := TrackNew(t);
  }

  /** One instance of an InstancedMesh: the translation and scale its matrix composes (no rotation). */
  datatype Instance = Instance(position: Vec3, scale: Vec3)

  /** Three.js initialises every instance matrix to the identity. */
  const Identity: Instance := Instance(Vec3(0.0, 0.0, 0.0), Vec3(1.0, 1.0, 1.0))

  /** `maxRects`: the capacity both instance buffers are created with. */
  const MaxRects: nat := 200000

  /** An InstancedMesh: `slots` is its instance matrix buffer, `count` how many instances are drawn. */
  class InstanceBatch {
    const slots: array<Instance>
    var count: nat
    var needsUpdate: bool

    constructor(capacity: nat)
      ensures fresh(slots) && slots.Length == capacity
      ensures count == 0 && !needsUpdate
      ensures forall k :: 0 <= k < slots.Length ==> slots[k] == Identity
    {
      slots := new Instance[capacity](_ => Identity);
      count := 0;
      needsUpdate := false;
    }

    /** `setMatrixAt`: a write beyond the typed array's end is dropped, as a typed array does. */
    method SetMatrixAt(k: nat, inst: Instance)
      modifies slots
      ensures k < slots.Length ==> slots[..] == old(slots[..])[k := inst]
      ensures k >= slots.Length ==> slots[..] == old(slots[..])
    {
      if k < slots.Length {
        slots[k] := inst;
      }
    }
  }

  /** The instance drawn for one definition: scale (lx, lz, ly) and position `toRenderPos(pos)`. */
  function InstanceOf(d: RectDefinition): (inst: Instance)
    ensures FromRenderPos(inst.position) == d.pos
    ensures inst.scale.x == d.size.lx && inst.scale.y == d.size.lz && inst.scale.z == d.size.ly
  {
    Instance(ToRenderPos(d.pos), Vec3(d.size.lx, d.size.lz, d.size.ly))
  }

  /** The instances of the definitions whose `highlighted` flag is `h`, in input order. */
  function Layout(defs: seq<RectDefinition>, h: bool): seq<Instance> {
    if defs == [] then []
    else
      var last := defs[|defs| - 1];
      Layout(defs[..|defs| - 1], h) + (if last.highlighted == h then [InstanceOf(last)] else [])
  }

  /** Every definition's instance, in input order. */
  function Instances(defs: seq<RectDefinition>): (r: seq<Instance>)
    ensures |r| == |defs|
    ensures forall i :: 0 <= i < |defs| ==> r[i] == InstanceOf(defs[i])
  {
    seq(|defs|, i requires 0 <= i < |defs| => InstanceOf(defs[i]))
  }

  /** The `highlighted` flags of the definitions, in input order. */
  function Flags(defs: seq<RectDefinition>): (r: seq<bool>)
    ensures |r| == |defs|
    ensures forall i :: 0 <= i < |defs| ==> r[i] == defs[i].highlighted
  {
    seq(|defs|, i requires 0 <= i < |defs| => defs[i].highlighted)
  }

  lemma {:induction false} LayoutCounts(defs: seq<RectDefinition>)
    ensures |Layout(defs, false)| + |Layout(defs, true)| == |defs|
    decreases |defs|
  {
    if defs != [] {
      LayoutCounts(defs[..|defs| - 1]);
    }
  }

  /** `Instances` of a non-empty input: the instances of all but the last definition, then the last one's. */
  lemma InstancesSnoc(defs: seq<RectDefinition>)
    requires defs != []
    ensures Instances(defs) == Instances(defs[..|defs| - 1]) + [InstanceOf(defs[|defs| - 1])]
  {
    var n := |defs| - 1;
    assert forall i :: 0 <= i < n ==> defs[..n][i] == defs[i];
  }

  /** The two buffers together hold exactly the instances of all definitions: a partition of the input. */
  lemma {:induction false} LayoutPartition(defs: seq<RectDefinition>)
    ensures multiset(Layout(defs, false)) + multiset(Layout(defs, true)) == multiset(Instances(defs))
    decreases |defs|
  {
    if defs != [] {
      var n := |defs| - 1;
      var x := InstanceOf(defs[n]);
      var normal, hi, all := Layout(defs[..n], false), Layout(defs[..n], true), Instances(defs[..n]);
      LayoutPartition(defs[..n]);
      InstancesSnoc(defs);
      assert multiset(all + [x]) == multiset(all) + multiset{x};
      if defs[n].highlighted {
        assert Layout(defs, false) == normal && Layout(defs, true) == hi + [x];
        assert multiset(hi + [x]) == multiset(hi) + multiset{x};
      } else {
        assert Layout(defs, false) == normal + [x] && Layout(defs, true) == hi;
        assert multiset(normal + [x]) == multiset(normal) + multiset{x};
      }
    }
  }

  /** Every instance in buffer `h` comes from a definition flagged `h`. */
  lemma {:induction false} LayoutMembers(defs: seq<RectDefinition>, h: bool, k: nat)
    requires k < |Layout(defs, h)|
    ensures exists i :: 0 <= i < |defs| && defs[i].highlighted == h && Layout(defs, h)[k] == InstanceOf(defs[i])
    decreases |defs|
  {
    var n := |defs| - 1;
    if k < |Layout(defs[..n], h)| {
      LayoutMembers(defs[..n], h, k);
      var i :| 0 <= i < n && defs[..n][i].highlighted == h && Layout(defs[..n], h)[k] == InstanceOf(defs[..n][i]);
      assert defs[i] == defs[..n][i];
    } else {
      assert defs[n].highlighted == h && Layout(defs, h)[k] == InstanceOf(defs[n]);
    }
  }

  /** The buffer for a prefix of the input is a prefix of the buffer for the whole input. */
  lemma {:induction false} LayoutPrefix(defs: seq<RectDefinition>, j: nat, h: bool)
    requires j <= |defs|
    ensures Layout(defs[..j], h) <= Layout(defs, h)
    decreases |defs| - j
  {
    if j < |defs| {
      LayoutPrefix(defs, j + 1, h);
      assert defs[..j + 1][..j] == defs[..j];
    } else {
      assert defs[..j] == defs;
    }
  }

  /**
   * The k-th definition flagged `h` in input order lands in slot k of buffer `h`,
   * where k counts the definitions flagged `h` before it.
   */
  lemma LayoutSlot(defs: seq<RectDefinition>, i: nat)
    requires i < |defs|
    ensures |Layout(defs[..i], defs[i].highlighted)| < |Layout(defs, defs[i].highlighted)|
    ensures Layout(defs, defs[i].highlighted)[|Layout(defs[..i], defs[i].highlighted)|] == InstanceOf(defs[i])
  {
    var h := defs[i].highlighted;
    LayoutPrefix(defs, i + 1, h);
    assert defs[..i + 1][..i] == defs[..i];
    assert Layout(defs[..i + 1], h) == Layout(defs[..i], h) + [InstanceOf(defs[i])];
  }

  /** A buffer holds one instance per definition with its flag. */
  lemma {:induction false} LayoutCountsFlagged(defs: seq<RectDefinition>, h: bool)
    ensures |Layout(defs, h)| == multiset(Flags(defs))[h]
    decreases |defs|
  {
    if defs != [] {
      var n := |defs| - 1;
      LayoutCountsFlagged(defs[..n], h);
      assert Flags(defs) == Flags(defs[..n]) + [defs[n].highlighted];
    }
  }

  /**
   * The record `parseRectInfo` builds carries `status`, not `highlighted`, so
   * `setRects` reads `highlighted` as undefined, which is falsy: every parsed
   * record is drawn as a normal rect.
   */
  function DrawnAs(p: RectParser.ParsedRect): RectDefinition {
    RectDefinition(p.size, p.pos, false, Some(p.rawLine))
  }

  function DrawnAll(ps: seq<RectParser.ParsedRect>): (r: seq<RectDefinition>)
    ensures |r| == |ps|
    ensures forall i :: 0 <= i < |ps| ==> r[i] == DrawnAs(ps[i])
  {
    seq(|ps|, i requires 0 <= i < |ps| => DrawnAs(ps[i]))
  }

  /** Parser output handed straight to `setRects` leaves the highlight buffer empty, whatever the statuses. */
  lemma {:induction false} ParsedRectsDrawnAsNormal(ps: seq<RectParser.ParsedRect>)
    ensures Layout(DrawnAll(ps), true) == []
    ensures Layout(DrawnAll(ps), false) == Instances(DrawnAll(ps))
    decreases |ps|
  {
    if ps != [] {
      var n := |ps| - 1;
      ParsedRectsDrawnAsNormal(ps[..n]);
      assert DrawnAll(ps)[..n] == DrawnAll(ps[..n]);
      assert Instances(DrawnAll(ps)) == Instances(DrawnAll(ps[..n])) + [InstanceOf(DrawnAs(ps[n]))];
    }
  }

  /** `new THREE.AxesHelper(length)`: a line geometry and its material, owned by the placer but not tracked. */
  class AxesHelper {
    const geometry: Resource
    const material: MaterialArg

    constructor()
      ensures fresh(geometry) && material.Single? && fresh(material.material)
      ensures geometry != material.material
      ensures geometry.disposeCount == 0 && material.material.disposeCount == 0
    {
      geometry := new Resource();
      var m := new Resource();
      material := Single(m);
    }
  }

  class RectPlacerThree {
    var alive: bool
    /** The pending `requestAnimationFrame` id, None when the loop is stopped. */
    var rafId: Option<nat>
    /** The ids handed to `cancelAnimationFrame`, oldest first. */
    var cancelledFrames: seq<nat>
    /** How many frames the loop has rendered. */
    var framesRendered: nat
    /** The container the canvas is appended to. */
    var host: Option<nat>
    /** The last size accepted by `resize`. */
    var viewport: Option<(real, real)>
    var axes: AxesHelper?
    var showAxesFlag: bool
    const res: ResourceTracker
    /** The shared materials of the two instance buffers; never tracked. */
    const rectMaterial: Resource
    const highlightMaterial: Resource
    const controls: Resource
    const renderer: Resource
    var rectInst: InstanceBatch?
    var highlightInst: InstanceBatch?

    /** The resources the placer releases by hand rather than through the tracker. */
    function Fixed(): set<Resource> {
      {rectMaterial, highlightMaterial, controls, renderer}
    }

    /** The instance buffers and their slot arrays, the objects `setRects` may write. */
    function Batches(): set<object>
      reads this
    {
      (if rectInst != null then {rectInst, rectInst.slots} else {}) +
      (if highlightInst != null then {highlightInst, highlightInst.slots} else {})
    }

    /** The axes' geometry and materials, in the order they are disposed. */
    function AxesParts(): seq<Resource>
      reads this
      requires axes != null
    {
      [axes.geometry] + MaterialList(axes.material)
    }

    ghost predicate Valid()
      reads this, res
    {
      && |Fixed()| == 4
      && Fixed() !! res.resources
      && (axes != null ==> forall r :: r in AxesParts() ==> r !in Fixed() && r !in res.resources)
      && (axes != null ==> axes.geometry !in MaterialSet(axes.material))
      && (rectInst != null && highlightInst != null ==>
            rectInst != highlightInst && rectInst.slots != highlightInst.slots)
    }

    /**
     * Builds the scene: twelve environment resources (ground, sky and four
     * walls, a geometry and a material each) and the unit box geometry are
     * tracked, the axes are shown, and both instance buffers get `MaxRects`
     * identity slots and a count of 0.
     */
    constructor()
      ensures Valid()
      ensures alive && rafId == None && cancelledFrames == [] && framesRendered == 0
      ensures host == None && viewport == None
      ensures showAxesFlag && axes != null && fresh(axes) && axes.material.Single?
      ensures forall r :: r in AxesParts() ==> fresh(r) && r.disposeCount == 0
      ensures fresh(rectMaterial) && fresh(highlightMaterial) && fresh(controls) && fresh(renderer)
      ensures rectMaterial.disposeCount == 0 && highlightMaterial.disposeCount == 0
      ensures controls.disposeCount == 0 && renderer.disposeCount == 0
      ensures fresh(res) && |res.resources| == 13
      ensures forall r :: r in res.resources ==> fresh(r) && r.disposeCount == 0
      ensures rectInst != null && highlightInst != null && fresh(rectInst) && fresh(highlightInst)
      ensures rectInst != null && highlightInst != null ==> fresh(rectInst.slots) && fresh(highlightInst.slots)
      ensures rectInst.slots.Length == MaxRects && highlightInst.slots.Length == MaxRects
      ensures rectInst.count == 0 && highlightInst.count == 0
      ensures forall k :: 0 <= k < MaxRects ==> rectInst.slots[k] == Identity && highlightInst.slots[k] == Identity
    {
      alive := true;
      rafId := None;
      cancelledFrames := [];
      framesRendered := 0;
      host := None;
      viewport := None;
      axes := null;
      showAxesFlag := true;
      var t := TrackedEnvironment();
      res := t;
      rectMaterial := new Resource();
      highlightMaterial := new Resource();
      renderer := new Resource();
      controls := new Resource();
      rectInst := new InstanceBatch(MaxRects);
      highlightInst := new InstanceBatch(MaxRects);
      new;
      SetShowAxes(showAxesFlag);
    }

    /** The `showAxes` setter: create the helper when shown and none exists; dispose and drop it when hidden. */
    method SetShowAxes(v: bool)
      requires Valid()
      modifies this`showAxesFlag, this`axes, if !v && axes != null then Elements(AxesParts()) else {}
      ensures Valid()
      ensures showAxesFlag == v
      ensures v && old(axes) != null ==> axes == old(axes)
      ensures v && old(axes) == null ==> axes != null && fresh(axes) && axes.material.Single?
      ensures v && old(axes) == null ==> forall r :: r in AxesParts() ==> fresh(r) && r.disposeCount == 0
      ensures !v ==> axes == null
      ensures !v && old(axes) != null ==>
        forall r :: r in old(AxesParts()) ==> r.disposeCount == old(r.disposeCount) + multiset(old(AxesParts()))[r]
      ensures alive == old(alive) && rafId == old(rafId) && cancelledFrames == old(cancelledFrames)
      ensures framesRendered == old(framesRendered) && host == old(host) && viewport == old(viewport)
      ensures rectInst == old(rectInst) && highlightInst == old(highlightInst)
    {
      showAxesFlag := v;
      if v {
        if axes == null {
          CreateAxes();
        }
      } else {
        if axes != null {
          ReleaseAxes();
        }
      }
    }

    /** Creates a fresh axes helper; its parts are new, so none of them is tracked or released by hand. */
    method CreateAxes()
      requires Valid() && axes == null
      modifies this`axes
      ensures Valid() && axes != null && fresh(axes) && axes.material.Single?
      ensures forall r :: r in AxesParts() ==> fresh(r) && r.disposeCount == 0
    {
      axes := new AxesHelper();
    }

    /** Disposes the axes' geometry, then each of their materials, and drops the helper. */
    method ReleaseAxes()
      requires axes != null
      modifies this`axes, Elements(AxesParts())
      ensures axes == null
      ensures forall r :: r in old(AxesParts()) ==> r.disposeCount == old(r.disposeCount) + multiset(old(AxesParts()))[r]
    {
      var g, ms := axes.geometry, MaterialList(axes.material);
      assert AxesParts() == [g] + ms;
      g.Dispose();
      DisposeEach(ms);
      axes := null;
    }

    /** Appends the canvas to `container` (a no-op when it is already there) and starts the loop. */
    method Mount(container: nat, frameId: nat)
      modifies this`host, this`rafId, this`framesRendered
      ensures host == Some(container)
      ensures old(rafId).Some? ==> rafId == old(rafId) && framesRendered == old(framesRendered)
      ensures old(rafId).None? ==> rafId == Some(frameId) && framesRendered == old(framesRendered) + 1
      ensures alive == old(alive) && cancelledFrames == old(cancelledFrames) && viewport == old(viewport)
      ensures axes == old(axes) && showAxesFlag == old(showAxesFlag)
      ensures rectInst == old(rectInst) && highlightInst == old(highlightInst)
    {
      if host != Some(container) {
        host := Some(container);
      }
      Start(frameId);
    }

    /** Takes the new canvas size, unless the placer has been disposed. */
    method Resize(width: real, height: real)
      modifies this`viewport
      ensures old(alive) ==> viewport == Some((width, height))
      ensures !old(alive) ==> viewport == old(viewport)
      ensures alive == old(alive) && rafId == old(rafId) && cancelledFrames == old(cancelledFrames)
      ensures framesRendered == old(framesRendered) && host == old(host)
      ensures axes == old(axes) && showAxesFlag == old(showAxesFlag)
      ensures rectInst == old(rectInst) && highlightInst == old(highlightInst)
    {
      if !alive {
        return;
      }
      viewport := Some((width, height));
    }

    /**
     * Writes the k-th highlighted definition to slot k of the highlight
     * buffer and the k-th other one to slot k of the normal buffer, then sets
     * both counts; with either buffer missing nothing changes. There is no
     * check against the capacity: a count may exceed the slots, whose extra
     * writes are dropped.
     */
    method SetRects(defs: seq<RectDefinition>)
      requires Valid()
      modifies Batches()
      ensures Valid()
      ensures rectInst == null || highlightInst == null ==> unchanged(Batches())
      ensures rectInst != null && highlightInst != null ==>
        && rectInst.count == |Layout(defs, false)|
        && highlightInst.count == |Layout(defs, true)|
        && rectInst.needsUpdate && highlightInst.needsUpdate
        && (forall k :: 0 <= k < rectInst.slots.Length ==>
              rectInst.slots[k] == if k < |Layout(defs, false)| then Layout(defs, false)[k] else old(rectInst.slots[k]))
        && (forall k :: 0 <= k < highlightInst.slots.Length ==>
              highlightInst.slots[k] == if k < |Layout(defs, true)| then Layout(defs, true)[k] else old(highlightInst.slots[k]))
    {
      if rectInst == null || highlightInst == null {
        return;
      }
      FillBatches(rectInst, highlightInst, defs);
    }

    /** Draws no rects: both counts go to 0; the slots are kept. */
    method ClearRectMeshes()
      modifies rectInst, highlightInst
      ensures rectInst != null ==> rectInst.count == 0 && rectInst.needsUpdate
      ensures highlightInst != null ==> highlightInst.count == 0 && highlightInst.needsUpdate
    {
      if rectInst != null {
        rectInst.count := 0;
        rectInst.needsUpdate := true;
      }
      if highlightInst != null {
        highlightInst.count := 0;
        highlightInst.needsUpdate := true;
      }
    }

    /** Starts the render loop unless it runs; the first frame is rendered at once. */
    method Start(frameId: nat)
      modifies this`rafId, this`framesRendered
      ensures old(rafId).Some? ==> rafId == old(rafId) && framesRendered == old(framesRendered)
      ensures old(rafId).None? ==> rafId == Some(frameId) && framesRendered == old(framesRendered) + 1
      ensures alive == old(alive) && cancelledFrames == old(cancelledFrames)
      ensures host == old(host) && viewport == old(viewport)
      ensures axes == old(axes) && showAxesFlag == old(showAxesFlag)
      ensures rectInst == old(rectInst) && highlightInst == old(highlightInst)
    {
      if rafId.Some? {
        return;
      }
      rafId := Some(frameId);
      framesRendered := framesRendered + 1;
    }

    /**
     * One tick of the loop: it asks for the next frame, then renders this
     * one. The browser runs it only while a frame is pending, so never after
     * a stop.
     */
    method AnimationFrame(nextId: nat)
      requires rafId.Some?
      modifies this`rafId, this`framesRendered
      ensures rafId == Some(nextId) && framesRendered == old(framesRendered) + 1
      ensures alive == old(alive) && cancelledFrames == old(cancelledFrames)
      ensures host == old(host) && viewport == old(viewport)
      ensures axes == old(axes) && showAxesFlag == old(showAxesFlag)
      ensures rectInst == old(rectInst) && highlightInst == old(highlightInst)
    {
      rafId := Some(nextId);
      framesRendered := framesRendered + 1;
    }

    /** Cancels the pending frame, if any; afterwards no frame is pending. */
    method Stop()
      modifies this`rafId, this`cancelledFrames
      ensures rafId == None
      ensures cancelledFrames == old(cancelledFrames) + (if old(rafId).Some? then [old(rafId).value] else [])
      ensures alive == old(alive) && framesRendered == old(framesRendered)
      ensures host == old(host) && viewport == old(viewport)
      ensures axes == old(axes) && showAxesFlag == old(showAxesFlag)
      ensures rectInst == old(rectInst) && highlightInst == old(highlightInst)
    {
      if rafId.None? {
        return;
      }
      cancelledFrames := cancelledFrames + [rafId.value];
      rafId := None;
    }

    /**
     * Marks the placer dead, stops the loop, empties both buffers, disposes
     * every tracked resource, then the controls, the renderer and the two
     * shared materials. Nothing guards a second call, which disposes the
     * last four again; the axes helper is not released.
     */
    method Dispose()
      requires Valid()
      modifies this`alive, this`rafId, this`cancelledFrames, res, res.resources, Fixed(), rectInst, highlightInst
      ensures Valid()
      ensures !alive && rafId == None
      ensures cancelledFrames == old(cancelledFrames) + (if old(rafId).Some? then [old(rafId).value] else [])
      ensures res.resources == {}
      ensures forall r :: r in old(res.resources) ==> r.disposeCount == old(r.disposeCount) + 1
      ensures forall r :: r in Fixed() ==> r.disposeCount == old(r.disposeCount) + 1
      ensures rectInst != null ==> rectInst.count == 0 && rectInst.needsUpdate
      ensures highlightInst != null ==> highlightInst.count == 0 && highlightInst.needsUpdate
      ensures framesRendered == old(framesRendered) && host == old(host) && viewport == old(viewport)
      ensures axes == old(axes) && showAxesFlag == old(showAxesFlag)
      ensures rectInst == old(rectInst) && highlightInst == old(highlightInst)
    {
      alive := false;
      Stop();
      ClearRectMeshes();
      res.DisposeAll();
      controls.Dispose();
      renderer.Dispose();
      rectMaterial.Dispose();
      highlightMaterial.Dispose();
    }

    /**
     * A texture arriving after the placer died is disposed at once;
     * otherwise it is tracked. This is the guard of `loadTexture` together
     * with the ground's handler, and the load handler of `loadSkyTexture`,
     * which reports whether the promise resolves.
     */
    method OnTextureLoaded(tex: Resource) returns (resolved: bool)
      requires Valid() && tex !in Fixed()
      requires axes != null ==> tex !in Elements(AxesParts())
      modifies res, tex
      ensures Valid()
      ensures resolved == old(alive)
      ensures old(alive) ==> res.resources == old(res.resources) + {tex} && tex.disposeCount == old(tex.disposeCount)
      ensures !old(alive) ==> res.resources == old(res.resources) && tex.disposeCount == old(tex.disposeCount) + 1
    {
      if !alive {
        tex.Dispose();
        return false;
      }
      var _ := res.Track(tex);
      return true;
    }

    /**
     * The sky and wall handlers of the resolved sky texture: after the placer
     * died they do nothing; otherwise they track a fresh clone.
     */
    method OnSkyTextureResolved() returns (clone: Option<Resource>)
      requires Valid()
      modifies res
      ensures Valid()
      ensures !old(alive) ==> clone == None && res.resources == old(res.resources)
      ensures old(alive) ==> clone.Some? && fresh(clone.value) && res.resources == old(res.resources) + {clone.value}
      ensures old(alive) ==> clone.value.disposeCount == 0
    {
      if !alive {
        return None;
      }
      var c := TrackNew(res);
      return Some(c);
    }
  }

  /** The loop of `setRects`: each definition goes to the next free slot of the buffer its flag selects. */
  method FillBatches(normal: InstanceBatch, hi: InstanceBatch, defs: seq<RectDefinition>)
    requires normal != hi && normal.slots != hi.slots
    modifies normal, normal.slots, hi, hi.slots
    ensures normal.count == |Layout(defs, false)| && hi.count == |Layout(defs, true)|
    ensures normal.needsUpdate && hi.needsUpdate
    ensures forall k :: 0 <= k < normal.slots.Length ==>
      normal.slots[k] == if k < |Layout(defs, false)| then Layout(defs, false)[k] else old(normal.slots[k])
    ensures forall k :: 0 <= k < hi.slots.Length ==>
      hi.slots[k] == if k < |Layout(defs, true)| then Layout(defs, true)[k] else old(hi.slots[k])
  {
    var nNormal, nHi := 0, 0;
    for i := 0 to |defs|
      invariant nNormal == |Layout(defs[..i], false)| && nHi == |Layout(defs[..i], true)|
      invariant forall k :: 0 <= k < normal.slots.Length ==>
        normal.slots[k] == if k < nNormal then Layout(defs[..i], false)[k] else old(normal.slots[k])
      invariant forall k :: 0 <= k < hi.slots.Length ==>
        hi.slots[k] == if k < nHi then Layout(defs[..i], true)[k] else old(hi.slots[k])
      invariant normal.count == old(normal.count) && hi.count == old(hi.count)
      invariant normal.needsUpdate == old(normal.needsUpdate) && hi.needsUpdate == old(hi.needsUpdate)
    {
      var r := defs[i];
      assert defs[..i + 1][..i] == defs[..i];
      var inst := Instance(ToRenderPos(r.pos), Vec3(r.size.lx, r.size.lz, r.size.ly));
      if r.highlighted {
        hi.SetMatrixAt(nHi, inst);
        nHi := nHi + 1;
      } else {
        normal.SetMatrixAt(nNormal, inst);
        nNormal := nNormal + 1;
      }
    }
    assert defs[..|defs|] == defs;
    normal.count := nNormal;
    hi.count := nHi;
    normal.needsUpdate := true;
    hi.needsUpdate := true;
  }


  /**
   * A placer's whole life: build it, show and hide the axes, draw some
   * rects, then dispose it. Every resource the scene tracked, each of the
   * four resources released by hand and both parts of the hidden axes end
   * disposed exactly once.
   */
  method Lifecycle(defs: seq<RectDefinition>) returns (p: RectPlacerThree, tracked: set<Resource>, hidden: seq<Resource>)
    ensures fresh(p) && fresh(tracked) && tracked !! p.Fixed()
    ensures !p.alive && p.rafId == None && p.res.resources == {} && p.axes == null
    ensures |tracked| == 13
    ensures forall r :: r in tracked ==> r.disposeCount == 1
    ensures p.rectMaterial.disposeCount == 1 && p.highlightMaterial.disposeCount == 1
    ensures p.controls.disposeCount == 1 && p.renderer.disposeCount == 1
    ensures |hidden| == 2 && hidden[0] != hidden[1]
    ensures forall r :: r in hidden ==> fresh(r) && r.disposeCount == 1 && r !in tracked && r !in p.Fixed()
  {
    p, tracked, hidden := BuildAndHideAxes();
    DrawRects(p, defs);
    p.Dispose();
  }

  /**
   * The first part of `Lifecycle`: build a placer, then show and hide its
   * axes. `tracked` is the tracker's set right after construction and
   * `hidden` the parts of the axes the constructor shows.
   */
  method BuildAndHideAxes() returns (p: RectPlacerThree, tracked: set<Resource>, hidden: seq<Resource>)
    ensures p.Valid() && p.alive && p.axes == null
    ensures fresh(p) && fresh(p.res) && fresh(p.Fixed()) && fresh(p.res.resources)
    ensures p.rectInst != null && p.highlightInst != null && fresh(p.rectInst) && fresh(p.highlightInst)
    ensures fresh(p.rectInst.slots) && fresh(p.highlightInst.slots)
    ensures tracked == p.res.resources && |tracked| == 13
    ensures forall r :: r in tracked ==> r.disposeCount == 0
    ensures p.rectMaterial.disposeCount == 0 && p.highlightMaterial.disposeCount == 0
    ensures p.controls.disposeCount == 0 && p.renderer.disposeCount == 0
    ensures |hidden| == 2 && hidden[0] != hidden[1]
    ensures forall r :: r in hidden ==> fresh(r) && r.disposeCount == 1 && r !in tracked && r !in p.Fixed()
  {
    p := new RectPlacerThree();
    tracked := p.res.resources;
    hidden := p.AxesParts();
    assert hidden == [p.axes.geometry, p.axes.material.material];
    p.SetShowAxes(true);
    p.SetShowAxes(false);
  }

  /** `setRects` seen from outside the placer: only the two instance buffers change. */
  method DrawRects(p: RectPlacerThree, defs: seq<RectDefinition>)
    requires p.Valid() && p.rectInst != null && p.highlightInst != null
    modifies p.rectInst, p.rectInst.slots, p.highlightInst, p.highlightInst.slots
    ensures p.Valid()
    ensures p.rectInst.count == |Layout(defs, false)| && p.highlightInst.count == |Layout(defs, true)|
  {
    assert p.Batches() == {p.rectInst, p.rectInst.slots, p.highlightInst, p.highlightInst.slots};
    p.SetRects(defs);
  }
}
