/** What the passes draw into: the presentation state the renderer publishes, the shared depth
    buffer, and the framebuffers the forward and the particle-composite passes cache for them. */
module Targets {
  import opened Basics
  import opened Devices

  datatype Extent = Extent(width: nat, height: nat)

  datatype Framebuffer = Framebuffer(id: Id, color: Id, depth: Option<Id>, size: Extent)

  // ----- Render context (context.rs)

  /** The part of the render context the caches read. */
  datatype Context = Context(imageIndex: nat, views: seq<Id>, presentation: Extent, resolution: Extent, generation: nat)

  function DrawableSize(c: Context): Extent {
    if c.presentation.width != 0 && c.presentation.height != 0 then c.presentation
    else if c.resolution.width != 0 && c.resolution.height != 0 then c.resolution
    else Extent(0, 0)
  }

  /** The presentation's size when it has one, else the window's, else nothing. */
  lemma DrawableSizeIs(c: Context)
    ensures c.presentation.width > 0 && c.presentation.height > 0 ==> DrawableSize(c) == c.presentation
    ensures (c.presentation.width == 0 || c.presentation.height == 0) && c.resolution.width > 0 && c.resolution.height > 0 ==>
      DrawableSize(c) == c.resolution
    ensures (c.presentation.width == 0 || c.presentation.height == 0) && (c.resolution.width == 0 || c.resolution.height == 0) ==>
      DrawableSize(c) == Extent(0, 0)
  {
  }

  // ----- Shared depth (depth_target.rs)

  datatype DepthImage = DepthImage(texture: Id, size: Extent)

  datatype Depth = Depth(image: Option<DepthImage>, view: Option<Id>, written: bool, generation: nat)

  const NEW_DEPTH: Depth := Depth(None, None, false, 0)

  predicate DepthStale(s: Depth, size: Extent) {
    s.image.None? || s.image.value.size != size
  }

  /** The depth view for `size`, created or recreated as needed. */
  function DepthView(s: Depth, d: Device, size: Extent): (Option<Id>, Depth, Device) {
    if size.width == 0 || size.height == 0 then (None, s, d)
    else if !DepthStale(s, size) then (s.view, s, d)
    else
      var (texture, d1) := Create(d, {});
      if texture.None? then (None, s, d1) else
      var (view, d2) := Create(d1, {texture.value});
      if view.None? then (None, s, d2)
      else (view, Depth(Some(DepthImage(texture.value, size)), view, false, s.generation + 1), d2)
  }

  /** A zero size asks for nothing and gets nothing; a buffer of the size is served as it is; any other asks for an
      image and its view, and is replaced, counted and unwritten only when both are granted. */
  lemma DepthViewIs(s: Depth, d: Device, size: Extent)
    ensures size.width == 0 || size.height == 0 ==> DepthView(s, d, size) == (None, s, d)
    ensures size.width > 0 && size.height > 0 && s.image.Some? && s.image.value.size == size ==> DepthView(s, d, size) == (s.view, s, d)
    ensures size.width > 0 && size.height > 0 && (s.image.None? || s.image.value.size != size) ==>
      var (r, s', d') := DepthView(s, d, size);
      if d.answer(d.calls) && d.answer(d.calls + 1) then
        && r == Some(d.calls + 1) && s' == Depth(Some(DepthImage(d.calls, size)), r, false, s.generation + 1)
        && d'.live == d.live[d.calls := {}][d.calls + 1 := {d.calls}]
      else r == None && s' == s
  {
  }

  // ----- Forward pass cache (forward.rs)

  datatype Forward = Forward(
    framebuffer: Option<Framebuffer>,
    pinned: bool,
    image: Option<nat>,
    extent: Option<Extent>,
    generation: Option<nat>,
    depthGeneration: Option<nat>)

  const NEW_FORWARD: Forward := Forward(None, false, None, None, None, None)

  datatype ForwardResult = ForwardResult(target: Option<Framebuffer>, cache: Forward, depth: Depth, dev: Device)

  function ForgetGeneration(f: Forward, generation: nat): Forward {
    if f.generation != Some(generation) then f.(framebuffer := None, generation := Some(generation)) else f
  }

  function ForgetExtent(f: Forward, size: Extent): Forward {
    if f.extent != Some(size) then f.(framebuffer := None, extent := Some(size)) else f
  }

  function ForgetDepth(f: Forward, generation: nat): Forward {
    if f.depthGeneration != Some(generation) then f.(framebuffer := None, depthGeneration := Some(generation)) else f
  }

  function ResolveForward(f: Forward, c: Context, s: Depth, d: Device): ForwardResult {
    if f.pinned then ForwardResult(f.framebuffer, f, s, d)
    else if c.imageIndex >= |c.views| then ForwardResult(None, f, s, d)
    else
      var size := DrawableSize(c);
      if size.width == 0 || size.height == 0 then ForwardResult(None, f, s, d) else
      var f1 := ForgetExtent(ForgetGeneration(f, c.generation), size);
      var (depthView, s1, d1) := DepthView(s, d, size);
      if depthView.None? then ForwardResult(None, f1, s1, d1) else
      var (target, f2, d2) := AttachForward(ForgetDepth(f1, s1.generation), c, depthView.value, d1);
      ForwardResult(target, f2, s1, d2)
  }

  /** The cached framebuffer if it is the acquired image's, else a new one. */
  function AttachForward(f: Forward, c: Context, depthView: Id, d: Device): (Option<Framebuffer>, Forward, Device)
    requires c.imageIndex < |c.views|
  {
    if f.image == Some(c.imageIndex) && f.framebuffer.Some? then (f.framebuffer, f, d) else
    var (id, d1) := Create(d, {c.views[c.imageIndex], depthView});
    if id.None? then (None, f, d1) else
    var built := Framebuffer(id.value, c.views[c.imageIndex], Some(depthView), DrawableSize(c));
    (Some(built), f.(image := Some(c.imageIndex), framebuffer := Some(built)), d1)
  }

  function PinForward(f: Forward, framebuffer: Option<Framebuffer>): Forward {
    f.(framebuffer := framebuffer, pinned := framebuffer.Some?)
  }

  // ----- Particle-composite cache (particle_composite.rs)

  datatype Composite = Composite(
    framebuffers: map<nat, Framebuffer>,
    extent: Option<Extent>,
    generation: Option<nat>,
    pinned: Option<Framebuffer>)

  const NEW_COMPOSITE: Composite := Composite(map[], None, None, None)

  datatype CompositeResult = CompositeResult(target: Option<Framebuffer>, cache: Composite, dev: Device)

  function ForgetChain(m: Composite, generation: nat, size: Extent): Composite {
    var m1 := if m.generation != Some(generation) then m.(framebuffers := map[], generation := Some(generation)) else m;
    if m1.extent != Some(size) then m1.(framebuffers := map[], extent := Some(size)) else m1
  }

  function ResolveComposite(m: Composite, c: Context, d: Device): CompositeResult {
    if m.pinned.Some? then CompositeResult(m.pinned, m, d)
    else if c.imageIndex >= |c.views| then CompositeResult(None, m, d)
    else
      var size := DrawableSize(c);
      if size.width == 0 || size.height == 0 then CompositeResult(None, m, d) else
      var m1 := ForgetChain(m, c.generation, size);
      if c.imageIndex in m1.framebuffers then CompositeResult(Some(m1.framebuffers[c.imageIndex]), m1, d) else
      var (id, d1) := Create(d, {c.views[c.imageIndex]});
      if id.None? then CompositeResult(None, m1, d1) else
      var built := Framebuffer(id.value, c.views[c.imageIndex], None, size);
      CompositeResult(Some(built), m1.(framebuffers := m1.framebuffers[c.imageIndex := built]), d1)
  }

  // ----- Renderer (renderer.rs)

  /** A swapchain as the surface negotiated it. */
  datatype Shape = Shape(imageCount: nat, extent: Extent, hasFormat: bool)

  datatype Chain = Chain(id: Id, shape: Shape)

  datatype Presenter = Presenter(dev: Device, ctx: Context, chain: Option<Chain>)

  const GENERATIONS: nat := 0x1_0000_0000_0000_0000

  /** Typed views over the chain's images, one by one; a refusal gives up with none. */
  function CreateViews(d: Device, chain: Id, count: nat): (Option<seq<Id>>, Device)
    decreases count
  {
    if count == 0 then (Some([]), d) else
    var (before, d1) := CreateViews(d, chain, count - 1);
    if before.None? then (None, d1) else
    var (view, d2) := Create(d1, {chain});
    if view.None? then (None, d2) else (Some(before.value + [view.value]), d2)
  }

  /** One view for each image, in the images' order, when every request is granted, and none otherwise. */
  lemma {:induction false} CreateViewsIs(d: Device, chain: Id, count: nat)
    ensures (forall n: nat {:trigger d.answer(n)} :: d.calls <= n < d.calls + count ==> d.answer(n)) <==> CreateViews(d, chain, count).0.Some?
    ensures CreateViews(d, chain, count).0.Some? ==>
      var (views, d') := CreateViews(d, chain, count);
      && |views.value| == count && d'.calls == d.calls + count
      && forall k {:trigger views.value[k]} :: 0 <= k < count ==>
           var id := views.value[k];
           id == d.calls + k && id in d'.live && d'.live[id] == {chain}
    ensures CreateViews(d, chain, count).1.answer == d.answer
    decreases count
  {
    if count > 0 {
      CreateViewsIs(d, chain, count - 1);
      var (before, d1) := CreateViews(d, chain, count - 1);
      if before.Some? {
        var last := d.calls + count - 1;
        assert d1.calls == last;
        var (views, d') := CreateViews(d, chain, count);
        assert views.Some? <==> d.answer(last);
      }
    }
  }

  function Publish(p: Presenter): Presenter
    requires p.chain.Some?
  {
    var chain := p.chain.value;
    if !chain.shape.hasFormat then p.(ctx := p.ctx.(views := [])) else
    var (views, d) := CreateViews(ReleaseAll(p.dev, p.ctx.views), chain.id, chain.shape.imageCount);
    p.(dev := d, ctx := p.ctx.(views := if views.Some? then views.value else []))
  }

  function Refresh(p: Presenter): Presenter {
    if p.chain.None? then p.(ctx := p.ctx.(presentation := p.ctx.resolution))
    else Publish(p.(ctx := p.ctx.(presentation := p.chain.value.shape.extent)))
  }

  /** The chain dies with its images, whatever still refers to them. */
  function Drop(d: Device, chain: Option<Chain>): Device {
    if chain.Some? then d.(live := d.live - {chain.value.id}) else d
  }

  /** Put a new chain in place of the old one; None when the backend refuses. */
  function Replace(p: Presenter, shape: Shape): (Option<Id>, Presenter) {
    var (id, d) := Create(p.dev, {});
    if id.None? then (None, p.(dev := d))
    else (id, p.(dev := Drop(d, p.chain), chain := Some(Chain(id.value, shape))))
  }

  function AtLeastOne(e: Extent): Extent {
    Extent(if e.width < 1 then 1 else e.width, if e.height < 1 then 1 else e.height)
  }

  function Resize(p: Presenter, size: Extent, shape: Shape): Presenter {
    var p0 := p.(ctx := p.ctx.(resolution := AtLeastOne(size)));
    if p0.chain.None? then p0 else
    var (made, p1) := Replace(p0, shape);
    Refresh(if made.Some? then p1.(ctx := p1.ctx.(generation := (p1.ctx.generation + 1) % GENERATIONS)) else p1)
  }

  function Rebuild(p: Presenter, shape: Shape): Presenter {
    if p.chain.None? then p else
    var (made, p1) := Replace(p, shape);
    if made.Some? then Refresh(Refresh(p1)) else Refresh(p1)
  }

  /** A refused surface changes nothing; a refused chain has already cost the old one. */
  function Attach(p: Presenter, surface: bool, shape: Shape): Presenter {
    if !surface then p else
    var (made, p1) := Replace(p, shape);
    if made.Some? then Refresh(p1) else p1.(dev := Drop(p1.dev, p.chain), chain := None)
  }

  /** The acquire path republishes the raw handles and the extent, not the typed views. */
  function Acquire(p: Presenter, index: nat): Presenter {
    if p.chain.Some? then p.(ctx := p.ctx.(presentation := p.chain.value.shape.extent, imageIndex := index))
    else p.(ctx := p.ctx.(presentation := p.ctx.resolution, imageIndex := 0))
  }

  /** With a chain the frame is that of the acquired image at the chain's size, without one it is image 0 at the
      window's; nothing else changes. */
  lemma AcquireIs(p: Presenter, index: nat)
    ensures
      var q := Acquire(p, index);
      && q.dev == p.dev && q.chain == p.chain && q.ctx.views == p.ctx.views
      && q.ctx.resolution == p.ctx.resolution && q.ctx.generation == p.ctx.generation
      && (p.chain.Some? ==> q.ctx.imageIndex == index && q.ctx.presentation == p.chain.value.shape.extent)
      && (p.chain.None? ==> q.ctx.imageIndex == 0 && q.ctx.presentation == p.ctx.resolution)
  {
  }

  /** What each way of replacing the chain leaves of the chain and the generation, by what the backend answers. */
  lemma ReplacementsAre(p: Presenter, size: Extent, shape: Shape)
    requires p.ctx.generation < GENERATIONS
    ensures
      var granted, made := p.dev.answer(p.dev.calls), Some(Chain(p.dev.calls, shape));
      && Resize(p, size, shape).chain == (if p.chain.Some? && granted then made else p.chain)
      && Rebuild(p, shape).chain == (if p.chain.Some? && granted then made else p.chain)
      && Attach(p, true, shape).chain == (if granted then made else None)
      && Attach(p, false, shape) == p
      && Rebuild(p, shape).ctx.generation == Attach(p, true, shape).ctx.generation == p.ctx.generation
      && Resize(p, size, shape).ctx.generation ==
           (if !(p.chain.Some? && granted) then p.ctx.generation else if p.ctx.generation == 0xffff_ffff_ffff_ffff then 0 else p.ctx.generation + 1)
      && Resize(p, size, shape).ctx.resolution == Extent(if size.width == 0 then 1 else size.width, if size.height == 0 then 1 else size.height)
      && Rebuild(p, shape).ctx.resolution == Attach(p, true, shape).ctx.resolution == p.ctx.resolution
  {
  }

  lemma PublishAsks(p: Presenter)
    requires p.chain.Some? && p.chain.value.shape.hasFormat && forall n: nat {:trigger p.dev.answer(n)} :: p.dev.answer(n)
    ensures Refresh(p).dev.calls == p.dev.calls + p.chain.value.shape.imageCount
    ensures Refresh(p).chain == p.chain && Refresh(p).dev.answer == p.dev.answer
  {
    CreateViewsIs(ReleaseAll(p.dev, p.ctx.views), p.chain.value.id, p.chain.value.shape.imageCount);
  }

  /** With everything granted a resize and an attach ask for a chain and its views, a rebuild for a chain and its
      views twice. */
  lemma ReplacementsAsk(p: Presenter, size: Extent, shape: Shape)
    requires p.chain.Some? && shape.hasFormat && forall n: nat {:trigger p.dev.answer(n)} :: p.dev.answer(n)
    ensures Resize(p, size, shape).dev.calls == p.dev.calls + 1 + shape.imageCount
    ensures Attach(p, true, shape).dev.calls == p.dev.calls + 1 + shape.imageCount
    ensures Rebuild(p, shape).dev.calls == p.dev.calls + 1 + 2 * shape.imageCount
  {
    var p1 := Replace(p, shape).1;
    assert p.dev.answer(p.dev.calls);
    PublishAsks(p1);
    PublishAsks(Refresh(p1));
    var q := Replace(p.(ctx := p.ctx.(resolution := AtLeastOne(size))), shape).1;
    PublishAsks(q.(ctx := q.ctx.(generation := (q.ctx.generation + 1) % GENERATIONS)));
  }
}
