/** The same components as objects that update their fields step by step, each method proved to
    be the step that the safety results speak of. */
module TargetPasses {
  import opened Basics
  import opened Devices
  import opened Targets
  import opened TargetSafety

  /** The forward pass of a renderer with this chain, whose other passes hold nothing. */
  function ForwardWorld(f: Forward, c: Context, s: Depth, d: Device, chain: Option<Chain>): World {
    World(Presenter(d, c, chain), s, f, NEW_COMPOSITE)
  }

  function CompositeWorld(m: Composite, c: Context, d: Device, chain: Option<Chain>): World {
    World(Presenter(d, c, chain), NEW_DEPTH, NEW_FORWARD, m)
  }

  /** Unpinned and in a safe state, the answer is what building it now would give, exactly when a
      chain is attached and the pass does not reuse a framebuffer older than device call `last`;
      and the state stays safe. */
  ghost predicate ForwardServes(w: World, last: nat, r: ForwardResult) {
    Inv(w, last) && !w.forward.pinned ==>
      && Inv(ForwardWorld(r.cache, w.p.ctx, r.depth, r.dev, w.p.chain), last)
      && (r.target.Some? ==>
            (FreshForward(r.target.value, w.p.ctx, r.depth, r.dev) <==> w.p.chain.Some? && !ForwardReusesOlder(w, last)))
  }

  ghost predicate CompositeServes(w: World, last: nat, r: CompositeResult) {
    Inv(w, last) && w.composite.pinned.None? ==>
      && Inv(CompositeWorld(r.cache, w.p.ctx, r.dev, w.p.chain), last)
      && (r.target.Some? ==>
            (FreshComposite(r.target.value, w.p.ctx, r.dev) <==> w.p.chain.Some? && !CompositeReusesOlder(w, last)))
  }

  lemma ForwardAlwaysServes(f: Forward, c: Context, s: Depth, d: Device, chain: Option<Chain>, last: nat)
    ensures ForwardServes(ForwardWorld(f, c, s, d, chain), last, ResolveForward(f, c, s, d))
  {
    var w := ForwardWorld(f, c, s, d, chain);
    if Inv(w, last) && !f.pinned {
      ForwardFreshIff(w, last);
    }
  }

  lemma CompositeAlwaysServes(m: Composite, c: Context, d: Device, chain: Option<Chain>, last: nat)
    ensures CompositeServes(CompositeWorld(m, c, d, chain), last, ResolveComposite(m, c, d))
  {
    var w := CompositeWorld(m, c, d, chain);
    if Inv(w, last) {
      CompositeFreshIff(w, last);
    }
  }

  /** However the chain is replaced, published views stay alive, over the attached chain if there is one. */
  ghost predicate StaysOk(p: Presenter, p': Presenter) {
    PresenterOk(p) && p.ctx.generation + 1 < GENERATIONS ==> PresenterOk(p')
  }

  lemma PresenterStaysOk(p: Presenter, step: Step)
    ensures StaysOk(p, Next(World(p, NEW_DEPTH, NEW_FORWARD, NEW_COMPOSITE), step).p)
  {
    if PresenterOk(p) && p.ctx.generation + 1 < GENERATIONS {
      StepKeepsInv(World(p, NEW_DEPTH, NEW_FORWARD, NEW_COMPOSITE), 0, step);
    }
  }

  class GraphicsDevice {
    const answer: nat -> bool
    var calls: nat
    var live: map<Id, set<Id>>
    var doubleReleases: nat
    var earlyReleases: nat

    function State(): Device
      reads this
    {
      Device(answer, calls, live, doubleReleases, earlyReleases)
    }

    constructor (answer: nat -> bool)
      ensures State() == Device(answer, 0, map[], 0, 0)
    {
      this.answer := answer;
      calls, live, doubleReleases, earlyReleases := 0, map[], 0, 0;
    }

    method CreateObject(uses: set<Id>) returns (id: Option<Id>)
      modifies this
      ensures (id, State()) == Create(old(State()), uses)
    {
      if answer(calls) {
        id := Some(calls);
        live := live[calls := uses];
      } else {
        id := None;
      }
      calls := calls + 1;
    }

    method ReleaseObject(id: Id)
      modifies this
      ensures State() == Release(old(State()), id)
    {
      if id !in live {
        doubleReleases := doubleReleases + 1;
      }
      if exists user :: user in live && id in live[user] {
        earlyReleases := earlyReleases + 1;
      }
      live := live - {id};
    }

    method ReleaseMany(ids: seq<Id>)
      modifies this
      ensures State() == ReleaseAll(old(State()), ids)
    {
      for k := 0 to |ids|
        invariant ReleaseAll(State(), ids[k..]) == ReleaseAll(old(State()), ids)
      {
        ReleaseObject(ids[k]);
      }
    }

    /** The chain dies with its images. */
    method DropChain(chain: Option<Chain>)
      modifies this
      ensures State() == Drop(old(State()), chain)
    {
      if chain.Some? {
        live := live - {chain.value.id};
      }
    }
  }

  class RenderContext {
    var imageIndex: nat
    var views: seq<Id>
    var presentation: Extent
    var resolution: Extent
    var generation: nat

    function State(): Context
      reads this
    {
      Context(imageIndex, views, presentation, resolution, generation)
    }
  }

  class DepthTarget {
    var image: Option<DepthImage>
    var view: Option<Id>
    var written: bool
    var generation: nat

    function State(): Depth
      reads this
    {
      Depth(image, view, written, generation)
    }

    constructor ()
      ensures State() == NEW_DEPTH
    {
      image, view, written, generation := None, None, false, 0;
    }

    method View(device: GraphicsDevice, size: Extent) returns (r: Option<Id>)
      modifies this, device
      ensures (r, State(), device.State()) == DepthView(old(State()), old(device.State()), size)
    {
      if size.width == 0 || size.height == 0 {
        return None;
      }
      var stale := image.None? || image.value.size != size;
      if stale {
        var newTexture := device.CreateObject({});
        if newTexture.None? {
          return None;
        }
        var newView := device.CreateObject({newTexture.value});
        if newView.None? {
          return None;
        }
        image := Some(DepthImage(newTexture.value, size));
        view := newView;
        written := false;
        generation := generation + 1;
      }
      return view;
    }

    method MarkWritten()
      modifies this
      ensures State() == old(State()).(written := true)
    {
      written := true;
    }
  }

  class ForwardPass {
    var framebuffer: Option<Framebuffer>
    var pinned: bool
    var image: Option<nat>
    var extent: Option<Extent>
    var generation: Option<nat>
    var depthGeneration: Option<nat>
    var depth: DepthTarget

    function State(): Forward
      reads this
    {
      Forward(framebuffer, pinned, image, extent, generation, depthGeneration)
    }

    constructor (depth: DepthTarget)
      ensures State() == NEW_FORWARD && this.depth == depth
    {
      framebuffer, pinned, image, extent, generation, depthGeneration := None, false, None, None, None, None;
      this.depth := depth;
    }

    method SetFramebuffer(fb: Option<Framebuffer>)
      modifies this
      ensures State() == PinForward(old(State()), fb) && depth == old(depth)
    {
      pinned := fb.Some?;
      framebuffer := fb;
    }

    method SetDepthTarget(depth: DepthTarget)
      modifies this`depth
      ensures this.depth == depth
    {
      this.depth := depth;
    }

    method ResolveTarget(context: RenderContext, device: GraphicsDevice, ghost chain: Option<Chain>, ghost last: nat)
        returns (r: Option<Framebuffer>)
      modifies this, depth, device
      ensures depth == old(depth)
      ensures ForwardResult(r, State(), depth.State(), device.State()) ==
        ResolveForward(old(State()), context.State(), old(depth.State()), old(device.State()))
      ensures ForwardServes(
        old(ForwardWorld(State(), context.State(), depth.State(), device.State(), chain)), last,
        ForwardResult(r, State(), depth.State(), device.State()))
    {
      ForwardAlwaysServes(State(), context.State(), depth.State(), device.State(), chain, last);
      r := Resolve(context, device);
    }

    method Resolve(context: RenderContext, device: GraphicsDevice) returns (r: Option<Framebuffer>)
      modifies this, depth, device
      ensures depth == old(depth)
      ensures ForwardResult(r, State(), depth.State(), device.State()) ==
        ResolveForward(old(State()), context.State(), old(depth.State()), old(device.State()))
    {
      if pinned {
        return framebuffer;
      }
      var index := context.imageIndex;
      if index >= |context.views| {
        return None;
      }
      var size := DrawableSize(context.State());
      if size.width == 0 || size.height == 0 {
        return None;
      }
      if generation != Some(context.generation) {
        framebuffer := None;
        generation := Some(context.generation);
      }
      if extent != Some(size) {
        framebuffer := None;
        extent := Some(size);
      }
      var depthView := depth.View(device, size);
      if depthView.None? {
        return None;
      }
      if depthGeneration != Some(depth.generation) {
        framebuffer := None;
        depthGeneration := Some(depth.generation);
      }
      r := AttachTarget(context, depthView.value, size, device);
    }

    /** One draw: resolve the target, record into it, and note that the shared depth is written. The
        depth is marked for a pinned target too. */
    method Draw(context: RenderContext, device: GraphicsDevice, accepted: bool, ghost chain: Option<Chain>) returns (recorded: bool)
      modifies this, depth, device
      ensures depth == old(depth)
      ensures
        var w := old(ForwardWorld(State(), context.State(), depth.State(), device.State(), chain));
        && ForwardWorld(State(), context.State(), depth.State(), device.State(), chain) == Next(w, DrawForward(accepted))
        && (recorded <==> Records(w, DrawForward(accepted)))
        && (recorded <==> accepted && Forwarded(w).target.Some? && Forwarded(w).target.value.size.width > 0 && Forwarded(w).target.value.size.height > 0)
      ensures recorded ==> depth.written
    {
      var target := ResolveTarget(context, device, chain, 0);
      if target.None? || target.value.size.width == 0 || target.value.size.height == 0 || !accepted {
        return false;
      }
      depth.MarkWritten();
      return true;
    }

    method AttachTarget(context: RenderContext, depthView: Id, size: Extent, device: GraphicsDevice) returns (r: Option<Framebuffer>)
      requires context.imageIndex < |context.views| && size == DrawableSize(context.State())
      modifies this`framebuffer, this`image, device
      ensures (r, State(), device.State()) ==
        AttachForward(old(State()), context.State(), depthView, old(device.State()))
    {
      var index := context.imageIndex;
      if image == Some(index) && framebuffer.Some? {
        return framebuffer;
      }
      var id := device.CreateObject({context.views[index], depthView});
      if id.None? {
        return None;
      }
      image := Some(index);
      framebuffer := Some(Framebuffer(id.value, context.views[index], Some(depthView), size));
      return framebuffer;
    }
  }

  class ParticleCompositePass {
    var framebuffers: map<nat, Framebuffer>
    var extent: Option<Extent>
    var generation: Option<nat>
    var pinned: Option<Framebuffer>

    function State(): Composite
      reads this
    {
      Composite(framebuffers, extent, generation, pinned)
    }

    constructor ()
      ensures State() == NEW_COMPOSITE
    {
      framebuffers, extent, generation, pinned := map[], None, None, None;
    }

    method Target(context: RenderContext, device: GraphicsDevice, ghost chain: Option<Chain>, ghost last: nat)
        returns (r: Option<Framebuffer>)
      modifies this, device
      ensures CompositeResult(r, State(), device.State()) ==
        ResolveComposite(old(State()), context.State(), old(device.State()))
      ensures CompositeServes(
        old(CompositeWorld(State(), context.State(), device.State(), chain)), last,
        CompositeResult(r, State(), device.State()))
    {
      CompositeAlwaysServes(State(), context.State(), device.State(), chain, last);
      if pinned.Some? {
        return pinned;
      }
      var index := context.imageIndex;
      if index >= |context.views| {
        return None;
      }
      var size := DrawableSize(context.State());
      if size.width == 0 || size.height == 0 {
        return None;
      }
      if generation != Some(context.generation) {
        framebuffers := map[];
        generation := Some(context.generation);
      }
      if extent != Some(size) {
        framebuffers := map[];
        extent := Some(size);
      }
      if index in framebuffers {
        return Some(framebuffers[index]);
      }
      var id := device.CreateObject({context.views[index]});
      if id.None? {
        return None;
      }
      framebuffers := framebuffers[index := Framebuffer(id.value, context.views[index], None, size)];
      return Some(framebuffers[index]);
    }
  }

  class Renderer {
    const device: GraphicsDevice
    const context: RenderContext
    var chain: Option<Chain>

    function State(): Presenter
      reads this, device, context
    {
      Presenter(device.State(), context.State(), chain)
    }

    constructor (device: GraphicsDevice, context: RenderContext)
      ensures this.device == device && this.context == context && chain == None
    {
      this.device, this.context, chain := device, context, None;
    }

    method PublishTypedViews()
      requires chain.Some?
      modifies device, context
      ensures State() == Publish(old(State()))
    {
      if !chain.value.shape.hasFormat {
        context.views := [];
        return;
      }
      var previous := context.views;
      context.views := [];
      device.ReleaseMany(previous);
      ghost var released := device.State();
      var views := [];
      for k := 0 to chain.value.shape.imageCount
        invariant CreateViews(released, chain.value.id, k) == (Some(views), device.State())
        invariant context.State() == old(context.State()).(views := [])
      {
        var view := device.CreateObject({chain.value.id});
        if view.None? {
          RefusedStays(released, chain.value.id, k + 1, chain.value.shape.imageCount);
          return;
        }
        views := views + [view.value];
      }
      context.views := views;
    }

    method RefreshPresentation()
      modifies device, context
      ensures State() == Refresh(old(State()))
    {
      if chain.None? {
        context.presentation := context.resolution;
        return;
      }
      context.presentation := chain.value.shape.extent;
      PublishTypedViews();
    }

    method ReplaceChain(shape: Shape) returns (made: Option<Id>)
      modifies this`chain, device
      ensures (made, State()) == Replace(old(State()), shape)
    {
      made := device.CreateObject({});
      if made.Some? {
        device.DropChain(chain);
        chain := Some(Chain(made.value, shape));
      }
    }

    method ResizeTo(size: Extent, shape: Shape)
      modifies this`chain, device, context
      ensures State() == Resize(old(State()), size, shape)
      ensures context.resolution == Extent(if size.width == 0 then 1 else size.width, if size.height == 0 then 1 else size.height)
      ensures context.generation ==
        if old(chain).Some? && device.answer(old(device.calls)) then (old(context.generation) + 1) % 0x1_0000_0000_0000_0000
        else old(context.generation)
      ensures StaysOk(old(State()), State())
    {
      PresenterStaysOk(State(), DoResize(size, shape));
      context.resolution := AtLeastOne(size);
      if chain.None? {
        return;
      }
      var made := ReplaceChain(shape);
      if made.Some? {
        context.generation := (context.generation + 1) % GENERATIONS;
      }
      RefreshPresentation();
    }

    method RebuildPresentation(shape: Shape)
      modifies this`chain, device, context
      ensures State() == Rebuild(old(State()), shape)
      ensures StaysOk(old(State()), State())
    {
      PresenterStaysOk(State(), DoRebuild(shape));
      if chain.None? {
        return;
      }
      var made := ReplaceChain(shape);
      if made.Some? {
        RefreshPresentation();
      }
      RefreshPresentation();
    }

    method AttachPresentation(surface: bool, shape: Shape) returns (ok: bool)
      modifies this`chain, device, context
      ensures State() == Attach(old(State()), surface, shape)
      ensures ok <==> surface && device.answer(old(device.calls))
      ensures StaysOk(old(State()), State())
    {
      PresenterStaysOk(State(), DoAttach(surface, shape));
      if !surface {
        return false;
      }
      var before := chain;
      chain := None;
      var made := device.CreateObject({});
      device.DropChain(before);
      if made.None? {
        return false;
      }
      chain := Some(Chain(made.value, shape));
      RefreshPresentation();
      return true;
    }

    method AcquireImage(index: nat)
      modifies context
      ensures State() == Acquire(old(State()), index)
    {
      if chain.Some? {
        context.presentation := chain.value.shape.extent;
        context.imageIndex := index;
      } else {
        context.presentation := context.resolution;
        context.imageIndex := 0;
      }
    }
  }

  /** Once a view has been refused no later one is asked for. */
  lemma {:induction false} RefusedStays(d: Device, chain: Id, k: nat, count: nat)
    requires k <= count && CreateViews(d, chain, k).0.None?
    ensures CreateViews(d, chain, count) == CreateViews(d, chain, k)
    decreases count
  {
    if k < count {
      RefusedStays(d, chain, k, count - 1);
    }
  }
}
