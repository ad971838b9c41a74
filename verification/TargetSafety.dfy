/** Cached framebuffers against the life of the objects they attach: over every run, when an
    answer is what building it now would give and when it is not. */
module TargetSafety {
  import opened Basics
  import opened Devices
  import opened Targets

  datatype World = World(p: Presenter, depth: Depth, forward: Forward, composite: Composite)

  datatype Step =
    | DoAcquire(index: nat)
    | DoResize(size: Extent, shape: Shape)
    | DoRebuild(shape: Shape)
    | DoAttach(surface: bool, shape: Shape)
    | OtherDepthUser(size: Extent)
    | DrawForward(accepted: bool)
    | DrawComposite
    | DoPinForward(framebuffer: Option<Framebuffer>)
    | DoPinComposite(framebuffer: Option<Framebuffer>)

  function Forwarded(w: World): ForwardResult {
    ResolveForward(w.forward, w.p.ctx, w.depth, w.p.dev)
  }

  function Composed(w: World): CompositeResult {
    ResolveComposite(w.composite, w.p.ctx, w.p.dev)
  }

  /** The forward pass once its target is resolved. */
  function Resolved(w: World): World {
    var r := Forwarded(w);
    w.(forward := r.cache, depth := r.depth, p := w.p.(dev := r.dev))
  }

  /** The draw has a target with a size, and the encoder accepts its commands: the pass then notes
      that the shared depth has been written, whatever it drew into. */
  predicate Records(w: World, step: Step) {
    && step.DrawForward? && step.accepted
    && Forwarded(w).target.Some?
    && Forwarded(w).target.value.size.width != 0 && Forwarded(w).target.value.size.height != 0
  }

  function Next(w: World, step: Step): World {
    match step
    case DoAcquire(index) => w.(p := Acquire(w.p, index))
    case DoResize(size, shape) => w.(p := Resize(w.p, size, shape))
    case DoRebuild(shape) => w.(p := Rebuild(w.p, shape))
    case DoAttach(surface, shape) => w.(p := Attach(w.p, surface, shape))
    case OtherDepthUser(size) =>
      var (_, depth, dev) := DepthView(w.depth, w.p.dev, size);
      w.(depth := depth, p := w.p.(dev := dev))
    case DrawForward(_) =>
      var v := Resolved(w);
      if Records(w, step) then v.(depth := v.depth.(written := true)) else v
    case DrawComposite =>
      var r := Composed(w);
      w.(composite := r.cache, p := w.p.(dev := r.dev))
    case DoPinForward(framebuffer) => w.(forward := PinForward(w.forward, framebuffer))
    case DoPinComposite(framebuffer) => w.(composite := w.composite.(pinned := framebuffer))
  }

  function Run(w: World, steps: seq<Step>): World {
    if steps == [] then w else Next(Run(w, steps[..|steps| - 1]), steps[|steps| - 1])
  }

  /** The step republishes the views without moving the generation the caches are keyed on. */
  predicate Unannounced(w: World, step: Step) {
    match step
    case DoResize(_, _) => w.p.chain.Some? && !w.p.dev.answer(w.p.dev.calls)
    case DoRebuild(_) => w.p.chain.Some?
    case DoAttach(surface, _) => surface && w.p.dev.answer(w.p.dev.calls)
    case _ => false
  }

  /** The number of device calls made before the latest such step of the run; framebuffers with a
      smaller identity are older than it. */
  function Last(w: World, last: nat, steps: seq<Step>): nat {
    if steps == [] then last
    else
      var k := |steps| - 1;
      LastAfter(Run(w, steps[..k]), Last(w, last, steps[..k]), steps[k])
  }

  function LastAfter(w: World, last: nat, step: Step): nat {
    if Unannounced(w, step) then w.p.dev.calls else last
  }

  /** The step leaves the chain alone, or is a resize that succeeds. */
  predicate Announced(w: World, step: Step) {
    match step
    case DoResize(_, _) => w.p.chain.None? || w.p.dev.answer(w.p.dev.calls)
    case DoRebuild(_) => w.p.chain.None?
    case DoAttach(surface, _) => !surface
    case _ => true
  }

  ghost predicate AllAnnounced(w: World, steps: seq<Step>) {
    forall k :: 0 <= k < |steps| ==> Announced(Run(w, steps[..k]), steps[k])
  }

  // ----- The invariant

  /** A live object that is neither a published view nor the chain, so no replacement ends it. */
  ghost predicate Lasting(p: Presenter, id: Id) {
    && id in p.dev.live
    && id !in p.ctx.views
    && (p.chain.Some? ==> id != p.chain.value.id)
  }

  /** Published views are alive, over the attached chain or else over one that is gone. */
  ghost predicate PresenterOk(p: Presenter) {
    && Sane(p.dev)
    && p.ctx.generation < GENERATIONS
    && (p.chain.Some? ==> p.chain.value.id in p.dev.live && p.chain.value.id !in p.ctx.views)
    && (forall v :: v in p.ctx.views ==> ViewOk(p, v))
  }

  ghost predicate ViewOk(p: Presenter, v: Id) {
    && v in p.dev.live
    && if p.chain.Some? then p.dev.live[v] == {p.chain.value.id} else !Usable(p.dev, v)
  }

  ghost predicate DepthOk(p: Presenter, s: Depth) {
    && (s.image.Some? <==> s.view.Some?)
    && (s.view.Some? ==>
          && Lasting(p, s.view.value) && Lasting(p, s.image.value.texture)
          && p.dev.live[s.view.value] == {s.image.value.texture})
  }

  /** A framebuffer kept for this image and the current generation: over the image's view if it is
      younger than the latest unannounced step, over no published view at all if it is older. */
  ghost predicate ColorOk(c: Context, last: nat, fb: Framebuffer, image: nat) {
    if fb.id >= last then image < |c.views| && c.views[image] == fb.color else fb.color !in c.views
  }

  ghost predicate ForwardOk(p: Presenter, last: nat, s: Depth, f: Forward) {
    !f.pinned && f.framebuffer.Some? ==>
      var fb := f.framebuffer.value;
      && f.image.Some? && f.generation.Some? && f.depthGeneration.Some? && f.extent == Some(fb.size) && fb.depth.Some?
      && Lasting(p, fb.id) && p.dev.live[fb.id] == {fb.color, fb.depth.value}
      && f.generation.value <= p.ctx.generation && f.depthGeneration.value <= s.generation
      && (f.generation.value == p.ctx.generation ==> ColorOk(p.ctx, last, fb, f.image.value))
      && (f.depthGeneration.value == s.generation ==> s.view == fb.depth)
  }

  ghost predicate CompositeEntryOk(p: Presenter, last: nat, m: Composite, i: nat)
    requires i in m.framebuffers
  {
    var fb := m.framebuffers[i];
    && m.generation.Some? && m.extent == Some(fb.size) && fb.depth.None?
    && Lasting(p, fb.id) && p.dev.live[fb.id] == {fb.color}
    && m.generation.value <= p.ctx.generation
    && (m.generation.value == p.ctx.generation ==> ColorOk(p.ctx, last, fb, i))
  }

  ghost predicate CompositeOk(p: Presenter, last: nat, m: Composite) {
    forall i :: i in m.framebuffers ==> CompositeEntryOk(p, last, m, i)
  }

  ghost predicate Inv(w: World, last: nat) {
    && PresenterOk(w.p) && last <= w.p.dev.calls
    && DepthOk(w.p, w.depth) && ForwardOk(w.p, last, w.depth, w.forward) && CompositeOk(w.p, last, w.composite)
  }

  // ----- What the presenter's steps keep

  /** Whatever lasted before a step still lasts after it, built from the same objects. */
  ghost predicate Keeps(p: Presenter, p': Presenter) {
    forall id :: Lasting(p, id) ==> Lasting(p', id) && p'.dev.live[id] == p.dev.live[id]
  }

  /** The backend refuses nothing. */
  ghost predicate Generous(d: Device) {
    forall n: nat {:trigger d.answer(n)} :: d.answer(n)
  }

  lemma {:induction false} CreatedViews(d: Device, chain: Id, count: nat)
    requires Sane(d) && chain < d.calls
    ensures
      var (views, d') := CreateViews(d, chain, count);
      && Sane(d') && d.calls <= d'.calls && d'.answer == d.answer
      && (forall id :: id in d.live ==> id in d'.live && d'.live[id] == d.live[id])
      && (views.Some? ==> |views.value| == count && forall v :: v in views.value ==>
            d.calls <= v < d'.calls && v in d'.live && d'.live[v] == {chain})
      && (Generous(d) ==> views.Some?)
    decreases count
  {
    if count > 0 { CreatedViews(d, chain, count - 1); }
  }

  /** A chain is attached, and its device knows it. */
  ghost predicate Attached(p: Presenter) {
    && p.chain.Some? && Sane(p.dev) && p.ctx.generation < GENERATIONS
    && p.chain.value.id in p.dev.live && p.chain.value.id !in p.ctx.views
  }

  /** Publishing ends the old views and, when it gets anything, publishes new ones over the chain. */
  lemma PublishFacts(p: Presenter)
    requires Attached(p)
    ensures PresenterOk(Publish(p)) && Publish(p).chain == p.chain && Keeps(p, Publish(p))
    ensures forall v :: v in Publish(p).ctx.views ==> v >= p.dev.calls
    ensures Publish(p).ctx == p.ctx.(views := Publish(p).ctx.views)
    ensures p.dev.calls <= Publish(p).dev.calls && Publish(p).dev.answer == p.dev.answer
    ensures Generous(p.dev) && p.chain.value.shape.hasFormat ==> |Publish(p).ctx.views| == p.chain.value.shape.imageCount
  {
    var d := ReleaseAll(p.dev, p.ctx.views);
    CreatedViews(d, p.chain.value.id, p.chain.value.shape.imageCount);
  }

  lemma RefreshFacts(p: Presenter)
    requires Attached(p)
    ensures
      var p' := Refresh(p);
      && PresenterOk(p') && Attached(p') && p'.chain == p.chain && Keeps(p, p') && p'.ctx.generation == p.ctx.generation
      && p.dev.calls <= p'.dev.calls
      && p'.ctx.presentation == p.chain.value.shape.extent && p'.dev.answer == p.dev.answer
      && (forall v :: v in p'.ctx.views ==> v >= p.dev.calls)
      && (Generous(p.dev) && p.chain.value.shape.hasFormat ==> |p'.ctx.views| == p.chain.value.shape.imageCount)
  {
    PublishFacts(p.(ctx := p.ctx.(presentation := p.chain.value.shape.extent)));
  }

  lemma ReplaceFacts(p: Presenter, shape: Shape)
    requires PresenterOk(p)
    ensures
      var (made, p') := Replace(p, shape);
      && p'.ctx == p.ctx && Sane(p'.dev) && p'.dev.answer == p.dev.answer && p.dev.calls < p'.dev.calls
      && Keeps(p, p')
      && (made.Some? <==> p.dev.answer(p.dev.calls))
      && (made.None? ==> PresenterOk(p') && p'.chain == p.chain)
      && (made.Some? ==> Attached(p') && p'.chain == Some(Chain(made.value, shape)))
  {
    forall v | v in p.ctx.views ensures v < p.dev.calls {}
  }

  /** An unannounced step publishes only views newer than everything before it, and leaves the
      generation alone. */
  lemma UnannouncedFacts(w: World, step: Step)
    requires PresenterOk(w.p) && Unannounced(w, step)
    ensures
      var p' := Next(w, step).p;
      && PresenterOk(p') && Keeps(w.p, p') && p'.chain.Some?
      && w.p.dev.calls <= p'.dev.calls && p'.ctx.generation == w.p.ctx.generation
      && forall v :: v in p'.ctx.views ==> v >= w.p.dev.calls
  {
    var p0 := if step.DoResize? then w.p.(ctx := w.p.ctx.(resolution := AtLeastOne(step.size))) else w.p;
    ReplaceFacts(p0, step.shape);
    var (made, p1) := Replace(p0, step.shape);
    RefreshFacts(p1);
    if step.DoRebuild? && made.Some? { RefreshFacts(Refresh(p1)); }
  }

  /** A resize the backend grants moves the generation on. */
  lemma GrantedResizeFacts(p: Presenter, size: Extent, shape: Shape)
    requires PresenterOk(p) && p.chain.Some? && p.dev.answer(p.dev.calls)
    requires p.ctx.generation + 1 < GENERATIONS
    ensures
      var p' := Resize(p, size, shape);
      && PresenterOk(p') && Keeps(p, p') && p'.chain.Some?
      && p.dev.calls <= p'.dev.calls && p'.ctx.generation == p.ctx.generation + 1
  {
    var p0 := p.(ctx := p.ctx.(resolution := AtLeastOne(size)));
    ReplaceFacts(p0, shape);
    MovedGeneration(Replace(p0, shape).1, p.ctx.generation + 1);
    GrantedResizeIs(p, size, shape);
  }

  lemma GrantedResizeIs(p: Presenter, size: Extent, shape: Shape)
    requires p.chain.Some? && p.dev.answer(p.dev.calls) && p.ctx.generation + 1 < GENERATIONS
    ensures
      var p1 := Replace(p.(ctx := p.ctx.(resolution := AtLeastOne(size))), shape).1;
      Resize(p, size, shape) == Refresh(p1.(ctx := p1.ctx.(generation := p.ctx.generation + 1)))
  {
  }

  lemma MovedGeneration(p: Presenter, generation: nat)
    requires Attached(p) && generation < GENERATIONS
    ensures
      var p' := Refresh(p.(ctx := p.ctx.(generation := generation)));
      && PresenterOk(p') && Keeps(p, p') && p'.chain.Some? && p.dev.calls <= p'.dev.calls && p'.ctx.generation == generation
  {
    RefreshFacts(p.(ctx := p.ctx.(generation := generation)));
  }

  /** A chain the backend refuses to attach has cost the old one: the views stay published over it. */
  lemma RefusedAttachFacts(p: Presenter, shape: Shape)
    requires PresenterOk(p) && !p.dev.answer(p.dev.calls)
    ensures
      var p' := Attach(p, true, shape);
      && PresenterOk(p') && Keeps(p, p') && p'.chain.None? && p'.ctx == p.ctx && p.dev.calls <= p'.dev.calls
  {
  }

  /** Steps that only republish: cached framebuffers are older than the new views. */
  lemma RepublishKeeps(w: World, p': Presenter, last: nat)
    requires Inv(w, last) && PresenterOk(p') && Keeps(w.p, p') && w.p.dev.calls <= p'.dev.calls
    requires p'.ctx.generation == w.p.ctx.generation && forall v :: v in p'.ctx.views ==> v >= w.p.dev.calls
    ensures Inv(w.(p := p'), w.p.dev.calls)
  {
    forall i | i in w.composite.framebuffers ensures CompositeEntryOk(p', w.p.dev.calls, w.composite, i) {
      assert CompositeEntryOk(w.p, last, w.composite, i);
      assert w.composite.framebuffers[i].color in w.p.dev.live[w.composite.framebuffers[i].id];
    }
    if !w.forward.pinned && w.forward.framebuffer.Some? {
      assert w.forward.framebuffer.value.color in w.p.dev.live[w.forward.framebuffer.value.id];
    }
  }

  /** Steps that move the generation: nothing cached is of the new one. */
  lemma AnnouncedKeeps(w: World, p': Presenter, last: nat)
    requires Inv(w, last) && PresenterOk(p') && Keeps(w.p, p') && w.p.dev.calls <= p'.dev.calls
    requires p'.ctx.generation == w.p.ctx.generation + 1
    ensures Inv(w.(p := p'), 0) && Inv(w.(p := p'), last)
  {
    forall i | i in w.composite.framebuffers
      ensures CompositeEntryOk(p', 0, w.composite, i) && CompositeEntryOk(p', last, w.composite, i)
    {
      assert CompositeEntryOk(w.p, last, w.composite, i);
    }
  }

  /** Steps that leave views and generation alone. */
  lemma SameViewsKeep(w: World, p': Presenter, last: nat)
    requires Inv(w, last) && PresenterOk(p') && Keeps(w.p, p') && w.p.dev.calls <= p'.dev.calls
    requires p'.ctx.views == w.p.ctx.views && p'.ctx.generation == w.p.ctx.generation
    ensures Inv(w.(p := p'), last)
  {
    forall i | i in w.composite.framebuffers ensures CompositeEntryOk(p', last, w.composite, i) {
      assert CompositeEntryOk(w.p, last, w.composite, i);
    }
  }

  // ----- What the passes' steps keep

  /** Whatever was alive still is, and whatever is new is younger. */
  ghost predicate Grows(d: Device, d': Device) {
    && Sane(d') && d.calls <= d'.calls
    && (forall id :: id in d.live ==> id in d'.live && d'.live[id] == d.live[id])
    && (forall id :: id in d'.live && id !in d.live ==> id >= d.calls)
  }

  lemma OnlyNewObjects(w: World, p': Presenter, last: nat)
    requires Inv(w, last) && Grows(w.p.dev, p'.dev)
    requires p'.ctx == w.p.ctx.(presentation := p'.ctx.presentation, imageIndex := p'.ctx.imageIndex) && p'.chain == w.p.chain
    ensures Inv(w.(p := p'), last) && Keeps(w.p, p')
  {
    forall v | v in p'.ctx.views ensures ViewOk(p', v) {
      assert ViewOk(w.p, v);
    }
    SameViewsKeep(w, p', last);
  }

  lemma DepthViewFacts(w: World, size: Extent, last: nat)
    requires Inv(w, last)
    ensures
      var (view, s, d) := DepthView(w.depth, w.p.dev, size);
      var w' := w.(depth := s, p := w.p.(dev := d));
      && Inv(w', last) && Grows(w.p.dev, d)
      && (view.Some? ==> s.view == view && s.image.Some? && s.image.value.size == size && Usable(d, view.value))
      && d.answer == w.p.dev.answer
      && (view.None? && size.width != 0 && size.height != 0 ==> RefusedBetween(d, w.p.dev.calls))
  {
    var (view, s, d) := DepthView(w.depth, w.p.dev, size);
    DepthGrows(w.depth, w.p.dev, size);
    OnlyNewObjects(w, w.p.(dev := d), last);
  }

  lemma DepthGrows(s: Depth, d: Device, size: Extent)
    requires Sane(d)
    ensures Grows(d, DepthView(s, d, size).2)
    ensures DepthView(s, d, size).0.None? && DepthStale(s, size) && size.width != 0 && size.height != 0 ==>
      RefusedBetween(DepthView(s, d, size).2, d.calls)
  {
    if size.width != 0 && size.height != 0 && DepthStale(s, size) {
      var (texture, d1) := Create(d, {});
      if texture.Some? {
        var (view, d2) := Create(d1, {texture.value});
      }
    }
  }

  /** One of the creation requests since call number `from` was refused. */
  ghost predicate RefusedBetween(d: Device, from: nat) {
    exists n :: from <= n < d.calls && !d.answer(n)
  }

  /** A framebuffer built now would attach exactly this, and all of it is alive. */
  ghost predicate FreshForward(fb: Framebuffer, c: Context, s: Depth, d: Device) {
    && c.imageIndex < |c.views| && fb.color == c.views[c.imageIndex]
    && fb.size == DrawableSize(c)
    && s.view.Some? && fb.depth == s.view && s.image.Some? && s.image.value.size == fb.size
    && fb.id in d.live && d.live[fb.id] == {fb.color, fb.depth.value}
    && Usable(d, fb.color) && Usable(d, fb.depth.value)
  }

  ghost predicate FreshComposite(fb: Framebuffer, c: Context, d: Device) {
    && c.imageIndex < |c.views| && fb.color == c.views[c.imageIndex]
    && fb.size == DrawableSize(c) && fb.depth == None
    && fb.id in d.live && d.live[fb.id] == {fb.color} && Usable(d, fb.color)
  }

  predicate Drawable(c: Context) {
    c.imageIndex < |c.views| && DrawableSize(c).width != 0 && DrawableSize(c).height != 0
  }

  /** The guard under which the forward pass reuses its framebuffer. */
  predicate ForwardHit(w: World) {
    var size := DrawableSize(w.p.ctx);
    && w.forward.framebuffer.Some?
    && w.forward.image == Some(w.p.ctx.imageIndex)
    && w.forward.generation == Some(w.p.ctx.generation)
    && w.forward.extent == Some(size)
    && !DepthStale(w.depth, size)
    && w.forward.depthGeneration == Some(w.depth.generation)
  }

  /** The guard under which the composite pass reuses the framebuffer of this image. */
  predicate CompositeHit(w: World) {
    && w.composite.generation == Some(w.p.ctx.generation)
    && w.composite.extent == Some(DrawableSize(w.p.ctx))
    && w.p.ctx.imageIndex in w.composite.framebuffers
  }

  /** The forward pass is about to reuse a framebuffer older than device call `last`. */
  predicate ForwardReusesOlder(w: World, last: nat) {
    ForwardHit(w) && w.forward.framebuffer.value.id < last
  }

  predicate CompositeReusesOlder(w: World, last: nat) {
    CompositeHit(w) && w.composite.framebuffers[w.p.ctx.imageIndex].id < last
  }

  /** Dropping what no longer matches leaves only what still does. */
  lemma ForgetFacts(p: Presenter, last: nat, s: Depth, f: Forward, size: Extent)
    requires ForwardOk(p, last, s, f) && !f.pinned
    ensures
      var g := ForgetDepth(ForgetExtent(ForgetGeneration(f, p.ctx.generation), size), s.generation);
      && ForwardOk(p, last, s, g) && !g.pinned
      && g.generation == Some(p.ctx.generation) && g.extent == Some(size) && g.depthGeneration == Some(s.generation)
      && (g.framebuffer.Some? ==> g.framebuffer == f.framebuffer && g.image == f.image)
      && (g.framebuffer.Some? ==> g.framebuffer.value.size == size && g.framebuffer.value.depth == s.view)
  {
  }

  /** The forward pass's answer once the depth view is at hand. */
  lemma ForwardTail(w: World, last: nat, f: Forward)
    requires Inv(w, last) && Drawable(w.p.ctx) && !f.pinned && ForwardOk(w.p, last, w.depth, f)
    requires w.depth.view.Some? && w.depth.image.Some? && w.depth.image.value.size == DrawableSize(w.p.ctx)
    requires f.generation == Some(w.p.ctx.generation) && f.extent == Some(DrawableSize(w.p.ctx)) && f.depthGeneration == Some(w.depth.generation)
    requires !(f.image == Some(w.p.ctx.imageIndex) && f.framebuffer.Some?)
    ensures
      var view := w.p.ctx.views[w.p.ctx.imageIndex];
      var (id, d) := Create(w.p.dev, {view, w.depth.view.value});
      && Inv(w.(p := w.p.(dev := d)), last)
      && (id.Some? ==>
            var fb := Framebuffer(id.value, view, w.depth.view, DrawableSize(w.p.ctx));
            && (FreshForward(fb, w.p.ctx, w.depth, d) <==> w.p.chain.Some?)
            && ForwardOk(w.p.(dev := d), last, w.depth, f.(image := Some(w.p.ctx.imageIndex), framebuffer := Some(fb))))
      && (id.None? ==> RefusedBetween(d, w.p.dev.calls) && ForwardOk(w.p.(dev := d), last, w.depth, f))
  {
    var view := w.p.ctx.views[w.p.ctx.imageIndex];
    assert ViewOk(w.p, view);
    var (id, d) := Create(w.p.dev, {view, w.depth.view.value});
    OnlyNewObjects(w.(forward := f), w.p.(dev := d), last);
    OnlyNewObjects(w, w.p.(dev := d), last);
    assert ViewOk(w.p.(dev := d), view);
  }

  /** What the reuse of a cached framebuffer is worth. */
  lemma ReusedFreshIff(w: World, last: nat)
    requires Inv(w, last) && !w.forward.pinned && ForwardHit(w) && Drawable(w.p.ctx)
    ensures FreshForward(w.forward.framebuffer.value, w.p.ctx, w.depth, w.p.dev)
       <==> w.p.chain.Some? && w.forward.framebuffer.value.id >= last
  {
    assert ViewOk(w.p, w.p.ctx.views[w.p.ctx.imageIndex]);
  }

  /** The forward pass's answer is what building it now would give, unless no chain is attached or
      it reuses a framebuffer older than the latest unannounced step; it has none only when there
      is no image, no size, or a refused creation. */
  lemma ForwardFreshIff(w: World, last: nat)
    requires Inv(w, last) && !w.forward.pinned
    ensures
      var r := Forwarded(w);
      && (r.target.Some? ==> Drawable(w.p.ctx))
      && (r.target.Some? ==>
            (FreshForward(r.target.value, w.p.ctx, r.depth, r.dev) <==> w.p.chain.Some? && !ForwardReusesOlder(w, last)))
      && (r.target.None? && Drawable(w.p.ctx) ==> RefusedBetween(r.dev, w.p.dev.calls))
      && Inv(Resolved(w), last)
  {
    if Drawable(w.p.ctx) {
      var size := DrawableSize(w.p.ctx);
      DepthViewFacts(w, size, last);
      var (view, s, d) := DepthView(w.depth, w.p.dev, size);
      var w1 := w.(depth := s, p := w.p.(dev := d));
      if view.Some? {
        ForgetFacts(w1.p, last, s, w.forward, size);
        var f := ForgetDepth(ForgetExtent(ForgetGeneration(w.forward, w.p.ctx.generation), size), s.generation);
        if f.image == Some(w.p.ctx.imageIndex) && f.framebuffer.Some? {
          assert ForwardHit(w);
          ReusedFreshIff(w, last);
        } else {
          assert !ForwardHit(w);
          ForwardTail(w1, last, f);
        }
      }
    }
  }

  /** The same for the composite pass and its map. */
  lemma CompositeFreshIff(w: World, last: nat)
    requires Inv(w, last)
    ensures
      var r := Composed(w);
      && (w.composite.pinned.None? && r.target.Some? ==> Drawable(w.p.ctx))
      && (w.composite.pinned.None? && r.target.Some? ==>
            (FreshComposite(r.target.value, w.p.ctx, r.dev) <==> w.p.chain.Some? && !CompositeReusesOlder(w, last)))
      && (w.composite.pinned.None? && r.target.None? && Drawable(w.p.ctx) ==> RefusedBetween(r.dev, w.p.dev.calls))
      && Inv(Next(w, DrawComposite), last)
  {
    if w.composite.pinned.None? && Drawable(w.p.ctx) {
      if CompositeHit(w) {
        CompositeReused(w, last);
      } else {
        CompositeMiss(w, last);
      }
    }
  }

  lemma CompositeReused(w: World, last: nat)
    requires Inv(w, last) && w.composite.pinned.None? && Drawable(w.p.ctx) && CompositeHit(w)
    ensures
      var fb := w.composite.framebuffers[w.p.ctx.imageIndex];
      FreshComposite(fb, w.p.ctx, w.p.dev) <==> w.p.chain.Some? && fb.id >= last
    ensures Composed(w) == CompositeResult(Some(w.composite.framebuffers[w.p.ctx.imageIndex]), w.composite, w.p.dev)
  {
    assert CompositeEntryOk(w.p, last, w.composite, w.p.ctx.imageIndex);
    assert ViewOk(w.p, w.p.ctx.views[w.p.ctx.imageIndex]);
  }

  lemma CompositeMiss(w: World, last: nat)
    requires Inv(w, last) && w.composite.pinned.None? && Drawable(w.p.ctx) && !CompositeHit(w)
    ensures
      var r := Composed(w);
      && (r.target.Some? ==> (FreshComposite(r.target.value, w.p.ctx, r.dev) <==> w.p.chain.Some?))
      && (r.target.None? ==> RefusedBetween(r.dev, w.p.dev.calls))
      && Inv(Next(w, DrawComposite), last)
  {
    CompositeBuilt(w, last);
    CompositeEntries(w, last);
    OnlyNewObjects(w, w.p.(dev := Composed(w).dev), last);
  }

  lemma CompositeBuilt(w: World, last: nat)
    requires Inv(w, last) && w.composite.pinned.None? && Drawable(w.p.ctx) && !CompositeHit(w)
    ensures
      var r := Composed(w);
      && Grows(w.p.dev, r.dev)
      && (r.target.Some? ==> (FreshComposite(r.target.value, w.p.ctx, r.dev) <==> w.p.chain.Some?))
      && (r.target.None? ==> RefusedBetween(r.dev, w.p.dev.calls))
  {
    var view := w.p.ctx.views[w.p.ctx.imageIndex];
    assert ViewOk(w.p, view);
    var (id, d) := Create(w.p.dev, {view});
    assert Composed(w).dev == d;
    OnlyNewObjects(w, w.p.(dev := d), last);
    assert ViewOk(w.p.(dev := d), view);
  }

  lemma CompositeEntries(w: World, last: nat)
    requires Inv(w, last) && w.composite.pinned.None? && Drawable(w.p.ctx) && !CompositeHit(w)
    ensures CompositeOk(Next(w, DrawComposite).p, last, Next(w, DrawComposite).composite)
  {
    var view := w.p.ctx.views[w.p.ctx.imageIndex];
    assert ViewOk(w.p, view);
    var (id, d) := Create(w.p.dev, {view});
    OnlyNewObjects(w, w.p.(dev := d), last);
    var m := ForgetChain(w.composite, w.p.ctx.generation, DrawableSize(w.p.ctx));
    var v := Next(w, DrawComposite);
    forall i | i in v.composite.framebuffers ensures CompositeEntryOk(v.p, last, v.composite, i) {
      if i in m.framebuffers {
        assert CompositeEntryOk(w.p.(dev := d), last, w.composite, i);
      }
    }
  }

  // ----- Every run

  /** Every step, refused or granted, announced or not, keeps the invariant. */
  lemma StepKeepsInv(w: World, last: nat, step: Step)
    requires Inv(w, last) && w.p.ctx.generation + 1 < GENERATIONS
    ensures Inv(Next(w, step), LastAfter(w, last, step))
    ensures Next(w, step).p.ctx.generation <= w.p.ctx.generation + 1
  {
    if Unannounced(w, step) {
      UnannouncedFacts(w, step);
      RepublishKeeps(w, Next(w, step).p, last);
    } else {
      match step
      case DoAcquire(index) => OnlyNewObjects(w, Acquire(w.p, index), last);
      case DoResize(size, shape) => ResizeKeepsInv(w, last, size, shape);
      case DoRebuild(shape) =>
      case DoAttach(surface, shape) =>
        if surface {
          RefusedAttachFacts(w.p, shape);
          SameViewsKeep(w, Next(w, step).p, last);
        }
      case OtherDepthUser(size) => DepthViewFacts(w, size, last);
      case DrawForward(accepted) => DrawKeepsInv(w, last, accepted);
      case DrawComposite => CompositeFreshIff(w, last);
      case DoPinForward(framebuffer) =>
      case DoPinComposite(framebuffer) => PinCompositeKeeps(w, last, framebuffer);
    }
  }

  lemma DrawKeepsInv(w: World, last: nat, accepted: bool)
    requires Inv(w, last)
    ensures Inv(Next(w, DrawForward(accepted)), last)
  {
    if !w.forward.pinned { ForwardFreshIff(w, last); }
    var v := Resolved(w);
    assert Inv(v.(depth := v.depth.(written := true)), last);
  }

  lemma ResizeKeepsInv(w: World, last: nat, size: Extent, shape: Shape)
    requires Inv(w, last) && !Unannounced(w, DoResize(size, shape)) && w.p.ctx.generation + 1 < GENERATIONS
    ensures Inv(Next(w, DoResize(size, shape)), last)
    ensures w.p.chain.Some? ==> Inv(Next(w, DoResize(size, shape)), 0)
    ensures Next(w, DoResize(size, shape)).p.ctx.generation <= w.p.ctx.generation + 1
  {
    var p' := Resize(w.p, size, shape);
    if w.p.chain.Some? {
      GrantedResizeFacts(w.p, size, shape);
      AnnouncedKeeps(w, p', last);
    } else {
      forall v | v in p'.ctx.views ensures ViewOk(p', v) {
        assert ViewOk(w.p, v);
      }
      SameViewsKeep(w, p', last);
    }
  }

  lemma PinCompositeKeeps(w: World, last: nat, framebuffer: Option<Framebuffer>)
    requires Inv(w, last)
    ensures Inv(Next(w, DoPinComposite(framebuffer)), last)
  {
    var m := w.composite.(pinned := framebuffer);
    forall i | i in m.framebuffers ensures CompositeEntryOk(w.p, last, m, i) {
      assert CompositeEntryOk(w.p, last, w.composite, i);
    }
  }

  lemma {:induction false} RunKeepsInv(w: World, last: nat, steps: seq<Step>)
    requires Inv(w, last) && w.p.ctx.generation + |steps| < GENERATIONS
    ensures Inv(Run(w, steps), Last(w, last, steps))
    ensures Run(w, steps).p.ctx.generation <= w.p.ctx.generation + |steps|
  {
    if steps != [] {
      var before := steps[..|steps| - 1];
      RunKeepsInv(w, last, before);
      StepKeepsInv(Run(w, before), Last(w, last, before), steps[|steps| - 1]);
    }
  }

  /** Whatever either pass answers unpinned is fresh exactly when a chain is attached and the pass
      does not reuse a framebuffer older than device call `last`. */
  ghost predicate AnswersFreshIff(v: World, last: nat) {
    var f, m := Forwarded(v), Composed(v);
    && (!v.forward.pinned && f.target.Some? ==>
          (FreshForward(f.target.value, v.p.ctx, f.depth, f.dev) <==> v.p.chain.Some? && !ForwardReusesOlder(v, last)))
    && (v.composite.pinned.None? && m.target.Some? ==>
          (FreshComposite(m.target.value, v.p.ctx, m.dev) <==> v.p.chain.Some? && !CompositeReusesOlder(v, last)))
  }

  /** The exact condition over every run of fewer than 2^64 steps, whatever the steps are and
      whatever the backend refuses. */
  lemma FreshIffNotReusedOlder(w: World, last: nat, steps: seq<Step>)
    requires Inv(w, last) && w.p.ctx.generation + |steps| < GENERATIONS
    ensures AnswersFreshIff(Run(w, steps), Last(w, last, steps))
  {
    RunKeepsInv(w, last, steps);
    var v := Run(w, steps);
    if !v.forward.pinned { ForwardFreshIff(v, Last(w, last, steps)); }
    CompositeFreshIff(v, Last(w, last, steps));
  }

  ghost predicate AllFresh(v: World) {
    && (!v.forward.pinned && Forwarded(v).target.Some? ==>
          FreshForward(Forwarded(v).target.value, v.p.ctx, Forwarded(v).depth, Forwarded(v).dev))
    && (v.composite.pinned.None? && Composed(v).target.Some? ==>
          FreshComposite(Composed(v).target.value, v.p.ctx, Composed(v).dev))
  }

  ghost predicate NoneFresh(v: World) {
    && (!v.forward.pinned && Forwarded(v).target.Some? ==>
          !FreshForward(Forwarded(v).target.value, v.p.ctx, Forwarded(v).depth, Forwarded(v).dev))
    && (v.composite.pinned.None? && Composed(v).target.Some? ==>
          !FreshComposite(Composed(v).target.value, v.p.ctx, Composed(v).dev))
  }

  /** A chain is attached, or nothing has been published yet. */
  predicate Published(w: World) {
    w.p.chain.Some? || w.p.ctx.views == []
  }

  lemma {:induction false} AnnouncedStaysPublished(w: World, steps: seq<Step>)
    requires Published(w) && AllAnnounced(w, steps)
    ensures Published(Run(w, steps)) && Last(w, 0, steps) == 0
  {
    if steps != [] {
      var k := |steps| - 1;
      var before := steps[..k];
      assert forall j :: 0 <= j < k ==> before[..j] == steps[..j];
      AnnouncedStaysPublished(w, before);
      AnnouncedStep(Run(w, before), steps[k]);
    }
  }

  lemma AnnouncedStep(w: World, step: Step)
    requires Published(w) && Announced(w, step)
    ensures Published(Next(w, step))
    ensures LastAfter(w, 0, step) == 0
  {
  }

  /** Safety over every run whose chain replacements are successful resizes: no answer is stale. */
  lemma CachesAlwaysFresh(w: World, steps: seq<Step>)
    requires Inv(w, 0) && Published(w) && AllAnnounced(w, steps) && w.p.ctx.generation + |steps| < GENERATIONS
    ensures AllFresh(Run(w, steps))
  {
    FreshIffNotReusedOlder(w, 0, steps);
    AnnouncedStaysPublished(w, steps);
  }

  /** A resize that succeeds undoes whatever came before it: no later answer of such a run is stale. */
  lemma ResizeHeals(w: World, last: nat, size: Extent, shape: Shape, steps: seq<Step>)
    requires Inv(w, last) && w.p.chain.Some? && w.p.dev.answer(w.p.dev.calls)
    requires w.p.ctx.generation + 1 + |steps| < GENERATIONS && AllAnnounced(Next(w, DoResize(size, shape)), steps)
    ensures AllFresh(Run(Next(w, DoResize(size, shape)), steps))
  {
    ResizeKeepsInv(w, last, size, shape);
    GrantedResizeFacts(w.p, size, shape);
    CachesAlwaysFresh(Next(w, DoResize(size, shape)), steps);
  }

  // ----- Attaching

  predicate GrantedAttach(w: World, step: Step) {
    step.DoAttach? && step.surface && w.p.dev.answer(w.p.dev.calls)
  }

  ghost predicate NoGrantedAttach(w: World, steps: seq<Step>) {
    forall k :: 0 <= k < |steps| ==> !GrantedAttach(Run(w, steps[..k]), steps[k])
  }

  lemma {:induction false} StaysDetached(w: World, steps: seq<Step>)
    requires w.p.chain.None? && NoGrantedAttach(w, steps)
    ensures Run(w, steps).p.chain.None?
  {
    if steps != [] {
      var k := |steps| - 1;
      var before := steps[..k];
      assert forall j :: 0 <= j < k ==> before[..j] == steps[..j];
      StaysDetached(w, before);
      DetachedStep(Run(w, before), steps[k]);
    }
  }

  lemma DetachedStep(w: World, step: Step)
    requires w.p.chain.None? && !GrantedAttach(w, step)
    ensures Next(w, step).p.chain.None?
  {
  }

  /** An attach whose chain the backend refuses leaves views over a destroyed chain: until an attach
      is granted no answer is fresh, whatever else happens. */
  lemma RefusedAttachNeverFresh(w: World, last: nat, shape: Shape, steps: seq<Step>)
    requires Inv(w, last) && !w.p.dev.answer(w.p.dev.calls)
    requires w.p.ctx.generation + 1 + |steps| < GENERATIONS && NoGrantedAttach(Next(w, DoAttach(true, shape)), steps)
    ensures NoneFresh(Run(Next(w, DoAttach(true, shape)), steps))
  {
    StepKeepsInv(w, last, DoAttach(true, shape));
    var w1 := Next(w, DoAttach(true, shape));
    FreshIffNotReusedOlder(w1, last, steps);
    StaysDetached(w1, steps);
  }

  /** A window with no chain yet. */
  predicate Blank(w: World) {
    && w.p.chain.None? && w.p.ctx.views == [] && w.p.ctx.generation == 0 && w.p.dev.live == map[]
    && w.depth == NEW_DEPTH && w.forward == NEW_FORWARD && w.composite == NEW_COMPOSITE
  }

  /** The first attach finds empty caches, so safe runs may start from it, granted or refused. */
  lemma FirstAttachOk(w: World, shape: Shape)
    requires Blank(w)
    ensures Inv(w, 0) && Inv(Next(w, DoAttach(true, shape)), 0) && Published(Next(w, DoAttach(true, shape)))
  {
    StepKeepsInv(w, 0, DoAttach(true, shape));
    if w.p.dev.answer(w.p.dev.calls) { UnannouncedFacts(w, DoAttach(true, shape)); }
  }

  // ----- Pins

  predicate PinsForward(step: Step) {
    step.DoPinForward?
  }

  predicate PinsComposite(step: Step) {
    step.DoPinComposite?
  }

  /** While a framebuffer is pinned the forward pass answers with it, whatever the renderer does,
      and asks nothing of the device or of the shared depth. */
  lemma {:induction false} PinnedForwardAnswers(w: World, fb: Framebuffer, steps: seq<Step>)
    requires forall k :: 0 <= k < |steps| ==> !PinsForward(steps[k])
    ensures
      var v := Run(Next(w, DoPinForward(Some(fb))), steps);
      Forwarded(v) == ForwardResult(Some(fb), v.forward, v.depth, v.p.dev) && v.forward == PinForward(w.forward, Some(fb))
  {
    if steps != [] {
      PinnedForwardAnswers(w, fb, steps[..|steps| - 1]);
    }
  }

  lemma {:induction false} PinnedCompositeAnswers(w: World, fb: Framebuffer, steps: seq<Step>)
    requires forall k :: 0 <= k < |steps| ==> !PinsComposite(steps[k])
    ensures
      var v := Run(Next(w, DoPinComposite(Some(fb))), steps);
      Composed(v) == CompositeResult(Some(fb), v.composite, v.p.dev) && v.composite == w.composite.(pinned := Some(fb))
  {
    if steps != [] {
      PinnedCompositeAnswers(w, fb, steps[..|steps| - 1]);
    }
  }

  /** Taking the pin away empties the forward cache, so the next answer is built now even where a
      framebuffer from before the pin would have been served stale. */
  lemma UnpinnedBuildsAnew(w: World, last: nat)
    requires Inv(w, last)
    ensures
      var v := Next(w, DoPinForward(None));
      var r := Forwarded(v);
      && Inv(v, last)
      && (r.target.Some? ==> (FreshForward(r.target.value, v.p.ctx, r.depth, r.dev) <==> v.p.chain.Some?))
      && (r.target.None? && Drawable(v.p.ctx) ==> RefusedBetween(r.dev, v.p.dev.calls))
  {
    ForwardFreshIff(Next(w, DoPinForward(None)), last);
  }
}
