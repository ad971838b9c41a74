/** The geometry pass beside the renderer that replaces the chain under it: over every run, when an
    answer carries the acquired image's view and when it does not. */
module GeometryHistory {
  import opened Basics
  import opened Devices
  import opened Targets
  import opened TargetSafety
  import TargetFailures
  import opened GeometryTargets

  /** The chain's own view of each of its images, and the chain a view belongs to. */
  datatype RawViews = RawViews(view: (Id, nat) -> nat, owner: nat -> Id)

  /** No view belongs to two chains. */
  ghost predicate OwnViews(raw: RawViews) {
    forall chain: Id, i: nat :: raw.owner(raw.view(chain, i)) == chain
  }

  datatype Scene = Scene(world: World, pass: Geometry)

  datatype SceneStep =
    | Render(step: Step)
    | DrawGeometry(index: nat)
    | PinGeometry(framebuffer: Option<Framebuffer>)
    | UnpinGeometry

  function RawOf(raw: RawViews, chain: Id, count: nat): (r: seq<nat>)
    ensures |r| == count && forall i: nat :: i < count ==> r[i] == raw.view(chain, i)
  {
    if count == 0 then [] else RawOf(raw, chain, count - 1) + [raw.view(chain, count - 1)]
  }

  /** What acquiring an image publishes for the pass; without a chain there is neither view nor format. */
  function FrameOf(raw: RawViews, p: Presenter): Frame {
    Frame(p.ctx.imageIndex,
      if p.chain.Some? then RawOf(raw, p.chain.value.id, p.chain.value.shape.imageCount) else [],
      p.chain.Some? && p.chain.value.shape.hasFormat,
      p.ctx.presentation, p.ctx.generation)
  }

  function Acquired(raw: RawViews, s: Scene, index: nat): Frame {
    FrameOf(raw, Acquire(s.world.p, index))
  }

  /** The pass's part of a frame: acquire, then resolve. */
  function Answer(raw: RawViews, s: Scene, index: nat): (Option<Framebuffer>, Geometry, Device) {
    Resolve(s.pass, Acquired(raw, s, index), s.world.p.dev)
  }

  function Advance(raw: RawViews, s: Scene, step: SceneStep): Scene {
    match step
    case Render(step) => s.(world := Next(s.world, step))
    case DrawGeometry(index) =>
      var (_, g, d) := Answer(raw, s, index);
      Scene(s.world.(p := Acquire(s.world.p, index).(dev := d)), g)
    case PinGeometry(framebuffer) => s.(pass := Pin(s.pass, framebuffer))
    case UnpinGeometry => s.(pass := ClearPin(s.pass))
  }

  function Play(raw: RawViews, s: Scene, steps: seq<SceneStep>): Scene {
    if steps == [] then s else Advance(raw, Play(raw, s, steps[..|steps| - 1]), steps[|steps| - 1])
  }

  /** The step replaces the chain without moving the generation. */
  predicate ReplacesSilently(s: Scene, step: SceneStep) {
    && step.Render?
    && s.world.p.dev.answer(s.world.p.dev.calls)
    && match step.step
       case DoRebuild(_) => s.world.p.chain.Some?
       case DoAttach(surface, _) => surface
       case _ => false
  }

  /** The number of device calls made before the latest such step. */
  function LastReplaced(raw: RawViews, s: Scene, last: nat, steps: seq<SceneStep>): nat {
    if steps == [] then last
    else
      var before := Play(raw, s, steps[..|steps| - 1]);
      if ReplacesSilently(before, steps[|steps| - 1]) then before.world.p.dev.calls
      else LastReplaced(raw, s, last, steps[..|steps| - 1])
  }

  // ----- The invariant

  /** A framebuffer kept for an image is over a view of a chain made before the device's next call; if
      its generation is the current one, over the attached chain's when it is younger than the latest
      silent replacement, and over none of them when it is older. */
  ghost predicate CachedOk(raw: RawViews, p: Presenter, g: Geometry, last: nat) {
    g.image.Some? ==>
      && !g.pinned && g.framebuffer.Some? && g.generation.Some? && g.extent.Some?
      && var fb := g.framebuffer.value;
      && fb.id < p.dev.calls && fb.size == g.extent.value && fb.depth == g.depthView
      && (g.hasDepth ==> g.depth.Some? && g.depth.value.size == fb.size)
      && raw.owner(fb.color) < p.dev.calls
      && g.generation.value <= p.ctx.generation
      && (g.generation.value == p.ctx.generation && p.chain.Some? ==>
            var views := RawOf(raw, p.chain.value.id, p.chain.value.shape.imageCount);
            if fb.id >= last then g.image.value < |views| && views[g.image.value] == fb.color else fb.color !in views)
  }

  ghost predicate SceneOk(raw: RawViews, s: Scene, last: nat) {
    && s.world.p.ctx.generation < GENERATIONS && last <= s.world.p.dev.calls
    && (s.world.p.chain.Some? ==> s.world.p.chain.value.id < s.world.p.dev.calls)
    && (!s.pass.hasDepth ==> s.pass.depthView.None?)
    && CachedOk(raw, s.world.p, s.pass, last)
  }

  // ----- What the renderer's steps do to the chain

  lemma {:induction false} ViewsAskTheDevice(d: Device, chain: Id, count: nat)
    ensures CreateViews(d, chain, count).1.calls >= d.calls
    decreases count
  {
    if count > 0 { ViewsAskTheDevice(d, chain, count - 1); }
  }

  lemma RefreshKeepsChain(p: Presenter)
    ensures
      var p' := Refresh(p);
      p'.chain == p.chain && p'.ctx.generation == p.ctx.generation && p'.dev.calls >= p.dev.calls
  {
    if p.chain.Some? {
      ViewsAskTheDevice(ReleaseAll(p.dev, p.ctx.views), p.chain.value.id, p.chain.value.shape.imageCount);
    }
  }

  /** The chain stays, or is lost, or is one made during the step. */
  ghost predicate ChainMoves(p: Presenter, p': Presenter, silently: bool) {
    && p.dev.calls <= p'.dev.calls
    && if p'.chain == p.chain then p'.ctx.generation == p.ctx.generation && !silently
       else if p'.chain.None? then p'.ctx.generation == p.ctx.generation && !silently
       else
         && p'.chain.value.id == p.dev.calls < p'.dev.calls
         && p'.ctx.generation == p.ctx.generation + (if silently then 0 else 1)
  }

  lemma ReplaceMoves(p: Presenter, shape: Shape)
    ensures
      var (made, p') := Replace(p, shape);
      && p'.ctx == p.ctx && p'.dev.calls == p.dev.calls + 1
      && (made.Some? <==> p.dev.answer(p.dev.calls))
      && p'.chain == (if made.Some? then Some(Chain(p.dev.calls, shape)) else p.chain)
  {
  }

  lemma RenderMoves(s: Scene, step: Step)
    requires s.world.p.ctx.generation + 1 < GENERATIONS
    requires s.world.p.chain.Some? ==> s.world.p.chain.value.id < s.world.p.dev.calls
    ensures ChainMoves(s.world.p, Next(s.world, step).p, ReplacesSilently(s, Render(step)))
  {
    var p := s.world.p;
    match step
    case DoResize(size, shape) => ResizeMoves(p, size, shape);
    case DoRebuild(shape) => RebuildMoves(p, shape);
    case DoAttach(surface, shape) => AttachMoves(p, surface, shape);
    case DoAcquire(index) =>
    case OtherDepthUser(size) =>
    case DrawForward(accepted) => ForwardAsks(s.world);
    case DrawComposite =>
    case DoPinForward(framebuffer) =>
    case DoPinComposite(framebuffer) =>
  }

  lemma ResizeMoves(p: Presenter, size: Extent, shape: Shape)
    requires p.ctx.generation + 1 < GENERATIONS && (p.chain.Some? ==> p.chain.value.id < p.dev.calls)
    ensures ChainMoves(p, Resize(p, size, shape), false)
  {
    var p0 := p.(ctx := p.ctx.(resolution := AtLeastOne(size)));
    ReplaceMoves(p0, shape);
    var (made, p1) := Replace(p0, shape);
    RefreshKeepsChain(if made.Some? then p1.(ctx := p1.ctx.(generation := (p1.ctx.generation + 1) % GENERATIONS)) else p1);
  }

  lemma RebuildMoves(p: Presenter, shape: Shape)
    requires p.chain.Some? ==> p.chain.value.id < p.dev.calls
    ensures ChainMoves(p, Rebuild(p, shape), p.chain.Some? && p.dev.answer(p.dev.calls))
  {
    ReplaceMoves(p, shape);
    var (made, p1) := Replace(p, shape);
    RefreshKeepsChain(p1);
    RefreshKeepsChain(Refresh(p1));
  }

  lemma AttachMoves(p: Presenter, surface: bool, shape: Shape)
    requires p.chain.Some? ==> p.chain.value.id < p.dev.calls
    ensures ChainMoves(p, Attach(p, surface, shape), surface && p.dev.answer(p.dev.calls))
  {
    ReplaceMoves(p, shape);
    RefreshKeepsChain(Replace(p, shape).1);
  }

  lemma ForwardAsks(w: World)
    ensures Forwarded(w).dev.calls >= w.p.dev.calls
  {
  }

  // ----- One step

  lemma RenderKeeps(raw: RawViews, s: Scene, last: nat, step: Step)
    requires OwnViews(raw) && SceneOk(raw, s, last) && s.world.p.ctx.generation + 1 < GENERATIONS
    ensures
      var s' := Advance(raw, s, Render(step));
      SceneOk(raw, s', if ReplacesSilently(s, Render(step)) then s.world.p.dev.calls else last)
  {
    RenderMoves(s, step);
    var p, p' := s.world.p, Next(s.world, step).p;
    if s.pass.image.Some? && p'.chain != p.chain && p'.chain.Some? {
      NotOverAnother(raw, s.pass.framebuffer.value.color, p'.chain.value.id, p'.chain.value.shape.imageCount);
    }
  }

  lemma NotOverAnother(raw: RawViews, color: nat, chain: Id, count: nat)
    requires OwnViews(raw) && raw.owner(color) != chain
    ensures color !in RawOf(raw, chain, count)
  {
    var views := RawOf(raw, chain, count);
    forall k: nat | k < |views| ensures views[k] != color {}
  }

  /** The pass is about to reuse a framebuffer older than device call `last`. */
  predicate ReusesOlder(g: Geometry, c: Frame, last: nat) {
    Reusable(g, c) && g.framebuffer.Some? && g.framebuffer.value.id < last
  }

  lemma AcquireKeeps(raw: RawViews, s: Scene, last: nat, index: nat)
    requires SceneOk(raw, s, last)
    ensures SceneOk(raw, s.(world := s.world.(p := Acquire(s.world.p, index))), last)
    ensures Acquire(s.world.p, index).dev == s.world.p.dev
  {
  }

  /** An unpinned answer carries the acquired image's view, the frame's size and the pass's depth
      view of that size exactly when a chain is attached and no older framebuffer is reused. */
  lemma AnswerCurrentIff(raw: RawViews, s: Scene, last: nat, index: nat)
    requires OwnViews(raw) && SceneOk(raw, s, last) && !s.pass.pinned
    ensures
      var c := Acquired(raw, s, index);
      var (fb, g, d) := Answer(raw, s, index);
      && SceneOk(raw, Advance(raw, s, DrawGeometry(index)), last)
      && (fb.Some? ==> (Current(fb.value, g, c) <==> s.world.p.chain.Some? && !ReusesOlder(s.pass, c, last)))
  {
    AcquireKeeps(raw, s, last, index);
    var c := Acquired(raw, s, index);
    if !Reusable(s.pass, c) {
      BuiltKeeps(raw, s, last, index);
    }
  }

  lemma BuiltKeeps(raw: RawViews, s: Scene, last: nat, index: nat)
    requires OwnViews(raw) && SceneOk(raw, s, last) && !s.pass.pinned && !Reusable(s.pass, Acquired(raw, s, index))
    ensures
      var c := Acquired(raw, s, index);
      var (fb, g, d) := Answer(raw, s, index);
      && SceneOk(raw, Advance(raw, s, DrawGeometry(index)), last)
      && (fb.Some? ==> Current(fb.value, g, c) && s.world.p.chain.Some?)
  {
    var p := Acquire(s.world.p, index);
    var c := FrameOf(raw, p);
    if c.imageIndex < |c.rawViews| && c.hasFormat {
      if Stale(s.pass, c) {
        DepthBuilt(s.pass, c, p.dev);
        var (ok, g1, d1) := ReplaceDepth(s.pass, c, p.dev);
        if ok { FramebufferKeeps(raw, p.(dev := d1), g1, last); }
      } else {
        FramebufferKeeps(raw, p, s.pass, last);
      }
    }
  }

  lemma DepthBuilt(g: Geometry, c: Frame, d: Device)
    requires !g.pinned && g.hasDepth
    ensures
      var (ok, g', d') := ReplaceDepth(g, c, d);
      && g'.hasDepth && !g'.pinned && g'.image.None? && d.calls <= d'.calls
      && (ok ==> g'.depth.Some? && g'.depth.value.size == c.extent)
  {
  }

  lemma FramebufferKeeps(raw: RawViews, p: Presenter, g: Geometry, last: nat)
    requires OwnViews(raw) && !g.pinned && last <= p.dev.calls && CachedOk(raw, p, g, last)
    requires p.chain.Some? && p.chain.value.id < p.dev.calls && (!g.hasDepth ==> g.depthView.None?)
    requires FrameOf(raw, p).imageIndex < |FrameOf(raw, p).rawViews| && !Stale(g, FrameOf(raw, p))
    ensures
      var c := FrameOf(raw, p);
      var (fb, g', d) := ReplaceFramebuffer(g, c, p.dev);
      && CachedOk(raw, p.(dev := d), g', last) && p.dev.calls <= d.calls
      && g'.hasDepth == g.hasDepth && g'.depthView == g.depthView
      && (fb.Some? ==> Current(fb.value, g', c))
  {
    var (fb, g', d) := ReplaceFramebuffer(g, FrameOf(raw, p), p.dev);
    if fb.Some? {
      assert fb.value.color == raw.view(p.chain.value.id, p.ctx.imageIndex);
    }
  }

  lemma StepKeeps(raw: RawViews, s: Scene, last: nat, step: SceneStep)
    requires OwnViews(raw) && SceneOk(raw, s, last) && s.world.p.ctx.generation + 1 < GENERATIONS
    ensures SceneOk(raw, Advance(raw, s, step), if ReplacesSilently(s, step) then s.world.p.dev.calls else last)
    ensures Advance(raw, s, step).world.p.ctx.generation <= s.world.p.ctx.generation + 1
  {
    match step
    case Render(step) =>
      RenderMoves(s, step);
      RenderKeeps(raw, s, last, step);
    case DrawGeometry(index) =>
      AcquireKeeps(raw, s, last, index);
      if !s.pass.pinned { AnswerCurrentIff(raw, s, last, index); }
    case PinGeometry(framebuffer) =>
    case UnpinGeometry =>
  }

  // ----- Every run

  lemma {:induction false} PlayKeeps(raw: RawViews, s: Scene, last: nat, steps: seq<SceneStep>)
    requires OwnViews(raw) && SceneOk(raw, s, last) && s.world.p.ctx.generation + |steps| < GENERATIONS
    ensures SceneOk(raw, Play(raw, s, steps), LastReplaced(raw, s, last, steps))
    ensures Play(raw, s, steps).world.p.ctx.generation <= s.world.p.ctx.generation + |steps|
  {
    if steps != [] {
      var before := steps[..|steps| - 1];
      PlayKeeps(raw, s, last, before);
      StepKeeps(raw, Play(raw, s, before), LastReplaced(raw, s, last, before), steps[|steps| - 1]);
    }
  }

  /** The exact condition over every run of fewer than 2^64 steps, pins and every renderer step
      included: an unpinned answer is current exactly when a chain is attached and the framebuffer
      reused, if one is, is younger than the latest chain that came without a new generation. */
  lemma CurrentIffNotReusedOlder(raw: RawViews, s: Scene, last: nat, steps: seq<SceneStep>, index: nat)
    requires OwnViews(raw) && SceneOk(raw, s, last) && s.world.p.ctx.generation + |steps| < GENERATIONS
    ensures
      var v := Play(raw, s, steps);
      var c := Acquired(raw, v, index);
      var (fb, g, d) := Answer(raw, v, index);
      !v.pass.pinned && fb.Some? ==>
        (Current(fb.value, g, c) <==>
          v.world.p.chain.Some? && !ReusesOlder(v.pass, c, LastReplaced(raw, s, last, steps)))
  {
    PlayKeeps(raw, s, last, steps);
    var v := Play(raw, s, steps);
    if !v.pass.pinned { AnswerCurrentIff(raw, v, LastReplaced(raw, s, last, steps), index); }
  }

  /** No chain comes without a new generation, and none is lost. */
  predicate Ordinary(s: Scene, step: SceneStep) {
    step.Render? ==> Announced(s.world, step.step)
  }

  ghost predicate AllOrdinary(raw: RawViews, s: Scene, steps: seq<SceneStep>) {
    forall k :: 0 <= k < |steps| ==> Ordinary(Play(raw, s, steps[..k]), steps[k])
  }

  lemma {:induction false} OrdinaryKeepsChain(raw: RawViews, s: Scene, steps: seq<SceneStep>)
    requires s.world.p.chain.Some? && AllOrdinary(raw, s, steps)
    ensures Play(raw, s, steps).world.p.chain.Some? && LastReplaced(raw, s, 0, steps) == 0
  {
    if steps != [] {
      var k := |steps| - 1;
      var before := steps[..k];
      assert forall j :: 0 <= j < k ==> before[..j] == steps[..j];
      OrdinaryKeepsChain(raw, s, before);
      OrdinaryStep(raw, Play(raw, s, before), steps[k]);
    }
  }

  lemma OrdinaryStep(raw: RawViews, s: Scene, step: SceneStep)
    requires s.world.p.chain.Some? && Ordinary(s, step)
    ensures Advance(raw, s, step).world.p.chain.Some? && !ReplacesSilently(s, step)
  {
  }

  /** A pass that has not drawn yet beside a renderer with a chain, then any run whose chain
      replacements are successful resizes: every unpinned answer is current. */
  lemma EveryAnswerCurrent(raw: RawViews, w: World, hasDepth: bool, steps: seq<SceneStep>, index: nat)
    requires OwnViews(raw) && w.p.chain.Some? && w.p.chain.value.id < w.p.dev.calls
    requires w.p.ctx.generation + |steps| < GENERATIONS
    requires AllOrdinary(raw, Scene(w, NewGeometry(hasDepth)), steps)
    ensures
      var v := Play(raw, Scene(w, NewGeometry(hasDepth)), steps);
      var (fb, g, d) := Answer(raw, v, index);
      !v.pass.pinned && fb.Some? ==> Current(fb.value, g, Acquired(raw, v, index))
  {
    var s := Scene(w, NewGeometry(hasDepth));
    CurrentIffNotReusedOlder(raw, s, 0, steps, index);
    OrdinaryKeepsChain(raw, s, steps);
  }

  /** A chain that comes at the same size without a new generation: the framebuffer drawn into
      before it is served again, over a view the new chain does not have. */
  lemma SilentReplacementServesOld(raw: RawViews, s: Scene, last: nat, index: nat, step: Step)
    requires OwnViews(raw) && SceneOk(raw, s, last) && !s.pass.pinned && Answer(raw, s, index).0.Some?
    requires s.world.p.ctx.generation + 1 < GENERATIONS && s.world.p.chain.Some?
    requires ReplacesSilently(Advance(raw, s, DrawGeometry(index)), Render(step))
    requires step.shape.extent == Acquired(raw, s, index).extent
    ensures
      var v := Advance(raw, Advance(raw, s, DrawGeometry(index)), Render(step));
      && Answer(raw, v, index).0 == Answer(raw, s, index).0
      && !Current(Answer(raw, v, index).0.value, Answer(raw, v, index).1, Acquired(raw, v, index))
  {
    var drawn := Advance(raw, s, DrawGeometry(index));
    AnswerCurrentIff(raw, s, last, index);
    AnswerCached(raw, s, last, index);
    RenderMoves(drawn, step);
    RenderKeeps(raw, drawn, last, step);
    var v := Advance(raw, drawn, Render(step));
    assert v.pass == drawn.pass;
    ShapeAttached(drawn, step);
    assert Reusable(v.pass, Acquired(raw, v, index));
    AnswerCurrentIff(raw, v, drawn.world.p.dev.calls, index);
  }

  lemma AnswerCached(raw: RawViews, s: Scene, last: nat, index: nat)
    requires SceneOk(raw, s, last) && !s.pass.pinned && Answer(raw, s, index).0.Some?
    ensures
      var v, c := Advance(raw, s, DrawGeometry(index)), Acquired(raw, s, index);
      && v.pass.framebuffer == Answer(raw, s, index).0 && v.pass.image == Some(c.imageIndex)
      && v.pass.extent == Some(c.extent) && v.pass.generation == Some(c.generation) && !v.pass.pinned
      && v.world.p.ctx.generation == c.generation
  {
    FrameAnswers(s.pass, Acquired(raw, s, index), s.world.p.dev);
  }

  lemma ShapeAttached(s: Scene, step: Step)
    requires ReplacesSilently(s, Render(step))
    ensures Next(s.world, step).p.chain.Some? && Next(s.world, step).p.chain.value.shape == step.shape
  {
  }

  /** Attach, draw, rebuild at the same size, draw: for every shape of chain, with or without depth,
      the second frame of the geometry pass goes into the framebuffer over the first chain's view. */
  lemma RebuildServesOld(raw: RawViews, w: World, shape: Shape, hasDepth: bool, index: nat)
    requires OwnViews(raw) && Blank(w) && Generous(w.p.dev) && shape.hasFormat && index < shape.imageCount
    ensures
      var first := Scene(Next(w, DoAttach(true, shape)), NewGeometry(hasDepth));
      var second := Advance(raw, Advance(raw, first, DrawGeometry(index)), Render(DoRebuild(shape)));
      && Answer(raw, first, index).0.Some?
      && Answer(raw, second, index).0 == Answer(raw, first, index).0
      && !Current(Answer(raw, second, index).0.value, Answer(raw, second, index).1, Acquired(raw, second, index))
  {
    var first := Scene(Next(w, DoAttach(true, shape)), NewGeometry(hasDepth));
    AttachedFirst(w, shape);
    GrantedAnswer(NewGeometry(hasDepth), Acquired(raw, first, index), first.world.p.dev);
    SilentReplacementServesOld(raw, first, 0, index, DoRebuild(shape));
  }

  lemma AttachedFirst(w: World, shape: Shape)
    requires Blank(w) && Generous(w.p.dev)
    ensures
      var p := Next(w, DoAttach(true, shape)).p;
      && p.chain == Some(Chain(w.p.dev.calls, shape)) && w.p.dev.calls < p.dev.calls
      && p.ctx.generation == 0 && p.dev.answer == w.p.dev.answer
  {
    ReplaceFacts(w.p, shape);
    ReplaceMoves(w.p, shape);
    RefreshFacts(Replace(w.p, shape).1);
    RefreshKeepsChain(Replace(w.p, shape).1);
  }

  lemma GrantedAnswer(g: Geometry, c: Frame, d: Device)
    requires g == NewGeometry(g.hasDepth) && c.imageIndex < |c.rawViews| && c.hasFormat && Generous(d)
    ensures Resolve(g, c, d).0.Some? && Resolve(g, c, d).2.answer == d.answer
  {
    assert HeldInOrder(g) == [];
  }

  /** After an attach whose chain is refused there is no chain to acquire from: image 0 at the window's
      resolution is answered with what was drawn into there before, over a view of the lost chain. */
  lemma RefusedAttachServesOld(raw: RawViews, s: Scene, last: nat, shape: Shape, index: nat)
    requires OwnViews(raw) && SceneOk(raw, s, last) && !s.pass.pinned && Answer(raw, s, 0).0.Some?
    requires s.world.p.ctx.generation + 1 < GENERATIONS && s.world.p.chain.Some?
    requires s.world.p.ctx.resolution == Acquired(raw, s, 0).extent
    requires
      var drawn := Advance(raw, s, DrawGeometry(0)).world.p.dev;
      !drawn.answer(drawn.calls)
    ensures
      var v := Advance(raw, Advance(raw, s, DrawGeometry(0)), Render(DoAttach(true, shape)));
      && v.world.p.chain.None? && Answer(raw, v, index).0 == Answer(raw, s, 0).0
      && !Current(Answer(raw, v, index).0.value, Answer(raw, v, index).1, Acquired(raw, v, index))
  {
    var drawn := Advance(raw, s, DrawGeometry(0));
    AnswerCurrentIff(raw, s, last, 0);
    AnswerCached(raw, s, last, 0);
    RenderKeeps(raw, drawn, last, DoAttach(true, shape));
    var v := Advance(raw, drawn, Render(DoAttach(true, shape)));
    assert v.pass == drawn.pass && v.world.p.chain.None? && v.world.p.ctx == drawn.world.p.ctx;
    assert Reusable(v.pass, Acquired(raw, v, index));
    AnswerCurrentIff(raw, v, last, index);
  }

  /** Attach, draw, attach again and be refused, draw. */
  lemma RefusedAttachRun(raw: RawViews, size: Extent, index: nat)
    requires OwnViews(raw) && size.width != 0 && size.height != 0
    ensures
      var first := Scene(TargetFailures.Opened(size, 5), NewGeometry(true));
      var second := Advance(raw, Advance(raw, first, DrawGeometry(0)), Render(DoAttach(true, Shape(1, size, true))));
      && Answer(raw, first, 0).0.Some? && Answer(raw, second, index).0 == Answer(raw, first, 0).0
      && !Current(Answer(raw, second, index).0.value, Answer(raw, second, index).1, Acquired(raw, second, index))
  {
    var first := Scene(TargetFailures.Opened(size, 5), NewGeometry(true));
    TargetFailures.OpenedFacts(size, 5);
    var c := Acquired(raw, first, 0);
    FirstAnswer(NewGeometry(true), c, first.world.p.dev);
    RefusedAttachServesOld(raw, first, 0, Shape(1, size, true), index);
  }

  /** The first answer with a depth asks for an image, its view and a framebuffer. */
  lemma FirstAnswer(g: Geometry, c: Frame, d: Device)
    requires g == NewGeometry(true) && c.imageIndex < |c.rawViews| && c.hasFormat
    requires d.answer(d.calls) && d.answer(d.calls + 1) && d.answer(d.calls + 2)
    ensures
      var (fb, _, d') := Resolve(g, c, d);
      fb.Some? && d'.calls == d.calls + 3 && d'.answer == d.answer
  {
    assert HeldInOrder(g) == [];
  }
}
