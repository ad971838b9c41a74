/** Runs in which the caches fail: a chain replaced at the same size, and one lost to a refused attach. */
module TargetFailures {
  import opened Basics
  import opened Devices
  import opened Targets
  import opened TargetSafety

  // ----- A replacement of the same size, forward pass

  lemma AnswerKeys(f: Forward, c: Context, s: Depth, d: Device)
    requires !f.pinned && ResolveForward(f, c, s, d).target.Some?
    ensures
      var r := ResolveForward(f, c, s, d);
      var g := r.cache;
      && Drawable(c) && !g.pinned && g.framebuffer == r.target && g.image == Some(c.imageIndex)
      && g.generation == Some(c.generation) && g.extent == Some(DrawableSize(c))
      && g.depthGeneration == Some(r.depth.generation) && !DepthStale(r.depth, DrawableSize(c))
  {
    DepthServed(s, d, DrawableSize(c));
  }

  lemma DepthServed(s: Depth, d: Device, size: Extent)
    ensures
      var (view, s', d') := DepthView(s, d, size);
      view.Some? ==> !DepthStale(s', size)
  {
  }

  /** Whenever an unannounced step leaves size and image number alone, the framebuffer drawn into
      before it is served again after it, over a view that is no longer the image's. */
  lemma SameSizeReplacementServesStale(w: World, last: nat, accepted: bool, step: Step)
    requires Inv(w, last) && !w.forward.pinned && Forwarded(w).target.Some? && w.p.ctx.generation + 1 < GENERATIONS
    requires Unannounced(Next(w, DrawForward(accepted)), step)
    ensures
      var v := Next(Next(Next(w, DrawForward(accepted)), step), DoAcquire(w.p.ctx.imageIndex));
      Drawable(v.p.ctx) && DrawableSize(v.p.ctx) == DrawableSize(w.p.ctx) ==>
        Forwarded(v).target == Forwarded(w).target
        && !FreshForward(Forwarded(v).target.value, v.p.ctx, Forwarded(v).depth, Forwarded(v).dev)
  {
    var w1 := Next(w, DrawForward(accepted));
    var w2 := Next(w1, step);
    var v := Next(w2, DoAcquire(w.p.ctx.imageIndex));
    DrawnIsHeld(w, last, accepted);
    UnannouncedFacts(w1, step);
    StepKeepsInv(w1, last, step);
    StepKeepsInv(w2, w1.p.dev.calls, DoAcquire(w.p.ctx.imageIndex));
    if Drawable(v.p.ctx) && DrawableSize(v.p.ctx) == DrawableSize(w.p.ctx) {
      assert v.depth == w1.depth && v.forward == w1.forward;
      HitReuses(v);
      ForwardFreshIff(v, w1.p.dev.calls);
    }
  }

  /** What the forward pass has drawn into it holds, under keys that describe the frame. */
  lemma DrawnIsHeld(w: World, last: nat, accepted: bool)
    requires Inv(w, last) && !w.forward.pinned && Forwarded(w).target.Some?
    ensures
      var v := Next(w, DrawForward(accepted));
      && Inv(v, last) && ForwardHit(v) && !v.forward.pinned && v.forward.framebuffer == Forwarded(w).target
      && v.p.ctx == w.p.ctx && Drawable(w.p.ctx) && v.depth.view.Some?
      && v.forward.framebuffer.value.id < v.p.dev.calls
  {
    AnswerKeys(w.forward, w.p.ctx, w.depth, w.p.dev);
    DrawKeepsInv(w, last, accepted);
  }

  lemma HitReuses(w: World)
    requires ForwardHit(w) && !w.forward.pinned && Drawable(w.p.ctx) && w.depth.view.Some?
    ensures Forwarded(w).target == w.forward.framebuffer && Forwarded(w).depth == w.depth && Forwarded(w).dev == w.p.dev
  {
  }

  /** Attach, draw, rebuild at the same size, draw: however many images the chain has, the second
      frame is drawn into the framebuffer over the destroyed view. */
  lemma RebuildRun(w: World, shape: Shape, accepted: bool, index: nat)
    requires Blank(w) && Generous(w.p.dev)
    requires shape.hasFormat && index < shape.imageCount && shape.extent.width != 0 && shape.extent.height != 0
    ensures
      var first := Next(Next(w, DoAttach(true, shape)), DoAcquire(index));
      var second := Next(Next(Next(first, DrawForward(accepted)), DoRebuild(shape)), DoAcquire(index));
      && Forwarded(first).target.Some?
      && Forwarded(second).target == Forwarded(first).target
      && !FreshForward(Forwarded(second).target.value, second.p.ctx, Forwarded(second).depth, Forwarded(second).dev)
  {
    var first := Next(Next(w, DoAttach(true, shape)), DoAcquire(index));
    FirstFrame(w, shape, accepted, index);
    var drawn := Next(first, DrawForward(accepted));
    DrawKeepsInv(first, 0, accepted);
    RebuiltDrawable(drawn, shape, index);
    SameSizeReplacementServesStale(first, 0, accepted, DoRebuild(shape));
  }

  /** The frame after a granted first attach is drawn, and the backend stays generous. */
  lemma FirstFrame(w: World, shape: Shape, accepted: bool, index: nat)
    requires Blank(w) && Generous(w.p.dev)
    requires shape.hasFormat && index < shape.imageCount && shape.extent.width != 0 && shape.extent.height != 0
    ensures
      var first := Next(Next(w, DoAttach(true, shape)), DoAcquire(index));
      && Inv(first, 0) && !first.forward.pinned && first.p.chain.Some? && first.p.ctx.imageIndex == index
      && first.p.ctx.generation == 0
      && Drawable(first.p.ctx) && DrawableSize(first.p.ctx) == shape.extent
      && Forwarded(first).target.Some? && Generous(Next(first, DrawForward(accepted)).p.dev)
  {
    FirstAttachOk(w, shape);
    ReplaceFacts(w.p, shape);
    RefreshFacts(Replace(w.p, shape).1);
    var first := Next(Next(w, DoAttach(true, shape)), DoAcquire(index));
    StepKeepsInv(Next(w, DoAttach(true, shape)), 0, DoAcquire(index));
    AnswersKept(first);
  }

  lemma RebuiltDrawable(w: World, shape: Shape, index: nat)
    requires PresenterOk(w.p) && w.p.chain.Some? && Generous(w.p.dev) && shape.hasFormat
    requires index < shape.imageCount && shape.extent.width != 0 && shape.extent.height != 0
    ensures
      var c := Next(Next(w, DoRebuild(shape)), DoAcquire(index)).p.ctx;
      Drawable(c) && DrawableSize(c) == shape.extent
  {
    GenerousRebuild(w, shape);
  }

  lemma AnswersKept(w: World)
    ensures Forwarded(w).dev.answer == w.p.dev.answer
  {
  }

  lemma GenerousRebuild(w: World, shape: Shape)
    requires PresenterOk(w.p) && w.p.chain.Some? && Generous(w.p.dev) && shape.hasFormat
    ensures
      var p := Rebuild(w.p, shape);
      && p.chain.Some? && p.chain.value.shape == shape && |p.ctx.views| == shape.imageCount && p.ctx.presentation == shape.extent
  {
    ReplaceFacts(w.p, shape);
    var (made, p1) := Replace(w.p, shape);
    RefreshFacts(p1);
    RefreshFacts(Refresh(p1));
  }

  // ----- The same for the composite pass

  lemma CompositeKeys(m: Composite, c: Context, d: Device)
    requires m.pinned.None? && ResolveComposite(m, c, d).target.Some?
    ensures
      var r := ResolveComposite(m, c, d);
      && Drawable(c) && r.cache.pinned.None? && r.cache.generation == Some(c.generation) && r.cache.extent == Some(DrawableSize(c))
      && c.imageIndex in r.cache.framebuffers && r.target == Some(r.cache.framebuffers[c.imageIndex])
  {
  }

  /** The composite pass serves its framebuffer for the image again as well. */
  lemma SameSizeReplacementServesStaleComposite(w: World, last: nat, step: Step)
    requires Inv(w, last) && w.composite.pinned.None? && Composed(w).target.Some? && w.p.ctx.generation + 1 < GENERATIONS
    requires Unannounced(Next(w, DrawComposite), step)
    ensures
      var v := Next(Next(Next(w, DrawComposite), step), DoAcquire(w.p.ctx.imageIndex));
      Drawable(v.p.ctx) && DrawableSize(v.p.ctx) == DrawableSize(w.p.ctx) ==>
        && Composed(v).target == Composed(w).target
        && !FreshComposite(Composed(v).target.value, v.p.ctx, Composed(v).dev)
  {
    var w1 := Next(w, DrawComposite);
    var w2 := Next(w1, step);
    var v := Next(w2, DoAcquire(w.p.ctx.imageIndex));
    CompositeKeys(w.composite, w.p.ctx, w.p.dev);
    CompositeFreshIff(w, last);
    UnannouncedFacts(w1, step);
    StepKeepsInv(w1, last, step);
    StepKeepsInv(w2, w1.p.dev.calls, DoAcquire(w.p.ctx.imageIndex));
    if Drawable(v.p.ctx) && DrawableSize(v.p.ctx) == DrawableSize(w.p.ctx) {
      assert v.composite == w1.composite;
      OlderThanCalls(w1, last);
      assert CompositeHit(v);
      CompositeReused(v, w1.p.dev.calls);
    }
  }

  lemma OlderThanCalls(w: World, last: nat)
    requires Inv(w, last) && w.p.ctx.imageIndex in w.composite.framebuffers
    ensures w.composite.framebuffers[w.p.ctx.imageIndex].id < w.p.dev.calls
  {
    assert CompositeEntryOk(w.p, last, w.composite, w.p.ctx.imageIndex);
  }

  /** Attach, draw, rebuild at the same size, draw, for the composite pass. */
  lemma RebuildRunComposite(w: World, shape: Shape, index: nat)
    requires Blank(w) && Generous(w.p.dev)
    requires shape.hasFormat && index < shape.imageCount && shape.extent.width != 0 && shape.extent.height != 0
    ensures
      var first := Next(Next(w, DoAttach(true, shape)), DoAcquire(index));
      var second := Next(Next(Next(first, DrawComposite), DoRebuild(shape)), DoAcquire(index));
      && Composed(first).target.Some?
      && Composed(second).target == Composed(first).target
      && !FreshComposite(Composed(second).target.value, second.p.ctx, Composed(second).dev)
  {
    var first := Next(Next(w, DoAttach(true, shape)), DoAcquire(index));
    FirstFrame(w, shape, false, index);
    assert first.composite == NEW_COMPOSITE && first.p.dev.answer == w.p.dev.answer by { AttachKeepsAnswers(w, shape, index); }
    CompositeFreshIff(first, 0);
    RebuiltDrawable(Next(first, DrawComposite), shape, index);
    SameSizeReplacementServesStaleComposite(first, 0, DoRebuild(shape));
  }

  lemma AttachKeepsAnswers(w: World, shape: Shape, index: nat)
    requires PresenterOk(w.p) && w.p.dev.answer(w.p.dev.calls)
    ensures
      var first := Next(Next(w, DoAttach(true, shape)), DoAcquire(index));
      first.composite == w.composite && first.p.dev.answer == w.p.dev.answer
  {
    ReplaceFacts(w.p, shape);
    RefreshFacts(Replace(w.p, shape).1);
  }

  // ----- A chain lost to a refused attach

  /** After a refused attach the renderer acquires image 0 at the window's resolution; when the frame
      before was of that image and size, both passes answer with what they drew into then, over a view
      of the chain that is gone. */
  lemma RefusedAttachServesStale(w: World, last: nat, accepted: bool, shape: Shape, index: nat)
    requires Inv(w, last) && w.p.ctx.generation + 1 < GENERATIONS
    requires !w.forward.pinned && Forwarded(w).target.Some?
    requires w.p.ctx.imageIndex == 0 && w.p.ctx.resolution == DrawableSize(w.p.ctx)
    requires
      var drawn := Next(w, DrawForward(accepted));
      !drawn.p.dev.answer(drawn.p.dev.calls)
    ensures
      var v := Next(Next(Next(w, DrawForward(accepted)), DoAttach(true, shape)), DoAcquire(index));
      && Forwarded(v).target == Forwarded(w).target
      && !FreshForward(Forwarded(v).target.value, v.p.ctx, Forwarded(v).depth, Forwarded(v).dev)
  {
    var w1 := Next(w, DrawForward(accepted));
    var w2 := Next(w1, DoAttach(true, shape));
    var v := Next(w2, DoAcquire(index));
    DrawnIsHeld(w, last, accepted);
    RefusedAttachFacts(w1.p, shape);
    StepKeepsInv(w1, last, DoAttach(true, shape));
    StepKeepsInv(w2, last, DoAcquire(index));
    HitReuses(v);
    ForwardFreshIff(v, last);
  }

  lemma RefusedAttachServesStaleComposite(w: World, last: nat, shape: Shape, index: nat)
    requires Inv(w, last) && w.p.ctx.generation + 1 < GENERATIONS
    requires w.composite.pinned.None? && Composed(w).target.Some?
    requires w.p.ctx.imageIndex == 0 && w.p.ctx.resolution == DrawableSize(w.p.ctx)
    requires
      var drawn := Next(w, DrawComposite);
      !drawn.p.dev.answer(drawn.p.dev.calls)
    ensures
      var v := Next(Next(Next(w, DrawComposite), DoAttach(true, shape)), DoAcquire(index));
      && Composed(v).target == Composed(w).target
      && !FreshComposite(Composed(v).target.value, v.p.ctx, Composed(v).dev)
  {
    var w1 := Next(w, DrawComposite);
    var w2 := Next(w1, DoAttach(true, shape));
    var v := Next(w2, DoAcquire(index));
    CompositeKeys(w.composite, w.p.ctx, w.p.dev);
    CompositeFreshIff(w, last);
    RefusedAttachFacts(w1.p, shape);
    StepKeepsInv(w1, last, DoAttach(true, shape));
    StepKeepsInv(w2, last, DoAcquire(index));
    assert CompositeHit(v);
    CompositeReused(v, last);
  }

  /** A window of this size before anything has happened, over a backend that refuses one call. */
  function Start(size: Extent, refused: nat): World {
    World(Presenter(Device((n: nat) => n != refused, 0, map[], 0, 0), Context(0, [], Extent(0, 0), size, 0), None),
      NEW_DEPTH, NEW_FORWARD, NEW_COMPOSITE)
  }

  /** The first chain of that window, with one image. */
  function Opened(size: Extent, refused: nat): World {
    Next(Next(Start(size, refused), DoAttach(true, Shape(1, size, true))), DoAcquire(0))
  }

  lemma OpenedFacts(size: Extent, refused: nat)
    requires size.width != 0 && size.height != 0 && refused > 1
    ensures
      var w := Opened(size, refused);
      && Inv(w, 0) && w.p.dev.calls == 2 && w.p.ctx == Context(0, [1], size, size, 0)
      && w.p.chain == Some(Chain(0, Shape(1, size, true))) && w.p.dev.answer == Start(size, refused).p.dev.answer
      && w.depth == NEW_DEPTH && w.forward == NEW_FORWARD && w.composite == NEW_COMPOSITE
  {
    var w := Start(size, refused);
    var shape := Shape(1, size, true);
    FirstAttachOk(w, shape);
    AttachKeepsAnswers(w, shape, 0);
    StepKeepsInv(Next(w, DoAttach(true, shape)), 0, DoAcquire(0));
    var p1 := Replace(w.p, shape).1;
    assert p1.chain == Some(Chain(0, shape)) && p1.dev.calls == 1 && p1.ctx == w.p.ctx;
    OneView(p1.dev, 0);
  }

  lemma OneView(d: Device, chain: Id)
    requires d.answer(d.calls)
    ensures CreateViews(d, chain, 1) == (Some([d.calls]), Create(d, {chain}).1)
  {
    var (before, d1) := CreateViews(d, chain, 0);
    assert before == Some([]) && d1 == d;
    assert [] + [d.calls] == [d.calls];
  }

  /** Attach, draw, attach again and be refused, draw: the forward pass has an answer, and it is what
      it drew into over the chain that is gone. */
  lemma RefusedAttachRun(size: Extent, accepted: bool)
    requires size.width != 0 && size.height != 0
    ensures
      var first := Opened(size, 5);
      var second := Next(Next(Next(first, DrawForward(accepted)), DoAttach(true, Shape(1, size, true))), DoAcquire(0));
      && Forwarded(first).target.Some? && Forwarded(second).target == Forwarded(first).target
      && !FreshForward(Forwarded(second).target.value, second.p.ctx, Forwarded(second).depth, Forwarded(second).dev)
  {
    OpenedFacts(size, 5);
    ForwardFirst(Opened(size, 5));
    RefusedAttachServesStale(Opened(size, 5), 0, accepted, Shape(1, size, true), 0);
  }

  lemma RefusedAttachRunComposite(size: Extent)
    requires size.width != 0 && size.height != 0
    ensures
      var first := Opened(size, 3);
      var second := Next(Next(Next(first, DrawComposite), DoAttach(true, Shape(1, size, true))), DoAcquire(0));
      && Composed(first).target.Some? && Composed(second).target == Composed(first).target
      && !FreshComposite(Composed(second).target.value, second.p.ctx, Composed(second).dev)
  {
    OpenedFacts(size, 3);
    RefusedAttachServesStaleComposite(Opened(size, 3), 0, Shape(1, size, true), 0);
  }

  /** The first draw asks for a depth image, its view and a framebuffer. */
  lemma ForwardFirst(w: World)
    requires Drawable(w.p.ctx) && w.depth == NEW_DEPTH && w.forward == NEW_FORWARD
    requires w.p.dev.answer(w.p.dev.calls) && w.p.dev.answer(w.p.dev.calls + 1) && w.p.dev.answer(w.p.dev.calls + 2)
    ensures
      var r := Forwarded(w);
      r.target.Some? && r.dev.calls == w.p.dev.calls + 3 && r.dev.answer == w.p.dev.answer
  {
  }
}
