/** What the renderer, the shared depth and the two caches leave alive without referring to it. */
module TargetLeaks {
  import opened Basics
  import opened Devices
  import opened Targets
  import opened TargetSafety

  // ----- What is referred to

  function ViewIds(p: Presenter): set<Id> {
    set v | v in p.ctx.views
  }

  function PresenterIds(p: Presenter): set<Id> {
    ViewIds(p) + (if p.chain.Some? then {p.chain.value.id} else {})
  }

  function DepthIds(s: Depth): set<Id> {
    (if s.view.Some? then {s.view.value} else {}) + (if s.image.Some? then {s.image.value.texture} else {})
  }

  /** A pinned framebuffer is not the pass's own. */
  function ForwardIds(f: Forward): set<Id> {
    if !f.pinned && f.framebuffer.Some? then {f.framebuffer.value.id} else {}
  }

  function CompositeIds(m: Composite): set<Id> {
    set i | i in m.framebuffers :: m.framebuffers[i].id
  }

  function PassIds(w: World): set<Id> {
    DepthIds(w.depth) + ForwardIds(w.forward) + CompositeIds(w.composite)
  }

  /** Alive, and referred to by nobody who could ever release it. */
  function Left(w: World): set<Id> {
    w.p.dev.live.Keys - PresenterIds(w.p) - PassIds(w)
  }

  // ----- What each step leaves behind

  /** Without a format the old views are forgotten; when a view is refused, those made before it are. */
  function PublishLost(p: Presenter): set<Id>
    requires p.chain.Some?
  {
    if !p.chain.value.shape.hasFormat then ViewIds(p) else
    var (views, d) := CreateViews(ReleaseAll(p.dev, p.ctx.views), p.chain.value.id, p.chain.value.shape.imageCount);
    if views.Some? then {} else set id | id in d.live && id >= p.dev.calls
  }

  /** The old image and view when they are replaced, or a new image whose view is refused. */
  function DepthLost(s: Depth, d: Device, size: Extent): set<Id> {
    if size.width == 0 || size.height == 0 || !DepthStale(s, size) || !d.answer(d.calls) then {}
    else if d.answer(d.calls + 1) then DepthIds(s)
    else {d.calls}
  }

  /** A key that changed makes the draw forget its framebuffer. */
  predicate Empties(w: World) {
    var size := DrawableSize(w.p.ctx);
    var (view, s, d) := DepthView(w.depth, w.p.dev, size);
    || w.forward.generation != Some(w.p.ctx.generation) || w.forward.extent != Some(size)
    || (view.Some? && w.forward.depthGeneration != Some(s.generation))
  }

  /** The draw gets a new framebuffer. */
  predicate Builds(w: World) {
    var (view, s, d) := DepthView(w.depth, w.p.dev, DrawableSize(w.p.ctx));
    && view.Some? && d.answer(d.calls)
    && (Empties(w) || w.forward.framebuffer.None? || w.forward.image != Some(w.p.ctx.imageIndex))
  }

  function ReplaceLost(p: Presenter, shape: Shape, twice: bool): set<Id> {
    var (made, p1) := Replace(p, shape);
    if p1.chain.None? then {} else
    PublishLost(p1) + (if twice && made.Some? then PublishLost(Refresh(p1)) else {})
  }

  function LostBy(w: World, step: Step): set<Id> {
    match step
    case DoAcquire(_) => {}
    case DoResize(_, shape) => if w.p.chain.Some? then ReplaceLost(w.p, shape, false) else {}
    case DoRebuild(shape) => if w.p.chain.Some? then ReplaceLost(w.p, shape, true) else {}
    case DoAttach(surface, shape) =>
      if surface && w.p.dev.answer(w.p.dev.calls) then ReplaceLost(w.p, shape, false) else {}
    case OtherDepthUser(size) => DepthLost(w.depth, w.p.dev, size)
    case DrawForward(_) =>
      if w.forward.pinned || !Drawable(w.p.ctx) then {}
      else DepthLost(w.depth, w.p.dev, DrawableSize(w.p.ctx)) + (if Empties(w) || Builds(w) then ForwardIds(w.forward) else {})
    case DrawComposite =>
      if w.composite.pinned.Some? || !Drawable(w.p.ctx) then {}
      else if w.composite.generation == Some(w.p.ctx.generation) && w.composite.extent == Some(DrawableSize(w.p.ctx)) then {}
      else CompositeIds(w.composite)
    case DoPinForward(_) => ForwardIds(w.forward)
    case DoPinComposite(_) => {}
  }

  // ----- The presenter

  lemma {:induction false} MadeViews(d: Device, chain: Id, count: nat)
    requires Sane(d) && chain < d.calls
    ensures
      var (views, d') := CreateViews(d, chain, count);
      && Sane(d') && d.calls <= d'.calls
      && (forall id :: id in d.live ==> id in d'.live)
      && (forall id :: id in d'.live && id !in d.live ==> id >= d.calls)
      && (views.Some? ==> d'.live.Keys == d.live.Keys + (set v | v in views.value) && forall v :: v in views.value ==> v >= d.calls)
    decreases count
  {
    if count > 0 {
      MadeViews(d, chain, count - 1);
      var (before, d1) := CreateViews(d, chain, count - 1);
      if before.Some? {
        var (view, d2) := Create(d1, {chain});
      }
    }
  }

  /** Beside the chain and the published views, just these are alive in addition. */
  ghost predicate Leaves(p: Presenter, p': Presenter, lost: set<Id>) {
    && p'.dev.live.Keys - PresenterIds(p') == (p.dev.live.Keys - PresenterIds(p)) + lost
    && lost !! (p.dev.live.Keys - PresenterIds(p))
    && p.dev.calls <= p'.dev.calls
    && forall id :: id in lost ==> id in ViewIds(p) || id >= p.dev.calls
  }

  lemma PublishLeaves(p: Presenter)
    requires Attached(p) && (forall v :: v in p.ctx.views ==> v in p.dev.live)
    ensures Leaves(p, Publish(p), PublishLost(p))
  {
    if p.chain.value.shape.hasFormat {
      var d := ReleaseAll(p.dev, p.ctx.views);
      MadeViews(d, p.chain.value.id, p.chain.value.shape.imageCount);
    }
  }

  lemma RefreshLeaves(p: Presenter)
    requires Attached(p) && (forall v :: v in p.ctx.views ==> v in p.dev.live)
    ensures Leaves(p, Refresh(p), PublishLost(p))
    ensures Attached(Refresh(p)) && PresenterOk(Refresh(p))
  {
    var q := p.(ctx := p.ctx.(presentation := p.chain.value.shape.extent));
    PublishLeaves(q);
    RefreshFacts(p);
    assert PublishLost(q) == PublishLost(p);
  }

  lemma ReplaceLeaves(p: Presenter, shape: Shape)
    requires PresenterOk(p)
    ensures Leaves(p, Replace(p, shape).1, {})
    ensures forall v :: v in p.ctx.views ==> v in Replace(p, shape).1.dev.live
  {
    ReplaceFacts(p, shape);
    forall v | v in p.ctx.views ensures v in p.dev.live && v < p.dev.calls { assert ViewOk(p, v); }
  }

  lemma LeavesOn(p: Presenter, q: Presenter, r: Presenter, lost: set<Id>, more: set<Id>)
    requires Leaves(p, q, lost) && Leaves(q, r, more)
    requires forall id :: id in more && id in ViewIds(q) ==> id in ViewIds(p) || id >= p.dev.calls
    ensures Leaves(p, r, lost + more)
  {
  }

  /** A replacement and one or two refreshes behind it. */
  lemma ReplacedLeaves(p: Presenter, shape: Shape, twice: bool)
    requires PresenterOk(p) && Replace(p, shape).1.chain.Some?
    ensures
      var (made, p1) := Replace(p, shape);
      var p' := if twice && made.Some? then Refresh(Refresh(p1)) else Refresh(p1);
      Leaves(p, p', ReplaceLost(p, shape, twice))
  {
    ReplaceFacts(p, shape);
    ReplaceLeaves(p, shape);
    var (made, p1) := Replace(p, shape);
    RefreshLeaves(p1);
    RefreshFacts(p1);
    LeavesOn(p, p1, Refresh(p1), {}, PublishLost(p1));
    assert {} + PublishLost(p1) == PublishLost(p1);
    if twice && made.Some? {
      var q := Refresh(p1);
      forall v | v in q.ctx.views ensures v in q.dev.live { assert ViewOk(q, v); }
      RefreshLeaves(q);
      LeavesOn(p, q, Refresh(q), PublishLost(p1), PublishLost(q));
    } else {
      assert ReplaceLost(p, shape, twice) == PublishLost(p1);
    }
  }

  lemma SamePresenter(p: Presenter, q: Presenter, p': Presenter, lost: set<Id>)
    requires Leaves(q, p', lost) && q.dev == p.dev && q.chain == p.chain && q.ctx.views == p.ctx.views
    ensures Leaves(p, p', lost)
  {
  }

  predicate Presents(step: Step) {
    step.DoAcquire? || step.DoResize? || step.DoRebuild? || step.DoAttach?
  }

  lemma PresenterLeaves(w: World, step: Step)
    requires PresenterOk(w.p) && Presents(step)
    ensures Leaves(w.p, Next(w, step).p, LostBy(w, step))
  {
    var p, p' := w.p, Next(w, step).p;
    match step
    case DoAcquire(index) =>
    case DoResize(size, shape) => if p.chain.Some? { ResizeLeaves(p, size, shape); }
    case DoRebuild(shape) =>
      if p.chain.Some? {
        ReplaceFacts(p, shape);
        ReplacedLeaves(p, shape, true);
      }
    case DoAttach(surface, shape) =>
      if surface {
        ReplaceFacts(p, shape);
        ReplaceLeaves(p, shape);
        if p.dev.answer(p.dev.calls) { ReplacedLeaves(p, shape, false); }
      }
    case _ =>
  }

  lemma ResizeLeaves(p: Presenter, size: Extent, shape: Shape)
    requires PresenterOk(p) && p.chain.Some?
    ensures Leaves(p, Resize(p, size, shape), ReplaceLost(p, shape, false))
  {
    var p0 := p.(ctx := p.ctx.(resolution := AtLeastOne(size)));
    ReplaceFacts(p0, shape);
    ReplaceLeaves(p0, shape);
    var (made, p1) := Replace(p0, shape);
    var q := if made.Some? then p1.(ctx := p1.ctx.(generation := (p1.ctx.generation + 1) % GENERATIONS)) else p1;
    RefreshLeaves(q);
    SamePresenter(p1, q, Refresh(q), PublishLost(q));
    LeavesOn(p0, p1, Refresh(q), {}, PublishLost(q));
    assert {} + PublishLost(q) == PublishLost(q);
    SamePresenter(p, p0, Refresh(q), PublishLost(q));
    SameLost(q, Replace(p, shape).1);
  }

  lemma SameLost(p: Presenter, q: Presenter)
    requires p.chain.Some? && p.chain == q.chain && p.dev == q.dev && p.ctx.views == q.ctx.views
    ensures PublishLost(p) == PublishLost(q)
  {
  }

  // ----- The passes

  /** What the passes hold lasts: it is alive and neither a view nor the chain. */
  lemma HeldLasts(w: World, last: nat)
    requires Inv(w, last)
    ensures forall id :: id in PassIds(w) ==> Lasting(w.p, id) && id < w.p.dev.calls
  {
    forall id | id in CompositeIds(w.composite) ensures Lasting(w.p, id) {
      var i :| i in w.composite.framebuffers && w.composite.framebuffers[i].id == id;
      assert CompositeEntryOk(w.p, last, w.composite, i);
    }
  }

  /** The depth, the forward pass and the composite pass hold different objects. */
  ghost predicate Separate(w: World) {
    && DepthIds(w.depth) !! ForwardIds(w.forward)
    && DepthIds(w.depth) !! CompositeIds(w.composite)
    && ForwardIds(w.forward) !! CompositeIds(w.composite)
  }

  /** Nothing dies: what is alive is what was, and what the step made. */
  ghost predicate Made(w: World, w': World, made: set<Id>) {
    && w'.p.dev.live.Keys == w.p.dev.live.Keys + made
    && (forall id :: id in made ==> id >= w.p.dev.calls)
    && w'.p.chain == w.p.chain && w'.p.ctx.views == w.p.ctx.views
  }

  lemma PassLeaves(w: World, last: nat, w': World, made: set<Id>)
    requires Inv(w, last) && Made(w, w', made) && PassIds(w') <= PassIds(w) + made
    ensures Left(w') == Left(w) + (PassIds(w) + made - PassIds(w'))
    ensures Left(w) !! (PassIds(w) + made - PassIds(w'))
  {
    HeldLasts(w, last);
    forall id | id in PresenterIds(w.p) ensures id < w.p.dev.calls {
      if id in w.p.ctx.views { assert ViewOk(w.p, id); }
    }
  }

  function DepthMade(s: Depth, d: Device, size: Extent): set<Id> {
    if size.width == 0 || size.height == 0 || !DepthStale(s, size) || !d.answer(d.calls) then {}
    else if d.answer(d.calls + 1) then {d.calls, d.calls + 1} else {d.calls}
  }

  lemma DepthEffect(s: Depth, d: Device, size: Extent)
    ensures
      var (view, s', d') := DepthView(s, d, size);
      && d'.live.Keys == d.live.Keys + DepthMade(s, d, size) && d.calls <= d'.calls
      && (forall id :: id in DepthMade(s, d, size) ==> d.calls <= id < d'.calls)
      && (if DepthMade(s, d, size) == {d.calls, d.calls + 1} then DepthIds(s') == {d.calls, d.calls + 1} else s' == s)
  {
  }

  lemma UserLeaves(w: World, last: nat, size: Extent)
    requires Inv(w, last) && Separate(w)
    ensures
      var w' := Next(w, OtherDepthUser(size));
      && Left(w') == Left(w) + LostBy(w, OtherDepthUser(size)) && Left(w) !! LostBy(w, OtherDepthUser(size)) && Separate(w')
  {
    var w' := Next(w, OtherDepthUser(size));
    DepthEffect(w.depth, w.p.dev, size);
    HeldLasts(w, last);
    var made := DepthMade(w.depth, w.p.dev, size);
    PassLeaves(w, last, w', made);
    assert PassIds(w) + made - PassIds(w') == LostBy(w, OtherDepthUser(size));
  }

  /** What a draw builds beside the depth, and what it holds then. */
  lemma ForwardEffect(w: World)
    requires !w.forward.pinned && Drawable(w.p.ctx)
    ensures
      var r := Forwarded(w);
      var (view, s, d) := DepthView(w.depth, w.p.dev, DrawableSize(w.p.ctx));
      && r.depth == s
      && r.dev.live.Keys == d.live.Keys + (if Builds(w) then {d.calls} else {})
      && ForwardIds(r.cache) == if Builds(w) then {d.calls} else if Empties(w) then {} else ForwardIds(w.forward)
  {
  }

  lemma DrawLeaves(w: World, last: nat, accepted: bool)
    requires Inv(w, last) && Separate(w)
    ensures
      var w', lost := Next(w, DrawForward(accepted)), LostBy(w, DrawForward(accepted));
      Left(w') == Left(w) + lost && Left(w) !! lost && Separate(w')
  {
    var w' := Next(w, DrawForward(accepted));
    if w.forward.pinned || !Drawable(w.p.ctx) {
      assert w'.p == w.p && PassIds(w') == PassIds(w);
    } else {
      DrawnLeaves(w, last, accepted);
    }
  }

  function DrawMade(w: World): set<Id> {
    var d := DepthView(w.depth, w.p.dev, DrawableSize(w.p.ctx)).2;
    DepthMade(w.depth, w.p.dev, DrawableSize(w.p.ctx)) + (if Builds(w) then {d.calls} else {})
  }

  lemma DrawnMade(w: World, accepted: bool)
    requires !w.forward.pinned && Drawable(w.p.ctx)
    ensures Made(w, Next(w, DrawForward(accepted)), DrawMade(w))
  {
    var size := DrawableSize(w.p.ctx);
    DepthEffect(w.depth, w.p.dev, size);
    ForwardEffect(w);
    var w' := Next(w, DrawForward(accepted));
    assert w'.p.dev == Forwarded(w).dev && w'.p.chain == w.p.chain && w'.p.ctx == w.p.ctx;
  }

  lemma DrawnLeaves(w: World, last: nat, accepted: bool)
    requires Inv(w, last) && Separate(w) && !w.forward.pinned && Drawable(w.p.ctx)
    ensures
      var w', lost := Next(w, DrawForward(accepted)), LostBy(w, DrawForward(accepted));
      Left(w') == Left(w) + lost && Left(w) !! lost && Separate(w')
  {
    var w' := Next(w, DrawForward(accepted));
    DrawnMade(w, accepted);
    HeldLasts(w, last);
    DrawnParts(w, accepted);
    DrawnLost(w, w', DepthView(w.depth, w.p.dev, DrawableSize(w.p.ctx)).2.calls);
    PassLeaves(w, last, w', DrawMade(w));
  }

  lemma DrawnParts(w: World, accepted: bool)
    requires !w.forward.pinned && Drawable(w.p.ctx)
    ensures
      var w' := Next(w, DrawForward(accepted));
      var d := DepthView(w.depth, w.p.dev, DrawableSize(w.p.ctx)).2;
      var made := DepthMade(w.depth, w.p.dev, DrawableSize(w.p.ctx));
      && w'.composite == w.composite && w.p.dev.calls <= d.calls
      && (forall id :: id in made ==> w.p.dev.calls <= id < d.calls)
      && DepthIds(w'.depth) == (if made == {w.p.dev.calls, w.p.dev.calls + 1} then made else DepthIds(w.depth))
      && ForwardIds(w'.forward) == if Builds(w) then {d.calls} else if Empties(w) then {} else ForwardIds(w.forward)
  {
    DepthEffect(w.depth, w.p.dev, DrawableSize(w.p.ctx));
    ForwardEffect(w);
  }

  /** The sets of a draw, part by part. */
  lemma DrawnLost(w: World, w': World, calls: nat)
    requires Separate(w) && (forall id :: id in PassIds(w) ==> id < w.p.dev.calls) && w.p.dev.calls <= calls
    requires w'.composite == w.composite
    requires
      var made := DepthMade(w.depth, w.p.dev, DrawableSize(w.p.ctx));
      && (forall id :: id in made ==> w.p.dev.calls <= id < calls)
      && DepthIds(w'.depth) == (if made == {w.p.dev.calls, w.p.dev.calls + 1} then made else DepthIds(w.depth))
    requires ForwardIds(w'.forward) == if Builds(w) then {calls} else if Empties(w) then {} else ForwardIds(w.forward)
    ensures PassIds(w') <= PassIds(w) + DepthMade(w.depth, w.p.dev, DrawableSize(w.p.ctx)) + (if Builds(w) then {calls} else {})
    ensures
      var made := DepthMade(w.depth, w.p.dev, DrawableSize(w.p.ctx)) + (if Builds(w) then {calls} else {});
      PassIds(w) + made - PassIds(w') ==
        DepthLost(w.depth, w.p.dev, DrawableSize(w.p.ctx)) + (if Empties(w) || Builds(w) then ForwardIds(w.forward) else {})
    ensures Separate(w')
  {
  }

  // ----- The composite pass

  lemma CompositeEffect(w: World)
    requires w.composite.pinned.None? && Drawable(w.p.ctx)
    ensures
      var r := Composed(w);
      var hit := w.composite.generation == Some(w.p.ctx.generation) && w.composite.extent == Some(DrawableSize(w.p.ctx));
      var kept := if hit then CompositeIds(w.composite) else {};
      var calls := w.p.dev.calls;
      || (r.dev.live.Keys == w.p.dev.live.Keys && CompositeIds(r.cache) == kept)
      || (r.dev.live.Keys == w.p.dev.live.Keys + {calls} && CompositeIds(r.cache) == kept + {calls})
  {
    var m := ForgetChain(w.composite, w.p.ctx.generation, DrawableSize(w.p.ctx));
    var i, r := w.p.ctx.imageIndex, Composed(w);
    if i !in m.framebuffers && r.target.Some? {
      var after := r.cache.framebuffers;
      assert forall j :: j in after <==> j in m.framebuffers || j == i;
      forall id ensures id in CompositeIds(r.cache) <==> id in CompositeIds(m) + {w.p.dev.calls} {
        if id in CompositeIds(m) {
          var j :| j in m.framebuffers && m.framebuffers[j].id == id;
          assert after[j].id == id;
        }
        if id == w.p.dev.calls { assert after[i].id == id; }
      }
    }
  }

  lemma CompositeLeaves(w: World, last: nat)
    requires Inv(w, last) && Separate(w)
    ensures
      var w' := Next(w, DrawComposite);
      Left(w') == Left(w) + LostBy(w, DrawComposite) && Left(w) !! LostBy(w, DrawComposite) && Separate(w')
  {
    var w' := Next(w, DrawComposite);
    if w.composite.pinned.None? && Drawable(w.p.ctx) {
      CompositeEffect(w);
      HeldLasts(w, last);
      var made := w'.p.dev.live.Keys - w.p.dev.live.Keys;
      CompositeLost(w, w', made);
      PassLeaves(w, last, w', made);
    } else {
      assert w' == w;
    }
  }

  lemma CompositeLost(w: World, w': World, made: set<Id>)
    requires Separate(w) && (forall id :: id in PassIds(w) ==> id < w.p.dev.calls) && w'.depth == w.depth && w'.forward == w.forward
    requires w.composite.pinned.None? && Drawable(w.p.ctx)
    requires
      var hit := w.composite.generation == Some(w.p.ctx.generation) && w.composite.extent == Some(DrawableSize(w.p.ctx));
      && (made == {} || made == {w.p.dev.calls})
      && CompositeIds(w'.composite) == (if hit then CompositeIds(w.composite) else {}) + made
    ensures PassIds(w') <= PassIds(w) + made && PassIds(w) + made - PassIds(w') == LostBy(w, DrawComposite) && Separate(w')
  {
  }

  // ----- Every run

  /** One step leaves behind exactly what `LostBy` says, and nothing that is left is ever taken up again. */
  lemma StepLeaves(w: World, last: nat, step: Step)
    requires Inv(w, last) && Separate(w)
    ensures Left(Next(w, step)) == Left(w) + LostBy(w, step) && Left(w) !! LostBy(w, step)
    ensures Separate(Next(w, step))
  {
    var w' := Next(w, step);
    match step
    case OtherDepthUser(size) => UserLeaves(w, last, size);
    case DrawForward(accepted) => DrawLeaves(w, last, accepted);
    case DrawComposite => CompositeLeaves(w, last);
    case DoPinForward(framebuffer) =>
      HeldLasts(w, last);
      PassLeaves(w, last, w', {});
      assert PassIds(w) + {} - PassIds(w') == ForwardIds(w.forward);
    case DoPinComposite(framebuffer) =>
    case _ =>
      PresenterLeaves(w, step);
      HeldLasts(w, last);
      assert PassIds(w') == PassIds(w);
  }

  /** How many objects the run leaves behind, step by step. */
  function LostCount(w: World, steps: seq<Step>): nat {
    if steps == [] then 0
    else
      var k := |steps| - 1;
      LostCount(w, steps[..k]) + |LostBy(Run(w, steps[..k]), steps[k])|
  }

  /** Over every run of fewer than 2^64 steps: the live objects that neither the renderer nor the depth nor a
      cache refers to are those of the start and what each step left behind, and none is ever released. */
  lemma {:induction false} RunLeaves(w: World, last: nat, steps: seq<Step>)
    requires Inv(w, last) && Separate(w) && w.p.ctx.generation + |steps| < GENERATIONS
    ensures Separate(Run(w, steps)) && Left(w) <= Left(Run(w, steps))
    ensures |Left(Run(w, steps))| == |Left(w)| + LostCount(w, steps)
  {
    if steps != [] {
      var before, step := steps[..|steps| - 1], steps[|steps| - 1];
      RunLeaves(w, last, before);
      RunKeepsInv(w, last, before);
      StepLeaves(Run(w, before), Last(w, last, before), step);
    }
  }
}
