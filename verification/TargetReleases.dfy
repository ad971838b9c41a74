/** What the renderer releases while something alive was still built from it. */
module TargetReleases {
  import opened Basics
  import opened Devices
  import opened Targets
  import opened TargetSafety
  import opened TargetLeaks

  /** All alive, and none built from another. */
  ghost predicate Strangers(d: Device, ids: seq<Id>) {
    forall a :: a in ids ==> a in d.live && forall b :: b in d.live[a] ==> b !in ids
  }

  ghost predicate ViewsApart(p: Presenter) {
    Distinct(p.ctx.views) && Strangers(p.dev, p.ctx.views)
  }

  function Used(d: Device, ids: seq<Id>): set<Id> {
    set id | id in ids && InUse(d, id)
  }

  lemma StillUsed(d: Device, gone: Id, id: Id)
    requires gone in d.live ==> id !in d.live[gone]
    ensures InUse(Release(d, gone), id) <==> InUse(d, id)
  {
    if user :| user in d.live && id in d.live[user] {
      assert user in Release(d, gone).live;
    }
  }

  lemma StrangersTail(d: Device, ids: seq<Id>)
    requires Distinct(ids) && ids != [] && Strangers(d, ids)
    ensures Distinct(ids[1..]) && ids[0] !in ids[1..] && Strangers(Release(d, ids[0]), ids[1..])
  {
    var rest := ids[1..];
    assert forall k :: 0 <= k < |rest| ==> rest[k] == ids[k + 1];
    assert forall id :: id in rest ==> id in ids;
  }

  lemma UsedSplit(d: Device, ids: seq<Id>)
    requires ids != [] && Strangers(d, ids) && ids[0] !in ids[1..]
    ensures |Used(d, ids)| == |Used(Release(d, ids[0]), ids[1..])| + (if InUse(d, ids[0]) then 1 else 0)
  {
    var rest, d1 := ids[1..], Release(d, ids[0]);
    assert ids == [ids[0]] + rest && ids[0] in ids;
    forall id | id in rest ensures InUse(d1, id) <==> InUse(d, id) { StillUsed(d, ids[0], id); }
    assert Used(d, ids) == Used(d1, rest) + (if InUse(d, ids[0]) then {ids[0]} else {});
  }

  /** Releasing objects of which none refers to another: each that something else refers to counts. */
  lemma {:induction false} ReleaseCounts(d: Device, ids: seq<Id>)
    requires Distinct(ids) && Strangers(d, ids)
    ensures
      var d' := ReleaseAll(d, ids);
      d'.doubleReleases == d.doubleReleases && d'.earlyReleases == d.earlyReleases + |Used(d, ids)|
    decreases |ids|
  {
    if ids == [] {
      assert Used(d, ids) == {};
    } else {
      StrangersTail(d, ids);
      UsedSplit(d, ids);
      assert ids[0] in ids;
      ReleaseCounts(Release(d, ids[0]), ids[1..]);
    }
  }

  lemma {:induction false} CreatedCounts(d: Device, chain: Id, count: nat)
    requires Sane(d) && chain < d.calls
    ensures
      var (views, d') := CreateViews(d, chain, count);
      && d'.doubleReleases == d.doubleReleases && d'.earlyReleases == d.earlyReleases
      && d.calls <= d'.calls && Sane(d')
      && (forall id :: id in d.live ==> id in d'.live && d'.live[id] == d.live[id])
      && (forall id :: id in d'.live && id !in d.live ==> d'.live[id] == {chain})
      && (views.Some? ==> Distinct(views.value) && forall v :: v in views.value ==> v in d'.live && d.calls <= v < d'.calls)
    decreases count
  {
    if count > 0 { CreatedCounts(d, chain, count - 1); }
  }

  /** The release counters have moved by this many early releases and no double one. */
  ghost predicate Released(p: Presenter, p': Presenter, early: nat) {
    && p'.dev.doubleReleases == p.dev.doubleReleases && p'.dev.earlyReleases == p.dev.earlyReleases + early
    && ViewsApart(p')
  }

  function PublishEarly(p: Presenter): nat
    requires p.chain.Some?
  {
    if p.chain.value.shape.hasFormat then |Used(p.dev, p.ctx.views)| else 0
  }

  /** New views are used by nothing yet. */
  lemma PublishReleases(p: Presenter)
    requires Attached(p) && ViewsApart(p)
    ensures Released(p, Publish(p), PublishEarly(p))
    ensures Used(Publish(p).dev, Publish(p).ctx.views) == {}
  {
    if p.chain.value.shape.hasFormat {
      ReleaseCounts(p.dev, p.ctx.views);
      var d := ReleaseAll(p.dev, p.ctx.views);
      CreatedCounts(d, p.chain.value.id, p.chain.value.shape.imageCount);
    }
  }

  lemma RefreshReleases(p: Presenter)
    requires Attached(p) && ViewsApart(p)
    ensures Released(p, Refresh(p), PublishEarly(p))
    ensures Used(Refresh(p).dev, Refresh(p).ctx.views) == {}
  {
    PublishReleases(p.(ctx := p.ctx.(presentation := p.chain.value.shape.extent)));
  }


  /** Making a chain and losing the old one changes nothing about the views. */
  lemma ReplaceReleases(p: Presenter, shape: Shape)
    requires PresenterOk(p) && ViewsApart(p)
    ensures
      var p' := Replace(p, shape).1;
      Released(p, p', 0) && Used(p'.dev, p.ctx.views) == Used(p.dev, p.ctx.views)
  {
    var p' := Replace(p, shape).1;
    forall v | v in p.ctx.views ensures v < p.dev.calls && v in p'.dev.live && p'.dev.live[v] == p.dev.live[v] {
      assert ViewOk(p, v);
    }
    forall v | v in p.ctx.views ensures InUse(p'.dev, v) <==> InUse(p.dev, v) {
      assert ViewOk(p, v);
      ChainUsesNoView(p, shape, v);
    }
  }

  lemma ChainUsesNoView(p: Presenter, shape: Shape, v: Id)
    requires PresenterOk(p) && v in p.ctx.views && ViewOk(p, v)
    ensures InUse(Replace(p, shape).1.dev, v) <==> InUse(p.dev, v)
  {
    var p' := Replace(p, shape).1;
    if user :| user in p.dev.live && v in p.dev.live[user] {
      assert v < user;
      assert p.chain.Some? ==> p.chain.value.id < v;
      assert user in p'.dev.live && v in p'.dev.live[user];
    }
    if user :| user in p'.dev.live && v in p'.dev.live[user] {
      assert user in p.dev.live && v in p.dev.live[user];
    }
  }

  // ----- Every run

  /** The step publishes views in place of the old ones, a format being known. */
  predicate Republishes(w: World, step: Step) {
    match step
    case DoResize(_, shape) =>
      w.p.chain.Some? && (if w.p.dev.answer(w.p.dev.calls) then shape.hasFormat else w.p.chain.value.shape.hasFormat)
    case DoRebuild(shape) =>
      w.p.chain.Some? && (if w.p.dev.answer(w.p.dev.calls) then shape.hasFormat else w.p.chain.value.shape.hasFormat)
    case DoAttach(surface, shape) => surface && w.p.dev.answer(w.p.dev.calls) && shape.hasFormat
    case _ => false
  }

  /** The published views that a live framebuffer refers to. */
  function UsedViews(w: World): set<Id> {
    Used(w.p.dev, w.p.ctx.views)
  }

  function EarlyBy(w: World, step: Step): nat {
    if Republishes(w, step) then |UsedViews(w)| else 0
  }

  lemma ReplacedReleases(p: Presenter, shape: Shape, twice: bool)
    requires PresenterOk(p) && ViewsApart(p) && Replace(p, shape).1.chain.Some?
    ensures
      var (made, p1) := Replace(p, shape);
      var p' := if twice && made.Some? then Refresh(Refresh(p1)) else Refresh(p1);
      Released(p, p', if p1.chain.value.shape.hasFormat then |Used(p.dev, p.ctx.views)| else 0)
  {
    ReplaceFacts(p, shape);
    ReplaceReleases(p, shape);
    var (made, p1) := Replace(p, shape);
    RefreshFacts(p1);
    RefreshReleases(p1);
    if twice && made.Some? { RefreshReleases(Refresh(p1)); }
  }

  lemma ResizeReleases(p: Presenter, size: Extent, shape: Shape)
    requires PresenterOk(p) && ViewsApart(p) && p.chain.Some?
    ensures
      var p1 := Replace(p, shape).1;
      Released(p, Resize(p, size, shape), if p1.chain.value.shape.hasFormat then |Used(p.dev, p.ctx.views)| else 0)
  {
    var p0 := p.(ctx := p.ctx.(resolution := AtLeastOne(size)));
    ReplaceFacts(p0, shape);
    ReplaceReleases(p0, shape);
    var (made, p1) := Replace(p0, shape);
    RefreshReleases(if made.Some? then p1.(ctx := p1.ctx.(generation := (p1.ctx.generation + 1) % GENERATIONS)) else p1);
  }

  lemma PresenterReleases(w: World, step: Step)
    requires PresenterOk(w.p) && ViewsApart(w.p) && Presents(step)
    ensures Released(w.p, Next(w, step).p, EarlyBy(w, step))
  {
    match step
    case DoAcquire(index) =>
    case DoResize(size, shape) => if w.p.chain.Some? { ResizeReleases(w.p, size, shape); }
    case DoRebuild(shape) =>
      if w.p.chain.Some? {
        ReplaceFacts(w.p, shape);
        ReplacedReleases(w.p, shape, true);
      }
    case DoAttach(surface, shape) =>
      if surface {
        ReplaceFacts(w.p, shape);
        ReplaceReleases(w.p, shape);
        if w.p.dev.answer(w.p.dev.calls) { ReplacedReleases(w.p, shape, false); }
      }
    case _ =>
  }

  /** Nothing is released, and what was alive still is, built from the same objects. */
  ghost predicate OnlyAdds(d: Device, d': Device) {
    && Sane(d') && d'.doubleReleases == d.doubleReleases && d'.earlyReleases == d.earlyReleases
    && forall id :: id in d.live ==> id in d'.live && d'.live[id] == d.live[id]
  }

  lemma DepthOnlyAdds(s: Depth, d: Device, size: Extent)
    requires Sane(d)
    ensures OnlyAdds(d, DepthView(s, d, size).2)
  {
  }

  lemma ForwardOnlyAdds(w: World, last: nat)
    requires Inv(w, last)
    ensures OnlyAdds(w.p.dev, Forwarded(w).dev)
  {
    if !w.forward.pinned && Drawable(w.p.ctx) {
      DepthOnlyAdds(w.depth, w.p.dev, DrawableSize(w.p.ctx));
      DepthViewFacts(w, DrawableSize(w.p.ctx), last);
      assert ViewOk(w.p, w.p.ctx.views[w.p.ctx.imageIndex]);
    }
  }

  lemma CompositeOnlyAdds(w: World, last: nat)
    requires Inv(w, last)
    ensures OnlyAdds(w.p.dev, Composed(w).dev)
  {
    if w.composite.pinned.None? && Drawable(w.p.ctx) {
      assert ViewOk(w.p, w.p.ctx.views[w.p.ctx.imageIndex]);
    }
  }

  lemma AddsRelease(p: Presenter, p': Presenter)
    requires ViewsApart(p) && OnlyAdds(p.dev, p'.dev) && p'.ctx.views == p.ctx.views
    ensures Released(p, p', 0)
  {
  }

  /** The passes release nothing and leave what they find as it is. */
  lemma PassReleases(w: World, last: nat, step: Step)
    requires Inv(w, last) && ViewsApart(w.p) && !Presents(step)
    ensures Released(w.p, Next(w, step).p, 0)
  {
    match step {
      case OtherDepthUser(size) => DepthOnlyAdds(w.depth, w.p.dev, size);
      case DrawForward(accepted) => ForwardOnlyAdds(w, last);
      case DrawComposite => CompositeOnlyAdds(w, last);
      case _ =>
    }
    AddsRelease(w.p, Next(w, step).p);
  }

  function EarlyCount(w: World, steps: seq<Step>): nat {
    if steps == [] then 0
    else
      var k := |steps| - 1;
      EarlyCount(w, steps[..k]) + EarlyBy(Run(w, steps[..k]), steps[k])
  }

  /** Over every run of fewer than 2^64 steps nothing is released twice, and early go exactly the views
      over which a live framebuffer was built, each time views are published in place of others. */
  lemma {:induction false} RunReleases(w: World, last: nat, steps: seq<Step>)
    requires Inv(w, last) && ViewsApart(w.p) && w.p.ctx.generation + |steps| < GENERATIONS
    ensures Released(w.p, Run(w, steps).p, EarlyCount(w, steps))
  {
    if steps != [] {
      var before, step := steps[..|steps| - 1], steps[|steps| - 1];
      RunReleases(w, last, before);
      RunKeepsInv(w, last, before);
      var v := Run(w, before);
      if Presents(step) { PresenterReleases(v, step); } else { PassReleases(v, Last(w, last, before), step); }
    }
  }

  /** So a resize releases early behind every frame drawn since the views were published. */
  lemma ResizeAfterDrawReleasesEarly(w: World, last: nat, accepted: bool, size: Extent, shape: Shape)
    requires Inv(w, last) && ViewsApart(w.p) && w.p.ctx.generation + 1 < GENERATIONS
    requires !w.forward.pinned && Forwarded(w).target.Some? && w.p.chain.Some? && !ForwardReusesOlder(w, last)
    requires Republishes(Next(w, DrawForward(accepted)), DoResize(size, shape))
    ensures Next(Next(w, DrawForward(accepted)), DoResize(size, shape)).p.dev.earlyReleases > w.p.dev.earlyReleases
  {
    var drawn := Next(w, DrawForward(accepted));
    ForwardFreshIff(w, last);
    DrawKeepsInv(w, last, accepted);
    PassReleases(w, last, DrawForward(accepted));
    PresenterReleases(drawn, DoResize(size, shape));
    var fb := Forwarded(w).target.value;
    assert fb.id in drawn.p.dev.live && fb.color in drawn.p.dev.live[fb.id];
    assert fb.color in UsedViews(drawn);
  }

  /** A window before anything has happened has left nothing and may start such a run. */
  lemma BlankStart(w: World)
    requires Blank(w)
    ensures Inv(w, 0) && Separate(w) && ViewsApart(w.p) && Left(w) == {}
  {
  }
}
