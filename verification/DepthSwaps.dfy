/** Swapping the shared depth handle: when the forward pass notices, for one answer and over every run
    that swaps among any number of buffers. */
module DepthSwaps {
  import opened Basics
  import opened Devices
  import opened Targets
  import opened TargetSafety

  /** The guard under which the framebuffer survives a change of the depth handle to `s`. */
  predicate SwapHit(w: World, s: Depth) {
    var size := DrawableSize(w.p.ctx);
    && w.forward.framebuffer.Some?
    && w.forward.image == Some(w.p.ctx.imageIndex)
    && w.forward.generation == Some(w.p.ctx.generation)
    && w.forward.extent == Some(size)
    && w.forward.depthGeneration == Some(s.generation + (if DepthStale(s, size) then 1 else 0))
  }

  /** After `set_depth_target` hands the pass another buffer, its next answer is fresh exactly when
      a chain is attached and the two buffers' recreation counts do not happen to agree. */
  lemma SwapStaleIffCountsAgree(w: World, last: nat, s: Depth)
    requires Inv(w, last) && !w.forward.pinned && DepthOk(w.p, s)
    requires w.forward.framebuffer.Some? ==> s.view != w.forward.framebuffer.value.depth
    ensures
      var r := Forwarded(w.(depth := s));
      r.target.Some? ==> (FreshForward(r.target.value, w.p.ctx, r.depth, r.dev) <==> w.p.chain.Some? && !SwapHit(w, s))
  {
    if Drawable(w.p.ctx) && DepthView(s, w.p.dev, DrawableSize(w.p.ctx)).0.Some? {
      if SwapHit(w, s) {
        SwapReuses(w, last, s);
      } else {
        var blank := w.(depth := s, forward := NEW_FORWARD, composite := NEW_COMPOSITE);
        ForwardFreshIff(blank, last);
        SwapMiss(w.(depth := s));
      }
    }
  }

  lemma SwapReuses(w: World, last: nat, s: Depth)
    requires Inv(w, last) && !w.forward.pinned && DepthOk(w.p, s) && Drawable(w.p.ctx) && SwapHit(w, s)
    requires s.view != w.forward.framebuffer.value.depth && DepthView(s, w.p.dev, DrawableSize(w.p.ctx)).0.Some?
    ensures
      var r := Forwarded(w.(depth := s));
      r.target == w.forward.framebuffer && r.depth.view.Some? && r.target.value.depth != r.depth.view
  {
    assert w.forward.framebuffer.value.depth.value < w.p.dev.calls;
  }

  /** Without a usable framebuffer the pass does what a pass with empty caches does. */
  lemma SwapMiss(v: World)
    requires !v.forward.pinned && Drawable(v.p.ctx) && !SwapHit(v, v.depth)
    ensures
      var r, blank := Forwarded(v), Forwarded(v.(forward := NEW_FORWARD, composite := NEW_COMPOSITE));
      r.target == blank.target && r.depth == blank.depth && r.dev == blank.dev
  {
  }

  /** A buffer recreated once and a brand-new one agree: the swap that the first frame after
      start-up would make goes unnoticed. */
  lemma NewDepthAfterFirstFrameIgnored(w: World, last: nat)
    requires Inv(w, last) && !w.forward.pinned && ForwardHit(w) && Drawable(w.p.ctx) && w.depth.generation == 1
    requires w.p.dev.answer(w.p.dev.calls) && w.p.dev.answer(w.p.dev.calls + 1)
    ensures
      var r := Forwarded(w.(depth := NEW_DEPTH));
      && r.target == w.forward.framebuffer
      && r.depth.view.Some? && r.target.value.depth != r.depth.view
  {
    SwapReuses(w, last, NEW_DEPTH);
  }

  // ----- Runs with swaps

  /** The renderer with buffers the forward pass does not hold at the moment. */
  datatype Stage = Stage(world: World, spare: seq<Depth>)

  datatype StageStep =
    | Plain(step: Step)
    | SwapDepth(k: nat)
    | SpareUser(k: nat, size: Extent)

  function Onward(s: Stage, step: StageStep): Stage {
    match step
    case Plain(plain) => s.(world := Next(s.world, plain))
    case SwapDepth(k) =>
      if k >= |s.spare| then s
      else Stage(s.world.(depth := s.spare[k]), s.spare[k := s.world.depth])
    case SpareUser(k, size) =>
      if k >= |s.spare| then s else
      var (_, depth, dev) := DepthView(s.spare[k], s.world.p.dev, size);
      Stage(s.world.(p := s.world.p.(dev := dev)), s.spare[k := depth])
  }

  function Pass(s: Stage, steps: seq<StageStep>): Stage {
    if steps == [] then s else Onward(Pass(s, steps[..|steps| - 1]), steps[|steps| - 1])
  }

  /** The held buffer, then the spare ones. */
  function All(s: Stage): seq<Depth> {
    [s.world.depth] + s.spare
  }

  /** What the run's history says of the cached framebuffer: the device call number at the latest
      unannounced step, and the place of the buffer the framebuffer was built over, 0 being the held one. */
  datatype History = History(last: nat, home: nat)

  function Moved(home: nat, k: nat): nat {
    if home == 0 then k + 1 else if home == k + 1 then 0 else home
  }

  function Remember(s: Stage, h: History, step: StageStep): History {
    match step
    case Plain(plain) =>
      History(LastAfter(s.world, h.last, plain),
        if Next(s.world, plain).forward.framebuffer == s.world.forward.framebuffer then h.home else 0)
    case SwapDepth(k) => if k >= |s.spare| then h else h.(home := Moved(h.home, k))
    case SpareUser(_, _) => h
  }

  function Recall(s: Stage, h: History, steps: seq<StageStep>): History {
    if steps == [] then h
    else
      var k := |steps| - 1;
      Remember(Pass(s, steps[..k]), Recall(s, h, steps[..k]), steps[k])
  }

  // ----- The invariant

  /** No two buffers share a view. */
  ghost predicate Apart(all: seq<Depth>) {
    forall i, j :: 0 <= i < |all| && 0 <= j < |all| && i != j && all[i].view.Some? ==> all[i].view != all[j].view
  }

  ghost predicate AllOk(p: Presenter, all: seq<Depth>) {
    forall i :: 0 <= i < |all| ==> DepthOk(p, all[i])
  }

  /** Only the buffer at home has had the view the framebuffer attaches. */
  ghost predicate OnlyHome(f: Forward, all: seq<Depth>, home: nat) {
    !f.pinned && f.framebuffer.Some? ==>
      forall i :: 0 <= i < |all| && i != home && all[i].view.Some? ==> all[i].view != f.framebuffer.value.depth
  }

  /** Were the buffer at home held, the invariant of the other runs would hold. */
  ghost predicate StageOk(s: Stage, h: History) {
    && h.home < |All(s)|
    && Inv(s.world.(depth := All(s)[h.home]), h.last)
    && AllOk(s.world.p, All(s)) && Apart(All(s))
    && OnlyHome(s.world.forward, All(s), h.home)
  }

  /** The renderer holding this buffer, with nothing cached for the forward pass. */
  function Side(w: World, depth: Depth): World {
    w.(depth := depth, forward := NEW_FORWARD)
  }

  lemma SidesOk(s: Stage, h: History)
    requires StageOk(s, h)
    ensures forall i :: 0 <= i < |All(s)| ==> Inv(Side(s.world, All(s)[i]), h.last)
  {
  }

  // ----- Steps that touch one buffer

  /** A buffer is as it was, or has a view newer than everything before. */
  ghost predicate Renewed(s: Depth, s': Depth, calls: nat) {
    s'.view == s.view || (s'.view.Some? && s'.view.value >= calls)
  }

  lemma ViewsBefore(s: Stage, h: History)
    requires StageOk(s, h)
    ensures forall i :: 0 <= i < |All(s)| && All(s)[i].view.Some? ==> All(s)[i].view.value < s.world.p.dev.calls
    ensures !s.world.forward.pinned && s.world.forward.framebuffer.Some? ==>
      s.world.forward.framebuffer.value.depth.Some? && s.world.forward.framebuffer.value.depth.value < s.world.p.dev.calls
  {
    forall i | 0 <= i < |All(s)| && All(s)[i].view.Some? ensures All(s)[i].view.value < s.world.p.dev.calls {
      assert DepthOk(s.world.p, All(s)[i]);
    }
  }

  /** Buffers beside the one that changed are as good as before, and still apart from it. */
  lemma OthersKeep(s: Stage, h: History, p': Presenter, i: nat, depth: Depth)
    requires StageOk(s, h) && i < |All(s)|
    requires Grows(s.world.p.dev, p'.dev) && p' == s.world.p.(dev := p'.dev)
    requires DepthOk(p', depth) && Renewed(All(s)[i], depth, s.world.p.dev.calls)
    ensures AllOk(p', All(s)[i := depth]) && Apart(All(s)[i := depth])
    ensures OnlyHome(s.world.forward, All(s)[i := depth], h.home) || i == h.home
    ensures i != h.home ==> Inv(s.world.(p := p', depth := All(s)[h.home]), h.last)
  {
    var all := All(s)[i := depth];
    ViewsBefore(s, h);
    SidesOk(s, h);
    forall j | 0 <= j < |all| ensures DepthOk(p', all[j]) {
      if j != i { OnlyNewObjects(Side(s.world, All(s)[j]), p', h.last); }
    }
    OnlyNewObjects(s.world.(depth := All(s)[h.home]), p', h.last);
  }

  lemma UserRenews(w: World, last: nat, size: Extent)
    requires Inv(w, last)
    ensures Renewed(w.depth, DepthView(w.depth, w.p.dev, size).1, w.p.dev.calls)
  {
  }

  lemma HomeUnlimited(f: Forward, all: seq<Depth>, home: nat, depth: Depth)
    requires home < |all| && OnlyHome(f, all, home)
    ensures OnlyHome(f, all[home := depth], home)
  {
  }

  /** Another pass asks a buffer, held or not, for its view. */
  lemma UserKeeps(s: Stage, h: History, i: nat, size: Extent)
    requires StageOk(s, h) && i < |All(s)|
    ensures
      var (_, depth, dev) := DepthView(All(s)[i], s.world.p.dev, size);
      var p' := s.world.p.(dev := dev);
      && AllOk(p', All(s)[i := depth]) && Apart(All(s)[i := depth])
      && OnlyHome(s.world.forward, All(s)[i := depth], h.home)
      && Inv(s.world.(p := p', depth := All(s)[i := depth][h.home]), h.last)
  {
    var (_, depth, dev) := DepthView(All(s)[i], s.world.p.dev, size);
    SidesOk(s, h);
    DepthViewFacts(Side(s.world, All(s)[i]), size, h.last);
    UserRenews(Side(s.world, All(s)[i]), h.last, size);
    OthersKeep(s, h, s.world.p.(dev := dev), i, depth);
    if i == h.home {
      DepthViewFacts(s.world.(depth := All(s)[i]), size, h.last);
      HomeUnlimited(s.world.forward, All(s), i, depth);
    }
  }

  // ----- Steps that leave every buffer alone

  predicate Elsewhere(step: Step) {
    !step.DrawForward? && !step.OtherDepthUser?
  }

  lemma ElsewhereSame(w: World, depth: Depth, f: Forward, step: Step)
    requires Elsewhere(step)
    ensures
      var v := Next(w.(depth := depth), step);
      && v.depth == depth && v.p == Next(w, step).p && v.forward == Next(w, step).forward && v.composite == Next(w, step).composite
      && Next(w.(depth := depth, forward := f), step).p == v.p && Next(w.(depth := depth, forward := f), step).depth == depth
  {
  }

  lemma ElsewhereForward(w: World, step: Step)
    requires Elsewhere(step)
    ensures
      var f := Next(w, step).forward;
      f == w.forward || f.pinned || f.framebuffer.None?
  {
  }

  lemma ElsewhereKeeps(s: Stage, h: History, step: Step)
    requires StageOk(s, h) && Elsewhere(step) && s.world.p.ctx.generation + 1 < GENERATIONS
    ensures StageOk(Onward(s, Plain(step)), Remember(s, h, Plain(step)))
    ensures Onward(s, Plain(step)).world.p.ctx.generation <= s.world.p.ctx.generation + 1
  {
    var w, all := s.world, All(s);
    var w' := Next(w, step);
    SidesOk(s, h);
    forall i | 0 <= i < |all| ensures DepthOk(w'.p, all[i]) {
      StepKeepsInv(Side(w, all[i]), h.last, step);
      ElsewhereSame(w, all[i], NEW_FORWARD, step);
    }
    StepKeepsInv(w.(depth := all[h.home]), h.last, step);
    ElsewhereSame(w, all[h.home], NEW_FORWARD, step);
    ElsewhereSame(w, w.depth, NEW_FORWARD, step);
    ElsewhereForward(w, step);
    assert All(Onward(s, Plain(step))) == all;
  }

  // ----- Draws

  /** What a draw does to the cache: nothing, or it empties it, or it builds over the view just served. */
  lemma CacheCases(w: World)
    requires !w.forward.pinned
    ensures
      var r, blank := Forwarded(w), Forwarded(w.(forward := NEW_FORWARD));
      && !r.cache.pinned
      && (r.cache == w.forward || r.cache.framebuffer.None? ||
           (r.cache == blank.cache && r.depth == blank.depth && r.dev == blank.dev && r.target == r.cache.framebuffer
            && r.target.Some? && r.target.value.depth == r.depth.view && r.target.value.id >= w.p.dev.calls))
  {
    DepthCalls(w);
  }

  lemma DepthCalls(w: World)
    ensures
      var (view, s, d) := DepthView(w.depth, w.p.dev, DrawableSize(w.p.ctx));
      d.calls >= w.p.dev.calls && (view.Some? ==> s.view == view)
  {
  }

  lemma DrawnDepth(w: World, last: nat)
    requires Inv(w.(forward := NEW_FORWARD), last)
    ensures
      var r := Forwarded(w);
      && Grows(w.p.dev, r.dev) && DepthOk(w.p.(dev := r.dev), r.depth) && Renewed(w.depth, r.depth, w.p.dev.calls)
  {
    if !w.forward.pinned && Drawable(w.p.ctx) {
      var side := w.(forward := NEW_FORWARD);
      DepthViewFacts(side, DrawableSize(w.p.ctx), last);
      UserRenews(side, last, DrawableSize(w.p.ctx));
      AfterDepth(w);
      var (view, s, d) := DepthView(w.depth, w.p.dev, DrawableSize(w.p.ctx));
      if Forwarded(w).dev != d {
        OneMore(side.(depth := s, p := w.p.(dev := d)), last, view.value);
      }
    }
  }

  /** Behind the depth view a draw asks for one framebuffer at most. */
  lemma AfterDepth(w: World)
    requires !w.forward.pinned && Drawable(w.p.ctx)
    ensures
      var (view, s, d) := DepthView(w.depth, w.p.dev, DrawableSize(w.p.ctx));
      && Forwarded(w).depth == s
      && (Forwarded(w).dev == d || (view.Some? && Forwarded(w).dev == Create(d, {w.p.ctx.views[w.p.ctx.imageIndex], view.value}).1))
  {
  }

  lemma OneMore(w: World, last: nat, view: Id)
    requires Inv(w, last) && w.p.ctx.imageIndex < |w.p.ctx.views| && view in w.p.dev.live
    ensures
      var d := Create(w.p.dev, {w.p.ctx.views[w.p.ctx.imageIndex], view}).1;
      Grows(w.p.dev, d) && Inv(w.(p := w.p.(dev := d)), last)
  {
    var color := w.p.ctx.views[w.p.ctx.imageIndex];
    assert ViewOk(w.p, color);
    OnlyNewObjects(w, w.p.(dev := Create(w.p.dev, {color, view}).1), last);
  }

  /** Where the framebuffer's buffer is after a draw. */
  function HomeAfter(w: World, home: nat): nat {
    if Resolved(w).forward.framebuffer == w.forward.framebuffer then home else 0
  }

  /** The cache as a draw leaves it, for a pass that holds the buffer its framebuffer was built over. */
  lemma HeldDraw(s: Stage, h: History)
    requires StageOk(s, h) && !s.world.forward.pinned && h.home == 0
    ensures
      var v := Resolved(s.world);
      Inv(v, h.last) && OnlyHome(v.forward, All(s)[0 := v.depth], 0)
  {
    ForwardFreshIff(s.world, h.last);
    CacheCases(s.world);
    DrawnApart(s, h);
  }

  lemma AwayDraw(s: Stage, h: History)
    requires StageOk(s, h) && !s.world.forward.pinned && h.home > 0
    ensures
      var v := Resolved(s.world);
      var all := All(s)[0 := v.depth];
      Inv(v.(depth := all[HomeAfter(s.world, h.home)]), h.last) && OnlyHome(v.forward, all, HomeAfter(s.world, h.home))
  {
    SidesOk(s, h);
    assert Side(s.world, All(s)[0]) == s.world.(forward := NEW_FORWARD);
    DrawnDepth(s.world, h.last);
    CacheCases(s.world);
    DrawnApart(s, h);
    ForwardFreshIff(s.world.(forward := NEW_FORWARD), h.last);
    var r := Forwarded(s.world);
    var p' := s.world.p.(dev := r.dev);
    OthersKeep(s, h, p', 0, r.depth);
  }

  /** A framebuffer built by a draw is over the held buffer's view, and the draw keeps the others apart. */
  lemma DrawnApart(s: Stage, h: History)
    requires StageOk(s, h) && !s.world.forward.pinned
    ensures
      var v := Resolved(s.world);
      var all := All(s)[0 := v.depth];
      && AllOk(v.p, all) && Apart(all)
      && (OnlyHome(s.world.forward, all, h.home) || h.home == 0)
      && OnlyHome(v.forward, all, HomeAfter(s.world, h.home))
  {
    SidesOk(s, h);
    assert Side(s.world, All(s)[0]) == s.world.(forward := NEW_FORWARD);
    DrawnDepth(s.world, h.last);
    var r := Forwarded(s.world);
    OthersKeep(s, h, s.world.p.(dev := r.dev), 0, r.depth);
    if h.home == 0 { HomeUnlimited(s.world.forward, All(s), 0, r.depth); }
    CacheCases(s.world);
  }

  lemma ResolvedKeeps(s: Stage, h: History)
    requires StageOk(s, h)
    ensures StageOk(s.(world := Resolved(s.world)), h.(home := HomeAfter(s.world, h.home)))
  {
    var v := Resolved(s.world);
    if s.world.forward.pinned {
      assert v == s.world;
    } else {
      assert All(s.(world := v)) == All(s)[0 := v.depth];
      DrawnApart(s, h);
      if h.home == 0 { HeldDraw(s, h); } else { AwayDraw(s, h); }
    }
  }

  /** The written flag plays no part in the invariant. */
  lemma MarkKeeps(s: Stage, h: History)
    requires StageOk(s, h)
    ensures StageOk(s.(world := s.world.(depth := s.world.depth.(written := true))), h)
  {
    var all, all' := All(s), All(s.(world := s.world.(depth := s.world.depth.(written := true))));
    assert forall i :: 0 <= i < |all| ==> all'[i].view == all[i].view && all'[i].image == all[i].image && all'[i].generation == all[i].generation;
    forall i | 0 <= i < |all'| ensures DepthOk(s.world.p, all'[i]) {
      assert DepthOk(s.world.p, all[i]);
    }
  }

  lemma DrawKeeps(s: Stage, h: History, accepted: bool)
    requires StageOk(s, h)
    ensures StageOk(Onward(s, Plain(DrawForward(accepted))), Remember(s, h, Plain(DrawForward(accepted))))
    ensures Onward(s, Plain(DrawForward(accepted))).world.p.ctx == s.world.p.ctx
  {
    ResolvedKeeps(s, h);
    var drawn, h' := s.(world := Resolved(s.world)), h.(home := HomeAfter(s.world, h.home));
    if Records(s.world, DrawForward(accepted)) {
      MarkKeeps(drawn, h');
    }
    assert Remember(s, h, Plain(DrawForward(accepted))) == h';
  }

  // ----- Every run

  lemma SwapKeeps(s: Stage, h: History, k: nat)
    requires StageOk(s, h) && k < |s.spare|
    ensures StageOk(Onward(s, SwapDepth(k)), h.(home := Moved(h.home, k)))
  {
    var all, all' := All(s), All(Onward(s, SwapDepth(k)));
    assert all' == all[0 := all[k + 1]][k + 1 := all[0]];
    assert all'[Moved(h.home, k)] == all[h.home];
  }

  lemma StageStepKeeps(s: Stage, h: History, step: StageStep)
    requires StageOk(s, h) && s.world.p.ctx.generation + 1 < GENERATIONS
    ensures StageOk(Onward(s, step), Remember(s, h, step))
    ensures Onward(s, step).world.p.ctx.generation <= s.world.p.ctx.generation + 1
  {
    match step
    case Plain(plain) =>
      match plain {
        case DrawForward(accepted) => DrawKeeps(s, h, accepted);
        case OtherDepthUser(size) =>
          UserKeeps(s, h, 0, size);
          assert All(Onward(s, step)) == All(s)[0 := Onward(s, step).world.depth];
        case _ => ElsewhereKeeps(s, h, plain);
      }
    case SwapDepth(k) => if k < |s.spare| { SwapKeeps(s, h, k); }
    case SpareUser(k, size) =>
      if k < |s.spare| {
        UserKeeps(s, h, k + 1, size);
        assert All(Onward(s, step)) == All(s)[k + 1 := Onward(s, step).spare[k]];
      }
  }

  lemma {:induction false} StageRunKeeps(s: Stage, h: History, steps: seq<StageStep>)
    requires StageOk(s, h) && s.world.p.ctx.generation + |steps| < GENERATIONS
    ensures StageOk(Pass(s, steps), Recall(s, h, steps))
    ensures Pass(s, steps).world.p.ctx.generation <= s.world.p.ctx.generation + |steps|
  {
    if steps != [] {
      var before := steps[..|steps| - 1];
      StageRunKeeps(s, h, before);
      StageStepKeeps(Pass(s, before), Recall(s, h, before), steps[|steps| - 1]);
    }
  }

  /** The pass is about to reuse a framebuffer that is older than the latest unannounced step, or that
      was built over a buffer the pass no longer holds. */
  predicate ReusesAnother(s: Stage, h: History) {
    SwapHit(s.world, s.world.depth) && (h.home != 0 || s.world.forward.framebuffer.value.id < h.last)
  }

  lemma StageFreshIff(s: Stage, h: History)
    requires StageOk(s, h) && !s.world.forward.pinned
    ensures
      var r := Forwarded(s.world);
      r.target.Some? ==>
        (FreshForward(r.target.value, s.world.p.ctx, r.depth, r.dev) <==> s.world.p.chain.Some? && !ReusesAnother(s, h))
  {
    var w := s.world;
    if h.home == 0 {
      ForwardFreshIff(w, h.last);
    } else {
      var homeWorld := w.(depth := All(s)[h.home]);
      assert DepthOk(w.p, All(s)[0]);
      SwapStaleIffCountsAgree(homeWorld, h.last, w.depth);
      assert homeWorld.(depth := w.depth) == w;
    }
  }

  /** The exact condition over every run, swaps among any number of buffers included: an unpinned answer
      is fresh if and only if a chain is attached and the pass does not reuse a framebuffer older than
      the latest unannounced step or built over a buffer it does not hold. */
  lemma FreshIffOverSwaps(s: Stage, h: History, steps: seq<StageStep>)
    requires StageOk(s, h) && s.world.p.ctx.generation + |steps| < GENERATIONS
    ensures
      var v := Pass(s, steps);
      var r := Forwarded(v.world);
      var stale := v.world.p.chain.None? || ReusesAnother(v, Recall(s, h, steps));
      !v.world.forward.pinned && r.target.Some? ==>
        (FreshForward(r.target.value, v.world.p.ctx, r.depth, r.dev) <==> !stale)
  {
    StageRunKeeps(s, h, steps);
    var v := Pass(s, steps);
    if !v.world.forward.pinned { StageFreshIff(v, Recall(s, h, steps)); }
  }

  /** A window before anything has happened, with any number of new buffers to swap among, may start
      such a run. */
  lemma BlankStageOk(w: World, spare: seq<Depth>)
    requires Blank(w) && forall k :: 0 <= k < |spare| ==> spare[k] == NEW_DEPTH
    ensures StageOk(Stage(w, spare), History(0, 0))
  {
    assert forall i :: 0 <= i < |All(Stage(w, spare))| ==> All(Stage(w, spare))[i] == NEW_DEPTH;
  }
}
