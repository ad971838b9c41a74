/** The geometry pass under pins: what it answers while pinned, and exactly when a later frame
    releases the depth view under a framebuffer that a pin has dropped. */
module GeometryPins {
  import opened Basics
  import opened Devices
  import opened Targets
  import opened GeometryTargets

  datatype PassStep = Draw(frame: Frame) | SetPin(framebuffer: Option<Framebuffer>) | Unpin

  datatype Pass = Pass(state: Geometry, dev: Device)

  function Act(w: Pass, step: PassStep): Pass {
    match step
    case Draw(c) => var (_, g, d) := Resolve(w.state, c, w.dev); Pass(g, d)
    case SetPin(framebuffer) => w.(state := Pin(w.state, framebuffer))
    case Unpin => w.(state := ClearPin(w.state))
  }

  function After(w: Pass, steps: seq<PassStep>): Pass {
    if steps == [] then w else Act(After(w, steps[..|steps| - 1]), steps[|steps| - 1])
  }

  /** The frame replaces the depth image. */
  predicate Replaces(g: Geometry, c: Frame) {
    !g.pinned && !Reusable(g, c) && c.imageIndex < |c.rawViews| && c.hasFormat && Stale(g, c)
  }

  /** The step drops a framebuffer over the pass's depth view without releasing it. */
  predicate Drops(g: Geometry, step: PassStep) {
    !step.Draw? && !g.pinned && g.hasDepth && g.framebuffer.Some?
  }

  predicate ReplacesDepth(g: Geometry, step: PassStep) {
    step.Draw? && Replaces(g, step.frame)
  }

  // ----- The invariant

  /** The state without a framebuffer that is not the pass's own. */
  function Own(g: Geometry): Geometry {
    if g.pinned then g.(framebuffer := None) else g
  }

  /** `user` is a live framebuffer over the pass's depth view that the pass does not hold. */
  ghost predicate Stray(g: Geometry, d: Device, user: Id) {
    && g.depthView.Some? && user in d.live && g.depthView.value in d.live[user]
    && (Own(g).framebuffer.Some? ==> user != Own(g).framebuffer.value.id)
  }

  ghost predicate Strayed(g: Geometry, d: Device) {
    exists user :: Stray(g, d, user)
  }

  /** Besides strays over the depth view, nothing outside the pass is built from what it holds. */
  ghost predicate AlmostPrivate(g: Geometry, d: Device) {
    forall user, id :: user in d.live && id in d.live[user] && id in Held(g) ==>
      user in Held(g) || Stray(g, d, user)
  }

  ghost predicate PassOk(w: Pass) {
    && Sane(w.dev) && HeldOk(Own(w.state), w.dev) && AlmostPrivate(Own(w.state), w.dev)
    && (forall user :: Stray(w.state, w.dev, user) ==> w.dev.live[user] == {w.state.depthView.value})
    && (Own(w.state).framebuffer.Some? && w.state.hasDepth ==> w.state.depthView.Some?)
    && (!w.state.hasDepth ==> w.state.depthView.None?)
  }

  lemma SoundIsOk(g: Geometry, d: Device)
    requires GeometryOk(g, d)
    ensures PassOk(Pass(g, d)) && !Strayed(g, d)
  {
    HeldSplit(g);
    forall user ensures !Stray(g, d, user) {
      assert g.depthView.Some? ==> g.depthView.value in Held(g);
    }
  }

  lemma OwnUnused(g: Geometry, d: Device)
    requires PassOk(Pass(g, d)) && !g.pinned && g.framebuffer.Some?
    ensures !InUse(d, g.framebuffer.value.id)
  {
    HeldSplit(g);
  }

  // ----- One step

  /** Dropping the framebuffer turns it into a stray, when there is a depth view under it. */
  lemma DropFacts(w: Pass, step: PassStep)
    requires PassOk(w) && !step.Draw?
    ensures
      var w' := Act(w, step);
      && w'.dev == w.dev && PassOk(w')
      && (Strayed(w'.state, w'.dev) <==> Strayed(w.state, w.dev) || Drops(w.state, step))
  {
    var g, g' := w.state, Act(w, step).state;
    HeldSplit(Own(g));
    HeldSplit(Own(g'));
    forall user | Stray(g, w.dev, user) ensures Stray(g', w.dev, user) {}
    if Drops(g, step) {
      assert Stray(g', w.dev, g.framebuffer.value.id);
    }
    forall user | Stray(g', w.dev, user)
      ensures Stray(g, w.dev, user) || (Drops(g, step) && user == g.framebuffer.value.id)
    {
    }
  }

  /** Everything held goes; the depth view goes early exactly when a stray refers to it. */
  lemma ReleaseStrayed(g: Geometry, d: Device)
    requires PassOk(Pass(g, d)) && !g.pinned
    ensures
      var d' := ReleaseAll(d, HeldInOrder(g));
      && d'.doubleReleases == d.doubleReleases
      && d'.earlyReleases == d.earlyReleases + (if Strayed(g, d) then 1 else 0)
  {
    ReleaseFirst(g, d);
    if g.framebuffer.Some? { OwnUnused(g, d); }
    if g.depthView.Some? {
      ReleaseDepth(g, d, WithoutFramebuffer(g, d));
    }
  }

  lemma ReleaseDepth(g: Geometry, d: Device, d1: Device)
    requires PassOk(Pass(g, d)) && !g.pinned && g.depthView.Some?
    requires d1.live == d.live - (if g.framebuffer.Some? then {g.framebuffer.value.id} else {})
    ensures
      var d' := ReleaseAll(d1, [g.depthView.value, g.depth.value.texture]);
      && d'.doubleReleases == d1.doubleReleases
      && d'.earlyReleases == d1.earlyReleases + (if Strayed(g, d) then 1 else 0)
  {
    var view, texture := g.depthView.value, g.depth.value.texture;
    HeldSplit(g);
    forall user | user in d1.live && view in d1.live[user] ensures Stray(g, d, user) {}
    forall user | Stray(g, d, user) ensures user in d1.live && view in d1.live[user] {}
    var d2 := Release(d1, view);
    assert !InUse(d2, texture);
    assert [view, texture][1..] == [texture];
    assert ReleaseAll(d2, [texture]) == ReleaseAll(Release(d2, texture), []);
  }

  /** A frame that replaces the depth leaves nothing stray over the new one. */
  lemma ReplaceFacts(g: Geometry, c: Frame, d: Device)
    requires PassOk(Pass(g, d)) && Replaces(g, c)
    ensures
      var (_, g', d') := Resolve(g, c, d);
      && PassOk(Pass(g', d')) && !Strayed(g', d')
      && d'.doubleReleases == d.doubleReleases
      && d'.earlyReleases == d.earlyReleases + (if Strayed(g, d) then 1 else 0)
  {
    ReleaseStrayed(g, d);
    BuildDepthFacts(Emptied(g), c.extent, ReleaseAll(d, HeldInOrder(g)));
    var (ok, g1, d1) := ReplaceDepth(g, c, d);
    if ok { ReplaceFramebufferFacts(g1, c, d1); }
    var (_, g', d') := Resolve(g, c, d);
    SoundIsOk(g', d');
  }

  lemma SwapStrayed(g: Geometry, d: Device, fb: Framebuffer, g': Geometry, d': Device)
    requires PassOk(Pass(g, d)) && !g.pinned && Sane(d') && (g.hasDepth ==> g.depthView.Some?)
    requires fb.id == d.calls && g' == g.(framebuffer := Some(fb), image := g'.image, extent := g'.extent, generation := g'.generation)
    requires d'.live == d.live[fb.id := Attached(g)] - (if g.framebuffer.Some? then {g.framebuffer.value.id} else {})
    ensures PassOk(Pass(g', d')) && (Strayed(g', d') <==> Strayed(g, d))
  {
    HeldSplit(g);
    HeldSplit(g');
    DependenciesOlder(d, d.calls);
    forall user ensures Stray(g', d', user) <==> Stray(g, d, user) {}
    forall user, id | user in d'.live && id in d'.live[user] && id in Held(g')
      ensures user in Held(g') || Stray(g', d', user)
    {
      if user != fb.id {
        assert user in d.live && id in d.live[user] && id in Held(g);
      }
    }
  }

  lemma BuildFacts(g: Geometry, c: Frame, d: Device)
    requires PassOk(Pass(g, d)) && !g.pinned && c.imageIndex < |c.rawViews|
    ensures
      var (_, g', d') := ReplaceFramebuffer(g, c, d);
      && PassOk(Pass(g', d')) && (Strayed(g', d') <==> Strayed(g, d))
      && d'.doubleReleases == d.doubleReleases && d'.earlyReleases == d.earlyReleases
  {
    var (fb, g', d') := ReplaceFramebuffer(g, c, d);
    if g.hasDepth && g.depthView.None? {
    } else if fb.Some? {
      if g.framebuffer.Some? { OwnUnused(g, d); }
      SwapStrayed(g, d, fb.value, g', d');
    } else {
      forall user ensures Stray(g', d', user) <==> Stray(g, d, user) {}
    }
  }

  lemma StepFacts(w: Pass, step: PassStep)
    requires PassOk(w)
    ensures
      var w' := Act(w, step);
      && PassOk(w') && w'.dev.doubleReleases == w.dev.doubleReleases
      && w'.dev.earlyReleases == w.dev.earlyReleases + (if ReplacesDepth(w.state, step) && Strayed(w.state, w.dev) then 1 else 0)
      && (Strayed(w'.state, w'.dev) <==> !ReplacesDepth(w.state, step) && (Strayed(w.state, w.dev) || Drops(w.state, step)))
  {
    match step
    case Draw(c) =>
      if Replaces(w.state, c) {
        ReplaceFacts(w.state, c, w.dev);
      } else if !w.state.pinned && !Reusable(w.state, c) && c.imageIndex < |c.rawViews| && c.hasFormat {
        BuildFacts(w.state, c, w.dev);
      }
    case SetPin(framebuffer) => DropFacts(w, step);
    case Unpin => DropFacts(w, step);
  }

  // ----- Every run

  ghost predicate DropsAt(w: Pass, steps: seq<PassStep>, k: nat) {
    k < |steps| && Drops(After(w, steps[..k]).state, steps[k])
  }

  ghost predicate ReplacesAt(w: Pass, steps: seq<PassStep>, k: nat) {
    k < |steps| && ReplacesDepth(After(w, steps[..k]).state, steps[k])
  }

  /** Somewhere in the run a framebuffer is dropped, and later the depth is replaced. */
  ghost predicate DropsThenReplaces(w: Pass, steps: seq<PassStep>) {
    exists j: nat, k: nat :: j < k && DropsAt(w, steps, j) && ReplacesAt(w, steps, k)
  }

  ghost predicate DropsSomewhere(w: Pass, steps: seq<PassStep>) {
    exists j: nat :: DropsAt(w, steps, j)
  }

  lemma Extends(w: Pass, steps: seq<PassStep>, step: PassStep)
    ensures
      var longer := steps + [step];
      && (forall j: nat :: j < |steps| ==> (DropsAt(w, longer, j) <==> DropsAt(w, steps, j)))
      && (forall j: nat :: j < |steps| ==> (ReplacesAt(w, longer, j) <==> ReplacesAt(w, steps, j)))
      && (DropsAt(w, longer, |steps|) <==> Drops(After(w, steps).state, step))
      && (ReplacesAt(w, longer, |steps|) <==> ReplacesDepth(After(w, steps).state, step))
      && After(w, longer) == Act(After(w, steps), step)
  {
    var longer := steps + [step];
    assert longer[..|steps|] == steps;
    assert forall j: nat :: j < |steps| ==> longer[..j] == steps[..j];
  }

  lemma {:induction false} RunUnderPins(w: Pass, steps: seq<PassStep>)
    requires PassOk(w) && !Strayed(w.state, w.dev)
    ensures
      var v := After(w, steps);
      && PassOk(v) && v.dev.doubleReleases == w.dev.doubleReleases && v.dev.earlyReleases >= w.dev.earlyReleases
      && (Strayed(v.state, v.dev) ==> DropsSomewhere(w, steps))
      && (DropsSomewhere(w, steps) ==> Strayed(v.state, v.dev) || v.dev.earlyReleases > w.dev.earlyReleases)
      && (v.dev.earlyReleases > w.dev.earlyReleases <==> DropsThenReplaces(w, steps))
  {
    if steps != [] {
      var before, step := steps[..|steps| - 1], steps[|steps| - 1];
      assert steps == before + [step];
      RunUnderPins(w, before);
      StepFacts(After(w, before), step);
      Extends(w, before, step);
      OneMore(w, before, step);
    }
  }

  lemma OneMore(w: Pass, steps: seq<PassStep>, step: PassStep)
    ensures
      var g, longer := After(w, steps).state, steps + [step];
      && (DropsSomewhere(w, longer) <==> DropsSomewhere(w, steps) || Drops(g, step))
      && (DropsThenReplaces(w, longer) <==> DropsThenReplaces(w, steps) || (DropsSomewhere(w, steps) && ReplacesDepth(g, step)))
  {
    var longer := steps + [step];
    Extends(w, steps, step);
    forall j: nat | DropsAt(w, longer, j) ensures DropsAt(w, steps, j) || (j == |steps| && Drops(After(w, steps).state, step)) {}
    forall k: nat | ReplacesAt(w, longer, k)
      ensures ReplacesAt(w, steps, k) || (k == |steps| && ReplacesDepth(After(w, steps).state, step))
    {
    }
    if j: nat :| DropsAt(w, steps, j) {
      assert DropsAt(w, longer, j);
      if ReplacesDepth(After(w, steps).state, step) {
        assert ReplacesAt(w, longer, |steps|);
      }
    }
    if j: nat, k: nat :| j < k && DropsAt(w, steps, j) && ReplacesAt(w, steps, k) {
      assert DropsAt(w, longer, j) && ReplacesAt(w, longer, k);
    }
  }

  /** Over every run of frames, pins and removals, whatever the backend refuses, nothing is released
      twice, and something is released early exactly when the depth is replaced after a pin or a
      removal has dropped a framebuffer. */
  lemma ReleasesEarlyIff(hasDepth: bool, d: Device, steps: seq<PassStep>)
    requires Sane(d)
    ensures
      var w := Pass(NewGeometry(hasDepth), d);
      && After(w, steps).dev.doubleReleases == d.doubleReleases
      && (After(w, steps).dev.earlyReleases > d.earlyReleases <==> DropsThenReplaces(w, steps))
  {
    NewGeometryOk(hasDepth, d);
    SoundIsOk(NewGeometry(hasDepth), d);
    RunUnderPins(Pass(NewGeometry(hasDepth), d), steps);
  }

  /** One frame after a pin and its removal, from any sound state: the release is early exactly when
      the frame can be drawn at another size and there was a framebuffer over the depth. */
  lemma PinThenResizeReleasesEarlyIff(g: Geometry, pinned: Option<Framebuffer>, c: Frame, d: Device)
    requires GeometryOk(g, d)
    ensures Resolve(ClearPin(Pin(g, pinned)), c, d).2.earlyReleases > d.earlyReleases
       <==> g.hasDepth && g.framebuffer.Some? && c.imageIndex < |c.rawViews| && c.hasFormat && c.extent != g.extent.value
  {
    SoundIsOk(g, d);
    var w := Pass(g, d);
    StepFacts(w, SetPin(pinned));
    StepFacts(Act(w, SetPin(pinned)), Unpin);
    StepFacts(Act(Act(w, SetPin(pinned)), Unpin), Draw(c));
  }

  // ----- What is answered

  predicate AllDraws(steps: seq<PassStep>) {
    forall k :: 0 <= k < |steps| ==> steps[k].Draw?
  }

  /** While pinned, None included, every frame is answered with the pin and costs no device call. */
  lemma {:induction false} PinnedAnswers(w: Pass, pinned: Option<Framebuffer>, steps: seq<PassStep>, c: Frame)
    requires AllDraws(steps)
    ensures
      var v := After(Act(w, SetPin(pinned)), steps);
      v == Act(w, SetPin(pinned)) && Resolve(v.state, c, v.dev) == (pinned, v.state, w.dev)
  {
    if steps != [] {
      PinnedAnswers(w, pinned, steps[..|steps| - 1], steps[|steps| - 1].frame);
    }
  }

  /** Once the pin is removed the next answer is a new framebuffer over the acquired image, whatever
      was pinned or cached before. */
  lemma UnpinnedBuildsAnew(g: Geometry, c: Frame, d: Device)
    requires PassOk(Pass(g, d))
    ensures
      var (fb, g', d') := Resolve(ClearPin(g), c, d);
      fb.Some? ==> Current(fb.value, g', c) && fb.value.id >= d.calls
  {
  }
}
