/** The geometry pass's own framebuffer, depth view and depth image: when they are replaced, in
    what order the old ones are released, and how many are alive. */
module GeometryTargets {
  import opened Basics
  import opened Devices
  import opened Targets
  import opened TargetPasses

  /** What the pass reads of the render context. The raw views belong to the swapchain. */
  datatype Frame = Frame(imageIndex: nat, rawViews: seq<nat>, hasFormat: bool, extent: Extent, generation: nat)

  datatype Geometry = Geometry(
    hasDepth: bool,
    framebuffer: Option<Framebuffer>,
    pinned: bool,
    image: Option<nat>,
    extent: Option<Extent>,
    generation: Option<nat>,
    depth: Option<DepthImage>,
    depthView: Option<Id>)

  function NewGeometry(hasDepth: bool): Geometry {
    Geometry(hasDepth, None, false, None, None, None, None, None)
  }

  predicate Reusable(g: Geometry, c: Frame) {
    g.generation == Some(c.generation) && g.image == Some(c.imageIndex) && g.extent == Some(c.extent)
  }

  predicate Stale(g: Geometry, c: Frame) {
    g.hasDepth && (g.depth.None? || g.depth.value.size != c.extent)
  }

  /** The objects the pass holds, dependents first. */
  function HeldInOrder(g: Geometry): seq<Id> {
    (if g.framebuffer.Some? then [g.framebuffer.value.id] else []) +
    (if g.depthView.Some? then [g.depthView.value] else []) +
    (if g.depth.Some? then [g.depth.value.texture] else [])
  }

  function Emptied(g: Geometry): Geometry {
    NewGeometry(g.hasDepth).(pinned := g.pinned)
  }

  /** A depth image of this size and its view; false when the backend refuses either. */
  function BuildDepth(g: Geometry, size: Extent, d: Device): (bool, Geometry, Device) {
    var (texture, d1) := Create(d, {});
    if texture.None? then (false, g, d1) else
    var (view, d2) := Create(d1, {texture.value});
    if view.None? then (false, g, d2) else
    (true, g.(depth := Some(DepthImage(texture.value, size)), depthView := view), d2)
  }

  /** Replace the depth image for the frame's size: everything held goes first. */
  function ReplaceDepth(g: Geometry, c: Frame, d: Device): (bool, Geometry, Device) {
    BuildDepth(Emptied(g), c.extent, ReleaseAll(d, HeldInOrder(g)))
  }

  function Attached(g: Geometry): set<Id> {
    if g.hasDepth && g.depthView.Some? then {g.depthView.value} else {}
  }

  /** Build the framebuffer for the acquired image and only then release the old one. */
  function ReplaceFramebuffer(g: Geometry, c: Frame, d: Device): (Option<Framebuffer>, Geometry, Device)
    requires c.imageIndex < |c.rawViews|
  {
    if g.hasDepth && g.depthView.None? then (None, g, d) else
    var (id, d1) := Create(d, Attached(g));
    if id.None? then (None, g, d1) else
    var fb := Framebuffer(id.value, c.rawViews[c.imageIndex], if g.hasDepth then g.depthView else None, c.extent);
    var d2 := if g.framebuffer.Some? then Release(d1, g.framebuffer.value.id) else d1;
    (Some(fb), g.(framebuffer := Some(fb), image := Some(c.imageIndex), extent := Some(c.extent), generation := Some(c.generation)), d2)
  }

  function Resolve(g: Geometry, c: Frame, d: Device): (Option<Framebuffer>, Geometry, Device) {
    if g.pinned || Reusable(g, c) then (g.framebuffer, g, d)
    else if c.imageIndex >= |c.rawViews| || !c.hasFormat then (None, g, d)
    else if Stale(g, c) then
      var (ok, g1, d1) := ReplaceDepth(g, c, d);
      if ok then ReplaceFramebuffer(g1, c, d1) else (None, g1, d1)
    else ReplaceFramebuffer(g, c, d)
  }

  // ----- The invariant

  function Held(g: Geometry): set<Id> {
    set id | id in HeldInOrder(g)
  }

  ghost predicate HeldOk(g: Geometry, d: Device) {
    && (g.depth.Some? <==> g.depthView.Some?)
    && (g.depthView.Some? ==>
          && g.depth.value.texture < g.depthView.value
          && g.depth.value.texture in d.live && d.live[g.depth.value.texture] == {}
          && g.depthView.value in d.live && d.live[g.depthView.value] == {g.depth.value.texture})
    && (g.framebuffer.Some? ==>
          var id := g.framebuffer.value.id;
          && id in d.live && d.live[id] == Attached(g)
          && (g.depthView.Some? ==> g.depthView.value < id))
  }

  /** Nothing outside the pass is built from what the pass holds. */
  ghost predicate Private(g: Geometry, d: Device) {
    forall user, id :: user in d.live && id in d.live[user] && id in Held(g) ==> user in Held(g)
  }

  /** The cache keys describe the framebuffer they are kept for. */
  ghost predicate KeysOk(g: Geometry) {
    && (g.hasDepth || g.depth.None?)
    && (g.framebuffer.Some? <==> g.image.Some?) && (g.framebuffer.Some? <==> g.extent.Some?)
    && (g.framebuffer.Some? <==> g.generation.Some?)
    && (g.framebuffer.Some? ==>
          && g.framebuffer.value.size == g.extent.value
          && g.framebuffer.value.depth == g.depthView
          && (g.hasDepth ==> g.depth.Some? && g.depth.value.size == g.extent.value))
  }

  ghost predicate GeometryOk(g: Geometry, d: Device) {
    !g.pinned && Sane(d) && HeldOk(g, d) && Private(g, d) && KeysOk(g)
  }

  // ----- One frame

  /** The depth image granted by a call whose view was then refused: nobody holds it. */
  function Orphans(g: Geometry, c: Frame, d: Device): set<Id> {
    if !g.pinned && !Reusable(g, c) && c.imageIndex < |c.rawViews| && c.hasFormat && Stale(g, c)
       && d.answer(d.calls) && !d.answer(d.calls + 1)
    then {d.calls} else {}
  }

  function DepthObjects(g: Geometry): set<Id> {
    (if g.depthView.Some? then {g.depthView.value} else {}) + (if g.depth.Some? then {g.depth.value.texture} else {})
  }

  lemma HeldSplit(g: Geometry)
    ensures Held(g) == (if g.framebuffer.Some? then {g.framebuffer.value.id} else {}) + DepthObjects(g)
  {
  }

  lemma FramebufferUnused(g: Geometry, d: Device)
    requires HeldOk(g, d) && Private(g, d)
    ensures g.framebuffer.Some? ==> !InUse(d, g.framebuffer.value.id)
  {
    HeldSplit(g);
  }

  lemma ReleaseFirst(g: Geometry, d: Device)
    requires g.depth.Some? <==> g.depthView.Some?
    ensures
      var rest := if g.depthView.Some? then [g.depthView.value, g.depth.value.texture] else [];
      ReleaseAll(d, HeldInOrder(g)) == ReleaseAll(WithoutFramebuffer(g, d), rest)
  {
    var ids := HeldInOrder(g);
    var rest := if g.depthView.Some? then [g.depthView.value, g.depth.value.texture] else [];
    assert ids == (if g.framebuffer.Some? then [g.framebuffer.value.id] else []) + rest;
    assert g.framebuffer.Some? ==> ids[1..] == rest;
  }

  lemma ReleasedLive(g: Geometry, d: Device)
    ensures ReleaseAll(d, HeldInOrder(g)).live == d.live - Held(g)
  {
    var ids := HeldInOrder(g);
    assert forall id :: id in Held(g) <==> id in ids;
    var left, right := ReleaseAll(d, ids).live, d.live - Held(g);
    assert left.Keys == right.Keys;
    assert left == right;
  }

  lemma ReleaseHeld(g: Geometry, d: Device)
    requires Sane(d) && HeldOk(g, d) && Private(g, d)
    ensures
      var d' := ReleaseAll(d, HeldInOrder(g));
      && d'.live == d.live - Held(g)
      && d'.doubleReleases == d.doubleReleases && d'.earlyReleases == d.earlyReleases
  {
    ReleasedLive(g, d);
    ReleaseFirst(g, d);
    FramebufferGoes(g, d);
    var d1 := WithoutFramebuffer(g, d);
    if g.depthView.Some? {
      DepthUsers(g, d, d1);
      ReleasePair(d1, g.depthView.value, g.depth.value.texture);
    }
  }

  function WithoutFramebuffer(g: Geometry, d: Device): Device {
    if g.framebuffer.Some? then Release(d, g.framebuffer.value.id) else d
  }

  lemma FramebufferGoes(g: Geometry, d: Device)
    requires HeldOk(g, d) && Private(g, d)
    ensures
      var d1 := WithoutFramebuffer(g, d);
      && d1.live == d.live - (if g.framebuffer.Some? then {g.framebuffer.value.id} else {})
      && d1.doubleReleases == d.doubleReleases && d1.earlyReleases == d.earlyReleases
  {
    FramebufferUnused(g, d);
  }

  /** Once the framebuffer is gone only the view was built from the image, and nothing from the view. */
  lemma DepthUsers(g: Geometry, d: Device, d1: Device)
    requires HeldOk(g, d) && Private(g, d) && g.depthView.Some?
    requires d1.live == d.live - (if g.framebuffer.Some? then {g.framebuffer.value.id} else {})
    ensures !InUse(d1, g.depthView.value)
    ensures forall user :: user in d1.live && g.depth.value.texture in d1.live[user] ==> user == g.depthView.value
  {
    HeldSplit(g);
  }

  /** An unused view goes before the image only it was built from. */
  lemma ReleasePair(d: Device, view: Id, texture: Id)
    requires view in d.live && texture in d.live && view != texture && !InUse(d, view)
    requires forall user :: user in d.live && texture in d.live[user] ==> user == view
    ensures
      var d' := ReleaseAll(d, [view, texture]);
      d'.doubleReleases == d.doubleReleases && d'.earlyReleases == d.earlyReleases
  {
    var d1 := Release(d, view);
    assert !InUse(d1, texture);
    assert [view, texture][1..] == [texture];
    assert ReleaseAll(d1, [texture]) == ReleaseAll(Release(d1, texture), []);
  }

  /** A new image and its view, built for a pass that holds nothing. */
  lemma BuildDepthFacts(g: Geometry, size: Extent, d: Device)
    requires g == Emptied(g) && !g.pinned && g.hasDepth && Sane(d)
    ensures
      var (ok, g', d') := BuildDepth(g, size, d);
      && GeometryOk(g', d') && g'.framebuffer.None? && g'.hasDepth
      && (ok ==> g'.depthView.Some? && g'.depth.value.size == size)
      && (ok <==> d.answer(d.calls) && d.answer(d.calls + 1))
      && d'.doubleReleases == d.doubleReleases && d'.earlyReleases == d.earlyReleases && d'.answer == d.answer
      && d'.live.Keys - Held(g') == d.live.Keys + (if d.answer(d.calls) && !d.answer(d.calls + 1) then {d.calls} else {})
  {
    var (texture, d2) := Create(d, {});
    assert HeldInOrder(g) == [];
    if texture.Some? {
      DependenciesOlder(d, texture.value);
      var (view, d3) := Create(d2, {texture.value});
      if view.Some? {
        var g' := g.(depth := Some(DepthImage(texture.value, size)), depthView := view);
        assert HeldInOrder(g') == [view.value, texture.value];
        DependenciesOlder(d, view.value);
        assert d3.live.Keys == d.live.Keys + {texture.value, view.value};
      }
    }
  }

  lemma ReplaceDepthFacts(g: Geometry, c: Frame, d: Device)
    requires GeometryOk(g, d) && Stale(g, c)
    ensures
      var (ok, g', d') := ReplaceDepth(g, c, d);
      && GeometryOk(g', d') && g'.framebuffer.None? && g'.hasDepth == g.hasDepth
      && (ok ==> g'.depthView.Some? && g'.depth.value.size == c.extent)
      && (ok <==> d.answer(d.calls) && d.answer(d.calls + 1))
      && d'.doubleReleases == d.doubleReleases && d'.earlyReleases == d.earlyReleases
      && d'.live.Keys - Held(g') == d.live.Keys - Held(g) + (if d.answer(d.calls) && !d.answer(d.calls + 1) then {d.calls} else {})
      && d'.answer == d.answer
  {
    ReleaseHeld(g, d);
    BuildDepthFacts(Emptied(g), c.extent, ReleaseAll(d, HeldInOrder(g)));
  }

  lemma DependenciesOlder(d: Device, id: Id)
    requires Sane(d) && id >= d.calls
    ensures forall user :: user in d.live ==> id !in d.live[user]
  {
  }

  /** Swapping the framebuffer of an otherwise unchanged state keeps the ownership facts. */
  lemma SwapFramebuffer(g: Geometry, d: Device, fb: Framebuffer, g': Geometry, d': Device)
    requires Sane(d) && HeldOk(g, d) && Private(g, d)
    requires fb.id == d.calls && g' == g.(framebuffer := Some(fb), image := g'.image, extent := g'.extent, generation := g'.generation)
    requires d'.live == d.live[fb.id := Attached(g)] - (if g.framebuffer.Some? then {g.framebuffer.value.id} else {})
    ensures HeldOk(g', d') && Private(g', d')
    ensures d'.live.Keys - Held(g') == d.live.Keys - Held(g)
    ensures Held(g') == {fb.id} + DepthObjects(g)
  {
    HeldSplit(g);
    HeldSplit(g');
    DependenciesOlder(d, d.calls);
    forall user, id | user in d'.live && id in d'.live[user] && id in Held(g')
      ensures user in Held(g')
    {
      if user != fb.id {
        assert user in d.live && id in d.live[user] && id in Held(g);
      }
    }
  }

  lemma HeldCount(g: Geometry, d: Device)
    requires HeldOk(g, d) && g.framebuffer.Some? && (g.depthView.Some? <==> g.hasDepth)
    ensures |Held(g)| == (if g.hasDepth then 3 else 1)
  {
    HeldSplit(g);
    var fb := {g.framebuffer.value.id};
    if g.hasDepth {
      assert |fb + {g.depthView.value, g.depth.value.texture}| == 3;
      assert Held(g) == fb + {g.depthView.value, g.depth.value.texture};
    } else {
      assert Held(g) == fb;
    }
  }

  lemma SwapReleases(g: Geometry, d: Device, d1: Device)
    requires Sane(d) && HeldOk(g, d) && Private(g, d) && d1.live == d.live[d.calls := Attached(g)]
    ensures
      var d2 := WithoutFramebuffer(g, d1);
      d2.doubleReleases == d1.doubleReleases && d2.earlyReleases == d1.earlyReleases
  {
    FramebufferUnused(g, d);
    if g.framebuffer.Some? {
      assert g.framebuffer.value.id !in Attached(g);
      assert !InUse(d1, g.framebuffer.value.id);
    }
  }

  lemma ReplaceFramebufferFacts(g: Geometry, c: Frame, d: Device)
    requires GeometryOk(g, d) && c.imageIndex < |c.rawViews| && !Stale(g, c)
    ensures
      var (fb, g', d') := ReplaceFramebuffer(g, c, d);
      && GeometryOk(g', d') && g'.hasDepth == g.hasDepth
      && (fb.Some? <==> d.answer(d.calls))
      && (fb.Some? ==> g'.framebuffer == fb && |Held(g')| == (if g.hasDepth then 3 else 1))
      && (fb.None? ==> g' == g)
      && d'.doubleReleases == d.doubleReleases && d'.earlyReleases == d.earlyReleases
      && d'.live.Keys - Held(g') == d.live.Keys - Held(g)
      && d'.answer == d.answer
  {
    var (id, d1) := Create(d, Attached(g));
    if id.Some? {
      var (fb, g', d') := ReplaceFramebuffer(g, c, d);
      assert d' == WithoutFramebuffer(g, d1);
      SwapReleases(g, d, d1);
      SwapFramebuffer(g, d, fb.value, g', d');
      HeldCount(g', d');
    }
  }

  /** One frame, whatever the backend answers: no object is released twice or while another still
      refers to it, and the only object lost is an image whose view was refused. */
  lemma FrameFacts(g: Geometry, c: Frame, d: Device)
    requires GeometryOk(g, d)
    ensures
      var (fb, g', d') := Resolve(g, c, d);
      && GeometryOk(g', d') && g'.hasDepth == g.hasDepth
      && d'.doubleReleases == d.doubleReleases && d'.earlyReleases == d.earlyReleases
      && d'.live.Keys - Held(g') == d.live.Keys - Held(g) + Orphans(g, c, d)
      && (fb.Some? ==> g'.framebuffer == fb)
      && (fb.Some? && !Reusable(g, c) ==> |Held(g')| == (if g.hasDepth then 3 else 1))
      && d'.answer == d.answer
  {
    if !Reusable(g, c) && c.imageIndex < |c.rawViews| && c.hasFormat {
      if Stale(g, c) {
        ReplaceDepthFacts(g, c, d);
        var (ok, g1, d1) := ReplaceDepth(g, c, d);
        if ok { ReplaceFramebufferFacts(g1, c, d1); }
      } else {
        ReplaceFramebufferFacts(g, c, d);
      }
    }
  }

  /** What building now would give: the acquired image's view at the frame's size, with the
      pass's depth view of that same size. */
  ghost predicate Current(fb: Framebuffer, g: Geometry, c: Frame) {
    && c.imageIndex < |c.rawViews| && fb.color == c.rawViews[c.imageIndex]
    && fb.size == c.extent && fb.depth == g.depthView
    && (g.hasDepth ==> g.depth.Some? && g.depth.value.size == c.extent)
  }

  /** An answer carries the frame as its keys, and the acquired image's view. */
  lemma FrameAnswers(g: Geometry, c: Frame, d: Device)
    requires !g.pinned
    ensures
      var (fb, g', d') := Resolve(g, c, d);
      fb.Some? ==>
        && g'.framebuffer == fb && g'.image == Some(c.imageIndex) && g'.extent == Some(c.extent)
        && g'.generation == Some(c.generation)
  {
  }

  /** A frame whose keys do not match is answered exactly when the acquired image exists, the format is known and
      every object it needs is granted: image, view and framebuffer at another size, else the framebuffer. */
  lemma AnsweredIff(g: Geometry, c: Frame, d: Device)
    requires GeometryOk(g, d) && !Reusable(g, c)
    ensures Resolve(g, c, d).0.Some? <==>
      && c.imageIndex < |c.rawViews| && c.hasFormat
      && if g.hasDepth && (g.depth.None? || g.depth.value.size != c.extent)
         then d.answer(d.calls) && d.answer(d.calls + 1) && d.answer(d.calls + 2) else d.answer(d.calls)
    ensures !(c.imageIndex < |c.rawViews| && c.hasFormat) ==> Resolve(g, c, d) == (None, g, d)
  {
    if c.imageIndex < |c.rawViews| && c.hasFormat {
      if Stale(g, c) {
        ReplaceDepthFacts(g, c, d);
        DepthCalls(Emptied(g), c.extent, ReleaseAll(d, HeldInOrder(g)));
        var (ok, g1, d1) := ReplaceDepth(g, c, d);
        if ok { ReplaceFramebufferFacts(g1, c, d1); }
      } else {
        ReplaceFramebufferFacts(g, c, d);
      }
    }
  }

  lemma DepthCalls(g: Geometry, size: Extent, d: Device)
    ensures BuildDepth(g, size, d).0 ==> BuildDepth(g, size, d).2.calls == d.calls + 2
  {
  }

  /** Reusable means the same generation, image and size as the framebuffer was built for. */
  lemma ReusableIs(g: Geometry, c: Frame)
    ensures Reusable(g, c) <==> g.generation == Some(c.generation) && g.image == Some(c.imageIndex) && g.extent == Some(c.extent)
  {
  }

  // ----- Every run

  datatype GeometryRun = GeometryRun(last: Option<Framebuffer>, state: Geometry, dev: Device, orphans: nat)

  function RunFrames(g: Geometry, d: Device, frames: seq<Frame>): GeometryRun {
    if frames == [] then GeometryRun(None, g, d, 0) else
    var k := |frames| - 1;
    var before := RunFrames(g, d, frames[..k]);
    var (fb, g', d') := Resolve(before.state, frames[k], before.dev);
    GeometryRun(fb, g', d', before.orphans + |Orphans(before.state, frames[k], before.dev)|)
  }

  /** The pass holds a complete set of objects exactly while it has a framebuffer. */
  ghost predicate Complete(g: Geometry) {
    g.framebuffer.Some? ==> |Held(g)| == (if g.hasDepth then 3 else 1)
  }

  lemma {:induction false} RunFacts(g: Geometry, d: Device, frames: seq<Frame>)
    requires GeometryOk(g, d) && Held(g) <= d.live.Keys && Complete(g)
    ensures
      var r := RunFrames(g, d, frames);
      && GeometryOk(r.state, r.dev) && r.state.hasDepth == g.hasDepth && r.dev.answer == d.answer
      && Held(r.state) <= r.dev.live.Keys && Complete(r.state)
      && (r.last.Some? ==> r.state.framebuffer == r.last)
      && r.dev.doubleReleases == d.doubleReleases && r.dev.earlyReleases == d.earlyReleases
      && |r.dev.live.Keys - Held(r.state)| == |d.live.Keys - Held(g)| + r.orphans
  {
    if frames != [] {
      var k := |frames| - 1;
      RunFacts(g, d, frames[..k]);
      var b := RunFrames(g, d, frames[..k]);
      FrameFacts(b.state, frames[k], b.dev);
      var r := RunFrames(g, d, frames);
      HeldAreLive(r.state, r.dev);
      var lost := Orphans(b.state, frames[k], b.dev);
      assert forall id :: id in lost ==> id !in b.dev.live;
      assert (b.dev.live.Keys - Held(b.state)) !! lost;
      StaysComplete(b.state, frames[k], b.dev);
    }
  }

  lemma HeldAreLive(g: Geometry, d: Device)
    requires HeldOk(g, d)
    ensures Held(g) <= d.live.Keys
  {
  }

  lemma StaysComplete(g: Geometry, c: Frame, d: Device)
    requires GeometryOk(g, d) && Complete(g)
    ensures Complete(Resolve(g, c, d).1)
  {
    if !Reusable(g, c) && c.imageIndex < |c.rawViews| && c.hasFormat {
      if Stale(g, c) {
        ReplaceDepthFacts(g, c, d);
        var (ok, g1, d1) := ReplaceDepth(g, c, d);
        if ok { ReplaceFramebufferFacts(g1, c, d1); }
      } else {
        ReplaceFramebufferFacts(g, c, d);
      }
    }
  }

  /** Over every unpinned run and every pattern of refusals, starting with nothing of its own, the
      pass never releases an object twice or early, and what is alive besides what was there at
      the start is what it holds plus one image for each depth view the backend refused. */
  lemma EveryRunReleasesSafely(hasDepth: bool, d: Device, frames: seq<Frame>)
    requires Sane(d)
    ensures
      var r := RunFrames(NewGeometry(hasDepth), d, frames);
      && r.dev.doubleReleases == d.doubleReleases && r.dev.earlyReleases == d.earlyReleases
      && |r.dev.live| == |d.live| + |Held(r.state)| + r.orphans
      && (r.last.Some? ==> |r.dev.live| == |d.live| + (if hasDepth then 3 else 1) + r.orphans)
  {
    NewGeometryOk(hasDepth, d);
    RunFacts(NewGeometry(hasDepth), d, frames);
    var r := RunFrames(NewGeometry(hasDepth), d, frames);
    LiveSplit(d.live, {});
    LiveSplit(r.dev.live, Held(r.state));
  }

  lemma NewGeometryOk(hasDepth: bool, d: Device)
    requires Sane(d)
    ensures GeometryOk(NewGeometry(hasDepth), d) && Held(NewGeometry(hasDepth)) == {}
  {
    assert HeldInOrder(NewGeometry(hasDepth)) == [];
  }

  lemma LiveSplit(live: map<Id, set<Id>>, held: set<Id>)
    requires held <= live.Keys
    ensures |live| == |live.Keys - held| + |held|
  {
    assert live.Keys == (live.Keys - held) + held;
    assert |live| == |live.Keys|;
  }

  lemma {:induction false} NoOrphansWhenGranted(g: Geometry, d: Device, frames: seq<Frame>)
    requires GeometryOk(g, d) && Held(g) <= d.live.Keys && Complete(g) && forall n: nat {:trigger d.answer(n)} :: d.answer(n)
    ensures RunFrames(g, d, frames).orphans == 0
  {
    if frames != [] {
      NoOrphansWhenGranted(g, d, frames[..|frames| - 1]);
      RunFacts(g, d, frames[..|frames| - 1]);
    }
  }

  /** When every creation is granted the live count is back at the same value after every frame
      that has a target, however often the size has changed. */
  lemma LiveCountReturns(hasDepth: bool, d: Device, frames: seq<Frame>)
    requires Sane(d) && forall n: nat {:trigger d.answer(n)} :: d.answer(n)
    ensures
      var r := RunFrames(NewGeometry(hasDepth), d, frames);
      r.last.Some? ==> |r.dev.live| == |d.live| + (if hasDepth then 3 else 1)
  {
    EveryRunReleasesSafely(hasDepth, d, frames);
    NoOrphansWhenGranted(NewGeometry(hasDepth), d, frames);
  }

  // ----- Pinning (geometry.rs, set_framebuffer and clear_framebuffer_pin)

  /** Pinning nothing pins all the same. */
  function Pin(g: Geometry, framebuffer: Option<Framebuffer>): Geometry {
    g.(framebuffer := framebuffer, pinned := true, image := None)
  }

  function ClearPin(g: Geometry): Geometry {
    g.(framebuffer := None, pinned := false, image := None)
  }

  class GeometryPass {
    const hasDepth: bool
    var framebuffer: Option<Framebuffer>
    var pinned: bool
    var image: Option<nat>
    var extent: Option<Extent>
    var generation: Option<nat>
    var depth: Option<DepthImage>
    var depthView: Option<Id>

    function State(): Geometry
      reads this
    {
      Geometry(hasDepth, framebuffer, pinned, image, extent, generation, depth, depthView)
    }

    constructor (hasDepth: bool)
      ensures State() == NewGeometry(hasDepth)
    {
      this.hasDepth := hasDepth;
      framebuffer, pinned, image, extent, generation, depth, depthView := None, false, None, None, None, None, None;
    }

    method SetFramebuffer(fb: Option<Framebuffer>)
      modifies this
      ensures State() == Pin(old(State()), fb)
    {
      framebuffer := fb;
      pinned := true;
      image := None;
    }

    method ClearFramebufferPin()
      modifies this
      ensures State() == ClearPin(old(State()))
    {
      framebuffer := None;
      pinned := false;
      image := None;
    }

    method ReleaseHeldObjects(device: GraphicsDevice)
      modifies this, device
      ensures State() == Emptied(old(State()))
      ensures device.State() == ReleaseAll(old(device.State()), HeldInOrder(old(State())))
    {
      var batch := if framebuffer.Some? then [framebuffer.value.id] else [];
      batch := batch + if depthView.Some? then [depthView.value] else [];
      batch := batch + if depth.Some? then [depth.value.texture] else [];
      device.ReleaseMany(batch);
      framebuffer, depthView, depth := None, None, None;
      image, extent, generation := None, None, None;
    }

    method ReplaceDepthImage(c: Frame, device: GraphicsDevice) returns (ok: bool)
      modifies this, device
      ensures (ok, State(), device.State()) == ReplaceDepth(old(State()), c, old(device.State()))
    {
      ReleaseHeldObjects(device);
      var newTexture := device.CreateObject({});
      if newTexture.None? {
        return false;
      }
      var newView := device.CreateObject({newTexture.value});
      if newView.None? {
        return false;
      }
      depth := Some(DepthImage(newTexture.value, c.extent));
      depthView := newView;
      return true;
    }

    method BuildFramebuffer(c: Frame, device: GraphicsDevice) returns (r: Option<Framebuffer>)
      requires c.imageIndex < |c.rawViews|
      modifies this, device
      ensures (r, State(), device.State()) == ReplaceFramebuffer(old(State()), c, old(device.State()))
    {
      if hasDepth && depthView.None? {
        return None;
      }
      var id := device.CreateObject(if hasDepth then {depthView.value} else {});
      if id.None? {
        return None;
      }
      if framebuffer.Some? {
        device.ReleaseObject(framebuffer.value.id);
      }
      framebuffer := Some(Framebuffer(id.value, c.rawViews[c.imageIndex], if hasDepth then depthView else None, c.extent));
      image := Some(c.imageIndex);
      extent := Some(c.extent);
      generation := Some(c.generation);
      return framebuffer;
    }

    /** An unpinned frame in a sound state leaves a sound state and releases nothing twice or early. */
    method ResolveTarget(c: Frame, device: GraphicsDevice) returns (r: Option<Framebuffer>)
      modifies this, device
      ensures (r, State(), device.State()) == Resolve(old(State()), c, old(device.State()))
      ensures old(GeometryOk(State(), device.State())) ==>
        && GeometryOk(State(), device.State()) && (r.Some? ==> framebuffer == r)
        && device.doubleReleases == old(device.doubleReleases) && device.earlyReleases == old(device.earlyReleases)
    {
      if GeometryOk(State(), device.State()) {
        FrameFacts(State(), c, device.State());
      }
      if pinned {
        return framebuffer;
      }
      if generation == Some(c.generation) && image == Some(c.imageIndex) && extent == Some(c.extent) {
        return framebuffer;
      }
      if c.imageIndex >= |c.rawViews| || !c.hasFormat {
        return None;
      }
      if hasDepth && (depth.None? || depth.value.size != c.extent) {
        var ok := ReplaceDepthImage(c, device);
        if !ok {
          return None;
        }
      }
      r := BuildFramebuffer(c, device);
    }
  }
}
