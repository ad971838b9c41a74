/** The flag that says the shared depth has been written, against what the forward pass recorded. */
module DepthMarks {
  import opened Basics
  import opened Devices
  import opened Targets
  import opened TargetSafety

  /** A draw that marked the depth: the depth's recreation count then, what the draw's framebuffer
      attaches, and whether that framebuffer was pinned. */
  datatype Mark = Mark(generation: nat, over: Option<Id>, pinned: bool)

  function MarkAfter(w: World, mark: Option<Mark>, step: Step): Option<Mark> {
    if Records(w, step)
    then Some(Mark(Forwarded(w).depth.generation, Forwarded(w).target.value.depth, w.forward.pinned))
    else mark
  }

  /** The latest draw of the run that marked the depth. */
  function LatestMark(w: World, mark: Option<Mark>, steps: seq<Step>): Option<Mark> {
    if steps == [] then mark
    else
      var k := |steps| - 1;
      MarkAfter(Run(w, steps[..k]), LatestMark(w, mark, steps[..k]), steps[k])
  }

  /** The flag stands exactly when the latest mark is of the image that stands. */
  ghost predicate FlagOk(s: Depth, mark: Option<Mark>) {
    && (mark.Some? ==> mark.value.generation <= s.generation)
    && (s.written <==> mark.Some? && mark.value.generation == s.generation)
  }

  /** A step that is not a recorded draw leaves the depth alone or recreates it unwritten. */
  lemma DepthStep(w: World, step: Step)
    ensures
      var s, s' := w.depth, Next(w, step).depth;
      if Records(w, step) then
        s'.written && s'.generation == Forwarded(w).depth.generation && s.generation <= s'.generation
      else s' == s || (s'.generation == s.generation + 1 && !s'.written)
  {
  }

  /** Over every run the flag stands if and only if no recreation followed the latest recorded draw,
      pinned or not. */
  lemma {:induction false} WrittenIffMarked(w: World, mark: Option<Mark>, steps: seq<Step>)
    requires FlagOk(w.depth, mark)
    ensures FlagOk(Run(w, steps).depth, LatestMark(w, mark, steps))
  {
    if steps != [] {
      var before := steps[..|steps| - 1];
      WrittenIffMarked(w, mark, before);
      DepthStep(Run(w, before), steps[|steps| - 1]);
    }
  }

  // ----- What a standing flag is worth

  /** A standing flag whose mark was not made under a pin is of a draw over the view that stands. */
  ghost predicate MarkOk(s: Depth, mark: Option<Mark>) {
    s.written && mark.Some? && !mark.value.pinned ==> s.view.Some? && mark.value.over == s.view
  }

  lemma UnpinnedMarkIsOver(w: World, last: nat, accepted: bool)
    requires Inv(w, last) && !w.forward.pinned && Records(w, DrawForward(accepted))
    ensures Forwarded(w).depth.view.Some? && Forwarded(w).target.value.depth == Forwarded(w).depth.view
  {
    var size := DrawableSize(w.p.ctx);
    DepthViewFacts(w, size, last);
    var (view, s, d) := DepthView(w.depth, w.p.dev, size);
    ForgetFacts(w.p.(dev := d), last, s, w.forward, size);
  }

  /** So over every run a flag that stands for an unpinned draw tells the truth: the depth view that
      stands is the one drawn over. */
  lemma {:induction false} UnpinnedFlagIsTrue(w: World, last: nat, mark: Option<Mark>, steps: seq<Step>)
    requires Inv(w, last) && w.p.ctx.generation + |steps| < GENERATIONS
    requires FlagOk(w.depth, mark) && MarkOk(w.depth, mark)
    ensures MarkOk(Run(w, steps).depth, LatestMark(w, mark, steps))
  {
    if steps != [] {
      var before, step := steps[..|steps| - 1], steps[|steps| - 1];
      UnpinnedFlagIsTrue(w, last, mark, before);
      RunKeepsInv(w, last, before);
      WrittenIffMarked(w, mark, before);
      var v := Run(w, before);
      DepthStep(v, step);
      if Records(v, step) && !v.forward.pinned {
        UnpinnedMarkIsOver(v, Last(w, last, before), step.accepted);
      }
    }
  }

  // ----- Marks under a pin

  ghost predicate RecordsAt(w: World, steps: seq<Step>, k: nat) {
    k < |steps| && Records(Run(w, steps[..k]), steps[k])
  }

  ghost predicate RecordsSomewhere(w: World, steps: seq<Step>) {
    exists k: nat :: RecordsAt(w, steps, k)
  }

  lemma OneMoreStep(w: World, steps: seq<Step>)
    requires steps != []
    ensures
      var before := steps[..|steps| - 1];
      RecordsSomewhere(w, steps) <==> RecordsSomewhere(w, before) || Records(Run(w, before), steps[|steps| - 1])
  {
    var n := |steps| - 1;
    var before := steps[..n];
    assert forall k: nat :: k <= n ==> (if k < n then before[..k] == steps[..k] else steps[..k] == before);
    if k: nat :| RecordsAt(w, steps, k) {
      assert k < n ==> RecordsAt(w, before, k);
    }
    if k: nat :| RecordsAt(w, before, k) {
      assert RecordsAt(w, steps, k);
    }
    if Records(Run(w, before), steps[n]) {
      assert RecordsAt(w, steps, n);
    }
  }

  /** Before the first creation there is no image, and after it there always is one. */
  ghost predicate Counted(s: Depth) {
    && (s.image.Some? <==> s.view.Some?)
    && (s.image.Some? <==> s.generation > 0)
  }

  lemma CountedStep(w: World, step: Step)
    requires Counted(w.depth)
    ensures Counted(Next(w, step).depth)
    ensures Records(w, step) && !w.forward.pinned ==> Next(w, step).depth.image.Some?
  {
  }

  /** From start-up on, the flag stands with no image at all exactly while the depth has not been
      created and some draw has been recorded; every such draw went into a pinned framebuffer. */
  lemma {:induction false} FlagWithoutImageIff(w: World, steps: seq<Step>)
    requires w.depth == NEW_DEPTH
    ensures
      var s := Run(w, steps).depth;
      && Counted(s)
      && (s.written && s.image.None? <==> s.generation == 0 && RecordsSomewhere(w, steps))
      && (s.generation == 0 ==> forall k: nat :: RecordsAt(w, steps, k) ==> Run(w, steps[..k]).forward.pinned)
  {
    if steps != [] {
      var n := |steps| - 1;
      var before, step := steps[..n], steps[n];
      FlagWithoutImageIff(w, before);
      DepthStep(Run(w, before), step);
      CountedStep(Run(w, before), step);
      OneMoreStep(w, steps);
      forall k: nat | Run(w, steps).depth.generation == 0 && RecordsAt(w, steps, k)
        ensures Run(w, steps[..k]).forward.pinned
      {
        assert steps[..k] == if k < n then before[..k] else before;
        assert k < n ==> RecordsAt(w, before, k);
      }
    }
  }

  /** The input: a draw recorded into a pinned framebuffer before anything has been created. */
  lemma PinnedDrawMarks(w: World, fb: Framebuffer)
    requires w.depth == NEW_DEPTH && fb.size.width != 0 && fb.size.height != 0
    ensures
      var s := Run(w, [DoPinForward(Some(fb)), DrawForward(true)]).depth;
      s.written && s.image.None? && s.view.None?
  {
    var steps := [DoPinForward(Some(fb)), DrawForward(true)];
    assert steps[..1] == [DoPinForward(Some(fb))] && steps[..1][..0] == [];
    assert Run(w, steps[..1]) == Next(w, DoPinForward(Some(fb)));
  }
}
