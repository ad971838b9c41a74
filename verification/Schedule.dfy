/** The order in which a render graph runs its passes, described without the queue that
    computes it. */
module Schedule {
  import opened Basics

  /** deps[i] lists the passes that pass i waits for; repetitions and self-references are legal. */
  type Deps = seq<seq<nat>>

  ghost predicate WellFormed(deps: Deps) {
    forall i :: 0 <= i < |deps| ==> forall d :: d in deps[i] ==> d < |deps|
  }

  /** Everything pass i waits for is among the first m entries of s. */
  ghost predicate Ready(deps: Deps, s: seq<nat>, i: nat, m: nat)
    requires i < |deps| && m <= |s|
  {
    forall d :: d in deps[i] ==> d in s[..m]
  }

  /** x became ready before y did, or at the same moment and was added first. */
  ghost predicate Precedes(deps: Deps, s: seq<nat>, x: nat, y: nat)
    requires x < |deps| && y < |deps|
  {
    && (forall m :: 0 <= m <= |s| && Ready(deps, s, y, m) ==> Ready(deps, s, x, m))
    && (x < y || exists m :: 0 <= m <= |s| && Ready(deps, s, x, m) && !Ready(deps, s, y, m))
  }

  ghost predicate InRange(deps: Deps, s: seq<nat>) {
    forall a :: 0 <= a < |s| ==> s[a] < |deps|
  }

  /** Entry a became ready by its own turn, or by turn h if that is earlier. */
  ghost predicate InTurn(deps: Deps, s: seq<nat>, a: nat, h: nat)
    requires a < |s| && s[a] < |deps| && h <= |s|
  {
    Ready(deps, s, s[a], if a < h then a else h)
  }

  ghost predicate InOrder(deps: Deps, s: seq<nat>, a: nat, b: nat)
    requires a < b < |s| && s[a] < |deps| && s[b] < |deps|
  {
    Precedes(deps, s, s[a], s[b])
  }

  /** The state of a placement whose first h entries have been processed. */
  ghost predicate Partial(deps: Deps, s: seq<nat>, h: nat) {
    && h <= |s|
    && Distinct(s)
    && InRange(deps, s)
    && (forall a {:trigger InTurn(deps, s, a, h)} :: 0 <= a < |s| ==> InTurn(deps, s, a, h))
    && (forall i {:trigger Ready(deps, s, i, h)} :: 0 <= i < |deps| && Ready(deps, s, i, h) ==> i in s)
    && (forall a, b {:trigger InOrder(deps, s, a, b)} :: 0 <= a < b < |s| ==> InOrder(deps, s, a, b))
  }

  /** The passes that can be ordered, in the order they become ready. */
  ghost predicate Placement(deps: Deps, s: seq<nat>) {
    Partial(deps, s, |s|)
  }

  /** The passes not listed, in the order they were added. */
  function Unlisted(s: seq<nat>, n: nat): (r: seq<nat>)
    ensures forall i: nat :: i in r <==> i < n && i !in s
  {
    if n == 0 then [] else
    Unlisted(s, n - 1) + (if n - 1 in s then [] else [n - 1])
  }

  lemma {:induction false} UnlistedRises(s: seq<nat>, n: nat)
    ensures forall a, b :: 0 <= a < b < |Unlisted(s, n)| ==> Unlisted(s, n)[a] < Unlisted(s, n)[b]
  {
    if n > 0 {
      var before := Unlisted(s, n - 1);
      UnlistedRises(s, n - 1);
      forall k | 0 <= k < |before| ensures before[k] < n - 1 {
        assert before[k] in before;
      }
    }
  }

  /** A whole execution order: the placement, then whatever could not be placed. */
  ghost predicate IsSchedule(deps: Deps, placed: seq<nat>, order: seq<nat>) {
    Placement(deps, placed) && order == placed + Unlisted(placed, |deps|)
  }

  // ----- Growing a placement by one processed entry

  lemma ReadyLater(deps: Deps, s: seq<nat>, i: nat, m: nat, m': nat)
    requires i < |deps| && m <= m' <= |s| && Ready(deps, s, i, m)
    ensures Ready(deps, s, i, m')
  {
    assert forall d :: d in s[..m] ==> d in s[..m'] by {
      assert s[..m'][..m] == s[..m];
    }
  }

  lemma ReadyExtends(deps: Deps, s: seq<nat>, more: seq<nat>, i: nat, m: nat)
    requires i < |deps| && m <= |s|
    ensures Ready(deps, s + more, i, m) == Ready(deps, s, i, m)
  {
    assert (s + more)[..m] == s[..m];
  }

  /** `released` is what processing entry h of s releases. */
  ghost predicate Released(deps: Deps, s: seq<nat>, h: nat, released: seq<nat>)
    requires h < |s|
  {
    && (forall a, b :: 0 <= a < b < |released| ==> released[a] < released[b])
    && (forall i: nat :: i in released <==> i < |deps| && Ready(deps, s, i, h + 1) && !Ready(deps, s, i, h))
  }

  lemma PrecedesExtends(deps: Deps, s: seq<nat>, more: seq<nat>, x: nat, y: nat, h: nat)
    requires x < |deps| && y < |deps| && h <= |s|
    requires Precedes(deps, s, x, y) && Ready(deps, s, x, h)
    ensures Precedes(deps, s + more, x, y)
  {
    var t := s + more;
    forall m | 0 <= m <= |t| && Ready(deps, t, y, m)
      ensures Ready(deps, t, x, m)
    {
      ReadyExtends(deps, s, more, x, h);
      if m <= |s| {
        ReadyExtends(deps, s, more, x, m);
        ReadyExtends(deps, s, more, y, m);
      } else {
        ReadyLater(deps, t, x, h, m);
      }
    }
    if !(x < y) {
      var m :| 0 <= m <= |s| && Ready(deps, s, x, m) && !Ready(deps, s, y, m);
      ReadyExtends(deps, s, more, x, m);
      ReadyExtends(deps, s, more, y, m);
    }
  }

  lemma PrecedesFresh(deps: Deps, s: seq<nat>, h: nat, released: seq<nat>, x: nat, y: nat)
    requires h < |s| && Released(deps, s, h, released) && y in released && x < |deps|
    requires Ready(deps, s, x, h) || (x in released && x < y)
    ensures Precedes(deps, s + released, x, y)
  {
    var t := s + released;
    ReadyExtends(deps, s, released, x, h);
    ReadyExtends(deps, s, released, x, h + 1);
    ReadyExtends(deps, s, released, y, h);
    forall m | 0 <= m <= |t| && Ready(deps, t, y, m)
      ensures Ready(deps, t, x, m)
    {
      if m <= h { ReadyLater(deps, t, y, m, h); }
      if Ready(deps, s, x, h) { ReadyLater(deps, t, x, h, m); } else { ReadyLater(deps, t, x, h + 1, m); }
    }
  }

  lemma Grow(deps: Deps, s: seq<nat>, h: nat, released: seq<nat>)
    requires h < |s| && Partial(deps, s, h) && Released(deps, s, h, released)
    ensures Partial(deps, s + released, h + 1)
  {
    var t := s + released;
    forall a | 0 <= a < |t|
      ensures t[a] < |deps| && InTurn(deps, t, a, h + 1)
    {
      if a < |s| {
        assert InTurn(deps, s, a, h);
        ReadyExtends(deps, s, released, s[a], if a < h then a else h);
        if a > h { ReadyLater(deps, t, t[a], h, h + 1); }
      } else {
        assert t[a] in released;
        ReadyExtends(deps, s, released, t[a], h + 1);
      }
    }
    forall a, b | 0 <= a < b < |t|
      ensures t[a] != t[b] && InOrder(deps, t, a, b)
    {
      if a < |s| {
        assert InTurn(deps, s, a, h);
        if a < h { ReadyLater(deps, s, s[a], a, h); }
        assert Ready(deps, s, s[a], h);
      }
      if b < |s| {
        assert InOrder(deps, s, a, b);
        PrecedesExtends(deps, s, released, s[a], s[b], h);
      } else {
        assert t[b] in released;
        if a >= |s| { assert t[a] == released[a - |s|] && t[b] == released[b - |s|]; }
        PrecedesFresh(deps, s, h, released, t[a], t[b]);
      }
    }
    forall i | 0 <= i < |deps| && Ready(deps, t, i, h + 1)
      ensures i in t
    {
      ReadyExtends(deps, s, released, i, h + 1);
    }
  }

  // ----- What a schedule guarantees

  lemma EveryPassOnce(deps: Deps, placed: seq<nat>, order: seq<nat>)
    requires IsSchedule(deps, placed, order)
    ensures Distinct(order)
    ensures forall i: nat :: i in order <==> i < |deps|
    ensures |order| == |deps|
  {
    var rest := Unlisted(placed, |deps|);
    UnlistedRises(placed, |deps|);
    DistinctJoin(placed, rest);
    assert forall i :: i in order <==> i in placed || i in rest;
    DistinctCount(order);
    assert Elements(order) == Range(|deps|);
  }

  /** w follows "waits for" from pass to pass. */
  ghost predicate IsWalk(deps: Deps, w: seq<nat>) {
    && (forall k :: 0 <= k < |w| ==> w[k] < |deps|)
    && (forall k :: 0 <= k < |w| - 1 ==> w[k + 1] in deps[w[k]])
  }

  /** Pass i waits, directly or not, for a pass that waits for itself. */
  ghost predicate DownstreamOfCycle(deps: Deps, i: nat) {
    exists w: seq<nat> :: IsWalk(deps, w) && |w| > 0 && w[0] == i && !Distinct(w)
  }

  /** What a placed pass waits for stands earlier. */
  lemma WaitsEarlier(deps: Deps, s: seq<nat>, a: nat, d: nat) returns (p: nat)
    requires Placement(deps, s) && a < |s| && d in deps[s[a]]
    ensures p < a && s[p] == d
  {
    assert InTurn(deps, s, a, |s|);
    assert d in s[..a];
    p :| 0 <= p < a && s[..a][p] == d;
  }

  lemma {:induction false} WalkClimbs(deps: Deps, s: seq<nat>, w: seq<nat>, a: nat, b: nat) returns (p: nat, q: nat)
    requires Placement(deps, s) && IsWalk(deps, w) && |w| > 0 && w[0] in s
    requires a < b < |w|
    ensures q < p < |s| && s[p] == w[a] && s[q] == w[b]
    decreases b
  {
    if b == 1 {
      p :| 0 <= p < |s| && s[p] == w[0];
      assert w[0 + 1] in deps[w[0]];
      q := WaitsEarlier(deps, s, p, w[1]);
    } else {
      var r;
      if a == b - 1 {
        var r0;
        r0, r := WalkClimbs(deps, s, w, 0, b - 1);
        p := r;
      } else {
        p, r := WalkClimbs(deps, s, w, a, b - 1);
      }
      assert w[b - 1 + 1] in deps[w[b - 1]];
      q := WaitsEarlier(deps, s, r, w[b]);
    }
  }

  lemma {:induction false} WalkOfUnplaced(deps: Deps, s: seq<nat>, i: nat, length: nat) returns (w: seq<nat>)
    requires WellFormed(deps) && Placement(deps, s) && i < |deps| && i !in s
    ensures IsWalk(deps, w) && |w| == length + 1 && w[0] == i
    decreases length
  {
    if length == 0 {
      w := [i];
    } else {
      assert !Ready(deps, s, i, |s|);
      assert s[..|s|] == s;
      var d :| d in deps[i] && d !in s;
      var tail := WalkOfUnplaced(deps, s, d, length - 1);
      w := [i] + tail;
      forall k | 0 <= k < |w| - 1 ensures w[k + 1] in deps[w[k]] {
        if k > 0 { assert w[k] == tail[k - 1] && w[k + 1] == tail[k - 1 + 1]; }
      }
    }
  }

  /** The passes left to the fallback are exactly those downstream of a cycle. */
  lemma UnplacedIffCyclic(deps: Deps, s: seq<nat>, i: nat)
    requires WellFormed(deps) && Placement(deps, s) && i < |deps|
    ensures i !in s <==> DownstreamOfCycle(deps, i)
  {
    if i !in s {
      var w := WalkOfUnplaced(deps, s, i, |deps|);
      if Distinct(w) { Pigeonhole(w, |deps|); }
    }
    if i in s && DownstreamOfCycle(deps, i) {
      var w: seq<nat> :| IsWalk(deps, w) && |w| > 0 && w[0] == i && !Distinct(w);
      var a, b :| 0 <= a < b < |w| && w[a] == w[b];
      var p, q := WalkClimbs(deps, s, w, a, b);
    }
  }

  /** A producer that is not downstream of a cycle runs before each of its consumers. */
  lemma ProducerFirst(deps: Deps, placed: seq<nat>, order: seq<nat>, producer: nat, consumer: nat) returns (p: nat, c: nat)
    requires WellFormed(deps) && IsSchedule(deps, placed, order)
    requires consumer < |deps| && producer in deps[consumer] && !DownstreamOfCycle(deps, producer)
    ensures p < c < |order| && order[p] == producer && order[c] == consumer
  {
    UnplacedIffCyclic(deps, placed, producer);
    EveryPassOnce(deps, placed, order);
    assert consumer in order;
    c :| 0 <= c < |order| && order[c] == consumer;
    if c < |placed| {
      p := WaitsEarlier(deps, placed, c, producer);
    } else {
      p :| 0 <= p < |placed| && placed[p] == producer;
    }
  }

  /** Pass i heads a chain of k waits: its longest-path depth is at least k. */
  ghost predicate HasChain(deps: Deps, i: nat, k: nat)
    requires i < |deps|
    decreases k
  {
    k == 0 || exists d :: d in deps[i] && d < |deps| && HasChain(deps, d, k - 1)
  }

  /** Entry b has a wait that is answered no earlier than d is. */
  ghost predicate AnsweredLater(deps: Deps, s: seq<nat>, b: nat, d: nat)
    requires b < |s| && s[b] < |deps|
  {
    exists p, q :: 0 <= p <= q < b && s[p] == d && s[q] in deps[s[b]]
  }

  ghost predicate DepthsRise(deps: Deps, s: seq<nat>) {
    && InRange(deps, s)
    && (forall a, b, d {:trigger AnsweredLater(deps, s, b, d), s[a]} ::
          0 <= a < b < |s| && d in deps[s[a]] ==> AnsweredLater(deps, s, b, d))
  }

  lemma PlacementDepthsRise(deps: Deps, s: seq<nat>)
    requires Placement(deps, s)
    ensures DepthsRise(deps, s)
  {
    forall a, b, d | 0 <= a < b < |s| && d in deps[s[a]]
      ensures AnsweredLater(deps, s, b, d)
    {
      var p := WaitsEarlier(deps, s, a, d);
      assert s[p] !in s[..p];
      assert !Ready(deps, s, s[a], p);
      assert InOrder(deps, s, a, b);
      var e :| e in deps[s[b]] && e !in s[..p];
      var q := WaitsEarlier(deps, s, b, e);
    }
  }

  lemma ChainTail(deps: Deps, i: nat, k: nat) returns (d: nat)
    requires i < |deps| && k > 0 && HasChain(deps, i, k)
    ensures d in deps[i] && d < |deps| && HasChain(deps, d, k - 1)
  {
    d :| d in deps[i] && d < |deps| && HasChain(deps, d, k - 1);
  }

  lemma ChainGrows(deps: Deps, i: nat, d: nat, k: nat)
    requires i < |deps| && d in deps[i] && d < |deps| && k > 0 && HasChain(deps, d, k - 1)
    ensures HasChain(deps, i, k)
  {
  }

  lemma {:induction false} DepthRises(deps: Deps, s: seq<nat>, a: nat, b: nat, k: nat)
    requires DepthsRise(deps, s) && a <= b < |s| && HasChain(deps, s[a], k)
    ensures HasChain(deps, s[b], k)
    decreases k
  {
    if a < b && k > 0 {
      var d := ChainTail(deps, s[a], k);
      assert AnsweredLater(deps, s, b, d);
      var p, q :| 0 <= p <= q < b && s[p] == d && s[q] in deps[s[b]];
      DepthRises(deps, s, p, q, k - 1);
      ChainGrows(deps, s[b], s[q], k);
    }
  }

  /** Layers: a pass of smaller depth than another always runs before it. */
  lemma ShallowFirst(deps: Deps, s: seq<nat>, a: nat, b: nat, k: nat)
    requires Placement(deps, s) && a < |s| && b < |s| && s[a] < |deps| && s[b] < |deps|
    requires HasChain(deps, s[b], k) && !HasChain(deps, s[a], k)
    ensures a < b
  {
    PlacementDepthsRise(deps, s);
    if b <= a { DepthRises(deps, s, b, a, k); }
  }

  /** Two graphs with the same edges, however often each is repeated, have one placement. */
  lemma {:induction false} PlacementUnique(deps: Deps, deps': Deps, s: seq<nat>, t: seq<nat>, k: nat)
    requires |deps| == |deps'| && forall i, d :: 0 <= i < |deps| ==> (d in deps[i] <==> d in deps'[i])
    requires Placement(deps, s) && Placement(deps', t)
    requires k <= |s|
    ensures k <= |t| && s[..k] == t[..k]
  {
    if k > 0 {
      PlacementUnique(deps, deps', s, t, k - 1);
      var j := k - 1;
      assert forall i, m :: 0 <= i < |deps| && 0 <= m <= j ==> (Ready(deps, s, i, m) <==> Ready(deps', t, i, m)) by {
        forall i, m | 0 <= i < |deps| && 0 <= m <= j
          ensures Ready(deps, s, i, m) <==> Ready(deps', t, i, m)
        {
          assert s[..m] == s[..j][..m] == t[..j][..m] == t[..m];
        }
      }
      var x := s[j];
      assert InTurn(deps, s, j, |s|);
      assert Ready(deps', t, x, j);
      assert x !in t[..j];
      assert j < |t|;
      var y := t[j];
      if x != y {
        assert InTurn(deps', t, j, |t|);
        assert Ready(deps', t, y, j) && Ready(deps, s, y, j);
        NextIsLater(deps, s, j, y, t[..j]);
        NextIsLater(deps', t, j, x, s[..j]);
        assert false;
      }
      assert s[..k] == s[..j] + [x] && t[..k] == t[..j] + [y];
    }
  }

  lemma NextIsLater(deps: Deps, s: seq<nat>, j: nat, y: nat, prefix: seq<nat>)
    requires Placement(deps, s) && j < |s| && y < |deps| && y != s[j]
    requires Ready(deps, s, y, j) && prefix == s[..j] && y !in prefix
    ensures Precedes(deps, s, s[j], y)
  {
    ReadyLater(deps, s, y, j, |s|);
    var p :| 0 <= p < |s| && s[p] == y;
    assert p > j;
    assert InOrder(deps, s, j, p);
  }

  /** The execution order depends on the edges alone, not on how often each is declared. */
  lemma ScheduleUnique(deps: Deps, deps': Deps, placed: seq<nat>, placed': seq<nat>, order: seq<nat>, order': seq<nat>)
    requires |deps| == |deps'| && forall i, d :: 0 <= i < |deps| ==> (d in deps[i] <==> d in deps'[i])
    requires IsSchedule(deps, placed, order) && IsSchedule(deps', placed', order')
    ensures order == order'
  {
    PlacementUnique(deps, deps', placed, placed', |placed|);
    PlacementUnique(deps', deps, placed', placed, |placed'|);
    assert placed[..|placed|] == placed && placed'[..|placed'|] == placed';
  }

  lemma Placed(deps: Deps, placed: seq<nat>, order: seq<nat>, i: nat) returns (p: nat)
    requires IsSchedule(deps, placed, order) && i < |deps|
    ensures p < |order| && order[p] == i
    ensures p < |placed| <==> i in placed
    ensures i in placed <==> Ready(deps, placed, i, |placed|)
  {
    EveryPassOnce(deps, placed, order);
    assert i in order;
    p :| p < |order| && order[p] == i;
    if p < |placed| {
      assert placed[p] == i && InTurn(deps, placed, p, |placed|);
      ReadyLater(deps, placed, i, p, |placed|);
    } else {
      assert order[p] == Unlisted(placed, |deps|)[p - |placed|];
      assert i in Unlisted(placed, |deps|);
    }
  }

  /** Passes that wait for the same things run in the order they were added, in a cycle or not. */
  lemma EqualWaitsKeepOrder(deps: Deps, placed: seq<nat>, order: seq<nat>, x: nat, y: nat) returns (p: nat, q: nat)
    requires IsSchedule(deps, placed, order) && x < y < |deps|
    requires forall d :: d in deps[x] <==> d in deps[y]
    ensures p < q < |order| && order[p] == x && order[q] == y
  {
    p := Placed(deps, placed, order, x);
    q := Placed(deps, placed, order, y);
    assert forall m :: 0 <= m <= |placed| ==> (Ready(deps, placed, x, m) <==> Ready(deps, placed, y, m));
    if p < |placed| {
      assert q < p ==> InOrder(deps, placed, q, p);
    } else {
      UnlistedRises(placed, |deps|);
      var a, b := p - |placed|, q - |placed|;
      assert Unlisted(placed, |deps|)[a] == x && Unlisted(placed, |deps|)[b] == y;
    }
  }

  /** First in, first out: a pass whose producers all stand before one of the other's runs before the other. */
  lemma EarlierReadyFirst(deps: Deps, placed: seq<nat>, order: seq<nat>, x: nat, y: nat, late: nat) returns (p: nat, q: nat)
    requires WellFormed(deps) && IsSchedule(deps, placed, order) && x < |deps| && y < |deps| && x in placed
    requires late < |order| && order[late] in deps[y]
    requires forall d :: d in deps[x] ==> d in order[..late]
    ensures p < q < |order| && order[p] == x && order[q] == y
  {
    p := Placed(deps, placed, order, x);
    q := Placed(deps, placed, order, y);
    EveryPassOnce(deps, placed, order);
    if q < |placed| {
      var m := late;
      assert InTurn(deps, placed, q, |placed|);
      assert order[late] in placed[..q];
      var w :| 0 <= w < q && placed[w] == order[late];
      assert order[w] == order[late];
      assert w == late && order[..late] == placed[..late];
      assert Ready(deps, placed, x, late);
      assert order[late] !in placed[..late] by {
        assert forall k :: 0 <= k < late ==> placed[k] == order[k];
      }
      assert !Ready(deps, placed, y, late);
      LaterEntry(deps, placed, p, q, x, y, late);
    }
  }

  lemma LaterEntry(deps: Deps, placed: seq<nat>, p: nat, q: nat, x: nat, y: nat, m: nat)
    requires Placement(deps, placed) && p < |placed| && q < |placed| && placed[p] == x && placed[q] == y && m <= |placed|
    requires x < |deps| && y < |deps| && Ready(deps, placed, x, m) && !Ready(deps, placed, y, m)
    ensures p < q
  {
    assert p != q;
    assert p > q ==> InOrder(deps, placed, q, p);
  }
}
