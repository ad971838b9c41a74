/** The render graph: passes, their sort, the dispatch loop and the reports read off it. */
module RenderGraph {
  import opened Basics
  import opened Schedule

  datatype PassNode = PassNode(name: string, dependencies: seq<string>, enabled: bool)

  /** What a pass says it did: node.rs, PassOutcome. */
  datatype PassOutcome = PassOutcome(recorded: bool, reason: Option<string>)

  type Command = nat

  /** What one pass would do if it were dispatched this frame. */
  datatype PassRun = PassRun(outcome: PassOutcome, commands: seq<Command>)

  // ----- Resolving dependencies

  /** The producers a list of pass names resolves to; unknown names resolve to nothing. */
  function ResolveNames(names: seq<string>, index: map<string, nat>): seq<nat> {
    if names == [] then [] else
    var before := ResolveNames(names[..|names| - 1], index);
    var name := names[|names| - 1];
    if name in index then before + [index[name]] else before
  }

  function DepsOf(nodes: seq<PassNode>, index: map<string, nat>): (deps: Deps)
    ensures |deps| == |nodes|
    ensures forall i :: 0 <= i < |nodes| ==> deps[i] == ResolveNames(nodes[i].dependencies, index)
  {
    seq(|nodes|, i requires 0 <= i < |nodes| => ResolveNames(nodes[i].dependencies, index))
  }

  lemma {:induction false} ResolveNamesIn(names: seq<string>, index: map<string, nat>, n: nat)
    requires forall name :: name in index ==> index[name] < n
    ensures forall d :: d in ResolveNames(names, index) <==> exists name :: name in names && name in index && index[name] == d
    ensures forall d :: d in ResolveNames(names, index) ==> d < n
  {
    if names != [] {
      var before, last := names[..|names| - 1], names[|names| - 1];
      ResolveNamesIn(before, index, n);
      assert names == before + [last];
    }
  }

  /** The places in the declaration that name pass d. */
  function Declared(names: seq<string>, index: map<string, nat>, d: nat): (r: set<int>)
    ensures forall k :: k in r <==> 0 <= k < |names| && names[k] in index && index[names[k]] == d
  {
    set k | 0 <= k < |names| && names[k] in index && index[names[k]] == d
  }

  /** Each declared name that is known adds one wait, repeats included. */
  lemma {:induction false} ResolveNamesCount(names: seq<string>, index: map<string, nat>, d: nat)
    ensures multiset(ResolveNames(names, index))[d] == |Declared(names, index, d)|
  {
    if names != [] {
      var last := |names| - 1;
      ResolveNamesCount(names[..last], index, d);
      assert Declared(names, index, d) ==
        Declared(names[..last], index, d) + (if names[last] in index && index[names[last]] == d then {last} else {});
    }
  }

  // ----- Counting what is still missing

  /** How many of the waits in dl are not in s yet. */
  function Missing(dl: seq<nat>, s: seq<nat>): nat {
    if dl == [] then 0 else Missing(dl[1..], s) + (if dl[0] in s then 0 else 1)
  }

  lemma {:induction false} MissingNone(dl: seq<nat>, s: seq<nat>)
    ensures Missing(dl, s) == 0 <==> forall d :: d in dl ==> d in s
    ensures s == [] ==> Missing(dl, s) == |dl|
  {
    if dl != [] {
      MissingNone(dl[1..], s);
      assert dl == [dl[0]] + dl[1..];
    }
  }

  lemma {:induction false} MissingAfter(dl: seq<nat>, s: seq<nat>, i: nat)
    requires i !in s
    ensures Missing(dl, s + [i]) == Missing(dl, s) - multiset(dl)[i]
    ensures multiset(dl)[i] <= Missing(dl, s)
  {
    if dl != [] {
      MissingAfter(dl[1..], s, i);
      assert dl == [dl[0]] + dl[1..];
    }
  }

  /** adj[j] lists, in ascending order, every pass once for each of its waits for j. */
  ghost predicate IsAdjacency(deps: Deps, adj: seq<seq<nat>>) {
    && |adj| == |deps|
    && (forall j :: 0 <= j < |adj| ==> Ascending(adj[j], |deps|))
    && (forall i, j :: 0 <= i < |deps| && 0 <= j < |deps| ==> multiset(adj[j])[i] == multiset(deps[i])[j])
  }

  ghost predicate Ascending(s: seq<nat>, n: nat) {
    forall a, b {:trigger AscendingAt(s, n, a, b)} :: AscendingAt(s, n, a, b)
  }

  ghost predicate AscendingAt(s: seq<nat>, n: nat, a: int, b: int) {
    0 <= a <= b < |s| ==> s[a] <= s[b] < n
  }

  function Copies(x: nat, count: nat): (r: seq<nat>)
    ensures |r| == count && forall k :: 0 <= k < count ==> r[k] == x
  {
    seq(count, _ => x)
  }

  lemma AscendingAppend(s: seq<nat>, n: nat, count: nat)
    requires Ascending(s, n)
    ensures Ascending(s + Copies(n, count), n + 1)
  {
    var r, m := s + Copies(n, count), n + 1;
    forall a, b ensures AscendingAt(r, m, a, b) {
      assert AscendingAt(s, n, a, b) && AscendingAt(s, n, a, a);
    }
  }

  lemma {:induction false} CopiesCount(x: nat, count: nat, v: nat)
    ensures multiset(Copies(x, count))[v] == if v == x then count else 0
  {
    if count > 0 {
      assert Copies(x, count) == Copies(x, count - 1) + [x];
      CopiesCount(x, count - 1, v);
    }
  }

  /** Pass `i` has been added behind each producer as often as it waits for it. */
  ghost predicate Listed(adj0: seq<seq<nat>>, adj: seq<seq<nat>>, i: nat, waits: seq<nat>) {
    |adj| == |adj0| && forall j :: 0 <= j < |adj| ==> adj[j] == adj0[j] + Copies(i, multiset(waits)[j])
  }

  lemma ListOne(adj0: seq<seq<nat>>, adj: seq<seq<nat>>, i: nat, waits: seq<nat>, j: nat)
    requires Listed(adj0, adj, i, waits) && j < |adj|
    ensures Listed(adj0, adj[j := adj[j] + [i]], i, waits + [j])
  {
    var c := multiset(waits)[j];
    assert Copies(i, c + 1) == Copies(i, c) + [i];
    assert forall v :: multiset(waits + [j])[v] == multiset(waits)[v] + (if v == j then 1 else 0);
  }

  /** Add one pass's waits: a copy of `i` behind each producer, and its in-degree. */
  method AddWaits(names: seq<string>, index: map<string, nat>, i: nat, adj0: seq<seq<nat>>) returns (adj: seq<seq<nat>>, degree: nat)
    requires forall name :: name in index ==> index[name] < |adj0|
    ensures |adj| == |adj0|
    ensures degree == |ResolveNames(names, index)|
    ensures Listed(adj0, adj, i, ResolveNames(names, index))
  {
    adj, degree := adj0, 0;
    for k := 0 to |names|
      invariant |adj| == |adj0|
      invariant degree == |ResolveNames(names[..k], index)|
      invariant Listed(adj0, adj, i, ResolveNames(names[..k], index))
    {
      assert names[..k + 1][..k] == names[..k];
      if names[k] in index {
        var j := index[names[k]];
        ListOne(adj0, adj, i, ResolveNames(names[..k], index), j);
        adj := adj[j := adj[j] + [i]];
        degree := degree + 1;
      }
    }
    assert names[..|names|] == names;
  }

  /** The waits of the first `count` passes are in the lists, and no others. */
  ghost predicate Waiting(adj: seq<seq<nat>>, deps: Deps, count: nat) {
    && |adj| == |deps|
    && (forall j {:trigger Ascending(adj[j], count)} :: 0 <= j < |adj| ==> Ascending(adj[j], count))
    && (forall v, j {:trigger WaitAt(v, j, adj, deps, count)} :: WaitAt(v, j, adj, deps, count))
  }

  ghost predicate WaitAt(v: nat, j: nat, adj: seq<seq<nat>>, deps: Deps, count: nat) {
    v < |deps| && j < |deps| == |adj| ==> multiset(adj[j])[v] == if v < count then multiset(deps[v])[j] else 0
  }

  lemma OneMoreWaiting(adj0: seq<seq<nat>>, adj: seq<seq<nat>>, deps: Deps, i: nat)
    requires i < |deps| && Waiting(adj0, deps, i) && Listed(adj0, adj, i, deps[i])
    ensures Waiting(adj, deps, i + 1)
  {
    var next := i + 1;
    forall j | 0 <= j < |adj| ensures Ascending(adj[j], next) {
      assert Ascending(adj0[j], i);
      AscendingAppend(adj0[j], i, multiset(deps[i])[j]);
    }
    forall v, j: nat ensures WaitAt(v, j, adj, deps, next) {
      if j < |deps| {
        assert WaitAt(v, j, adj0, deps, i);
        CopiesCount(i, multiset(deps[i])[j], v);
      }
    }
  }

  lemma AllWaiting(adj: seq<seq<nat>>, deps: Deps)
    requires Waiting(adj, deps, |deps|)
    ensures IsAdjacency(deps, adj)
  {
    forall i, j | 0 <= i < |deps| && 0 <= j < |deps| ensures multiset(adj[j])[i] == multiset(deps[i])[j] {
      assert WaitAt(i, j, adj, deps, |deps|);
    }
  }

  method BuildAdjacency(nodes: seq<PassNode>, index: map<string, nat>) returns (adj: seq<seq<nat>>, inDegree: seq<nat>)
    requires forall name :: name in index ==> index[name] < |nodes|
    ensures IsAdjacency(DepsOf(nodes, index), adj)
    ensures |inDegree| == |nodes|
    ensures forall i :: 0 <= i < |nodes| ==> inDegree[i] == |DepsOf(nodes, index)[i]|
  {
    ghost var deps := DepsOf(nodes, index);
    var n := |nodes|;
    adj := seq(n, _ => []);
    inDegree := seq(n, _ => 0);
    for i := 0 to n
      invariant |adj| == |inDegree| == n && Waiting(adj, deps, i)
      invariant forall v :: 0 <= v < i ==> inDegree[v] == |deps[v]|
    {
      ghost var adj0 := adj;
      var degree;
      adj, degree := AddWaits(nodes[i].dependencies, index, i, adj);
      OneMoreWaiting(adj0, adj, deps, i);
      inDegree := inDegree[i := degree];
    }
    AllWaiting(adj, deps);
  }

  lemma PrefixCount(s: seq<nat>, k: nat)
    requires k < |s|
    ensures forall v :: multiset(s[..k + 1])[v] == multiset(s[..k])[v] + (if v == s[k] then 1 else 0)
    ensures multiset(s[..k])[s[k]] < multiset(s)[s[k]]
  {
    assert s[..k + 1] == s[..k] + [s[k]];
    assert s == s[..k + 1] + s[k + 1..];
  }

  ghost predicate Decremented(neighbours: seq<nat>, inDegree: seq<nat>, inDegree': seq<nat>) {
    |inDegree'| == |inDegree| &&
    forall v {:trigger LessBy(v, neighbours, inDegree, inDegree')} :: LessBy(v, neighbours, inDegree, inDegree')
  }

  ghost predicate LessBy(v: nat, neighbours: seq<nat>, inDegree: seq<nat>, inDegree': seq<nat>) {
    v < |inDegree| == |inDegree'| ==> inDegree'[v] + multiset(neighbours)[v] == inDegree[v]
  }

  /** The passes brought down to zero, in the order they were added. */
  ghost predicate BroughtToZero(inDegree: seq<nat>, inDegree': seq<nat>, released: seq<nat>) {
    && |inDegree'| == |inDegree|
    && Rising(released)
    && (forall v {:trigger ZeroIff(v, inDegree, inDegree', released)} :: ZeroIff(v, inDegree, inDegree', released))
  }

  ghost predicate ZeroIff(v: nat, inDegree: seq<nat>, inDegree': seq<nat>, released: seq<nat>) {
    v in released <==> v < |inDegree| == |inDegree'| && inDegree'[v] == 0 && inDegree[v] > 0
  }

  ghost predicate Rising(s: seq<nat>) {
    forall a, b :: 0 <= a < b < |s| ==> s[a] < s[b]
  }

  lemma DecrementStep(neighbours: seq<nat>, k: nat, inDegree: seq<nat>, inDegree': seq<nat>)
    requires k < |neighbours| && neighbours[k] < |inDegree| && Decremented(neighbours[..k], inDegree, inDegree')
    requires multiset(neighbours)[neighbours[k]] <= inDegree[neighbours[k]]
    ensures
      var n := neighbours[k];
      0 < inDegree'[n] <= inDegree[n] && Decremented(neighbours[..k + 1], inDegree, inDegree'[n := inDegree'[n] - 1])
  {
    PrefixCount(neighbours, k);
    var n := neighbours[k];
    assert LessBy(n, neighbours[..k], inDegree, inDegree');
    var next := inDegree'[n := inDegree'[n] - 1];
    var prefix := neighbours[..k + 1];
    forall v ensures LessBy(v, prefix, inDegree, next) {
      assert LessBy(v, neighbours[..k], inDegree, inDegree');
    }
  }

  lemma ReleaseStep(inDegree: seq<nat>, inDegree': seq<nat>, released: seq<nat>, n: nat)
    requires BroughtToZero(inDegree, inDegree', released)
    requires n < |inDegree| && 0 < inDegree'[n] <= inDegree[n] && (released != [] ==> released[|released| - 1] <= n)
    ensures BroughtToZero(inDegree, inDegree'[n := inDegree'[n] - 1], if inDegree'[n] == 1 then released + [n] else released)
  {
    assert ZeroIff(n, inDegree, inDegree', released);
    AppendAscending(released, n);
    var next, more := inDegree'[n := inDegree'[n] - 1], if inDegree'[n] == 1 then released + [n] else released;
    forall v ensures ZeroIff(v, inDegree, next, more) {
      assert ZeroIff(v, inDegree, inDegree', released);
    }
  }

  lemma AppendAscending(s: seq<nat>, n: nat)
    requires Rising(s) && n !in s && (s != [] ==> s[|s| - 1] <= n)
    ensures Rising(s + [n]) && forall v :: v in s + [n] <==> v in s || v == n
  {
    if s != [] {
      assert s[|s| - 1] in s;
    }
  }

  /** Take one wait off each neighbour, as often as it is listed. */
  method Decrement(neighbours: seq<nat>, inDegree: seq<nat>) returns (inDegree': seq<nat>, released: seq<nat>)
    requires Ascending(neighbours, |inDegree|)
    requires forall v :: 0 <= v < |inDegree| ==> multiset(neighbours)[v] <= inDegree[v]
    ensures Decremented(neighbours, inDegree, inDegree') && BroughtToZero(inDegree, inDegree', released)
  {
    inDegree', released := inDegree, [];
    assert neighbours[..0] == [];
    for k := 0 to |neighbours|
      invariant Decremented(neighbours[..k], inDegree, inDegree')
      invariant BroughtToZero(inDegree, inDegree', released)
      invariant released != [] ==> k > 0 && released[|released| - 1] <= neighbours[k - 1]
    {
      assert AscendingAt(neighbours, |inDegree|, k, k) && AscendingAt(neighbours, |inDegree|, k - 1, k);
      var n := neighbours[k];
      DecrementStep(neighbours, k, inDegree, inDegree');
      ReleaseStep(inDegree, inDegree', released, n);
      inDegree' := inDegree'[n := inDegree'[n] - 1];
      if inDegree'[n] == 0 {
        released := released + [n];
      }
    }
    assert neighbours[..|neighbours|] == neighbours;
  }

  /** Process pass `i`: release what waited for it and for nothing else. */
  method Relax(ghost deps: Deps, ghost done: seq<nat>, i: nat, neighbours: seq<nat>, inDegree: seq<nat>)
    returns (inDegree': seq<nat>, released: seq<nat>)
    requires i !in done && Ascending(neighbours, |deps|)
    requires |inDegree| == |deps|
    requires forall v :: 0 <= v < |deps| ==> multiset(neighbours)[v] == multiset(deps[v])[i]
    requires forall v :: 0 <= v < |deps| ==> inDegree[v] == Missing(deps[v], done)
    ensures |inDegree'| == |deps|
    ensures forall v :: 0 <= v < |deps| ==> inDegree'[v] == Missing(deps[v], done + [i])
    ensures forall a, b :: 0 <= a < b < |released| ==> released[a] < released[b]
    ensures forall v: nat :: v in released <==>
      v < |deps| && Missing(deps[v], done + [i]) == 0 && Missing(deps[v], done) > 0
  {
    forall v | 0 <= v < |deps|
      ensures Missing(deps[v], done + [i]) == Missing(deps[v], done) - multiset(neighbours)[v]
      ensures multiset(neighbours)[v] <= inDegree[v]
    {
      MissingAfter(deps[v], done, i);
    }
    inDegree', released := Decrement(neighbours, inDegree);
    forall v: nat | v < |deps| ensures inDegree'[v] == Missing(deps[v], done + [i]) {
      assert LessBy(v, neighbours, inDegree, inDegree');
    }
    forall v: nat
      ensures v in released <==> v < |deps| && Missing(deps[v], done + [i]) == 0 && Missing(deps[v], done) > 0
    {
      assert ZeroIff(v, inDegree, inDegree', released);
    }
  }

  /** Kahn's algorithm with a FIFO queue. */
  method Place(ghost deps: Deps, adj: seq<seq<nat>>, inDegree0: seq<nat>) returns (order: seq<nat>)
    requires WellFormed(deps) && IsAdjacency(deps, adj) && |inDegree0| == |deps|
    requires forall i :: 0 <= i < |deps| ==> inDegree0[i] == |deps[i]|
    ensures Placement(deps, order)
  {
    var inDegree := inDegree0;
    var queue := Sources(deps, inDegree);
    order := [];
    while queue != []
      invariant |inDegree| == |deps|
      invariant Partial(deps, order + queue, |order|)
      invariant forall v :: 0 <= v < |deps| ==> inDegree[v] == Missing(deps[v], order)
      decreases |deps| - |order|
    {
      ghost var s := order + queue;
      var i := queue[0];
      assert s[|order|] == i;
      assert i !in order by { assert forall a :: 0 <= a < |order| ==> s[a] == order[a]; }
      var released;
      ghost var done := order;
      inDegree, released := Relax(deps, order, i, adj[i], inDegree);
      ReleasedByCount(deps, s, done, i, released);
      Grow(deps, s, |done|, released);
      order := order + [i];
      queue := queue[1..] + released;
      assert order + queue == s + released;
      Pigeonhole(s, |deps|);
    }
    assert order + queue == order;
  }

  lemma ReleasedByCount(deps: Deps, s: seq<nat>, done: seq<nat>, i: nat, released: seq<nat>)
    requires |done| < |s| && s[..|done|] == done && s[|done|] == i
    requires forall a, b :: 0 <= a < b < |released| ==> released[a] < released[b]
    requires forall v: nat :: v in released <==>
      v < |deps| && Missing(deps[v], done + [i]) == 0 && Missing(deps[v], done) > 0
    ensures Released(deps, s, |done|, released)
  {
    assert s[..|done| + 1] == done + [i];
    forall v: nat | v < |deps|
      ensures Ready(deps, s, v, |done|) <==> Missing(deps[v], done) == 0
      ensures Ready(deps, s, v, |done| + 1) <==> Missing(deps[v], done + [i]) == 0
    {
      MissingNone(deps[v], done);
      MissingNone(deps[v], done + [i]);
    }
  }

  lemma WaitsForNothing(deps: Deps, s: seq<nat>, i: nat)
    requires i < |deps| && Ready(deps, s, i, 0)
    ensures deps[i] == []
  {
    var d := if deps[i] == [] then 0 else deps[i][0];
    assert d !in s[..0];
  }

  /** The passes that wait for nothing, in the order they were added. */
  method Sources(ghost deps: Deps, inDegree: seq<nat>) returns (queue: seq<nat>)
    requires |inDegree| == |deps| && forall i :: 0 <= i < |deps| ==> inDegree[i] == |deps[i]|
    ensures Partial(deps, queue, 0)
    ensures forall v :: 0 <= v < |deps| ==> inDegree[v] == Missing(deps[v], [])
  {
    queue := [];
    for i := 0 to |inDegree|
      invariant forall a, b :: 0 <= a < b < |queue| ==> queue[a] < queue[b]
      invariant forall v: nat :: v in queue <==> v < i && inDegree[v] == 0
    {
      assert forall a :: 0 <= a < |queue| ==> queue[a] in queue && queue[a] < i;
      if inDegree[i] == 0 {
        queue := queue + [i];
      }
    }
    forall a | 0 <= a < |queue| ensures queue[a] in queue && deps[queue[a]] == [] {}
    forall v | 0 <= v < |deps| ensures inDegree[v] == Missing(deps[v], []) {
      MissingNone(deps[v], []);
    }
    forall v | 0 <= v < |deps| && Ready(deps, queue, v, 0) ensures v in queue {
      WaitsForNothing(deps, queue, v);
    }
  }

  /** Whatever the queue never reached still runs, in the order it was added. */
  method AppendUnplaced(placed: seq<nat>, n: nat) returns (order: seq<nat>)
    ensures order == placed + Unlisted(placed, n)
  {
    order := placed;
    for i := 0 to n
      invariant order == placed + Unlisted(placed, i)
    {
      UnlistedStep(placed, i);
      if i !in order {
        order := order + [i];
      }
    }
  }

  lemma UnlistedStep(placed: seq<nat>, i: nat)
    ensures i in placed + Unlisted(placed, i) <==> i in placed
    ensures placed + Unlisted(placed, i + 1) == placed + Unlisted(placed, i) + (if i in placed then [] else [i])
  {
    assert i !in Unlisted(placed, i);
  }

  lemma FullPlacement(deps: Deps, placed: seq<nat>)
    requires Placement(deps, placed) && |placed| >= |deps|
    ensures IsSchedule(deps, placed, placed)
  {
    var rest := Unlisted(placed, |deps|);
    if rest != [] {
      assert rest[0] in rest;
      var more := placed + [rest[0]];
      assert forall a :: 0 <= a < |placed| ==> placed[a] in placed;
      assert forall x :: x in more <==> x in placed || x == rest[0];
      Pigeonhole(more, |deps|);
    }
    assert placed == placed + [];
  }

  method SortNodes(nodes: seq<PassNode>, index: map<string, nat>) returns (order: seq<nat>, ghost placed: seq<nat>)
    requires forall name :: name in index ==> index[name] < |nodes|
    ensures IsSchedule(DepsOf(nodes, index), placed, order)
    ensures Distinct(order) && |order| == |nodes|
    ensures forall i: nat :: i in order <==> i < |nodes|
    ensures forall k :: 0 <= k < |order| ==> order[k] < |nodes|
  {
    ghost var deps := DepsOf(nodes, index);
    forall i | 0 <= i < |nodes| {
      ResolveNamesIn(nodes[i].dependencies, index, |nodes|);
    }
    var adj, inDegree := BuildAdjacency(nodes, index);
    order := Place(deps, adj, inDegree);
    placed := order;
    if |order| < |nodes| {
      order := AppendUnplaced(order, |nodes|);
    } else {
      FullPlacement(deps, placed);
    }
    EveryPassOnce(deps, placed, order);
    assert forall k :: 0 <= k < |order| ==> order[k] in order;
  }

  // ----- Reports

  /** Execution order first, then what the order does not list. */
  function ReportOrder(order: seq<nat>, n: nat): seq<nat> {
    order + Unlisted(order, n)
  }

  function At(counts: seq<nat>, i: nat): nat {
    if i < |counts| then counts[i] else 0
  }

  /** Passes never dispatched, dispatched with missing work, and worked on every dispatch. */
  function Never(order: seq<nat>, executed: seq<nat>, n: nat): seq<nat> {
    Select(ReportOrder(order, n), (i: nat) => At(executed, i) == 0)
  }

  function WithoutWork(order: seq<nat>, executed: seq<nat>, recorded: seq<nat>): seq<nat> {
    Select(order, (i: nat) => !(At(executed, i) == 0 || At(recorded, i) >= At(executed, i)))
  }

  function Worked(order: seq<nat>, executed: seq<nat>, recorded: seq<nat>, n: nat): seq<nat> {
    Select(ReportOrder(order, n), (i: nat) => At(executed, i) != 0 && At(recorded, i) == At(executed, i))
  }

  /** Pass names with their counters, in this order. */
  function Labelled(order: seq<nat>, nodes: seq<PassNode>, counts: seq<nat>): seq<(string, nat)>
    requires forall k :: 0 <= k < |order| ==> order[k] < |nodes|
  {
    if order == [] then [] else
    var last := order[|order| - 1];
    Labelled(order[..|order| - 1], nodes, counts) + [(nodes[last].name, At(counts, last))]
  }

  function NamesOf(order: seq<nat>, nodes: seq<PassNode>): seq<string>
    requires forall k :: 0 <= k < |order| ==> order[k] < |nodes|
  {
    if order == [] then [] else
    NamesOf(order[..|order| - 1], nodes) + [nodes[order[|order| - 1]].name]
  }

  /** The names listed with a zero. */
  function ZeroNames(counts: seq<(string, nat)>): seq<string> {
    if counts == [] then [] else
    var last := counts[|counts| - 1];
    ZeroNames(counts[..|counts| - 1]) + (if last.1 == 0 then [last.0] else [])
  }

  /** Pass names, each with the last reason given under it. */
  function Explained(order: seq<nat>, nodes: seq<PassNode>, reasons: map<string, string>): seq<(string, string)>
    requires forall k :: 0 <= k < |order| ==> order[k] < |nodes|
  {
    if order == [] then [] else
    var name := nodes[order[|order| - 1]].name;
    Explained(order[..|order| - 1], nodes, reasons) + [(name, if name in reasons then reasons[name] else "recorded nothing")]
  }

  ghost predicate Indexes(order: seq<nat>, n: nat) {
    forall k :: 0 <= k < |order| ==> order[k] < n
  }

  /** Row k of a count report is pass order[k] with its own counter... */
  lemma {:induction false} LabelledAt(order: seq<nat>, nodes: seq<PassNode>, counts: seq<nat>, k: nat)
    requires Indexes(order, |nodes|) && k < |order|
    ensures |Labelled(order, nodes, counts)| == |order|
    ensures
      var row := Labelled(order, nodes, counts)[k];
      row.0 == nodes[order[k]].name && row.1 == if order[k] < |counts| then counts[order[k]] else 0
  {
    var last := |order| - 1;
    if k < last {
      LabelledAt(order[..last], nodes, counts, k);
    } else if last > 0 {
      LabelledAt(order[..last], nodes, counts, 0);
    }
  }

  /** ...row k of the names is its name... */
  lemma {:induction false} NamesAt(order: seq<nat>, nodes: seq<PassNode>, k: nat)
    requires Indexes(order, |nodes|) && k < |order|
    ensures |NamesOf(order, nodes)| == |order| && NamesOf(order, nodes)[k] == nodes[order[k]].name
  {
    var last := |order| - 1;
    if k < last {
      NamesAt(order[..last], nodes, k);
    } else if last > 0 {
      NamesAt(order[..last], nodes, 0);
    }
  }

  /** ...and row k of the passes without work its name with the reason shown under it. */
  lemma {:induction false} ExplainedAt(order: seq<nat>, nodes: seq<PassNode>, reasons: map<string, string>, k: nat)
    requires Indexes(order, |nodes|) && k < |order|
    ensures |Explained(order, nodes, reasons)| == |order|
    ensures
      var row, name := Explained(order, nodes, reasons)[k], nodes[order[k]].name;
      row.0 == name && row.1 == if name in reasons then reasons[name] else "recorded nothing"
  {
    var last := |order| - 1;
    if k < last {
      ExplainedAt(order[..last], nodes, reasons, k);
    } else if last > 0 {
      ExplainedAt(order[..last], nodes, reasons, 0);
    }
  }

  lemma ReportOrderStep(order: seq<nat>, i: nat, n: nat)
    requires i < n && Indexes(ReportOrder(order, i), n)
    ensures ReportOrder(order, i + 1) == if i in order then ReportOrder(order, i) else ReportOrder(order, i) + [i]
    ensures Indexes(ReportOrder(order, i + 1), n)
  {
  }

  lemma LabelledStep(order: seq<nat>, i: nat, nodes: seq<PassNode>, counts: seq<nat>)
    requires Indexes(order, |nodes|) && i < |nodes|
    ensures Indexes(order + [i], |nodes|)
    ensures Labelled(order + [i], nodes, counts) == Labelled(order, nodes, counts) + [(nodes[i].name, At(counts, i))]
  {
    assert (order + [i])[..|order|] == order;
  }

  lemma ReportOrderStart(order: seq<nat>)
    ensures ReportOrder(order, 0) == order
  {
  }

  lemma ReportStep(order: seq<nat>, i: nat, nodes: seq<PassNode>, counts: seq<nat>)
    requires i < |nodes| && Indexes(ReportOrder(order, i), |nodes|)
    ensures Indexes(ReportOrder(order, i + 1), |nodes|)
    ensures Labelled(ReportOrder(order, i + 1), nodes, counts) ==
      Labelled(ReportOrder(order, i), nodes, counts) + (if i in order then [] else [(nodes[i].name, At(counts, i))])
  {
    ReportOrderStep(order, i, |nodes|);
    if i !in order {
      LabelledStep(ReportOrder(order, i), i, nodes, counts);
    }
  }

  lemma ExplainedStep(order: seq<nat>, i: nat, nodes: seq<PassNode>, reasons: map<string, string>)
    requires Indexes(order, |nodes|) && i < |nodes|
    ensures Indexes(order + [i], |nodes|)
    ensures
      var name := nodes[i].name;
      Explained(order + [i], nodes, reasons) ==
        Explained(order, nodes, reasons) + [(name, if name in reasons then reasons[name] else "recorded nothing")]
  {
    assert (order + [i])[..|order|] == order;
  }

  lemma WithoutWorkStep(order: seq<nat>, k: nat, executed: seq<nat>, recorded: seq<nat>)
    requires k < |order|
    ensures
      var before, i := WithoutWork(order[..k], executed, recorded), order[k];
      WithoutWork(order[..k + 1], executed, recorded) ==
        if At(executed, i) == 0 || At(recorded, i) >= At(executed, i) then before else before + [i]
  {
    assert order[..k + 1][..k] == order[..k];
  }

  /** Filtering the listed counts by zero names exactly the passes never dispatched. */
  lemma {:induction false} ZeroNamesAreNever(order: seq<nat>, nodes: seq<PassNode>, executed: seq<nat>)
    requires Indexes(order, |nodes|)
    ensures
      var never := Select(order, (i: nat) => At(executed, i) == 0);
      Indexes(never, |nodes|) && ZeroNames(Labelled(order, nodes, executed)) == NamesOf(never, nodes)
  {
    if order != [] {
      var before, last := order[..|order| - 1], order[|order| - 1];
      ZeroNamesAreNever(before, nodes, executed);
      var never := Select(before, (i: nat) => At(executed, i) == 0);
      assert (never + [last])[..|never|] == never;
      assert Labelled(order, nodes, executed)[..|Labelled(before, nodes, executed)|] == Labelled(before, nodes, executed);
    }
  }

  lemma NeverNamed(order: seq<nat>, nodes: seq<PassNode>, executed: seq<nat>)
    requires Indexes(ReportOrder(order, |nodes|), |nodes|)
    ensures Indexes(Never(order, executed, |nodes|), |nodes|)
    ensures ZeroNames(Labelled(ReportOrder(order, |nodes|), nodes, executed)) == NamesOf(Never(order, executed, |nodes|), nodes)
  {
    ZeroNamesAreNever(ReportOrder(order, |nodes|), nodes, executed);
  }

  /** The counters agree with each other and with the order the reports are read off. */
  ghost predicate Accounted(order: seq<nat>, executed: seq<nat>, recorded: seq<nat>, n: nat) {
    && |executed| == |recorded| == n
    && Distinct(order) && (forall k :: 0 <= k < |order| ==> order[k] < n)
    && (forall i :: 0 <= i < n ==> recorded[i] <= executed[i])
    && (forall i: nat :: i < n && executed[i] > 0 ==> i in order)
  }

  lemma ReportOrderComplete(order: seq<nat>, n: nat)
    requires Distinct(order) && forall i :: i in order ==> i < n
    ensures Distinct(ReportOrder(order, n))
    ensures forall i: nat :: i in ReportOrder(order, n) <==> i < n
  {
    UnlistedRises(order, n);
    DistinctJoin(order, Unlisted(order, n));
    assert forall i :: i in ReportOrder(order, n) <==> i in order || i in Unlisted(order, n);
  }

  /** The rows of a count report: the execution order's, then the others' in the order they were added. */
  lemma ReportRows(order: seq<nat>, n: nat)
    requires Distinct(order) && forall i :: i in order ==> i < n
    ensures |ReportOrder(order, n)| == n
    ensures forall k :: 0 <= k < |order| ==> ReportOrder(order, n)[k] == order[k]
    ensures forall k :: 0 <= k < |Unlisted(order, n)| ==> ReportOrder(order, n)[|order| + k] == Unlisted(order, n)[k]
    ensures forall a, b :: 0 <= a < b < |Unlisted(order, n)| ==> Unlisted(order, n)[a] < Unlisted(order, n)[b]
  {
    ReportOrderComplete(order, n);
    UnlistedRises(order, n);
    DistinctCount(ReportOrder(order, n));
    assert Elements(ReportOrder(order, n)) == Range(n);
  }

  /** What each report lists. */
  lemma ReportsList(order: seq<nat>, executed: seq<nat>, recorded: seq<nat>, n: nat)
    requires Accounted(order, executed, recorded, n)
    ensures
      var never, idle, worked := Never(order, executed, n), WithoutWork(order, executed, recorded), Worked(order, executed, recorded, n);
      && Distinct(never) && Distinct(idle) && Distinct(worked)
      && (forall i: nat :: i in never <==> i < n && executed[i] == 0)
      && (forall i: nat :: i in idle <==> i < n && 0 < executed[i] && recorded[i] < executed[i])
      && (forall i: nat :: i in worked <==> i < n && 0 < executed[i] && recorded[i] == executed[i])
  {
    ReportOrderComplete(order, n);
  }

  /** The passes without work come in execution order. */
  lemma IdleInOrder(order: seq<nat>, executed: seq<nat>, recorded: seq<nat>, n: nat, a: nat, b: nat) returns (p: nat, q: nat)
    requires Accounted(order, executed, recorded, n) && a < b < |order|
    requires recorded[order[a]] < executed[order[a]] && recorded[order[b]] < executed[order[b]]
    ensures p < q < |WithoutWork(order, executed, recorded)|
    ensures WithoutWork(order, executed, recorded)[p] == order[a] && WithoutWork(order, executed, recorded)[q] == order[b]
  {
    var keep := (i: nat) => !(At(executed, i) == 0 || At(recorded, i) >= At(executed, i));
    p, q := SelectKeepsOrder(order, keep, a, b);
  }

  lemma JoinThree(a: seq<nat>, b: seq<nat>, c: seq<nat>, n: nat)
    requires Distinct(a) && Distinct(b) && Distinct(c)
    requires forall i: nat :: i in a ==> i !in b && i !in c
    requires forall i: nat :: i in b ==> i !in c
    requires forall i: nat :: i < n <==> i in a || i in b || i in c
    ensures Distinct(a + b + c) && |a| + |b| + |c| == n
    ensures forall i: nat :: i in a + b + c <==> i < n
  {
    DistinctJoin(a, b);
    assert forall i :: i in a + b <==> i in a || i in b;
    DistinctJoin(a + b, c);
    var all := a + b + c;
    assert forall i :: i in all <==> i in a + b || i in c;
    DistinctCount(all);
    assert Elements(all) == Range(n);
  }

  /** The three reports split the passes: nothing is hidden and nothing is reported twice,
      although one of them only looks at the execution order. */
  lemma ReportsPartition(order: seq<nat>, executed: seq<nat>, recorded: seq<nat>, n: nat)
    requires Accounted(order, executed, recorded, n)
    ensures
      var never, idle, worked := Never(order, executed, n), WithoutWork(order, executed, recorded), Worked(order, executed, recorded, n);
      && Distinct(never + idle + worked)
      && (forall i: nat :: i in never + idle + worked <==> i < n)
      && (forall i: nat :: i in idle <==> i < n && 0 < executed[i] && recorded[i] < executed[i])
      && |never| + |idle| + |worked| == n
  {
    ReportsList(order, executed, recorded, n);
    JoinThree(Never(order, executed, n), WithoutWork(order, executed, recorded), Worked(order, executed, recorded, n), n);
  }

  // ----- Dispatch

  /** The pass recorded nothing and said why. */
  predicate GivesReason(nodes: seq<PassNode>, runs: seq<PassRun>, i: nat)
    requires i < |nodes| == |runs|
  {
    nodes[i].enabled && !runs[i].outcome.recorded && runs[i].outcome.reason.Some?
  }

  /** The skip reasons after a frame. They are kept by name. */
  function Reasons(order: seq<nat>, nodes: seq<PassNode>, runs: seq<PassRun>, before: map<string, string>): map<string, string>
    requires |runs| == |nodes| && forall k :: 0 <= k < |order| ==> order[k] < |nodes|
  {
    if order == [] then before else
    var last := order[|order| - 1];
    var reasons := Reasons(order[..|order| - 1], nodes, runs, before);
    if GivesReason(nodes, runs, last) then reasons[nodes[last].name := runs[last].outcome.reason.value] else reasons
  }

  /** The pass at place k of the order gave this name its reason, and no later one did. */
  ghost predicate LastGiver(order: seq<nat>, nodes: seq<PassNode>, runs: seq<PassRun>, name: string, k: nat)
    requires |runs| == |nodes| && Indexes(order, |nodes|)
  {
    && k < |order| && nodes[order[k]].name == name && GivesReason(nodes, runs, order[k])
    && forall j: nat :: k < j < |order| && nodes[order[j]].name == name ==> !GivesReason(nodes, runs, order[j])
  }

  /** After a frame a name shows the reason of the last pass of that name to give one in it, and
      what it showed before when none did. */
  lemma {:induction false} ReasonIsLastGivers(order: seq<nat>, nodes: seq<PassNode>, runs: seq<PassRun>, before: map<string, string>, name: string)
    requires |runs| == |nodes| && Indexes(order, |nodes|)
    ensures
      var reasons := Reasons(order, nodes, runs, before);
      && (forall k: nat :: LastGiver(order, nodes, runs, name, k) ==>
            name in reasons && reasons[name] == runs[order[k]].outcome.reason.value)
      && ((forall k: nat :: !LastGiver(order, nodes, runs, name, k)) ==>
            (name in reasons <==> name in before) && (name in reasons ==> reasons[name] == before[name]))
  {
    if order != [] {
      var n := |order| - 1;
      var init := order[..n];
      ReasonIsLastGivers(init, nodes, runs, before, name);
      if nodes[order[n]].name == name && GivesReason(nodes, runs, order[n]) {
        assert LastGiver(order, nodes, runs, name, n);
      } else {
        forall k: nat ensures LastGiver(order, nodes, runs, name, k) <==> LastGiver(init, nodes, runs, name, k) {
          GiverBefore(order, init, nodes, runs, name, k);
        }
      }
    }
  }

  lemma GiverBefore(order: seq<nat>, init: seq<nat>, nodes: seq<PassNode>, runs: seq<PassRun>, name: string, k: nat)
    requires |runs| == |nodes| && Indexes(order, |nodes|) && order != [] && init == order[..|order| - 1]
    requires !(nodes[order[|order| - 1]].name == name && GivesReason(nodes, runs, order[|order| - 1]))
    ensures LastGiver(order, nodes, runs, name, k) <==> LastGiver(init, nodes, runs, name, k)
  {
    if LastGiver(order, nodes, runs, name, k) {
      assert forall j: nat :: k < j < |init| ==> init[j] == order[j];
    }
  }

  /** One frame's runs for each listed pass. */
  predicate FramesOk(nodes: seq<PassNode>, frames: seq<seq<PassRun>>) {
    forall k :: 0 <= k < |frames| ==> |frames[k]| == |nodes|
  }

  function ReasonsOver(order: seq<nat>, nodes: seq<PassNode>, frames: seq<seq<PassRun>>, before: map<string, string>): map<string, string>
    requires Indexes(order, |nodes|) && FramesOk(nodes, frames)
  {
    if frames == [] then before else
    var n := |frames| - 1;
    Reasons(order, nodes, frames[n], ReasonsOver(order, nodes, frames[..n], before))
  }

  /** Frame f is the last in which this pass gave a reason. */
  ghost predicate LastGave(nodes: seq<PassNode>, frames: seq<seq<PassRun>>, i: nat, f: nat)
    requires i < |nodes| && FramesOk(nodes, frames)
  {
    && f < |frames| && GivesReason(nodes, frames[f], i)
    && forall later: nat :: f < later < |frames| ==> !GivesReason(nodes, frames[later], i)
  }

  /** After these frames the pass's name shows the reason the pass gave last, if it gave one. */
  ghost predicate ShowsOwn(order: seq<nat>, nodes: seq<PassNode>, frames: seq<seq<PassRun>>, before: map<string, string>, i: nat)
    requires Indexes(order, |nodes|) && i < |nodes|
  {
    FramesOk(nodes, frames) ==>
      forall f: nat :: LastGave(nodes, frames, i, f) ==>
        var reasons := ReasonsOver(order, nodes, frames, before);
        nodes[i].name in reasons && reasons[nodes[i].name] == frames[f][i].outcome.reason.value
  }

  /** No other pass that is listed and enabled has this one's name. */
  ghost predicate OwnName(order: seq<nat>, nodes: seq<PassNode>, i: nat)
    requires Indexes(order, |nodes|) && i < |nodes|
  {
    forall k: nat :: k < |order| && nodes[order[k]].enabled && nodes[order[k]].name == nodes[i].name ==> order[k] == i
  }

  lemma {:induction false} OwnLastReason(order: seq<nat>, nodes: seq<PassNode>, frames: seq<seq<PassRun>>, before: map<string, string>, i: nat)
    requires Indexes(order, |nodes|) && Distinct(order) && i in order && i < |nodes| && OwnName(order, nodes, i)
    ensures ShowsOwn(order, nodes, frames, before, i)
  {
    if frames != [] && FramesOk(nodes, frames) {
      var n := |frames| - 1;
      var earlier := ReasonsOver(order, nodes, frames[..n], before);
      OwnLastReason(order, nodes, frames[..n], before, i);
      ReasonIsLastGivers(order, nodes, frames[n], earlier, nodes[i].name);
      var place: nat :| place < |order| && order[place] == i;
      if GivesReason(nodes, frames[n], i) {
        assert LastGiver(order, nodes, frames[n], nodes[i].name, place);
      } else {
        forall f: nat | LastGave(nodes, frames, i, f) ensures LastGave(nodes, frames[..n], i, f) {}
      }
    }
  }

  /** Runs of which only one pass's says nothing was recorded, and why. */
  function OneSkips(count: nat, who: nat, why: string): (runs: seq<PassRun>)
    ensures |runs| == count
    ensures forall k :: 0 <= k < count ==> runs[k].outcome == if k == who then PassOutcome(false, Some(why)) else PassOutcome(true, None)
  {
    seq(count, k => PassRun(if k == who then PassOutcome(false, Some(why)) else PassOutcome(true, None), []))
  }

  /** The input: the pass gives one reason, and in the next frame a namesake gives another. */
  lemma NamesakeShows(order: seq<nat>, nodes: seq<PassNode>, before: map<string, string>, i: nat, place: nat)
    requires Indexes(order, |nodes|) && i < |nodes| && nodes[i].enabled && place < |order|
    requires order[place] != i && nodes[order[place]].enabled && nodes[order[place]].name == nodes[i].name && Distinct(order)
    ensures !ShowsOwn(order, nodes, [OneSkips(|nodes|, i, "a"), OneSkips(|nodes|, order[place], "b")], before, i)
  {
    var frames := [OneSkips(|nodes|, i, "a"), OneSkips(|nodes|, order[place], "b")];
    ReasonIsLastGivers(order, nodes, frames[1], ReasonsOver(order, nodes, frames[..1], before), nodes[i].name);
    assert LastGiver(order, nodes, frames[1], nodes[i].name, place);
    assert LastGave(nodes, frames, i, 0);
    assert frames[0][i].outcome.reason == Some("a") && "a"[0] != "b"[0];
  }

  /** Over all frames, and whatever was shown before, a listed pass shows the reason it gave last
      exactly when it is disabled, and so gives none, or no other listed, enabled pass has its name. */
  lemma OwnReasonIff(order: seq<nat>, nodes: seq<PassNode>, i: nat)
    requires Indexes(order, |nodes|) && Distinct(order) && i in order && i < |nodes|
    ensures (forall frames, before :: ShowsOwn(order, nodes, frames, before, i)) <==> !nodes[i].enabled || OwnName(order, nodes, i)
  {
    if !nodes[i].enabled {
      forall frames, before ensures ShowsOwn(order, nodes, frames, before, i) {}
    } else if OwnName(order, nodes, i) {
      forall frames, before ensures ShowsOwn(order, nodes, frames, before, i) {
        OwnLastReason(order, nodes, frames, before, i);
      }
    } else {
      var place: nat :| place < |order| && nodes[order[place]].enabled && nodes[order[place]].name == nodes[i].name && order[place] != i;
      NamesakeShows(order, nodes, map[], i, place);
    }
  }

  function One(b: bool): nat {
    if b then 1 else 0
  }

  /** Every listed pass that `hit` holds of counts one more; no other counter moves. */
  ghost predicate Tallied(before: seq<nat>, after: seq<nat>, order: seq<nat>, hit: seq<bool>) {
    |before| == |after| == |hit| &&
    forall i {:trigger TallyAt(i, before, after, order, hit)} :: TallyAt(i, before, after, order, hit)
  }

  ghost predicate TallyAt(i: nat, before: seq<nat>, after: seq<nat>, order: seq<nat>, hit: seq<bool>) {
    i < |before| == |after| == |hit| ==> after[i] == before[i] + One(i in order && hit[i])
  }

  function Bump(counts: seq<nat>, i: nat, counted: bool): (r: seq<nat>)
    requires i < |counts|
    ensures |r| == |counts|
  {
    if counted then counts[i := counts[i] + 1] else counts
  }

  function Enabled(nodes: seq<PassNode>): (hit: seq<bool>)
    ensures |hit| == |nodes| && forall i :: 0 <= i < |nodes| ==> hit[i] == nodes[i].enabled
  {
    seq(|nodes|, i requires 0 <= i < |nodes| => nodes[i].enabled)
  }

  function Working(nodes: seq<PassNode>, runs: seq<PassRun>): (hit: seq<bool>)
    requires |runs| == |nodes|
    ensures |hit| == |nodes| && forall i :: 0 <= i < |nodes| ==> hit[i] == (nodes[i].enabled && runs[i].outcome.recorded)
  {
    seq(|nodes|, i requires 0 <= i < |nodes| => nodes[i].enabled && runs[i].outcome.recorded)
  }

  lemma FirstSeen(order: seq<nat>, k: nat)
    requires Distinct(order) && k < |order|
    ensures order[..k + 1] == order[..k] + [order[k]] && order[..k + 1][..k] == order[..k]
    ensures order[k] !in order[..k]
  {
  }

  lemma TallyOne(before: seq<nat>, after: seq<nat>, order: seq<nat>, hit: seq<bool>, i: nat)
    requires Tallied(before, after, order, hit) && i < |after| && i !in order
    ensures Tallied(before, Bump(after, i, hit[i]), order + [i], hit)
  {
    var bumped, more := Bump(after, i, hit[i]), order + [i];
    forall j ensures TallyAt(j, before, bumped, more, hit) {
      assert TallyAt(j, before, after, order, hit);
    }
  }

  /** The counters after a frame of these passes. */
  ghost predicate Framed(order: seq<nat>, nodes: seq<PassNode>, runs: seq<PassRun>, e: seq<nat>, r: seq<nat>, e': seq<nat>, r': seq<nat>) {
    && |e| == |r| == |e'| == |r'| == |nodes| == |runs|
    && (forall i: nat :: i < |nodes| ==> e'[i] == e[i] + if i in order && nodes[i].enabled then 1 else 0)
    && (forall i: nat :: i < |nodes| ==> r'[i] == r[i] + if i in order && nodes[i].enabled && runs[i].outcome.recorded then 1 else 0)
  }

  lemma TallyMeans(before: seq<nat>, after: seq<nat>, order: seq<nat>, hit: seq<bool>)
    requires Tallied(before, after, order, hit)
    ensures forall i: nat :: i < |before| ==> after[i] == before[i] + if i in order && hit[i] then 1 else 0
  {
    forall i: nat | i < |before| ensures after[i] == before[i] + if i in order && hit[i] then 1 else 0 {
      assert TallyAt(i, before, after, order, hit);
    }
  }

  /** What lies between cuts k and k + 1 is what pass order[k] encodes. */
  ghost predicate CutAt(k: nat, recording: seq<Command>, cuts: seq<nat>, order: seq<nat>, nodes: seq<PassNode>, runs: seq<PassRun>) {
    k < |order| && k + 1 < |cuts| && order[k] < |nodes| == |runs| ==>
      && cuts[k] <= cuts[k + 1] <= |recording|
      && recording[cuts[k]..cuts[k + 1]] == if nodes[order[k]].enabled then runs[order[k]].commands else []
  }

  ghost predicate Cut(recording: seq<Command>, cuts: seq<nat>, order: seq<nat>, nodes: seq<PassNode>, runs: seq<PassRun>) {
    && |cuts| == |order| + 1 && cuts[0] == 0 && cuts[|order|] == |recording|
    && forall k: nat {:trigger CutAt(k, recording, cuts, order, nodes, runs)} :: CutAt(k, recording, cuts, order, nodes, runs)
  }

  /** Every listed pass has its own commands, or none, in its own place: nothing before the first cut,
      nothing behind the last, and the cuts in the passes' order. */
  lemma CutMeans(recording: seq<Command>, cuts: seq<nat>, order: seq<nat>, nodes: seq<PassNode>, runs: seq<PassRun>)
    requires Cut(recording, cuts, order, nodes, runs) && |runs| == |nodes| && Indexes(order, |nodes|)
    ensures |cuts| == |order| + 1 && cuts[0] == 0 && cuts[|order|] == |recording|
    ensures forall k, j :: 0 <= k < |order| && j == k + 1 ==>
      && cuts[k] <= cuts[j] <= |recording|
      && recording[cuts[k]..cuts[j]] == if nodes[order[k]].enabled then runs[order[k]].commands else []
  {
    forall k, j | 0 <= k < |order| && j == k + 1
      ensures cuts[k] <= cuts[j] <= |recording|
      ensures recording[cuts[k]..cuts[j]] == if nodes[order[k]].enabled then runs[order[k]].commands else []
    {
      assert CutAt(k, recording, cuts, order, nodes, runs);
    }
  }

  lemma CutPiece(recording: seq<Command>, cuts: seq<nat>, order: seq<nat>, nodes: seq<PassNode>, runs: seq<PassRun>, k: nat)
      returns (from: nat, to: nat)
    requires Cut(recording, cuts, order, nodes, runs) && k < |order| && order[k] < |nodes| == |runs|
    ensures from == cuts[k] <= to <= |recording| && to == cuts[k + 1]
    ensures recording[from..to] == if nodes[order[k]].enabled then runs[order[k]].commands else []
  {
    assert CutAt(k, recording, cuts, order, nodes, runs);
    from, to := cuts[k], cuts[k + 1];
  }

  lemma {:induction false} CutsRise(recording: seq<Command>, cuts: seq<nat>, order: seq<nat>, nodes: seq<PassNode>, runs: seq<PassRun>, a: nat, b: nat)
    requires Cut(recording, cuts, order, nodes, runs) && |nodes| == |runs| && Indexes(order, |nodes|) && a <= b <= |order|
    ensures cuts[a] <= cuts[b]
    decreases b - a
  {
    if a < b {
      var from, to := CutPiece(recording, cuts, order, nodes, runs, a);
      CutsRise(recording, cuts, order, nodes, runs, a + 1, b);
    }
  }

  lemma ScheduleIndexes(deps: Deps, placed: seq<nat>, order: seq<nat>)
    requires IsSchedule(deps, placed, order)
    ensures Indexes(order, |deps|)
  {
    EveryPassOnce(deps, placed, order);
    assert forall k :: 0 <= k < |order| ==> order[k] in order;
  }

  /** In the recording of a sorted graph a producer that is not downstream of a cycle has all its commands
      before its consumer's first. */
  lemma ProducerRecordsFirst(deps: Deps, placed: seq<nat>, order: seq<nat>, recording: seq<Command>, cuts: seq<nat>,
      nodes: seq<PassNode>, runs: seq<PassRun>, producer: nat, consumer: nat)
      returns (from: nat, to: nat, from': nat, to': nat)
    requires WellFormed(deps) && IsSchedule(deps, placed, order) && |deps| == |nodes| == |runs|
    requires Cut(recording, cuts, order, nodes, runs)
    requires consumer < |deps| && producer in deps[consumer] && !DownstreamOfCycle(deps, producer)
    requires producer < |deps| && nodes[producer].enabled && nodes[consumer].enabled
    ensures from <= to <= from' <= to' <= |recording|
    ensures recording[from..to] == runs[producer].commands && recording[from'..to'] == runs[consumer].commands
  {
    var p, c := ProducerFirst(deps, placed, order, producer, consumer);
    ScheduleIndexes(deps, placed, order);
    from, to := CutPiece(recording, cuts, order, nodes, runs, p);
    from', to' := CutPiece(recording, cuts, order, nodes, runs, c);
    CutsRise(recording, cuts, order, nodes, runs, p + 1, c);
  }

  lemma CutOne(recording: seq<Command>, cuts: seq<nat>, order: seq<nat>, nodes: seq<PassNode>, runs: seq<PassRun>, i: nat, commands: seq<Command>)
    requires Cut(recording, cuts, order, nodes, runs) && i < |nodes| == |runs|
    requires commands == if nodes[i].enabled then runs[i].commands else []
    ensures Cut(recording + commands, cuts + [|recording + commands|], order + [i], nodes, runs)
  {
    var r, c, o := recording + commands, cuts + [|recording + commands|], order + [i];
    forall k: nat ensures CutAt(k, r, c, o, nodes, runs) {
      assert CutAt(k, recording, cuts, order, nodes, runs);
      if k == |order| {
        assert r[|recording|..|r|] == commands;
      } else if k < |order| && order[k] < |nodes| {
        assert r[cuts[k]..cuts[k + 1]] == recording[cuts[k]..cuts[k + 1]];
      }
    }
  }

  lemma FramedMeans(order: seq<nat>, nodes: seq<PassNode>, runs: seq<PassRun>, e: seq<nat>, r: seq<nat>, e': seq<nat>, r': seq<nat>, i: nat)
    requires Framed(order, nodes, runs, e, r, e', r') && i < |nodes|
    ensures e'[i] == e[i] + if i in order && nodes[i].enabled then 1 else 0
    ensures r'[i] == r[i] + if i in order && nodes[i].enabled && runs[i].outcome.recorded then 1 else 0
  {
  }

  /** A frame that counts every listed pass once keeps the counters in agreement. */
  lemma StillAccounted(order: seq<nat>, e: seq<nat>, r: seq<nat>, e': seq<nat>, r': seq<nat>, nodes: seq<PassNode>, runs: seq<PassRun>)
    requires Accounted(order, e, r, |nodes|) && Framed(order, nodes, runs, e, r, e', r')
    ensures Accounted(order, e', r', |nodes|)
  {
  }

  /** The passes listed as without work have recorded nothing at all exactly when every pass has
      recorded either nothing or on each of its dispatches. */
  lemma NeverContributedIff(order: seq<nat>, executed: seq<nat>, recorded: seq<nat>, n: nat)
    requires Accounted(order, executed, recorded, n)
    ensures (forall i: nat :: i in WithoutWork(order, executed, recorded) ==> recorded[i] == 0)
       <==> (forall i: nat :: i < n ==> recorded[i] == 0 || recorded[i] == executed[i])
  {
    ReportsPartition(order, executed, recorded, n);
    forall i: nat | i < n && 0 < recorded[i] < executed[i] ensures i in WithoutWork(order, executed, recorded) {}
  }

  /** The input: a pass that records in one frame and nothing in the next is listed. */
  lemma WorkedYetListed(order: seq<nat>, nodes: seq<PassNode>, runs: seq<PassRun>, runs': seq<PassRun>, i: nat,
      e0: seq<nat>, e1: seq<nat>, e2: seq<nat>, r0: seq<nat>, r1: seq<nat>, r2: seq<nat>)
    requires Accounted(order, e0, r0, |nodes|) && Framed(order, nodes, runs, e0, r0, e1, r1) && Framed(order, nodes, runs', e1, r1, e2, r2)
    requires i in order && i < |nodes| && nodes[i].enabled && runs[i].outcome.recorded && !runs'[i].outcome.recorded
    ensures i in WithoutWork(order, e2, r2) && 0 < r2[i]
  {
    StillAccounted(order, e0, r0, e1, r1, nodes, runs);
    StillAccounted(order, e1, r1, e2, r2, nodes, runs');
    ReportsPartition(order, e2, r2, |nodes|);
  }

  class RenderGraph {
    var nodes: seq<PassNode>
    var nodeIndices: map<string, nat>
    var executionOrder: seq<nat>
    var executionCounts: seq<nat>
    var recordedCounts: seq<nat>
    var skipReasons: map<string, string>
    var dirty: bool
    ghost var placed: seq<nat>

    ghost function Dependencies(): Deps
      reads this`nodes, this`nodeIndices
    {
      DepsOf(nodes, nodeIndices)
    }

    ghost predicate Valid()
      reads this
    {
      && Accounted(executionOrder, executionCounts, recordedCounts, |nodes|)
      && (forall name :: name in nodeIndices ==> nodeIndices[name] < |nodes| && nodes[nodeIndices[name]].name == name)
      && (forall i :: 0 <= i < |nodes| ==> nodes[i].name in nodeIndices && i <= nodeIndices[nodes[i].name])
      && (!dirty ==> IsSchedule(Dependencies(), placed, executionOrder))
    }

    constructor ()
      ensures Valid() && nodes == [] && executionCounts == [] && !dirty
    {
      nodes, nodeIndices, executionOrder := [], map[], [];
      executionCounts, recordedCounts, skipReasons := [], [], map[];
      dirty, placed := false, [];
    }

    /** A second pass of the same name takes over the name; the first stays in the graph. */
    method AddPass(node: PassNode)
      requires Valid()
      modifies this
      ensures Valid() && dirty
      ensures nodes == old(nodes) + [node]
      ensures nodeIndices == old(nodeIndices)[node.name := |old(nodes)|]
      ensures executionCounts == old(executionCounts) + [0] && recordedCounts == old(recordedCounts) + [0]
      ensures executionOrder == old(executionOrder) && skipReasons == old(skipReasons)
    {
      var index := |nodes|;
      nodes := nodes + [node];
      nodeIndices := nodeIndices[nodes[index].name := index];
      executionCounts := executionCounts + [0];
      recordedCounts := recordedCounts + [0];
      dirty := true;
    }

    method SetEnabled(name: string, enabled: bool)
      requires Valid()
      modifies this`nodes
      ensures Valid()
      ensures nodes == if name in nodeIndices then old(nodes)[nodeIndices[name] := old(nodes)[nodeIndices[name]].(enabled := enabled)] else old(nodes)
    {
      if name in nodeIndices {
        var i := nodeIndices[name];
        nodes := nodes[i := nodes[i].(enabled := enabled)];
        assert DepsOf(nodes, nodeIndices) == old(DepsOf(nodes, nodeIndices));
      }
    }

    method MarkDirty()
      requires Valid()
      modifies this`dirty
      ensures Valid() && dirty
    {
      dirty := true;
    }

    method Sort()
      requires Valid()
      modifies this`executionOrder, this`dirty, this`placed
      ensures Valid() && !dirty
      ensures IsSchedule(Dependencies(), placed, executionOrder)
      ensures !old(dirty) ==> executionOrder == old(executionOrder)
    {
      if !dirty {
        return;
      }
      executionOrder, placed := SortNodes(nodes, nodeIndices);
      dirty := false;
    }

    /** `pass_execution_counts` and `recorded_counts`, which differ in the counters they read: every
        pass is listed once, in execution order and then in the order it was added. */
    method CountsReport(counts: seq<nat>) returns (r: seq<(string, nat)>)
      requires Indexes(executionOrder, |nodes|) && Distinct(executionOrder)
      ensures Distinct(ReportOrder(executionOrder, |nodes|)) && forall i: nat :: i in ReportOrder(executionOrder, |nodes|) <==> i < |nodes|
      ensures Indexes(ReportOrder(executionOrder, |nodes|), |nodes|) && r == Labelled(ReportOrder(executionOrder, |nodes|), nodes, counts)
    {
      r := CountsInOrder(executionOrder, counts);
      ReportOrderStart(executionOrder);
      for i := 0 to |nodes|
        invariant Indexes(ReportOrder(executionOrder, i), |nodes|)
        invariant r == Labelled(ReportOrder(executionOrder, i), nodes, counts)
      {
        ReportStep(executionOrder, i, nodes, counts);
        if i !in executionOrder {
          r := r + [(nodes[i].name, At(counts, i))];
        }
      }
      ReportOrderComplete(executionOrder, |nodes|);
    }

    method CountsInOrder(order: seq<nat>, counts: seq<nat>) returns (r: seq<(string, nat)>)
      requires Indexes(order, |nodes|)
      ensures r == Labelled(order, nodes, counts)
    {
      r := [];
      for k := 0 to |order|
        invariant r == Labelled(order[..k], nodes, counts)
      {
        assert order[..k + 1] == order[..k] + [order[k]];
        LabelledStep(order[..k], order[k], nodes, counts);
        r := r + [(nodes[order[k]].name, At(counts, order[k]))];
      }
      assert order[..|order|] == order;
    }

    /** The passes dispatched with work missing, each with the last reason given under its name. */
    method PassesWithoutWork() returns (r: seq<(string, string)>)
      requires Valid()
      ensures Indexes(WithoutWork(executionOrder, executionCounts, recordedCounts), |nodes|)
      ensures r == Explained(WithoutWork(executionOrder, executionCounts, recordedCounts), nodes, skipReasons)
    {
      r := [];
      for k := 0 to |executionOrder|
        invariant Indexes(WithoutWork(executionOrder[..k], executionCounts, recordedCounts), |nodes|)
        invariant r == Explained(WithoutWork(executionOrder[..k], executionCounts, recordedCounts), nodes, skipReasons)
      {
        var i := executionOrder[k];
        var dispatched, recorded := At(executionCounts, i), At(recordedCounts, i);
        WithoutWorkStep(executionOrder, k, executionCounts, recordedCounts);
        if !(dispatched == 0 || recorded >= dispatched) {
          ExplainedStep(WithoutWork(executionOrder[..k], executionCounts, recordedCounts), i, nodes, skipReasons);
          var name := nodes[i].name;
          r := r + [(name, if name in skipReasons then skipReasons[name] else "recorded nothing")];
        }
      }
      assert executionOrder[..|executionOrder|] == executionOrder;
    }

    /** The passes whose dispatch count is zero. */
    method NeverExecuted() returns (r: seq<string>)
      requires Valid()
      ensures Indexes(Never(executionOrder, executionCounts, |nodes|), |nodes|)
      ensures r == NamesOf(Never(executionOrder, executionCounts, |nodes|), nodes)
    {
      var counts := CountsReport(executionCounts);
      r := [];
      for k := 0 to |counts|
        invariant r == ZeroNames(counts[..k])
      {
        assert counts[..k + 1][..k] == counts[..k];
        if counts[k].1 == 0 {
          r := r + [counts[k].0];
        }
      }
      assert counts[..|counts|] == counts;
      NeverNamed(executionOrder, nodes, executionCounts);
    }

    /** One turn of the dispatch loop. A disabled pass is not dispatched. */
    method DispatchOne(index: nat, run: PassRun) returns (commands: seq<Command>)
      requires index < |nodes| && |executionCounts| == |recordedCounts| == |nodes|
      modifies this`executionCounts, this`recordedCounts, this`skipReasons
      ensures commands == if nodes[index].enabled then run.commands else []
      ensures executionCounts == Bump(old(executionCounts), index, nodes[index].enabled)
      ensures recordedCounts == Bump(old(recordedCounts), index, nodes[index].enabled && run.outcome.recorded)
      ensures skipReasons == if nodes[index].enabled && !run.outcome.recorded && run.outcome.reason.Some? then old(skipReasons)[nodes[index].name := run.outcome.reason.value] else old(skipReasons)
    {
      if !nodes[index].enabled {
        return [];
      }
      executionCounts := executionCounts[index := executionCounts[index] + 1];
      if run.outcome.recorded {
        recordedCounts := recordedCounts[index := recordedCounts[index] + 1];
      } else if run.outcome.reason.Some? {
        skipReasons := skipReasons[nodes[index].name := run.outcome.reason.value];
      }
      return run.commands;
    }

    /** The dispatch loop over any duplicate-free order. Pass order[k]'s commands lie between cuts k and
        k + 1 of the recording. */
    method DispatchAll(order: seq<nat>, runs: seq<PassRun>) returns (recording: seq<Command>, ghost cuts: seq<nat>)
      requires Distinct(order) && forall k :: 0 <= k < |order| ==> order[k] < |nodes|
      requires |runs| == |executionCounts| == |recordedCounts| == |nodes|
      modifies this`executionCounts, this`recordedCounts, this`skipReasons
      ensures Cut(recording, cuts, order, nodes, runs)
      ensures skipReasons == Reasons(order, nodes, runs, old(skipReasons))
      ensures Framed(order, nodes, runs, old(executionCounts), old(recordedCounts), executionCounts, recordedCounts)
    {
      recording := [];
      cuts := [0];
      for k := 0 to |order|
        invariant Cut(recording, cuts, order[..k], nodes, runs)
        invariant skipReasons == Reasons(order[..k], nodes, runs, old(skipReasons))
        invariant Tallied(old(executionCounts), executionCounts, order[..k], Enabled(nodes))
        invariant Tallied(old(recordedCounts), recordedCounts, order[..k], Working(nodes, runs))
      {
        FirstSeen(order, k);
        TallyOne(old(executionCounts), executionCounts, order[..k], Enabled(nodes), order[k]);
        TallyOne(old(recordedCounts), recordedCounts, order[..k], Working(nodes, runs), order[k]);
        var commands := DispatchOne(order[k], runs[order[k]]);
        CutOne(recording, cuts, order[..k], nodes, runs, order[k], commands);
        recording := recording + commands;
        cuts := cuts + [|recording|];
      }
      assert order[..|order|] == order;
      TallyMeans(old(executionCounts), executionCounts, order, Enabled(nodes));
      TallyMeans(old(recordedCounts), recordedCounts, order, Working(nodes, runs));
    }

    /** Dispatch every enabled pass once, in execution order, and count what it did. */
    method Dispatch(runs: seq<PassRun>) returns (recording: seq<Command>, ghost cuts: seq<nat>)
      requires Valid() && !dirty && |runs| == |nodes|
      modifies this`executionCounts, this`recordedCounts, this`skipReasons
      ensures Valid()
      ensures Cut(recording, cuts, executionOrder, nodes, runs)
      ensures skipReasons == Reasons(executionOrder, nodes, runs, old(skipReasons))
      ensures Framed(executionOrder, nodes, runs, old(executionCounts), old(recordedCounts), executionCounts, recordedCounts)
    {
      recording, cuts := DispatchAll(executionOrder, runs);
      assert Dependencies() == old(Dependencies());
      StillAccounted(executionOrder, old(executionCounts), old(recordedCounts), executionCounts, recordedCounts, nodes, runs);
    }

    /** `execute` and `record` share this shape: sort when dirty, give up before any dispatch
        when the command buffer cannot begin, and dispatch otherwise. When the buffer cannot finish
        the commands are lost, but the counters have moved. */
    method Execute(beginOk: bool, finishOk: bool, runs: seq<PassRun>) returns (recording: seq<Command>, ghost cuts: seq<nat>)
      requires Valid() && |runs| == |nodes|
      modifies this`executionOrder, this`dirty, this`placed
      modifies this`executionCounts, this`recordedCounts, this`skipReasons
      ensures Valid() && !dirty && (!old(dirty) ==> executionOrder == old(executionOrder))
      ensures IsSchedule(Dependencies(), placed, executionOrder)
      ensures beginOk && finishOk ==> Cut(recording, cuts, executionOrder, nodes, runs)
      ensures !(beginOk && finishOk) ==> recording == []
      ensures beginOk ==> skipReasons == Reasons(executionOrder, nodes, runs, old(skipReasons))
      ensures beginOk ==>
        Framed(executionOrder, nodes, runs, old(executionCounts), old(recordedCounts), executionCounts, recordedCounts)
      ensures !beginOk ==>
        && recordedCounts == old(recordedCounts) && executionCounts == old(executionCounts)
        && skipReasons == old(skipReasons)
    {
      if dirty {
        Sort();
      }
      if !beginOk {
        return [], [];
      }
      recording, cuts := Dispatch(runs);
      if !finishOk {
        return [], [];
      }
    }
  }
}
