/** The generated index lists of the cylinder and the sphere, read as oriented surfaces. */
module MeshTopology {
  import opened Basics

  // ----- Directed edges of a triangle list

  datatype Edge = Edge(from: nat, to: nat)

  function Reversed(e: Edge): Edge {
    Edge(e.to, e.from)
  }

  /** Edge number e of the list: side e % 3 of triangle e / 3. */
  function EdgeAt(indices: seq<nat>, e: nat): Edge
    requires |indices| % 3 == 0 && e < |indices|
  {
    var t := e / 3 * 3;
    Edge(indices[e], indices[if e % 3 == 2 then t else e + 1])
  }

  /** No directed edge occurs twice. */
  ghost predicate Consistent(indices: seq<nat>)
    requires |indices| % 3 == 0
  {
    forall e, f :: 0 <= e < |indices| && 0 <= f < |indices| && EdgeAt(indices, e) == EdgeAt(indices, f) ==> e == f
  }

  ghost predicate HasEdge(indices: seq<nat>, x: Edge)
    requires |indices| % 3 == 0
  {
    exists e :: 0 <= e < |indices| && EdgeAt(indices, e) == x
  }

  /** Every directed edge is met by its reverse. */
  ghost predicate Closed(indices: seq<nat>)
    requires |indices| % 3 == 0
  {
    forall e :: 0 <= e < |indices| ==> HasEdge(indices, Reversed(EdgeAt(indices, e)))
  }

  /** A triangle's three sides, in its own direction. */
  lemma EdgesOf(indices: seq<nat>, t: nat)
    requires |indices| % 3 == 0 && 3 * t + 2 < |indices|
    ensures EdgeAt(indices, 3 * t) == Edge(indices[3 * t], indices[3 * t + 1])
    ensures EdgeAt(indices, 3 * t + 1) == Edge(indices[3 * t + 1], indices[3 * t + 2])
    ensures EdgeAt(indices, 3 * t + 2) == Edge(indices[3 * t + 2], indices[3 * t])
  {
  }

  /** Two triangles written at one place. */
  predicate HasBlock(indices: seq<nat>, at: nat, block: seq<nat>) {
    at + 6 <= |indices| && indices[at..at + 6] == block
  }

  lemma BlockKept(before: seq<nat>, more: seq<nat>, at: nat, block: seq<nat>)
    requires HasBlock(before, at, block)
    ensures HasBlock(before + more, at, block)
  {
    assert (before + more)[at..at + 6] == before[at..at + 6];
  }

  lemma BlockAdded(before: seq<nat>, block: seq<nat>)
    requires |block| == 6
    ensures HasBlock(before + block, |before|, block)
  {
  }

  /** Triangle and side of edge k of a block that begins with triangle q. */
  lemma SideOf(q: nat, k: nat)
    requires k < 6
    ensures (3 * q + k) % 3 == k % 3
    ensures (3 * q + k) / 3 * 3 == 3 * q + k / 3 * 3
    ensures k % 3 == 2 ==> k / 3 * 3 == k - 2
  {
  }

  lemma BlockIndex(indices: seq<nat>, at: nat, block: seq<nat>, k: nat)
    requires HasBlock(indices, at, block) && k < 6
    ensures |block| == 6 && indices[at + k] == block[k]
  {
  }

  lemma BlockEdge(indices: seq<nat>, q: nat, block: seq<nat>, k: nat)
    requires |indices| % 3 == 0 && HasBlock(indices, 3 * q, block) && k < 6
    ensures |block| == 6
    ensures EdgeAt(indices, 3 * q + k) == Edge(block[k], block[if k % 3 == 2 then k - 2 else k + 1])
  {
    SideOf(q, k);
    BlockIndex(indices, 3 * q, block, k);
    BlockIndex(indices, 3 * q, block, if k % 3 == 2 then k - 2 else k + 1);
  }

  // ----- Cylinder

  function Next(i: nat, n: nat): nat
    requires i < n
  {
    if i + 1 == n then 0 else i + 1
  }

  function Top(i: nat): nat { 2 + i * 2 }

  function Bottom(i: nat): nat { 3 + i * 2 }

  function CapTriangles(i: nat, n: nat): seq<nat>
    requires i < n
  {
    [0, Top(Next(i, n)), Top(i), 1, Bottom(i), Bottom(Next(i, n))]
  }

  function SideTriangles(i: nat, n: nat): seq<nat>
    requires i < n
  {
    [Top(i), Top(Next(i, n)), Bottom(i), Bottom(i), Top(Next(i, n)), Bottom(Next(i, n))]
  }

  predicate CapAt(indices: seq<nat>, j: nat, n: nat) {
    j < n && HasBlock(indices, 6 * j, CapTriangles(j, n))
  }

  predicate SideAt(indices: seq<nat>, j: nat, n: nat) {
    j < n && HasBlock(indices, 6 * n + 6 * j, SideTriangles(j, n))
  }

  ghost predicate Caps(indices: seq<nat>, k: nat, n: nat) {
    forall j {:trigger CapAt(indices, j, n)} :: 0 <= j < k ==> CapAt(indices, j, n)
  }

  ghost predicate Sides(indices: seq<nat>, k: nat, n: nat) {
    forall j {:trigger SideAt(indices, j, n)} :: 0 <= j < k ==> SideAt(indices, j, n)
  }

  ghost predicate IsCylinder(indices: seq<nat>, n: nat) {
    n >= 3 && |indices| == 12 * n && Caps(indices, n, n) && Sides(indices, n, n)
  }

  lemma CapsKept(indices: seq<nat>, more: seq<nat>, k: nat, n: nat)
    requires Caps(indices, k, n)
    ensures Caps(indices + more, k, n)
  {
    var longer := indices + more;
    forall j | 0 <= j < k ensures CapAt(longer, j, n) {
      assert CapAt(indices, j, n);
      BlockKept(indices, more, 6 * j, CapTriangles(j, n));
    }
  }

  lemma SidesKept(indices: seq<nat>, more: seq<nat>, k: nat, n: nat)
    requires Sides(indices, k, n)
    ensures Sides(indices + more, k, n)
  {
    var longer := indices + more;
    forall j | 0 <= j < k ensures SideAt(longer, j, n) {
      assert SideAt(indices, j, n);
      BlockKept(indices, more, 6 * n + 6 * j, SideTriangles(j, n));
    }
  }

  /** The cap loop: segment i joins the top centre to its own ring backwards, the bottom forwards. */
  method AddCaps(n: nat) returns (indices: seq<nat>)
    ensures |indices| == 6 * n && Caps(indices, n, n)
  {
    indices := [];
    for i := 0 to n
      invariant |indices| == 6 * i && Caps(indices, i, n)
    {
      var next := (i + 1) % n;
      assert next == Next(i, n);
      var block := [0, 2 + next * 2, 2 + i * 2, 1, 2 + i * 2 + 1, 2 + next * 2 + 1];
      BlockAdded(indices, block);
      CapsKept(indices, block, i, n);
      indices := indices + block;
      assert CapAt(indices, i, n);
    }
  }

  /** The side loop, behind the caps. */
  method AddSides(caps: seq<nat>, n: nat) returns (indices: seq<nat>)
    requires |caps| == 6 * n && Caps(caps, n, n)
    ensures |indices| == 12 * n && Caps(indices, n, n) && Sides(indices, n, n)
  {
    indices := caps;
    for i := 0 to n
      invariant |indices| == 6 * n + 6 * i && Caps(indices, n, n) && Sides(indices, i, n)
    {
      var next := (i + 1) % n;
      assert next == Next(i, n);
      var block := [2 + i * 2, 2 + next * 2, 2 + i * 2 + 1, 2 + i * 2 + 1, 2 + next * 2, 2 + next * 2 + 1];
      BlockAdded(indices, block);
      CapsKept(indices, block, n, n);
      SidesKept(indices, block, i, n);
      indices := indices + block;
      assert SideAt(indices, i, n);
    }
  }

  /** Fewer than three segments become three. */
  method CylinderIndices(requested: nat) returns (indices: seq<nat>, n: nat)
    ensures n == if requested < 3 then 3 else requested
    ensures IsCylinder(indices, n)
  {
    n := if requested < 3 then 3 else requested;
    indices := AddCaps(n);
    indices := AddSides(indices, n);
  }

  lemma NextIs(i: nat, n: nat)
    requires i < n
    ensures Next(i, n) == (i + 1) % n
  {
  }

  /** The six cap indices of segment i: top centre, next and own top corner; bottom centre, own and next. */
  lemma CapIndicesAre(indices: seq<nat>, n: nat, i: nat)
    requires IsCylinder(indices, n) && i < n
    ensures n >= 3 && |indices| == 12 * n
    ensures
      var next, at := (i + 1) % n, 6 * i;
      at + 6 <= |indices| && indices[at..at + 6] == [0, 2 + 2 * next, 2 + 2 * i, 1, 3 + 2 * i, 3 + 2 * next]
  {
    NextIs(i, n);
    assert CapAt(indices, i, n);
  }

  /** Its six side indices, behind all caps: the two triangles between its corners and the next ones. */
  lemma SideIndicesAre(indices: seq<nat>, n: nat, i: nat)
    requires IsCylinder(indices, n) && i < n
    ensures
      var next, at := (i + 1) % n, 6 * n + 6 * i;
      at + 6 <= |indices| && indices[at..at + 6] == [2 + 2 * i, 2 + 2 * next, 3 + 2 * i, 3 + 2 * i, 2 + 2 * next, 3 + 2 * next]
  {
    NextIs(i, n);
    assert SideAt(indices, i, n);
  }

  function Before(i: nat, n: nat): nat
    requires i < n
  {
    if i == 0 then n - 1 else i - 1
  }

  /** Edge k of segment i: the caps' six edges, then the side's. */
  function CylinderEdge(i: nat, k: nat, n: nat): Edge
    requires i < n && k < 12
  {
    var j := Next(i, n);
    if k == 0 then Edge(0, Top(j)) else if k == 1 then Edge(Top(j), Top(i)) else if k == 2 then Edge(Top(i), 0)
    else if k == 3 then Edge(1, Bottom(i)) else if k == 4 then Edge(Bottom(i), Bottom(j)) else if k == 5 then Edge(Bottom(j), 1)
    else if k == 6 then Edge(Top(i), Top(j)) else if k == 7 then Edge(Top(j), Bottom(i)) else if k == 8 then Edge(Bottom(i), Top(i))
    else if k == 9 then Edge(Bottom(i), Top(j)) else if k == 10 then Edge(Top(j), Bottom(j)) else Edge(Bottom(j), Bottom(i))
  }

  function Segment(e: nat, n: nat): nat {
    if e < 6 * n then e / 6 else (e - 6 * n) / 6
  }

  function Slot(e: nat, n: nat): nat {
    if e < 6 * n then e % 6 else 6 + (e - 6 * n) % 6
  }

  function PositionOf(i: nat, k: nat, n: nat): nat {
    if k < 6 then 6 * i + k else 6 * n + 6 * i + (k - 6)
  }

  lemma CapEdge(i: nat, k: nat, n: nat)
    requires i < n && k < 6
    ensures
      var block := CapTriangles(i, n);
      CylinderEdge(i, k, n) == Edge(block[k], block[if k % 3 == 2 then k - 2 else k + 1])
  {
  }

  lemma SideEdge(i: nat, k: nat, n: nat)
    requires i < n && k < 6
    ensures
      var block := SideTriangles(i, n);
      CylinderEdge(i, k + 6, n) == Edge(block[k], block[if k % 3 == 2 then k - 2 else k + 1])
  {
  }

  lemma CylinderEdgeAt(indices: seq<nat>, n: nat, i: nat, k: nat)
    requires IsCylinder(indices, n) && i < n && k < 12
    ensures PositionOf(i, k, n) < |indices|
    ensures EdgeAt(indices, PositionOf(i, k, n)) == CylinderEdge(i, k, n)
  {
    if k < 6 {
      CapEdgeAt(indices, n, i, k);
    } else {
      SideEdgeAt(indices, n, i, k - 6);
    }
  }

  lemma CapEdgeAt(indices: seq<nat>, n: nat, i: nat, k: nat)
    requires IsCylinder(indices, n) && i < n && k < 6
    ensures EdgeAt(indices, 6 * i + k) == CylinderEdge(i, k, n)
  {
    assert CapAt(indices, i, n);
    CapEdge(i, k, n);
    BlockEdge(indices, 2 * i, CapTriangles(i, n), k);
  }

  lemma SideEdgeAt(indices: seq<nat>, n: nat, i: nat, k: nat)
    requires IsCylinder(indices, n) && i < n && k < 6
    ensures EdgeAt(indices, 6 * n + 6 * i + k) == CylinderEdge(i, k + 6, n)
  {
    assert SideAt(indices, i, n);
    var q := 2 * n + 2 * i;
    assert HasBlock(indices, 3 * q, SideTriangles(i, n));
    SideEdge(i, k, n);
    BlockEdge(indices, q, SideTriangles(i, n), k);
  }

  lemma Positions(e: nat, n: nat)
    requires e < 12 * n
    ensures Segment(e, n) < n && Slot(e, n) < 12 && PositionOf(Segment(e, n), Slot(e, n), n) == e
  {
  }

  lemma CylinderEdgeUnique(n: nat, i: nat, k: nat, j: nat, m: nat)
    requires n >= 3 && i < n && j < n && k < 12 && m < 12
    requires CylinderEdge(i, k, n) == CylinderEdge(j, m, n)
    ensures i == j && k == m
  {
  }

  /** Where the reverse of edge k of segment i is. */
  function Twin(i: nat, k: nat, n: nat): (nat, nat)
    requires i < n && k < 12
  {
    if k == 0 then (Next(i, n), 2) else if k == 1 then (i, 6) else if k == 2 then (Before(i, n), 0)
    else if k == 3 then (Before(i, n), 5) else if k == 4 then (i, 11) else if k == 5 then (Next(i, n), 3)
    else if k == 6 then (i, 1) else if k == 7 then (i, 9) else if k == 8 then (Before(i, n), 10)
    else if k == 9 then (i, 7) else if k == 10 then (Next(i, n), 8) else (i, 4)
  }

  lemma TwinReverses(n: nat, i: nat, k: nat)
    requires n >= 3 && i < n && k < 12
    ensures Twin(i, k, n).0 < n && Twin(i, k, n).1 < 12
    ensures CylinderEdge(Twin(i, k, n).0, Twin(i, k, n).1, n) == Reversed(CylinderEdge(i, k, n))
  {
  }

  /** The cylinder is a closed, consistently oriented surface for every segment count: each
      directed edge occurs once and so does its reverse. */
  lemma CylinderClosed(indices: seq<nat>, n: nat)
    requires IsCylinder(indices, n)
    ensures Consistent(indices) && Closed(indices)
  {
    forall e, f | 0 <= e < |indices| && 0 <= f < |indices| && EdgeAt(indices, e) == EdgeAt(indices, f)
      ensures e == f
    {
      Positions(e, n);
      Positions(f, n);
      CylinderEdgeAt(indices, n, Segment(e, n), Slot(e, n));
      CylinderEdgeAt(indices, n, Segment(f, n), Slot(f, n));
      CylinderEdgeUnique(n, Segment(e, n), Slot(e, n), Segment(f, n), Slot(f, n));
    }
    forall e | 0 <= e < |indices|
      ensures HasEdge(indices, Reversed(EdgeAt(indices, e)))
    {
      Positions(e, n);
      var i, k := Segment(e, n), Slot(e, n);
      CylinderEdgeAt(indices, n, i, k);
      TwinReverses(n, i, k);
      CylinderEdgeAt(indices, n, Twin(i, k, n).0, Twin(i, k, n).1);
    }
  }

  lemma CylinderVertexBelow(indices: seq<nat>, n: nat, e: nat)
    requires IsCylinder(indices, n) && e < |indices|
    ensures indices[e] < 2 + 2 * n
  {
    Positions(e, n);
    CylinderEdgeAt(indices, n, Segment(e, n), Slot(e, n));
    EdgeLeaves(n, Segment(e, n), Slot(e, n));
    assert indices[e] == EdgeAt(indices, e).from;
  }

  lemma EdgeLeaves(n: nat, i: nat, k: nat)
    requires i < n && k < 12
    ensures CylinderEdge(i, k, n).from < 2 + 2 * n
  {
  }

  lemma CylinderVertexUsed(indices: seq<nat>, n: nat, v: nat) returns (e: nat)
    requires IsCylinder(indices, n) && v < 2 + 2 * n
    ensures e < |indices| && indices[e] == v
  {
    var i: nat, k: nat := VertexSegment(v), VertexSlot(v);
    VertexLeaves(n, v);
    e := PositionOf(i, k, n);
    CylinderEdgeAt(indices, n, i, k);
    assert EdgeAt(indices, e).from == v;
  }

  /** A segment and one of its edges that leaves vertex v. */
  function VertexSegment(v: nat): nat {
    if v < 2 then 0 else (v - 2) / 2
  }

  function VertexSlot(v: nat): nat {
    if v == 0 then 0 else if v == 1 then 3 else if v % 2 == 0 then 2 else 4
  }

  lemma VertexLeaves(n: nat, v: nat)
    requires n >= 3 && v < 2 + 2 * n
    ensures VertexSegment(v) < n && CylinderEdge(VertexSegment(v), VertexSlot(v), n).from == v
  {
  }

  /** Its vertices are the two centres and both rings, 2 + 2n in all, and with 4n triangles and 6n
      undirected edges it is a sphere: V - E + F = 2. The last two of the vertices built, the seam's
      second copies, are never referred to. */
  lemma CylinderVertices(indices: seq<nat>, n: nat)
    requires IsCylinder(indices, n)
    ensures Elements(indices) == Range(2 + 2 * n)
    ensures |Elements(indices)| - |indices| / 2 + |indices| / 3 == 2
  {
    forall v | v in indices ensures v < 2 + 2 * n {
      var e :| 0 <= e < |indices| && indices[e] == v;
      CylinderVertexBelow(indices, n, e);
    }
    forall v: nat | v < 2 + 2 * n ensures v in indices {
      var e := CylinderVertexUsed(indices, n, v);
    }
  }

  // ----- Sphere

  const WORD: nat := 0x1_0000_0000

  function Corner(i: nat, j: nat, sectors: nat): nat {
    i * (sectors + 1) + j
  }

  function CellTriangles(i: nat, j: nat, sectors: nat): seq<nat> {
    var first := Corner(i, j, sectors);
    var second := Corner(i + 1, j, sectors);
    [first, first + 1, second, first + 1, second + 1, second]
  }

  function CellBase(i: nat, j: nat, sectors: nat): nat {
    6 * (i * sectors + j)
  }

  predicate CellAt(indices: seq<nat>, i: nat, j: nat, sectors: nat) {
    HasBlock(indices, CellBase(i, j, sectors), CellTriangles(i, j, sectors))
  }

  /** The first `rows` rows of cells, and `j` cells of the next. */
  ghost predicate Cells(indices: seq<nat>, rows: nat, j: nat, sectors: nat) {
    && (forall a, b {:trigger CellAt(indices, a, b, sectors)} :: 0 <= a < rows && 0 <= b < sectors ==> CellAt(indices, a, b, sectors))
    && (forall b {:trigger CellAt(indices, rows, b, sectors)} :: 0 <= b < j ==> CellAt(indices, rows, b, sectors))
  }

  ghost predicate IsSphere(indices: seq<nat>, stacks: nat, sectors: nat) {
    |indices| == 6 * (stacks * sectors) && Cells(indices, stacks, 0, sectors)
  }

  lemma CellAdded(indices: seq<nat>, i: nat, j: nat, sectors: nat)
    requires Cells(indices, i, j, sectors) && |indices| == CellBase(i, j, sectors) && j < sectors
    ensures Cells(indices + CellTriangles(i, j, sectors), i, j + 1, sectors)
  {
    var block := CellTriangles(i, j, sectors);
    var longer := indices + block;
    BlockAdded(indices, block);
    forall a, b | 0 <= a < i && 0 <= b < sectors ensures CellAt(longer, a, b, sectors) {
      assert CellAt(indices, a, b, sectors);
      BlockKept(indices, block, CellBase(a, b, sectors), CellTriangles(a, b, sectors));
    }
    forall b | 0 <= b < j ensures CellAt(longer, i, b, sectors) {
      assert CellAt(indices, i, b, sectors);
      BlockKept(indices, block, CellBase(i, b, sectors), CellTriangles(i, b, sectors));
    }
  }

  /** The index loops of the sphere, for grids whose vertices 32 bits can number. */
  method SphereIndices(stacks: nat, sectors: nat) returns (indices: seq<nat>)
    requires (stacks + 1) * (sectors + 1) <= WORD
    ensures IsSphere(indices, stacks, sectors)
  {
    indices := [];
    for i := 0 to stacks
      invariant |indices| == CellBase(i, 0, sectors) && Cells(indices, i, 0, sectors)
    {
      for j := 0 to sectors
        invariant |indices| == CellBase(i, j, sectors) && Cells(indices, i, j, sectors)
      {
        var first := i * (sectors + 1) + j;
        var second := first + sectors + 1;
        NextRow(i, j, sectors);
        CellAdded(indices, i, j, sectors);
        indices := indices + [first, first + 1, second, first + 1, second + 1, second];
      }
      RowDone(i, sectors);
    }
  }

  /** The six indices of cell (i, j), whose corners are numbered row by row. */
  lemma SphereIndicesAre(indices: seq<nat>, stacks: nat, sectors: nat, i: nat, j: nat)
    requires IsSphere(indices, stacks, sectors) && i < stacks && j < sectors
    ensures |indices| == 6 * (stacks * sectors)
    ensures
      var at, first := 6 * (i * sectors + j), i * (sectors + 1) + j;
      var second := first + sectors + 1;
      at + 6 <= |indices| && indices[at..at + 6] == [first, first + 1, second, first + 1, second + 1, second]
  {
    assert CellAt(indices, i, j, sectors);
    NextRow(i, j, sectors);
  }

  lemma RowDone(i: nat, sectors: nat)
    ensures CellBase(i + 1, 0, sectors) == CellBase(i, sectors, sectors)
  {
    assert (i + 1) * sectors == i * sectors + sectors;
  }

  lemma NextRow(i: nat, j: nat, sectors: nat)
    ensures Corner(i + 1, j, sectors) == Corner(i, j, sectors) + sectors + 1
    ensures Corner(i, j + 1, sectors) == Corner(i, j, sectors) + 1
  {
  }

  /** Edge k of cell (i, j). */
  function CellEdge(i: nat, j: nat, k: nat, sectors: nat): Edge
    requires k < 6
  {
    var a, b := Corner(i, j, sectors), Corner(i, j + 1, sectors);
    var c, d := Corner(i + 1, j, sectors), Corner(i + 1, j + 1, sectors);
    if k == 0 then Edge(a, b) else if k == 1 then Edge(b, c) else if k == 2 then Edge(c, a)
    else if k == 3 then Edge(b, d) else if k == 4 then Edge(d, c) else Edge(c, b)
  }

  lemma CellTrianglesEdge(i: nat, j: nat, k: nat, sectors: nat)
    requires k < 6
    ensures
      var block := CellTriangles(i, j, sectors);
      CellEdge(i, j, k, sectors) == Edge(block[k], block[if k % 3 == 2 then k - 2 else k + 1])
  {
    NextRow(i, j, sectors);
    NextRow(i + 1, j, sectors);
  }

  lemma CellEdgeAt(indices: seq<nat>, stacks: nat, sectors: nat, i: nat, j: nat, k: nat)
    requires IsSphere(indices, stacks, sectors) && i < stacks && j < sectors && k < 6
    ensures CellBase(i, j, sectors) + k < |indices| && |indices| % 3 == 0
    ensures EdgeAt(indices, CellBase(i, j, sectors) + k) == CellEdge(i, j, k, sectors)
  {
    assert CellAt(indices, i, j, sectors);
    CellTrianglesEdge(i, j, k, sectors);
    BlockEdge(indices, 2 * (i * sectors + j), CellTriangles(i, j, sectors), k);
  }

  /** Row and column of a number in a grid of width m. */
  lemma Grid(i: nat, j: nat, m: nat)
    requires j < m
    ensures (i * m + j) / m == i && (i * m + j) % m == j
  {
    var n := i * m + j;
    OneWayToDivide(n / m, i, m, n % m, j);
  }

  lemma AtLeastOnce(a: int, m: nat)
    requires a >= 1
    ensures a * m >= m
  {
    assert a * m == (a - 1) * m + m;
  }

  lemma Difference(a: int, b: int, m: nat)
    ensures (a - b) * m == a * m - b * m
  {
  }

  lemma OneWayToDivide(q: nat, i: nat, m: nat, r: nat, j: nat)
    requires q * m + r == i * m + j && r < m && j < m
    ensures q == i && r == j
  {
    if q < i {
      AtLeastOnce(i - q, m);
      Difference(i, q, m);
    } else if q > i {
      AtLeastOnce(q - i, m);
      Difference(q, i, m);
    }
  }

  lemma CornerUnique(i: nat, j: nat, i': nat, j': nat, sectors: nat)
    requires j <= sectors && j' <= sectors && Corner(i, j, sectors) == Corner(i', j', sectors)
    ensures i == i' && j == j'
  {
    Grid(i, j, sectors + 1);
    Grid(i', j', sectors + 1);
  }

  lemma CellOf(e: nat, stacks: nat, sectors: nat) returns (i: nat, j: nat, k: nat)
    requires e < 6 * (stacks * sectors)
    ensures i < stacks && j < sectors && k < 6 && e == CellBase(i, j, sectors) + k
  {
    var cell := e / 6;
    k := e % 6;
    assert cell < stacks * sectors;
    assert sectors > 0;
    i, j := cell / sectors, cell % sectors;
    assert cell == i * sectors + j;
    if i >= stacks { RowsGrow(i, stacks, sectors); }
  }

  lemma RowsGrow(i: nat, stacks: nat, sectors: nat)
    requires i >= stacks
    ensures i * sectors >= stacks * sectors
  {
    Difference(i, stacks, sectors);
  }

  /** Which edges of which cells are one directed edge or each other's reverse: the corners decide. */
  lemma CellEdgeUnique(sectors: nat, i: nat, j: nat, k: nat, i': nat, j': nat, k': nat)
    requires j < sectors && j' < sectors && k < 6 && k' < 6
    requires CellEdge(i, j, k, sectors) == CellEdge(i', j', k', sectors)
    ensures i == i' && j == j' && k == k'
  {
    Ends(sectors, i, j, k);
    Ends(sectors, i', j', k');
    var e := CellEdge(i, j, k, sectors);
    CornerUnique(Row(i, k).0, Column(j, k).0, Row(i', k').0, Column(j', k').0, sectors);
    CornerUnique(Row(i, k).1, Column(j, k).1, Row(i', k').1, Column(j', k').1, sectors);
  }

  /** The rows and the columns an edge of a cell runs between. */
  function Row(i: nat, k: nat): (nat, nat)
    requires k < 6
  {
    if k == 0 then (i, i) else if k == 1 then (i, i + 1) else if k == 2 then (i + 1, i)
    else if k == 3 then (i, i + 1) else if k == 4 then (i + 1, i + 1) else (i + 1, i)
  }

  function Column(j: nat, k: nat): (nat, nat)
    requires k < 6
  {
    if k == 0 then (j, j + 1) else if k == 1 then (j + 1, j) else if k == 2 then (j, j)
    else if k == 3 then (j + 1, j + 1) else if k == 4 then (j + 1, j) else (j, j + 1)
  }

  lemma Ends(sectors: nat, i: nat, j: nat, k: nat)
    requires k < 6
    ensures CellEdge(i, j, k, sectors) ==
      Edge(Corner(Row(i, k).0, Column(j, k).0, sectors), Corner(Row(i, k).1, Column(j, k).1, sectors))
  {
  }

  /** The edge lies on the border of the grid. */
  predicate OnBorder(i: nat, j: nat, k: nat, stacks: nat, sectors: nat) {
    (k == 0 && i == 0) || (k == 4 && i == stacks - 1) || (k == 2 && j == 0) || (k == 3 && j == sectors - 1)
  }

  function CellTwin(i: nat, j: nat, k: nat): (nat, nat, nat)
    requires k < 6 && !(k == 0 && i == 0) && !(k == 2 && j == 0)
  {
    if k == 0 then (i - 1, j, 4) else if k == 1 then (i, j, 5) else if k == 2 then (i, j - 1, 3)
    else if k == 3 then (i, j + 1, 2) else if k == 4 then (i + 1, j, 0) else (i, j, 1)
  }

  lemma SphereTriangles(indices: seq<nat>, stacks: nat, sectors: nat)
    requires IsSphere(indices, stacks, sectors)
    ensures |indices| % 3 == 0
  {
    var cells := stacks * sectors;
    assert |indices| == 3 * (2 * cells);
  }

  lemma SphereConsistent(indices: seq<nat>, stacks: nat, sectors: nat)
    requires IsSphere(indices, stacks, sectors)
    ensures |indices| % 3 == 0 && Consistent(indices)
  {
    SphereTriangles(indices, stacks, sectors);
    forall e, f | 0 <= e < |indices| && 0 <= f < |indices| && EdgeAt(indices, e) == EdgeAt(indices, f)
      ensures e == f
    {
      SphereEdgeUnique(indices, stacks, sectors, e, f);
    }
  }

  lemma SphereEdgeUnique(indices: seq<nat>, stacks: nat, sectors: nat, e: nat, f: nat)
    requires IsSphere(indices, stacks, sectors) && |indices| % 3 == 0 && e < |indices| && f < |indices|
    requires EdgeAt(indices, e) == EdgeAt(indices, f)
    ensures e == f
  {
    var i, j, k := CellOf(e, stacks, sectors);
    var i', j', k' := CellOf(f, stacks, sectors);
    CellEdgeAt(indices, stacks, sectors, i, j, k);
    CellEdgeAt(indices, stacks, sectors, i', j', k');
    CellEdgeUnique(sectors, i, j, k, i', j', k');
  }

  lemma TwinIsReverse(i: nat, j: nat, k: nat, sectors: nat)
    requires k < 6 && !(k == 0 && i == 0) && !(k == 2 && j == 0)
    ensures var t := CellTwin(i, j, k); t.2 < 6 && CellEdge(t.0, t.1, t.2, sectors) == Reversed(CellEdge(i, j, k, sectors))
  {
  }

  lemma ReverseIffInside(indices: seq<nat>, stacks: nat, sectors: nat, i: nat, j: nat, k: nat)
    requires IsSphere(indices, stacks, sectors) && |indices| % 3 == 0 && i < stacks && j < sectors && k < 6
    ensures HasEdge(indices, Reversed(CellEdge(i, j, k, sectors))) <==> !OnBorder(i, j, k, stacks, sectors)
  {
    if !OnBorder(i, j, k, stacks, sectors) {
      var t := CellTwin(i, j, k);
      TwinIsReverse(i, j, k, sectors);
      CellEdgeAt(indices, stacks, sectors, t.0, t.1, t.2);
    } else if HasEdge(indices, Reversed(CellEdge(i, j, k, sectors))) {
      var e :| 0 <= e < |indices| && EdgeAt(indices, e) == Reversed(CellEdge(i, j, k, sectors));
      var i', j', k' := CellOf(e, stacks, sectors);
      CellEdgeAt(indices, stacks, sectors, i', j', k');
      NoTwinOnBorder(stacks, sectors, i, j, k, i', j', k');
    }
  }

  /** The sphere grid never repeats a directed edge, and an edge has its reverse exactly when it is
      not on the grid's border. */
  lemma SphereSurface(indices: seq<nat>, stacks: nat, sectors: nat)
    requires IsSphere(indices, stacks, sectors)
    ensures |indices| % 3 == 0 && Consistent(indices)
    ensures forall i: nat, j: nat, k: nat :: i < stacks && j < sectors && k < 6 ==>
      (HasEdge(indices, Reversed(CellEdge(i, j, k, sectors))) <==> !OnBorder(i, j, k, stacks, sectors))
  {
    SphereConsistent(indices, stacks, sectors);
    forall i: nat, j: nat, k: nat | i < stacks && j < sectors && k < 6
      ensures HasEdge(indices, Reversed(CellEdge(i, j, k, sectors))) <==> !OnBorder(i, j, k, stacks, sectors)
    {
      ReverseIffInside(indices, stacks, sectors, i, j, k);
    }
  }

  lemma NoTwinOnBorder(stacks: nat, sectors: nat, i: nat, j: nat, k: nat, i': nat, j': nat, k': nat)
    requires i' < stacks && j < sectors && j' < sectors && k < 6 && k' < 6 && OnBorder(i, j, k, stacks, sectors)
    ensures CellEdge(i', j', k', sectors) != Reversed(CellEdge(i, j, k, sectors))
  {
    if CellEdge(i', j', k', sectors) == Reversed(CellEdge(i, j, k, sectors)) {
      Ends(sectors, i, j, k);
      Ends(sectors, i', j', k');
      CornerUnique(Row(i, k).0, Column(j, k).0, Row(i', k').1, Column(j', k').1, sectors);
      CornerUnique(Row(i, k).1, Column(j, k).1, Row(i', k').0, Column(j', k').0, sectors);
    }
  }

  lemma CornerInRange(r: nat, c: nat, stacks: nat, sectors: nat)
    requires r <= stacks && c <= sectors
    ensures Corner(r, c, sectors) < (stacks + 1) * (sectors + 1)
  {
    RowsGrow(stacks, r, sectors + 1);
    assert (stacks + 1) * (sectors + 1) == stacks * (sectors + 1) + (sectors + 1);
  }

  /** Every index names a vertex of the grid. */
  lemma SphereInRange(indices: seq<nat>, stacks: nat, sectors: nat)
    requires IsSphere(indices, stacks, sectors)
    ensures forall e :: 0 <= e < |indices| ==> indices[e] < (stacks + 1) * (sectors + 1)
  {
    forall e | 0 <= e < |indices| ensures indices[e] < (stacks + 1) * (sectors + 1) {
      var i, j, k := CellOf(e, stacks, sectors);
      CellEdgeAt(indices, stacks, sectors, i, j, k);
      Ends(sectors, i, j, k);
      CornerInRange(Row(i, k).0, Column(j, k).0, stacks, sectors);
      assert indices[e] == EdgeAt(indices, e).from;
    }
  }
}
