/** The light probe grid: probes are built z-fastest and looked up x-fastest. */
module Probes {
  import opened Basics

  const MAX_PROBE_COUNT: nat := 0x10_0000

  datatype Position = Position(x: real, y: real, z: real)

  /** A probe carries its cell in its name, and the cell's corner as its position. */
  datatype LightProbe = LightProbe(x: nat, y: nat, z: nat, position: Position)

  datatype Grid = Grid(probes: seq<LightProbe>, size: Position, cell: Position)

  /** `as usize` on a finite float. */
  function Whole(r: real): (n: nat)
    ensures r >= 0.0 ==> n as real <= r < n as real + 1.0
    ensures r >= 1.0 ==> n >= 1
  {
    if r < 0.0 then 0 else r.Floor
  }

  predicate Buildable(size: Position, cell: Position) {
    size.x >= 1.0 && size.y >= 1.0 && size.z >= 1.0 && cell.x > 0.0 && cell.y > 0.0 && cell.z > 0.0
  }

  // ----- Construction

  function ProbeOf(x: nat, y: nat, z: nat, cell: Position): LightProbe {
    LightProbe(x, y, z, Position(x as real * cell.x, y as real * cell.y, z as real * cell.z))
  }

  /** A probe has its cell's numbers and stands at its cell's near corner, which lies in that cell. */
  lemma ProbeIsInItsCell(x: nat, y: nat, z: nat, cell: Position)
    requires cell.x > 0.0 && cell.y > 0.0 && cell.z > 0.0
    ensures
      var p := ProbeOf(x, y, z, cell);
      && p.x == x && p.y == y && p.z == z
      && p.position.x == x as real * cell.x && p.position.y == y as real * cell.y && p.position.z == z as real * cell.z
      && InCell(p.position.x, x, cell.x) && InCell(p.position.y, y, cell.y) && InCell(p.position.z, z, cell.z)
  {
    Behind(x, cell.x);
    Behind(y, cell.y);
    Behind(z, cell.z);
  }

  lemma Behind(i: nat, cell: real)
    requires cell > 0.0
    ensures i as real * cell < (i + 1) as real * cell
  {
    assert (i + 1) as real * cell == i as real * cell + cell;
  }

  function Column(x: nat, y: nat, n: nat, cell: Position): (s: seq<LightProbe>)
    ensures |s| == n
  {
    if n == 0 then [] else Column(x, y, n - 1, cell) + [ProbeOf(x, y, n - 1, cell)]
  }

  function Slab(x: nat, n: nat, depth: nat, cell: Position): (s: seq<LightProbe>)
    ensures |s| == n * depth
  {
    if n == 0 then [] else
    Next(n, depth);
    Slab(x, n - 1, depth, cell) + Column(x, n - 1, depth, cell)
  }

  function Block(n: nat, height: nat, depth: nat, cell: Position): (s: seq<LightProbe>)
    ensures |s| == n * (height * depth)
  {
    if n == 0 then [] else
    Next(n, height * depth);
    Block(n - 1, height, depth, cell) + Slab(n - 1, height, depth, cell)
  }

  lemma Next(n: nat, m: nat)
    requires n > 0
    ensures n * m == (n - 1) * m + m
  {
  }

  /** A two-digit number is below the product of its bases. */
  lemma Below(a: nat, b: nat, m: nat, n: nat)
    requires a < m && b < n
    ensures a + b * m < n * m
  {
    Difference(n, b + 1, m);
    Next(b + 1, m);
  }

  lemma Difference(a: nat, b: nat, m: nat)
    requires a >= b
    ensures a * m == b * m + (a - b) * m && a * m >= b * m
  {
  }

  lemma {:induction false} ColumnAt(x: nat, y: nat, n: nat, cell: Position, z: nat)
    requires z < n
    ensures Column(x, y, n, cell)[z] == ProbeOf(x, y, z, cell)
  {
    if z < n - 1 {
      ColumnAt(x, y, n - 1, cell, z);
    }
  }

  lemma {:induction false} SlabAt(x: nat, n: nat, depth: nat, cell: Position, y: nat, z: nat)
    requires y < n && z < depth
    ensures z + y * depth < |Slab(x, n, depth, cell)|
    ensures Slab(x, n, depth, cell)[z + y * depth] == ProbeOf(x, y, z, cell)
  {
    Below(z, y, depth, n);
    Next(n, depth);
    if y < n - 1 {
      SlabAt(x, n - 1, depth, cell, y, z);
    } else {
      ColumnAt(x, y, depth, cell, z);
    }
  }

  /** Where the cell's own probe is: z fastest, then y, then x. */
  function Home(x: nat, y: nat, z: nat, height: nat, depth: nat): nat {
    (z + y * depth) + x * (height * depth)
  }

  lemma {:induction false} BlockAt(n: nat, height: nat, depth: nat, cell: Position, x: nat, y: nat, z: nat)
    requires x < n && y < height && z < depth
    ensures Home(x, y, z, height, depth) < |Block(n, height, depth, cell)|
    ensures Block(n, height, depth, cell)[Home(x, y, z, height, depth)] == ProbeOf(x, y, z, cell)
  {
    HomeBelow(n, height, depth, x, y, z);
    if x < n - 1 {
      BlockAt(n - 1, height, depth, cell, x, y, z);
      HomeBelow(n - 1, height, depth, x, y, z);
    } else {
      SlabAt(x, height, depth, cell, y, z);
    }
    Joined(Block(n - 1, height, depth, cell), Slab(n - 1, height, depth, cell), Home(x, y, z, height, depth));
  }

  lemma HomeBelow(n: nat, height: nat, depth: nat, x: nat, y: nat, z: nat)
    requires x < n && y < height && z < depth
    ensures x * (height * depth) <= Home(x, y, z, height, depth) < n * (height * depth)
    ensures z + y * depth < height * depth
  {
    Below(z, y, depth, height);
    Below(z + y * depth, x, height * depth, n);
  }

  lemma Joined<T>(a: seq<T>, b: seq<T>, k: nat)
    requires k < |a| + |b|
    ensures (a + b)[k] == if k < |a| then a[k] else b[k - |a|]
  {
  }

  /** The place of a cell's own probe. */
  lemma HomeIs(x: nat, y: nat, z: nat, height: nat, depth: nat)
    ensures Home(x, y, z, height, depth) == z + y * depth + x * (height * depth)
  {
  }

  /** One probe for each cell of the box, counted and placed. */
  method NewUnchecked(size: Position, cell: Position) returns (grid: Grid)
    ensures grid == Built(size, cell)
    ensures |grid.probes| == Whole(size.x) * (Whole(size.y) * Whole(size.z))
    ensures forall x: nat, y: nat, z: nat :: x < Whole(size.x) && y < Whole(size.y) && z < Whole(size.z) ==>
      var home := Home(x, y, z, Whole(size.y), Whole(size.z));
      home < |grid.probes| && grid.probes[home] == ProbeOf(x, y, z, cell)
  {
    var probes: seq<LightProbe> := [];
    var width, height, depth := Whole(size.x), Whole(size.y), Whole(size.z);
    for x := 0 to width
      invariant probes == Block(x, height, depth, cell)
    {
      for y := 0 to height
        invariant probes == Block(x, height, depth, cell) + Slab(x, y, depth, cell)
      {
        ghost var before := probes;
        for z := 0 to depth
          invariant probes == before + Column(x, y, z, cell)
        {
          probes := probes + [ProbeOf(x, y, z, cell)];
        }
      }
    }
    forall x: nat, y: nat, z: nat | x < width && y < height && z < depth
      ensures
        var home := Home(x, y, z, height, depth);
        home < |probes| && probes[home] == ProbeOf(x, y, z, cell)
    {
      BlockAt(width, height, depth, cell, x, y, z);
    }
    grid := Grid(probes, size, cell);
  }

  function Built(size: Position, cell: Position): Grid {
    Grid(Block(Whole(size.x), Whole(size.y), Whole(size.z), cell), size, cell)
  }

  const WORD64: nat := 0x1_0000_0000_0000_0000

  /** `as usize`, which stops at the largest one. */
  function Cast(r: real): nat {
    if Whole(r) < WORD64 then Whole(r) else WORD64 - 1
  }

  /** The probe count as an optimised build multiplies it out: 64 bits at a time, unchecked. */
  function Total(size: Position): nat {
    Cast(size.x) * Cast(size.y) % WORD64 * Cast(size.z) % WORD64
  }

  /** A grid without a whole cell, with flat cells or with what adds up to too many probes is refused. */
  method TryNew(size: Position, cell: Position) returns (grid: Option<Grid>)
    ensures grid.Some? <==>
      && size.x >= 1.0 && size.y >= 1.0 && size.z >= 1.0 && cell.x > 0.0 && cell.y > 0.0 && cell.z > 0.0
      && Total(size) <= 1048576
    ensures grid.Some? ==> grid.value == Built(size, cell)
  {
    if !Buildable(size, cell) {
      return None;
    }
    var total := Total(size);
    if total > MAX_PROBE_COUNT {
      return None;
    }
    var built := NewUnchecked(size, cell);
    grid := Some(built);
  }

  lemma ModTwice(a: nat, b: nat, m: nat)
    requires m > 0
    ensures a % m * b % m == a * b % m
  {
    var q, r := a / m, a % m;
    assert a == q * m + r;
    assert a * b == (q * b) * m + r * b;
    ModShift(q * b, r * b, m);
  }

  lemma ModShift(k: nat, x: nat, m: nat)
    requires m > 0
    ensures (k * m + x) % m == x % m
  {
    var y := k * m + x;
    assert (k + x / m) * m == k * m + x / m * m;
    SameDigits(y % m, y / m, x % m, k + x / m, m);
  }

  /** For any size a grid can have, the guard means the true count exactly when the product of what the
      casts leave fits 64 bits, or wraps around to something that is still too many. */
  lemma GuardHoldsIff(size: Position)
    requires size.x >= 1.0 && size.y >= 1.0 && size.z >= 1.0
    ensures
      var count := Whole(size.x) * Whole(size.y) * Whole(size.z);
      var cast := Cast(size.x) * Cast(size.y) * Cast(size.z);
      (Total(size) <= MAX_PROBE_COUNT <==> count <= MAX_PROBE_COUNT) <==> cast < WORD64 || cast % WORD64 > MAX_PROBE_COUNT
  {
    var x, y, z := Cast(size.x), Cast(size.y), Cast(size.z);
    ModTwice(x * y, z, WORD64);
    if Whole(size.x) < WORD64 && Whole(size.y) < WORD64 && Whole(size.z) < WORD64 {
      Wraps(x * y * z);
    } else {
      Largest(Whole(size.x), Whole(size.y), Whole(size.z));
      Largest(x, y, z);
      Saturates(x * y * z);
    }
  }

  /** A count that was not cut down by the casts. */
  lemma Wraps(count: nat)
    ensures (count % WORD64 <= MAX_PROBE_COUNT <==> count <= MAX_PROBE_COUNT) <==> count < WORD64 || count % WORD64 > MAX_PROBE_COUNT
  {
  }

  /** One that was is too many anyway. */
  lemma Saturates(cast: nat)
    requires cast >= WORD64 - 1
    ensures cast % WORD64 > MAX_PROBE_COUNT <==> cast < WORD64 || cast % WORD64 > MAX_PROBE_COUNT
  {
  }

  lemma Largest(x: nat, y: nat, z: nat)
    requires x > 0 && y > 0 && z > 0
    ensures x * y * z >= x && x * y * z >= y && x * y * z >= z
  {
    AtLeast(x, y);
    AtLeast(y, x);
    AtLeast(x * y, z);
    AtLeast(z, x * y);
  }

  lemma AtLeast(a: nat, b: nat)
    requires b > 0
    ensures a * b >= a && b * a >= a
  {
    Commutes(a, b);
    Difference(b, 1, a);
  }

  /** A grid of 2^64 cells passes the guard, its count having wrapped to nothing. */
  lemma WrappedCountPasses()
    ensures
      var size := Position(4294967296.0, 4294967296.0, 1.0);
      Whole(size.x) * Whole(size.y) * Whole(size.z) == WORD64 && Total(size) == 0
  {
  }

  /** Casting can hide the size of a count as well: 10^20 x 10^20 x 1 cells multiply out to one. */
  lemma SaturatedCountPasses()
    ensures
      var size := Position(100000000000000000000.0, 100000000000000000000.0, 1.0);
      Total(size) == 1 && Whole(size.x) * Whole(size.y) * Whole(size.z) % WORD64 > MAX_PROBE_COUNT
  {
    assert (WORD64 - 1) * (WORD64 - 1) == (WORD64 - 2) * WORD64 + 1;
  }

  // ----- Lookup

  function Coord(value: real, cell: real, size: real): Option<nat>
    requires cell > 0.0
  {
    if value < 0.0 then None else
    var index := (value / cell).Floor;
    if index < 0 || index >= Whole(size) then None else Some(index)
  }

  function Flat(x: nat, y: nat, z: nat, width: nat, layer: nat): nat {
    x + y * width + z * layer
  }

  function Layer(size: Position): nat {
    Whole(size.x * size.y)
  }

  function Index(x: nat, y: nat, z: nat, size: Position): nat {
    Flat(x, y, z, Whole(size.x), Layer(size))
  }

  /** The probe a cell is answered with. */
  function ProbeFor(grid: Grid, x: nat, y: nat, z: nat): Option<LightProbe> {
    var index := Index(x, y, z, grid.size);
    if index < |grid.probes| then Some(grid.probes[index]) else None
  }

  function GetProbe(grid: Grid, p: Position): Option<LightProbe> {
    if !(grid.cell.x > 0.0 && grid.cell.y > 0.0 && grid.cell.z > 0.0) then None else
    var x, y, z := Coord(p.x, grid.cell.x, grid.size.x), Coord(p.y, grid.cell.y, grid.size.y),
      Coord(p.z, grid.cell.z, grid.size.z);
    if x.None? || y.None? || z.None? then None else ProbeFor(grid, x.value, y.value, z.value)
  }

  /** The value lies at or beyond the near side of cell n. */
  predicate Reaches(value: real, n: nat, cell: real) {
    n as real * cell <= value
  }

  lemma ReachesIff(value: real, n: nat, cell: real)
    requires cell > 0.0
    ensures Reaches(value, n, cell) <==> n as real <= value / cell
  {
    if n as real * cell <= value {
      Ratio(n as real * cell, value, cell);
      Cancel(n as real, cell);
    }
    if n as real <= value / cell {
      Widen(n as real, cell, value / cell, cell);
      assert value / cell * cell == value;
    }
  }

  lemma Cancel(a: real, c: real)
    requires c > 0.0
    ensures a * c / c == a
  {
  }

  lemma Ratio(a: real, b: real, c: real)
    requires c > 0.0 && a <= b
    ensures a / c <= b / c
  {
  }

  predicate InCell(value: real, i: nat, cell: real) {
    Reaches(value, i, cell) && !Reaches(value, i + 1, cell)
  }

  /** A coordinate is answered with i exactly when it lies in the half-open cell i of the box. */
  lemma CoordIff(value: real, cell: real, size: real, i: nat)
    requires cell > 0.0
    ensures Coord(value, cell, size) == Some(i) <==> i < Whole(size) && InCell(value, i, cell)
  {
    ReachesIff(value, i, cell);
    ReachesIff(value, i + 1, cell);
    Sign(value, cell);
    FloorIff(value / cell, i);
  }

  lemma Sign(value: real, cell: real)
    requires cell > 0.0
    ensures value < 0.0 <==> value / cell < 0.0
  {
  }

  lemma FloorIff(q: real, i: int)
    ensures q.Floor == i <==> i as real <= q < (i + 1) as real
  {
  }

  /** A coordinate is answered at all exactly when it is inside the box. */
  lemma CoordInside(value: real, cell: real, size: real)
    requires cell > 0.0
    ensures Coord(value, cell, size).Some? <==> value >= 0.0 && !Reaches(value, Whole(size), cell)
  {
    ReachesIff(value, Whole(size), cell);
    Sign(value, cell);
  }

  /** The layer stride is never short of a layer, fractional sizes or not. */
  lemma LayerFits(size: Position)
    requires size.x >= 1.0 && size.y >= 1.0
    ensures Layer(size) >= Whole(size.x) * Whole(size.y) >= 1
  {
    var a, b := Whole(size.x), Whole(size.y);
    Widen(a as real, b as real, size.x, size.y);
    Widen(1.0, 1.0, a as real, b as real);
    assert (a * b) as real == a as real * b as real;
  }

  lemma Widen(a: real, b: real, c: real, d: real)
    requires 0.0 <= a <= c && 0.0 <= b <= d
    ensures a * b <= c * d
  {
    assert (c - a) * b >= 0.0;
    assert c * (d - b) >= 0.0;
  }

  lemma SameDigits(a: nat, b: nat, c: nat, d: nat, m: nat)
    requires a < m && c < m && a + b * m == c + d * m
    ensures a == c && b == d
  {
    if b < d {
      Apart(b, d, m);
    } else if d < b {
      Apart(d, b, m);
    }
  }

  lemma Apart(b: nat, d: nat, m: nat)
    requires b < d
    ensures b * m + m <= d * m
  {
    Difference(d, b + 1, m);
    Next(b + 1, m);
  }

  predicate InBox(x: nat, y: nat, z: nat, size: Position) {
    x < Whole(size.x) && y < Whole(size.y) && z < Whole(size.z)
  }

  /** Two cells never share an index, whatever the sizes. */
  lemma NoAliases(size: Position, x: nat, y: nat, z: nat, x': nat, y': nat, z': nat)
    requires size.x >= 1.0 && size.y >= 1.0
    requires InBox(x, y, z, size) && InBox(x', y', z', size)
    requires Index(x, y, z, size) == Index(x', y', z', size)
    ensures x == x' && y == y' && z == z'
  {
    LayerFits(size);
    FlatInjective(x, y, z, x', y', z', Whole(size.x), Whole(size.y), Layer(size));
  }

  lemma FlatInjective(x: nat, y: nat, z: nat, x': nat, y': nat, z': nat, width: nat, height: nat, layer: nat)
    requires x < width && x' < width && y < height && y' < height && width * height <= layer
    requires Flat(x, y, z, width, layer) == Flat(x', y', z', width, layer)
    ensures x == x' && y == y' && z == z'
  {
    Commutes(width, height);
    Below(x, y, width, height);
    Below(x', y', width, height);
    SameDigits(x + y * width, z, x' + y' * width, z', layer);
    SameDigits(x, y, x', y', width);
  }

  lemma Commutes(a: nat, b: nat)
    ensures a * b == b * a
  {
  }

  lemma Associates(a: nat, b: nat, c: nat)
    ensures a * (b * c) == c * (a * b)
  {
  }

  /** The layer stride is exactly a layer, or there is no second layer to reach. */
  predicate LayersMeet(size: Position) {
    Whole(size.z) == 1 || Layer(size) == Whole(size.x) * Whole(size.y)
  }

  lemma IndexBelow(size: Position, x: nat, y: nat, z: nat)
    requires size.x >= 1.0 && size.y >= 1.0 && InBox(x, y, z, size) && LayersMeet(size)
    ensures Index(x, y, z, size) < Whole(size.x) * (Whole(size.y) * Whole(size.z))
  {
    FlatBelow(x, y, z, Whole(size.x), Whole(size.y), Whole(size.z), Layer(size));
  }

  lemma FlatBelow(x: nat, y: nat, z: nat, width: nat, height: nat, depth: nat, layer: nat)
    requires x < width && y < height && z < depth && (depth == 1 || layer == width * height)
    ensures Flat(x, y, z, width, layer) < width * (height * depth)
  {
    Below(x, y, width, height);
    Commutes(width, height);
    Associates(width, height, depth);
    if depth > 1 {
      Below(x + y * width, z, width * height, depth);
    }
  }

  lemma LastIndexBeyond(size: Position)
    requires size.x >= 1.0 && size.y >= 1.0 && size.z >= 1.0 && !LayersMeet(size)
    ensures Index(Whole(size.x) - 1, Whole(size.y) - 1, Whole(size.z) - 1, size)
         >= Whole(size.x) * (Whole(size.y) * Whole(size.z))
  {
    LayerFits(size);
    FlatBeyond(Whole(size.x), Whole(size.y), Whole(size.z), Layer(size));
  }

  lemma FlatBeyond(width: nat, height: nat, depth: nat, layer: nat)
    requires width > 0 && height > 0 && depth > 1 && layer > width * height
    ensures Flat(width - 1, height - 1, depth - 1, width, layer) >= width * (height * depth)
  {
    var area := width * height;
    Next(height, width);
    Commutes(width, height);
    assert Flat(width - 1, height - 1, depth - 1, width, layer) == area - 1 + (depth - 1) * layer;
    Associates(width, height, depth);
    Next(depth, area);
    Stretch(depth - 1, layer, area);
  }

  lemma Stretch(n: nat, a: nat, b: nat)
    requires n > 0 && a > b
    ensures n * a >= n * b + n
  {
    Commutes(n, a);
    Commutes(n, b);
    Difference(a, b + 1, n);
    Next(b + 1, n);
  }

  /** Every cell of the box finds a probe exactly when the layers meet; whole sizes are enough for it. */
  lemma EveryCellAnsweredIff(size: Position, cell: Position)
    requires Buildable(size, cell)
    ensures (forall x: nat, y: nat, z: nat :: InBox(x, y, z, size) ==> ProbeFor(Built(size, cell), x, y, z).Some?)
       <==> LayersMeet(size)
  {
    if LayersMeet(size) {
      forall x: nat, y: nat, z: nat | InBox(x, y, z, size) ensures ProbeFor(Built(size, cell), x, y, z).Some? {
        IndexBelow(size, x, y, z);
      }
    } else {
      LastIndexBeyond(size);
      var x: nat, y: nat, z: nat := Whole(size.x) - 1, Whole(size.y) - 1, Whole(size.z) - 1;
      assert InBox(x, y, z, size) && ProbeFor(Built(size, cell), x, y, z).None?;
    }
  }

  predicate Inside(p: Position, size: Position, cell: Position) {
    && p.x >= 0.0 && !Reaches(p.x, Whole(size.x), cell.x)
    && p.y >= 0.0 && !Reaches(p.y, Whole(size.y), cell.y)
    && p.z >= 0.0 && !Reaches(p.z, Whole(size.z), cell.z)
  }

  lemma BoxOf(p: Position, size: Position, cell: Position)
    requires cell.x > 0.0 && cell.y > 0.0 && cell.z > 0.0
    ensures
      var x, y, z := Coord(p.x, cell.x, size.x), Coord(p.y, cell.y, size.y), Coord(p.z, cell.z, size.z);
      (x.Some? && y.Some? && z.Some?) == Inside(p, size, cell)
  {
    CoordInside(p.x, cell.x, size.x);
    CoordInside(p.y, cell.y, size.y);
    CoordInside(p.z, cell.z, size.z);
  }

  /** Nothing outside the box is answered; everything inside it is, when the layers meet. */
  lemma AnsweredInside(size: Position, cell: Position, p: Position)
    requires Buildable(size, cell)
    ensures GetProbe(Built(size, cell), p).Some? ==> Inside(p, size, cell)
    ensures LayersMeet(size) ==> (GetProbe(Built(size, cell), p).Some? <==> Inside(p, size, cell))
  {
    BoxOf(p, size, cell);
    if LayersMeet(size) && Inside(p, size, cell) {
      CellAnswered(size, Coord(p.x, cell.x, size.x), Coord(p.y, cell.y, size.y), Coord(p.z, cell.z, size.z));
    }
  }

  lemma CellAnswered(size: Position, x: Option<nat>, y: Option<nat>, z: Option<nat>)
    requires size.x >= 1.0 && size.y >= 1.0 && LayersMeet(size)
    requires x.Some? && y.Some? && z.Some? && InBox(x.value, y.value, z.value, size)
    ensures Index(x.value, y.value, z.value, size) < Whole(size.x) * (Whole(size.y) * Whole(size.z))
  {
    IndexBelow(size, x.value, y.value, z.value);
  }

  /** A cell's entry of the table: x, then y by the width, then z by the whole part of the layer's size. */
  lemma EntryIs(grid: Grid, x: nat, y: nat, z: nat, index: nat)
    requires index == x + y * Whole(grid.size.x) + z * Layer(grid.size)
    ensures Layer(grid.size) == Whole(grid.size.x * grid.size.y)
    ensures index < |grid.probes| ==> ProbeFor(grid, x, y, z) == Some(grid.probes[index])
    ensures index >= |grid.probes| ==> ProbeFor(grid, x, y, z) == None
  {
    assert Index(x, y, z, grid.size) == index;
  }

  /** A position in a cell is answered with that cell's entry of the table. */
  lemma AnswerIsOfTheCell(size: Position, cell: Position, p: Position, x: nat, y: nat, z: nat)
    requires Buildable(size, cell) && InBox(x, y, z, size)
    requires InCell(p.x, x, cell.x) && InCell(p.y, y, cell.y) && InCell(p.z, z, cell.z)
    ensures GetProbe(Built(size, cell), p) == ProbeFor(Built(size, cell), x, y, z)
  {
    CoordIff(p.x, cell.x, size.x, x);
    CoordIff(p.y, cell.y, size.y, y);
    CoordIff(p.z, cell.z, size.z, z);
  }

  /** The cell's sides: half open, as multiples of its size. */
  lemma InCellIs(value: real, i: nat, cell: real)
    ensures InCell(value, i, cell) <==> i as real * cell <= value < (i + 1) as real * cell
  {
  }

  /** When the layers meet the lookup is onto as well: every probe answers for some cell. */
  lemma EveryProbeAnswers(size: Position, cell: Position, k: nat) returns (x: nat, y: nat, z: nat)
    requires Buildable(size, cell) && LayersMeet(size) && k < |Built(size, cell).probes|
    ensures InBox(x, y, z, size) && Index(x, y, z, size) == k
    ensures ProbeFor(Built(size, cell), x, y, z) == Some(Built(size, cell).probes[k])
  {
    LayerFits(size);
    x, y, z := FlatOnto(k, Whole(size.x), Whole(size.y), Whole(size.z), Layer(size));
  }

  /** Otherwise the probes between the end of a layer and the start of the next answer for none. */
  lemma GapAnswersNothing(size: Position, cell: Position, x: nat, y: nat, z: nat)
    requires Buildable(size, cell) && !LayersMeet(size) && InBox(x, y, z, size)
    ensures Whole(size.x) * Whole(size.y) < |Built(size, cell).probes|
    ensures Index(x, y, z, size) != Whole(size.x) * Whole(size.y)
  {
    var width, height, depth := Whole(size.x), Whole(size.y), Whole(size.z);
    LayerFits(size);
    Below(x, y, width, height);
    Commutes(width, height);
    Associates(width, height, depth);
    Apart(1, depth, width * height);
    if z > 0 {
      Difference(z, 1, Layer(size));
    }
  }

  lemma WholeLayer(size: Position)
    requires size.x == Whole(size.x) as real && size.y == Whole(size.y) as real
    ensures Layer(size) == Whole(size.x) * Whole(size.y) && LayersMeet(size)
  {
    assert (Whole(size.x) * Whole(size.y)) as real == size.x * size.y;
  }

  lemma FlatOnto(k: nat, width: nat, height: nat, depth: nat, layer: nat) returns (x: nat, y: nat, z: nat)
    requires width > 0 && height > 0 && k < width * (height * depth) && (depth == 1 || layer == width * height)
    ensures x < width && y < height && z < depth && Flat(x, y, z, width, layer) == k
  {
    var area := width * height;
    Commutes(width, height);
    Next(height, width);
    Associates(width, height, depth);
    var r;
    r, z := Digits(k, area, depth);
    x, y := Digits(r, width, height);
    if depth == 1 {
      assert z == 0;
    }
  }

  lemma Digits(k: nat, m: nat, n: nat) returns (r: nat, q: nat)
    requires m > 0 && k < n * m
    ensures k == r + q * m && r < m && q < n
  {
    r, q := k % m, k / m;
    if q >= n {
      Difference(q, n, m);
    }
  }

  /** At most one side of the box is longer than a cell. */
  predicate Line(size: Position) {
    (Whole(size.x) == 1 && Whole(size.y) == 1) || (Whole(size.y) == 1 && Whole(size.z) == 1)
      || (Whole(size.x) == 1 && Whole(size.z) == 1)
  }

  ghost predicate OwnProbes(size: Position, cell: Position) {
    forall x: nat, y: nat, z: nat :: InBox(x, y, z, size) ==>
      ProbeFor(Built(size, cell), x, y, z) == Some(ProbeOf(x, y, z, cell))
  }

  /** Every cell is answered with its own probe exactly when the grid is a line whose layers meet. */
  lemma OwnProbesIffLine(size: Position, cell: Position)
    requires Buildable(size, cell)
    ensures OwnProbes(size, cell) <==> Line(size) && LayersMeet(size)
  {
    var width, height, depth := Whole(size.x), Whole(size.y), Whole(size.z);
    var grid := Built(size, cell);
    if !LayersMeet(size) {
      EveryCellAnsweredIff(size, cell);
      var x: nat, y: nat, z: nat :| InBox(x, y, z, size) && ProbeFor(grid, x, y, z).None?;
    } else if Line(size) {
      forall x: nat, y: nat, z: nat | InBox(x, y, z, size)
        ensures ProbeFor(grid, x, y, z) == Some(ProbeOf(x, y, z, cell))
      {
        HomeOnALine(x, y, z, width, height, depth, Layer(size));
        BlockAt(width, height, depth, cell, x, y, z);
      }
    } else if width > 1 {
      assert InBox(1, 0, 0, size);
      Elsewhere(size, cell);
    } else {
      assert InBox(0, 1, 0, size);
      SecondRow(size, cell);
    }
  }

  lemma HomeOnALine(x: nat, y: nat, z: nat, width: nat, height: nat, depth: nat, layer: nat)
    requires x < width && y < height && z < depth && (depth == 1 || layer == width * height)
    requires (width == 1 && height == 1) || (height == 1 && depth == 1) || (width == 1 && depth == 1)
    ensures Home(x, y, z, height, depth) == Flat(x, y, z, width, layer)
  {
  }

  lemma SecondRow(size: Position, cell: Position)
    requires Buildable(size, cell) && Whole(size.x) == 1 && Whole(size.y) > 1 && Whole(size.z) > 1
    ensures ProbeFor(Built(size, cell), 0, 1, 0) != Some(ProbeOf(0, 1, 0, cell))
  {
    BlockAt(Whole(size.x), Whole(size.y), Whole(size.z), cell, 0, 0, 1);
  }

  /** Two or more columns of more than one probe: the second probe belongs to the first column. */
  lemma Elsewhere(size: Position, cell: Position)
    requires Buildable(size, cell) && Whole(size.x) > 1 && (Whole(size.y) > 1 || Whole(size.z) > 1)
    ensures ProbeFor(Built(size, cell), 1, 0, 0) != Some(ProbeOf(1, 0, 0, cell))
  {
    if Whole(size.z) > 1 {
      BlockAt(Whole(size.x), Whole(size.y), Whole(size.z), cell, 0, 0, 1);
    } else {
      BlockAt(Whole(size.x), Whole(size.y), Whole(size.z), cell, 0, 1, 0);
    }
  }
}
