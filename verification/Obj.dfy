/** The OBJ loader's faces: one-based or end-relative references, one new vertex per corner. */
module Obj {
  import opened Basics
  import opened Polygons

  const WORD31: nat := 0x8000_0000

  /** Positive references count from one, the others back from the end; the sum is taken in 32
      bits and a negative one becomes an index no buffer reaches. */
  function ResolveIndex(length: nat, reference: int): Option<nat>
    requires length < WORD31
  {
    var i := if reference > 0 then reference - 1 else length + reference;
    if 0 <= i < length then Some(i) else None
  }

  /** Exactly two references name a line, one from either end, and every other resolves to nothing. */
  lemma ResolveIff(length: nat, reference: int)
    requires length < WORD31
    ensures forall i: nat :: i < length ==> (ResolveIndex(length, reference) == Some(i) <==> reference == i + 1 || length + reference == i)
    ensures ResolveIndex(length, reference).None? <==> reference == 0 || reference > length || length + reference < 0
  {
  }

  /** The face's corners as positions; None when one does not resolve. */
  function Resolved(positions: seq<Vec3>, references: seq<int>): Option<seq<Vec3>>
    requires |positions| < WORD31
  {
    if references == [] then Some([]) else
    var k := |references| - 1;
    match Resolved(positions, references[..k])
    case None => None
    case Some(before) =>
      match ResolveIndex(|positions|, references[k])
      case None => None
      case Some(i) => Some(before + [positions[i]])
  }

  function Numbers(from: nat, count: nat): (r: seq<nat>)
    ensures |r| == count && forall k :: 0 <= k < count ==> r[k] == from + k
  {
    seq(count, k => from + k)
  }

  function VertexAt(vertices: seq<Vec3>): nat -> Vec3 {
    (i: nat) => if i < |vertices| then vertices[i] else ORIGIN
  }

  lemma {:induction false} ResolvedAre(positions: seq<Vec3>, references: seq<int>)
    requires |positions| < WORD31
    ensures Resolved(positions, references).Some? <==>
      forall k :: 0 <= k < |references| ==> 1 <= references[k] <= |positions| || (references[k] < 0 && |positions| + references[k] >= 0)
    ensures Resolved(positions, references).Some? ==>
      var r := Resolved(positions, references).value;
      |r| == |references| && forall k :: 0 <= k < |references| ==>
        r[k] == if references[k] > 0 then positions[references[k] - 1] else positions[|positions| + references[k]]
  {
    if references != [] {
      var n := |references| - 1;
      ResolvedAre(positions, references[..n]);
    }
  }

  /** A face: one new vertex for each corner, at the position the corner's reference names, and the fan
      over them. */
  method LoadFace(positions: seq<Vec3>, references: seq<int>, vertices0: seq<Vec3>, indices0: seq<nat>)
    returns (ok: bool, vertices: seq<Vec3>, indices: seq<nat>)
    requires references != [] && |positions| < WORD31
    ensures ok <==> forall k :: 0 <= k < |references| ==>
      1 <= references[k] <= |positions| || (references[k] < 0 && |positions| + references[k] >= 0)
    ensures ok ==> |vertices| == |vertices0| + |references| && vertices[..|vertices0|] == vertices0
    ensures ok ==> forall k :: 0 <= k < |references| ==>
      vertices[|vertices0| + k] == if references[k] > 0 then positions[references[k] - 1] else positions[|positions| + references[k]]
    ensures ok ==> |references| >= 3 ==>
      && |indices| == |indices0| + 3 * (|references| - 2) && indices[..|indices0|] == indices0
      && forall j :: 0 <= j < |references| - 2 ==>
           && indices[|indices0| + 3 * j] == |vertices0|
           && indices[|indices0| + 3 * j + 1] == |vertices0| + j + 1
           && indices[|indices0| + 3 * j + 2] == |vertices0| + j + 2
    ensures ok && |references| < 3 ==> indices == indices0
    ensures !ok ==> vertices == vertices0 && indices == indices0
    ensures ok && |references| >= 3 ==>
      TriangleArea(VertexAt(vertices), Fan(Numbers(|vertices0|, |references|))) ==
      PolygonArea(VertexAt(vertices), Numbers(|vertices0|, |references|))
  {
    ResolvedAre(positions, references);
    vertices, indices := vertices0, indices0;
    var face: seq<nat> := [];
    for k := 0 to |references|
      invariant Resolved(positions, references[..k]).Some?
      invariant vertices == vertices0 + Resolved(positions, references[..k]).value
      invariant |vertices| == |vertices0| + k
      invariant face == Numbers(|vertices0|, k)
    {
      assert references[..k + 1][..k] == references[..k];
      var i := ResolveIndex(|positions|, references[k]);
      if i.None? {
        UnresolvedStays(positions, references, k + 1);
        return false, vertices0, indices0;
      }
      vertices := vertices + [positions[i.value]];
      face := face + [|vertices| - 1];
    }
    assert references[..|references|] == references;
    if |references| >= 3 {
      FanPreservesArea(VertexAt(vertices), face);
      FanTriangles(face);
    }
    indices := EmitFan(face, indices);
    ok := true;
  }

  lemma {:induction false} UnresolvedStays(positions: seq<Vec3>, references: seq<int>, k: nat)
    requires |positions| < WORD31
    requires k <= |references| && Resolved(positions, references[..k]).None?
    ensures Resolved(positions, references).None?
    decreases |references| - k
  {
    if k < |references| {
      assert references[..k + 1][..k] == references[..k];
      UnresolvedStays(positions, references, k + 1);
    } else {
      assert references[..k] == references;
    }
  }
}
