/** The FBX loader's polygon stream: one-based corner numbers, the last corner of each polygon
    negated, zeros skipped. */
module Fbx {
  import opened Basics
  import opened Polygons

  datatype FbxError = IndexOutOfRange | DegeneratePolygon | EmptyGeometry

  /** The source subtracts one after a cast to 32 bits. */
  predicate Fits(raw: int) {
    -0x1_0000_0000 < raw < 0x1_0000_0000
  }

  function Corner(raw: int): nat
    requires raw != 0
  {
    (if raw < 0 then -raw else raw) - 1
  }

  /** The loop from here on, with `current` the corners of the polygon being read. */
  function Read(stream: seq<int>, count: nat, current: Polygon): Result<seq<Polygon>, FbxError>
    decreases |stream|
  {
    if stream == [] then (if current == [] then Ok([]) else Err(DegeneratePolygon))
    else if stream[0] == 0 then Read(stream[1..], count, current)
    else
      var v := Corner(stream[0]);
      if v >= count then Err(IndexOutOfRange)
      else if stream[0] > 0 then Read(stream[1..], count, current + [v])
      else if |current| < 2 then Err(DegeneratePolygon)
      else match Read(stream[1..], count, [])
        case Ok(rest) => Ok([current + [v]] + rest)
        case Err(e) => Err(e)
  }

  function Fans(polygons: seq<Polygon>): seq<nat> {
    if polygons == [] then [] else Fan(polygons[0]) + Fans(polygons[1..])
  }

  method TriangulateStream(stream: seq<int>, count: nat) returns (r: Result<seq<nat>, FbxError>)
    requires forall k :: 0 <= k < |stream| ==> Fits(stream[k])
    ensures
      match Read(stream, count, [])
      case Err(e) => r == Err(e)
      case Ok(polygons) => r == if Fans(polygons) == [] then Err(EmptyGeometry) else Ok(Fans(polygons))
  {
    var indices: seq<nat> := [];
    var current: seq<nat> := [];
    assert stream[0..] == stream;
    for k := 0 to |stream|
      invariant Emitted(indices, Read(stream[k..], count, current)) == Emitted([], Read(stream, count, []))
    {
      var raw := stream[k];
      assert stream[k..][1..] == stream[k + 1..];
      if raw != 0 {
        var value: nat, terminates := if raw < 0 then -raw - 1 else raw - 1, raw < 0;
        if value >= count {
          return Err(IndexOutOfRange);
        }
        current := current + [value];
        if terminates {
          if |current| < 3 {
            return Err(DegeneratePolygon);
          }
          ghost var rest := Read(stream[k + 1..], count, []);
          if rest.Ok? { EmittedStep(indices, current, rest); }
          indices := EmitFan(current, indices);
          current := [];
        }
      }
    }
    if current != [] {
      return Err(DegeneratePolygon);
    }
    assert stream[|stream|..] == [] && indices + [] == indices;
    assert forall f: seq<nat> :: [] + f == f;
    if indices == [] {
      return Err(EmptyGeometry);
    }
    return Ok(indices);
  }

  function Emitted(before: seq<nat>, r: Result<seq<Polygon>, FbxError>): Result<seq<nat>, FbxError> {
    match r
    case Ok(polygons) => Ok(before + Fans(polygons))
    case Err(e) => Err(e)
  }

  lemma EmittedStep(before: seq<nat>, p: Polygon, rest: Result<seq<Polygon>, FbxError>)
    requires rest.Ok?
    ensures Emitted(before, Ok([p] + rest.value)) == Emitted(before + Fan(p), rest)
  {
    assert ([p] + rest.value)[1..] == rest.value;
    assert before + (Fan(p) + Fans(rest.value)) == before + Fan(p) + Fans(rest.value);
  }

  // ----- The encoding

  predicate PolygonOk(p: Polygon, count: nat) {
    |p| >= 3 && forall k :: 0 <= k < |p| ==> p[k] < count
  }

  ghost predicate PolygonsOk(polygons: seq<Polygon>, count: nat) {
    forall k :: 0 <= k < |polygons| ==> PolygonOk(polygons[k], count)
  }

  /** Corners from `from` on, one-based, the last one negated. */
  function EncodeFrom(p: Polygon, from: nat): seq<int>
    requires from < |p|
    decreases |p| - from
  {
    if from == |p| - 1 then [-(p[from] + 1)] else [p[from] + 1] + EncodeFrom(p, from + 1)
  }

  function Encode(polygons: seq<Polygon>): seq<int>
    requires forall k :: 0 <= k < |polygons| ==> polygons[k] != []
  {
    if polygons == [] then [] else EncodeFrom(polygons[0], 0) + Encode(polygons[1..])
  }

  function DropZeros(stream: seq<int>): seq<int> {
    if stream == [] then [] else (if stream[0] == 0 then [] else [stream[0]]) + DropZeros(stream[1..])
  }

  lemma {:induction false} ZerosIgnored(stream: seq<int>, count: nat, current: Polygon)
    ensures Read(stream, count, current) == Read(DropZeros(stream), count, current)
    decreases |stream|
  {
    if stream != [] {
      var rest := stream[1..];
      if stream[0] == 0 {
        assert DropZeros(stream) == DropZeros(rest);
        ZerosIgnored(rest, count, current);
      } else {
        assert DropZeros(stream)[1..] == DropZeros(rest);
        ZerosIgnored(rest, count, current + [Corner(stream[0])]);
        ZerosIgnored(rest, count, []);
      }
    }
  }

  /** Reading a polygon's remaining corners finishes that polygon. */
  lemma {:induction false} ReadPolygon(p: Polygon, from: nat, rest: seq<int>, count: nat)
    requires PolygonOk(p, count) && from < |p|
    ensures Read(EncodeFrom(p, from) + rest, count, p[..from]) ==
      match Read(rest, count, [])
      case Ok(polygons) => Ok([p] + polygons)
      case Err(e) => Err(e)
    decreases |p| - from
  {
    var text := EncodeFrom(p, from) + rest;
    assert p[..from] + [p[from]] == p[..from + 1];
    if from == |p| - 1 {
      assert text[1..] == rest;
      assert p[..from + 1] == p;
    } else {
      assert text[1..] == EncodeFrom(p, from + 1) + rest;
      ReadPolygon(p, from + 1, rest, count);
    }
  }

  lemma {:induction false} ReadEncoded(polygons: seq<Polygon>, count: nat)
    requires PolygonsOk(polygons, count)
    ensures Read(Encode(polygons), count, []) == Ok(polygons)
    decreases |polygons|
  {
    if polygons != [] {
      ReadPolygon(polygons[0], 0, Encode(polygons[1..]), count);
      assert polygons[0][..0] == [];
      ReadEncoded(polygons[1..], count);
      assert polygons == [polygons[0]] + polygons[1..];
    }
  }

  /** The encoding of one polygon: every corner's number from one, the last one negated. */
  lemma {:induction false} EncodedCorners(p: Polygon, from: nat)
    requires from < |p|
    ensures |EncodeFrom(p, from)| == |p| - from
    ensures forall k :: from <= k < |p| - 1 ==> EncodeFrom(p, from)[k - from] == p[k] + 1
    ensures EncodeFrom(p, from)[|p| - from - 1] + p[|p| - 1] == -1
    decreases |p| - from
  {
    if from < |p| - 1 { EncodedCorners(p, from + 1); }
  }

  /** Dropping zeros drops nothing else, and keeps the order. */
  lemma {:induction false} DropJoin(a: seq<int>, b: seq<int>)
    ensures DropZeros(a + b) == DropZeros(a) + DropZeros(b)
    decreases |a|
  {
    if a == [] {
      assert a + b == b;
    } else {
      assert (a + b)[1..] == a[1..] + b;
      DropJoin(a[1..], b);
      assert DropZeros(a) == (if a[0] == 0 then [] else [a[0]]) + DropZeros(a[1..]);
    }
  }

  lemma DropOne(x: int)
    ensures DropZeros([x]) == if x == 0 then [] else [x]
  {
    assert [x][1..] == [];
  }

  // ----- What is refused, and why

  /** Some corners of a polygon that does not end yet, all in range. */
  predicate Open(body: seq<int>, count: nat) {
    forall k :: 0 <= k < |body| ==> 1 <= body[k] <= count
  }

  lemma {:induction false} ReadOpen(body: seq<int>, rest: seq<int>, count: nat, current: Polygon) returns (more: Polygon)
    requires Open(body, count)
    ensures |more| == |body| && Read(body + rest, count, current) == Read(rest, count, current + more)
    decreases |body|
  {
    if body == [] {
      more := [];
      assert body + rest == rest && current + more == current;
    } else {
      var v := Corner(body[0]);
      assert (body + rest)[1..] == body[1..] + rest;
      var later := ReadOpen(body[1..], rest, count, current + [v]);
      more := [v] + later;
      assert current + [v] + later == current + more;
    }
  }

  lemma {:induction false} ReadBehind(polygons: seq<Polygon>, rest: seq<int>, count: nat)
    requires PolygonsOk(polygons, count) && Read(rest, count, []).Err?
    ensures Read(Encode(polygons) + rest, count, []) == Read(rest, count, [])
    decreases |polygons|
  {
    if polygons == [] {
      assert Encode(polygons) + rest == rest;
    } else {
      var p, later := polygons[0], polygons[1..];
      ReadBehind(later, rest, count);
      ReadPolygon(p, 0, Encode(later) + rest, count);
      assert p[..0] == [];
      assert Encode(polygons) + rest == EncodeFrom(p, 0) + (Encode(later) + rest);
    }
  }

  /** Behind finished polygons and open corners: a number past the positions is out of range whatever its
      sign, a negated one in range that closes fewer than three corners is a degenerate polygon, and so are
      open corners at the end. */
  lemma FaultIs(polygons: seq<Polygon>, body: seq<int>, x: int, rest: seq<int>, count: nat)
    requires PolygonsOk(polygons, count) && Open(body, count)
    ensures x > count || x < -(count as int) ==> Read(Encode(polygons) + (body + [x] + rest), count, []) == Err(IndexOutOfRange)
    ensures -(count as int) <= x < 0 && |body| < 2 ==> Read(Encode(polygons) + (body + [x] + rest), count, []) == Err(DegeneratePolygon)
    ensures body != [] ==> Read(Encode(polygons) + body, count, []) == Err(DegeneratePolygon)
  {
    var tail := [x] + rest;
    assert body + [x] + rest == body + tail && tail[1..] == rest;
    var more := ReadOpen(body, tail, count, []);
    if Read(tail, count, [] + more).Err? { ReadBehind(polygons, body + tail, count); }
    if body != [] {
      assert body + [] == body;
      var all := ReadOpen(body, [], count, []);
      ReadBehind(polygons, body, count);
    }
  }

  // ----- What is accepted

  /** `polygons` is what is left to read when `current` has been read of the first. */
  ghost predicate Says(nonzero: seq<int>, current: Polygon, polygons: seq<Polygon>, count: nat) {
    && PolygonsOk(polygons, count)
    && if polygons == [] then current == [] && nonzero == []
       else && |polygons[0]| > |current| && polygons[0][..|current|] == current
            && nonzero == EncodeFrom(polygons[0], |current|) + Encode(polygons[1..])
  }

  lemma SaysCorner(nonzero: seq<int>, current: Polygon, v: nat, polygons: seq<Polygon>, count: nat)
    requires Says(nonzero, current + [v], polygons, count)
    ensures Says([v + 1] + nonzero, current, polygons, count)
  {
    var p, k := polygons[0], |current|;
    assert p[..k] == p[..k + 1][..k] == current;
    assert p[k] == p[..k + 1][k] == v;
    assert EncodeFrom(p, k) == [v + 1] + EncodeFrom(p, k + 1);
    assert [v + 1] + nonzero == EncodeFrom(p, k) + Encode(polygons[1..]);
  }

  lemma SaysEnd(nonzero: seq<int>, current: Polygon, v: nat, polygons: seq<Polygon>, count: nat)
    requires Says(nonzero, [], polygons, count)
    requires |current| >= 2 && v < count && forall k :: 0 <= k < |current| ==> current[k] < count
    ensures Says([-(v + 1)] + nonzero, current, [current + [v]] + polygons, count)
  {
    var p := current + [v];
    assert ([p] + polygons)[1..] == polygons;
    assert EncodeFrom(p, |current|) == [-(v + 1)];
    assert nonzero == Encode(polygons) by {
      if polygons != [] { assert EncodeFrom(polygons[0], 0) + Encode(polygons[1..]) == Encode(polygons); }
    }
  }

  /** What an accepted stream says once its zeros are dropped. */
  lemma {:induction false} ReadIsEncoding(stream: seq<int>, count: nat, current: Polygon)
    requires Read(stream, count, current).Ok? && forall k :: 0 <= k < |current| ==> current[k] < count
    ensures Says(DropZeros(stream), current, Read(stream, count, current).value, count)
    decreases |stream|
  {
    if stream != [] {
      var rest := stream[1..];
      if stream[0] == 0 {
        assert DropZeros(stream) == DropZeros(rest);
        ReadIsEncoding(rest, count, current);
      } else {
        var v := Corner(stream[0]);
        assert DropZeros(stream) == [stream[0]] + DropZeros(rest);
        if stream[0] > 0 {
          ReadIsEncoding(rest, count, current + [v]);
          SaysCorner(DropZeros(rest), current, v, Read(stream, count, current).value, count);
        } else {
          ReadIsEncoding(rest, count, []);
          SaysEnd(DropZeros(rest), current, v, Read(rest, count, []).value, count);
        }
      }
    }
  }

  lemma Corners3(polygons: seq<Polygon>, count: nat)
    ensures PolygonsOk(polygons, count) <==>
      forall k :: 0 <= k < |polygons| ==> |polygons[k]| >= 3 && forall v :: v in polygons[k] ==> v < count
  {
    forall k | 0 <= k < |polygons|
      ensures PolygonOk(polygons[k], count) <==> |polygons[k]| >= 3 && forall v :: v in polygons[k] ==> v < count
    {
      assert forall j :: 0 <= j < |polygons[k]| ==> polygons[k][j] in polygons[k];
    }
  }

  /** A stream is accepted exactly when, zeros dropped, it is the encoding of a list of polygons of
      at least three corners, all in range; and then of one such list only. */
  lemma AcceptedIffEncoding(stream: seq<int>, count: nat, polygons: seq<Polygon>)
    ensures Read(stream, count, []) == Ok(polygons) <==>
      && (forall k :: 0 <= k < |polygons| ==> |polygons[k]| >= 3 && forall v :: v in polygons[k] ==> v < count)
      && DropZeros(stream) == Encode(polygons)
  {
    Corners3(polygons, count);
    if Read(stream, count, []).Ok? {
      ReadIsEncoding(stream, count, []);
      var read := Read(stream, count, []).value;
      assert read != [] ==> Encode(read) == EncodeFrom(read[0], 0) + Encode(read[1..]);
    }
    if PolygonsOk(polygons, count) && DropZeros(stream) == Encode(polygons) {
      ZerosIgnored(stream, count, []);
      ReadEncoded(polygons, count);
    }
  }

  function Corners(polygons: seq<Polygon>): nat {
    if polygons == [] then 0 else |polygons[0]| + Corners(polygons[1..])
  }

  /** What an accepted stream decodes to: all corners in range, two triangles fewer per polygon
      than it has corners. */
  lemma {:induction false} FansFacts(polygons: seq<Polygon>, count: nat)
    requires PolygonsOk(polygons, count)
    ensures |Fans(polygons)| == 3 * (Corners(polygons) - 2 * |polygons|)
    ensures forall v :: v in Fans(polygons) ==> v < count
    decreases |polygons|
  {
    if polygons != [] {
      FansFacts(polygons[1..], count);
      var p := polygons[0];
      assert PolygonOk(p, count);
      FanSize(p, |p| - 1);
      assert Fans(polygons) == Fan(p) + Fans(polygons[1..]);
      FanInside(p, count);
    }
  }

  /** Where polygon k's triangles begin. */
  function FansBefore(polygons: seq<Polygon>, k: nat): int
    requires k <= |polygons|
  {
    3 * (Corners(polygons[..k]) - 2 * k)
  }

  lemma FansBeforeNext(polygons: seq<Polygon>, k: nat)
    requires 0 < k <= |polygons| && |polygons[0]| >= 3
    ensures FansBefore(polygons, k) == |Fan(polygons[0])| + FansBefore(polygons[1..], k - 1)
  {
    FanTriangles(polygons[0]);
    assert polygons[..k][1..] == polygons[1..][..k - 1];
  }

  /** The triangles of polygon k stand behind those of the polygons before it, each over its first corner. */
  lemma {:induction false} TriangleOf(polygons: seq<Polygon>, count: nat, k: nat, j: nat)
    requires PolygonsOk(polygons, count) && k < |polygons| && j < |polygons[k]| - 2
    ensures
      var at, p := FansBefore(polygons, k) + 3 * j, polygons[k];
      && 0 <= at && at + 3 <= |Fans(polygons)|
      && Fans(polygons)[at] == p[0] && Fans(polygons)[at + 1] == p[j + 1] && Fans(polygons)[at + 2] == p[j + 2]
    decreases k
  {
    assert PolygonOk(polygons[0], count);
    assert Fans(polygons) == Fan(polygons[0]) + Fans(polygons[1..]);
    if k == 0 {
      assert FansBefore(polygons, 0) == 0;
      FanTriangles(polygons[0]);
    } else {
      FansBeforeNext(polygons, k);
      TriangleOf(polygons[1..], count, k - 1, j);
    }
  }

  lemma FanInside(p: Polygon, count: nat)
    requires PolygonOk(p, count)
    ensures forall v :: v in Fan(p) ==> v < count
  {
    FanSize(p, |p| - 1);
  }
}
