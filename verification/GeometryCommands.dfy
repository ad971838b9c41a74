/** The geometry pass's command stream, read back as the draws a device would make of it, and
    the matrices those draws read. */
module GeometryCommands {
  import opened Basics

  // ----- Matrices

  datatype Vec4 = Vec4(x: real, y: real, z: real, w: real)

  /** Column-major, as the uniform upload lays it out. */
  datatype Mat4 = Mat4(c0: Vec4, c1: Vec4, c2: Vec4, c3: Vec4)

  function Plus(a: Vec4, b: Vec4): Vec4 {
    Vec4(a.x + b.x, a.y + b.y, a.z + b.z, a.w + b.w)
  }

  function Mul(a: real, b: real): real {
    a * b
  }

  function Times(v: Vec4, k: real): Vec4 {
    Vec4(Mul(v.x, k), Mul(v.y, k), Mul(v.z, k), Mul(v.w, k))
  }

  function Combine(a: Vec4, b: Vec4, c: Vec4, d: Vec4): Vec4 {
    Plus(Plus(a, b), Plus(c, d))
  }

  function Apply(m: Mat4, v: Vec4): Vec4 {
    Combine(Times(m.c0, v.x), Times(m.c1, v.y), Times(m.c2, v.z), Times(m.c3, v.w))
  }

  function Multiply(m: Mat4, n: Mat4): Mat4 {
    Mat4(Apply(m, n.c0), Apply(m, n.c1), Apply(m, n.c2), Apply(m, n.c3))
  }

  /** The four sums of a matrix times a vector, columns first. */
  lemma ApplyEntries(m: Mat4, v: Vec4)
    ensures Apply(m, v).x == (m.c0.x * v.x + m.c1.x * v.y) + (m.c2.x * v.z + m.c3.x * v.w)
    ensures Apply(m, v).y == (m.c0.y * v.x + m.c1.y * v.y) + (m.c2.y * v.z + m.c3.y * v.w)
    ensures Apply(m, v).z == (m.c0.z * v.x + m.c1.z * v.y) + (m.c2.z * v.z + m.c3.z * v.w)
    ensures Apply(m, v).w == (m.c0.w * v.x + m.c1.w * v.y) + (m.c2.w * v.z + m.c3.w * v.w)
  {
  }

  lemma MulSum(a: real, j: real, k: real)
    ensures Mul(a, j + k) == Mul(a, j) + Mul(a, k)
    ensures Mul(j + k, a) == Mul(j, a) + Mul(k, a)
  {
  }

  lemma MulMul(a: real, j: real, k: real)
    ensures Mul(Mul(a, j), k) == Mul(a, Mul(j, k))
  {
  }

  lemma TimesSum(a: Vec4, j: real, k: real)
    ensures Times(a, j + k) == Plus(Times(a, j), Times(a, k))
  {
    MulSum(a.x, j, k);
    MulSum(a.y, j, k);
    MulSum(a.z, j, k);
    MulSum(a.w, j, k);
  }

  lemma TimesPlus(a: Vec4, b: Vec4, k: real)
    ensures Times(Plus(a, b), k) == Plus(Times(a, k), Times(b, k))
  {
    MulSum(k, a.x, b.x);
    MulSum(k, a.y, b.y);
    MulSum(k, a.z, b.z);
    MulSum(k, a.w, b.w);
  }

  lemma TimesTimes(a: Vec4, j: real, k: real)
    ensures Times(Times(a, j), k) == Times(a, Mul(j, k))
  {
    MulMul(a.x, j, k);
    MulMul(a.y, j, k);
    MulMul(a.z, j, k);
    MulMul(a.w, j, k);
  }

  lemma CombinePlus(a: Vec4, b: Vec4, c: Vec4, d: Vec4, a': Vec4, b': Vec4, c': Vec4, d': Vec4)
    ensures Combine(Plus(a, a'), Plus(b, b'), Plus(c, c'), Plus(d, d')) == Plus(Combine(a, b, c, d), Combine(a', b', c', d'))
  {
  }

  lemma CombineTimes(a: Vec4, b: Vec4, c: Vec4, d: Vec4, k: real)
    ensures Times(Combine(a, b, c, d), k) == Combine(Times(a, k), Times(b, k), Times(c, k), Times(d, k))
  {
    TimesPlus(Plus(a, b), Plus(c, d), k);
    TimesPlus(a, b, k);
    TimesPlus(c, d, k);
  }

  lemma ApplyPlus(m: Mat4, a: Vec4, b: Vec4)
    ensures Apply(m, Plus(a, b)) == Plus(Apply(m, a), Apply(m, b))
  {
    TimesSum(m.c0, a.x, b.x);
    TimesSum(m.c1, a.y, b.y);
    TimesSum(m.c2, a.z, b.z);
    TimesSum(m.c3, a.w, b.w);
    CombinePlus(Times(m.c0, a.x), Times(m.c1, a.y), Times(m.c2, a.z), Times(m.c3, a.w),
                Times(m.c0, b.x), Times(m.c1, b.y), Times(m.c2, b.z), Times(m.c3, b.w));
  }

  lemma ApplyTimes(m: Mat4, v: Vec4, k: real)
    ensures Apply(m, Times(v, k)) == Times(Apply(m, v), k)
  {
    TimesTimes(m.c0, v.x, k);
    TimesTimes(m.c1, v.y, k);
    TimesTimes(m.c2, v.z, k);
    TimesTimes(m.c3, v.w, k);
    CombineTimes(Times(m.c0, v.x), Times(m.c1, v.y), Times(m.c2, v.z), Times(m.c3, v.w), k);
  }

  /** A product applies its right factor first. */
  lemma ApplyProduct(m: Mat4, n: Mat4, v: Vec4)
    ensures Apply(Multiply(m, n), v) == Apply(m, Apply(n, v))
  {
    var a, b, c, d := Times(n.c0, v.x), Times(n.c1, v.y), Times(n.c2, v.z), Times(n.c3, v.w);
    ApplyPlus(m, Plus(a, b), Plus(c, d));
    ApplyPlus(m, a, b);
    ApplyPlus(m, c, d);
    ApplyTimes(m, n.c0, v.x);
    ApplyTimes(m, n.c1, v.y);
    ApplyTimes(m, n.c2, v.z);
    ApplyTimes(m, n.c3, v.w);
  }

  // ----- Items and commands

  /** The render layer knows 8-bit indices, the device does not. */
  datatype MeshIndexType = U8 | U16 | U32

  datatype DeviceIndexType = Index16 | Index32

  type Handle = nat

  datatype Item = Item(vertexBuffer: Handle, indexBuffer: Handle, indexType: MeshIndexType, indexCount: nat, model: Mat4)

  datatype Command =
    | BeginRenderPass(target: Handle)
    | SetViewport
    | SetScissor
    | BindPipeline(pipeline: Handle)
    | BindSet(set_: Handle)
    | BindVertexBuffer(buffer: Handle)
    | BindIndexBuffer(buffer: Handle, indexType: DeviceIndexType)
    | DrawIndexed(indexCount: nat)
    | EndRenderPass

  function DeviceType(t: MeshIndexType): Option<DeviceIndexType> {
    match t
    case U8 => None
    case U16 => Some(Index16)
    case U32 => Some(Index32)
  }

  // ----- What a device makes of a command stream

  datatype Draw = Draw(target: Handle, pipeline: Handle, set_: Handle, vertexBuffer: Handle, indexBuffer: Handle, indexType: DeviceIndexType, indexCount: nat)

  /** Bind state, the draws made so far, and whether every draw found everything bound. */
  datatype Playback = Playback(
    viewport: bool,
    scissor: bool,
    target: Option<Handle>,
    pipeline: Option<Handle>,
    set_: Option<Handle>,
    vertexBuffer: Option<Handle>,
    indexBuffer: Option<(Handle, DeviceIndexType)>,
    draws: seq<Draw>,
    legal: bool)

  const IDLE: Playback := Playback(false, false, None, None, None, None, None, [], true)

  function Step(p: Playback, c: Command): Playback {
    match c
    case BeginRenderPass(t) => p.(target := Some(t), legal := p.legal && p.target.None?)
    case SetViewport => p.(viewport := true)
    case SetScissor => p.(scissor := true)
    case BindPipeline(x) => p.(pipeline := Some(x))
    case BindSet(x) => p.(set_ := Some(x))
    case BindVertexBuffer(x) => p.(vertexBuffer := Some(x))
    case BindIndexBuffer(x, t) => p.(indexBuffer := Some((x, t)))
    case DrawIndexed(n) =>
      if p.viewport && p.scissor && p.target.Some? && p.pipeline.Some? && p.set_.Some? && p.vertexBuffer.Some? && p.indexBuffer.Some? then
        p.(draws := p.draws + [Draw(p.target.value, p.pipeline.value, p.set_.value, p.vertexBuffer.value, p.indexBuffer.value.0, p.indexBuffer.value.1, n)])
      else p.(legal := false)
    case EndRenderPass => p.(target := None, legal := p.legal && p.target.Some?)
  }

  function Play(commands: seq<Command>): Playback {
    if commands == [] then IDLE else Step(Play(commands[..|commands| - 1]), commands[|commands| - 1])
  }

  lemma PlayOne(before: seq<Command>, c: Command)
    ensures Play(before + [c]) == Step(Play(before), c)
  {
    assert (before + [c])[..|before|] == before;
  }

  /** The draws the items ask for: in order, each with its own set and buffers; items without a
      set or with 8-bit indices ask for none. */
  function Wanted(items: seq<Item>, sets: seq<Handle>, target: Handle, pipeline: Handle): seq<Draw> {
    if items == [] then [] else
    var k := |items| - 1;
    var item := items[k];
    Wanted(items[..k], sets, target, pipeline) +
    (if k < |sets| && DeviceType(item.indexType).Some?
     then [Draw(target, pipeline, sets[k], item.vertexBuffer, item.indexBuffer, DeviceType(item.indexType).value, item.indexCount)]
     else [])
  }

  /** Append one item's commands. An 8-bit item stops after its vertex buffer. */
  method RecordItem(commands: seq<Command>, item: Item, descriptorSet: Handle) returns (r: seq<Command>)
    requires Play(commands).target.Some? && Play(commands).pipeline.Some? && Play(commands).viewport && Play(commands).scissor
    ensures |r| == |commands| + (if item.indexType == U8 then 2 else 4) && r[..|commands|] == commands
    ensures r[|commands|] == BindSet(descriptorSet) && r[|commands| + 1] == BindVertexBuffer(item.vertexBuffer)
    ensures item.indexType != U8 ==>
      && r[|commands| + 2] == BindIndexBuffer(item.indexBuffer, if item.indexType == U16 then Index16 else Index32)
      && r[|commands| + 3] == DrawIndexed(item.indexCount)
    ensures
      var p, q := Play(commands), Play(r);
      && q.viewport && q.scissor && q.target == p.target && q.pipeline == p.pipeline && q.legal == p.legal
      && q.draws == p.draws + (if DeviceType(item.indexType).Some?
           then [Draw(p.target.value, p.pipeline.value, descriptorSet, item.vertexBuffer, item.indexBuffer, DeviceType(item.indexType).value, item.indexCount)]
           else [])
  {
    PlayOne(commands, BindSet(descriptorSet));
    r := commands + [BindSet(descriptorSet)];
    PlayOne(r, BindVertexBuffer(item.vertexBuffer));
    r := r + [BindVertexBuffer(item.vertexBuffer)];
    match item.indexType {
      case U8 => return r;
      case U16 => r := BindAndDraw(r, item.indexBuffer, Index16, item.indexCount);
      case U32 => r := BindAndDraw(r, item.indexBuffer, Index32, item.indexCount);
    }
  }

  method BindAndDraw(commands: seq<Command>, buffer: Handle, indexType: DeviceIndexType, count: nat) returns (r: seq<Command>)
    ensures r == commands + [BindIndexBuffer(buffer, indexType), DrawIndexed(count)]
    ensures Play(r) == Step(Step(Play(commands), BindIndexBuffer(buffer, indexType)), DrawIndexed(count))
  {
    PlayOne(commands, BindIndexBuffer(buffer, indexType));
    r := commands + [BindIndexBuffer(buffer, indexType)];
    PlayOne(r, DrawIndexed(count));
    r := r + [DrawIndexed(count)];
  }

  /** The commands the pass records once it has a target. */
  method RecordPass(items: seq<Item>, sets: seq<Handle>, target: Handle, pipeline: Handle) returns (commands: seq<Command>)
    ensures Play(commands).draws == Wanted(items, sets, target, pipeline)
    ensures Play(commands).legal && Play(commands).target.None?
    ensures |commands| >= 5 && commands[..4] == [BeginRenderPass(target), SetViewport, SetScissor, BindPipeline(pipeline)]
    ensures commands[|commands| - 1] == EndRenderPass
  {
    commands := [];
    PlayOne([], BeginRenderPass(target));
    commands := [] + [BeginRenderPass(target)];
    PlayOne(commands, SetViewport);
    commands := commands + [SetViewport];
    PlayOne(commands, SetScissor);
    commands := commands + [SetScissor];
    PlayOne(commands, BindPipeline(pipeline));
    commands := commands + [BindPipeline(pipeline)];
    for k := 0 to |items|
      invariant |commands| >= 4 && commands[..4] == [BeginRenderPass(target), SetViewport, SetScissor, BindPipeline(pipeline)]
      invariant Play(commands).viewport && Play(commands).scissor
      invariant Play(commands).legal && Play(commands).target == Some(target) && Play(commands).pipeline == Some(pipeline)
      invariant Play(commands).draws == Wanted(items[..k], sets, target, pipeline)
    {
      assert items[..k + 1][..k] == items[..k];
      if k < |sets| {
        commands := RecordItem(commands, items[k], sets[k]);
      }
    }
    assert items[..|items|] == items;
    PlayOne(commands, EndRenderPass);
    commands := commands + [EndRenderPass];
  }

  // ----- Uniforms

  /** One buffer and one set per item; the sets are written to point at their buffers. */
  class Uniforms {
    var buffers: seq<Handle>
    var sets: seq<Handle>
    /** Which buffer a descriptor set points at, and what each buffer holds. */
    var pointsAt: map<Handle, Handle>
    var contents: map<Handle, Mat4>

    ghost predicate Paired()
      reads this
    {
      && |buffers| == |sets|
      && Distinct(buffers)
      && (forall k :: 0 <= k < |sets| ==> sets[k] in pointsAt && pointsAt[sets[k]] == buffers[k])
    }

    constructor ()
      ensures buffers == [] && sets == [] && pointsAt == map[] && contents == map[]
    {
      buffers, sets, pointsAt, contents := [], [], map[], map[];
    }

    /** `granted(n)` says whether the n-th request succeeds: one for the layout, then a buffer, a
        set and a descriptor write for each item. Requests from `next` on also name the objects. */
    method Build(count: nat, granted: nat -> bool, next: nat) returns (ok: bool)
      modifies this
      ensures ok ==> Paired() && |sets| == count
      ensures ok <==> forall n :: next <= n <= next + 3 * count ==> granted(n)
    {
      buffers, sets, pointsAt := [], [], map[];
      if !granted(next) {
        return false;
      }
      var id := next + 1;
      for k := 0 to count
        invariant id == next + 1 + 3 * k
        invariant |buffers| == |sets| == k
        invariant forall j :: 0 <= j < k ==> buffers[j] == next + 1 + 3 * j && sets[j] == next + 2 + 3 * j
        invariant Paired()
        invariant forall n :: next <= n < id ==> granted(n)
      {
        if !granted(id) {
          return false;
        }
        if !granted(id + 1) {
          return false;
        }
        if !granted(id + 2) {
          return false;
        }
        pointsAt := pointsAt[id + 1 := id];
        buffers := buffers + [id];
        sets := sets + [id + 1];
        id := id + 3;
      }
      return true;
    }

    /** `accepted(k)` says whether the k-th item's upload succeeds. */
    method Update(items: seq<Item>, view: Mat4, projection: Mat4, accepted: nat -> bool) returns (allOk: bool)
      requires Distinct(buffers)
      modifies this`contents
      ensures allOk <==> |items| <= |buffers| && forall k :: 0 <= k < |items| ==> accepted(k)
      ensures forall k :: 0 <= k < |items| && k < |buffers| && accepted(k) ==>
        buffers[k] in contents && contents[buffers[k]] == Multiply(Multiply(projection, view), items[k].model)
      ensures forall b :: b in old(contents) && b !in buffers ==> b in contents && contents[b] == old(contents)[b]
    {
      allOk := true;
      for k := 0 to |items|
        invariant allOk <==> k <= |buffers| && forall j :: 0 <= j < k ==> accepted(j)
        invariant forall j :: 0 <= j < k && j < |buffers| && accepted(j) ==>
          buffers[j] in contents && contents[buffers[j]] == Multiply(Multiply(projection, view), items[j].model)
        invariant forall b :: b in old(contents) && b !in buffers ==> b in contents && contents[b] == old(contents)[b]
      {
        if k >= |buffers| {
          allOk := false;
        } else {
          var mvp := Multiply(Multiply(projection, view), items[k].model);
          if accepted(k) {
            contents := contents[buffers[k] := mvp];
          } else {
            allOk := false;
          }
        }
      }
    }
  }

  /** Draw number `n` of the recording is drawn for item `k`. */
  ghost predicate DrawnFor(items: seq<Item>, sets: seq<Handle>, target: Handle, pipeline: Handle, n: nat, k: nat) {
    && n < |Wanted(items, sets, target, pipeline)| && k < |items| && k < |sets|
    && DeviceType(items[k].indexType).Some?
    && Wanted(items, sets, target, pipeline)[n] ==
         Draw(target, pipeline, sets[k], items[k].vertexBuffer, items[k].indexBuffer, DeviceType(items[k].indexType).value, items[k].indexCount)
  }

  lemma {:induction false} EveryDrawHasItem(items: seq<Item>, sets: seq<Handle>, target: Handle, pipeline: Handle, n: nat) returns (k: nat)
    requires n < |Wanted(items, sets, target, pipeline)|
    ensures DrawnFor(items, sets, target, pipeline, n, k) && n <= k
    ensures n == |Wanted(items[..k], sets, target, pipeline)|
  {
    var last := |items| - 1;
    if n < |Wanted(items[..last], sets, target, pipeline)| {
      k := EveryDrawHasItem(items[..last], sets, target, pipeline, n);
      assert items[..last][..k] == items[..k];
    } else {
      k := last;
      WantedBounded(items[..last], sets, target, pipeline);
    }
  }

  lemma {:induction false} WantedBounded(items: seq<Item>, sets: seq<Handle>, target: Handle, pipeline: Handle)
    ensures |Wanted(items, sets, target, pipeline)| <= |items|
  {
    if items != [] { WantedBounded(items[..|items| - 1], sets, target, pipeline); }
  }

  lemma {:induction false} EveryItemHasDraw(items: seq<Item>, sets: seq<Handle>, target: Handle, pipeline: Handle, k: nat)
    requires k < |items| && k < |sets| && items[k].indexType != U8
    ensures
      var draws, n := Wanted(items, sets, target, pipeline), |Wanted(items[..k], sets, target, pipeline)|;
      && DrawnFor(items, sets, target, pipeline, n, k)
      && draws[n] == Draw(target, pipeline, sets[k], items[k].vertexBuffer, items[k].indexBuffer,
                          if items[k].indexType == U16 then Index16 else Index32, items[k].indexCount)
  {
    var last := |items| - 1;
    if k < last {
      EveryItemHasDraw(items[..last], sets, target, pipeline, k);
      assert items[..last][..k] == items[..k];
    }
  }

  /** After a build and a fully accepted update, each draw reads, through the set bound for it,
      projection after view after its own item's model. */
  lemma DrawsReadTheirOwnMatrix(u: Uniforms, items: seq<Item>, view: Mat4, projection: Mat4, target: Handle, pipeline: Handle, n: nat, position: Vec4) returns (k: nat)
    requires u.Paired() && |items| <= |u.sets|
    requires forall j :: 0 <= j < |items| ==>
      u.buffers[j] in u.contents && u.contents[u.buffers[j]] == Multiply(Multiply(projection, view), items[j].model)
    requires n < |Wanted(items, u.sets, target, pipeline)|
    ensures DrawnFor(items, u.sets, target, pipeline, n, k)
    ensures
      var draw := Wanted(items, u.sets, target, pipeline)[n];
      && draw.set_ in u.pointsAt && u.pointsAt[draw.set_] in u.contents
      && Apply(u.contents[u.pointsAt[draw.set_]], position) == Apply(projection, Apply(view, Apply(items[k].model, position)))
  {
    k := EveryDrawHasItem(items, u.sets, target, pipeline, n);
    ApplyProduct(Multiply(projection, view), items[k].model, position);
    ApplyProduct(projection, view, Apply(items[k].model, position));
  }
}
