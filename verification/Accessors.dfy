/** Reading glTF accessors out of buffer views (section 3.6.2 of glTF 2.0). Numbers are kept as the
    bit patterns their little-endian bytes spell. */
module Accessors {
  import opened Basics
  import opened Bytes

  datatype AccessorError = BadAccessor | BadBufferView

  const BYTE: nat := 5120
  const UNSIGNED_BYTE: nat := 5121
  const SHORT: nat := 5122
  const UNSIGNED_SHORT: nat := 5123
  const UNSIGNED_INT: nat := 5125
  const FLOAT: nat := 5126

  /** The fields the loader reads, absent ones defaulted or None as it does. */
  datatype Accessor = Accessor(count: nat, component: Option<nat>, normalized: bool, byteOffset: nat, bufferView: Option<nat>, shape: string)

  datatype View = View(buffer: nat, byteOffset: nat, byteLength: Option<nat>, byteStride: nat)

  datatype Document = Document(accessors: seq<Accessor>, views: seq<View>, buffers: seq<seq<Byte>>)

  /** A resolved accessor; stride 0 means tightly packed. */
  datatype Layout = Layout(bytes: seq<Byte>, count: nat, component: nat, normalized: bool, stride: nat)

  function ComponentSize(c: nat): nat {
    if c == BYTE || c == UNSIGNED_BYTE then 1
    else if c == SHORT || c == UNSIGNED_SHORT then 2
    else if c == UNSIGNED_INT || c == FLOAT then 4
    else 0
  }

  function ComponentsOf(shape: string): Option<nat> {
    if shape == "SCALAR" then Some(1) else if shape == "VEC2" then Some(2) else if shape == "VEC3" then Some(3)
    else if shape == "VEC4" then Some(4) else if shape == "MAT4" then Some(16) else None
  }

  /** A view is its stretch of its buffer, and there is one only when all of it lies inside the buffer. */
  function ViewBytes(doc: Document, index: nat): (r: Result<seq<Byte>, AccessorError>)
    ensures r.Ok? <==>
      && index < |doc.views| && doc.views[index].buffer < |doc.buffers| && doc.views[index].byteLength.Some?
      && doc.views[index].byteOffset + doc.views[index].byteLength.value <= |doc.buffers[doc.views[index].buffer]|
    ensures r.Ok? ==> |r.value| == doc.views[index].byteLength.value && forall k :: 0 <= k < |r.value| ==>
      r.value[k] == doc.buffers[doc.views[index].buffer][doc.views[index].byteOffset + k]
    ensures r.Err? ==> r.error == BadBufferView
  {
    if index >= |doc.views| then Err(BadBufferView) else
    var view := doc.views[index];
    if view.buffer >= |doc.buffers| || view.byteLength.None? then Err(BadBufferView) else
    var buffer, end := doc.buffers[view.buffer], view.byteOffset + view.byteLength.value;
    if end > |buffer| then Err(BadBufferView) else Ok(buffer[view.byteOffset..end])
  }

  function ResolveLayout(doc: Document, index: nat): Result<Layout, AccessorError> {
    if index >= |doc.accessors| then Err(BadAccessor) else
    var a := doc.accessors[index];
    if a.component.None? || a.bufferView.None? then Err(BadAccessor)
    else if a.bufferView.value >= |doc.views| then Err(BadBufferView)
    else match ViewBytes(doc, a.bufferView.value)
      case Err(e) => Err(e)
      case Ok(view) =>
        if a.byteOffset > |view| || ComponentsOf(a.shape).None? then Err(BadAccessor) else
        var slice := view[a.byteOffset..];
        var tight := ComponentSize(a.component.value) * ComponentsOf(a.shape).value;
        var stride := doc.views[a.bufferView.value].byteStride;
        if stride > 0 then
          if stride < tight then Err(BadAccessor)
          else if a.count > 0 && stride * (a.count - 1) + tight > |slice| then Err(BadAccessor)
          else Ok(Layout(slice, a.count, a.component.value, a.normalized, stride))
        else
          if a.count > 0 && tight * a.count > |slice| then Err(BadAccessor)
          else Ok(Layout(slice, a.count, a.component.value, a.normalized, 0))
  }

  function StepFor(stride: nat, tight: nat): nat {
    if stride > 0 then stride else tight
  }

  // ----- What an accessor reads, over its buffer

  /** The accessor's view lies in its buffer, and the accessor begins inside the view. */
  predicate Placed(doc: Document, index: nat) {
    && index < |doc.accessors| && doc.accessors[index].bufferView.Some? && doc.accessors[index].component.Some?
    && var a := doc.accessors[index];
    && a.bufferView.value < |doc.views|
    && var v := doc.views[a.bufferView.value];
    && v.buffer < |doc.buffers| && v.byteLength.Some? && v.byteOffset + v.byteLength.value <= |doc.buffers[v.buffer]|
    && a.byteOffset <= v.byteLength.value
  }

  /** The layout's bytes are the buffer's, from the sum of the two offsets to the end of the view. */
  lemma LayoutBytes(doc: Document, index: nat)
    requires ResolveLayout(doc, index).Ok?
    ensures Placed(doc, index)
    ensures
      var a, l := doc.accessors[index], ResolveLayout(doc, index).value;
      var v := doc.views[a.bufferView.value];
      && l.count == a.count && l.component == a.component.value && l.normalized == a.normalized && l.stride == v.byteStride
      && |l.bytes| == v.byteLength.value - a.byteOffset
      && forall k :: 0 <= k < |l.bytes| ==> l.bytes[k] == doc.buffers[v.buffer][v.byteOffset + a.byteOffset + k]
  {
  }

  /** Component and shape numbers of section 3.6.2.2 of glTF 2.0: bytes of a component, components of an element. */
  lemma Tables()
    ensures ComponentSize(5120) == ComponentSize(5121) == 1 && ComponentSize(5122) == ComponentSize(5123) == 2
    ensures ComponentSize(5125) == ComponentSize(5126) == 4
    ensures forall c :: c != 5120 && c != 5121 && c != 5122 && c != 5123 && c != 5125 && c != 5126 ==> ComponentSize(c) == 0
    ensures ComponentsOf("SCALAR") == Some(1) && ComponentsOf("VEC2") == Some(2) && ComponentsOf("VEC3") == Some(3)
    ensures ComponentsOf("VEC4") == Some(4) && ComponentsOf("MAT4") == Some(16)
    ensures forall s :: s != "SCALAR" && s != "VEC2" && s != "VEC3" && s != "VEC4" && s != "MAT4" ==> ComponentsOf(s) == None
    ensures FLOAT == 5126 && Unsigned(5121) && Unsigned(5123) && Unsigned(5125)
    ensures forall c :: Unsigned(c) ==> c == 5121 || c == 5123 || c == 5125
  {
  }

  /** An accessor is accepted exactly when it is placed, its shape is known, and its last element ends
      inside the view: at the view's stride, which holds an element, or one element behind the other. */
  lemma AcceptedIff(doc: Document, index: nat)
    ensures ResolveLayout(doc, index).Ok? <==>
      && Placed(doc, index) && ComponentsOf(doc.accessors[index].shape).Some?
      && var a := doc.accessors[index];
         var v := doc.views[a.bufferView.value];
         var width, room := ComponentSize(a.component.value) * ComponentsOf(a.shape).value, v.byteLength.value - a.byteOffset;
      && (v.byteStride > 0 ==> width <= v.byteStride && (a.count > 0 ==> v.byteStride * (a.count - 1) + width <= room))
      && (v.byteStride == 0 ==> (a.count > 0 ==> width * a.count <= room))
    ensures ResolveLayout(doc, index).Err? ==>
      (ResolveLayout(doc, index).error == BadBufferView <==>
        && index < |doc.accessors| && doc.accessors[index].component.Some? && doc.accessors[index].bufferView.Some?
        && ViewBytes(doc, doc.accessors[index].bufferView.value).Err?)
  {
  }

  /** The `width` little-endian bytes from byte `from` of the accessor on spell n. */
  predicate SpellsAt(doc: Document, index: nat, from: nat, width: nat, n: nat)
    requires Placed(doc, index)
  {
    var a := doc.accessors[index];
    var v := doc.views[a.bufferView.value];
    var at := v.byteOffset + a.byteOffset + from;
    && a.byteOffset + from + width <= v.byteLength.value
    && var b := doc.buffers[v.buffer][at..at + width];
    && (width == 1 ==> n == b[0])
    && (width == 2 ==> var b0: nat, b1: nat := b[0], b[1]; n == b0 + 256 * b1)
    && (width == 4 ==> var b0: nat, b1: nat, b2: nat, b3: nat := b[0], b[1], b[2], b[3]; n == b0 + 256 * b1 + 65536 * b2 + 16777216 * b3)
  }

  /** The same from byte `at` of its element i on. */
  predicate Spells(doc: Document, index: nat, step: nat, i: nat, at: nat, width: nat, n: nat)
    requires Placed(doc, index)
  {
    SpellsAt(doc, index, i * step + at, width, n)
  }

  function StepOf(doc: Document, index: nat, width: nat): nat
    requires Placed(doc, index)
  {
    var stride := doc.views[doc.accessors[index].bufferView.value].byteStride;
    if stride > 0 then stride else width
  }

  lemma StepIs(doc: Document, index: nat, width: nat)
    requires Placed(doc, index)
    ensures
      var stride := doc.views[doc.accessors[index].bufferView.value].byteStride;
      && (stride > 0 ==> StepOf(doc, index, width) == stride)
      && (stride == 0 ==> StepOf(doc, index, width) == width)
  {
  }

  // ----- Reading

  function ReadAt(bytes: seq<Byte>, at: nat, width: nat): Option<nat> {
    if at + width <= |bytes| then Some(FromLe(bytes[at..at + width])) else None
  }

  /** Where element i starts. */
  function Start(l: Layout, width: nat, i: nat): nat {
    i * StepFor(l.stride, width)
  }

  /** Every element of `width` bytes lies inside the view. */
  ghost predicate Inside(l: Layout, width: nat) {
    forall i :: 0 <= i < l.count ==> Start(l, width, i) + width <= |l.bytes|
  }

  lemma Monotone(i: nat, n: nat, step: nat)
    requires i <= n
    ensures i * step <= n * step
  {
    assert n * step == i * step + (n - i) * step;
  }

  lemma LastInside(doc: Document, index: nat, width: nat)
    requires ResolveLayout(doc, index).Ok? && ResolveLayout(doc, index).value.count > 0
    requires width == ComponentSize(doc.accessors[index].component.value) * ComponentsOf(doc.accessors[index].shape).value
    ensures var l := ResolveLayout(doc, index).value; Start(l, width, l.count - 1) + width <= |l.bytes|
  {
    var l := ResolveLayout(doc, index).value;
    if l.stride == 0 {
      assert width * l.count == (l.count - 1) * width + width;
    } else {
      assert l.stride * (l.count - 1) == (l.count - 1) * l.stride;
    }
  }

  /** An accepted accessor never reaches outside its view. */
  lemma AcceptedIsInside(doc: Document, index: nat, width: nat)
    requires ResolveLayout(doc, index).Ok?
    requires width == ComponentSize(doc.accessors[index].component.value) * ComponentsOf(doc.accessors[index].shape).value
    ensures Inside(ResolveLayout(doc, index).value, width)
  {
    var l := ResolveLayout(doc, index).value;
    if l.count > 0 {
      LastInside(doc, index, width);
      forall i | 0 <= i < l.count
        ensures Start(l, width, i) + width <= |l.bytes|
      {
        Monotone(i, l.count - 1, StepFor(l.stride, width));
      }
    }
  }

  /** The `components` four-byte numbers of element i; None when a read falls outside. */
  function Numbers(bytes: seq<Byte>, at: nat, components: nat): Option<seq<nat>> {
    if components == 0 then Some([]) else
    match Numbers(bytes, at, components - 1)
    case None => None
    case Some(before) =>
      match ReadAt(bytes, at + 4 * (components - 1), 4)
      case None => None
      case Some(n) => Some(before + [n])
  }

  /** Element i of a layout of vectors. */
  function VectorAt(l: Layout, components: nat, i: nat): Option<seq<nat>> {
    Numbers(l.bytes, Start(l, 4 * components, i), components)
  }

  ghost predicate AllVectors(l: Layout, components: nat, values: seq<seq<nat>>) {
    |values| == l.count && forall i :: 0 <= i < l.count ==> VectorAt(l, components, i) == Some(values[i])
  }

  /** No read of any element falls outside the view. */
  ghost predicate EveryVector(l: Layout, components: nat) {
    forall i: nat :: i < l.count ==> VectorAt(l, components, i).Some?
  }

  /** The loop of `read_vec3` and `read_vec2`. */
  method ReadVectors(l: Layout, components: nat) returns (r: Result<seq<seq<nat>>, AccessorError>)
    ensures r.Ok? ==> AllVectors(l, components, r.value)
    ensures r.Err? ==> r.error == BadAccessor && !EveryVector(l, components)
  {
    var step := StepFor(l.stride, 4 * components);
    var out := [];
    for i := 0 to l.count
      invariant |out| == i
      invariant forall j :: 0 <= j < i ==> VectorAt(l, components, j) == Some(out[j])
    {
      var v := Numbers(l.bytes, i * step, components);
      assert v == VectorAt(l, components, i);
      if v.None? {
        return Err(BadAccessor);
      }
      out := out + [v.value];
    }
    return Ok(out);
  }

  /** What the bytes of one element spell. */
  function Spelled(element: seq<Byte>, components: nat): seq<nat>
    requires |element| == 4 * components
  {
    if components == 0 then [] else
    Spelled(element[..4 * (components - 1)], components - 1) + [FromLe(element[4 * (components - 1)..])]
  }

  lemma {:induction false} NumbersAreSpelled(bytes: seq<Byte>, at: nat, components: nat)
    requires at + 4 * components <= |bytes|
    ensures Numbers(bytes, at, components) == Some(Spelled(bytes[at..at + 4 * components], components))
  {
    if components > 0 {
      NumbersAreSpelled(bytes, at, components - 1);
      var element := bytes[at..at + 4 * components];
      var k := 4 * (components - 1);
      assert element[..k] == bytes[at..at + k];
      assert element[k..] == bytes[at + k..at + k + 4];
    }
  }

  predicate HoldsAt(l: Layout, width: nat, i: nat, element: seq<Byte>) {
    var at := Start(l, width, i);
    |element| == width && at + width <= |l.bytes| && l.bytes[at..at + width] == element
  }

  /** The view holds these elements, one every step, whatever lies between. */
  ghost predicate Holds(l: Layout, width: nat, elements: seq<seq<Byte>>) {
    |elements| == l.count && forall i :: 0 <= i < |elements| ==> HoldsAt(l, width, i, elements[i])
  }

  /** The values are what these elements spell, in order. */
  ghost predicate SpellAll(values: seq<seq<nat>>, elements: seq<seq<Byte>>, components: nat) {
    && |values| == |elements|
    && forall i :: 0 <= i < |elements| ==> |elements[i]| == 4 * components && values[i] == Spelled(elements[i], components)
  }

  lemma VectorsTotal(doc: Document, index: nat, components: nat, i: nat)
    requires ResolveLayout(doc, index).Ok? && ComponentsOf(doc.accessors[index].shape) == Some(components)
    requires doc.accessors[index].component == Some(FLOAT)
    ensures i < ResolveLayout(doc, index).value.count ==> VectorAt(ResolveLayout(doc, index).value, components, i).Some?
  {
    var l := ResolveLayout(doc, index).value;
    AcceptedIsInside(doc, index, 4 * components);
    if i < l.count { NumbersAreSpelled(l.bytes, Start(l, 4 * components, i), components); }
  }

  lemma VectorsSpell(l: Layout, components: nat, values: seq<seq<nat>>, elements: seq<seq<Byte>>)
    requires AllVectors(l, components, values) && Holds(l, 4 * components, elements)
    ensures SpellAll(values, elements, components)
  {
    forall i | 0 <= i < |elements|
      ensures |elements[i]| == 4 * components && values[i] == Spelled(elements[i], components)
    {
      assert HoldsAt(l, 4 * components, i, elements[i]);
      NumbersAreSpelled(l.bytes, Start(l, 4 * components, i), components);
    }
  }

  /** Numbers of one, two and four bytes. */
  lemma LeIs(b: seq<Byte>)
    ensures |b| == 1 ==> FromLe(b) == b[0]
    ensures |b| == 2 ==> var b0: nat, b1: nat := b[0], b[1]; FromLe(b) == b0 + 256 * b1
    ensures |b| == 4 ==> var b0: nat, b1: nat, b2: nat, b3: nat := b[0], b[1], b[2], b[3]; FromLe(b) == b0 + 256 * b1 + 65536 * b2 + 16777216 * b3
  {
    if |b| == 4 {
      U32IsFromLe(b, 0);
      assert b[0..4] == b;
    } else if |b| == 2 {
      assert b[1..][1..] == [] && FromLe(b[1..]) == b[1];
    } else if |b| == 1 {
      assert b[1..] == [];
    }
  }

  lemma ReadIsSpelled(doc: Document, index: nat, width: nat, from: nat, n: nat)
    requires ResolveLayout(doc, index).Ok? && (width == 1 || width == 2 || width == 4)
    requires ReadAt(ResolveLayout(doc, index).value.bytes, from, width) == Some(n)
    ensures Placed(doc, index) && SpellsAt(doc, index, from, width, n)
  {
    LayoutBytes(doc, index);
    var l := ResolveLayout(doc, index).value;
    var a := doc.accessors[index];
    var v := doc.views[a.bufferView.value];
    Window(l.bytes, doc.buffers[v.buffer], v.byteOffset + a.byteOffset, from, width);
    LeIs(l.bytes[from..from + width]);
  }

  /** A stretch of a stretch. */
  lemma Window(bytes: seq<Byte>, buffer: seq<Byte>, offset: nat, from: nat, width: nat)
    requires offset + |bytes| <= |buffer| && forall k :: 0 <= k < |bytes| ==> bytes[k] == buffer[offset + k]
    requires from + width <= |bytes|
    ensures bytes[from..from + width] == buffer[offset + from..offset + from + width]
  {
    var a, b := bytes[from..from + width], buffer[offset + from..offset + from + width];
    forall k | 0 <= k < width ensures a[k] == b[k] {
      assert a[k] == bytes[from + k] && b[k] == buffer[offset + (from + k)];
    }
  }

  lemma {:induction false} NumberAt(bytes: seq<Byte>, at: nat, components: nat, c: nat)
    requires Numbers(bytes, at, components).Some? && c < components
    ensures |Numbers(bytes, at, components).value| == components
    ensures ReadAt(bytes, at + 4 * c, 4) == Some(Numbers(bytes, at, components).value[c])
  {
    if c < components - 1 {
      NumberAt(bytes, at, components - 1, c);
    } else {
      NumbersCount(bytes, at, components - 1);
    }
  }

  lemma {:induction false} NumbersCount(bytes: seq<Byte>, at: nat, components: nat)
    requires Numbers(bytes, at, components).Some?
    ensures |Numbers(bytes, at, components).value| == components
  {
    if components > 0 { NumbersCount(bytes, at, components - 1); }
  }

  /** Number c of every element i is what the buffer's four bytes at its place spell. */
  ghost predicate SpellsVectors(doc: Document, index: nat, components: nat, values: seq<seq<nat>>)
    requires Placed(doc, index)
  {
    && |values| == doc.accessors[index].count
    && (forall i :: 0 <= i < |values| ==> |values[i]| == components)
    && forall i: nat, c: nat :: i < |values| && c < components ==>
         Spells(doc, index, StepOf(doc, index, 4 * components), i, 4 * c, 4, values[i][c])
  }

  lemma VectorsFromBuffer(doc: Document, index: nat, components: nat, values: seq<seq<nat>>)
    requires ResolveLayout(doc, index).Ok? && components > 0 && AllVectors(ResolveLayout(doc, index).value, components, values)
    ensures Placed(doc, index) && SpellsVectors(doc, index, components, values)
  {
    LayoutBytes(doc, index);
    var l := ResolveLayout(doc, index).value;
    var step := StepFor(l.stride, 4 * components);
    assert step == StepOf(doc, index, 4 * components);
    forall i: nat | i < |values| ensures |values[i]| == components {
      assert VectorAt(l, components, i) == Some(values[i]);
      NumbersCount(l.bytes, i * step, components);
    }
    forall i: nat, c: nat | i < |values| && c < components ensures Spells(doc, index, step, i, 4 * c, 4, values[i][c]) {
      assert VectorAt(l, components, i) == Some(values[i]);
      NumberAt(l.bytes, i * step, components, c);
      ReadIsSpelled(doc, index, 4, i * step + 4 * c, values[i][c]);
    }
  }

  /** `read_vec3`: total on every accepted FLOAT VEC3 accessor, and dependent on the elements alone. */
  method ReadVec3(doc: Document, index: nat) returns (r: Result<seq<seq<nat>>, AccessorError>)
    ensures ResolveLayout(doc, index).Err? ==> r == Err(ResolveLayout(doc, index).error)
    ensures r.Ok? ==> Placed(doc, index) && doc.accessors[index].component == Some(5126) && SpellsVectors(doc, index, 3, r.value)
    ensures ResolveLayout(doc, index).Ok? ==>
      var l := ResolveLayout(doc, index).value;
      && (r.Ok? <==> l.component == FLOAT && !l.normalized && EveryVector(l, 3))
      && (if r.Ok? then AllVectors(l, 3, r.value) else r.error == BadAccessor)
      && (doc.accessors[index].shape == "VEC3" && l.component == FLOAT && !l.normalized ==> r.Ok?)
      && (forall elements :: r.Ok? && Holds(l, 12, elements) ==> SpellAll(r.value, elements, 3))
  {
    var resolved := ResolveLayout(doc, index);
    if resolved.Err? {
      return Err(resolved.error);
    }
    var l := resolved.value;
    if l.component != FLOAT {
      return Err(BadAccessor);
    }
    r := ReadVectors(l, 3);
    if r.Ok? { VectorsFromBuffer(doc, index, 3, r.value); }
    LayoutBytes(doc, index);
    if doc.accessors[index].shape == "VEC3" {
      forall i: nat { VectorsTotal(doc, index, 3, i); }
    }
    forall elements | r.Ok? && Holds(l, 12, elements) { VectorsSpell(l, 3, r.value, elements); }
    if r.Ok? && l.normalized {
      r := Err(BadAccessor);
    }
  }

  /** `read_vec2` does not look at the normalized flag. */
  method ReadVec2(doc: Document, index: nat) returns (r: Result<seq<seq<nat>>, AccessorError>)
    ensures ResolveLayout(doc, index).Err? ==> r == Err(ResolveLayout(doc, index).error)
    ensures r.Ok? ==> Placed(doc, index) && doc.accessors[index].component == Some(5126) && SpellsVectors(doc, index, 2, r.value)
    ensures ResolveLayout(doc, index).Ok? ==>
      var l := ResolveLayout(doc, index).value;
      && (r.Ok? <==> l.component == FLOAT && EveryVector(l, 2))
      && (if r.Ok? then AllVectors(l, 2, r.value) else r.error == BadAccessor)
      && (doc.accessors[index].shape == "VEC2" && l.component == FLOAT ==> r.Ok?)
      && (forall elements :: r.Ok? && Holds(l, 8, elements) ==> SpellAll(r.value, elements, 2))
  {
    var resolved := ResolveLayout(doc, index);
    if resolved.Err? {
      return Err(resolved.error);
    }
    var l := resolved.value;
    if l.component != FLOAT {
      return Err(BadAccessor);
    }
    r := ReadVectors(l, 2);
    if r.Ok? { VectorsFromBuffer(doc, index, 2, r.value); }
    LayoutBytes(doc, index);
    if doc.accessors[index].shape == "VEC2" {
      forall i: nat { VectorsTotal(doc, index, 2, i); }
    }
    forall elements | r.Ok? && Holds(l, 8, elements) { VectorsSpell(l, 2, r.value, elements); }
  }

  predicate Unsigned(component: nat) {
    component == UNSIGNED_BYTE || component == UNSIGNED_SHORT || component == UNSIGNED_INT
  }

  function IndexAt(l: Layout, i: nat): Option<nat> {
    ReadAt(l.bytes, Start(l, ComponentSize(l.component), i), ComponentSize(l.component))
  }

  lemma IndicesSpell(l: Layout, values: seq<nat>, elements: seq<seq<Byte>>)
    requires |values| == l.count && forall i :: 0 <= i < l.count ==> IndexAt(l, i) == Some(values[i])
    requires Holds(l, ComponentSize(l.component), elements)
    ensures forall i :: 0 <= i < l.count ==> values[i] == FromLe(elements[i])
  {
    forall i | 0 <= i < l.count ensures values[i] == FromLe(elements[i]) {
      assert HoldsAt(l, ComponentSize(l.component), i, elements[i]);
    }
  }

  /** One byte for 5121, two for 5123, four for 5125. */
  predicate IndexWidth(component: nat, width: nat) {
    (component == 5121 && width == 1) || (component == 5123 && width == 2) || (component == 5125 && width == 4)
  }

  /** Index i is what the buffer's bytes at its place spell. */
  ghost predicate SpellsIndices(doc: Document, index: nat, values: seq<nat>)
    requires Placed(doc, index)
  {
    && |values| == doc.accessors[index].count
    && exists width ::
         && IndexWidth(doc.accessors[index].component.value, width)
         && forall i: nat :: i < |values| ==> Spells(doc, index, StepOf(doc, index, width), i, 0, width, values[i])
  }

  lemma IndicesFromBuffer(doc: Document, index: nat, values: seq<nat>)
    requires ResolveLayout(doc, index).Ok? && Unsigned(ResolveLayout(doc, index).value.component)
    requires |values| == ResolveLayout(doc, index).value.count
    requires forall i :: 0 <= i < |values| ==> IndexAt(ResolveLayout(doc, index).value, i) == Some(values[i])
    ensures Placed(doc, index) && SpellsIndices(doc, index, values)
  {
    LayoutBytes(doc, index);
    var l := ResolveLayout(doc, index).value;
    var width := ComponentSize(l.component);
    var step := StepFor(l.stride, width);
    assert IndexWidth(doc.accessors[index].component.value, width) && step == StepOf(doc, index, width);
    forall i: nat | i < |values| ensures Spells(doc, index, step, i, 0, width, values[i]) {
      assert IndexAt(l, i) == Some(values[i]);
      ReadIsSpelled(doc, index, width, i * step + 0, values[i]);
    }
  }

  /** `read_indices`: the width follows the component type; anything else is refused. */
  method ReadIndices(doc: Document, index: nat) returns (r: Result<seq<nat>, AccessorError>)
    ensures ResolveLayout(doc, index).Err? ==> r == Err(ResolveLayout(doc, index).error)
    ensures r.Ok? ==> Placed(doc, index) && SpellsIndices(doc, index, r.value)
    ensures ResolveLayout(doc, index).Ok? ==>
      var l := ResolveLayout(doc, index).value;
      && (r.Ok? <==> Unsigned(l.component) && forall i: nat :: i < l.count ==> IndexAt(l, i).Some?)
      && (r.Err? ==> r.error == BadBufferView)
      && (r.Ok? ==> |r.value| == l.count && forall i :: 0 <= i < l.count ==> IndexAt(l, i) == Some(r.value[i]))
      && (doc.accessors[index].shape == "SCALAR" && Unsigned(l.component) ==> r.Ok?)
      && (forall elements :: r.Ok? && Holds(l, ComponentSize(l.component), elements) ==>
            forall i :: 0 <= i < l.count ==> r.value[i] == FromLe(elements[i]))
  {
    var resolved := ResolveLayout(doc, index);
    if resolved.Err? {
      return Err(resolved.error);
    }
    var l := resolved.value;
    if !Unsigned(l.component) {
      return Err(BadBufferView);
    }
    var width := if l.component == UNSIGNED_BYTE then 1 else if l.component == UNSIGNED_SHORT then 2 else 4;
    var step := StepFor(l.stride, width);
    if doc.accessors[index].shape == "SCALAR" { AcceptedIsInside(doc, index, width); }
    var out := [];
    for i := 0 to l.count
      invariant |out| == i
      invariant forall j :: 0 <= j < i ==> IndexAt(l, j) == Some(out[j])
    {
      var v := ReadAt(l.bytes, i * step, width);
      assert v == IndexAt(l, i);
      if v.None? {
        assert !Inside(l, width) by { assert Start(l, width, i) == i * step; }
        return Err(BadBufferView);
      }
      out := out + [v.value];
    }
    forall elements | Holds(l, width, elements) { IndicesSpell(l, out, elements); }
    IndicesFromBuffer(doc, index, out);
    return Ok(out);
  }

  // ----- Interleaved and packed encodings of the same elements

  /** Elements one after the other, each followed by its own gap. */
  function Interleave(elements: seq<seq<Byte>>, gaps: seq<seq<Byte>>): seq<Byte>
    requires |gaps| == |elements|
  {
    if elements == [] then [] else elements[0] + gaps[0] + Interleave(elements[1..], gaps[1..])
  }

  /** Every element but the last is followed by a gap that brings it to one step. */
  ghost predicate Spaced(elements: seq<seq<Byte>>, gaps: seq<seq<Byte>>, width: nat, step: nat) {
    && |gaps| == |elements|
    && (forall k :: 0 <= k < |elements| ==> |elements[k]| == width)
    && (forall k :: 0 <= k < |elements| - 1 ==> width + |gaps[k]| == step)
  }

  lemma InterleaveStep(elements: seq<seq<Byte>>, gaps: seq<seq<Byte>>, rest: seq<Byte>, step: nat)
    requires |gaps| == |elements| > 0
    ensures
      var bytes, later := Interleave(elements, gaps) + rest, Interleave(elements[1..], gaps[1..]) + rest;
      && |bytes| == |elements[0]| + |gaps[0]| + |later| && bytes[..|elements[0]|] == elements[0]
      && (|elements[0]| + |gaps[0]| == step ==> bytes[step..] == later)
  {
    var later := Interleave(elements[1..], gaps[1..]) + rest;
    assert Interleave(elements, gaps) + rest == elements[0] + gaps[0] + later;
  }

  /** Any interleaving, the packed one included, holds its elements at its own step. */
  lemma {:induction false} InterleaveHolds(elements: seq<seq<Byte>>, gaps: seq<seq<Byte>>, rest: seq<Byte>, width: nat, step: nat, i: nat, at: nat)
    requires |gaps| == |elements| && i < |elements| && at == i * step
    requires Spaced(elements, gaps, width, step)
    ensures
      var bytes := Interleave(elements, gaps) + rest;
      at + width <= |bytes| && bytes[at..at + width] == elements[i]
    decreases i
  {
    InterleaveStep(elements, gaps, rest, step);
    if i > 0 {
      Monotone(1, i, step);
      OneLess(i, step);
      InterleaveHolds(elements[1..], gaps[1..], rest, width, step, i - 1, at - step);
      Shifted(Interleave(elements, gaps) + rest, Interleave(elements[1..], gaps[1..]) + rest, step, at, width);
    }
  }

  lemma OneLess(i: nat, step: nat)
    requires i > 0
    ensures (i - 1) * step == i * step - step
  {
  }

  lemma Shifted(bytes: seq<Byte>, later: seq<Byte>, step: nat, at: nat, width: nat)
    requires step <= |bytes| && bytes[step..] == later && step <= at && at - step + width <= |later|
    ensures at + width <= |bytes| && bytes[at..at + width] == later[at - step..at - step + width]
  {
    var a, b := bytes[at..at + width], later[at - step..at - step + width];
    forall k | 0 <= k < width ensures a[k] == b[k] {
      assert bytes[step..][at - step + k] == bytes[at + k];
    }
  }

  /** A layout over an interleaved view, or over a packed one when every gap is empty. */
  lemma LayoutHolds(l: Layout, elements: seq<seq<Byte>>, gaps: seq<seq<Byte>>, rest: seq<Byte>, width: nat)
    requires |gaps| == |elements| == l.count && l.bytes == Interleave(elements, gaps) + rest
    requires Spaced(elements, gaps, width, StepFor(l.stride, width))
    ensures Holds(l, width, elements)
  {
    forall i | 0 <= i < |elements| ensures HoldsAt(l, width, i, elements[i]) {
      InterleaveHolds(elements, gaps, rest, width, StepFor(l.stride, width), i, Start(l, width, i));
    }
  }

  /** The accessor describes an interleaving of these elements: at the view's stride, or packed,
      every gap but the last empty, when the view has none. */
  ghost predicate Encodes(doc: Document, index: nat, component: nat, shape: string, elements: seq<seq<Byte>>, gaps: seq<seq<Byte>>, rest: seq<Byte>) {
    && index < |doc.accessors| && ComponentsOf(shape).Some?
    && var a := doc.accessors[index];
       var width := ComponentSize(component) * ComponentsOf(shape).value;
    && a.component == Some(component) && a.shape == shape && a.count == |elements| == |gaps|
    && Placed(doc, index)
    && var v := doc.views[a.bufferView.value];
       var stride := v.byteStride;
    && doc.buffers[v.buffer][v.byteOffset + a.byteOffset..v.byteOffset + v.byteLength.value] == Interleave(elements, gaps) + rest
    && (stride > 0 ==> stride >= width)
    && Spaced(elements, gaps, width, StepFor(stride, width))
  }

  lemma PlacedBytes(doc: Document, index: nat)
    requires Placed(doc, index)
    ensures
      var a := doc.accessors[index];
      var v := doc.views[a.bufferView.value];
      && ViewBytes(doc, a.bufferView.value).Ok?
      && a.byteOffset <= |ViewBytes(doc, a.bufferView.value).value|
      && ViewBytes(doc, a.bufferView.value).value[a.byteOffset..] ==
           doc.buffers[v.buffer][v.byteOffset + a.byteOffset..v.byteOffset + v.byteLength.value]
  {
  }

  /** Every such accessor is accepted, and its layout holds the elements. */
  lemma EncodedIsAccepted(doc: Document, index: nat, component: nat, shape: string, elements: seq<seq<Byte>>, gaps: seq<seq<Byte>>, rest: seq<Byte>)
    requires Encodes(doc, index, component, shape, elements, gaps, rest)
    ensures ResolveLayout(doc, index).Ok?
    ensures
      var l := ResolveLayout(doc, index).value;
      && l.component == component && l.normalized == doc.accessors[index].normalized
      && Holds(l, ComponentSize(component) * ComponentsOf(shape).value, elements)
  {
    var width := ComponentSize(component) * ComponentsOf(shape).value;
    var stride := doc.views[doc.accessors[index].bufferView.value].byteStride;
    LastFits(elements, gaps, rest, width, StepFor(stride, width));
    PlacedBytes(doc, index);
    LayoutOf(doc, index, width, Interleave(elements, gaps) + rest);
    LayoutHolds(ResolveLayout(doc, index).value, elements, gaps, rest, width);
  }

  /** The two ways the loader computes where the last element ends. */
  lemma LastFits(elements: seq<seq<Byte>>, gaps: seq<seq<Byte>>, rest: seq<Byte>, width: nat, step: nat)
    requires |gaps| == |elements| && Spaced(elements, gaps, width, step)
    ensures
      var n, size := |elements|, |Interleave(elements, gaps) + rest|;
      n > 0 ==> step * (n - 1) + width <= size && (step == width ==> width * n <= size)
  {
    var n := |elements|;
    if n > 0 {
      InterleaveHolds(elements, gaps, rest, width, step, n - 1, (n - 1) * step);
      Products(n, step, width);
    }
  }

  lemma Products(n: nat, step: nat, width: nat)
    requires n > 0
    ensures step * (n - 1) == (n - 1) * step
    ensures step == width ==> width * n == (n - 1) * step + width
  {
  }

  lemma LayoutOf(doc: Document, index: nat, width: nat, bytes: seq<Byte>)
    requires index < |doc.accessors| && doc.accessors[index].component.Some? && doc.accessors[index].bufferView.Some?
    requires ComponentsOf(doc.accessors[index].shape).Some?
    requires width == ComponentSize(doc.accessors[index].component.value) * ComponentsOf(doc.accessors[index].shape).value
    requires ViewBytes(doc, doc.accessors[index].bufferView.value).Ok?
    requires
      var a := doc.accessors[index];
      var view, stride := ViewBytes(doc, a.bufferView.value).value, doc.views[a.bufferView.value].byteStride;
      && a.byteOffset <= |view| && view[a.byteOffset..] == bytes && (stride > 0 ==> stride >= width)
      && (a.count > 0 ==>
            var step := StepFor(stride, width);
            step * (a.count - 1) + width <= |bytes| && (step == width ==> width * a.count <= |bytes|))
    ensures
      var a := doc.accessors[index];
      ResolveLayout(doc, index) == Ok(Layout(bytes, a.count, a.component.value, a.normalized, doc.views[a.bufferView.value].byteStride))
  {
  }

  /** Two accessors over the same elements, laid out in any two ways, interleaved or packed, are
      both accepted and read back as the numbers the elements spell. */
  method ReadBothVec3(doc: Document, index: nat, doc': Document, index': nat,
      ghost elements: seq<seq<Byte>>, ghost gaps: seq<seq<Byte>>, ghost rest: seq<Byte>, ghost gaps': seq<seq<Byte>>, ghost rest': seq<Byte>)
      returns (a: Result<seq<seq<nat>>, AccessorError>, b: Result<seq<seq<nat>>, AccessorError>)
    requires Encodes(doc, index, FLOAT, "VEC3", elements, gaps, rest) && !doc.accessors[index].normalized
    requires Encodes(doc', index', FLOAT, "VEC3", elements, gaps', rest') && !doc'.accessors[index'].normalized
    ensures a == b && a.Ok? && SpellAll(a.value, elements, 3)
  {
    EncodedIsAccepted(doc, index, FLOAT, "VEC3", elements, gaps, rest);
    EncodedIsAccepted(doc', index', FLOAT, "VEC3", elements, gaps', rest');
    a := ReadVec3(doc, index);
    b := ReadVec3(doc', index');
    assert a.value == b.value;
  }

  method ReadBothVec2(doc: Document, index: nat, doc': Document, index': nat,
      ghost elements: seq<seq<Byte>>, ghost gaps: seq<seq<Byte>>, ghost rest: seq<Byte>, ghost gaps': seq<seq<Byte>>, ghost rest': seq<Byte>)
      returns (a: Result<seq<seq<nat>>, AccessorError>, b: Result<seq<seq<nat>>, AccessorError>)
    requires Encodes(doc, index, FLOAT, "VEC2", elements, gaps, rest) && Encodes(doc', index', FLOAT, "VEC2", elements, gaps', rest')
    ensures a == b && a.Ok? && SpellAll(a.value, elements, 2)
  {
    EncodedIsAccepted(doc, index, FLOAT, "VEC2", elements, gaps, rest);
    EncodedIsAccepted(doc', index', FLOAT, "VEC2", elements, gaps', rest');
    a := ReadVec2(doc, index);
    b := ReadVec2(doc', index');
    assert a.value == b.value;
  }

  /** Indices of any unsigned width. */
  method ReadBothIndices(doc: Document, index: nat, doc': Document, index': nat, component: nat,
      ghost elements: seq<seq<Byte>>, ghost gaps: seq<seq<Byte>>, ghost rest: seq<Byte>, ghost gaps': seq<seq<Byte>>, ghost rest': seq<Byte>)
      returns (a: Result<seq<nat>, AccessorError>, b: Result<seq<nat>, AccessorError>)
    requires Unsigned(component)
    requires Encodes(doc, index, component, "SCALAR", elements, gaps, rest)
    requires Encodes(doc', index', component, "SCALAR", elements, gaps', rest')
    ensures a == b && a.Ok? && |a.value| == |elements|
    ensures forall i :: 0 <= i < |elements| ==> a.value[i] == FromLe(elements[i])
  {
    EncodedIsAccepted(doc, index, component, "SCALAR", elements, gaps, rest);
    EncodedIsAccepted(doc', index', component, "SCALAR", elements, gaps', rest');
    a := ReadIndices(doc, index);
    b := ReadIndices(doc', index');
    assert a.value == b.value;
  }
}
