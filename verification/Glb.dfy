/** Splitting a glTF container into its JSON and its binary chunk. */
module Glb {
  import opened Basics
  import opened Bytes

  datatype SplitError = NotGltf

  /** The JSON and, when there is one, the binary payload. */
  datatype Parts = Parts(json: seq<Byte>, bin: Option<seq<Byte>>)

  const MAGIC: seq<Byte> := ['g' as int, 'l' as int, 'T' as int, 'F' as int]
  const JSON: seq<Byte> := ['J' as int, 'S' as int, 'O' as int, 'N' as int]
  const BIN: seq<Byte> := ['B' as int, 'I' as int, 'N' as int, 0]

  function Aligned(length: nat): (r: nat)
    ensures length <= r < length + 4
  {
    (length + 3) / 4 * 4
  }

  // ----- The walk over the chunks

  datatype Piece = Piece(kind: seq<Byte>, payload: seq<Byte>)

  /** The chunks from `offset` on, which may already be past the end; None when one claims more than
      there is. */
  function Walk(bytes: seq<Byte>, offset: nat): Option<seq<Piece>>
    decreases |bytes| - offset
  {
    if offset + 8 > |bytes| then Some([]) else
    var length := U32(bytes, offset);
    var end := offset + 8 + length;
    if end > |bytes| then None else
    Behind([Piece(bytes[offset + 4..offset + 8], bytes[offset + 8..end])], Walk(bytes, offset + 8 + Aligned(length)))
  }

  function Behind(before: seq<Piece>, after: Option<seq<Piece>>): Option<seq<Piece>> {
    if after.Some? then Some(before + after.value) else None
  }

  lemma BehindBoth(a: seq<Piece>, b: seq<Piece>, after: Option<seq<Piece>>)
    ensures Behind(a, Behind(b, after)) == Behind(a + b, after)
    ensures Behind([], after) == after
  {
    if after.Some? {
      assert a + (b + after.value) == a + b + after.value;
      assert [] + after.value == after.value;
    }
  }

  /** What has been kept so far: a later chunk of a kind replaces an earlier one. */
  datatype Kept = Kept(json: Option<seq<Byte>>, bin: Option<seq<Byte>>)

  function Keep(k: Kept, p: Piece): Kept {
    if p.kind == JSON then k.(json := Some(p.payload))
    else if p.kind == BIN then k.(bin := Some(p.payload))
    else k
  }

  function KeepAll(pieces: seq<Piece>): Kept {
    if pieces == [] then Kept(None, None) else Keep(KeepAll(pieces[..|pieces| - 1]), pieces[|pieces| - 1])
  }

  lemma KeepOne(pieces: seq<Piece>, p: Piece)
    ensures KeepAll(pieces + [p]) == Keep(KeepAll(pieces), p)
  {
    assert (pieces + [p])[..|pieces|] == pieces;
  }

  function Finish(pieces: Option<seq<Piece>>): Result<Parts, SplitError> {
    if pieces.Some? && KeepAll(pieces.value).json.Some?
    then Ok(Parts(KeepAll(pieces.value).json.value, KeepAll(pieces.value).bin)) else Err(NotGltf)
  }

  predicate IsGlb(bytes: seq<Byte>) {
    |bytes| >= 12 && bytes[..4] == MAGIC
  }

  /** The chunk that an accepted body has at `offset`. */
  function PieceAt(bytes: seq<Byte>, offset: nat): Piece
    requires offset + 8 <= |bytes| && offset + 8 + U32(bytes, offset) <= |bytes|
  {
    Piece(bytes[offset + 4..offset + 8], bytes[offset + 8..offset + 8 + U32(bytes, offset)])
  }

  lemma WalkOn(bytes: seq<Byte>, offset: nat, next: nat)
    requires offset + 8 <= |bytes| && offset + 8 + U32(bytes, offset) <= |bytes|
    requires next == offset + 8 + Aligned(U32(bytes, offset))
    ensures Walk(bytes, offset) == Behind([PieceAt(bytes, offset)], Walk(bytes, next))
  {
  }

  /** One turn of the loop; None when the chunk claims more than there is. */
  method ReadChunk(bytes: seq<Byte>, offset: nat) returns (p: Option<Piece>, next: nat)
    requires offset + 8 <= |bytes|
    ensures p.None? ==> Walk(bytes, offset).None?
    ensures p.Some? ==> next > offset && Walk(bytes, offset) == Behind([p.value], Walk(bytes, next))
  {
    var length := U32(bytes, offset);
    var start := offset + 8;
    var end := start + length;
    if end > |bytes| {
      return None, offset;
    }
    next := start + Aligned(length);
    WalkOn(bytes, offset, next);
    p := Some(Piece(bytes[offset + 4..offset + 8], bytes[start..end]));
  }

  method KeepChunk(json: Option<seq<Byte>>, bin: Option<seq<Byte>>, p: Piece)
    returns (json': Option<seq<Byte>>, bin': Option<seq<Byte>>)
    ensures Kept(json', bin') == Keep(Kept(json, bin), p)
  {
    json', bin' := json, bin;
    if p.kind == JSON {
      json' := Some(p.payload);
    } else if p.kind == BIN {
      bin' := Some(p.payload);
    }
  }

  /** The loop over the chunks behind the twelve header bytes. */
  method WalkChunks(bytes: seq<Byte>) returns (r: Result<Parts, SplitError>)
    requires IsGlb(bytes)
    ensures r == Finish(Walk(bytes, 12))
  {
    var offset := 12;
    var json: Option<seq<Byte>>, bin: Option<seq<Byte>> := None, None;
    ghost var done: seq<Piece> := [];
    BehindBoth([], [], Walk(bytes, offset));
    while offset + 8 <= |bytes|
      invariant Kept(json, bin) == KeepAll(done)
      invariant Walk(bytes, 12) == Behind(done, Walk(bytes, offset))
      decreases |bytes| - offset
    {
      var p, next := ReadChunk(bytes, offset);
      if p.None? {
        return Err(NotGltf);
      }
      BehindBoth(done, [p.value], Walk(bytes, next));
      KeepOne(done, p.value);
      json, bin := KeepChunk(json, bin, p.value);
      done := done + [p.value];
      offset := next;
    }
    assert done + [] == done;
    r := if json.Some? then Ok(Parts(json.value, bin)) else Err(NotGltf);
  }

  /** Whatever is not such a container comes back as it is; the rest is the walk over its chunks. */
  method SplitContainer(bytes: seq<Byte>) returns (r: Result<Parts, SplitError>)
    ensures |bytes| < 12 || bytes[..4] != [0x67, 0x6C, 0x54, 0x46] ==> r == Ok(Parts(bytes, None))
    ensures |bytes| >= 12 && bytes[..4] == [0x67, 0x6C, 0x54, 0x46] ==> r == Finish(Walk(bytes, 12))
    ensures forall version: seq<Byte>, length: seq<Byte>, chunks: seq<Chunk>, tail: seq<Byte> ::
      Container(bytes, version, length, chunks, tail) ==>
      r == match LastOf(chunks, [0x4A, 0x53, 0x4F, 0x4E])
           case None => Err(NotGltf)
           case Some(json) => Ok(Parts(json, LastOf(chunks, [0x42, 0x49, 0x4E, 0x00])))
  {
    assert MAGIC == [0x67, 0x6C, 0x54, 0x46] && JSON == [0x4A, 0x53, 0x4F, 0x4E] && BIN == [0x42, 0x49, 0x4E, 0x00];
    forall version: seq<Byte>, length: seq<Byte>, chunks: seq<Chunk>, tail: seq<Byte>
      | Container(bytes, version, length, chunks, tail)
      ensures IsGlb(bytes) && Walk(bytes, 12) == Some(Pieces(chunks))
      ensures KeepAll(Pieces(chunks)) == Kept(LastOf(chunks, JSON), LastOf(chunks, BIN))
    {
      ContainerIsWalked(bytes, version, length, chunks, tail);
      KeepAllIsLast(chunks);
    }
    if !(|bytes| >= 12 && bytes[..4] == MAGIC) {
      return Ok(Parts(bytes, None));
    }
    r := WalkChunks(bytes);
  }

  lemma ContainerIsWalked(bytes: seq<Byte>, version: seq<Byte>, length: seq<Byte>, chunks: seq<Chunk>, tail: seq<Byte>)
    requires Container(bytes, version, length, chunks, tail)
    ensures IsGlb(bytes) && Walk(bytes, 12) == Some(Pieces(chunks))
  {
    var head: seq<Byte> := [0x67, 0x6C, 0x54, 0x46] + version + length;
    var body := Serialize(chunks) + tail;
    assert bytes == head + body;
    assert bytes[..4] == [0x67, 0x6C, 0x54, 0x46] && bytes[12..] == body;
    assert MAGIC == [0x67, 0x6C, 0x54, 0x46];
    forall c | c in chunks ensures ChunkOk(c) { WellFormedIsOk(c); }
    Lay(bytes, 12, chunks, tail);
    WalkSerialized(bytes, 12, chunks);
  }

  // ----- Containers as section 4.4 of the glTF 2.0 specification writes them

  /** A chunk: the four bytes of its size field, its type, its payload, and the bytes that bring it to
      the next multiple of four. */
  datatype Chunk = Chunk(size: seq<Byte>, kind: seq<Byte>, payload: seq<Byte>, padding: seq<Byte>)

  predicate ChunkOk(c: Chunk) {
    && |c.size| == 4 && |c.kind| == 4 && U32(c.size, 0) == |c.payload|
    && |c.payload| + |c.padding| == Aligned(|c.payload|)
  }

  /** The size field is the little-endian length, and no other four bytes are. */
  lemma SizeField(c: Chunk)
    requires |c.size| == 4 && |c.kind| == 4 && |c.payload| + |c.padding| == Aligned(|c.payload|)
    ensures ChunkOk(c) <==> |c.payload| < Weight(4) && c.size == ToLe(|c.payload|, 4)
  {
    U32IsFromLe(c.size, 0);
    assert c.size[0..4] == c.size;
    ToLeFromLe(c.size);
  }

  /** A chunk as the specification has it: its length in four little-endian bytes, four bytes of type, and up
      to three bytes more to a multiple of four. */
  predicate WellFormed(c: Chunk) {
    && |c.size| == 4 && |c.kind| == 4
    && (var b0: nat, b1: nat, b2: nat, b3: nat := c.size[0], c.size[1], c.size[2], c.size[3];
        |c.payload| == b0 + 256 * b1 + 65536 * b2 + 16777216 * b3)
    && |c.padding| < 4 && (|c.payload| + |c.padding|) % 4 == 0
  }

  /** That is all the walk relies on, and no less. */
  lemma WellFormedIsOk(c: Chunk)
    ensures WellFormed(c) <==> ChunkOk(c)
  {
    AlignedIs(|c.payload|, |c.padding|);
  }

  lemma AlignedIs(length: nat, more: nat)
    ensures length + more == Aligned(length) <==> more < 4 && (length + more) % 4 == 0
  {
  }

  /** Twelve header bytes, of which the first four say "glTF", the chunks, and fewer than eight bytes more. */
  ghost predicate Container(bytes: seq<Byte>, version: seq<Byte>, length: seq<Byte>, chunks: seq<Chunk>, tail: seq<Byte>) {
    && |version| == 4 && |length| == 4 && |tail| < 8 && (forall c :: c in chunks ==> WellFormed(c))
    && bytes == [0x67, 0x6C, 0x54, 0x46] + version + length + Serialize(chunks) + tail
  }

  function SerializeChunk(c: Chunk): seq<Byte> {
    c.size + c.kind + c.payload + c.padding
  }

  function Serialize(chunks: seq<Chunk>): seq<Byte> {
    if chunks == [] then [] else SerializeChunk(chunks[0]) + Serialize(chunks[1..])
  }

  function Pieces(chunks: seq<Chunk>): seq<Piece> {
    if chunks == [] then [] else [Piece(chunks[0].kind, chunks[0].payload)] + Pieces(chunks[1..])
  }

  /** The chunks stand in the bytes one after the other from `at` on, with fewer than eight bytes left. */
  ghost predicate Laid(bytes: seq<Byte>, at: nat, chunks: seq<Chunk>)
    decreases |chunks|
  {
    if chunks == [] then at <= |bytes| < at + 8 else
    var end := at + |SerializeChunk(chunks[0])|;
    end <= |bytes| && bytes[at..end] == SerializeChunk(chunks[0]) && Laid(bytes, end, chunks[1..])
  }

  lemma HeadAndRest(bytes: seq<Byte>, at: nat, first: seq<Byte>, rest: seq<Byte>)
    requires at <= |bytes| && bytes[at..] == first + rest
    ensures at + |first| <= |bytes| && bytes[at..at + |first|] == first && bytes[at + |first|..] == rest
  {
    assert |bytes[at..]| == |first| + |rest|;
    assert bytes[at..][..|first|] == first && bytes[at..][|first|..] == rest;
  }

  lemma {:induction false} Lay(bytes: seq<Byte>, at: nat, chunks: seq<Chunk>, tail: seq<Byte>)
    requires at <= |bytes| && |tail| < 8 && bytes[at..] == Serialize(chunks) + tail
    ensures Laid(bytes, at, chunks)
    decreases |chunks|
  {
    if chunks == [] {
      assert |bytes[at..]| == |tail|;
    } else {
      var first, rest := SerializeChunk(chunks[0]), Serialize(chunks[1..]);
      Regrouped(first, rest, tail);
      HeadAndRest(bytes, at, first, rest + tail);
      Lay(bytes, at + |first|, chunks[1..], tail);
    }
  }

  lemma SameWord(all: seq<Byte>, at: nat, size: seq<Byte>)
    requires |size| == 4 && at + 4 <= |all| && all[at..at + 4] == size
    ensures U32(all, at) == U32(size, 0)
  {
    var q := all[at..at + 4];
    assert q[0] == all[at] && q[1] == all[at + 1] && q[2] == all[at + 2] && q[3] == all[at + 3];
  }

  lemma Fields(c: Chunk)
    requires |c.size| == 4 && |c.kind| == 4
    ensures
      var s := SerializeChunk(c);
      && |s| == 8 + |c.payload| + |c.padding|
      && s[0..4] == c.size && s[4..8] == c.kind && s[8..8 + |c.payload|] == c.payload
  {
  }

  lemma Within(bytes: seq<Byte>, at: nat, end: nat, a: nat, b: nat)
    requires at <= end <= |bytes| && a <= b <= end - at
    ensures bytes[at..end][a..b] == bytes[at + a..at + b]
  {
    var left, right := bytes[at..end][a..b], bytes[at + a..at + b];
    forall k | 0 <= k < b - a ensures left[k] == right[k] {
      assert left[k] == bytes[at..end][a + k] == bytes[at + a + k];
    }
    assert left == right;
  }

  lemma WalkChunk(bytes: seq<Byte>, at: nat, c: Chunk)
    requires ChunkOk(c) && at + |SerializeChunk(c)| <= |bytes|
    requires bytes[at..at + |SerializeChunk(c)|] == SerializeChunk(c)
    ensures Walk(bytes, at) == Behind([Piece(c.kind, c.payload)], Walk(bytes, at + |SerializeChunk(c)|))
  {
    Fields(c);
    var end := at + |SerializeChunk(c)|;
    Within(bytes, at, end, 0, 4);
    Within(bytes, at, end, 4, 8);
    Within(bytes, at, end, 8, 8 + |c.payload|);
    SameWord(bytes, at, c.size);
    WalkOn(bytes, at, end);
  }

  /** Walking what was serialised gives back its chunks. */
  lemma {:induction false} WalkSerialized(bytes: seq<Byte>, at: nat, chunks: seq<Chunk>)
    requires (forall c :: c in chunks ==> ChunkOk(c)) && Laid(bytes, at, chunks)
    ensures Walk(bytes, at) == Some(Pieces(chunks))
    decreases |chunks|
  {
    if chunks != [] {
      WalkChunk(bytes, at, chunks[0]);
      WalkSerialized(bytes, at + |SerializeChunk(chunks[0])|, chunks[1..]);
    }
  }

  /** The last payload of one kind, if any. */
  function LastOf(chunks: seq<Chunk>, kind: seq<Byte>): Option<seq<Byte>> {
    if chunks == [] then None
    else if chunks[|chunks| - 1].kind == kind then Some(chunks[|chunks| - 1].payload)
    else LastOf(chunks[..|chunks| - 1], kind)
  }

  /** It is the payload of the chunk behind which there is none of its kind. */
  lemma {:induction false} LastOfIs(chunks: seq<Chunk>, kind: seq<Byte>) returns (k: nat)
    ensures LastOf(chunks, kind).None? <==> forall c :: c in chunks ==> c.kind != kind
    ensures LastOf(chunks, kind).Some? ==> k < |chunks| && chunks[k].kind == kind && LastOf(chunks, kind) == Some(chunks[k].payload)
    ensures LastOf(chunks, kind).Some? ==> forall j :: k < j < |chunks| ==> chunks[j].kind != kind
  {
    k := 0;
    if chunks != [] {
      var n := |chunks| - 1;
      assert chunks == chunks[..n] + [chunks[n]];
      if chunks[n].kind == kind {
        k := n;
      } else {
        k := LastOfIs(chunks[..n], kind);
      }
    }
  }

  lemma {:induction false} PiecesAppend(chunks: seq<Chunk>, c: Chunk)
    ensures Pieces(chunks + [c]) == Pieces(chunks) + [Piece(c.kind, c.payload)]
    decreases |chunks|
  {
    if chunks == [] {
      assert [c][1..] == [];
    } else {
      assert (chunks + [c])[1..] == chunks[1..] + [c];
      PiecesAppend(chunks[1..], c);
    }
  }

  /** What is kept of a chunk list is the last JSON and the last binary payload. */
  lemma {:induction false} KeepAllIsLast(chunks: seq<Chunk>)
    ensures KeepAll(Pieces(chunks)) == Kept(LastOf(chunks, JSON), LastOf(chunks, BIN))
    decreases |chunks|
  {
    if chunks != [] {
      var before, c := chunks[..|chunks| - 1], chunks[|chunks| - 1];
      assert chunks == before + [c];
      PiecesAppend(before, c);
      KeepOne(Pieces(before), Piece(c.kind, c.payload));
      KeepAllIsLast(before);
    }
  }

  /** The padding after an accepted payload, what follows it, and what the body is short of. */
  lemma Padding(tail: seq<Byte>, room: nat) returns (padding: seq<Byte>, after: seq<Byte>, missing: seq<Byte>)
    requires room < 4
    ensures |padding| == room && tail + missing == padding + after && |missing| < 4
    ensures after == (if room <= |tail| then tail[room..] else []) && (missing != [] ==> after == [])
  {
    if room <= |tail| {
      padding, after, missing := tail[..room], tail[room..], [];
    } else {
      missing := seq(room - |tail|, _ => 0);
      padding, after := tail + missing, [];
    }
  }

  function From(bytes: seq<Byte>, offset: nat): seq<Byte> {
    if offset <= |bytes| then bytes[offset..] else []
  }

  /** The first chunk of an accepted body, with the padding the body may be short of. */
  lemma FirstChunk(bytes: seq<Byte>, offset: nat) returns (c: Chunk, next: nat, missing: seq<Byte>)
    requires offset + 8 <= |bytes| && Walk(bytes, offset).Some?
    ensures ChunkOk(c) && |missing| < 4 && offset < next && (missing != [] ==> From(bytes, next) == [])
    ensures bytes[offset..] + missing == SerializeChunk(c) + From(bytes, next)
    ensures Walk(bytes, offset) == Behind([Piece(c.kind, c.payload)], Walk(bytes, next))
  {
    var length := U32(bytes, offset);
    var end := offset + 8 + length;
    next := offset + 8 + Aligned(length);
    WalkOn(bytes, offset, next);
    c, missing := Fitting(bytes, offset, next);
  }

  lemma Fitting(bytes: seq<Byte>, offset: nat, next: nat) returns (c: Chunk, missing: seq<Byte>)
    requires offset + 8 <= |bytes| && offset + 8 + U32(bytes, offset) <= |bytes|
    requires next == offset + 8 + Aligned(U32(bytes, offset))
    ensures ChunkOk(c) && |missing| < 4 && (missing != [] ==> From(bytes, next) == [])
    ensures bytes[offset..] + missing == SerializeChunk(c) + From(bytes, next)
    ensures Piece(c.kind, c.payload) == PieceAt(bytes, offset)
  {
    var p, end := PieceAt(bytes, offset), offset + 8 + U32(bytes, offset);
    var size := bytes[offset..offset + 4];
    SameWord(bytes, offset, size);
    var padding;
    padding, missing := Room(bytes, end, next);
    c := Chunk(size, p.kind, p.payload, padding);
    Spelling(bytes, offset, c, missing, From(bytes, next));
  }

  lemma Room(bytes: seq<Byte>, end: nat, next: nat) returns (padding: seq<Byte>, missing: seq<Byte>)
    requires end <= |bytes| && end <= next < end + 4
    ensures |padding| == next - end && |missing| < 4 && (missing != [] ==> From(bytes, next) == [])
    ensures bytes[end..] + missing == padding + From(bytes, next)
  {
    var after;
    padding, after, missing := Padding(bytes[end..], next - end);
    Later(bytes, end, next);
  }

  lemma Later(bytes: seq<Byte>, end: nat, next: nat)
    requires end <= |bytes| && end <= next
    ensures From(bytes, next) == if next - end <= |bytes[end..]| then bytes[end..][next - end..] else []
  {
  }

  lemma Spelling(bytes: seq<Byte>, offset: nat, c: Chunk, missing: seq<Byte>, after: seq<Byte>)
    requires offset + 8 + |c.payload| <= |bytes| && c.size == bytes[offset..offset + 4]
    requires c.kind == bytes[offset + 4..offset + 8] && c.payload == bytes[offset + 8..offset + 8 + |c.payload|]
    requires bytes[offset + 8 + |c.payload|..] + missing == c.padding + after
    ensures bytes[offset..] + missing == SerializeChunk(c) + after
  {
    var end := offset + 8 + |c.payload|;
    FourParts(bytes, offset, end);
    Regroup(c.size, c.kind, c.payload, bytes[end..], missing, c.padding, after);
  }

  lemma FourParts(s: seq<Byte>, at: nat, k: nat)
    requires at + 8 <= k <= |s|
    ensures s[at..] == s[at..at + 4] + s[at + 4..at + 8] + s[at + 8..k] + s[k..]
  {
  }

  lemma Regroup(a: seq<Byte>, b: seq<Byte>, c: seq<Byte>, d: seq<Byte>, missing: seq<Byte>, padding: seq<Byte>, after: seq<Byte>)
    requires d + missing == padding + after
    ensures a + b + c + d + missing == a + b + c + padding + after
  {
    assert a + b + c + d + missing == a + b + c + (d + missing);
    assert a + b + c + padding + after == a + b + c + (padding + after);
  }

  lemma Regrouped(a: seq<Byte>, b: seq<Byte>, c: seq<Byte>)
    ensures (a + b) + c == a + (b + c)
  {
  }

  lemma SerializeCons(c: Chunk, chunks: seq<Chunk>)
    ensures Serialize([c] + chunks) == SerializeChunk(c) + Serialize(chunks)
  {
    assert ([c] + chunks)[1..] == chunks;
  }

  lemma JoinChunk(rest: seq<Byte>, short: seq<Byte>, c: Chunk, after: seq<Byte>, chunks: seq<Chunk>, tail: seq<Byte>, missing: seq<Byte>)
    requires rest + short == SerializeChunk(c) + after && after + missing == Serialize(chunks) + tail
    ensures rest + (short + missing) == Serialize([c] + chunks) + tail
  {
    SerializeCons(c, chunks);
    Regrouped(rest, short, missing);
    Regrouped(SerializeChunk(c), after, missing);
    Regrouped(SerializeChunk(c), Serialize(chunks), tail);
  }

  /** The body of an accepted container is a chunk list with fewer than eight bytes left over, or
      one whose last chunk lacks some of its padding: no other body is accepted. */
  lemma {:induction false} WalkParses(bytes: seq<Byte>, offset: nat)
    returns (chunks: seq<Chunk>, tail: seq<Byte>, missing: seq<Byte>)
    requires Walk(bytes, offset).Some?
    ensures (forall c :: c in chunks ==> ChunkOk(c)) && |tail| < 8 && |missing| < 4
    ensures From(bytes, offset) + missing == Serialize(chunks) + tail && (missing != [] ==> tail == [])
    ensures From(bytes, offset) == [] ==> chunks == [] && tail == [] && missing == []
    ensures Walk(bytes, offset) == Some(Pieces(chunks))
    decreases |bytes| - offset
  {
    if offset + 8 > |bytes| {
      chunks, tail, missing := [], From(bytes, offset), [];
      assert From(bytes, offset) + missing == Serialize(chunks) + tail;
    } else {
      var c, next, short := FirstChunk(bytes, offset);
      var chunks1;
      chunks1, tail, missing := WalkParses(bytes, next);
      JoinChunk(bytes[offset..], short, c, From(bytes, next), chunks1, tail, missing);
      chunks, missing := [c] + chunks1, short + missing;
      assert chunks[1..] == chunks1;
    }
  }

  // ----- The last chunk may lack its padding

  /** The walk needs a chunk's fields and its payload, not what pads it. */
  lemma WalkHead(bytes: seq<Byte>, at: nat, c: Chunk)
    requires ChunkOk(c) && at + 8 + |c.payload| <= |bytes|
    requires bytes[at..at + 8 + |c.payload|] == SerializeChunk(c)[..8 + |c.payload|]
    ensures Walk(bytes, at) == Behind([Piece(c.kind, c.payload)], Walk(bytes, at + |SerializeChunk(c)|))
  {
    Fields(c);
    var head, end := SerializeChunk(c)[..8 + |c.payload|], at + 8 + |c.payload|;
    Within(bytes, at, end, 0, 4);
    Within(bytes, at, end, 4, 8);
    Within(bytes, at, end, 8, 8 + |c.payload|);
    assert head[0..4] == c.size && head[4..8] == c.kind && head[8..8 + |c.payload|] == c.payload;
    SameWord(bytes, at, c.size);
    WalkOn(bytes, at, at + |SerializeChunk(c)|);
  }

  lemma WalkShort(bytes: seq<Byte>, at: nat, c: Chunk, missing: seq<Byte>)
    requires ChunkOk(c) && at <= |bytes| && bytes[at..] + missing == SerializeChunk(c) && |missing| <= |c.padding|
    ensures Walk(bytes, at) == Some([Piece(c.kind, c.payload)])
  {
    Fields(c);
    var n := 8 + |c.payload|;
    var body := bytes[at..];
    assert |body| + |missing| == n + |c.padding|;
    assert body[..n] == (body + missing)[..n];
    assert bytes[at..at + n] == body[..n];
    WalkHead(bytes, at, c);
    WalkEnd(bytes, at + |SerializeChunk(c)|);
    assert [Piece(c.kind, c.payload)] + [] == [Piece(c.kind, c.payload)];
  }

  lemma WalkEnd(bytes: seq<Byte>, at: nat)
    requires at + 8 > |bytes|
    ensures Walk(bytes, at) == Some([])
  {
  }

  /** From `at` on the bytes are this chunk list, but for some of the last chunk's padding. */
  ghost predicate Lacks(bytes: seq<Byte>, at: nat, chunks: seq<Chunk>, missing: seq<Byte>) {
    && chunks != [] && (forall c :: c in chunks ==> ChunkOk(c)) && at <= |bytes|
    && bytes[at..] + missing == Serialize(chunks) && |missing| <= |chunks[|chunks| - 1].padding|
  }

  /** Its first chunk stands there whole. */
  lemma FirstWhole(bytes: seq<Byte>, at: nat, chunks: seq<Chunk>, missing: seq<Byte>, first: seq<Byte>, later: seq<Byte>)
    requires Lacks(bytes, at, chunks, missing) && |chunks| > 1
    requires first == SerializeChunk(chunks[0]) && later == Serialize(chunks[1..])
    ensures at + |first| <= |bytes| && bytes[at..at + |first|] == first && bytes[at + |first|..] + missing == later
  {
    RestIsOk(chunks);
    SerializedLonger(chunks[1..]);
    SplitBehind(bytes, at, first, later, missing);
  }

  lemma RestIsOk(chunks: seq<Chunk>)
    requires |chunks| > 1 && forall c :: c in chunks ==> ChunkOk(c)
    ensures ChunkOk(chunks[0]) && (forall c :: c in chunks[1..] ==> ChunkOk(c))
    ensures chunks[1..][|chunks[1..]| - 1] == chunks[|chunks| - 1]
  {
    assert chunks[0] in chunks;
    assert forall c :: c in chunks[1..] ==> c in chunks;
  }

  lemma AcceptStep(bytes: seq<Byte>, at: nat, chunks: seq<Chunk>, missing: seq<Byte>, next: nat)
    requires Lacks(bytes, at, chunks, missing) && |chunks| > 1 && next == at + |SerializeChunk(chunks[0])|
    ensures Lacks(bytes, next, chunks[1..], missing)
  {
    FirstWhole(bytes, at, chunks, missing, SerializeChunk(chunks[0]), Serialize(chunks[1..]));
    RestIsOk(chunks);
  }

  lemma FirstThere(bytes: seq<Byte>, at: nat, chunks: seq<Chunk>, missing: seq<Byte>, next: nat)
    requires Lacks(bytes, at, chunks, missing) && |chunks| > 1 && next == at + |SerializeChunk(chunks[0])|
    ensures next <= |bytes| && bytes[at..next] == SerializeChunk(chunks[0]) && ChunkOk(chunks[0])
  {
    FirstWhole(bytes, at, chunks, missing, SerializeChunk(chunks[0]), Serialize(chunks[1..]));
    assert chunks[0] in chunks;
  }

  lemma WalkWhole(bytes: seq<Byte>, at: nat, c: Chunk, next: nat)
    requires ChunkOk(c) && next == at + |SerializeChunk(c)| <= |bytes| && bytes[at..next] == SerializeChunk(c)
    ensures Walk(bytes, at) == Behind([Piece(c.kind, c.payload)], Walk(bytes, next))
  {
    WalkChunk(bytes, at, c);
  }

  lemma AcceptLast(bytes: seq<Byte>, at: nat, c: Chunk, missing: seq<Byte>)
    requires Lacks(bytes, at, [c], missing)
    ensures Walk(bytes, at) == Some(Pieces([c]))
  {
    assert c in [c] && ChunkOk(c);
    SerializeAlone(c);
    WalkShort(bytes, at, c, missing);
  }

  /** Conversely a body whose last chunk lacks some of its padding is accepted, as is one that lacks none. */
  lemma {:induction false} WalkAccepts(bytes: seq<Byte>, at: nat, chunks: seq<Chunk>, missing: seq<Byte>)
    requires Lacks(bytes, at, chunks, missing)
    ensures Walk(bytes, at) == Some(Pieces(chunks))
    decreases |chunks|
  {
    if |chunks| == 1 {
      assert chunks == [chunks[0]];
      AcceptLast(bytes, at, chunks[0], missing);
    } else {
      var next := at + |SerializeChunk(chunks[0])|;
      AcceptStep(bytes, at, chunks, missing, next);
      FirstThere(bytes, at, chunks, missing, next);
      WalkWhole(bytes, at, chunks[0], next);
      WalkAccepts(bytes, next, chunks[1..], missing);
    }
  }

  lemma SerializeAlone(c: Chunk)
    ensures Serialize([c]) == SerializeChunk(c) && Pieces([c]) == [Piece(c.kind, c.payload)]
  {
    assert [c][1..] == [];
    assert SerializeChunk(c) + [] == SerializeChunk(c);
  }

  lemma {:induction false} SerializedLonger(chunks: seq<Chunk>)
    requires chunks != [] && forall c :: c in chunks ==> ChunkOk(c)
    ensures |Serialize(chunks)| >= 8 + |chunks[|chunks| - 1].padding|
    decreases |chunks|
  {
    assert chunks[0] in chunks && ChunkOk(chunks[0]);
    Fields(chunks[0]);
    if |chunks| > 1 {
      assert forall x :: x in chunks[1..] ==> x in chunks;
      SerializedLonger(chunks[1..]);
    } else {
      assert chunks == [chunks[0]];
      SerializeAlone(chunks[0]);
    }
  }

  lemma SplitBehind(bytes: seq<Byte>, at: nat, first: seq<Byte>, later: seq<Byte>, missing: seq<Byte>)
    requires at <= |bytes| && bytes[at..] + missing == first + later && |missing| <= |later|
    ensures at + |first| <= |bytes| && bytes[at..at + |first|] == first && bytes[at + |first|..] + missing == later
  {
    var body := bytes[at..];
    assert |body| + |missing| == |first| + |later|;
    assert body[..|first|] == (body + missing)[..|first|];
    assert body[|first|..] + missing == (body + missing)[|first|..];
    assert bytes[at..at + |first|] == body[..|first|] && bytes[at + |first|..] == body[|first|..];
  }
}
