/** The glTF loader's base64 decoder: a 32-bit accumulator that is never cleared, against the
    encoding of section 4 of RFC 4648. */
module Base64 {
  import opened Basics
  import opened Bytes

  type Sextet = v: nat | v < 64

  datatype DecodeError = BadBufferView

  // ----- The alphabet

  function Value(c: Byte): Option<Sextet> {
    if 'A' as int <= c <= 'Z' as int then Some(c - 'A' as int)
    else if 'a' as int <= c <= 'z' as int then Some(c - 'a' as int + 26)
    else if '0' as int <= c <= '9' as int then Some(c - '0' as int + 52)
    else if c == '+' as int then Some(62)
    else if c == '/' as int then Some(63)
    else None
  }

  function Letter(v: Sextet): (c: Byte)
    ensures Value(c) == Some(v)
    ensures c != PAD && !IsSpace(c)
  {
    if v < 26 then 'A' as int + v
    else if v < 52 then 'a' as int + (v - 26)
    else if v < 62 then '0' as int + (v - 52)
    else if v == 62 then '+' as int
    else '/' as int
  }

  /** Table 1 of RFC 4648 by character codes: A to Z, a to z, 0 to 9, plus and slash. */
  lemma AlphabetIs(v: Sextet, c: Byte)
    ensures Value(c) == Some(v) <==>
      || (v <= 25 && c == 65 + v) || (26 <= v <= 51 && c == 97 + (v - 26)) || (52 <= v <= 61 && c == 48 + (v - 52))
      || (v == 62 && c == 43) || (v == 63 && c == 47)
    ensures c == Letter(v) <==> Value(c) == Some(v)
  {
  }

  /** The characters outside that table have no value, and five of them are passed over. */
  lemma OthersAre(c: Byte)
    ensures Value(c).Some? <==> ('A' as int <= c <= 'Z' as int) || ('a' as int <= c <= 'z' as int) || ('0' as int <= c <= '9' as int) || c == 43 || c == 47
    ensures IsSpace(c) <==> c == 9 || c == 10 || c == 12 || c == 13 || c == 32
    ensures PAD == 61 && Value(PAD) == None
  {
  }

  const PAD: Byte := '=' as int

  /** ASCII whitespace: space, tab, line feed, form feed, carriage return. */
  predicate IsSpace(c: Byte) {
    c == 32 || c == 9 || c == 10 || c == 12 || c == 13
  }

  function Strip(text: seq<Byte>): (r: seq<Byte>) {
    if text == [] then []
    else Strip(text[..|text| - 1]) + (if IsSpace(text[|text| - 1]) then [] else [text[|text| - 1]])
  }

  /** What is passed over is the whitespace, and the rest stays in order. */
  lemma {:induction false} StripJoin(a: seq<Byte>, b: seq<Byte>)
    ensures Strip(a + b) == Strip(a) + Strip(b)
    decreases |b|
  {
    if b == [] {
      assert a + b == a;
    } else {
      var last := |b| - 1;
      assert (a + b)[..|a + b| - 1] == a + b[..last];
      StripJoin(a, b[..last]);
    }
  }

  lemma StripOne(c: Byte)
    ensures Strip([c]) == if c == 9 || c == 10 || c == 12 || c == 13 || c == 32 then [] else [c]
  {
    assert [c][..0] == [];
  }

  // ----- The decoder with only the bits that matter

  /** The bits read but not yet written: `bits` of them, as a number below 2^bits. */
  datatype Pending = Pending(value: nat, bits: nat)

  predicate PendingOk(p: Pending) {
    || (p.bits == 0 && p.value == 0)
    || (p.bits == 2 && p.value < 4)
    || (p.bits == 4 && p.value < 16)
  }

  /** Take in one sextet, giving out a byte when eight bits are there. */
  function Take(p: Pending, v: Sextet): (r: (Pending, seq<Byte>))
    requires PendingOk(p) || (p.bits == 6 && p.value < 64)
    ensures PendingOk(r.0) || (r.0.bits == 6 && r.0.value < 64)
  {
    var x := p.value * 64 + v;
    if p.bits == 0 then (Pending(v, 6), [])
    else if p.bits == 2 then (Pending(0, 0), [x])
    else if p.bits == 4 then (Pending(x % 4, 2), [x / 4])
    else (Pending(x % 16, 4), [x / 16])
  }

  predicate Between(p: Pending) {
    PendingOk(p) || (p.bits == 6 && p.value < 64)
  }

  /** Decode up to the first padding character; None at a character outside the alphabet. */
  function DecodeFrom(p: Pending, text: seq<Byte>): Option<seq<Byte>>
    requires Between(p)
    decreases |text|
  {
    if text == [] || text[0] == PAD then Some([]) else
    match Value(text[0])
    case None => None
    case Some(v) =>
      var (p', out) := Take(p, v);
      match DecodeFrom(p', text[1..])
      case None => None
      case Some(rest) => Some(out + rest)
  }

  const FRESH: Pending := Pending(0, 0)

  // ----- The decoder as written

  function Shift(bits: nat): nat {
    if bits == 0 then 1 else if bits == 2 then 4 else if bits == 4 then 16 else if bits == 6 then 64 else 1
  }

  const WORD: nat := 0x1_0000_0000

  /** What the shift leaves of the accumulator: its low 26 bits, six places up. */
  lemma ShiftedWord(acc: nat)
    ensures (acc * 64) % WORD == acc % 0x400_0000 * 64
  {
    var low, high := acc % 0x400_0000, acc / 0x400_0000;
    assert acc * 64 == high * WORD + low * 64;
  }

  lemma AccumulatorStep(acc: nat, p: Pending, v: Sextet)
    requires acc < WORD && Between(p) && acc % Shift(p.bits) == p.value
    ensures
      var acc' := (acc * 64) % WORD + v;
      var (p', out) := Take(p, v);
      && acc' < WORD
      && acc' % Shift(p'.bits) == p'.value
      && (p.bits == 0 ==> out == [] && p'.bits == 6)
      && (p.bits > 0 ==> p'.bits == p.bits - 2 && out == [(acc' / Shift(p'.bits)) % 256])
  {
    ShiftedWord(acc);
    var low := acc % 0x400_0000;
    if p.bits == 2 {
      LowBits2(acc, low, p.value, v);
    } else if p.bits == 4 {
      LowBits4(acc, low, p.value, v);
    } else if p.bits == 6 {
      LowBits6(acc, low, p.value, v);
    }
  }

  lemma Halves(q: nat, r: nat, m: nat)
    requires r < m
    ensures (m * q + r) / m == q && (m * q + r) % m == r
  {
    var x := m * q + r;
    assert x == m * (x / m) + x % m;
    if x / m < q {
      More(q, x / m, m);
    } else if x / m > q {
      More(x / m, q, m);
    }
  }

  lemma More(a: nat, b: nat, m: nat)
    requires a > b
    ensures m * a >= m * b + m
  {
    assert m * a == m * b + m * (a - b);
    assert m * (a - b) == m + m * (a - b - 1);
  }

  lemma LowBits2(acc: nat, low: nat, value: nat, v: Sextet)
    requires low == acc % 0x400_0000 && acc % 4 == value
    ensures (low * 64 + v) % 256 == value * 64 + v
  {
    assert low == 4 * (low / 4) + value;
    Halves(low / 4, value * 64 + v, 256);
  }

  lemma LowBits4(acc: nat, low: nat, value: nat, v: Sextet)
    requires low == acc % 0x400_0000 && acc % 16 == value
    ensures (low * 64 + v) % 4 == (value * 64 + v) % 4
    ensures ((low * 64 + v) / 4) % 256 == (value * 64 + v) / 4
  {
    var t, x := low / 16, value * 64 + v;
    assert low == 16 * t + value;
    Halves(256 * t + x / 4, x % 4, 4);
    Halves(t, x / 4, 256);
  }

  lemma LowBits6(acc: nat, low: nat, value: nat, v: Sextet)
    requires low == acc % 0x400_0000 && acc % 64 == value
    ensures (low * 64 + v) % 16 == (value * 64 + v) % 16
    ensures ((low * 64 + v) / 16) % 256 == (value * 64 + v) / 16
  {
    var t, x := low / 64, value * 64 + v;
    assert low == 64 * t + value;
    Halves(256 * t + x / 16, x % 16, 16);
    Halves(t, x / 16, 256);
  }

  /** Shifting by `bits` and masking with `as u8`, on the raw accumulator. Whatever whitespace is
      spread through an encoding, and with or without its padding, the bytes come back. */
  method Base64Decode(input: seq<Byte>) returns (r: Result<seq<Byte>, DecodeError>)
    ensures DecodeFrom(FRESH, Strip(input)).None? <==> r.Err?
    ensures r.Ok? ==> DecodeFrom(FRESH, Strip(input)) == Some(r.value)
    ensures forall data: seq<Byte>, padded: bool :: Strip(input) == Encode(data, padded) ==> r == Ok(data)
  {
    forall data: seq<Byte>, padded: bool | Strip(input) == Encode(data, padded)
      ensures DecodeFrom(FRESH, Strip(input)) == Some(data)
    {
      DecodeEncode(data, padded);
    }
    var bytes := [];
    for k := 0 to |input|
      invariant bytes == Strip(input[..k])
    {
      assert input[..k + 1][..k] == input[..k];
      if !IsSpace(input[k]) {
        bytes := bytes + [input[k]];
      }
    }
    assert input[..|input|] == input;
    var out: seq<Byte> := [];
    var acc: nat, bits: nat := 0, 0;
    ghost var p := FRESH;
    assert bytes[0..] == bytes;
    PrependAll([], [], DecodeFrom(p, bytes));
    for k := 0 to |bytes|
      invariant acc < WORD && Between(p) && bits == p.bits && acc % Shift(bits) == p.value
      invariant DecodeFrom(FRESH, bytes) == Prepend(out, DecodeFrom(p, bytes[k..]))
    {
      if bytes[k] == PAD {
        break;
      }
      var v := Value(bytes[k]);
      if v.None? {
        return Err(BadBufferView);
      }
      AccumulatorStep(acc, p, v.value);
      assert bytes[k..][1..] == bytes[k + 1..];
      acc := (acc * 64) % WORD + v.value;
      ghost var (p', emitted) := Take(p, v.value);
      ghost var before := out;
      bits := bits + 6;
      if bits >= 8 {
        bits := bits - 8;
        out := out + [(acc / Shift(bits)) % 256];
      }
      PrependAll(before, emitted, DecodeFrom(p', bytes[k + 1..]));
      p := p';
    }
    assert out + [] == out;
    return Ok(out);
  }

  function Prepend(out: seq<Byte>, rest: Option<seq<Byte>>): Option<seq<Byte>> {
    if rest.None? then None else Some(out + rest.value)
  }

  lemma PrependAll(a: seq<Byte>, b: seq<Byte>, rest: Option<seq<Byte>>)
    ensures Prepend(a, Prepend(b, rest)) == Prepend(a + b, rest)
    ensures Prepend([], rest) == rest
  {
    if rest.Some? {
      assert a + (b + rest.value) == a + b + rest.value;
      assert [] + rest.value == rest.value;
    }
  }

  // ----- The encoding

  /** Section 4 of RFC 4648, with its final padding or without it. */
  function Encode(data: seq<Byte>, padded: bool): seq<Byte> {
    if |data| == 0 then []
    else if |data| == 1 then
      [Letter(data[0] / 4), Letter(data[0] % 4 * 16)] + (if padded then [PAD, PAD] else [])
    else if |data| == 2 then
      [Letter(data[0] / 4), Letter(data[0] % 4 * 16 + data[1] / 16), Letter(data[1] % 16 * 4)] + (if padded then [PAD] else [])
    else
      [Letter(data[0] / 4), Letter(data[0] % 4 * 16 + data[1] / 16), Letter(data[1] % 16 * 4 + data[2] / 64), Letter(data[2] % 64)]
      + Encode(data[3..], padded)
  }

  /** The vectors of section 10 of RFC 4648, without the last three of their kind. */
  lemma Vectors()
    ensures Encode([0x66], true) == ['Z' as int, 'g' as int, '=' as int, '=' as int]
    ensures Encode([0x66, 0x6F], true) == ['Z' as int, 'm' as int, '8' as int, '=' as int]
    ensures Encode([0x66, 0x6F, 0x6F], true) == ['Z' as int, 'm' as int, '9' as int, 'v' as int]
  {
  }

  lemma DecodeLetter(p: Pending, v: Sextet, rest: seq<Byte>)
    requires Between(p)
    ensures
      var (p', out) := Take(p, v);
      DecodeFrom(p, [Letter(v)] + rest) == Prepend(out, DecodeFrom(p', rest))
  {
    assert ([Letter(v)] + rest)[1..] == rest;
  }

  lemma DecodePad(p: Pending, rest: seq<Byte>)
    requires Between(p)
    ensures DecodeFrom(p, []) == DecodeFrom(p, [PAD] + rest) == Some([])
  {
  }

  /** What the decoder takes from the letters of three bytes. */
  lemma TakeLetters(x: Byte, y: Byte, z: Byte)
    ensures Take(FRESH, x / 4) == (Pending(x / 4, 6), [])
    ensures Take(Pending(x / 4, 6), x % 4 * 16 + y / 16) == (Pending(y / 16, 4), [x])
    ensures Take(Pending(y / 16, 4), y % 16 * 4 + z / 64) == (Pending(z / 64, 2), [y])
    ensures Take(Pending(z / 64, 2), z % 64) == (FRESH, [z])
  {
    Halves(x, y / 16, 16);
    Halves(y, z / 64, 4);
    assert x / 4 * 64 + (x % 4 * 16 + y / 16) == 16 * x + y / 16;
    assert y / 16 * 64 + (y % 16 * 4 + z / 64) == 4 * y + z / 64;
  }

  lemma DecodeOne(x: Byte, tail: seq<Byte>)
    requires tail == [] || tail == [PAD, PAD]
    ensures DecodeFrom(FRESH, [Letter(x / 4), Letter(x % 4 * 16)] + tail) == Some([x])
  {
    var a: nat, b: nat := x / 4, x % 4 * 16;
    TakeLetters(x, 0, 0);
    assert [Letter(a), Letter(b)] + tail == [Letter(a)] + ([Letter(b)] + tail);
    DecodeLetter(FRESH, a, [Letter(b)] + tail);
    DecodeLetter(Pending(a, 6), b, tail);
    DecodePad(Pending(0, 4), [PAD]);
    assert tail != [] ==> tail == [PAD] + [PAD];
    assert [] + ([x] + []) == [x];
  }

  lemma DecodeTwo(x: Byte, y: Byte, tail: seq<Byte>)
    requires tail == [] || tail == [PAD]
    ensures DecodeFrom(FRESH, [Letter(x / 4), Letter(x % 4 * 16 + y / 16), Letter(y % 16 * 4)] + tail) == Some([x, y])
  {
    var a: nat, b: nat, c: nat := x / 4, x % 4 * 16 + y / 16, y % 16 * 4;
    TakeLetters(x, y, 0);
    assert [Letter(a), Letter(b), Letter(c)] + tail == [Letter(a)] + ([Letter(b)] + ([Letter(c)] + tail));
    DecodeLetter(FRESH, a, [Letter(b)] + ([Letter(c)] + tail));
    DecodeLetter(Pending(a, 6), b, [Letter(c)] + tail);
    DecodeLetter(Pending(y / 16, 4), c, tail);
    DecodePad(Pending(0, 2), []);
    assert tail != [] ==> tail == [PAD] + [];
    assert [] + ([x] + ([y] + [])) == [x, y];
  }

  lemma DecodeThree(x: Byte, y: Byte, z: Byte, tail: seq<Byte>)
    ensures
      var text := [Letter(x / 4), Letter(x % 4 * 16 + y / 16), Letter(y % 16 * 4 + z / 64), Letter(z % 64)] + tail;
      DecodeFrom(FRESH, text) == Prepend([x, y, z], DecodeFrom(FRESH, tail))
  {
    var a: nat, b: nat, c: nat, d: nat := x / 4, x % 4 * 16 + y / 16, y % 16 * 4 + z / 64, z % 64;
    TakeLetters(x, y, z);
    var t3 := [Letter(d)] + tail;
    var t2 := [Letter(c)] + t3;
    var t1 := [Letter(b)] + t2;
    assert [Letter(a), Letter(b), Letter(c), Letter(d)] + tail == [Letter(a)] + t1;
    DecodeLetter(FRESH, a, t1);
    DecodeLetter(Pending(a, 6), b, t2);
    DecodeLetter(Pending(y / 16, 4), c, t3);
    DecodeLetter(Pending(z / 64, 2), d, tail);
    PrependThree(x, y, z, DecodeFrom(FRESH, tail));
  }

  lemma PrependThree(x: Byte, y: Byte, z: Byte, rest: Option<seq<Byte>>)
    ensures Prepend([], Prepend([x], Prepend([y], Prepend([z], rest)))) == Prepend([x, y, z], rest)
  {
    if rest.Some? {
      assert [] + ([x] + ([y] + ([z] + rest.value))) == [x, y, z] + rest.value;
    }
  }

  lemma DecodeGroup(data: seq<Byte>, padded: bool)
    requires |data| > 2 && DecodeFrom(FRESH, Encode(data[3..], padded)) == Some(data[3..])
    ensures DecodeFrom(FRESH, Encode(data, padded)) == Some(data)
  {
    DecodeThree(data[0], data[1], data[2], Encode(data[3..], padded));
    assert data == [data[0], data[1], data[2]] + data[3..];
  }

  /** Decoding inverts encoding, padded or not. */
  lemma {:induction false} DecodeEncode(data: seq<Byte>, padded: bool)
    ensures DecodeFrom(FRESH, Encode(data, padded)) == Some(data)
    decreases |data|
  {
    if |data| == 1 {
      DecodeOne(data[0], if padded then [PAD, PAD] else []);
      assert data == [data[0]];
    } else if |data| == 2 {
      DecodeTwo(data[0], data[1], if padded then [PAD] else []);
      assert data == [data[0], data[1]];
    } else if |data| > 2 {
      DecodeEncode(data[3..], padded);
      DecodeGroup(data, padded);
    }
  }

  // ----- What is accepted

  /** The part of the stripped text before the first padding character. */
  function BeforePad(text: seq<Byte>): seq<Byte> {
    if text == [] || text[0] == PAD then [] else [text[0]] + BeforePad(text[1..])
  }

  lemma {:induction false} BeforePadIs(text: seq<Byte>)
    ensures 61 !in BeforePad(text) && |BeforePad(text)| <= |text| && BeforePad(text) == text[..|BeforePad(text)|]
    ensures |BeforePad(text)| < |text| ==> text[|BeforePad(text)|] == 61
  {
    if text != [] && text[0] != PAD {
      BeforePadIs(text[1..]);
      var n := |BeforePad(text[1..])|;
      assert text[..n + 1] == [text[0]] + text[1..][..n];
    }
  }

  /** Accepted exactly when everything before the first padding is in the alphabet; each four
      characters give three bytes, and a lone last character none. */
  lemma {:induction false} AcceptedIff(p: Pending, text: seq<Byte>)
    requires Between(p)
    ensures DecodeFrom(p, text).Some? <==> forall c :: c in BeforePad(text) ==> Value(c).Some?
    ensures DecodeFrom(p, text).Some? ==> |DecodeFrom(p, text).value| == (p.bits + 6 * |BeforePad(text)|) / 8
    decreases |text|
  {
    if text != [] && text[0] != PAD {
      assert BeforePad(text) == [text[0]] + BeforePad(text[1..]);
      if Value(text[0]).Some? {
        AcceptedIff(Take(p, Value(text[0]).value).0, text[1..]);
      }
    }
  }
}
