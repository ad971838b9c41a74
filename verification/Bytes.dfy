/** Bytes and little-endian numbers. */
module Bytes {

  type Byte = b: nat | b < 256

  /** 256^k. */
  function Weight(k: nat): (w: nat)
    ensures w > 0
  {
    if k == 0 then 1 else 256 * Weight(k - 1)
  }

  function FromLe(b: seq<Byte>): (n: nat)
    ensures n < Weight(|b|)
  {
    if b == [] then 0 else
    var low: nat := b[0];
    low + 256 * FromLe(b[1..])
  }

  function ToLe(n: nat, k: nat): (b: seq<Byte>)
    requires n < Weight(k)
    ensures |b| == k && FromLe(b) == n
  {
    if k == 0 then [] else [n % 256] + ToLe(n / 256, k - 1)
  }

  lemma {:induction false} ToLeFromLe(b: seq<Byte>)
    ensures ToLe(FromLe(b), |b|) == b
  {
    if b != [] {
      ToLeFromLe(b[1..]);
      var low: nat := b[0];
      assert FromLe(b) % 256 == low && FromLe(b) / 256 == FromLe(b[1..]);
    }
  }

  /** The 32-bit number the four bytes from `at` spell. */
  function U32(b: seq<Byte>, at: nat): nat
    requires at + 4 <= |b|
  {
    var b0: nat, b1: nat, b2: nat, b3: nat := b[at], b[at + 1], b[at + 2], b[at + 3];
    b0 + 0x100 * b1 + 0x1_0000 * b2 + 0x100_0000 * b3
  }

  lemma U32IsFromLe(b: seq<Byte>, at: nat)
    requires at + 4 <= |b|
    ensures U32(b, at) == FromLe(b[at..at + 4]) < Weight(4)
  {
    var q := b[at..at + 4];
    assert q[1..][1..] == q[2..] && q[2..][1..] == q[3..] && q[3..][1..] == [];
    var b1: nat, b2: nat, b3: nat := q[1], q[2], q[3];
    assert FromLe(q[3..]) == b3 && FromLe(q[2..]) == b2 + 256 * b3;
    assert FromLe(q[1..]) == b1 + 256 * FromLe(q[2..]);
  }
}
