/** Bytes, byte strings and the optional value used throughout the model. */
module Bytes {
  type byte = x: int | 0 <= x < 256
  type bytes = seq<byte>

  datatype Option<+T> = None | Some(value: T)

  const U32 := 0x1_0000_0000

  /** The part of `b` between two cursors; empty once the first has passed the second. */
  function Window(b: bytes, pos: nat, end: nat): bytes
    requires end <= |b|
  {
    if pos <= end then b[pos..end] else []
  }

  lemma {:induction false} Associative(x: bytes, y: bytes, z: bytes)
    ensures x + y + z == x + (y + z)
  {
    assert x + y + z == x + (y + z);
  }

  /** Moving a cursor over the front part of what it stands before. */
  lemma {:induction false} CursorMoves(b: bytes, pos: nat, front: bytes, back: bytes)
    requires pos <= |b| && b[pos..] == front + back
    ensures pos + |front| <= |b|
    ensures b[pos..pos + |front|] == front && b[pos + |front|..] == back
  {
    assert b[pos..pos + |front|] == b[pos..][..|front|];
    assert b[pos + |front|..] == b[pos..][|front|..];
  }

  lemma {:induction false} SliceOfSlice(b: bytes, lo: nat, hi: nat, i: nat, j: nat)
    requires i <= j && lo + j <= hi <= |b|
    ensures b[lo..hi][i..j] == b[lo + i..lo + j]
  {
    var x, y := b[lo..hi][i..j], b[lo + i..lo + j];
    assert |x| == |y| && forall k | 0 <= k < |x| :: x[k] == b[lo..hi][i + k] == b[lo + i + k] == y[k];
  }

  lemma {:induction false} SliceOfFront(x: bytes, y: bytes, i: nat, j: nat)
    requires i <= j <= |x|
    ensures (x + y)[i..j] == x[i..j]
  {
    var u, v := (x + y)[i..j], x[i..j];
    assert |u| == |v| && forall k | 0 <= k < |u| :: u[k] == (x + y)[i + k] == x[i + k] == v[k];
  }

  function Pow2(n: nat): (r: nat)
    ensures r >= 1
  {
    if n == 0 then 1 else 2 * Pow2(n - 1)
  }

  lemma {:induction false} Pow2Adds(a: nat, b: nat)
    ensures Pow2(a + b) == Pow2(a) * Pow2(b)
  {
    if a > 0 {
      Pow2Adds(a - 1, b);
    }
  }

  lemma {:induction false} Pow2Monotone(a: nat, b: nat)
    requires a <= b
    ensures Pow2(a) <= Pow2(b)
  {
    if a < b {
      Pow2Monotone(a, b - 1);
    }
  }
}
