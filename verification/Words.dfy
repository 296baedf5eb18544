/** The 32-bit words that the host and a VM exchange as bytes. */
module Words {
  import opened Bytes

  datatype Order = Little | Big

  /** htowasm and wasmtoh swap the bytes only on a big-endian host for a VM that uses Wasm's byte
      order, so that such a VM sees little-endian words on every host. */
  function WireOrder(bigEndianHost: bool, usesWasmByteOrder: bool): Order {
    if bigEndianHost && !usesWasmByteOrder then Big else Little
  }

  /** The `n` low bytes of `v`, the lowest first. */
  function Digits(v: nat, n: nat): (w: bytes)
    ensures |w| == n
  {
    if n == 0 then [] else [v % 256] + Digits(v / 256, n - 1)
  }

  function Value(w: bytes): nat {
    if w == [] then 0 else w[0] + 256 * Value(w[1..])
  }

  function Swapped(order: Order, w: bytes): (s: bytes)
    requires |w| == 4
    ensures |s| == 4
  {
    if order == Little then w else [w[3], w[2], w[1], w[0]]
  }

  /** The four bytes of a uint32_t: of a larger number only the low 32 bits. */
  function Word(order: Order, v: nat): (w: bytes)
    ensures |w| == 4
  {
    Swapped(order, Digits(v, 4))
  }

  function Number(order: Order, w: bytes): nat
    requires |w| == 4
  {
    Value(Swapped(order, w))
  }

  lemma {:induction false} LowByte(x: byte, y: nat)
    ensures (x + 256 * y) % 256 == x && (x + 256 * y) / 256 == y
  {
  }

  lemma {:induction false} DigitsUnfold(v: nat, n: nat)
    requires n > 0
    ensures Digits(v, n) == [v % 256] + Digits(v / 256, n - 1)
  {
  }

  lemma {:induction false} DigitsOfValue(w: bytes)
    ensures Digits(Value(w), |w|) == w
  {
    if w != [] {
      DigitsOfValue(w[1..]);
      LowByte(w[0], Value(w[1..]));
      DigitsUnfold(Value(w), |w|);
      assert w == [w[0]] + w[1..];
    }
  }

  lemma {:induction false} ValueOfDigits(v: nat, n: nat)
    requires v < Pow2(8 * n)
    ensures Value(Digits(v, n)) == v
  {
    if n > 0 {
      Pow2Eight(8 * (n - 1));
      ValueOfDigits(v / 256, n - 1);
      assert Digits(v, n)[1..] == Digits(v / 256, n - 1);
    }
  }

  lemma {:induction false} ValueIsBelow(w: bytes)
    ensures Value(w) < Pow2(8 * |w|)
  {
    if w != [] {
      ValueIsBelow(w[1..]);
      Pow2Eight(8 * (|w| - 1));
    }
  }

  lemma {:induction false} Pow2Eight(n: nat)
    ensures Pow2(n + 8) == 256 * Pow2(n)
  {
    Pow2Adds(4, 4);
    Pow2Adds(8, n);
    assert Pow2(4) == 16;
  }

  lemma {:induction false} Pow2ThirtyTwo()
    ensures Pow2(32) == U32
  {
    Pow2Adds(8, 8);
    Pow2Adds(16, 16);
    Pow2Eight(0);
  }

  lemma {:induction false} SwappedTwice(order: Order, w: bytes)
    requires |w| == 4
    ensures Swapped(order, Swapped(order, w)) == w
  {
  }

  /** A number below 2^32 survives as a word, in either byte order. */
  lemma {:induction false} NumberOfWord(order: Order, v: nat)
    requires v < U32
    ensures Number(order, Word(order, v)) == v
  {
    Pow2ThirtyTwo();
    ValueOfDigits(v, 4);
    SwappedTwice(order, Digits(v, 4));
  }

  /** Every four bytes are the word of a number below 2^32. */
  lemma {:induction false} WordOfNumber(order: Order, w: bytes)
    requires |w| == 4
    ensures Word(order, Number(order, w)) == w
    ensures Number(order, w) < U32
  {
    var s := Swapped(order, w);
    Pow2ThirtyTwo();
    DigitsOfValue(s);
    ValueIsBelow(s);
    SwappedTwice(order, w);
  }

  // ---- The host's side ----

  /** The byte order in which the host keeps a uint32_t in memory. */
  function HostOrder(bigEndianHost: bool): Order {
    if bigEndianHost then Big else Little
  }

  /** __builtin_bswap32 */
  function ByteSwap(x: nat): nat {
    Number(Big, Word(Little, x))
  }

  /** The macro htowasm, and wasmtoh, which is the same. */
  function HostToWasm(bigEndianHost: bool, usesWasmByteOrder: bool, x: nat): nat {
    if bigEndianHost && usesWasmByteOrder then ByteSwap(x) else x
  }

  lemma {:induction false} WordOfNumberSwapped(w: bytes)
    requires |w| == 4
    ensures Word(Big, Number(Little, w)) == [w[3], w[2], w[1], w[0]]
    ensures Number(Big, w) == Number(Little, [w[3], w[2], w[1], w[0]])
  {
    WordOfNumber(Little, w);
  }

  /** What the host writes when it copies a converted number, and what it makes of the bytes that it
      copies back, is the word in the wire order of that host and VM. */
  lemma {:induction false} WireOrderIsUsed(bigEndianHost: bool, usesWasmByteOrder: bool, x: nat, w: bytes)
    requires x < U32 && |w| == 4
    ensures Word(HostOrder(bigEndianHost), HostToWasm(bigEndianHost, usesWasmByteOrder, x))
         == Word(WireOrder(bigEndianHost, usesWasmByteOrder), x)
    ensures HostToWasm(bigEndianHost, usesWasmByteOrder, Number(HostOrder(bigEndianHost), w))
         == Number(WireOrder(bigEndianHost, usesWasmByteOrder), w)
  {
    if bigEndianHost && usesWasmByteOrder {
      WordOfNumber(Big, Word(Little, x));
      WordOfNumber(Big, w);
      WordOfNumberSwapped(w);
    }
  }

  /** A VM that uses Wasm's byte order finds the same bytes on every host, the lowest first. */
  lemma {:induction false} WasmOrderIsLittle(bigEndianHost: bool, x: nat)
    requires x < U32
    ensures Word(HostOrder(bigEndianHost), HostToWasm(bigEndianHost, true, x)) == Digits(x, 4)
  {
    WireOrderIsUsed(bigEndianHost, true, x, [0, 0, 0, 0]);
  }

  /** The bytes of a word, each by its value: the lowest first, or last. */
  lemma {:induction false} WordBytes(v: nat)
    ensures Word(Little, v)
         == [v % 0x100, v / 0x100 % 0x100, v / 0x100 / 0x100 % 0x100, v / 0x100 / 0x100 / 0x100 % 0x100]
    ensures Word(Big, v)
         == [v / 0x100 / 0x100 / 0x100 % 0x100, v / 0x100 / 0x100 % 0x100, v / 0x100 % 0x100, v % 0x100]
  {
    assert Digits(v, 4) == [v % 256] + Digits(v / 256, 3);
    assert Digits(v / 256, 3) == [v / 256 % 256] + Digits(v / 256 / 256, 2);
    assert Digits(v / 256 / 256, 2) == [v / 256 / 256 % 256] + Digits(v / 256 / 256 / 256, 1);
    assert Digits(v / 256 / 256 / 256, 1) == [v / 256 / 256 / 256 % 256] + Digits(v / 256 / 256 / 256 / 256, 0);
  }

  /** Numbers are converted only on a big-endian host, and only for a VM with Wasm's byte order. */
  lemma {:induction false} OthersKeepTheNumber(bigEndianHost: bool, usesWasmByteOrder: bool, x: nat)
    requires !bigEndianHost || !usesWasmByteOrder
    ensures HostToWasm(bigEndianHost, usesWasmByteOrder, x) == x
    ensures WireOrder(bigEndianHost, usesWasmByteOrder) == if bigEndianHost then Big else Little
  {
  }
}
