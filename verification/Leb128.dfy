/**
 The bounded LEB128 reader of the bytecode utilities, against the grammar of
 unsigned integers in section 5.2.2 of the WebAssembly Core Specification.
 */
module Leb128 {
  import opened Bytes

  /** A value read from the front of a byte string and the bytes it took. */
  datatype Read = Read(value: nat, size: nat)

  /** The value that the nonterminal u`bits` gives to exactly the byte string `s`. */
  ghost function Unsigned(bits: nat, s: bytes): Option<nat> {
    if s == [] then
      None
    else if s[0] < 128 then
      if |s| == 1 && s[0] < Pow2(bits) then Some(s[0]) else None
    else if bits > 7 then
      match Unsigned(bits - 7, s[1..])
      case None => None
      case Some(m) => Some(128 * m + (s[0] - 128))
    else
      None
  }

  /** Reads one u`bits` from the front of `s`. */
  function ReadUnsigned(bits: nat, s: bytes): (r: Option<Read>)
    ensures r.Some? ==> 0 < r.value.size <= |s|
    ensures r.Some? ==> r.value.size == 1 || 7 * r.value.size < bits + 7
  {
    if s == [] then
      None
    else if s[0] < 128 then
      if s[0] < Pow2(bits) then Some(Read(s[0], 1)) else None
    else if bits > 7 then
      match ReadUnsigned(bits - 7, s[1..])
      case None => None
      case Some(m) => Some(Read(128 * m.value + (s[0] - 128), 1 + m.size))
    else
      None
  }

  /** The value of a read that took exactly `n` bytes. */
  function Taking(r: Option<Read>, n: nat): Option<nat> {
    if r.Some? && r.value.size == n then Some(r.value.value) else None
  }

  /** The grammar is prefix-free and the reader decides it: the prefix that the reader takes is the
      only one that is a u`bits`, with the value it returns; when it takes none, none is. */
  lemma {:induction false} ReadsTheGrammar(bits: nat, s: bytes, n: nat)
    requires n <= |s|
    ensures Unsigned(bits, s[..n]) == Taking(ReadUnsigned(bits, s), n)
  {
    if n > 0 && s[0] >= 128 && bits > 7 {
      assert s[..n][1..] == s[1..][..n - 1];
      ReadsTheGrammar(bits - 7, s[1..], n - 1);
    }
  }

  /** An integer that was read is read the same from its own bytes alone. */
  lemma {:induction false} ReadAlone(bits: nat, s: bytes)
    requires ReadUnsigned(bits, s).Some?
    ensures ReadUnsigned(bits, s[..ReadUnsigned(bits, s).value.size]) == ReadUnsigned(bits, s)
  {
    if s[0] >= 128 {
      var n := ReadUnsigned(bits, s).value.size;
      assert s[..n][1..] == s[1..][..n - 1];
      ReadAlone(bits - 7, s[1..]);
    }
  }

  /** What follows an integer does not change how it is read. */
  lemma {:induction false} ReadIgnoresTheRest(bits: nat, s: bytes, rest: bytes)
    requires ReadUnsigned(bits, s).Some?
    ensures ReadUnsigned(bits, s + rest) == ReadUnsigned(bits, s)
  {
    assert (s + rest)[0] == s[0];
    if s[0] >= 128 {
      assert (s + rest)[1..] == s[1..] + rest;
      ReadIgnoresTheRest(bits - 7, s[1..], rest);
    }
  }

  /** An integer cut off at the end of `s`. */
  predicate Unfinished(bits: nat, s: bytes) {
    s == [] || (s[0] >= 128 && bits > 7 && Unfinished(bits - 7, s[1..]))
  }

  lemma {:induction false} UnfinishedIsUnread(bits: nat, s: bytes, after: bytes)
    requires Unfinished(bits, s)
    ensures ReadUnsigned(bits, s) == None
    ensures ReadUnsigned(bits, s + after).Some? ==> ReadUnsigned(bits, s + after).value.size > |s|
    ensures after != [] && after[0] == 0 ==> ReadUnsigned(bits, s + after).Some?
  {
    if s == [] {
      assert s + after == after;
    } else {
      assert (s + after)[1..] == s[1..] + after;
      UnfinishedIsUnread(bits - 7, s[1..], after);
    }
  }

  lemma {:induction false} FinishedStays(bits: nat, s: bytes, after: bytes)
    requires !Unfinished(bits, s)
    ensures ReadUnsigned(bits, s + after) == ReadUnsigned(bits, s)
  {
    assert (s + after)[0] == s[0];
    if s[0] >= 128 && bits > 7 {
      assert (s + after)[1..] == s[1..] + after;
      FinishedStays(bits - 7, s[1..], after);
    }
  }

  /** A byte 0 completes it, and then what follows does not matter. */
  lemma {:induction false} CompletedByZero(bits: nat, s: bytes, after: bytes)
    requires Unfinished(bits, s) && after != [] && after[0] == 0
    ensures ReadUnsigned(bits, s + [0]).Some? && ReadUnsigned(bits, s + [0]).value.size == |s| + 1
    ensures ReadUnsigned(bits, s + after) == ReadUnsigned(bits, s + [0])
  {
    UnfinishedIsUnread(bits, s, [0]);
    ReadIgnoresTheRest(bits, s + [0], after[1..]);
    assert s + [0] + after[1..] == s + after;
  }

  lemma {:induction false} Pow2Seven(n: nat)
    ensures Pow2(n + 7) == 128 * Pow2(n)
  {
    assert Pow2(n + 3) == 2 * Pow2(n + 2) == 4 * Pow2(n + 1) == 8 * Pow2(n);
    assert Pow2(n + 7) == 2 * Pow2(n + 6) == 4 * Pow2(n + 5) == 8 * Pow2(n + 4);
  }

  lemma {:induction false} Pow2Thirty()
    ensures Pow2(30) == 0x4000_0000
  {
    Pow2Seven(2);
    Pow2Seven(9);
    Pow2Seven(16);
    Pow2Seven(23);
    assert Pow2(2) == 4;
  }

  /** Read at a narrower type, an encoding is taken whole if its value fits and it is not too
      long, and refused otherwise. */
  lemma {:induction false} NarrowRead(wide: nat, narrow: nat, s: bytes, v: nat)
    requires 0 < narrow <= wide
    requires Unsigned(wide, s) == Some(v)
    ensures ReadUnsigned(narrow, s)
         == if v < Pow2(narrow) && 7 * |s| < narrow + 7 then Some(Read(v, |s|)) else None
    decreases |s|
  {
    if s[0] >= 128 && narrow > 7 {
      var m := Unsigned(wide - 7, s[1..]).value;
      NarrowRead(wide - 7, narrow - 7, s[1..], m);
      Pow2Seven(narrow - 7);
      assert v < Pow2(narrow) <==> m < Pow2(narrow - 7);
    }
  }

  /** Every Wasm u32 below 2^30 is taken whole, padded encodings included, and every other one is
      refused; the same holds of every encoding of at most five bytes (u35). */
  lemma TakesExactlyBelowTwoTo30(bits: nat, s: bytes, v: nat)
    requires bits == 32 || bits == 35
    requires Unsigned(bits, s) == Some(v)
    ensures |s| <= 5
    ensures ReadUnsigned(30, s) == if v < 0x4000_0000 then Some(Read(v, |s|)) else None
  {
    assert s[..|s|] == s;
    ReadsTheGrammar(bits, s, |s|);
    NarrowRead(bits, 30, s, v);
    Pow2Thirty();
  }

  lemma {:induction false} FitsInThirtyBits(s: bytes)
    requires ReadUnsigned(30, s).Some?
    ensures ReadUnsigned(30, s).value.value < 0x4000_0000
  {
    var r := ReadUnsigned(30, s).value;
    var word := s[..r.size];
    ReadAlone(30, s);
    ReadsTheGrammar(30, word, r.size);
    assert word[..r.size] == word;
    NarrowRead(30, 30, word, r.value);
    Pow2Thirty();
  }

  /** v << n */
  function ShiftLeft(v: nat, n: nat): nat {
    if n == 0 then v else 2 * ShiftLeft(v, n - 1)
  }

  lemma ShiftLeftAdds(a: nat, b: nat, m: nat, n: nat)
    ensures ShiftLeft(a + b, n) == ShiftLeft(a, n) + ShiftLeft(b, n)
    ensures ShiftLeft(ShiftLeft(a, m), n) == ShiftLeft(a, m + n)
  {
    if n > 0 {
      ShiftLeftAdds(a, b, m, n - 1);
    }
  }

  lemma {:induction false} ShiftLeftSevenMore(x: nat, v: nat, n: nat)
    ensures ShiftLeft(128 * x + v, n) == ShiftLeft(v, n) + ShiftLeft(x, n + 7)
  {
    assert ShiftLeft(x, 3) == 2 * ShiftLeft(x, 2) == 4 * ShiftLeft(x, 1) == 8 * x;
    assert ShiftLeft(x, 7) == 2 * ShiftLeft(x, 6) == 4 * ShiftLeft(x, 5) == 8 * ShiftLeft(x, 4);
    ShiftLeftAdds(128 * x, v, 0, n);
    ShiftLeftAdds(x, 0, 7, n);
  }

  /** What has been read so far: `low` holds the low `shift` bits, `high` is what is still to come. */
  function Combine(low: nat, shift: nat, high: Option<Read>, taken: nat): Option<Read> {
    match high
    case None => None
    case Some(r) => Some(Read(low + ShiftLeft(r.value, shift), taken + r.size))
  }

  /** What parseVarint knows in its loop after `taken` bytes: the answer is what has been read so
      far, completed with what is `left` to read. */
  ghost predicate Pending(answer: Option<Read>, left: bytes, low: nat, taken: nat) {
    taken <= 4 && answer == Combine(low, 7 * taken, ReadUnsigned(30 - 7 * taken, left), taken)
  }

  /** The same, kept folded, so that the loop passes it on without looking into it. */
  ghost predicate StillPending(answer: Option<Read>, left: bytes, low: nat, taken: nat) {
    forall t {:trigger Pending(answer, left, low, t)} | taken <= t <= taken :: Pending(answer, left, low, t)
  }

  /** One byte: it ends the integer, moves its seven bits from `left` to `low`, or is refused. */
  lemma {:induction false} PendingStep(answer: Option<Read>, left: bytes, low: nat, taken: nat, v: nat)
    requires StillPending(answer, left, low, taken) && left != []
    requires v == if left[0] < 128 then left[0] else left[0] - 128
    ensures taken <= 4 && (taken == 4 && (v > 3 || left[0] >= 128) ==> answer == None)
    ensures left[0] < 128 && !(taken == 4 && v > 3) ==>
              answer == Some(Read(low + ShiftLeft(v, 7 * taken), taken + 1))
    ensures left[0] >= 128 && taken < 4 ==>
              StillPending(answer, left[1..], low + ShiftLeft(v, 7 * taken), taken + 1)
  {
    if left[0] < 128 {
      PendingLast(answer, left, low, taken);
    } else if taken < 4 {
      PendingMore(answer, left, low, taken, v);
    } else {
      PendingTooLong(answer, left, low, taken);
    }
  }

  lemma {:induction false} PendingLast(answer: Option<Read>, left: bytes, low: nat, taken: nat)
    requires StillPending(answer, left, low, taken) && left != [] && left[0] < 128
    ensures taken <= 4
    ensures answer == if taken == 4 && left[0] > 3 then None else Some(Read(low + ShiftLeft(left[0], 7 * taken), taken + 1))
  {
    assert Pending(answer, left, low, taken);
    assert Pow2(7) == 128 && Pow2(2) == 4;
    if taken < 4 {
      Pow2Monotone(7, 30 - 7 * taken);
    }
  }

  lemma {:induction false} PendingTooLong(answer: Option<Read>, left: bytes, low: nat, taken: nat)
    requires StillPending(answer, left, low, taken) && left != [] && left[0] >= 128 && taken >= 4
    ensures taken == 4 && answer == None
  {
    assert Pending(answer, left, low, taken);
  }

  lemma {:induction false} PendingMore(answer: Option<Read>, left: bytes, low: nat, taken: nat, v: nat)
    requires StillPending(answer, left, low, taken) && left != [] && left[0] >= 128 && taken < 4 && v == left[0] - 128
    ensures StillPending(answer, left[1..], low + ShiftLeft(v, 7 * taken), taken + 1)
  {
    assert Pending(answer, left, low, taken);
    var m := ReadUnsigned(23 - 7 * taken, left[1..]);
    if m.Some? {
      ShiftLeftSevenMore(m.value.value, v, 7 * taken);
    }
  }

  lemma {:induction false} PendingEnds(answer: Option<Read>, left: bytes, low: nat, taken: nat)
    requires StillPending(answer, left, low, taken)
    ensures left == [] ==> answer == None
  {
    assert Pending(answer, left, low, taken);
  }

  /** What the reader's answer between two cursors says in terms of the grammar. */
  lemma {:induction false} ReadMeaning(b: bytes, start: nat, end: nat)
    requires start <= end <= |b|
    ensures var r := ReadUnsigned(30, Window(b, start, end));
            r.Some? ==>
              && start + r.value.size <= end && r.value.size <= 5 && r.value.value < 0x4000_0000
              && Unsigned(30, b[start..start + r.value.size]) == Some(r.value.value)
    ensures ReadUnsigned(30, Window(b, start, end)) == None ==>
              forall n | start <= n <= end :: Unsigned(30, b[start..n]) == None
  {
    var whole := Window(b, start, end);
    var r := ReadUnsigned(30, whole);
    if r.Some? {
      FitsInThirtyBits(whole);
      ReadsTheGrammar(30, whole, r.value.size);
      assert b[start..start + r.value.size] == whole[..r.value.size];
    } else {
      forall n | start <= n <= end
        ensures Unsigned(30, b[start..n]) == None
      {
        ReadsTheGrammar(30, whole, n - start);
        assert b[start..n] == whole[..n - start];
      }
    }
  }

  /** BytecodeUtil::parseVarint: moves the cursor over one integer below 2^30. */
  method ParseVarint(b: bytes, start: nat, end: nat) returns (ok: bool, pos: nat, value: nat)
    requires end <= |b|
    ensures start <= pos
    ensures ReadUnsigned(30, Window(b, start, end)) == if ok then Some(Read(value, pos - start)) else None
  {
    ok, pos, value := false, start, 0;
    var shift: nat, total: nat := 0, 0;
    ghost var left := Window(b, start, end);
    ghost var answer := ReadUnsigned(30, left);
    while pos < end
      invariant start <= pos && (pos <= end || pos == start)
      invariant shift == 7 * (pos - start) && left == Window(b, pos, end)
      invariant StillPending(answer, left, total, pos - start)
      decreases end - pos
    {
      var x := b[pos];
      var v := if x < 128 then x else x - 128;  // x & 0x7f
      PendingStep(answer, left, total, pos - start, v);
      pos, left := pos + 1, left[1..];
      if shift == 28 && v > 3 {
        return;
      }
      total := total + ShiftLeft(v, shift);
      if x < 128 {  // (x & 0x80) == 0
        return true, pos, total;
      }
      shift := shift + 7;
      if shift > 28 {
        return;
      }
    }
    PendingEnds(answer, left, total, pos - start);
  }

  // ---- The encoder ----

  /** The shortest encoding of a number. */
  function Encoded(v: nat): (s: bytes)
    ensures s != []
  {
    if v < 128 then [v] else [128 + v % 128] + Encoded(v / 128)
  }

  /** The encoding of every number that fits is read as that number. */
  lemma {:induction false} EncodedIsRead(bits: nat, v: nat, rest: bytes)
    requires v < Pow2(bits)
    ensures ReadUnsigned(bits, Encoded(v) + rest) == Some(Read(v, |Encoded(v)|))
  {
    var s := Encoded(v) + rest;
    assert s[0] == Encoded(v)[0];
    assert Pow2(7) == 128;
    if v >= 128 {
      if bits <= 7 {
        Pow2Monotone(bits, 7);
      }
      Pow2Seven(bits - 7);
      EncodedIsRead(bits - 7, v / 128, rest);
      assert s[1..] == Encoded(v / 128) + rest;
    }
  }

  /** In thirty bits. */
  lemma {:induction false} EncodedBelowTwoTo30(v: nat, rest: bytes)
    requires v < 0x4000_0000
    ensures ReadUnsigned(30, Encoded(v) + rest) == Some(Read(v, |Encoded(v)|))
  {
    Pow2Thirty();
    EncodedIsRead(30, v, rest);
  }
}
