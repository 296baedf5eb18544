/**
 The two WASI calls by which a VM fetches its environment: environ_sizes_get tells it how much room
 to make, environ_get fills that room with pointers and the strings they point to.
 */
module Environ {
  import opened Bytes
  import opened Words

  /** A variable's name and its value. */
  type Variable = (bytes, bytes)

  /** The variables in the order in which the host's map is iterated. */
  type Variables = seq<Variable>

  const SUCCESS: nat := 0  // __WASI_ESUCCESS
  const FAULT: nat := 21  // __WASI_EFAULT
  const EQUALS: byte := 0x3d

  /** A range of wasm32 memory that the VM lets the host write. */
  predicate Fits(m: bytes, pointer: nat, size: nat) {
    pointer + size < U32 && pointer + size <= |m|
  }

  /** `m` with `data` written at `pointer`. */
  function Patched(m: bytes, pointer: nat, data: bytes): (r: bytes)
    requires Fits(m, pointer, |data|)
    ensures |r| == |m|
  {
    m[..pointer] + data + m[pointer + |data|..]
  }

  /** The string for a variable, with its NUL. */
  function Entry(v: Variable): (data: bytes)
    ensures |data| == |v.0| + |v.1| + 2
  {
    v.0 + [EQUALS] + v.1 + [0]
  }

  /** The room for the strings. */
  function TotalSize(envs: Variables): nat {
    if envs == [] then 0 else |Entry(envs[0])| + TotalSize(envs[1..])
  }

  /** WasmVm::setMemory. */
  method SetMemory(memory: array<byte>, pointer: nat, data: bytes) returns (ok: bool)
    modifies memory
    ensures ok == Fits(old(memory[..]), pointer, |data|)
    ensures ok <==> pointer + |data| <= 0xffff_ffff && pointer + |data| <= memory.Length
    ensures memory[..] == if ok then Patched(old(memory[..]), pointer, data) else old(memory[..])
  {
    if pointer >= U32 || |data| >= U32 || pointer + |data| >= U32 {
      return false;
    }
    if pointer + |data| > memory.Length {
      return false;
    }
    forall i | 0 <= i < |data| {
      memory[pointer + i] := data[i];
    }
    ok := true;
  }

  /** WasmVm::setWord: four bytes, the lowest first. */
  method SetWord(memory: array<byte>, pointer: nat, word: nat) returns (ok: bool)
    modifies memory
    ensures ok == Fits(old(memory[..]), pointer, 4)
    ensures memory[..] == if ok then Patched(old(memory[..]), pointer, Word(Little, word)) else old(memory[..])
  {
    ok := SetMemory(memory, pointer, Word(Little, word));
  }

  /** Writing one variable: a pointer at `pointers`, and the string it points to at `buf`. */
  function OneWritten(m: bytes, pointers: nat, buf: nat, v: Variable): (r: (bool, bytes))
    ensures |r.1| == |m|
  {
    if !Fits(m, pointers, 4) then
      (false, m)
    else
      var m1 := Patched(m, pointers, Word(Little, buf));
      if !Fits(m1, buf, |Entry(v)|) then (false, m1) else (true, Patched(m1, buf, Entry(v)))
  }

  /** Writing them all, up to the first that does not fit. */
  function Written(m: bytes, pointers: nat, buf: nat, envs: Variables): (r: (bool, bytes))
    ensures |r.1| == |m|
    decreases |envs|
  {
    if envs == [] then
      (true, m)
    else
      var (ok, m1) := OneWritten(m, pointers, buf, envs[0]);
      if !ok then (false, m1) else Written(m1, pointers + 4, buf + |Entry(envs[0])|, envs[1..])
  }

  /** The writing of one variable. */
  method SetVariable(memory: array<byte>, arrayPtr: nat, buf: nat, v: Variable) returns (ok: bool, size: nat)
    modifies memory
    ensures (ok, memory[..]) == OneWritten(old(memory[..]), arrayPtr, buf, v) && size == |Entry(v)|
  {
    var data := v.0 + [EQUALS] + v.1 + [0];
    size := |data|;
    ok := SetWord(memory, arrayPtr, buf);
    if ok {
      ok := SetMemory(memory, buf, data);
    }
  }

  /** wasi_unstable_environ_get. */
  method EnvironGet(memory: array<byte>, environArrayPtr: nat, environBuf: nat, envs: Variables) returns (errno: nat)
    modifies memory
    ensures errno == if Written(old(memory[..]), environArrayPtr, environBuf, envs).0 then 0 else 21
    ensures memory[..] == Written(old(memory[..]), environArrayPtr, environBuf, envs).1
  {
    var arrayPtr: nat, buf: nat := environArrayPtr, environBuf;
    ghost var answer := Written(memory[..], arrayPtr, buf, envs);
    assert envs[0..] == envs;
    for i := 0 to |envs|
      invariant Written(memory[..], arrayPtr, buf, envs[i..]) == answer
    {
      assert envs[i..][1..] == envs[i + 1..];
      var ok, size := SetVariable(memory, arrayPtr, buf, envs[i]);
      if !ok {
        return FAULT;
      }
      buf := buf + size;
      arrayPtr := arrayPtr + 4;
    }
    errno := SUCCESS;
  }

  /** Writing the number of variables and the size of their strings. */
  function SizesWritten(m: bytes, countPtr: nat, sizePtr: nat, envs: Variables): (r: (bool, bytes))
    ensures |r.1| == |m|
    ensures r.0 ==> countPtr + 4 <= |m| && sizePtr + 4 <= |m|
  {
    if !Fits(m, countPtr, 4) then
      (false, m)
    else
      var m1 := Patched(m, countPtr, Word(Little, |envs|));
      if !Fits(m1, sizePtr, 4) then (false, m1) else (true, Patched(m1, sizePtr, Word(Little, TotalSize(envs))))
  }

  /** wasi_unstable_environ_sizes_get. */
  method EnvironSizesGet(memory: array<byte>, countPtr: nat, bufSizePtr: nat, envs: Variables) returns (errno: nat)
    modifies memory
    ensures errno == if SizesWritten(old(memory[..]), countPtr, bufSizePtr, envs).0 then 0 else 21
    ensures memory[..] == SizesWritten(old(memory[..]), countPtr, bufSizePtr, envs).1
  {
    var ok := SetWord(memory, countPtr, |envs|);
    if !ok {
      return FAULT;
    }
    var size: nat := 0;
    for i := 0 to |envs|
      invariant size + TotalSize(envs[i..]) == TotalSize(envs)
    {
      assert envs[i..][1..] == envs[i + 1..];
      size := size + |envs[i].0| + |envs[i].1| + 2;
    }
    ok := SetWord(memory, bufSizePtr, size);
    if !ok {
      return FAULT;
    }
    errno := SUCCESS;
  }

  // ---- What is written where ----

  lemma {:induction false} OneSucceedsExactlyIf(m: bytes, pointers: nat, buf: nat, v: Variable)
    ensures OneWritten(m, pointers, buf, v).0 <==> Fits(m, pointers, 4) && Fits(m, buf, |Entry(v)|)
  {
  }

  /** What the memory lets the host write: nothing beyond 2^32 - 1, and nothing beyond its end. */
  lemma {:induction false} FitsMeaning(m: bytes, pointer: nat, size: nat)
    ensures Fits(m, pointer, size) <==> pointer + size <= 0xffff_ffff && pointer + size <= |m|
  {
  }

  /** environ_get succeeds exactly if there is nothing to write, or the room for the pointers and that
      for the strings are both in the memory. */
  lemma {:induction false} SucceedsExactlyIf(m: bytes, pointers: nat, buf: nat, envs: Variables)
    ensures Written(m, pointers, buf, envs).0
       <==> envs == [] || (Fits(m, pointers, 4 * |envs|) && Fits(m, buf, TotalSize(envs)))
    decreases |envs|
  {
    if envs != [] {
      OneSucceedsExactlyIf(m, pointers, buf, envs[0]);
      SucceedsExactlyIf(OneWritten(m, pointers, buf, envs[0]).1, pointers + 4, buf + |Entry(envs[0])|, envs[1..]);
    }
  }

  predicate Within(k: nat, pointer: nat, size: nat) {
    pointer <= k < pointer + size
  }

  lemma {:induction false} PatchedAt(m: bytes, pointer: nat, data: bytes, k: nat)
    requires Fits(m, pointer, |data|) && k < |m|
    ensures Patched(m, pointer, data)[k] == if Within(k, pointer, |data|) then data[k - pointer] else m[k]
  {
  }

  lemma {:induction false} OneWritesNothingElse(m: bytes, pointers: nat, buf: nat, v: Variable, k: nat)
    requires k < |m| && !Within(k, pointers, 4) && !Within(k, buf, |Entry(v)|)
    ensures OneWritten(m, pointers, buf, v).1[k] == m[k]
  {
    if Fits(m, pointers, 4) {
      PatchedAt(m, pointers, Word(Little, buf), k);
      if Fits(m, buf, |Entry(v)|) {
        PatchedAt(Patched(m, pointers, Word(Little, buf)), buf, Entry(v), k);
      }
    }
  }

  /** Whether it succeeds or fails, it writes nowhere else than there. */
  lemma {:induction false} NothingElseWritten(m: bytes, pointers: nat, buf: nat, envs: Variables, k: nat)
    requires k < |m| && !Within(k, pointers, 4 * |envs|) && !Within(k, buf, TotalSize(envs))
    ensures Written(m, pointers, buf, envs).1[k] == m[k]
    decreases |envs|
  {
    if envs != [] {
      OneWritesNothingElse(m, pointers, buf, envs[0], k);
      NothingElseWritten(OneWritten(m, pointers, buf, envs[0]).1, pointers + 4, buf + |Entry(envs[0])|, envs[1..], k);
    }
  }

  /** Two ranges without a common byte. */
  predicate Disjoint(p: nat, n: nat, q: nat, k: nat) {
    p + n <= q || q + k <= p
  }

  /** `data` is in memory at `pointer`. */
  ghost predicate At(m: bytes, pointer: nat, data: bytes) {
    pointer + |data| <= |m| && m[pointer..pointer + |data|] == data
  }

  lemma {:induction false} PatchIsThere(m: bytes, pointer: nat, data: bytes)
    requires Fits(m, pointer, |data|)
    ensures At(Patched(m, pointer, data), pointer, data)
  {
  }

  lemma {:induction false} PatchLeaves(m: bytes, pointer: nat, data: bytes, p: nat, d: bytes)
    requires Fits(m, pointer, |data|) && At(m, p, d) && Disjoint(pointer, |data|, p, |d|)
    ensures At(Patched(m, pointer, data), p, d)
  {
    var m' := Patched(m, pointer, data);
    forall k | 0 <= k < |d| ensures m'[p + k] == d[k] {
      PatchedAt(m, pointer, data, p + k);
      assert m[p..p + |d|][k] == d[k];
    }
    assert m'[p..p + |d|] == d;
  }

  lemma {:induction false} RestLeaves(m: bytes, pointers: nat, buf: nat, envs: Variables, p: nat, d: bytes)
    requires At(m, p, d) && Disjoint(pointers, 4 * |envs|, p, |d|) && Disjoint(buf, TotalSize(envs), p, |d|)
    ensures At(Written(m, pointers, buf, envs).1, p, d)
  {
    var m' := Written(m, pointers, buf, envs).1;
    forall k | 0 <= k < |d| ensures m'[p + k] == d[k] {
      NothingElseWritten(m, pointers, buf, envs, p + k);
      assert m[p..p + |d|][k] == d[k];
    }
    assert m'[p..p + |d|] == d;
  }

  /** Where string `i` starts: behind the strings before it. */
  function Offset(envs: Variables, i: nat): nat
    requires i <= |envs|
  {
    TotalSize(envs[..i])
  }

  lemma {:induction false} OffsetOfRest(envs: Variables, i: nat)
    requires 0 < i <= |envs|
    ensures Offset(envs, i) == |Entry(envs[0])| + Offset(envs[1..], i - 1)
  {
    assert envs[..i][1..] == envs[1..][..i - 1];
  }

  /** The strings follow one another without a gap, up to the end of their room. */
  lemma {:induction false} StringsAreContiguous(envs: Variables, i: nat)
    requires i <= |envs|
    ensures i < |envs| ==> Offset(envs, i) + |Entry(envs[i])| == Offset(envs, i + 1)
    ensures Offset(envs, i) <= TotalSize(envs) && (i == |envs| ==> Offset(envs, i) == TotalSize(envs))
  {
    if envs != [] {
      if i > 0 {
        OffsetOfRest(envs, i);
        StringsAreContiguous(envs[1..], i - 1);
      }
      if i < |envs| {
        OffsetOfRest(envs, i + 1);
        assert envs[1..][..0] == envs[..0] == [];
      }
    }
    assert envs[..|envs|] == envs;
  }

  /** Room for the pointers and for the strings, apart from each other. */
  predicate Roomy(m: bytes, pointers: nat, buf: nat, envs: Variables) {
    && Fits(m, pointers, 4 * |envs|) && Fits(m, buf, TotalSize(envs))
    && Disjoint(pointers, 4 * |envs|, buf, TotalSize(envs))
  }

  lemma {:induction false} RestWritten(m: bytes, pointers: nat, buf: nat, envs: Variables, m2: bytes, next: nat)
    requires envs != [] && Roomy(m, pointers, buf, envs) && next == buf + |Entry(envs[0])|
    requires m2 == OneWritten(m, pointers, buf, envs[0]).1
    ensures Written(m, pointers, buf, envs) == Written(m2, pointers + 4, next, envs[1..])
    ensures Roomy(m2, pointers + 4, next, envs[1..])
  {
    OneSucceedsExactlyIf(m, pointers, buf, envs[0]);
  }

  lemma {:induction false} FirstIsThere(m: bytes, pointers: nat, buf: nat, v: Variable)
    requires Fits(m, pointers, 4) && Fits(m, buf, |Entry(v)|) && Disjoint(pointers, 4, buf, |Entry(v)|)
    ensures At(OneWritten(m, pointers, buf, v).1, pointers, Word(Little, buf))
    ensures At(OneWritten(m, pointers, buf, v).1, buf, Entry(v))
  {
    var word, data := Word(Little, buf), Entry(v);
    var m1 := Patched(m, pointers, word);
    PatchIsThere(m, pointers, word);
    PatchLeaves(m1, buf, data, pointers, word);
    PatchIsThere(m1, buf, data);
  }

  /** The pointer to the variable's string, and the string itself. */
  ghost predicate Stored(m: bytes, pointer: nat, address: nat, v: Variable) {
    At(m, pointer, Word(Little, address)) && At(m, address, Entry(v))
  }

  /** With room for both, and the two apart, pointer `i` has the address of string `i`, and the
      string is there. */
  lemma {:induction false} EachStringIsThere(m: bytes, pointers: nat, buf: nat, envs: Variables, i: nat,
                                             pointer: nat, address: nat)
    requires i < |envs| && Roomy(m, pointers, buf, envs)
    requires pointer == pointers + 4 * i && address == buf + Offset(envs, i)
    ensures Stored(Written(m, pointers, buf, envs).1, pointer, address, envs[i])
    decreases |envs|
  {
    var next, rest := buf + |Entry(envs[0])|, envs[1..];
    var m2 := OneWritten(m, pointers, buf, envs[0]).1;
    RestWritten(m, pointers, buf, envs, m2, next);
    if i == 0 {
      FirstStays(m, pointers, buf, envs, m2, next);
      assert envs[..0] == [];
    } else {
      OffsetOfRest(envs, i);
      EachStringIsThere(m2, pointers + 4, next, rest, i - 1, pointer, address);
    }
  }

  lemma {:induction false} FirstStays(m: bytes, pointers: nat, buf: nat, envs: Variables, m2: bytes, next: nat)
    requires envs != [] && Roomy(m, pointers, buf, envs) && next == buf + |Entry(envs[0])|
    requires m2 == OneWritten(m, pointers, buf, envs[0]).1
    ensures Stored(Written(m2, pointers + 4, next, envs[1..]).1, pointers, buf, envs[0])
  {
    FirstIsThere(m, pointers, buf, envs[0]);
    RestLeaves(m2, pointers + 4, next, envs[1..], pointers, Word(Little, buf));
    RestLeaves(m2, pointers + 4, next, envs[1..], buf, Entry(envs[0]));
  }

  // ---- The two calls together ----

  /** The word at an address. */
  function WordAt(m: bytes, pointer: nat): nat
    requires pointer + 4 <= |m|
  {
    Number(Little, m[pointer..pointer + 4])
  }

  /** The C string at an address: up to the first NUL. */
  function CString(m: bytes, pointer: nat): Option<bytes>
    decreases |m| - pointer
  {
    if pointer >= |m| then None
    else if m[pointer] == 0 then Some([])
    else
      match CString(m, pointer + 1)
      case None => None
      case Some(s) => Some([m[pointer]] + s)
  }

  lemma {:induction false} CStringOf(m: bytes, pointer: nat, s: bytes)
    requires At(m, pointer, s + [0]) && 0 !in s
    ensures CString(m, pointer) == Some(s)
    decreases |s|
  {
    var d := s + [0];
    assert m[pointer] == m[pointer..pointer + |d|][0] == d[0];
    if s != [] {
      assert m[pointer + 1..pointer + |d|] == m[pointer..pointer + |d|][1..] == s[1..] + [0];
      CStringOf(m, pointer + 1, s[1..]);
      assert [s[0]] + s[1..] == s;
    }
  }

  /** What environ_sizes_get reports, unless it is too large for a word. */
  lemma {:induction false} SizesReported(m: bytes, countPtr: nat, sizePtr: nat, envs: Variables)
    requires SizesWritten(m, countPtr, sizePtr, envs).0 && Disjoint(countPtr, 4, sizePtr, 4)
    requires |envs| < U32 && TotalSize(envs) < U32
    ensures var m' := SizesWritten(m, countPtr, sizePtr, envs).1;
            && |m'| == |m| && countPtr + 4 <= |m| && sizePtr + 4 <= |m|
            && WordAt(m', countPtr) == |envs| && WordAt(m', sizePtr) == TotalSize(envs)
  {
    var count, size := Word(Little, |envs|), Word(Little, TotalSize(envs));
    var m1 := Patched(m, countPtr, count);
    PatchIsThere(m, countPtr, count);
    PatchLeaves(m1, sizePtr, size, countPtr, count);
    PatchIsThere(m1, sizePtr, size);
    NumberOfWord(Little, |envs|);
    NumberOfWord(Little, TotalSize(envs));
  }

  /** Read through its pointer, the variable is there as "name=value". */
  ghost predicate Readable(m: bytes, pointer: nat, v: Variable) {
    pointer + 4 <= |m| && CString(m, WordAt(m, pointer)) == Some(v.0 + [0x3d] + v.1)
  }

  /** A VM that makes as much room as environ_sizes_get reports, in two separate ranges, gets its
      whole environment from environ_get: each variable can be read through its pointer, and nothing
      outside that room has changed. */
  lemma {:induction false} EnvironmentArrives(m: bytes, pointers: nat, buf: nat, count: nat, size: nat, envs: Variables)
    requires count == |envs| && size == TotalSize(envs)
    requires Fits(m, pointers, 4 * count) && Fits(m, buf, size) && Disjoint(pointers, 4 * count, buf, size)
    ensures Written(m, pointers, buf, envs).0
    ensures forall i | 0 <= i < count && 0 !in envs[i].0 && 0 !in envs[i].1 ::
              Readable(Written(m, pointers, buf, envs).1, pointers + 4 * i, envs[i])
    ensures forall k | 0 <= k < |m| && !Within(k, pointers, 4 * count) && !Within(k, buf, size) ::
              Written(m, pointers, buf, envs).1[k] == m[k]
  {
    SucceedsExactlyIf(m, pointers, buf, envs);
    forall i | 0 <= i < count && 0 !in envs[i].0 && 0 !in envs[i].1
      ensures Readable(Written(m, pointers, buf, envs).1, pointers + 4 * i, envs[i])
    {
      VariableArrives(m, pointers, buf, envs, i);
    }
    forall k | 0 <= k < |m| && !Within(k, pointers, 4 * count) && !Within(k, buf, size)
      ensures Written(m, pointers, buf, envs).1[k] == m[k]
    {
      NothingElseWritten(m, pointers, buf, envs, k);
    }
  }

  /** The two calls together: the VM reads the count and the size that the first call wrote, does with
      its memory what it likes, makes that much room, and makes the second call. */
  lemma {:induction false} TwoCallsDeliver(m: bytes, countPtr: nat, sizePtr: nat, m1: bytes,
                                           m2: bytes, pointers: nat, buf: nat, envs: Variables)
    requires |envs| < U32 && TotalSize(envs) < U32 && Disjoint(countPtr, 4, sizePtr, 4)
    requires SizesWritten(m, countPtr, sizePtr, envs) == (true, m1)
    requires Fits(m2, pointers, 4 * WordAt(m1, countPtr)) && Fits(m2, buf, WordAt(m1, sizePtr))
    requires Disjoint(pointers, 4 * WordAt(m1, countPtr), buf, WordAt(m1, sizePtr))
    ensures Written(m2, pointers, buf, envs).0
    ensures forall i | 0 <= i < |envs| && 0 !in envs[i].0 && 0 !in envs[i].1 ::
              Readable(Written(m2, pointers, buf, envs).1, pointers + 4 * i, envs[i])
    ensures forall k | 0 <= k < |m2| && !Within(k, pointers, 4 * WordAt(m1, countPtr)) && !Within(k, buf, WordAt(m1, sizePtr)) ::
              Written(m2, pointers, buf, envs).1[k] == m2[k]
  {
    SizesReported(m, countPtr, sizePtr, envs);
    EnvironmentArrives(m2, pointers, buf, WordAt(m1, countPtr), WordAt(m1, sizePtr), envs);
  }

  lemma {:induction false} WordIsRead(m: bytes, pointer: nat, v: nat)
    requires At(m, pointer, Word(Little, v)) && v < U32
    ensures pointer + 4 <= |m| && WordAt(m, pointer) == v
  {
    NumberOfWord(Little, v);
  }

  lemma {:induction false} StoredIsReadable(m: bytes, pointer: nat, address: nat, v: Variable)
    requires Stored(m, pointer, address, v) && address < U32 && 0 !in v.0 && 0 !in v.1
    ensures Readable(m, pointer, v)
  {
    WordIsRead(m, pointer, address);
    CStringOf(m, address, v.0 + [EQUALS] + v.1);
  }

  lemma {:induction false} VariableArrives(m: bytes, pointers: nat, buf: nat, envs: Variables, i: nat)
    requires i < |envs| && 0 !in envs[i].0 && 0 !in envs[i].1 && Roomy(m, pointers, buf, envs)
    ensures Readable(Written(m, pointers, buf, envs).1, pointers + 4 * i, envs[i])
  {
    var address := buf + Offset(envs, i);
    EachStringIsThere(m, pointers, buf, envs, i, pointers + 4 * i, address);
    StringsAreContiguous(envs, i);
    StoredIsReadable(Written(m, pointers, buf, envs).1, pointers + 4 * i, address, envs[i]);
  }

  // ---- When there is not enough room ----

  /** Position `k` is that of the first variable that does not fit. */
  ghost predicate IsFirstFault(m: bytes, pointers: nat, buf: nat, envs: Variables, k: nat) {
    && k < |envs|
    && !(Fits(m, pointers + 4 * k, 4) && Fits(m, buf + Offset(envs, k), |Entry(envs[k])|))
    && forall i | 0 <= i < k :: Fits(m, pointers + 4 * i, 4) && Fits(m, buf + Offset(envs, i), |Entry(envs[i])|)
  }

  /** The memory with one pointer more, if it fits. */
  function WithPointer(m: bytes, pointer: nat, address: nat): bytes {
    if Fits(m, pointer, 4) then Patched(m, pointer, Word(Little, address)) else m
  }

  /** A failed call has written the variables before the first one that does not fit, and the pointer of
      that one if the pointer fits. */
  lemma {:induction false} FaultLeaves(m: bytes, pointers: nat, buf: nat, envs: Variables)
    returns (k: nat, before: bytes, pointer: nat, address: nat)
    requires !Written(m, pointers, buf, envs).0
    ensures IsFirstFault(m, pointers, buf, envs, k) && pointer == pointers + 4 * k && address == buf + Offset(envs, k)
    ensures Written(m, pointers, buf, envs[..k]) == (true, before)
    ensures Written(m, pointers, buf, envs).1 == WithPointer(before, pointer, address)
    decreases |envs|
  {
    if !OneWritten(m, pointers, buf, envs[0]).0 {
      k, before, pointer, address := 0, m, pointers, buf;
      FirstFaultHere(m, pointers, buf, envs);
    } else {
      var m1, rest, next := OneWritten(m, pointers, buf, envs[0]).1, envs[1..], buf + |Entry(envs[0])|;
      OneSucceedsExactlyIf(m, pointers, buf, envs[0]);
      var later;
      later, before, pointer, address := FaultLeaves(m1, pointers + 4, next, rest);
      k := later + 1;
      FirstFaultLater(m, m1, pointers, buf, envs, later);
      WrittenOneMore(m, pointers, buf, envs, m1, later);
    }
  }

  lemma {:induction false} FirstFaultHere(m: bytes, pointers: nat, buf: nat, envs: Variables)
    requires envs != [] && !OneWritten(m, pointers, buf, envs[0]).0
    ensures IsFirstFault(m, pointers, buf, envs, 0) && Offset(envs, 0) == 0
    ensures Written(m, pointers, buf, envs[..0]) == (true, m)
    ensures Written(m, pointers, buf, envs).1 == WithPointer(m, pointers, buf)
  {
    assert envs[..0] == [];
  }

  lemma {:induction false} WrittenOneMore(m: bytes, pointers: nat, buf: nat, envs: Variables, m1: bytes, later: nat)
    requires envs != [] && later < |envs| && OneWritten(m, pointers, buf, envs[0]) == (true, m1)
    ensures Written(m, pointers, buf, envs) == Written(m1, pointers + 4, buf + |Entry(envs[0])|, envs[1..])
    ensures Written(m, pointers, buf, envs[..later + 1])
         == Written(m1, pointers + 4, buf + |Entry(envs[0])|, envs[1..][..later])
  {
    assert envs[..later + 1][0] == envs[0] && envs[..later + 1][1..] == envs[1..][..later];
  }

  lemma {:induction false} FirstFaultLater(m: bytes, m1: bytes, pointers: nat, buf: nat, envs: Variables, later: nat)
    requires envs != [] && |m1| == |m| && Fits(m, pointers, 4) && Fits(m, buf, |Entry(envs[0])|)
    requires IsFirstFault(m1, pointers + 4, buf + |Entry(envs[0])|, envs[1..], later)
    ensures IsFirstFault(m, pointers, buf, envs, later + 1)
    ensures Offset(envs, later + 1) == |Entry(envs[0])| + Offset(envs[1..], later)
  {
    OffsetOfRest(envs, later + 1);
    forall i | 0 <= i < later + 1
      ensures Fits(m, pointers + 4 * i, 4) && Fits(m, buf + Offset(envs, i), |Entry(envs[i])|)
    {
      if i == 0 {
        assert envs[..0] == [];
      } else {
        OffsetOfRest(envs, i);
        assert Fits(m1, pointers + 4 + 4 * (i - 1), 4);
        assert Fits(m1, buf + |Entry(envs[0])| + Offset(envs[1..], i - 1), |Entry(envs[1..][i - 1])|);
      }
    }
  }

  /** The string for a variable, byte by byte. */
  lemma {:induction false} EntryMeaning(v: Variable)
    ensures |Entry(v)| == |v.0| + 1 + |v.1| + 1
    ensures Entry(v)[..|v.0|] == v.0 && Entry(v)[|v.0|] == 0x3d
    ensures Entry(v)[|v.0| + 1..|v.0| + 1 + |v.1|] == v.1 && Entry(v)[|v.0| + 1 + |v.1|] == 0
  {
  }

  /** environ_sizes_get fails without a change if the count does not fit, and with the count written if only
      the size does not. */
  lemma {:induction false} SizesFault(m: bytes, countPtr: nat, sizePtr: nat, envs: Variables)
    ensures !Fits(m, countPtr, 4) ==> SizesWritten(m, countPtr, sizePtr, envs) == (false, m)
    ensures Fits(m, countPtr, 4) && !Fits(m, sizePtr, 4) ==>
              SizesWritten(m, countPtr, sizePtr, envs) == (false, Patched(m, countPtr, Word(Little, |envs|)))
    ensures Fits(m, countPtr, 4) && Fits(m, sizePtr, 4) ==> SizesWritten(m, countPtr, sizePtr, envs).0
  {
  }
}
