/**
 BytecodeUtil::getStrippedSource: dropping the precompiled sections of a module, and what it
 leaves alone.
 */
module StrippedSource {
  import opened Bytes
  import opened Leb128
  import opened Sections

  /** "precompiled_" */
  const PRECOMPILED: bytes := [0x70, 0x72, 0x65, 0x63, 0x6f, 0x6d, 0x70, 0x69, 0x6c, 0x65, 0x64, 0x5f]

  predicate Contains(text: bytes, part: bytes) {
    part <= text || (text != [] && Contains(text[1..], part))
  }

  /** The name of the first section as the stripping walk reads it: bounded by the end of the file,
      not by the end of the section. */
  function LooseName(m: Module): Option<bytes>
    requires m.Sections?
  {
    var name := NameIn(m.first.body + Flatten(m.more));
    if name.Some? then Some(name.value.0) else None
  }

  /** The first section is a custom one with "precompiled_" in its name. */
  predicate Precompiled(m: Module)
    requires m.Sections?
  {
    m.first.id == CUSTOM && LooseName(m).Some? && Contains(LooseName(m).value, PRECOMPILED)
  }

  /** The stripping walk gets to the end of the module. */
  predicate Strippable(m: Module) {
    match m
    case Rest(rest) => rest == []
    case Sections(first, more) => (first.id == CUSTOM ==> LooseName(m).Some?) && Strippable(more)
  }

  predicate HasPrecompiled(m: Module) {
    m.Sections? && (Precompiled(m) || HasPrecompiled(m.more))
  }

  function NonCustom(m: Module): Module {
    match m
    case Rest(_) => m
    case Sections(first, more) => if first.id == CUSTOM then NonCustom(more) else Sections(first, NonCustom(more))
  }

  /** What stripping leaves: everything before the first precompiled section, and after it the
      non-custom sections. */
  function Stripped(m: Module): Module {
    match m
    case Rest(_) => m
    case Sections(first, more) => if Precompiled(m) then NonCustom(more) else Sections(first, Stripped(more))
  }

  /** The bytes of the header, as many of them as there are. */
  function HeaderOf(b: bytes): bytes {
    if |b| < 8 then b else b[..8]
  }

  /** The output for a strippable file. */
  function StrippedBytes(b: bytes): bytes {
    HeaderOf(b) + Flatten(Stripped(ModuleOf(b)))
  }

  /** What the walk appends to output that it has already begun, up to where it ends or fails. */
  function Appendage(m: Module): bytes {
    match m
    case Rest(_) => []
    case Sections(first, more) =>
      if first.id != CUSTOM then first.raw + Appendage(more)
      else if LooseName(m) == None then []
      else Appendage(more)
  }

  /** What it writes of the sections if nothing has been written before, up to where it ends or fails;
      None if it gets to no precompiled section. */
  function Begun(m: Module): Option<bytes> {
    match m
    case Rest(_) => None
    case Sections(first, more) =>
      if first.id == CUSTOM && LooseName(m) == None then None
      else if Precompiled(m) then Some(Appendage(more))
      else if Begun(more) == None then None
      else Some(first.raw + Begun(more).value)
  }

  /** What the walk has written when it ends or fails. */
  function WalkOutput(b: bytes, initial: bytes): bytes {
    if initial != [] then initial + Appendage(ModuleOf(b))
    else if Begun(ModuleOf(b)) == None then []
    else HeaderOf(b) + Begun(ModuleOf(b)).value
  }

  /** The part of the file before a cursor. */
  function Before(b: bytes, pos: nat): bytes {
    if pos <= |b| then b[..pos] else b
  }

  /** What the loop of getStrippedSource still owes of its output: `target` is what has been
      written (or is yet to be copied, if nothing has) followed by what becomes of `left`. */
  ghost predicate Owed(target: bytes, ret: bytes, b: bytes, pos: nat, left: Module) {
    target == if ret != [] then ret + Appendage(left)
              else if Begun(left) == None then []
              else Before(b, pos) + Begun(left).value
  }

  /** What one section adds to the output. */
  function Appended(ret: bytes, b: bytes, pos: nat, next: nat, custom: bool, precompiled: bool): bytes
    requires pos <= next <= |b|
  {
    if custom then
      if precompiled && ret == [] then ret + b[..pos] else ret
    else
      if ret != [] then ret + b[pos..next] else ret
  }

  /** The walk fails at the front of `m`, or ends there. */
  ghost predicate Stops(m: Module) {
    m.Rest? || (m.first.id == CUSTOM && LooseName(m) == None)
  }

  lemma {:induction false} OwedAtStop(target: bytes, ret: bytes, b: bytes, pos: nat, m: Module)
    requires Owed(target, ret, b, pos, m) && Stops(m)
    ensures ret == target
  {
    assert ret + [] == ret;
  }

  lemma {:induction false} MoveFront(front: bytes, b: bytes, pos: nat, next: nat, back: bytes)
    requires pos <= next <= |b|
    ensures front + (b[pos..next] + back) == front + b[pos..next] + back
    ensures b[..pos] + (b[pos..next] + back) == b[..next] + back
    ensures [] + b[..pos] == b[..pos]
  {
    assert b[..next] == b[..pos] + b[pos..next];
  }

  lemma {:induction false} OwedStep(target: bytes, ret: bytes, b: bytes, pos: nat, next: nat, m: Module)
    requires 0 < pos <= next <= |b| && m.Sections? && b[pos..next] == m.first.raw && !Stops(m)
    requires Owed(target, ret, b, pos, m)
    ensures Owed(target, Appended(ret, b, pos, next, m.first.id == CUSTOM, Precompiled(m)), b, next, m.more)
  {
    if Begun(m.more).Some? {
      MoveFront(ret, b, pos, next, Begun(m.more).value);
    }
    MoveFront(ret, b, pos, next, Appendage(m.more));
  }

  lemma {:induction false} LooseWindow(b: bytes, body: nat, next: nat, m: Module)
    requires m.Sections? && body <= next <= |b| && b[body..next] == m.first.body && Laid(b, next, m.more)
    ensures Window(b, body, |b|) == m.first.body + Flatten(m.more)
  {
    RestOfFile(b, next, m.more);
    Rejoined(b, body, next);
  }

  lemma {:induction false} Rejoined(b: bytes, from: nat, to: nat)
    requires from <= to <= |b|
    ensures Window(b, from, |b|) == b[from..to] + b[to..]
  {
  }

  /** The name check of the stripping walk on a custom section. */
  method CheckName(b: bytes, body: nat, next: nat, ghost m: Module) returns (ok: bool, precompiled: bool)
    requires m.Sections? && m.first.id == CUSTOM
    requires body <= next <= |b| && b[body..next] == m.first.body && Laid(b, next, m.more)
    ensures ok == LooseName(m).Some? && precompiled == Precompiled(m)
  {
    LooseWindow(b, body, next, m);
    var start, len;
    ok, start, len := ReadName(b, body, |b|, m.first.body + Flatten(m.more));
    precompiled := ok && Contains(b[start..start + len], PRECOMPILED);
  }

  /** BytecodeUtil::getStrippedSource; `initial` is what the output string holds on entry. */
  method GetStrippedSource(b: bytes, initial: bytes) returns (ok: bool, ret: bytes)
    ensures ok == (CheckWasmHeader(b) && Strippable(ModuleOf(b)))
    ensures ok ==> ret == if initial == [] then StrippedBytes(b) else initial + Flatten(NonCustom(ModuleOf(b)))
    ensures !ok ==> ret == if CheckWasmHeader(b) then WalkOutput(b, initial) else initial
  {
    ok, ret := false, initial;
    if !CheckWasmHeader(b) {
      return;
    }
    var pos: nat := 8;
    var end: nat := |b|;
    ghost var left := ModuleOf(b);
    ghost var target := WalkOutput(b, initial);
    EveryFileIsLaidOut(b);
    while pos < end
      invariant pos >= 8 && Laid(b, pos, left)
      invariant Strippable(ModuleOf(b)) == Strippable(left)
      invariant Owed(target, ret, b, pos, left)
      decreases end - pos
    {
      var good, sectionType, body, next := ReadSectionHeader(b, pos, left);
      if !good {
        OwedAtStop(target, ret, b, pos, left);
        return;
      }
      if sectionType == CUSTOM {
        var named, precompiled := CheckName(b, body, next, left);
        if !named {
          OwedAtStop(target, ret, b, pos, left);
          return;
        }
        OwedStep(target, ret, b, pos, next, left);
        if precompiled {
          if ret == [] {
            ret := ret + b[..pos];
          }
        }
      } else {
        OwedStep(target, ret, b, pos, next, left);
        if ret != [] {
          ret := ret + b[pos..next];
        }
      }
      pos := next;
      left := left.more;
    }
    OwedAtStop(target, ret, b, pos, left);
    OutputOfStrippable(b, initial);
    if ret == [] {
      ret := b;
    }
    ok := true;
  }

  lemma {:induction false} WalkOfStrippable(m: Module)
    requires Strippable(m)
    ensures Appendage(m) == Flatten(NonCustom(m))
    ensures Begun(m) == if HasPrecompiled(m) then Some(Flatten(Stripped(m))) else None
  {
    if m.Sections? {
      WalkOfStrippable(m.more);
    }
  }

  /** If the walk gets to the end, it has written the stripped file, or nothing if that is the
      original. */
  lemma {:induction false} OutputOfStrippable(b: bytes, initial: bytes)
    requires Strippable(ModuleOf(b))
    ensures initial != [] ==> WalkOutput(b, initial) == initial + Flatten(NonCustom(ModuleOf(b)))
    ensures initial == [] ==> StrippedBytes(b) == if WalkOutput(b, initial) == [] then b else WalkOutput(b, initial)
  {
    var m := ModuleOf(b);
    WalkOfStrippable(m);
    if HasPrecompiled(m) {
      assert HeaderOf(b) != [];
    } else {
      NothingToStrip(b);
    }
  }

  /** Wherever the walk stops, it has written the beginning of what stripping keeps. */
  lemma {:induction false} WalkWritesAPrefix(m: Module)
    ensures Appendage(m) <= Flatten(NonCustom(m))
    ensures Begun(m).Some? ==> Begun(m).value <= Flatten(Stripped(m))
  {
    if m.Sections? {
      WalkWritesAPrefix(m.more);
    }
  }

  /** So a failed call leaves the beginning of what stripping keeps, behind what was there before. */
  lemma {:induction false} FailureLeavesAPrefix(b: bytes, initial: bytes)
    ensures WalkOutput(b, initial)
         <= if initial != [] then initial + Flatten(NonCustom(ModuleOf(b))) else StrippedBytes(b)
  {
    WalkWritesAPrefix(ModuleOf(b));
  }

  // ---- What stripping leaves alone ----

  lemma {:induction false} StrippableIsReadable(m: Module)
    requires Strippable(m)
    ensures EndsClean(m)
  {
    if m.Sections? {
      StrippableIsReadable(m.more);
    }
  }

  lemma {:induction false} StrippedIsWellFormed(m: Module)
    requires WellFormed(m)
    ensures WellFormed(NonCustom(m)) && WellFormed(Stripped(m))
  {
    if m.Sections? {
      StrippedIsWellFormed(m.more);
    }
  }

  lemma {:induction false} NonCustomSectionsStay(m: Module)
    ensures NonCustom(NonCustom(m)) == NonCustom(m)
    ensures NonCustom(Stripped(m)) == NonCustom(m)
  {
    if m.Sections? {
      NonCustomSectionsStay(m.more);
    }
  }

  lemma {:induction false} ModuleOfParts(header: bytes, m: Module)
    requires |header| == 8 || (|header| < 8 && m == Rest([]))
    requires WellFormed(m)
    ensures HeaderOf(header + Flatten(m)) == header
    ensures ModuleOf(header + Flatten(m)) == m
    ensures CheckWasmHeader(header + Flatten(m)) == CheckWasmHeader(header)
  {
    var b := header + Flatten(m);
    if |header| == 8 {
      CursorMoves(b, 0, header, Flatten(m));
      SliceOfFront(header, Flatten(m), 0, 4);
      assert AfterHeader(b) == b[8..];
      WalkInvertsFlatten(m);
    } else {
      assert b == header;
      assert AfterHeader(b) == [];
    }
  }

  /** The stripped file is again a module: the one before without its precompiled section and the
      custom sections after that. Its header and its non-custom sections, with their order and every
      byte of them, are those of the original. */
  lemma {:induction false} StrippingKeepsTheModule(b: bytes)
    requires CheckWasmHeader(b) && Strippable(ModuleOf(b))
    ensures CheckWasmHeader(StrippedBytes(b)) && HeaderOf(StrippedBytes(b)) == HeaderOf(b)
    ensures ModuleOf(StrippedBytes(b)) == Stripped(ModuleOf(b))
    ensures NonCustom(ModuleOf(StrippedBytes(b))) == NonCustom(ModuleOf(b))
  {
    var m := ModuleOf(b);
    WalkIsExact(AfterHeader(b));
    StrippedIsWellFormed(m);
    NonCustomSectionsStay(m);
    ModuleOfParts(HeaderOf(b), Stripped(m));
  }

  /** Where the output departs from the input: `before` runs up to the first precompiled section,
      and from there on only the non-custom sections are left. */
  lemma {:induction false} StrippedFromTheFirst(m: Module) returns (before: bytes, found: Module)
    requires WellFormed(m) && HasPrecompiled(m)
    ensures found.Sections? && Precompiled(found)
    ensures Flatten(m) == before + Flatten(found)
    ensures Flatten(Stripped(m)) == before + Flatten(NonCustom(found.more))
    ensures |Flatten(Stripped(m))| < |Flatten(m)|
  {
    if Precompiled(m) {
      before, found := [], m;
      NonCustomIsShorter(m.more);
    } else {
      before, found := StrippedFromTheFirst(m.more);
      Associative(m.first.raw, before, Flatten(found));
      Associative(m.first.raw, before, Flatten(NonCustom(found.more)));
      before := m.first.raw + before;
    }
  }

  lemma {:induction false} NonCustomIsShorter(m: Module)
    ensures |Flatten(NonCustom(m))| <= |Flatten(m)|
  {
    if m.Sections? {
      NonCustomIsShorter(m.more);
    }
  }

  /** A file without a precompiled section is copied as it is. */
  lemma {:induction false} NothingToStrip(b: bytes)
    requires !HasPrecompiled(ModuleOf(b))
    ensures StrippedBytes(b) == b
  {
    WalkIsExact(AfterHeader(b));
    StrippedWithout(ModuleOf(b));
  }

  lemma {:induction false} StrippedWithout(m: Module)
    requires !HasPrecompiled(m)
    ensures Stripped(m) == m
  {
    if m.Sections? {
      StrippedWithout(m.more);
    }
  }

  // ---- Stripping twice ----

  /** A second stripping succeeds and changes nothing. */
  ghost predicate IsStable(s: bytes) {
    CheckWasmHeader(s) && Strippable(ModuleOf(s)) && StrippedBytes(s) == s
  }

  lemma {:induction false} StableOutput(b: bytes)
    requires CheckWasmHeader(b) && Strippable(ModuleOf(b))
    ensures IsStable(StrippedBytes(b))
       <==> Strippable(Stripped(ModuleOf(b))) && !HasPrecompiled(Stripped(ModuleOf(b)))
  {
    StrippingKeepsTheModule(b);
    var s := StrippedBytes(b);
    var m := ModuleOf(s);
    if HasPrecompiled(m) {
      WalkIsExact(AfterHeader(s));
      var before, found := StrippedFromTheFirst(m);
    } else {
      NothingToStrip(s);
    }
  }

  /** Every custom section has its name inside itself, as section 5.5.3 requires. */
  predicate NamesInside(m: Module) {
    m.Sections? ==> (m.first.id == CUSTOM ==> NameOf(m.first).Some?) && NamesInside(m.more)
  }

  lemma {:induction false} NameInsideStays(sec: Section, more: Module)
    requires NameOf(sec).Some?
    ensures LooseName(Sections(sec, more)) == NameOf(sec)
  {
    var s, rest := sec.body, Flatten(more);
    ReadIgnoresTheRest(30, s, rest);
    var r := ReadUnsigned(30, s).value;
    SliceOfFront(s, rest, r.size, r.size + r.value);
  }

  /** With all names inside their sections, stripping is idempotent. */
  lemma {:induction false} IdempotentWithNamesInside(b: bytes)
    requires CheckWasmHeader(b) && EndsClean(ModuleOf(b)) && NamesInside(ModuleOf(b))
    ensures Strippable(ModuleOf(b)) && IsStable(StrippedBytes(b))
  {
    NamesInsideAreKept(ModuleOf(b));
    StableOutput(b);
  }

  lemma {:induction false} NamesInsideAreKept(m: Module)
    requires EndsClean(m) && NamesInside(m)
    ensures Strippable(m) && Strippable(NonCustom(m)) && !HasPrecompiled(NonCustom(m))
    ensures Strippable(Stripped(m)) && !HasPrecompiled(Stripped(m))
  {
    if m.Sections? {
      NamesInsideAreKept(m.more);
      if m.first.id == CUSTOM {
        NameInsideStays(m.first, m.more);
        NameInsideStays(m.first, Stripped(m.more));
      }
    }
  }

  /** A custom section whose name length runs over its end, into the precompiled section after it. */
  const OVERRUNNING := Section([0x00, 0x01, 0x05], 2, CUSTOM, [0x05])

  const PRECOMPILED_SECTION :=
    Section([0x00, 0x0d, 0x0c] + PRECOMPILED, 2, CUSTOM, [0x0c] + PRECOMPILED)

  lemma {:induction false} OneByteInteger(n: byte, rest: bytes)
    requires n < 128
    ensures ReadUnsigned(30, [n] + rest) == Some(Read(n, 1))
  {
    assert Pow2(7) == 128;
    Pow2Monotone(7, 30);
  }

  lemma {:induction false} ShortName(n: byte, name: bytes, rest: bytes)
    requires n < 128
    ensures |name| == n ==> NameIn([n] + name + rest) == Some((name, rest))
    ensures |name| < n ==> NameIn([n] + name) == None
  {
    Associative([n], name, rest);
    OneByteInteger(n, name + rest);
    OneByteInteger(n, name);
    if |name| == n {
      var s := [n] + name + rest;
      assert s[1..1 + n] == name && s[1 + n..] == rest;
    }
  }

  lemma {:induction false} PrecompiledSectionIsOne(more: Module)
    ensures PRECOMPILED_SECTION.WellFormed() && NameOf(PRECOMPILED_SECTION).Some?
    ensures Precompiled(Sections(PRECOMPILED_SECTION, more))
  {
    var raw, s := PRECOMPILED_SECTION.raw, PRECOMPILED_SECTION.body;
    assert raw[1..] == [0x0d] + s && raw[2..] == s;
    OneByteInteger(0x0d, s);
    ShortName(0x0c, PRECOMPILED, []);
    assert s + [] == s;
    assert PRECOMPILED <= PRECOMPILED;
    NameInsideStays(PRECOMPILED_SECTION, more);
  }

  lemma {:induction false} OverrunningName(after: bytes)
    ensures OVERRUNNING.WellFormed()
    ensures |after| >= 5 ==> NameIn(OVERRUNNING.body + after) == Some((after[..5], after[5..]))
    ensures |after| < 5 ==> NameIn(OVERRUNNING.body + after) == None
  {
    assert OVERRUNNING.raw[1..] == [0x01] + [0x05];
    OneByteInteger(0x01, [0x05]);
    if |after| >= 5 {
      ShortName(0x05, after[..5], after[5..]);
      assert [0x05] + after == [0x05] + after[..5] + after[5..];
    } else {
      ShortName(0x05, after, []);
    }
  }

  lemma {:induction false} TooShort(s: bytes, part: bytes)
    requires |s| < |part|
    ensures !Contains(s, part)
  {
    if s != [] {
      TooShort(s[1..], part);
    }
  }

  /** Without the condition idempotence fails: the first stripping succeeds, a second one of its
      result does not. */
  lemma {:induction false} StrippingTwiceCanFail() returns (b: bytes)
    ensures CheckWasmHeader(b) && Strippable(ModuleOf(b))
    ensures CheckWasmHeader(StrippedBytes(b)) && !Strippable(ModuleOf(StrippedBytes(b)))
  {
    var tail := Sections(PRECOMPILED_SECTION, Rest([]));
    var m := Sections(OVERRUNNING, tail);
    var header: bytes := MAGIC + [0x01, 0x00, 0x00, 0x00];
    b := header + Flatten(m);
    PrecompiledSectionIsOne(Rest([]));
    OverrunningName(Flatten(tail));
    OverrunningName([]);
    TooShort(Flatten(tail)[..5], PRECOMPILED);
    ModuleOfParts(header, m);
    StrippingKeepsTheModule(b);
  }

  // ---- Exactly when stripping twice is stripping once ----

  /** The name of a custom section with content `body` runs over the section's end, and what it has
      inside does not make it a precompiled one yet. */
  predicate RunsOver(body: bytes) {
    var r := ReadUnsigned(30, body);
    Unfinished(30, body)
    || (r.Some? && r.value.size + r.value.value > |body| && !Contains(body[r.value.size..], PRECOMPILED))
  }

  /** How a name runs over: the `part` of it in the section, and from where to where the rest of it
      lies in the bytes after the section, provided that they begin with 0. */
  datatype Overrun = Overrun(part: bytes, from: nat, to: nat)

  function OverrunOf(body: bytes): (o: Overrun)
    requires RunsOver(body)
    ensures o.from <= o.to && o.to > 0 && !Contains(o.part, PRECOMPILED)
  {
    if Unfinished(30, body) then
      CompletedByZero(30, body, [0]);
      Overrun([], 1, 1 + ReadUnsigned(30, body + [0]).value.value)
    else
      var r := ReadUnsigned(30, body).value;
      Overrun(body[r.size..], 0, r.size + r.value - |body|)
  }

  lemma {:induction false} SliceOfBack(x: bytes, y: bytes, i: nat, j: nat)
    requires i <= j <= |y|
    ensures (x + y)[|x| + i..|x| + j] == y[i..j] && (x + y)[|x| + j..] == y[j..]
  {
    var u := (x + y)[|x| + i..|x| + j];
    assert forall k | 0 <= k < |u| :: u[k] == (x + y)[|x| + i + k] == y[i + k];
  }

  lemma {:induction false} SliceAcross(x: bytes, y: bytes, i: nat, j: nat)
    requires i <= |x| && j <= |y|
    ensures (x + y)[i..|x| + j] == x[i..] + y[..j] && (x + y)[|x| + j..] == y[j..]
  {
  }

  lemma {:induction false} OverrunName(body: bytes, rest: bytes)
    requires RunsOver(body) && (rest == [] || rest[0] == 0)
    ensures NameIn(body + rest)
         == var o := OverrunOf(body); if |rest| < o.to then None else Some((o.part + rest[o.from..o.to], rest[o.to..]))
  {
    if Unfinished(30, body) {
      if rest == [] {
        UnfinishedIsUnread(30, body, []);
        assert body + rest == body;
      } else {
        UnfinishedName(body, rest);
      }
    } else {
      OverlongName(body, rest, ReadUnsigned(30, body).value);
    }
  }

  lemma {:induction false} UnfinishedName(body: bytes, rest: bytes)
    requires Unfinished(30, body) && rest != [] && rest[0] == 0
    ensures ReadUnsigned(30, body + [0]).Some?
    ensures NameIn(body + rest)
         == var to := 1 + ReadUnsigned(30, body + [0]).value.value;
            if |rest| < to then None else Some(([] + rest[1..to], rest[to..]))
  {
    CompletedByZero(30, body, rest);
    var to := 1 + ReadUnsigned(30, body + [0]).value.value;
    if |rest| >= to {
      SliceOfBack(body, rest, 1, to);
      assert [] + rest[1..to] == rest[1..to];
    }
  }

  lemma {:induction false} OverlongName(body: bytes, rest: bytes, r: Read)
    requires ReadUnsigned(30, body) == Some(r) && r.size + r.value > |body|
    ensures NameIn(body + rest)
         == var to := r.size + r.value - |body|;
            if |rest| < to then None else Some((body[r.size..] + rest[0..to], rest[to..]))
  {
    ReadIgnoresTheRest(30, body, rest);
    if |rest| >= r.size + r.value - |body| {
      SliceAcross(body, rest, r.size, r.size + r.value - |body|);
    }
  }

  /** No byte is one of those in "precompiled_". */
  ghost predicate Foreign(s: bytes) {
    forall i | 0 <= i < |s| :: s[i] < 0x5f
  }

  lemma {:induction false} PrefixIsInText(text: bytes, s: bytes)
    requires Foreign(s) && PRECOMPILED <= text + s
    ensures PRECOMPILED <= text
  {
    if |text| < |PRECOMPILED| {
      ByteAfter(text, s, PRECOMPILED);
    } else {
      assert text == (text + s)[..|text|];
    }
  }

  lemma {:induction false} ByteAfter(text: bytes, s: bytes, part: bytes)
    requires part <= text + s && |text| < |part|
    ensures s != [] && part[|text|] == s[0]
  {
    assert (text + s)[|text|] == s[0];
  }

  lemma {:induction false} ForeignAddsNothing(text: bytes, s: bytes)
    requires Foreign(s) && Contains(text + s, PRECOMPILED)
    ensures Contains(text, PRECOMPILED)
    decreases |text| + |s|
  {
    if PRECOMPILED <= text + s {
      PrefixIsInText(text, s);
    } else if text != [] {
      assert (text + s)[1..] == text[1..] + s;
      ForeignAddsNothing(text[1..], s);
    } else {
      assert (text + s)[1..] == [] + s[1..];
      ForeignAddsNothing([], s[1..]);
    }
  }

  /** A custom section with an empty name, in three bytes. */
  const FILLER := Section([0x00, 0x01, 0x00], 2, CUSTOM, [0x00])

  /** A module behind `n` fillers. */
  function Filled(n: nat, m: Module): Module {
    if n == 0 then m else Sections(FILLER, Filled(n - 1, m))
  }

  function FillerBytes(n: nat): (s: bytes)
    ensures |s| == 3 * n
  {
    if n == 0 then [] else FILLER.raw + FillerBytes(n - 1)
  }

  lemma {:induction false} FillerIsNamed(more: Module)
    ensures FILLER.WellFormed() && NameOf(FILLER) == Some([]) && LooseName(Sections(FILLER, more)) == Some([])
    ensures !Precompiled(Sections(FILLER, more))
  {
    assert FILLER.raw[1..] == [0x01] + [0x00];
    OneByteInteger(0x01, [0x00]);
    ShortName(0x00, [], []);
    assert [0x00] + [] + [] == [0x00];
    NameInsideStays(FILLER, more);
    TooShort([], PRECOMPILED);
  }

  lemma {:induction false} FilledIsWellFormed(n: nat, m: Module)
    requires WellFormed(m) && Strippable(m)
    ensures WellFormed(Filled(n, m)) && Strippable(Filled(n, m))
  {
    if n > 0 {
      FilledIsWellFormed(n - 1, m);
      FillerIsNamed(Filled(n - 1, m));
    }
  }

  lemma {:induction false} FilledIsStripped(n: nat, m: Module)
    ensures Stripped(Filled(n, m)) == Filled(n, Stripped(m))
  {
    if n > 0 {
      FilledIsStripped(n - 1, m);
      FillerIsNamed(Filled(n - 1, m));
    }
  }

  lemma {:induction false} FilledIsListed(n: nat, m: Module)
    ensures forall sec | sec in Listed(Filled(n, m)) :: sec in Listed(m) || sec == FILLER
  {
    if n > 0 {
      FilledIsListed(n - 1, m);
    }
  }

  lemma {:induction false} FilledBytes(n: nat, m: Module)
    ensures Flatten(Filled(n, m)) == FillerBytes(n) + Flatten(m)
    ensures Foreign(FillerBytes(n)) && (n > 0 ==> FillerBytes(n)[0] == 0)
  {
    if n > 0 {
      FilledBytes(n - 1, m);
      Associative(FILLER.raw, FillerBytes(n - 1), Flatten(m));
    } else {
      assert [] + Flatten(m) == Flatten(m);
    }
  }

  /** All other custom sections have their names inside themselves. */
  ghost predicate OnlyOutside(m: Module, e: Section) {
    e in Listed(m) && forall sec | sec in Listed(m) && sec.id == CUSTOM :: NameOf(sec).Some? || sec == e
  }

  /** What a section is read as in a file where it is not a precompiled one: if its name does not run
      over, it is inside. */
  lemma {:induction false} KeptNameIsInside(m: Module)
    requires m.Sections? && m.first.id == CUSTOM && !RunsOver(m.first.body)
    requires LooseName(m).Some? && !Precompiled(m)
    ensures NameOf(m.first).Some?
  {
    var body, rest := m.first.body, Flatten(m.more);
    FinishedStays(30, body, rest);
    var r := ReadUnsigned(30, body).value;
    if r.size + r.value > |body| {
      OverrunIsPrecompiled(body, rest, r);
    }
  }

  lemma {:induction false} OverrunIsPrecompiled(body: bytes, rest: bytes, r: Read)
    requires ReadUnsigned(30, body) == Some(r) && r.size + r.value > |body| && Contains(body[r.size..], PRECOMPILED)
    requires NameIn(body + rest).Some?
    ensures Contains(NameIn(body + rest).value.0, PRECOMPILED)
  {
    ReadIgnoresTheRest(30, body, rest);
    SliceAcross(body, rest, r.size, r.size + r.value - |body|);
    ContainsGrows(body[r.size..], rest[..r.size + r.value - |body|], PRECOMPILED);
  }

  lemma {:induction false} ContainsGrows(text: bytes, more: bytes, part: bytes)
    requires Contains(text, part)
    ensures Contains(text + more, part)
  {
    if !(part <= text) {
      assert (text + more)[1..] == text[1..] + more;
      ContainsGrows(text[1..], more, part);
    }
  }

  lemma {:induction false} NonCustomIsPlain(m: Module)
    requires EndsClean(m)
    ensures Strippable(NonCustom(m)) && !HasPrecompiled(NonCustom(m))
  {
    if m.Sections? {
      NonCustomIsPlain(m.more);
    }
  }

  lemma {:induction false} KeptStays(m: Module)
    requires Strippable(m) && forall sec | sec in Listed(m) && sec.id == CUSTOM :: !RunsOver(sec.body)
    ensures Strippable(Stripped(m)) && !HasPrecompiled(Stripped(m))
  {
    if m.Sections? {
      assert m.first in Listed(m);
      StrippableIsReadable(m);
      NonCustomIsPlain(m.more);
      KeptStays(m.more);
      if m.first.id == CUSTOM && !Precompiled(m) {
        KeptNameIsInside(m);
        NameInsideStays(m.first, m.more);
        NameInsideStays(m.first, Stripped(m.more));
      }
    }
  }

  /** Stripping is idempotent on every strippable file in which no section's name runs over. */
  lemma {:induction false} IdempotentWithoutOverruns(b: bytes)
    requires CheckWasmHeader(b) && Strippable(ModuleOf(b))
    requires forall sec | sec in Listed(ModuleOf(b)) && sec.id == CUSTOM :: !RunsOver(sec.body)
    ensures IsStable(StrippedBytes(b))
  {
    KeptStays(ModuleOf(b));
    StableOutput(b);
  }

  /** As many fillers as leave at most three bytes of the name to come, and a precompiled section. */
  function WitnessTail(n: nat): Module {
    Filled(n, Sections(PRECOMPILED_SECTION, Rest([])))
  }

  lemma {:induction false} AloneIsPlain(p: Section, m: Module)
    requires m == Sections(p, Rest([])) && p.WellFormed() && Precompiled(m)
    ensures WellFormed(m) && Strippable(m) && Stripped(m) == Rest([])
    ensures forall sec | sec in Listed(m) :: sec == p
  {
  }

  lemma {:induction false} WitnessTailIsPlain(n: nat)
    ensures WellFormed(WitnessTail(n)) && Strippable(WitnessTail(n))
    ensures Stripped(WitnessTail(n)) == Filled(n, Rest([]))
    ensures forall sec | sec in Listed(WitnessTail(n)) :: NameOf(sec).Some?
  {
    PrecompiledSectionIsOne(Rest([]));
    AloneIsPlain(PRECOMPILED_SECTION, Sections(PRECOMPILED_SECTION, Rest([])));
    FillerIsNamed(Rest([]));
    FilledIsWellFormed(n, Sections(PRECOMPILED_SECTION, Rest([])));
    FilledIsStripped(n, Sections(PRECOMPILED_SECTION, Rest([])));
    FilledIsListed(n, Sections(PRECOMPILED_SECTION, Rest([])));
  }

  lemma {:induction false} WitnessName(e: Section, n: nat)
    requires e.id == CUSTOM && RunsOver(e.body) && n == (OverrunOf(e.body).to - 1) / 3
    ensures LooseName(Sections(e, WitnessTail(n))).Some? && !Precompiled(Sections(e, WitnessTail(n)))
    ensures LooseName(Sections(e, Filled(n, Rest([])))) == None
  {
    var o, rest := OverrunOf(e.body), Flatten(WitnessTail(n));
    WitnessBytes(n, o.to, rest);
    OverrunName(e.body, rest);
    if Contains(o.part + rest[o.from..o.to], PRECOMPILED) {
      ForeignAddsNothing(o.part, rest[o.from..o.to]);
    }
    FilledBytes(n, Rest([]));
    assert FillerBytes(n) + [] == FillerBytes(n);
    OverrunName(e.body, FillerBytes(n));
  }

  /** The bytes behind the section: enough of them to complete its name, and of the right kind. */
  lemma {:induction false} WitnessBytes(n: nat, to: nat, rest: bytes)
    requires to > 0 && n == (to - 1) / 3
    requires rest == Flatten(WitnessTail(n))
    ensures 3 * n < to <= |rest| && rest[0] == 0 && Foreign(rest[..to])
  {
    var raw := PRECOMPILED_SECTION.raw;
    FilledBytes(n, Sections(PRECOMPILED_SECTION, Rest([])));
    assert raw + [] == raw;
    assert raw[0] == 0 && raw[1] == 0x0d && raw[2] == 0x0c;
    ForeignFront(FillerBytes(n), raw, to);
  }

  lemma {:induction false} ForeignFront(fill: bytes, raw: bytes, to: nat)
    requires Foreign(fill) && |fill| < to <= |fill| + 3 && |raw| >= 3 && raw[0] < 0x5f && raw[1] < 0x5f && raw[2] < 0x5f
    ensures to <= |fill + raw| && Foreign((fill + raw)[..to])
    ensures (fill + raw)[0] == if fill == [] then raw[0] else fill[0]
  {
  }

  /** A file that strips once but not twice because of the section. */
  lemma {:induction false} OverrunBreaksStripping(e: Section) returns (b: bytes)
    requires e.WellFormed() && e.id == CUSTOM && RunsOver(e.body)
    ensures CheckWasmHeader(b) && Strippable(ModuleOf(b)) && OnlyOutside(ModuleOf(b), e)
    ensures !IsStable(StrippedBytes(b))
  {
    var header: bytes := MAGIC + [0x01, 0x00, 0x00, 0x00];
    var n := (OverrunOf(e.body).to - 1) / 3;
    var m := Sections(e, WitnessTail(n));
    b := header + Flatten(m);
    WitnessTailIsPlain(n);
    WitnessName(e, n);
    ModuleOfParts(header, m);
    StrippingKeepsTheModule(b);
  }

  /** For every custom section: all strippable files in which only its name is not inside its section
      strip idempotently, exactly if the name does not run over. */
  lemma {:induction false} IdempotentExactlyIf(e: Section)
    requires e.WellFormed() && e.id == CUSTOM
    ensures (forall b: bytes | CheckWasmHeader(b) && Strippable(ModuleOf(b)) && OnlyOutside(ModuleOf(b), e) ::
              IsStable(StrippedBytes(b)))
       <==> !RunsOver(e.body)
  {
    if RunsOver(e.body) {
      var b := OverrunBreaksStripping(e);
    } else {
      forall b: bytes | CheckWasmHeader(b) && Strippable(ModuleOf(b)) && OnlyOutside(ModuleOf(b), e)
        ensures IsStable(StrippedBytes(b))
      {
        forall sec | sec in Listed(ModuleOf(b)) && sec.id == CUSTOM ensures !RunsOver(sec.body) {
          if sec != e {
            InsideDoesNotRunOver(sec);
          }
        }
        IdempotentWithoutOverruns(b);
      }
    }
  }

  lemma {:induction false} InsideDoesNotRunOver(sec: Section)
    requires NameOf(sec).Some?
    ensures !RunsOver(sec.body)
  {
    if Unfinished(30, sec.body) {
      UnfinishedIsUnread(30, sec.body, []);
    }
  }
}
