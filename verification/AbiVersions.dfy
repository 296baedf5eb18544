/**
 BytecodeUtil::getAbiVersion: the ABI version that a module's function exports announce
 (section 5.5.10 of the WebAssembly Core Specification), and when stripping leaves it alone.
 */
module AbiVersions {
  import opened Bytes
  import opened Leb128
  import opened Sections
  import opened StrippedSource
  import opened StrippingLaws

  datatype AbiVersion = ProxyWasm_0_1_0 | ProxyWasm_0_2_0 | ProxyWasm_0_2_1 | Unknown

  const FUNCTION: byte := 0

  function Ascii(s: string): bytes {
    seq(|s|, i requires 0 <= i < |s| => s[i] as int % 256)
  }

  function VersionNamed(name: bytes): AbiVersion {
    if name == Ascii("proxy_abi_version_0_1_0") then ProxyWasm_0_1_0
    else if name == Ascii("proxy_abi_version_0_2_0") then ProxyWasm_0_2_0
    else if name == Ascii("proxy_abi_version_0_2_1") then ProxyWasm_0_2_1
    else Unknown
  }

  /** What an export entry does to the walk: it ends it, or is passed over with the `size` bytes of
      its kind and index. */
  datatype Step = Stop(ok: bool, version: AbiVersion) | Next(size: nat)

  /** An entry called `name`, where `w` follows the name in the file. */
  function EntryStep(name: bytes, w: bytes): (r: Step)
    ensures r.Next? ==> 2 <= r.size <= |w|
  {
    if w == [] then
      Stop(false, Unknown)
    else if w[0] == FUNCTION && VersionNamed(name) != Unknown then
      Stop(true, VersionNamed(name))
    else
      match ReadUnsigned(30, w[1..])
      case None => Stop(false, Unknown)
      case Some(r) => Next(1 + r.size)
  }

  /** `n` more export entries: `inside` is what is left of the export section, `after` what follows
      it in the file. Only names are kept inside the section; an entry's kind and index may lie
      behind its end. */
  function Entries(inside: bytes, after: bytes, n: nat): (bool, AbiVersion)
    decreases n
  {
    if n == 0 then
      (true, Unknown)
    else
      match NameIn(inside)
      case None => (false, Unknown)
      case Some((name, tail)) =>
        match EntryStep(name, tail + after)
        case Stop(ok, version) => (ok, version)
        case Next(size) => Entries(Window(tail, size, |tail|), after, n - 1)
  }

  /** An export section with content `body`, followed by `after`. */
  function Exports(body: bytes, after: bytes): (bool, AbiVersion) {
    match ReadUnsigned(30, body)
    case None => (false, Unknown)
    case Some(r) =>
      if r.size + r.value > |body| then (false, Unknown) else Entries(body[r.size..], after, r.value)
  }

  /** The first export section decides; a module without one has no version. */
  function Abi(m: Module): (bool, AbiVersion) {
    match m
    case Rest(rest) => (rest == [], Unknown)
    case Sections(first, more) => if first.id == EXPORT then Exports(first.body, Flatten(more)) else Abi(more)
  }

  /** What the loop over the export entries still has to find out. */
  ghost predicate Asked(answer: (bool, AbiVersion), inside: bytes, after: bytes, n: nat) {
    answer == Entries(inside, after, n)
  }

  /** The next entry is cut off before its kind. */
  ghost predicate CutOff(inside: bytes, after: bytes) {
    NameIn(inside) == None || (NameIn(inside).value.1 == [] && after == [])
  }

  /** The next entry has this name, and w follows it in the file. */
  ghost predicate Entry(inside: bytes, after: bytes, name: bytes, tail: bytes, w: bytes) {
    NameIn(inside) == Some((name, tail)) && w == tail + after && w != []
  }

  /** An entry that says nothing about the version is passed over. */
  lemma {:induction false} EntrySkipped(answer: (bool, AbiVersion), inside: bytes, after: bytes, n: nat,
                                        name: bytes, tail: bytes, w: bytes, r: Read, rest: bytes)
    requires rest == Window(tail, 1 + r.size, |tail|)
    requires n > 0 && Asked(answer, inside, after, n) && Entry(inside, after, name, tail, w)
    requires (w[0] != FUNCTION || VersionNamed(name) == Unknown) && ReadUnsigned(30, w[1..]) == Some(r)
    ensures Asked(answer, rest, after, n - 1)
  {
  }

  lemma {:induction false} RestAfterName(b: bytes, q: nat, end: nat)
    requires q <= end <= |b|
    ensures b[q..end] + b[end..] == b[q..]
  {
  }

  lemma {:induction false} AfterKind(b: bytes, q: nat)
    requires q < |b|
    ensures b[q..] != [] && b[q..][0] == b[q] && b[q..][1..] == Window(b, q + 1, |b|)
  {
  }

  lemma {:induction false} WindowOfTail(b: bytes, q: nat, end: nat, size: nat, next: nat)
    requires q <= end <= |b| && next == q + 1 + size
    ensures Window(b[q..end], 1 + size, |b[q..end]|) == Window(b, next, end)
  {
    if next <= end {
      SliceOfSlice(b, q, end, 1 + size, end - q);
    }
  }

  /** The name of an entry, and that a kind follows it. */
  method ReadEntryName(b: bytes, pos: nat, sectionEnd: nat, ghost inside: bytes, ghost after: bytes)
    returns (ok: bool, start: nat, q: nat)
    requires sectionEnd <= |b| && Window(b, pos, sectionEnd) == inside && b[sectionEnd..] == after
    ensures !ok ==> CutOff(inside, after)
    ensures ok ==> start <= q <= sectionEnd && q < |b|
    ensures ok ==> Entry(inside, after, b[start..q], b[q..sectionEnd], b[q..])
  {
    var size;
    ok, start, size := ReadName(b, pos, sectionEnd, inside);
    q := start + size;
    if ok {
      RestAfterName(b, q, sectionEnd);
      if q + 1 > |b| {
        ok := false;
      }
    }
  }

  /** What one entry comes to. */
  datatype Outcome = Refused | Decided(version: AbiVersion) | Skipped(next: nat)

  /** The body of the loop over the entries. */
  method ReadEntry(b: bytes, pos: nat, sectionEnd: nat,
                   ghost answer: (bool, AbiVersion), ghost inside: bytes, ghost after: bytes, ghost n: nat)
    returns (outcome: Outcome)
    requires sectionEnd <= |b| && Window(b, pos, sectionEnd) == inside && b[sectionEnd..] == after
    requires n > 0 && Asked(answer, inside, after, n)
    ensures outcome.Refused? ==> answer == (false, Unknown)
    ensures outcome.Decided? ==> answer == (true, outcome.version)
    ensures outcome.Skipped? ==> Asked(answer, Window(b, outcome.next, sectionEnd), after, n - 1)
  {
    var named, start, q := ReadEntryName(b, pos, sectionEnd, inside, after);
    if !named {
      return Refused;
    }
    ghost var name, tail, w := b[start..q], b[q..sectionEnd], b[q..];
    AfterKind(b, q);
    if b[q] == FUNCTION {
      var version := VersionNamed(b[start..q]);
      if version != Unknown {
        return Decided(version);
      }
    }
    var indexed, next, index := ParseVarint(b, q + 1, |b|);
    if !indexed {
      return Refused;
    }
    ghost var r := Read(index, next - (q + 1));
    WindowOfTail(b, q, sectionEnd, r.size, next);
    EntrySkipped(answer, inside, after, n, name, tail, w, r, Window(b, next, sectionEnd));
    return Skipped(next);
  }

  lemma {:induction false} ExportsRefused(content: bytes, after: bytes)
    requires var r := ReadUnsigned(30, content); r == None || r.value.size + r.value.value > |content|
    ensures Exports(content, after) == (false, Unknown)
  {
  }

  lemma {:induction false} ExportsAsked(content: bytes, after: bytes, r: Read, inside: bytes)
    requires ReadUnsigned(30, content) == Some(r) && r.size + r.value <= |content| && inside == content[r.size..]
    ensures Asked(Exports(content, after), inside, after, r.value)
  {
  }

  lemma {:induction false} AfterCount(b: bytes, body: nat, pos: nat, end: nat, content: bytes)
    requires body <= pos <= end <= |b| && b[body..end] == content
    ensures content[pos - body..] == Window(b, pos, end)
  {
  }

  /** The walk over the entries of an export section. */
  method ScanExports(b: bytes, body: nat, sectionEnd: nat, ghost content: bytes)
    returns (ok: bool, ret: AbiVersion)
    requires body <= sectionEnd <= |b| && b[body..sectionEnd] == content
    ensures (ok, ret) == Exports(content, b[sectionEnd..])
  {
    ok, ret := false, Unknown;
    var good: bool, pos: nat, exportVectorSize: nat := ParseVarint(b, body, sectionEnd);
    ghost var answer, after, left: nat := Exports(content, b[sectionEnd..]), b[sectionEnd..], exportVectorSize;
    if !good || pos + exportVectorSize > sectionEnd {
      ExportsRefused(content, after);
      return;
    }
    AfterCount(b, body, pos, sectionEnd, content);
    ExportsAsked(content, after, Read(exportVectorSize, pos - body), Window(b, pos, sectionEnd));
    for i := 0 to exportVectorSize
      invariant left == exportVectorSize - i && Asked(answer, Window(b, pos, sectionEnd), after, left)
    {
      var outcome := ReadEntry(b, pos, sectionEnd, answer, Window(b, pos, sectionEnd), after, left);
      match outcome
      case Refused => return;
      case Decided(version) => return true, version;
      case Skipped(next) => pos, left := next, left - 1;
    }
    ok := true;
  }

  /** BytecodeUtil::getAbiVersion. */
  method GetAbiVersion(b: bytes) returns (ok: bool, ret: AbiVersion)
    ensures (ok, ret) == if CheckWasmHeader(b) then Abi(ModuleOf(b)) else (false, Unknown)
  {
    ok, ret := false, Unknown;
    if !CheckWasmHeader(b) {
      return;
    }
    var pos: nat := 8;
    var end: nat := |b|;
    ghost var left := ModuleOf(b);
    EveryFileIsLaidOut(b);
    while pos < end
      invariant Laid(b, pos, left)
      invariant Abi(ModuleOf(b)) == Abi(left)
      decreases end - pos
    {
      var good, sectionType, body, next := ReadSectionHeader(b, pos, left);
      if !good {
        return;
      }
      if sectionType == EXPORT {
        RestOfFile(b, next, left.more);
        ok, ret := ScanExports(b, body, next, left.first.body);
        return;
      }
      pos := next;
      left := left.more;
    }
    ok := true;
  }

  /** What getAbiVersion answers on a file. */
  function AbiOf(b: bytes): (bool, AbiVersion) {
    if CheckWasmHeader(b) then Abi(ModuleOf(b)) else (false, Unknown)
  }

  // ---- What the answer means ----

  datatype Export = Export(name: bytes, kind: byte, index: nat)

  /** `n` export entries at the front of `inside`, all of them inside the section, as section 5.5.10
      requires. */
  ghost predicate Lists(inside: bytes, exports: seq<Export>, n: nat)
    decreases n
  {
    && n == |exports|
    && (n > 0 ==>
          && NameIn(inside).Some?
          && var (name, tail) := NameIn(inside).value;
          && KindAndIndex(tail).Some?
          && var (kind, index) := KindAndIndex(tail).value;
          && exports[0] == Export(name, kind, index.value)
          && Lists(tail[1 + index.size..], exports[1..], n - 1))
  }

  function KindAndIndex(tail: bytes): (r: Option<(byte, Read)>)
    ensures r.Some? ==> 1 + r.value.1.size <= |tail|
  {
    if tail == [] || ReadUnsigned(30, tail[1..]) == None then None
    else Some((tail[0], ReadUnsigned(30, tail[1..]).value))
  }

  /** The entry announces a version. */
  predicate Announces(e: Export) {
    e.kind == FUNCTION && VersionNamed(e.name) != Unknown
  }

  ghost predicate IsFirstAnnounced(exports: seq<Export>, i: nat, version: AbiVersion) {
    && i < |exports| && Announces(exports[i]) && VersionNamed(exports[i].name) == version
    && forall j | 0 <= j < i :: !Announces(exports[j])
  }

  /** For an export section with its entries inside it, the answer is the version of the first
      function export that announces one, and Unknown exactly if none does. */
  lemma {:induction false} EntriesMeaning(answer: (bool, AbiVersion), inside: bytes, after: bytes,
                                          exports: seq<Export>, n: nat)
    requires Lists(inside, exports, n) && Asked(answer, inside, after, n)
    ensures answer == (true, FirstAnnounced(exports))
    decreases n
  {
    if n == 0 {
    } else {
      var rest := ListedFirst(answer, inside, after, exports, n);
      if !Announces(exports[0]) {
        EntriesMeaning(answer, rest, after, exports[1..], n - 1);
      }
    }
  }

  /** The first export on the list decides the walk or is passed over, inside the section. */
  lemma {:induction false} ListedFirst(answer: (bool, AbiVersion), inside: bytes, after: bytes,
                                       exports: seq<Export>, n: nat)
    returns (rest: bytes)
    requires n > 0 && Lists(inside, exports, n) && Asked(answer, inside, after, n)
    ensures exports != []
    ensures if Announces(exports[0]) then answer == (true, VersionNamed(exports[0].name))
            else Lists(rest, exports[1..], n - 1) && Asked(answer, rest, after, n - 1)
  {
    var name, tail, index;
    name, tail, index, rest := ListedParts(inside, exports, n);
    FirstDecides(answer, inside, after, n, tail, exports[0], index, rest);
  }

  lemma {:induction false} FirstDecides(answer: (bool, AbiVersion), inside: bytes, after: bytes, n: nat,
                                        tail: bytes, e: Export, index: Read, rest: bytes)
    requires n > 0 && NameIn(inside) == Some((e.name, tail)) && Asked(answer, inside, after, n)
    requires KindAndIndex(tail) == Some((e.kind, index)) && rest == tail[1 + index.size..]
    ensures if Announces(e) then answer == (true, VersionNamed(e.name)) else Asked(answer, rest, after, n - 1)
  {
    FullEntry(e.name, tail, after, e, index);
    PassEntry(answer, inside, after, n, e.name, tail, EntryStep(e.name, tail + after));
  }

  lemma {:induction false} ListedParts(inside: bytes, exports: seq<Export>, n: nat)
    returns (name: bytes, tail: bytes, index: Read, rest: bytes)
    requires n > 0 && Lists(inside, exports, n)
    ensures exports != [] && NameIn(inside) == Some((name, tail)) && exports[0].name == name
    ensures KindAndIndex(tail) == Some((exports[0].kind, index)) && rest == tail[1 + index.size..]
    ensures Lists(rest, exports[1..], n - 1)
  {
    name, tail := NameIn(inside).value.0, NameIn(inside).value.1;
    index := KindAndIndex(tail).value.1;
    rest := tail[1 + index.size..];
  }

  lemma {:induction false} PassEntry(answer: (bool, AbiVersion), inside: bytes, after: bytes, n: nat,
                                     name: bytes, tail: bytes, step: Step)
    requires n > 0 && NameIn(inside) == Some((name, tail)) && step == EntryStep(name, tail + after)
    requires Asked(answer, inside, after, n)
    ensures step.Stop? ==> answer == (step.ok, step.version)
    ensures step.Next? && step.size <= |tail| ==> Asked(answer, tail[step.size..], after, n - 1)
  {
    if step.Next? && step.size <= |tail| {
      WholeTail(tail, step.size);
    }
  }

  lemma {:induction false} WholeTail(tail: bytes, size: nat)
    requires size <= |tail|
    ensures Window(tail, size, |tail|) == tail[size..]
  {
  }

  lemma {:induction false} FullEntry(name: bytes, tail: bytes, after: bytes, e: Export, index: Read)
    requires KindAndIndex(tail) == Some((e.kind, index)) && e.name == name
    ensures !Open(name, tail)
    ensures EntryStep(name, tail + after)
         == if Announces(e) then Stop(true, VersionNamed(name)) else Next(1 + index.size)
  {
    if Unfinished(30, tail[1..]) {
      UnfinishedIsUnread(30, tail[1..], []);
    }
    ClosedStep(name, tail, after);
  }

  /** The version that the first announcing entry announces. */
  function FirstAnnounced(exports: seq<Export>): AbiVersion {
    if exports == [] then Unknown
    else if Announces(exports[0]) then VersionNamed(exports[0].name)
    else FirstAnnounced(exports[1..])
  }

  lemma {:induction false} FirstAnnouncedMeaning(exports: seq<Export>)
    ensures FirstAnnounced(exports) == Unknown <==> forall e | e in exports :: !Announces(e)
    ensures FirstAnnounced(exports) != Unknown ==>
              exists i: nat :: IsFirstAnnounced(exports, i, FirstAnnounced(exports))
  {
    if exports != [] {
      FirstAnnouncedMeaning(exports[1..]);
      var version := FirstAnnounced(exports);
      if Announces(exports[0]) {
        assert IsFirstAnnounced(exports, 0, version);
      } else if version != Unknown {
        var i: nat :| IsFirstAnnounced(exports[1..], i, version);
        assert forall j | 0 < j < |exports| :: exports[j] == exports[1..][j - 1];
        assert IsFirstAnnounced(exports, i + 1, version);
      }
    }
  }

  // ---- Stripping leaves the answer alone ----

  /** The entry's part inside the section, after its name, does not say what it does. */
  predicate Open(name: bytes, tail: bytes) {
    tail == [] || (!(tail[0] == FUNCTION && VersionNamed(name) != Unknown) && Unfinished(30, tail[1..]))
  }

  /** The walk over the entries leaves the section with its answer still open: at the kind of an
      entry, or inside the index of the last one. */
  predicate Dangles(inside: bytes, n: nat)
    decreases n
  {
    n > 0 && NameIn(inside).Some? &&
    var (name, tail) := NameIn(inside).value;
    if Open(name, tail) then
      n == 1 || (tail == [] && VersionNamed(name) != Unknown)
    else
      match EntryStep(name, tail)
      case Stop(_, _) => false
      case Next(size) => Dangles(tail[size..], n - 1)
  }

  predicate ExportsDangle(body: bytes) {
    var count := ReadUnsigned(30, body);
    count.Some? && count.value.size + count.value.value <= |body| && Dangles(body[count.value.size..], count.value.value)
  }

  /** What a closed entry does is settled inside the section. */
  lemma {:induction false} ClosedStep(name: bytes, tail: bytes, after: bytes)
    requires !Open(name, tail)
    ensures EntryStep(name, tail + after) == EntryStep(name, tail)
  {
    assert (tail + after)[0] == tail[0];
    assert (tail + after)[1..] == tail[1..] + after;
    if !Unfinished(30, tail[1..]) {
      FinishedStays(30, tail[1..], after);
    }
  }

  /** What an open entry does depends on what follows the section. */
  lemma {:induction false} OpenStep(name: bytes, tail: bytes, after: bytes)
    requires Open(name, tail)
    ensures EntryStep(name, tail) == Stop(false, Unknown)
    ensures var step := EntryStep(name, tail + after);
            if step.Next? then step.size > |tail|
            else step.ok ==> tail == [] && VersionNamed(name) != Unknown
    ensures var step := EntryStep(name, tail + after); step.Stop? && !step.ok ==> step.version == Unknown
    ensures var step := EntryStep(name, tail + after); [0, 0x0d] <= after ==> step.Next? || step.ok
  {
    if tail == [] {
      assert tail + after == after;
      if [0, 0x0d] <= after {
        OneByteInteger(0x0d, after[2..]);
        assert after[1..] == [0x0d] + after[2..];
      }
    } else {
      assert (tail + after)[0] == tail[0];
      assert (tail + after)[1..] == tail[1..] + after;
      UnfinishedIsUnread(30, tail[1..], after);
    }
  }

  lemma {:induction false} NothingInside(after: bytes, n: nat)
    ensures Entries([], after, n) == (n == 0, Unknown)
  {
  }

  /** The walk over the entries, one entry further. */
  lemma {:induction false} OneEntry(inside: bytes, after: bytes, n: nat, name: bytes, tail: bytes, step: Step)
    requires n > 0 && NameIn(inside) == Some((name, tail)) && step == EntryStep(name, tail + after)
    ensures step.Stop? ==> Entries(inside, after, n) == (step.ok, step.version)
    ensures step.Next? && step.size <= |tail| ==>
              Entries(inside, after, n) == Entries(tail[step.size..], after, n - 1)
    ensures step.Next? && step.size > |tail| ==> Entries(inside, after, n) == (n == 1, Unknown)
  {
    if step.Next? {
      if step.size <= |tail| {
        WholeTail(tail, step.size);
      } else {
        NothingInside(after, n - 1);
      }
    }
  }

  /** Unless it dangles, the walk gives the same answer whatever follows the section. */
  lemma {:induction false} WithoutDangling(inside: bytes, after: bytes, n: nat)
    requires !Dangles(inside, n)
    ensures Entries(inside, after, n) == Entries(inside, [], n)
    decreases n
  {
    if n > 0 && NameIn(inside).Some? {
      var (name, tail) := NameIn(inside).value;
      assert tail + [] == tail;
      OneEntry(inside, after, n, name, tail, EntryStep(name, tail + after));
      OneEntry(inside, [], n, name, tail, EntryStep(name, tail));
      if Open(name, tail) {
        OpenStep(name, tail, after);
      } else {
        ClosedStep(name, tail, after);
        if EntryStep(name, tail).Next? {
          WithoutDangling(tail[EntryStep(name, tail).size..], after, n - 1);
        }
      }
    }
  }

  /** If it dangles, the walk fails at the end of a file but can succeed before a custom section. */
  lemma {:induction false} WhenDangling(inside: bytes, after: bytes, n: nat)
    requires Dangles(inside, n) && [0, 0x0d] <= after
    ensures Entries(inside, [], n) == (false, Unknown)
    ensures Entries(inside, after, n).0
    decreases n
  {
    var (name, tail) := NameIn(inside).value;
    assert tail + [] == tail;
    OneEntry(inside, after, n, name, tail, EntryStep(name, tail + after));
    OneEntry(inside, [], n, name, tail, EntryStep(name, tail));
    if Open(name, tail) {
      OpenStep(name, tail, after);
    } else {
      ClosedStep(name, tail, after);
      WhenDangling(tail[EntryStep(name, tail).size..], after, n - 1);
    }
  }

  /** A walk whose entries are all inside the section does not dangle. */
  lemma {:induction false} ListedDoesNotDangle(inside: bytes, exports: seq<Export>)
    requires Lists(inside, exports, |exports|)
    ensures !Dangles(inside, |exports|)
  {
    var answer := Entries(inside, [], |exports|);
    EntriesMeaning(answer, inside, [], exports, |exports|);
    if Dangles(inside, |exports|) {
      WhenDangling(inside, [0, 0x0d], |exports|);
    }
  }

  /** The content of an export section with exactly these entries, all of them inside it. */
  ghost predicate ExportsListed(body: bytes, exports: seq<Export>) {
    var count := ReadUnsigned(30, body);
    && count.Some? && count.value.size + count.value.value <= |body| && count.value.value == |exports|
    && Lists(body[count.value.size..], exports, |exports|)
  }

  /** A well-formed export section announces the version of the first entry that announces one,
      whatever follows the section. */
  lemma {:induction false} WellFormedExports(body: bytes, exports: seq<Export>, after: bytes)
    requires ExportsListed(body, exports)
    ensures Exports(body, after) == (true, FirstAnnounced(exports)) && !ExportsDangle(body)
  {
    var inside := body[ReadUnsigned(30, body).value.size..];
    var answer := Entries(inside, after, |exports|);
    EntriesMeaning(answer, inside, after, exports, |exports|);
    ListedDoesNotDangle(inside, exports);
  }

  function FirstExport(m: Module): Option<Section> {
    match m
    case Rest(_) => None
    case Sections(first, more) => if first.id == EXPORT then Some(first) else FirstExport(more)
  }

  lemma {:induction false} NonCustomKeepsAbi(m: Module)
    requires FirstExport(m).Some? ==> !ExportsDangle(FirstExport(m).value.body)
    ensures Abi(NonCustom(m)) == Abi(m)
  {
    if m.Sections? {
      if m.first.id == EXPORT {
        SameExports(m.first.body, Flatten(m.more), Flatten(NonCustom(m.more)));
      } else {
        NonCustomKeepsAbi(m.more);
      }
    }
  }

  lemma {:induction false} SameExports(body: bytes, after: bytes, other: bytes)
    requires !ExportsDangle(body)
    ensures Exports(body, after) == Exports(body, other)
  {
    var count := ReadUnsigned(30, body);
    if count.Some? && count.value.size + count.value.value <= |body| {
      WithoutDangling(body[count.value.size..], after, count.value.value);
      WithoutDangling(body[count.value.size..], other, count.value.value);
    }
  }

  lemma {:induction false} StrippedKeepsAbi(m: Module)
    requires FirstExport(m).Some? ==> !ExportsDangle(FirstExport(m).value.body)
    ensures Abi(Stripped(m)) == Abi(m)
  {
    if m.Sections? {
      if m.first.id == EXPORT {
        SameExports(m.first.body, Flatten(m.more), Flatten(Stripped(m.more)));
      } else if Precompiled(m) {
        NonCustomKeepsAbi(m.more);
      } else {
        StrippedKeepsAbi(m.more);
      }
    }
  }

  /** Stripping does not change the ABI version of the file. */
  ghost predicate Survives(b: bytes) {
    CheckWasmHeader(b) && Strippable(ModuleOf(b)) ==> AbiOf(StrippedBytes(b)) == AbiOf(b)
  }

  /** Stripping keeps the ABI version of every file without an export section, and of every file
      whose first export section does not dangle. */
  lemma {:induction false} AbiSurvives(b: bytes)
    requires FirstExport(ModuleOf(b)).Some? ==> !ExportsDangle(FirstExport(ModuleOf(b)).value.body)
    ensures Survives(b)
  {
    if CheckWasmHeader(b) && Strippable(ModuleOf(b)) {
      StrippingKeepsTheModule(b);
      StrippedKeepsAbi(ModuleOf(b));
    }
  }

  /** The export section, a precompiled one, and nothing else. */
  function BeforePrecompiled(e: Section): Module {
    Sections(e, Sections(PRECOMPILED_SECTION, Rest([])))
  }

  lemma {:induction false} LostBehindDangling(e: Section)
    requires e.id == EXPORT && ExportsDangle(e.body)
    ensures Abi(BeforePrecompiled(e)).0
    ensures Abi(Sections(e, Rest([]))) == (false, Unknown)
  {
    var count := ReadUnsigned(30, e.body).value;
    WhenDangling(e.body[count.size..], Flatten(BeforePrecompiled(e).more), count.value);
  }

  lemma {:induction false} BeforePrecompiledIsPlain(e: Section)
    requires e.WellFormed() && e.id == EXPORT
    ensures WellFormed(BeforePrecompiled(e)) && Strippable(BeforePrecompiled(e))
    ensures Stripped(BeforePrecompiled(e)) == Sections(e, Rest([]))
    ensures FirstExport(BeforePrecompiled(e)) == Some(e)
  {
    PrecompiledSectionIsOne(Rest([]));
  }

  /** Before a precompiled section, and with nothing else in the file, a dangling export section
      has a version that is lost by stripping. */
  lemma {:induction false} AbiLost(e: Section) returns (b: bytes)
    requires e.WellFormed() && e.id == EXPORT
    ensures ExportsDangle(e.body) ==> FirstExport(ModuleOf(b)) == Some(e) && !Survives(b)
  {
    var header: bytes := MAGIC + [0x01, 0x00, 0x00, 0x00];
    var m := BeforePrecompiled(e);
    b := header + Flatten(m);
    BeforePrecompiledIsPlain(e);
    ModuleOfParts(header, m);
    StrippingKeepsTheModule(b);
    if ExportsDangle(e.body) {
      LostBehindDangling(e);
    }
  }

  /** There are such sections: one entry that ends after its name. */
  lemma {:induction false} DanglingSection() returns (e: Section)
    ensures e.WellFormed() && e.id == EXPORT && ExportsDangle(e.body)
  {
    e := Section([EXPORT, 0x02, 0x01, 0x00], 2, EXPORT, [0x01, 0x00]);
    assert e.raw[1..] == [0x02] + e.body && e.raw[2..] == e.body;
    OneByteInteger(0x02, e.body);
    OneByteInteger(0x01, [0x00]);
    assert e.body == [0x01] + [0x00] && e.body[1..] == [0x00];
    ShortName(0x00, [], []);
    assert [0x00] + [] + [] == [0x00];
  }

  /** The condition is exact for every export section. */
  lemma {:induction false} SurvivesExactlyIf(e: Section)
    requires e.WellFormed() && e.id == EXPORT
    ensures (forall b: bytes | FirstExport(ModuleOf(b)) == Some(e) :: Survives(b)) <==> !ExportsDangle(e.body)
  {
    if ExportsDangle(e.body) {
      var b := AbiLost(e);
    } else {
      forall b: bytes | FirstExport(ModuleOf(b)) == Some(e)
        ensures Survives(b)
      {
        AbiSurvives(b);
      }
    }
  }

  // ---- The answer, read off the file ----

  /** The bytes are those of an ASCII text. */
  predicate Spells(name: bytes, text: string) {
    |name| == |text| && forall i | 0 <= i < |text| :: name[i] == text[i] as int
  }

  lemma {:induction false} SpellsAscii(name: bytes, text: string)
    requires forall i | 0 <= i < |text| :: text[i] as int < 256
    ensures name == Ascii(text) <==> Spells(name, text)
  {
  }

  /** Which name stands for which version. */
  lemma {:induction false} VersionMeaning(name: bytes)
    ensures VersionNamed(name) == ProxyWasm_0_1_0 <==> Spells(name, "proxy_abi_version_0_1_0")
    ensures VersionNamed(name) == ProxyWasm_0_2_0 <==> Spells(name, "proxy_abi_version_0_2_0")
    ensures VersionNamed(name) == ProxyWasm_0_2_1 <==> Spells(name, "proxy_abi_version_0_2_1")
  {
    SpellsAscii(name, "proxy_abi_version_0_1_0");
    SpellsAscii(name, "proxy_abi_version_0_2_0");
    SpellsAscii(name, "proxy_abi_version_0_2_1");
    assert Spells(name, "proxy_abi_version_0_1_0") ==> name[20] == '1' as int && name[22] == '0' as int;
    assert Spells(name, "proxy_abi_version_0_2_0") ==> name[20] == '2' as int && name[22] == '0' as int;
    assert Spells(name, "proxy_abi_version_0_2_1") ==> name[20] == '2' as int && name[22] == '1' as int;
  }

  /** An entry announces a version exactly if it exports a function, and under one of these names. */
  lemma {:induction false} AnnouncesMeaning(e: Export)
    ensures Announces(e)
       <==> e.kind == 0 && (Spells(e.name, "proxy_abi_version_0_1_0") || Spells(e.name, "proxy_abi_version_0_2_0")
                            || Spells(e.name, "proxy_abi_version_0_2_1"))
  {
    VersionMeaning(e.name);
  }

  /** The first section with id 7 decides, from its content and the bytes behind it; without one the
      version is Unknown, and the call succeeds exactly if the file can be read to its end. */
  lemma {:induction false} AbiMeaning(m: Module) returns (i: nat)
    ensures i <= |Listed(m)| && forall j | 0 <= j < i :: Listed(m)[j].id != 7
    ensures i == |Listed(m)| ==> Abi(m) == (EndsClean(m), Unknown) && FirstExport(m) == None
    ensures i < |Listed(m)| ==>
              && Listed(m)[i].id == 7 && From(m, i).Sections? && FirstExport(m) == Some(Listed(m)[i])
              && Abi(m) == Exports(Listed(m)[i].body, Flatten(From(m, i).more))
  {
    i := 0;
    if m.Sections? && m.first.id != 7 {
      var k := AbiMeaning(m.more);
      i := k + 1;
      assert Listed(m)[1..] == Listed(m.more);
      assert forall j | 0 < j < |Listed(m)| :: Listed(m)[j] == Listed(m.more)[j - 1];
    }
  }

  /** The entry at the front of `inside`, if it can be read and announces no version, and what is left of
      the section after it; its kind and index may lie behind the section. */
  function PassedOver(inside: bytes, after: bytes): Option<(Export, bytes)> {
    match NameIn(inside)
    case None => None
    case Some((name, tail)) =>
      match KindAndIndex(tail + after)
      case None => None
      case Some((kind, index)) =>
        if Announces(Export(name, kind, index.value)) then None
        else Some((Export(name, kind, index.value), Window(tail, 1 + index.size, |tail|)))
  }

  /** The entries `exports` are passed over one after another, which leaves `end` of the section. */
  ghost predicate Passes(inside: bytes, after: bytes, exports: seq<Export>, end: bytes)
    decreases |exports|
  {
    if exports == [] then end == inside
    else
      && PassedOver(inside, after).Some? && PassedOver(inside, after).value.0 == exports[0]
      && Passes(PassedOver(inside, after).value.1, after, exports[1..], end)
  }

  /** How the entry at `end` ends the walk: it announces a version, or it cannot be read. */
  ghost predicate Decides(end: bytes, after: bytes, answer: (bool, AbiVersion)) {
    if NameIn(end) == None then
      answer == (false, Unknown)
    else
      var (name, tail) := NameIn(end).value;
      if tail + after != [] && Announces(Export(name, (tail + after)[0], 0)) then answer == (true, VersionNamed(name))
      else KindAndIndex(tail + after) == None && answer == (false, Unknown)
  }

  lemma {:induction false} DecidesAtOnce(answer: (bool, AbiVersion), inside: bytes, after: bytes, n: nat)
    requires n > 0 && Asked(answer, inside, after, n) && PassedOver(inside, after) == None
    ensures Decides(inside, after, answer)
  {
  }

  lemma {:induction false} PassedFirst(answer: (bool, AbiVersion), inside: bytes, after: bytes, n: nat,
                                       e: Export, rest: bytes)
    requires n > 0 && Asked(answer, inside, after, n) && PassedOver(inside, after) == Some((e, rest))
    ensures Asked(answer, rest, after, n - 1)
  {
  }

  lemma {:induction false} PassesOneMore(inside: bytes, after: bytes, e: Export, rest: bytes,
                                         exports: seq<Export>, end: bytes)
    requires PassedOver(inside, after) == Some((e, rest)) && Passes(rest, after, exports, end)
    ensures Passes(inside, after, [e] + exports, end)
  {
    assert ([e] + exports)[1..] == exports;
  }

  /** The walk over any export section, well formed or not: entries are passed over until all are, and
      the version is Unknown, or until one announces a version or cannot be read. */
  lemma {:induction false} EntriesDecided(answer: (bool, AbiVersion), inside: bytes, after: bytes, n: nat)
    returns (passed: seq<Export>, end: bytes)
    requires Asked(answer, inside, after, n)
    ensures |passed| <= n && Passes(inside, after, passed, end)
    ensures if |passed| == n then answer == (true, Unknown) else Decides(end, after, answer)
    decreases n
  {
    if n == 0 {
      passed, end := [], inside;
    } else if PassedOver(inside, after) == None {
      DecidesAtOnce(answer, inside, after, n);
      passed, end := [], inside;
    } else {
      var e, rest := PassedOver(inside, after).value.0, PassedOver(inside, after).value.1;
      PassedFirst(answer, inside, after, n, e, rest);
      var others;
      others, end := EntriesDecided(answer, rest, after, n - 1);
      PassesOneMore(inside, after, e, rest, others, end);
      passed := [e] + others;
    }
  }

  /** The whole of an export section: the number of entries must be readable and not larger than the rest
      of the section, and then the entries decide. */
  lemma {:induction false} ExportsDecided(body: bytes, after: bytes) returns (passed: seq<Export>, end: bytes)
    ensures ReadUnsigned(30, body) == None ==> Exports(body, after) == (false, Unknown)
    ensures forall n, size | ReadUnsigned(30, body) == Some(Read(n, size)) :: ExportsAre(body, after, n, size, passed, end)
  {
    passed, end := [], [];
    if ReadUnsigned(30, body).Some? {
      var r := ReadUnsigned(30, body).value;
      if r.size + r.value <= |body| {
        passed, end := EntriesDecided(Exports(body, after), body[r.size..], after, r.value);
      }
    }
  }

  ghost predicate ExportsAre(body: bytes, after: bytes, n: nat, size: nat, passed: seq<Export>, end: bytes) {
    if size + n > |body| then
      Exports(body, after) == (false, Unknown)
    else
      && |passed| <= n && Passes(body[size..], after, passed, end)
      && if |passed| == n then Exports(body, after) == (true, Unknown) else Decides(end, after, Exports(body, after))
  }

  // ---- Written export sections ----

  function WrittenExport(e: Export): bytes {
    WrittenName(e.name) + ([e.kind] + Encoded(e.index))
  }

  function WrittenEntries(exports: seq<Export>): bytes {
    if exports == [] then [] else WrittenExport(exports[0]) + WrittenEntries(exports[1..])
  }

  /** The content of an export section: the number of its entries, and the entries. */
  function WrittenExports(exports: seq<Export>): bytes {
    Encoded(|exports|) + WrittenEntries(exports)
  }

  ghost predicate Small(exports: seq<Export>) {
    |exports| < 0x4000_0000
    && forall e | e in exports :: |e.name| < 0x4000_0000 && e.index < 0x4000_0000
  }

  lemma {:induction false} WrittenExportIsRead(e: Export, rest: bytes)
    requires |e.name| < 0x4000_0000 && e.index < 0x4000_0000
    ensures NameIn(WrittenExport(e) + rest) == Some((e.name, [e.kind] + Encoded(e.index) + rest))
    ensures KindAndIndex([e.kind] + Encoded(e.index) + rest) == Some((e.kind, Read(e.index, |Encoded(e.index)|)))
    ensures ([e.kind] + Encoded(e.index) + rest)[1 + |Encoded(e.index)|..] == rest
  {
    var tail := [e.kind] + Encoded(e.index);
    Associative(WrittenName(e.name), tail, rest);
    WrittenNameIsRead(e.name, tail + rest);
    EncodedBelowTwoTo30(e.index, rest);
    assert (tail + rest)[1..] == Encoded(e.index) + rest;
  }

  lemma {:induction false} WrittenEntriesAreListed(exports: seq<Export>)
    requires Small(exports)
    ensures Lists(WrittenEntries(exports), exports, |exports|)
    ensures |WrittenEntries(exports)| >= |exports|
  {
    if exports != [] {
      WrittenExportIsRead(exports[0], WrittenEntries(exports[1..]));
      WrittenEntriesAreListed(exports[1..]);
    }
  }

  /** What is written with these entries announces the version of the first of them that announces one,
      whatever follows. */
  lemma {:induction false} WrittenExportsAnnounce(exports: seq<Export>, after: bytes)
    requires Small(exports)
    ensures Exports(WrittenExports(exports), after) == (true, FirstAnnounced(exports))
  {
    var count := Encoded(|exports|);
    EncodedBelowTwoTo30(|exports|, WrittenEntries(exports));
    WrittenEntriesAreListed(exports);
    assert (count + WrittenEntries(exports))[|count|..] == WrittenEntries(exports);
    WellFormedExports(WrittenExports(exports), exports, after);
  }
}
