/**
 The section structure of a Wasm binary (sections 5.5.2 and 5.5.3 of the WebAssembly Core
 Specification) as a list of sections, and the cursor walks' relation to it.
 */
module Sections {
  import opened Bytes
  import opened Leb128

  /** A section: its encoding, the first `header` bytes of which hold the id and the length of the
      content, and the id and the content themselves. */
  datatype Section = Section(raw: bytes, header: nat, id: byte, body: bytes) {
    ghost predicate WellFormed() {
      && 1 <= header <= |raw| && raw[0] == id && raw[header..] == body
      && ReadUnsigned(30, raw[1..]) == Some(Read(|raw| - header, header - 1))
    }
  }

  const CUSTOM: byte := 0
  const EXPORT: byte := 7
  const MAGIC: bytes := [0x00, 0x61, 0x73, 0x6d]

  /** A file after its header: complete sections, and a rest that does not begin with one. */
  datatype Module = Rest(rest: bytes) | Sections(first: Section, more: Module)

  function Flatten(m: Module): bytes {
    match m
    case Rest(rest) => rest
    case Sections(first, more) => first.raw + Flatten(more)
  }

  ghost predicate WellFormed(m: Module) {
    match m
    case Rest(rest) => FirstSection(rest) == None
    case Sections(first, more) => first.WellFormed() && WellFormed(more)
  }

  /** BytecodeUtil::checkWasmHeader: an input too short for a header passes. */
  predicate CheckWasmHeader(b: bytes) {
    |b| < 8 || b[..4] == MAGIC
  }

  function AfterHeader(b: bytes): bytes {
    Window(b, 8, |b|)
  }

  /** The section at the front of `s`, if a complete one is there. */
  function FirstSection(s: bytes): (r: Option<Section>)
    ensures r.Some? ==> 1 <= r.value.header <= |r.value.raw| && r.value.raw <= s
  {
    if s == [] then
      None
    else
      match ReadUnsigned(30, s[1..])
      case None => None
      case Some(r) =>
        var header := 1 + r.size;
        if header + r.value > |s| then None else Some(Section(s[..header + r.value], header, s[0], s[header..header + r.value]))
  }

  /** The sections of `s`, as many complete ones as there are at its front. */
  function Walk(s: bytes): Module
    decreases |s|
  {
    match FirstSection(s)
    case None => Rest(s)
    case Some(sec) => Sections(sec, Walk(s[|sec.raw|..]))
  }

  lemma {:induction false} FirstSectionIsExact(s: bytes)
    requires FirstSection(s).Some?
    ensures FirstSection(s).value.WellFormed()
    ensures var raw := FirstSection(s).value.raw; s == raw + s[|raw|..]
  {
    var raw := FirstSection(s).value.raw;
    var n := ReadUnsigned(30, s[1..]).value.size;
    ReadAlone(30, s[1..]);
    ReadIgnoresTheRest(30, s[1..][..n], raw[1 + n..]);
    assert raw[1..] == s[1..][..n] + raw[1 + n..];
  }

  /** The walk loses nothing: its sections are well formed and, with the rest, they are the input. */
  lemma {:induction false} WalkIsExact(s: bytes)
    ensures WellFormed(Walk(s)) && Flatten(Walk(s)) == s
    decreases |s|
  {
    if FirstSection(s).Some? {
      FirstSectionIsExact(s);
      WalkIsExact(s[|FirstSection(s).value.raw|..]);
    }
  }

  lemma {:induction false} FirstSectionOfRaw(sec: Section, rest: bytes)
    requires sec.WellFormed()
    ensures FirstSection(sec.raw + rest) == Some(sec)
  {
    var s := sec.raw + rest;
    assert s[1..] == sec.raw[1..] + rest;
    ReadIgnoresTheRest(30, sec.raw[1..], rest);
    assert s[..|sec.raw|] == sec.raw;
  }

  /** Walking is the inverse of flattening, so every input has exactly one section structure. */
  lemma {:induction false} WalkInvertsFlatten(m: Module)
    requires WellFormed(m)
    ensures Walk(Flatten(m)) == m
  {
    if m.Sections? {
      var s, raw := Flatten(m), m.first.raw;
      FirstSectionOfRaw(m.first, Flatten(m.more));
      CursorMoves(s, 0, raw, Flatten(m.more));
      WalkInvertsFlatten(m.more);
    }
  }

  function ModuleOf(b: bytes): Module {
    Walk(AfterHeader(b))
  }

  /** The section header that the walks read at a cursor, checked against the end of the file. */
  function HeaderAt(b: bytes, pos: nat): (r: Option<Read>) {
    match ReadUnsigned(30, Window(b, pos + 1, |b|))
    case None => None
    case Some(r) => if pos + 1 + r.size + r.value > |b| then None else Some(r)
  }

  /** Section `sec` is at `pos` in the file. */
  ghost predicate SectionAt(b: bytes, pos: nat, sec: Section) {
    && 1 <= sec.header <= |sec.raw| && pos + |sec.raw| <= |b|
    && HeaderAt(b, pos) == Some(Read(|sec.raw| - sec.header, sec.header - 1))
    && b[pos] == sec.id
    && b[pos..pos + |sec.raw|] == sec.raw
    && b[pos + sec.header..pos + |sec.raw|] == sec.body
  }

  /** From `pos` on the walks find the sections of `m`, and then stop as they should. */
  ghost predicate LaidOut(b: bytes, pos: nat, m: Module)
    decreases m, 0
  {
    && Window(b, pos, |b|) == Flatten(m)
    && match m
       case Sections(first, more) => SectionAt(b, pos, first) && Laid(b, pos + |first.raw|, more)
       case Rest(rest) => rest != [] ==> pos < |b| && HeaderAt(b, pos) == None
  }

  /** The same, kept folded, so that the loops pass it on without looking into it. */
  ghost predicate Laid(b: bytes, pos: nat, m: Module)
    decreases m, 1
  {
    && (forall p {:trigger LaidOut(b, p, m)} | pos <= p <= pos :: LaidOut(b, p, m))
    && (pos >= |b| ==> m == Rest([]))
  }

  lemma {:induction false} SectionIsAt(b: bytes, pos: nat, sec: Section, tail: bytes)
    requires sec.WellFormed() && pos <= |b| && b[pos..] == sec.raw + tail
    ensures SectionAt(b, pos, sec) && b[pos + |sec.raw|..] == tail
  {
    assert b[pos..][1..] == Window(b, pos + 1, |b|);
    FirstSectionOfRaw(sec, tail);
    CursorMoves(b, pos, sec.raw, tail);
    SliceOfSlice(b, pos, pos + |sec.raw|, sec.header, |sec.raw|);
  }

  lemma {:induction false} StopsAtRest(b: bytes, pos: nat, rest: bytes)
    requires FirstSection(rest) == None && Window(b, pos, |b|) == rest
    ensures Laid(b, pos, Rest(rest))
  {
    if rest != [] {
      assert b[pos..][1..] == Window(b, pos + 1, |b|);
    }
  }

  lemma {:induction false} LayOne(b: bytes, pos: nat, first: Section, more: Module)
    requires SectionAt(b, pos, first) && Laid(b, pos + |first.raw|, more)
    requires Window(b, pos, |b|) == first.raw + Flatten(more)
    ensures Laid(b, pos, Sections(first, more))
  {
  }

  lemma {:induction false} LayOut(b: bytes, pos: nat, m: Module)
    requires WellFormed(m) && Window(b, pos, |b|) == Flatten(m)
    ensures Laid(b, pos, m)
    decreases m
  {
    match m
    case Sections(first, more) =>
      SectionIsAt(b, pos, first, Flatten(more));
      LayOut(b, pos + |first.raw|, more);
      LayOne(b, pos, first, more);
    case Rest(rest) =>
      StopsAtRest(b, pos, rest);
  }

  /** What is at the cursor. */
  lemma {:induction false} LookAt(b: bytes, pos: nat, m: Module)
    requires Laid(b, pos, m) && pos < |b|
    ensures m.Sections? ==> SectionAt(b, pos, m.first) && Laid(b, pos + |m.first.raw|, m.more)
    ensures m.Rest? ==> m.rest != [] && HeaderAt(b, pos) == None
  {
    assert LaidOut(b, pos, m);
  }

  /** What is behind the cursor. */
  lemma {:induction false} RestOfFile(b: bytes, pos: nat, m: Module)
    requires Laid(b, pos, m)
    ensures pos <= |b| ==> b[pos..] == Flatten(m)
  {
    assert LaidOut(b, pos, m);
  }

  lemma {:induction false} EveryFileIsLaidOut(b: bytes)
    ensures Laid(b, 8, ModuleOf(b))
  {
    WalkIsExact(AfterHeader(b));
    LayOut(b, 8, ModuleOf(b));
  }

  /** The length-prefixed name at the front of `s`, and what follows it. */
  function NameIn(s: bytes): Option<(bytes, bytes)> {
    match ReadUnsigned(30, s)
    case None => None
    case Some(r) =>
      if r.size + r.value > |s| then None
      else Some((s[r.size..r.size + r.value], s[r.size + r.value..]))
  }

  /** The name of a custom section, which must lie inside the section. */
  function NameOf(sec: Section): Option<bytes> {
    if NameIn(sec.body).Some? then Some(NameIn(sec.body).value.0) else None
  }

  /** What is left of a custom section after its name. */
  function ContentOf(sec: Section): bytes
    requires NameOf(sec).Some?
  {
    NameIn(sec.body).value.1
  }

  /** The reading of a section's id and length that all walks share; `m` is what is at the cursor. */
  method ReadSectionHeader(b: bytes, pos: nat, ghost m: Module)
    returns (ok: bool, id: byte, body: nat, next: nat)
    requires pos < |b| && Laid(b, pos, m)
    ensures ok == m.Sections? && (!ok ==> m.rest != [])
    ensures ok ==>
              && id == m.first.id && pos < body <= next <= |b|
              && b[pos..next] == m.first.raw && b[body..next] == m.first.body
              && Laid(b, next, m.more)
  {
    LookAt(b, pos, m);
    id := b[pos];
    var len;
    ok, body, len := ParseVarint(b, pos + 1, |b|);
    next := body + len;
    ok := ok && next <= |b|;
  }

  /** The reading of a length-prefixed name that all walks share. */
  method ReadName(b: bytes, pos: nat, end: nat, ghost window: bytes)
    returns (ok: bool, start: nat, len: nat)
    requires end <= |b| && Window(b, pos, end) == window
    ensures ok ==> pos < start <= start + len <= end
    ensures NameIn(window) == if ok then Some((b[start..start + len], b[start + len..end])) else None
  {
    ok, start, len := ParseVarint(b, pos, end);
    ok := ok && start + len <= end;
    if ok {
      SliceOfSlice(b, pos, end, start - pos, start - pos + len);
      SliceOfSlice(b, pos, end, start - pos + len, end - pos);
    }
  }

  /** The search for a custom section: the first one that has the name gives the answer, unless
      one without a readable name, or an unreadable rest, comes first. */
  function Search(m: Module, name: bytes): (bool, Option<bytes>) {
    match m
    case Rest(rest) => (rest == [], None)
    case Sections(first, more) =>
      if first.id != CUSTOM then Search(more, name)
      else if NameOf(first) == None then (false, None)
      else if NameOf(first) == Some(name) then (true, Some(ContentOf(first)))
      else Search(more, name)
  }

  /** Whether a custom section is readable, and its content if it has the name. */
  method ContentIfNamed(b: bytes, body: nat, end: nat, name: bytes, ghost sec: Section)
    returns (readable: bool, content: Option<bytes>)
    requires body <= end <= |b| && b[body..end] == sec.body
    ensures readable == NameOf(sec).Some?
    ensures content == if NameOf(sec) == Some(name) then Some(ContentOf(sec)) else None
  {
    var ok, start, len := ReadName(b, body, end, sec.body);
    readable := ok;
    content := if ok && b[start..start + len] == name then Some(b[start + len..end]) else None;
  }

  /** BytecodeUtil::getCustomSection. */
  method GetCustomSection(b: bytes, name: bytes) returns (ok: bool, ret: Option<bytes>)
    ensures (ok, ret) == if CheckWasmHeader(b) then Search(ModuleOf(b), name) else (false, None)
  {
    ok, ret := false, None;
    if !CheckWasmHeader(b) {
      return;
    }
    var pos: nat := 8;
    var end: nat := |b|;
    ghost var left := ModuleOf(b);
    EveryFileIsLaidOut(b);
    while pos < end
      invariant Laid(b, pos, left)
      invariant Search(ModuleOf(b), name) == Search(left, name)
      decreases end - pos
    {
      var good, sectionType, body, next := ReadSectionHeader(b, pos, left);
      if !good {
        return;
      }
      if sectionType == CUSTOM {
        var readable, content := ContentIfNamed(b, body, next, name, left.first);
        if !readable || content.Some? {
          return readable, content;
        }
      }
      pos := next;
      left := left.more;
    }
    ok := true;
  }

  /** The complete sections, in order. */
  function Listed(m: Module): seq<Section> {
    match m
    case Rest(_) => []
    case Sections(first, more) => [first] + Listed(more)
  }

  /** Section `i` is the first custom section with the name, and all custom ones before it have
      readable names. */
  ghost predicate IsFirstNamed(secs: seq<Section>, i: nat, name: bytes) {
    && i < |secs| && secs[i].id == CUSTOM && NameOf(secs[i]) == Some(name)
    && forall j | 0 <= j < i && secs[j].id == CUSTOM :: NameOf(secs[j]).Some? && NameOf(secs[j]) != Some(name)
  }

  /** The search finds exactly the content of the first custom section with the name. */
  lemma SearchMeaning(m: Module, name: bytes)
    ensures forall i: nat | IsFirstNamed(Listed(m), i, name) :: Search(m, name) == (true, Some(ContentOf(Listed(m)[i])))
    ensures Search(m, name).1.Some? ==> Search(m, name).0 && exists i: nat :: IsFirstNamed(Listed(m), i, name)
  {
    forall i: nat | IsFirstNamed(Listed(m), i, name)
      ensures Search(m, name) == (true, Some(ContentOf(Listed(m)[i])))
    {
      NamedIsFound(m, name, i);
    }
    if Search(m, name).1.Some? {
      var i := FoundIsNamed(m, name);
    }
  }

  lemma {:induction false} NamedIsFound(m: Module, name: bytes, i: nat)
    requires IsFirstNamed(Listed(m), i, name)
    ensures Search(m, name) == (true, Some(ContentOf(Listed(m)[i])))
  {
    if i > 0 {
      var secs, later := Listed(m), Listed(m.more);
      assert secs[0] == m.first;
      forall j | 0 <= j < i - 1 && later[j].id == CUSTOM
        ensures NameOf(later[j]).Some? && NameOf(later[j]) != Some(name)
      {
        assert later[j] == secs[j + 1];
      }
      NamedIsFound(m.more, name, i - 1);
    }
  }

  lemma {:induction false} FoundIsNamed(m: Module, name: bytes) returns (i: nat)
    requires Search(m, name).1.Some?
    ensures Search(m, name).0 && IsFirstNamed(Listed(m), i, name)
  {
    i := 0;
    if m.first.id != CUSTOM || NameOf(m.first) != Some(name) {
      var k := FoundIsNamed(m.more, name);
      i := k + 1;
      assert forall j | 0 < j < |Listed(m)| :: Listed(m)[j] == Listed(m.more)[j - 1];
    }
  }

  /** A search succeeds without a result exactly in a readable module whose custom sections all
      have other, readable names. */
  lemma {:induction false} SearchFindsNothing(m: Module, name: bytes)
    ensures Search(m, name) == (true, None)
       <==> EndsClean(m) && forall sec | sec in Listed(m) && sec.id == CUSTOM ::
                              NameOf(sec).Some? && NameOf(sec) != Some(name)
  {
    if m.Sections? {
      SearchFindsNothing(m.more, name);
    }
  }

  /** The module is readable to its end. */
  predicate EndsClean(m: Module) {
    match m
    case Rest(rest) => rest == []
    case Sections(_, more) => EndsClean(more)
  }

  // ---- The header, and written sections ----

  /** A file passes exactly if it is too short for a header or begins with "\0asm". */
  lemma {:induction false} HeaderMeaning(b: bytes)
    ensures CheckWasmHeader(b) <==> |b| < 8 || (b[0] == 0x00 && b[1] == 0x61 && b[2] == 0x73 && b[3] == 0x6d)
  {
  }

  /** The sections begin behind the eighth byte, and there are none in a shorter file. */
  lemma {:induction false} SectionsBeginBehindHeader(b: bytes)
    ensures |b| <= 8 ==> ModuleOf(b) == Rest([])
    ensures |b| > 8 ==> Flatten(ModuleOf(b)) == b[8..]
  {
    WalkIsExact(AfterHeader(b));
  }

  /** A section as it is written: its id, the length of its content, and the content. */
  function Written(id: byte, body: bytes): Section {
    Section([id] + Encoded(|body|) + body, 1 + |Encoded(|body|)|, id, body)
  }

  lemma {:induction false} WrittenIsWellFormed(id: byte, body: bytes)
    requires |body| < 0x4000_0000
    ensures Written(id, body).WellFormed()
  {
    var length := Encoded(|body|);
    EncodedBelowTwoTo30(|body|, body);
    Associative([id], length, body);
    assert ([id] + (length + body))[1..] == length + body;
    assert ([id] + length + body)[1 + |length|..] == body;
  }

  /** A name as it is written: its length and its bytes. */
  function WrittenName(name: bytes): bytes {
    Encoded(|name|) + name
  }

  lemma {:induction false} WrittenNameIsRead(name: bytes, rest: bytes)
    requires |name| < 0x4000_0000
    ensures NameIn(WrittenName(name) + rest) == Some((name, rest))
  {
    var length := Encoded(|name|);
    EncodedBelowTwoTo30(|name|, name + rest);
    Associative(length, name, rest);
    var s := length + (name + rest);
    assert s[|length|..|length| + |name|] == name && s[|length| + |name|..] == rest;
  }

  /** A custom section that is written with a name and a content has that name and that content. */
  lemma {:induction false} WrittenCustomSection(name: bytes, content: bytes)
    requires |WrittenName(name) + content| < 0x4000_0000
    ensures Written(0, WrittenName(name) + content).WellFormed()
    ensures NameOf(Written(0, WrittenName(name) + content)) == Some(name)
    ensures ContentOf(Written(0, WrittenName(name) + content)) == content
  {
    WrittenIsWellFormed(0, WrittenName(name) + content);
    WrittenNameIsRead(name, content);
  }

  /** So it is found in a file behind any readable sections that do not have the name. */
  lemma {:induction false} WrittenCustomSectionIsFound(m: Module, i: nat, name: bytes, content: bytes)
    requires |WrittenName(name) + content| < 0x4000_0000 && i < |Listed(m)|
    requires Listed(m)[i] == Written(0, WrittenName(name) + content)
    requires forall j | 0 <= j < i && Listed(m)[j].id == 0 :: NameOf(Listed(m)[j]).Some? && NameOf(Listed(m)[j]) != Some(name)
    ensures Search(m, name) == (true, Some(content))
  {
    WrittenCustomSection(name, content);
    assert IsFirstNamed(Listed(m), i, name);
    NamedIsFound(m, name, i);
  }

  function Concatenated(secs: seq<Section>): bytes {
    if secs == [] then [] else secs[0].raw + Concatenated(secs[1..])
  }

  /** What the module is made of: its listed sections, and a rest that is empty exactly if it is
      readable to its end. */
  lemma {:induction false} ListedMeaning(m: Module) returns (rest: bytes)
    ensures Flatten(m) == Concatenated(Listed(m)) + rest
    ensures WellFormed(m) ==> FirstSection(rest) == None
    ensures EndsClean(m) <==> rest == []
  {
    if m.Rest? {
      rest := m.rest;
    } else {
      rest := ListedMeaning(m.more);
      Associative(m.first.raw, Concatenated(Listed(m.more)), rest);
      assert Listed(m)[1..] == Listed(m.more);
    }
  }
}
