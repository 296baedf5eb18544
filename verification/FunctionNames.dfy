/**
 BytecodeUtil::getFunctionNameIndex: the names of a module's functions, from the custom section
 "name" that is described in the appendix of the WebAssembly Core Specification.
 */
module FunctionNames {
  import opened Bytes
  import opened Leb128
  import opened Sections

  /** "name" */
  const NAME: bytes := [0x6e, 0x61, 0x6d, 0x65]
  const FUNCTION_NAMES: byte := 1

  type Index = map<nat, bytes>

  /** unordered_map::insert: a name that is there already stays. */
  function Inserted(index: Index, k: nat, name: bytes): Index {
    if k in index then index else index[k := name]
  }

  /** A name that may be demangled. */
  type Demangler = bytes -> bytes

  /** The entry at the front of `s`: a function index and a name, and what follows. */
  function NameEntry(s: bytes): (r: Option<(nat, bytes, bytes)>)
    ensures r.Some? ==> |r.value.2| < |s|
  {
    match ReadUnsigned(30, s)
    case None => None
    case Some(r) =>
      match NameIn(s[r.size..])
      case None => None
      case Some((name, tail)) => Some((r.value, name, tail))
  }

  /** What the loop over `n` entries comes to: whether they can be read, the names by then, and what
      follows the entries. */
  function Collect(demangle: Demangler, s: bytes, n: nat, index: Index): (r: (bool, Index, bytes))
    ensures r.0 ==> |r.2| <= |s|
    decreases n
  {
    if n == 0 then (true, index, s)
    else
      match NameEntry(s)
      case None => (false, index, [])
      case Some((k, name, tail)) => Collect(demangle, tail, n - 1, Inserted(index, k, demangle(name)))
  }

  /** The header of a subsection: its id, its size and what follows the header. */
  function Subsection(s: bytes): (r: Option<(byte, nat, bytes)>)
    ensures r.Some? ==> r.value.1 <= |r.value.2| < |s|
  {
    if s == [] then None
    else
      match ReadUnsigned(30, s[1..])
      case None => None
      case Some(r) => if 1 + r.size + r.value > |s| then None else Some((s[0], r.value, s[1 + r.size..]))
  }

  /** The number of names, and what follows it. */
  function NameCount(body: bytes): (r: Option<(nat, bytes)>)
    ensures r.Some? ==> |r.value.1| < |body|
  {
    match ReadUnsigned(30, body)
    case None => None
    case Some(r) => if r.size + r.value > |body| then None else Some((r.value, body[r.size..]))
  }

  /** A subsection with function names: its entries may run on to the end of the section, but must
      then turn out to fill exactly the subsection's size. */
  function FunctionSubsection(demangle: Demangler, body: bytes, size: nat, index: Index): (r: (bool, Index, bytes))
    ensures r.0 ==> |r.2| <= |body|
  {
    match NameCount(body)
    case None => (false, index, [])
    case Some((n, entries)) =>
      var (ok, index1, rest) := Collect(demangle, entries, n, index);
      (ok && |body| == size + |rest|, index1, rest)
  }

  /** The walk over the subsections. */
  function Subsections(demangle: Demangler, s: bytes, index: Index): (bool, Index)
    decreases |s|
  {
    if s == [] then (true, index)
    else
      match Subsection(s)
      case None => (false, index)
      case Some((id, size, body)) =>
        if id != FUNCTION_NAMES then Subsections(demangle, body[size..], index)
        else
          var (ok, index1, rest) := FunctionSubsection(demangle, body, size, index);
          if !ok then (false, index1) else Subsections(demangle, rest, index1)
  }

  /** What the loop over the entries still has to do. */
  ghost predicate Collecting(answer: (bool, Index, bytes), demangle: Demangler, s: bytes, n: nat, index: Index) {
    answer == Collect(demangle, s, n, index)
  }

  lemma {:induction false} CollectStep(answer: (bool, Index, bytes), demangle: Demangler, s: bytes, n: nat, index: Index,
                                       entry: Option<(nat, bytes, bytes)>)
    requires n > 0 && Collecting(answer, demangle, s, n, index) && entry == NameEntry(s)
    ensures entry == None ==> answer == (false, index, [])
    ensures entry.Some? ==>
              Collecting(answer, demangle, entry.value.2, n - 1, Inserted(index, entry.value.0, demangle(entry.value.1)))
  {
  }

  /** One entry at a cursor. */
  method ReadEntry(b: bytes, pos: nat, ghost s: bytes) returns (ok: bool, k: nat, name: bytes, next: nat)
    requires pos <= |b| && b[pos..] == s
    ensures ok ==> next <= |b|
    ensures NameEntry(s) == if ok then Some((k, name, b[next..])) else None
  {
    name, next := [], pos;
    Skip(b, pos, s, pos);
    var afterIndex;
    ok, afterIndex, k := ParseVarint(b, pos, |b|);
    if !ok {
      return;
    }
    ghost var rest := s[afterIndex - pos..];
    Skip(b, pos, s, afterIndex);
    EntryRead(s, Read(k, afterIndex - pos), rest);
    var start, len;
    ok, start, len := ReadName(b, afterIndex, |b|, rest);
    if ok {
      name, next := b[start..start + len], start + len;
    }
  }

  lemma {:induction false} EntryRead(s: bytes, r: Read, rest: bytes)
    requires ReadUnsigned(30, s) == Some(r) && rest == s[r.size..]
    ensures NameEntry(s)
         == match NameIn(rest) case None => None case Some((name, tail)) => Some((r.value, name, tail))
  {
  }

  lemma {:induction false} Skip(b: bytes, pos: nat, s: bytes, next: nat)
    requires pos <= next <= |b| && b[pos..] == s
    ensures Window(b, next, |b|) == s[next - pos..] == b[next..]
  {
  }

  /** The loop over the entries. */
  method CollectNames(demangle: Demangler, b: bytes, start: nat, n: nat, index0: Index, ghost entries: bytes)
    returns (ok: bool, index: Index, pos: nat)
    requires start <= |b| && b[start..] == entries
    ensures ok ==> pos <= |b|
    ensures (ok, index, if ok then b[pos..] else []) == Collect(demangle, entries, n, index0)
  {
    ok, index, pos := false, index0, start;
    ghost var answer := Collect(demangle, entries, n, index0);
    for i := 0 to n
      invariant pos <= |b| && Collecting(answer, demangle, b[pos..], n - i, index)
    {
      var good, k, name, next := ReadEntry(b, pos, b[pos..]);
      CollectStep(answer, demangle, b[pos..], n - i, index, NameEntry(b[pos..]));
      if !good {
        return;
      }
      index := Inserted(index, k, demangle(name));
      pos := next;
    }
    ok := true;
  }

  /** The header of a subsection at a cursor. */
  method ReadSubsection(b: bytes, pos: nat, ghost s: bytes) returns (ok: bool, id: byte, size: nat, start: nat)
    requires pos < |b| && b[pos..] == s
    ensures ok ==> start + size <= |b|
    ensures Subsection(s) == if ok then Some((id, size, b[start..])) else None
  {
    id := b[pos];
    Skip(b, pos, s, pos + 1);
    ok, start, size := ParseVarint(b, pos + 1, |b|);
    ok := ok && start + size <= |b|;
    if ok {
      Skip(b, pos, s, start);
    }
  }

  /** The number of names at a cursor. */
  method ReadCount(b: bytes, start: nat, ghost body: bytes) returns (ok: bool, n: nat, entries: nat)
    requires start <= |b| && b[start..] == body
    ensures ok ==> entries <= |b|
    ensures NameCount(body) == if ok then Some((n, b[entries..])) else None
  {
    Skip(b, start, body, start);
    ok, entries, n := ParseVarint(b, start, |b|);
    ok := ok && entries + n <= |b|;
    if ok {
      Skip(b, start, body, entries);
    }
  }

  /** A subsection with function names at a cursor. */
  method ReadFunctionNames(demangle: Demangler, b: bytes, start: nat, size: nat, index0: Index, ghost body: bytes)
    returns (ok: bool, index: Index, pos: nat)
    requires start + size <= |b| && b[start..] == body
    ensures ok ==> pos <= |b|
    ensures FunctionSubsection(demangle, body, size, index0).0 == ok
    ensures FunctionSubsection(demangle, body, size, index0).1 == index
    ensures ok ==> FunctionSubsection(demangle, body, size, index0).2 == b[pos..]
  {
    ok, index, pos := false, index0, start;
    var good, n, entries := ReadCount(b, start, body);
    if !good {
      return;
    }
    good, index, pos := CollectNames(demangle, b, entries, n, index0, b[entries..]);
    ok := good && start + size == pos;
  }

  /** What the walk over the subsections still has to do. */
  ghost predicate Walking(answer: (bool, Index), demangle: Demangler, b: bytes, pos: nat, index: Index) {
    pos <= |b| && answer == Subsections(demangle, b[pos..], index)
  }

  /** The same, kept folded. */
  ghost predicate StillWalking(answer: (bool, Index), demangle: Demangler, b: bytes, pos: nat, index: Index) {
    forall p {:trigger Walking(answer, demangle, b, p, index)} | pos <= p <= pos :: Walking(answer, demangle, b, p, index)
  }

  lemma {:induction false} WalkUnreadable(answer: (bool, Index), demangle: Demangler, b: bytes, pos: nat, index: Index)
    requires StillWalking(answer, demangle, b, pos, index) && pos < |b| && Subsection(b[pos..]) == None
    ensures answer == (false, index)
  {
    assert Walking(answer, demangle, b, pos, index);
  }

  lemma {:induction false} WalkOther(answer: (bool, Index), demangle: Demangler, b: bytes, pos: nat, index: Index,
                                     id: byte, size: nat, start: nat)
    requires StillWalking(answer, demangle, b, pos, index) && pos < |b| && start + size <= |b|
    requires Subsection(b[pos..]) == Some((id, size, b[start..])) && id != FUNCTION_NAMES
    ensures StillWalking(answer, demangle, b, start + size, index)
  {
    assert Walking(answer, demangle, b, pos, index);
    assert b[start..][size..] == b[start + size..];
  }

  lemma {:induction false} WalkFunctions(answer: (bool, Index), demangle: Demangler, b: bytes, pos: nat, index: Index,
                                         size: nat, start: nat, r: (bool, Index, bytes), next: nat)
    requires StillWalking(answer, demangle, b, pos, index) && pos < |b| && start + size <= |b|
    requires Subsection(b[pos..]) == Some((FUNCTION_NAMES, size, b[start..]))
    requires r == FunctionSubsection(demangle, b[start..], size, index)
    ensures !r.0 ==> answer == (false, r.1)
    ensures r.0 && next <= |b| && r.2 == b[next..] ==> StillWalking(answer, demangle, b, next, r.1)
  {
    assert Walking(answer, demangle, b, pos, index);
  }

  lemma {:induction false} WalkEnds(answer: (bool, Index), demangle: Demangler, b: bytes, pos: nat, index: Index)
    requires StillWalking(answer, demangle, b, pos, index) && pos >= |b|
    ensures answer == (true, index)
  {
    assert Walking(answer, demangle, b, pos, index);
  }

  /** The walk over the content of the name section. */
  method WalkSubsections(demangle: Demangler, b: bytes, index0: Index) returns (ok: bool, index: Index)
    ensures (ok, index) == Subsections(demangle, b, index0)
  {
    ok, index := false, index0;
    var pos: nat := 0;
    ghost var answer := Subsections(demangle, b, index0);
    assert b[0..] == b;
    assert Walking(answer, demangle, b, pos, index);
    while pos < |b|
      invariant pos <= |b| && StillWalking(answer, demangle, b, pos, index)
      decreases |b| - pos
    {
      var good, id, size, start := ReadSubsection(b, pos, b[pos..]);
      if !good {
        WalkUnreadable(answer, demangle, b, pos, index);
        return;
      }
      if id != FUNCTION_NAMES {
        WalkOther(answer, demangle, b, pos, index, id, size, start);
        pos := start + size;
      } else {
        ghost var r := FunctionSubsection(demangle, b[start..], size, index);
        var filled, index1, next := ReadFunctionNames(demangle, b, start, size, index, b[start..]);
        WalkFunctions(answer, demangle, b, pos, index, size, start, r, next);
        index := index1;
        if !filled {
          return;
        }
        pos := next;
      }
    }
    WalkEnds(answer, demangle, b, pos, index);
    ok := true;
  }

  // ---- What the index holds ----

  /** An entry of the name section. */
  datatype FunctionName = FunctionName(index: nat, name: bytes)

  /** Names that could be read, and what follows them. */
  type NameList = Option<(seq<FunctionName>, bytes)>

  function Prepended(first: FunctionName, others: NameList): NameList {
    match others
    case None => None
    case Some((names, rest)) => Some(([first] + names, rest))
  }

  /** The first `n` entries and what follows them. */
  function NamesListed(s: bytes, n: nat): (r: NameList)
    ensures r.Some? ==> |r.value.1| <= |s|
    decreases n
  {
    if n == 0 then Some(([], s))
    else
      match NameEntry(s)
      case None => None
      case Some((k, name, tail)) => Prepended(FunctionName(k, name), NamesListed(tail, n - 1))
  }

  /** The entries of a subsection of the given size. */
  function SubsectionNames(body: bytes, size: nat): (r: NameList)
    ensures r.Some? ==> |r.value.1| <= |body|
  {
    match NameCount(body)
    case None => None
    case Some((n, entries)) =>
      match NamesListed(entries, n)
      case None => None
      case Some((names, rest)) => if |body| == size + |rest| then Some((names, rest)) else None
  }

  /** All function names in the section, if it is well formed. */
  function AllNames(s: bytes): Option<seq<FunctionName>>
    decreases |s|
  {
    if s == [] then Some([])
    else
      match Subsection(s)
      case None => None
      case Some((id, size, body)) =>
        if id != FUNCTION_NAMES then AllNames(body[size..])
        else
          match SubsectionNames(body, size)
          case None => None
          case Some((names, rest)) =>
            match AllNames(rest)
            case None => None
            case Some(others) => Some(names + others)
  }

  function Merged(demangle: Demangler, index: Index, names: seq<FunctionName>): Index
    decreases |names|
  {
    if names == [] then index
    else Merged(demangle, Inserted(index, names[0].index, demangle(names[0].name)), names[1..])
  }

  lemma {:induction false} MergedTwice(demangle: Demangler, index: Index, names: seq<FunctionName>, others: seq<FunctionName>)
    ensures Merged(demangle, Merged(demangle, index, names), others) == Merged(demangle, index, names + others)
    decreases |names|
  {
    if names == [] {
      assert names + others == others;
    } else {
      MergedTwice(demangle, Inserted(index, names[0].index, demangle(names[0].name)), names[1..], others);
      assert (names + others)[1..] == names[1..] + others;
    }
  }

  /** The reading succeeds exactly if the names can be listed, and has then inserted them in order. */
  ghost predicate Merges(demangle: Demangler, r: (bool, Index, bytes), index: Index, listed: NameList) {
    && r.0 == listed.Some?
    && (listed.Some? ==> r.1 == Merged(demangle, index, listed.value.0) && r.2 == listed.value.1)
  }

  lemma {:induction false} MergesOneMore(demangle: Demangler, r: (bool, Index, bytes), index: Index,
                                         first: FunctionName, others: NameList)
    requires Merges(demangle, r, Inserted(index, first.index, demangle(first.name)), others)
    ensures Merges(demangle, r, index, Prepended(first, others))
  {
    if others.Some? {
      assert ([first] + others.value.0)[1..] == others.value.0;
    }
  }

  lemma {:induction false} CollectMerges(demangle: Demangler, s: bytes, n: nat, index: Index)
    ensures Merges(demangle, Collect(demangle, s, n, index), index, NamesListed(s, n))
    decreases n
  {
    if n > 0 && NameEntry(s).Some? {
      var (k, name, tail) := NameEntry(s).value;
      var index1 := Inserted(index, k, demangle(name));
      CollectMerges(demangle, tail, n - 1, index1);
      MergesOneMore(demangle, Collect(demangle, tail, n - 1, index1), index, FunctionName(k, name), NamesListed(tail, n - 1));
    }
  }

  lemma {:induction false} SubsectionMerges(demangle: Demangler, body: bytes, size: nat, index: Index)
    ensures Merges(demangle, FunctionSubsection(demangle, body, size, index), index, SubsectionNames(body, size))
  {
    if NameCount(body).Some? {
      CollectMerges(demangle, NameCount(body).value.1, NameCount(body).value.0, index);
    }
  }

  /** The walk succeeds exactly on a well-formed section, and then inserts all its function names in
      their order. */
  lemma {:induction false} SubsectionsMerge(demangle: Demangler, s: bytes, index: Index)
    ensures Subsections(demangle, s, index).0 == AllNames(s).Some?
    ensures AllNames(s).Some? ==> Subsections(demangle, s, index) == (true, Merged(demangle, index, AllNames(s).value))
    decreases |s|
  {
    if s != [] && Subsection(s).Some? {
      var (id, size, body) := Subsection(s).value;
      if id != FUNCTION_NAMES {
        SubsectionsMerge(demangle, body[size..], index);
      } else {
        SubsectionMerges(demangle, body, size, index);
        if SubsectionNames(body, size).Some? {
          var (names, rest) := SubsectionNames(body, size).value;
          SubsectionsMerge(demangle, rest, Merged(demangle, index, names));
          if AllNames(rest).Some? {
            MergedTwice(demangle, index, names, AllNames(rest).value);
          }
        }
      }
    }
  }

  /** Entry `j` is the first for its function. */
  ghost predicate IsFirstFor(names: seq<FunctionName>, j: nat, k: nat) {
    j < |names| && names[j].index == k && forall i | 0 <= i < j :: names[i].index != k
  }

  /** After the insertions a function has the name it had before; otherwise the one its first entry
      gives it; otherwise none. */
  lemma {:induction false} FirstNameWins(demangle: Demangler, index: Index, names: seq<FunctionName>, k: nat)
    ensures k in index ==> k in Merged(demangle, index, names) && Merged(demangle, index, names)[k] == index[k]
    ensures k !in index ==> forall j: nat | IsFirstFor(names, j, k) ::
                              k in Merged(demangle, index, names) && Merged(demangle, index, names)[k] == demangle(names[j].name)
    ensures k in Merged(demangle, index, names) ==> k in index || exists j: nat :: IsFirstFor(names, j, k)
    decreases |names|
  {
    if names != [] {
      var index1 := Inserted(index, names[0].index, demangle(names[0].name));
      FirstNameWins(demangle, index1, names[1..], k);
      if names[0].index == k {
        assert IsFirstFor(names, 0, k);
      }
      forall j: nat | k !in index && IsFirstFor(names, j, k)
        ensures k in Merged(demangle, index, names) && Merged(demangle, index, names)[k] == demangle(names[j].name)
      {
        if j > 0 {
          assert IsFirstFor(names[1..], j - 1, k);
        }
      }
      if k !in index1 && k in Merged(demangle, index, names) {
        var j: nat :| IsFirstFor(names[1..], j, k);
        assert forall i | 0 < i < |names| :: names[i] == names[1..][i - 1];
        assert IsFirstFor(names, j + 1, k);
      }
    }
  }

  /** What getFunctionNameIndex comes to on a file. */
  function FunctionNameIndex(demangle: Demangler, b: bytes, index: Index): (bool, Index) {
    if !CheckWasmHeader(b) || !Search(ModuleOf(b), NAME).0 then (false, index)
    else
      match Search(ModuleOf(b), NAME).1
      case None => (true, index)
      case Some(content) => Subsections(demangle, content, index)
  }

  /** BytecodeUtil::getFunctionNameIndex; `index0` is what the map holds on entry. */
  method GetFunctionNameIndex(demangle: Demangler, b: bytes, index0: Index) returns (ok: bool, index: Index)
    ensures (ok, index) == FunctionNameIndex(demangle, b, index0)
  {
    ok, index := false, index0;
    var found, nameSection := GetCustomSection(b, NAME);
    if !found {
      return;
    }
    if nameSection.Some? && nameSection.value != [] {
      ok, index := WalkSubsections(demangle, nameSection.value, index0);
    } else {
      ok := true;
    }
  }

  // ---- Written name sections ----

  /** A subsection: one with function names, or one with another id. */
  datatype Part = Functions(names: seq<FunctionName>) | Other(id: byte, body: bytes)

  function WrittenEntry(f: FunctionName): bytes {
    Encoded(f.index) + WrittenName(f.name)
  }

  function WrittenEntries(names: seq<FunctionName>): bytes {
    if names == [] then [] else WrittenEntry(names[0]) + WrittenEntries(names[1..])
  }

  function BodyOf(p: Part): bytes {
    match p
    case Functions(names) => Encoded(|names|) + WrittenEntries(names)
    case Other(_, body) => body
  }

  /** A subsection as it is written: its id, the length of its content, and the content. */
  function WrittenPart(p: Part): bytes {
    [if p.Functions? then 1 else p.id] + Encoded(|BodyOf(p)|) + BodyOf(p)
  }

  function WrittenParts(parts: seq<Part>): bytes {
    if parts == [] then [] else WrittenPart(parts[0]) + WrittenParts(parts[1..])
  }

  function NamesOf(parts: seq<Part>): seq<FunctionName> {
    if parts == [] then []
    else (if parts[0].Functions? then parts[0].names else []) + NamesOf(parts[1..])
  }

  /** All numbers fit, and subsections with another id have another id. */
  ghost predicate Fitting(p: Part) {
    && |BodyOf(p)| < 0x4000_0000
    && (p.Other? ==> p.id != 1)
    && (p.Functions? ==> |p.names| < 0x4000_0000
                         && forall f | f in p.names :: f.index < 0x4000_0000 && |f.name| < 0x4000_0000)
  }

  lemma {:induction false} WrittenEntryIsRead(f: FunctionName, rest: bytes)
    requires f.index < 0x4000_0000 && |f.name| < 0x4000_0000
    ensures NameEntry(WrittenEntry(f) + rest) == Some((f.index, f.name, rest))
  {
    var index, name := Encoded(f.index), WrittenName(f.name);
    Associative(index, name, rest);
    EncodedBelowTwoTo30(f.index, name + rest);
    WrittenNameIsRead(f.name, rest);
    assert (index + (name + rest))[|index|..] == name + rest;
  }

  lemma {:induction false} WrittenEntriesAreRead(names: seq<FunctionName>, rest: bytes)
    requires forall f | f in names :: f.index < 0x4000_0000 && |f.name| < 0x4000_0000
    ensures NamesListed(WrittenEntries(names) + rest, |names|) == Some((names, rest))
    ensures |WrittenEntries(names)| >= |names|
    decreases |names|
  {
    if names == [] {
      assert [] + rest == rest;
    } else {
      var others := WrittenEntries(names[1..]);
      Associative(WrittenEntry(names[0]), others, rest);
      WrittenEntryIsRead(names[0], others + rest);
      WrittenEntriesAreRead(names[1..], rest);
      assert [FunctionName(names[0].index, names[0].name)] + names[1..] == names;
    }
  }

  lemma {:induction false} WrittenBodyIsRead(p: Part, rest: bytes)
    requires p.Functions? && Fitting(p)
    ensures SubsectionNames(BodyOf(p) + rest, |BodyOf(p)|) == Some((p.names, rest))
  {
    var count, entries := Encoded(|p.names|), WrittenEntries(p.names);
    Associative(count, entries, rest);
    EncodedBelowTwoTo30(|p.names|, entries + rest);
    WrittenEntriesAreRead(p.names, rest);
    assert (count + (entries + rest))[|count|..] == entries + rest;
  }

  lemma {:induction false} WrittenHeaderIsRead(id: byte, body: bytes, rest: bytes)
    requires |body| < 0x4000_0000
    ensures Subsection([id] + Encoded(|body|) + body + rest) == Some((id, |body|, body + rest))
    ensures (body + rest)[|body|..] == rest
  {
    var length := Encoded(|body|);
    Associative([id] + length, body, rest);
    Associative([id], length, body + rest);
    EncodedBelowTwoTo30(|body|, body + rest);
    var s := [id] + (length + (body + rest));
    assert s[1..] == length + (body + rest) && s[1 + |length|..] == body + rest;
  }

  /** A name section that is written with these subsections is read as all their function names. */
  lemma {:induction false} WrittenPartsAreRead(parts: seq<Part>)
    requires forall p | p in parts :: Fitting(p)
    ensures AllNames(WrittenParts(parts)) == Some(NamesOf(parts))
    decreases |parts|
  {
    if parts != [] {
      assert parts[0] in parts;
      WrittenPartsAreRead(parts[1..]);
      WrittenPartIsRead(parts[0], WrittenParts(parts[1..]), NamesOf(parts[1..]));
    }
  }

  lemma {:induction false} WrittenPartIsRead(p: Part, rest: bytes, others: seq<FunctionName>)
    requires Fitting(p) && AllNames(rest) == Some(others)
    ensures AllNames(WrittenPart(p) + rest) == Some((if p.Functions? then p.names else []) + others)
  {
    WrittenHeaderIsRead(if p.Functions? then 1 else p.id, BodyOf(p), rest);
    if p.Functions? {
      WrittenBodyIsRead(p, rest);
    } else {
      assert [] + others == others;
    }
  }

  /** What the file's first custom section called "name" says is the index; without one the index stays
      as it was, and the call succeeds exactly if the search does. */
  lemma {:induction false} NameSectionIsIndexed(demangle: Demangler, b: bytes, index: Index, parts: seq<Part>, i: nat)
    requires CheckWasmHeader(b) && forall p | p in parts :: Fitting(p)
    requires IsFirstNamed(Listed(ModuleOf(b)), i, [0x6e, 0x61, 0x6d, 0x65])
    requires ContentOf(Listed(ModuleOf(b))[i]) == WrittenParts(parts)
    ensures FunctionNameIndex(demangle, b, index) == (true, Merged(demangle, index, NamesOf(parts)))
  {
    NamedIsFound(ModuleOf(b), NAME, i);
    WrittenPartsAreRead(parts);
    SubsectionsMerge(demangle, WrittenParts(parts), index);
  }

  lemma {:induction false} WithoutNameSection(demangle: Demangler, b: bytes, index: Index)
    requires !CheckWasmHeader(b) || Search(ModuleOf(b), [0x6e, 0x61, 0x6d, 0x65]).1 == None
    ensures FunctionNameIndex(demangle, b, index)
         == (CheckWasmHeader(b) && Search(ModuleOf(b), [0x6e, 0x61, 0x6d, 0x65]).0, index)
  {
  }

  // ---- Up to a failure ----

  /** A subsection that is written is passed over, and its function names are inserted. */
  lemma {:induction false} PartIsInserted(demangle: Demangler, p: Part, rest: bytes, index: Index)
    requires Fitting(p)
    ensures Subsections(demangle, WrittenPart(p) + rest, index)
         == Subsections(demangle, rest, if p.Functions? then Merged(demangle, index, p.names) else index)
  {
    WrittenHeaderIsRead(if p.Functions? then 1 else p.id, BodyOf(p), rest);
    if p.Functions? {
      WrittenBodyIsRead(p, rest);
      SubsectionMerges(demangle, BodyOf(p) + rest, |BodyOf(p)|, index);
    }
  }

  /** So whatever follows, the names written before it are in the index. */
  lemma {:induction false} PartsAreInserted(demangle: Demangler, parts: seq<Part>, rest: bytes, index: Index)
    requires forall p | p in parts :: Fitting(p)
    ensures Subsections(demangle, WrittenParts(parts) + rest, index)
         == Subsections(demangle, rest, Merged(demangle, index, NamesOf(parts)))
    decreases |parts|
  {
    if parts == [] {
      assert [] + rest == rest;
    } else {
      var p, others := parts[0], WrittenParts(parts[1..]);
      assert p in parts;
      var names := if p.Functions? then p.names else [];
      Associative(WrittenPart(p), others, rest);
      PartIsInserted(demangle, p, others + rest, index);
      PartsAreInserted(demangle, parts[1..], rest, Merged(demangle, index, names));
      MergedTwice(demangle, index, names, NamesOf(parts[1..]));
    }
  }

  lemma {:induction false} EntryAtFront(f: FunctionName, s: bytes, more: bytes)
    requires f.index < 0x4000_0000 && |f.name| < 0x4000_0000 && s == WrittenEntry(f) + more
    ensures NameEntry(s) == Some((f.index, f.name, more))
  {
    WrittenEntryIsRead(f, more);
  }

  lemma {:induction false} MergedFirst(demangle: Demangler, index: Index, names: seq<FunctionName>)
    requires names != []
    ensures Merged(demangle, index, names)
         == Merged(demangle, Inserted(index, names[0].index, demangle(names[0].name)), names[1..])
  {
  }

  lemma {:induction false} EntriesSplit(names: seq<FunctionName>, rest: bytes)
    requires names != []
    ensures WrittenEntries(names) + rest == WrittenEntry(names[0]) + (WrittenEntries(names[1..]) + rest)
  {
    Associative(WrittenEntry(names[0]), WrittenEntries(names[1..]), rest);
  }

  /** What the entries come to, kept folded. */
  ghost predicate ComesTo(answer: (bool, Index, bytes), demangle: Demangler, s: bytes, n: nat, index: Index) {
    forall k {:trigger Collecting(answer, demangle, s, k, index)} | n <= k <= n :: Collecting(answer, demangle, s, k, index)
  }

  lemma {:induction false} OneMoreInserted(answer: (bool, Index, bytes), demangle: Demangler, f: FunctionName, s: bytes,
                                           more: bytes, n: nat, index: Index)
    requires n > 0 && NameEntry(s) == Some((f.index, f.name, more)) && ComesTo(answer, demangle, s, n, index)
    ensures ComesTo(answer, demangle, more, n - 1, Inserted(index, f.index, demangle(f.name)))
  {
    assert Collecting(answer, demangle, s, n, index);
  }

  lemma {:induction false} InsertEntries(answer: (bool, Index, bytes), demangle: Demangler, names: seq<FunctionName>,
                                         s: bytes, rest: bytes, total: nat, n: nat, index: Index, merged: Index)
    requires forall f | f in names :: f.index < 0x4000_0000 && |f.name| < 0x4000_0000
    requires total == |names| + n && s == WrittenEntries(names) + rest && merged == Merged(demangle, index, names)
    requires ComesTo(answer, demangle, s, total, index)
    ensures ComesTo(answer, demangle, rest, n, merged)
    decreases |names|
  {
    if names == [] {
      assert [] + rest == rest;
    } else {
      var more := WrittenEntries(names[1..]) + rest;
      var index1 := Inserted(index, names[0].index, demangle(names[0].name));
      EntriesSplit(names, rest);
      MergedFirst(demangle, index, names);
      EntryAtFront(names[0], s, more);
      OneMoreInserted(answer, demangle, names[0], s, more, total, index);
      InsertEntries(answer, demangle, names[1..], more, rest, total - 1, n, index1, merged);
    }
  }

  /** Entries that are written are inserted, whatever follows. */
  lemma {:induction false} EntriesAreInserted(demangle: Demangler, names: seq<FunctionName>, rest: bytes, n: nat, total: nat,
                                              index: Index)
    requires forall f | f in names :: f.index < 0x4000_0000 && |f.name| < 0x4000_0000
    requires total == |names| + n
    ensures Collect(demangle, WrittenEntries(names) + rest, total, index)
         == Collect(demangle, rest, n, Merged(demangle, index, names))
  {
    var s, merged := WrittenEntries(names) + rest, Merged(demangle, index, names);
    var answer := Collect(demangle, s, total, index);
    InsertEntries(answer, demangle, names, s, rest, total, n, index, merged);
    assert Collecting(answer, demangle, rest, n, merged);
  }

  /** Where a call fails, the names before it have been inserted: at a subsection that cannot be read, or at
      an entry that cannot be read. */
  lemma {:induction false} FailureKeepsNames(demangle: Demangler, parts: seq<Part>, rest: bytes, index: Index)
    requires (forall p | p in parts :: Fitting(p)) && rest != [] && Subsection(rest) == None
    ensures Subsections(demangle, WrittenParts(parts) + rest, index) == (false, Merged(demangle, index, NamesOf(parts)))
  {
    PartsAreInserted(demangle, parts, rest, index);
  }

  lemma {:induction false} FailureKeepsEntries(demangle: Demangler, names: seq<FunctionName>, rest: bytes, n: nat, total: nat,
                                               size: nat, index: Index)
    requires forall f | f in names :: f.index < 0x4000_0000 && |f.name| < 0x4000_0000
    requires total == |names| + n && n > 0 && total < 0x4000_0000 && NameEntry(rest) == None
    requires total <= |WrittenEntries(names) + rest|
    ensures FunctionSubsection(demangle, Encoded(total) + (WrittenEntries(names) + rest), size, index)
         == (false, Merged(demangle, index, names), [])
  {
    var entries := WrittenEntries(names) + rest;
    CountAtFront(total, entries);
    EntriesAreInserted(demangle, names, rest, n, total, index);
    SubsectionIs(demangle, Encoded(total) + entries, size, index, total, entries);
  }

  lemma {:induction false} CountAtFront(total: nat, entries: bytes)
    requires total < 0x4000_0000 && total <= |entries|
    ensures NameCount(Encoded(total) + entries) == Some((total, entries))
  {
    var count := Encoded(total);
    EncodedBelowTwoTo30(total, entries);
    assert (count + entries)[|count|..] == entries;
  }

  lemma {:induction false} SubsectionIs(demangle: Demangler, body: bytes, size: nat, index: Index, n: nat, entries: bytes)
    requires NameCount(body) == Some((n, entries)) && !Collect(demangle, entries, n, index).0
    ensures FunctionSubsection(demangle, body, size, index)
         == (false, Collect(demangle, entries, n, index).1, Collect(demangle, entries, n, index).2)
  {
  }
}
