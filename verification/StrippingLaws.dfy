/**
 What stripping does, section by section: which sections of a file make it to the output, by their
 positions, for files that can be walked to the end and for those that cannot.
 */
module StrippingLaws {
  import opened Bytes
  import opened Leb128
  import opened Sections
  import opened StrippedSource

  // ---- Precompiled sections ----

  /** `part` is in `text` from position `i` on. */
  predicate OccursAt(text: bytes, i: nat, part: bytes) {
    i + |part| <= |text| && text[i..i + |part|] == part
  }

  /** string_view::find */
  lemma {:induction false} ContainsMeaning(text: bytes, part: bytes)
    ensures Contains(text, part) <==> exists i: nat :: OccursAt(text, i, part)
  {
    if part <= text {
      assert OccursAt(text, 0, part);
    } else if text != [] {
      ContainsMeaning(text[1..], part);
      if i: nat :| OccursAt(text[1..], i, part) {
        SliceOfSlice(text, 1, |text|, i, i + |part|);
        assert text[i + 1..i + 1 + |part|] == part;
        assert OccursAt(text, i + 1, part);
      }
      if i: nat :| OccursAt(text, i, part) {
        assert i > 0;
        SliceOfSlice(text, 1, |text|, i - 1, i - 1 + |part|);
        assert OccursAt(text[1..], i - 1, part);
      }
    }
  }

  /** "precompiled_" is at position `i`. */
  predicate PrecompiledAt(name: bytes, i: nat) {
    i + 12 <= |name| && name[i..i + 12] == [0x70, 0x72, 0x65, 0x63, 0x6f, 0x6d, 0x70, 0x69, 0x6c, 0x65, 0x64, 0x5f]
  }

  /** A section is a precompiled one exactly if it is a custom one with "precompiled_" at some position
      of its name, which is read from the content and on into what follows the section. */
  lemma {:induction false} PrecompiledMeaning(m: Module)
    requires m.Sections?
    ensures Precompiled(m)
       <==> m.first.id == 0 && NameIn(m.first.body + Flatten(m.more)).Some?
            && exists i: nat :: PrecompiledAt(NameIn(m.first.body + Flatten(m.more)).value.0, i)
  {
    if LooseName(m).Some? {
      var name := LooseName(m).value;
      ContainsMeaning(name, PRECOMPILED);
      if i: nat :| OccursAt(name, i, PRECOMPILED) {
        assert PrecompiledAt(name, i);
      }
      if i: nat :| PrecompiledAt(name, i) {
        assert OccursAt(name, i, PRECOMPILED);
      }
    }
  }

  /** For instance every written custom section with such a name. */
  lemma {:induction false} WrittenPrecompiledSection(name: bytes, content: bytes, i: nat, more: Module)
    requires |WrittenName(name) + content| < 0x4000_0000 && PrecompiledAt(name, i)
    ensures Precompiled(Sections(Written(0, WrittenName(name) + content), more))
  {
    var sec := Written(0, WrittenName(name) + content);
    WrittenCustomSection(name, content);
    NameInsideStays(sec, more);
    PrecompiledMeaning(Sections(sec, more));
  }

  // ---- Which sections are kept ----

  /** The module from section `i` on. */
  function From(m: Module, i: nat): Module
    requires i <= |Listed(m)|
  {
    if i == 0 then m else From(m.more, i - 1)
  }

  /** The walk can read the name of section `i`, if it is a custom one. */
  predicate NameReadable(m: Module, i: nat)
    requires i < |Listed(m)|
  {
    Listed(m)[i].id == 0 ==>
      From(m, i).Sections? && NameIn(From(m, i).first.body + Flatten(From(m, i).more)).Some?
  }

  predicate IsPrecompiled(m: Module, i: nat)
    requires i < |Listed(m)|
  {
    From(m, i).Sections? && Precompiled(From(m, i))
  }

  lemma {:induction false} OneFurther(m: Module, i: nat)
    requires m.Sections? && i < |Listed(m.more)|
    ensures i + 1 < |Listed(m)| && Listed(m)[i + 1] == Listed(m.more)[i] && From(m, i + 1) == From(m.more, i)
    ensures NameReadable(m, i + 1) <==> NameReadable(m.more, i)
    ensures IsPrecompiled(m, i + 1) <==> IsPrecompiled(m.more, i)
  {
  }

  /** The sections at the marked positions, in their order. */
  function Marked(secs: seq<Section>, marks: seq<bool>): seq<Section>
    requires |marks| == |secs|
  {
    if secs == [] then []
    else if marks[0] then [secs[0]] + Marked(secs[1..], marks[1..])
    else Marked(secs[1..], marks[1..])
  }

  lemma {:induction false} OneMoreMarked(sec: Section, secs: seq<Section>, take: bool, marks: seq<bool>)
    requires |marks| == |secs|
    ensures Marked([sec] + secs, [take] + marks) == if take then [sec] + Marked(secs, marks) else Marked(secs, marks)
  {
    assert ([sec] + secs)[1..] == secs && ([take] + marks)[1..] == marks;
  }

  /** Exactly the non-custom sections, in their order. */
  lemma {:induction false} NonCustomMeaning(m: Module) returns (kept: seq<bool>)
    ensures |kept| == |Listed(m)| && Listed(NonCustom(m)) == Marked(Listed(m), kept)
    ensures forall i | 0 <= i < |Listed(m)| :: kept[i] <==> Listed(m)[i].id != 0
  {
    kept := [];
    if m.Sections? {
      var others := NonCustomMeaning(m.more);
      kept := [m.first.id != 0] + others;
      OneMoreMarked(m.first, Listed(m.more), m.first.id != 0, others);
    }
  }

  /** Position `first` is that of the first precompiled section, or the end. */
  ghost predicate IsFirstPrecompiled(m: Module, first: nat) {
    && first <= |Listed(m)|
    && (first < |Listed(m)| ==> IsPrecompiled(m, first))
    && forall i | 0 <= i < first :: !IsPrecompiled(m, i)
  }

  /** What stripping keeps: the sections before the first precompiled one, and the non-custom ones
      after it. */
  ghost predicate Keeps(secs: seq<Section>, first: nat, stop: nat, kept: seq<bool>) {
    && |kept| == |secs|
    && forall i | 0 <= i < |secs| :: kept[i] <==> i < stop && (i < first || (i > first && secs[i].id != 0))
  }

  lemma {:induction false} KeepsLater(sec: Section, secs: seq<Section>, first: nat, stop: nat, kept: seq<bool>)
    requires Keeps(secs, first, stop, kept)
    ensures Keeps([sec] + secs, first + 1, stop + 1, [true] + kept)
  {
  }

  lemma {:induction false} KeepsFromFirst(sec: Section, secs: seq<Section>, stop: nat, kept: seq<bool>)
    requires |kept| == |secs| && forall i | 0 <= i < |secs| :: kept[i] <==> i < stop && secs[i].id != 0
    ensures Keeps([sec] + secs, 0, stop + 1, [false] + kept)
  {
  }

  /** Stripping keeps exactly these sections, in their order. */
  lemma {:induction false} StrippedMeaning(m: Module) returns (first: nat, kept: seq<bool>)
    ensures IsFirstPrecompiled(m, first)
    ensures Keeps(Listed(m), first, |Listed(m)|, kept) && Listed(Stripped(m)) == Marked(Listed(m), kept)
  {
    if m.Rest? {
      first, kept := 0, [];
    } else if Precompiled(m) {
      var others := NonCustomMeaning(m.more);
      first, kept := 0, [false] + others;
      KeepsFromFirst(m.first, Listed(m.more), |Listed(m.more)|, others);
      OneMoreMarked(m.first, Listed(m.more), false, others);
    } else {
      var later, others := StrippedMeaning(m.more);
      first, kept := later + 1, [true] + others;
      FirstPrecompiledLater(m, later);
      KeepsLater(m.first, Listed(m.more), later, |Listed(m.more)|, others);
      OneMoreMarked(m.first, Listed(m.more), true, others);
    }
  }

  lemma {:induction false} FirstPrecompiledLater(m: Module, later: nat)
    requires m.Sections? && !Precompiled(m) && IsFirstPrecompiled(m.more, later)
    ensures IsFirstPrecompiled(m, later + 1)
  {
    forall i | 0 < i < later + 1 ensures !IsPrecompiled(m, i) {
      OneFurther(m, i - 1);
    }
    if later < |Listed(m.more)| {
      OneFurther(m, later);
    }
  }

  /** The walk gets to the end exactly if all bytes are in complete sections and the names of all
      custom ones can be read. */
  lemma {:induction false} StrippableMeaning(m: Module)
    ensures Strippable(m) <==> EndsClean(m) && forall i | 0 <= i < |Listed(m)| :: NameReadable(m, i)
  {
    if m.Sections? {
      StrippableMeaning(m.more);
      forall i | 0 <= i < |Listed(m.more)|
        ensures NameReadable(m, i + 1) <==> NameReadable(m.more, i)
      {
        OneFurther(m, i);
      }
      if Strippable(m) {
        forall i | 0 <= i < |Listed(m)| ensures NameReadable(m, i) {
          if i > 0 {
            OneFurther(m, i - 1);
          }
        }
      } else if forall i | 0 <= i < |Listed(m)| :: NameReadable(m, i) {
        assert NameReadable(m, 0);
        forall i | 0 <= i < |Listed(m.more)| ensures NameReadable(m.more, i) {
          assert NameReadable(m, i + 1);
        }
      }
    }
  }

  // ---- What is left after a failure ----

  /** Position `stop` is that of the first custom section whose name cannot be read, or the end. */
  ghost predicate IsStop(m: Module, stop: nat) {
    && stop <= |Listed(m)|
    && (stop < |Listed(m)| ==> !NameReadable(m, stop))
    && forall i | 0 <= i < stop :: NameReadable(m, i)
  }

  lemma {:induction false} StopLater(m: Module, later: nat)
    requires m.Sections? && NameReadable(m, 0) && IsStop(m.more, later)
    ensures IsStop(m, later + 1)
  {
    forall i | 0 < i < later + 1 ensures NameReadable(m, i) {
      OneFurther(m, i - 1);
    }
    if later < |Listed(m.more)| {
      OneFurther(m, later);
    }
  }

  /** What is appended: the sections marked, which are the non-custom ones up to the stop. */
  ghost predicate AppendedAs(m: Module, stop: nat, kept: seq<bool>) {
    && IsStop(m, stop) && |kept| == |Listed(m)|
    && (forall i | 0 <= i < |Listed(m)| :: kept[i] <==> i < stop && Listed(m)[i].id != 0)
    && Appendage(m) == Concatenated(Marked(Listed(m), kept))
  }

  /** Output that was not empty is continued with exactly the non-custom sections up to where the walk
      stops. */
  lemma {:induction false} AppendageMeaning(m: Module) returns (stop: nat, kept: seq<bool>)
    ensures AppendedAs(m, stop, kept)
  {
    if m.Rest? || !NameReadable(m, 0) {
      stop, kept := AppendedNowhere(m);
    } else {
      var later, others := AppendageMeaning(m.more);
      stop, kept := AppendedLater(m, later, others);
    }
  }

  lemma {:induction false} AppendedNowhere(m: Module) returns (stop: nat, kept: seq<bool>)
    requires m.Rest? || !NameReadable(m, 0)
    ensures AppendedAs(m, stop, kept)
  {
    stop, kept := 0, seq(|Listed(m)|, i => false);
    NoneMarked(Listed(m), kept);
  }

  lemma {:induction false} AppendedLater(m: Module, later: nat, others: seq<bool>) returns (stop: nat, kept: seq<bool>)
    requires m.Sections? && NameReadable(m, 0) && AppendedAs(m.more, later, others)
    ensures AppendedAs(m, stop, kept)
  {
    stop, kept := later + 1, [m.first.id != 0] + others;
    StopLater(m, later);
    OneMoreMarked(m.first, Listed(m.more), m.first.id != 0, others);
    ConcatenatedOneMore(m.first, Marked(Listed(m.more), others));
  }

  lemma {:induction false} ConcatenatedOneMore(sec: Section, secs: seq<Section>)
    ensures Concatenated([sec] + secs) == sec.raw + Concatenated(secs)
  {
    assert ([sec] + secs)[1..] == secs;
  }

  lemma {:induction false} NoneMarked(secs: seq<Section>, marks: seq<bool>)
    requires |marks| == |secs| && forall i | 0 <= i < |marks| :: !marks[i]
    ensures Marked(secs, marks) == []
  {
    if secs != [] {
      NoneMarked(secs[1..], marks[1..]);
    }
  }

  /** What is begun: the sections marked, if there is a precompiled one before the walk stops. */
  ghost predicate BegunAs(m: Module, stop: nat, first: nat, kept: seq<bool>) {
    && IsStop(m, stop) && IsFirstPrecompiled(m, first) && Keeps(Listed(m), first, stop, kept)
    && Begun(m) == if first < stop then Some(Concatenated(Marked(Listed(m), kept))) else None
  }

  /** Output that was empty is begun exactly if there is a precompiled section before the walk stops,
      and then with all sections before the first one and the non-custom ones behind it, up to where the
      walk stops. */
  lemma {:induction false} BegunMeaning(m: Module) returns (stop: nat, first: nat, kept: seq<bool>)
    ensures BegunAs(m, stop, first, kept)
  {
    if m.Rest? || !NameReadable(m, 0) {
      stop, first, kept := BegunNowhere(m);
    } else if Precompiled(m) {
      stop, first, kept := BegunHere(m);
    } else {
      var later, laterFirst, others := BegunMeaning(m.more);
      stop, first, kept := BegunLater(m, later, laterFirst, others);
    }
  }

  lemma {:induction false} BegunOneMore(m: Module, first: nat, stop: nat, part: seq<Section>)
    requires m.Sections? && NameReadable(m, 0) && !Precompiled(m)
    requires Begun(m.more) == if first < stop then Some(Concatenated(part)) else None
    ensures Begun(m) == if first < stop then Some(Concatenated([m.first] + part)) else None
  {
    ConcatenatedOneMore(m.first, part);
  }

  lemma {:induction false} BegunNowhere(m: Module) returns (stop: nat, first: nat, kept: seq<bool>)
    requires m.Rest? || !NameReadable(m, 0)
    ensures BegunAs(m, stop, first, kept)
  {
    var k;
    first, k := StrippedMeaning(m);
    stop, kept := 0, seq(|Listed(m)|, i => false);
  }

  lemma {:induction false} BegunHere(m: Module) returns (stop: nat, first: nat, kept: seq<bool>)
    requires m.Sections? && NameReadable(m, 0) && Precompiled(m)
    ensures BegunAs(m, stop, first, kept)
  {
    var secs := Listed(m.more);
    var later, others := AppendageMeaning(m.more);
    stop, first, kept := later + 1, 0, [false] + others;
    StopLater(m, later);
    KeepsFromFirst(m.first, secs, later, others);
    OneMoreMarked(m.first, secs, false, others);
  }

  lemma {:induction false} BegunLater(m: Module, later: nat, laterFirst: nat, others: seq<bool>)
    returns (stop: nat, first: nat, kept: seq<bool>)
    requires m.Sections? && NameReadable(m, 0) && !Precompiled(m) && BegunAs(m.more, later, laterFirst, others)
    ensures BegunAs(m, stop, first, kept)
  {
    var secs := Listed(m.more);
    stop, first, kept := later + 1, laterFirst + 1, [true] + others;
    BegunOneMore(m, laterFirst, later, Marked(secs, others));
    StopLater(m, later);
    FirstPrecompiledLater(m, laterFirst);
    KeepsLater(m.first, secs, laterFirst, later, others);
    OneMoreMarked(m.first, secs, true, others);
  }

  // ---- The file as a whole ----

  /** The header is the first eight bytes, or as many as there are, and the sections are behind it. */
  lemma {:induction false} FileParts(b: bytes)
    ensures |HeaderOf(b)| == if |b| < 8 then |b| else 8
    ensures b == HeaderOf(b) + Flatten(ModuleOf(b))
  {
    SectionsBeginBehindHeader(b);
  }

  /** The output for a strippable file: its header, and the kept sections one after the other. */
  lemma {:induction false} StrippedFileMeaning(b: bytes) returns (first: nat, kept: seq<bool>)
    requires Strippable(ModuleOf(b))
    ensures IsFirstPrecompiled(ModuleOf(b), first)
    ensures Keeps(Listed(ModuleOf(b)), first, |Listed(ModuleOf(b))|, kept)
    ensures StrippedBytes(b) == (if |b| < 8 then b else b[..8]) + Concatenated(Marked(Listed(ModuleOf(b)), kept))
  {
    var m := ModuleOf(b);
    first, kept := StrippedMeaning(m);
    StrippableIsReadable(m);
    StrippedEndsClean(m);
    var rest := ListedMeaning(Stripped(m));
    assert Concatenated(Listed(Stripped(m))) + [] == Concatenated(Listed(Stripped(m)));
  }

  lemma {:induction false} StrippedEndsClean(m: Module)
    ensures EndsClean(m) ==> EndsClean(NonCustom(m)) && EndsClean(Stripped(m))
  {
    if m.Sections? {
      StrippedEndsClean(m.more);
    }
  }
}
