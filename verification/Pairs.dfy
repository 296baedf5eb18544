/**
 PairsUtil: the serialized form of a list of name-value pairs. It is a word with the number of
 pairs, a table with the two lengths of each pair, and then the names and values themselves, each
 with a NUL behind it.
 */
module Pairs {
  import opened Bytes
  import opened Words

  type Pair = (bytes, bytes)
  type PairList = seq<Pair>

  const MAX_BYTES := 1024 * 1024
  const MAX_COUNT := 1024

  function Table(order: Order, pairs: PairList): bytes {
    if pairs == [] then []
    else Word(order, |pairs[0].0|) + Word(order, |pairs[0].1|) + Table(order, pairs[1..])
  }

  function Body(pair: Pair): bytes {
    pair.0 + [0] + (pair.1 + [0])
  }

  function Bodies(pairs: PairList): bytes {
    if pairs == [] then [] else Body(pairs[0]) + Bodies(pairs[1..])
  }

  function Encode(order: Order, pairs: PairList): bytes {
    Word(order, |pairs|) + (Table(order, pairs) + Bodies(pairs))
  }

  /** The bytes that the pairs take, without the word with their number. */
  function SizeOf(pairs: PairList): nat {
    if pairs == [] then 0 else 8 + |pairs[0].0| + 1 + |pairs[0].1| + 1 + SizeOf(pairs[1..])
  }

  lemma {:induction false} EncodedSize(order: Order, pairs: PairList)
    ensures |Table(order, pairs)| == 8 * |pairs|
    ensures |Table(order, pairs)| + |Bodies(pairs)| == SizeOf(pairs)
  {
    if pairs != [] {
      EncodedSize(order, pairs[1..]);
    }
  }

  lemma {:induction false} SizeOfFirst(pairs: PairList, i: nat)
    requires i < |pairs|
    ensures SizeOf(pairs[i..]) == 8 + |pairs[i].0| + 1 + |pairs[i].1| + 1 + SizeOf(pairs[i + 1..])
  {
    assert pairs[i..][1..] == pairs[i + 1..];
  }

  /** PairsUtil::pairsSize: the length of the encoding. */
  method PairsSize(pairs: PairList) returns (size: nat)
    ensures forall order :: size == |Encode(order, pairs)|
  {
    size := 4;
    for i := 0 to |pairs|
      invariant size + SizeOf(pairs[i..]) == 4 + SizeOf(pairs)
    {
      SizeOfFirst(pairs, i);
      size := size + 8;
      size := size + |pairs[i].0| + 1;
      size := size + |pairs[i].1| + 1;
    }
    forall order ensures size == |Encode(order, pairs)| {
      EncodedSize(order, pairs);
    }
  }

  // ---- marshalPairs ----

  /** The first `pos` bytes of the encoding are in the buffer, the rest of which is as before, and
      `left` is still to be written. */
  ghost predicate Written(buffer: bytes, before: bytes, code: bytes, pos: nat, left: bytes) {
    && pos <= |buffer| == |before| && pos <= |code|
    && buffer == code[..pos] + before[pos..]
    && code[pos..] == left
  }

  /** A failed call has written a part of the encoding from the front of the buffer. */
  ghost predicate PartlyWritten(buffer: bytes, before: bytes, code: bytes) {
    exists pos: nat :: pos <= |before| && pos <= |code| && buffer == code[..pos] + before[pos..]
  }

  lemma {:induction false} Partly(buffer: bytes, before: bytes, code: bytes, pos: nat, left: bytes)
    requires Written(buffer, before, code, pos, left)
    ensures PartlyWritten(buffer, before, code)
    ensures |before| == |buffer| && |code| == pos + |left|
    ensures pos == |buffer| && left == [] ==> buffer == code
  {
  }

  lemma {:induction false} PieceWritten(buffer: bytes, before: bytes, code: bytes, pos: nat, piece: bytes, left: bytes,
                                        after: bytes)
    requires Written(buffer, before, code, pos, piece + left)
    requires pos + |piece| <= |buffer|
    requires after == buffer[..pos] + piece + buffer[pos + |piece|..]
    ensures Written(after, before, code, pos + |piece|, left)
  {
    var next := pos + |piece|;
    assert code[..next] == code[..pos] + piece;
    assert buffer[next..] == before[next..];
    CursorMoves(code, pos, piece, left);
  }

  /** memcpy */
  method Copy(buffer: array<byte>, pos: nat, piece: bytes)
    requires pos + |piece| <= buffer.Length
    modifies buffer
    ensures buffer[..] == old(buffer[..])[..pos] + piece + old(buffer[..])[pos + |piece|..]
  {
    forall i | 0 <= i < |piece| {
      buffer[pos + i] := piece[i];
    }
  }

  /** The copying of one piece, if there is room for it. */
  method Put(buffer: array<byte>, pos: nat, piece: bytes, ghost before: bytes, ghost code: bytes, ghost left: bytes)
    returns (ok: bool, next: nat)
    requires Written(buffer[..], before, code, pos, piece + left)
    modifies buffer
    ensures ok ==> next == pos + |piece| && Written(buffer[..], before, code, next, left)
    ensures !ok ==> |code| > buffer.Length && PartlyWritten(buffer[..], before, code)
  {
    Partly(buffer[..], before, code, pos, piece + left);
    if pos + |piece| > buffer.Length {
      return false, pos;
    }
    ghost var was := buffer[..];
    Copy(buffer, pos, piece);
    PieceWritten(was, before, code, pos, piece, left, buffer[..]);
    return true, pos + |piece|;
  }

  lemma {:induction false} TableFrom(order: Order, pairs: PairList, i: nat, rest: bytes)
    requires i < |pairs|
    ensures Table(order, pairs[i..]) + rest
         == Word(order, |pairs[i].0|) + (Word(order, |pairs[i].1|) + (Table(order, pairs[i + 1..]) + rest))
  {
    assert pairs[i..][1..] == pairs[i + 1..];
    var x, y, z := Word(order, |pairs[i].0|), Word(order, |pairs[i].1|), Table(order, pairs[i + 1..]);
    Associative(x, y, z);
    Associative(x, y + z, rest);
    Associative(y, z, rest);
  }

  lemma {:induction false} BodiesFrom(pairs: PairList, i: nat)
    requires i < |pairs|
    ensures Bodies(pairs[i..]) == pairs[i].0 + [0] + (pairs[i].1 + [0] + Bodies(pairs[i + 1..]))
  {
    assert pairs[i..][1..] == pairs[i + 1..];
    Associative(pairs[i].0 + [0], pairs[i].1 + [0], Bodies(pairs[i + 1..]));
  }

  /** PairsUtil::marshalPairs: succeeds exactly if the buffer has the size of the encoding, and then
      the buffer holds the encoding. */
  method MarshalPairs(order: Order, pairs: PairList, buffer: array?<byte>) returns (ok: bool)
    modifies if buffer == null then {} else {buffer}
    ensures ok <==> buffer != null && buffer.Length == 4 + SizeOf(pairs)
    ensures ok ==> buffer[..] == Encode(order, pairs)
    ensures !ok && buffer != null ==> PartlyWritten(buffer[..], old(buffer[..]), Encode(order, pairs))
  {
    EncodedSize(order, pairs);
    if buffer == null {
      return false;
    }
    ghost var before, code := buffer[..], Encode(order, pairs);
    ghost var bodies := Bodies(pairs);
    var pos: nat;
    ok, pos := Put(buffer, 0, Word(order, |pairs|), before, code, Table(order, pairs) + bodies);
    if !ok {
      return;
    }
    assert pairs[0..] == pairs;
    for i := 0 to |pairs|
      invariant Written(buffer[..], before, code, pos, Table(order, pairs[i..]) + bodies)
    {
      ok, pos := PutSizes(order, pairs, i, buffer, pos, before, code, bodies);
      if !ok {
        return;
      }
    }
    assert [] + bodies == bodies;
    for i := 0 to |pairs|
      invariant Written(buffer[..], before, code, pos, Bodies(pairs[i..]))
    {
      ok, pos := PutPair(pairs, i, buffer, pos, before, code);
      if !ok {
        return;
      }
    }
    Partly(buffer[..], before, code, pos, []);
    return pos == buffer.Length;
  }

  /** The lengths of one pair. */
  method PutSizes(order: Order, pairs: PairList, i: nat, buffer: array<byte>, pos: nat,
                  ghost before: bytes, ghost code: bytes, ghost bodies: bytes)
    returns (ok: bool, next: nat)
    requires i < |pairs| && Written(buffer[..], before, code, pos, Table(order, pairs[i..]) + bodies)
    modifies buffer
    ensures ok ==> Written(buffer[..], before, code, next, Table(order, pairs[i + 1..]) + bodies)
    ensures !ok ==> |code| > buffer.Length && PartlyWritten(buffer[..], before, code)
  {
    ghost var left := Table(order, pairs[i + 1..]) + bodies;
    TableFrom(order, pairs, i, bodies);
    ok, next := Put(buffer, pos, Word(order, |pairs[i].0|), before, code, Word(order, |pairs[i].1|) + left);
    if ok {
      ok, next := Put(buffer, next, Word(order, |pairs[i].1|), before, code, left);
    }
  }

  /** The name and the value of one pair. */
  method PutPair(pairs: PairList, i: nat, buffer: array<byte>, pos: nat, ghost before: bytes, ghost code: bytes)
    returns (ok: bool, next: nat)
    requires i < |pairs| && Written(buffer[..], before, code, pos, Bodies(pairs[i..]))
    modifies buffer
    ensures ok ==> Written(buffer[..], before, code, next, Bodies(pairs[i + 1..]))
    ensures !ok ==> |code| > buffer.Length && PartlyWritten(buffer[..], before, code)
  {
    ghost var left := Bodies(pairs[i + 1..]);
    BodiesFrom(pairs, i);
    ok, next := Put(buffer, pos, pairs[i].0 + [0], before, code, pairs[i].1 + [0] + left);
    if ok {
      ok, next := Put(buffer, next, pairs[i].1 + [0], before, code, left);
    }
  }

  // ---- toPairs ----

  type Sizes = seq<(nat, nat)>

  function SizesOf(pairs: PairList): (sizes: Sizes)
    ensures |sizes| == |pairs|
  {
    if pairs == [] then [] else [(|pairs[0].0|, |pairs[0].1|)] + SizesOf(pairs[1..])
  }

  function FirstSizes(order: Order, s: bytes): (nat, nat)
    requires |s| >= 8
  {
    (Number(order, s[..4]), Number(order, s[4..8]))
  }

  /** The table of `n` pairs at the front of `s`. */
  function ReadTable(order: Order, s: bytes, n: nat): (sizes: Sizes)
    requires 8 * n <= |s|
    ensures |sizes| == n
  {
    if n == 0 then []
    else [FirstSizes(order, s)] + ReadTable(order, s[8..], n - 1)
  }

  /** The string of `n` bytes at the front of `s`, with a NUL behind it, and what follows. */
  function ReadString(s: bytes, n: nat): Option<(bytes, bytes)> {
    if n + 1 > |s| || s[n] != 0 then None else Some((s[..n], s[n + 1..]))
  }

  /** Exactly the names and values with the given sizes. */
  function ReadBodies(s: bytes, sizes: Sizes): Option<PairList>
    decreases |sizes|
  {
    if sizes == [] then
      if s == [] then Some([]) else None
    else
      match ReadString(s, sizes[0].0)
      case None => None
      case Some((name, s1)) =>
        match ReadString(s1, sizes[0].1)
        case None => None
        case Some((value, s2)) => Prepend([(name, value)], ReadBodies(s2, sizes[1..]))
  }

  function Prepend(pairs: PairList, others: Option<PairList>): Option<PairList> {
    match others
    case None => None
    case Some(ps) => Some(pairs + ps)
  }

  datatype Parts = Parts(count: nat, table: bytes, bodies: bytes)

  /** The number of pairs, their table and their bodies, within the limits. */
  function PartsOf(order: Order, s: bytes): (r: Option<Parts>)
    ensures r.Some? ==> |r.value.table| == 8 * r.value.count
  {
    if |s| > MAX_BYTES || |s| < 4 then None
    else
      var n := Number(order, s[..4]);
      if n > MAX_COUNT || 4 + 8 * n > |s| then None else Some(Parts(n, s[4..4 + 8 * n], s[4 + 8 * n..]))
  }

  /** The pairs whose encoding `s` is, if it is one within the limits. */
  function Decode(order: Order, s: bytes): Option<PairList> {
    match PartsOf(order, s)
    case None => None
    case Some(p) => ReadBodies(p.bodies, ReadTable(order, p.table, p.count))
  }

  predicate InLimits(pairs: PairList) {
    |pairs| <= MAX_COUNT && 4 + SizeOf(pairs) <= MAX_BYTES
  }

  lemma {:induction false} StringRead(s: bytes, text: bytes, rest: bytes)
    requires s == text + [0] + rest
    ensures ReadString(s, |text|) == Some((text, rest))
  {
    CursorMoves(s, 0, text + [0], rest);
    assert s[|text|] == (text + [0])[|text|];
    assert s[..|text|] == (text + [0])[..|text|];
  }

  lemma {:induction false} StringParts(s: bytes, n: nat)
    requires ReadString(s, n).Some?
    ensures var (text, rest) := ReadString(s, n).value; |text| == n && s == text + [0] + rest
  {
  }

  /** The bodies determine the pairs and the pairs the bodies. */
  lemma {:induction false} BodiesRead(pairs: PairList)
    ensures ReadBodies(Bodies(pairs), SizesOf(pairs)) == Some(pairs)
  {
    if pairs != [] {
      BodiesRead(pairs[1..]);
      PairReadBack(pairs[0], Bodies(pairs[1..]), SizesOf(pairs), SizesOf(pairs[1..]));
      assert [pairs[0]] + pairs[1..] == pairs;
    }
  }

  lemma {:induction false} PairReadBack(pair: Pair, s2: bytes, sizes: Sizes, rest: Sizes)
    requires sizes == [(|pair.0|, |pair.1|)] + rest
    ensures ReadBodies(Body(pair) + s2, sizes) == Prepend([pair], ReadBodies(s2, rest))
  {
    var (name, value) := pair;
    Associative(name + [0], value + [0], s2);
    StringRead(Body(pair) + s2, name, value + [0] + s2);
    StringRead(value + [0] + s2, value, s2);
  }

  lemma {:induction false} ReadBodiesIsExact(s: bytes, sizes: Sizes)
    requires ReadBodies(s, sizes).Some?
    ensures Bodies(ReadBodies(s, sizes).value) == s && SizesOf(ReadBodies(s, sizes).value) == sizes
    decreases |sizes|
  {
    if sizes != [] {
      var name, value, s2 := PairRead(s, sizes);
      ReadBodiesIsExact(s2, sizes[1..]);
      BodiesOfMore((name, value), ReadBodies(s2, sizes[1..]).value);
      assert sizes == [sizes[0]] + sizes[1..];
    }
  }

  lemma {:induction false} PairRead(s: bytes, sizes: Sizes) returns (name: bytes, value: bytes, s2: bytes)
    requires sizes != [] && ReadBodies(s, sizes).Some?
    ensures s == Body((name, value)) + s2 && sizes[0] == (|name|, |value|)
    ensures ReadBodies(s2, sizes[1..]).Some?
    ensures ReadBodies(s, sizes).value == [(name, value)] + ReadBodies(s2, sizes[1..]).value
  {
    var s1;
    name, s1 := ReadString(s, sizes[0].0).value.0, ReadString(s, sizes[0].0).value.1;
    value, s2 := ReadString(s1, sizes[0].1).value.0, ReadString(s1, sizes[0].1).value.1;
    StringParts(s, sizes[0].0);
    StringParts(s1, sizes[0].1);
    Associative(name + [0], value + [0], s2);
  }

  lemma {:induction false} BodiesOfMore(pair: Pair, others: PairList)
    ensures Bodies([pair] + others) == Body(pair) + Bodies(others)
    ensures SizesOf([pair] + others) == [(|pair.0|, |pair.1|)] + SizesOf(others)
  {
    assert ([pair] + others)[1..] == others;
  }

  lemma {:induction false} TableRead(order: Order, pairs: PairList)
    requires SizeOf(pairs) < U32
    ensures |Table(order, pairs)| == 8 * |pairs|
    ensures ReadTable(order, Table(order, pairs), |pairs|) == SizesOf(pairs)
  {
    EncodedSize(order, pairs);
    if pairs != [] {
      var s := Table(order, pairs);
      var x, y, more := Word(order, |pairs[0].0|), Word(order, |pairs[0].1|), Table(order, pairs[1..]);
      assert s[..4] == x && s[4..8] == y && s[8..] == more;
      NumberOfWord(order, |pairs[0].0|);
      NumberOfWord(order, |pairs[0].1|);
      TableRead(order, pairs[1..]);
    }
  }

  lemma {:induction false} ReadTableFirst(order: Order, s: bytes, n: nat)
    requires 0 < n && 8 * n <= |s|
    ensures Word(order, ReadTable(order, s, n)[0].0) + Word(order, ReadTable(order, s, n)[0].1) == s[..8]
    ensures ReadTable(order, s, n)[1..] == ReadTable(order, s[8..], n - 1)
  {
    WordOfNumber(order, s[..4]);
    WordOfNumber(order, s[4..8]);
    assert s[..8] == s[..4] + s[4..8];
  }

  lemma {:induction false} ReadTableIsExact(order: Order, s: bytes, pairs: PairList, n: nat)
    requires n == |pairs| && 8 * n == |s| && ReadTable(order, s, n) == SizesOf(pairs)
    ensures Table(order, pairs) == s
  {
    if n > 0 {
      ReadTableFirst(order, s, n);
      SizesOfFirst(pairs);
      ReadTableIsExact(order, s[8..], pairs[1..], n - 1);
      assert s == s[..8] + s[8..];
    }
  }

  lemma {:induction false} SizesOfFirst(pairs: PairList)
    requires pairs != []
    ensures SizesOf(pairs)[0] == (|pairs[0].0|, |pairs[0].1|) && SizesOf(pairs)[1..] == SizesOf(pairs[1..])
  {
  }

  /** Decoding is the inverse of encoding within the limits, in both directions: a byte string is
      accepted exactly if it is the encoding of a list within the limits, and then as that list. */
  lemma {:induction false} DecodeMeaning(order: Order, s: bytes, pairs: PairList)
    ensures Decode(order, s) == Some(pairs) <==> InLimits(pairs) && Encode(order, pairs) == s
  {
    if InLimits(pairs) && Encode(order, pairs) == s {
      EncodingIsDecoded(order, pairs);
    }
    if Decode(order, s) == Some(pairs) {
      DecodedIsEncoding(order, s);
    }
  }

  lemma {:induction false} PartsTaken(order: Order, n: nat, table: bytes, bodies: bytes)
    requires n <= MAX_COUNT && |table| == 8 * n && 4 + |table| + |bodies| <= MAX_BYTES
    ensures PartsOf(order, Word(order, n) + (table + bodies)) == Some(Parts(n, table, bodies))
  {
    var s := Word(order, n) + (table + bodies);
    assert s[..4] == Word(order, n) && s[4..4 + 8 * n] == table && s[4 + 8 * n..] == bodies;
    NumberOfWord(order, n);
  }

  lemma {:induction false} PartsAreExact(order: Order, s: bytes)
    requires PartsOf(order, s).Some?
    ensures var p := PartsOf(order, s).value;
            s == Word(order, p.count) + (p.table + p.bodies) && p.count <= MAX_COUNT && |s| <= MAX_BYTES
  {
    WordOfNumber(order, s[..4]);
    var n := Number(order, s[..4]);
    assert s == s[..4] + (s[4..4 + 8 * n] + s[4 + 8 * n..]);
  }

  lemma {:induction false} EncodingIsDecoded(order: Order, pairs: PairList)
    requires InLimits(pairs)
    ensures Decode(order, Encode(order, pairs)) == Some(pairs)
  {
    EncodedSize(order, pairs);
    PartsTaken(order, |pairs|, Table(order, pairs), Bodies(pairs));
    TableRead(order, pairs);
    BodiesRead(pairs);
  }

  lemma {:induction false} DecodedIsEncoding(order: Order, s: bytes)
    requires Decode(order, s).Some?
    ensures var pairs := Decode(order, s).value; InLimits(pairs) && Encode(order, pairs) == s
  {
    var pairs := Decode(order, s).value;
    var p := PartsOf(order, s).value;
    PartsAreExact(order, s);
    ReadBodiesIsExact(p.bodies, ReadTable(order, p.table, p.count));
    ReadTableIsExact(order, p.table, pairs, p.count);
    EncodedSize(order, pairs);
  }

  /** What toPairs returns: a failure is an empty list too. */
  function ToPairsResult(order: Order, view: Option<bytes>): PairList {
    if view == None then [] else OrEmpty(Decode(order, view.value))
  }

  function OrEmpty(pairs: Option<PairList>): PairList {
    if pairs == None then [] else pairs.value
  }

  lemma {:induction false} DecodeParts(order: Order, s: bytes, p: Parts, sizes: Sizes)
    requires PartsOf(order, s) == Some(p) && sizes == ReadTable(order, p.table, p.count)
    ensures Decode(order, s) == ReadBodies(p.bodies, sizes)
  {
  }

  /** What the loop over the table still has to read. */
  ghost predicate TableLeft(sizes: Sizes, order: Order, s: bytes, read: Sizes, n: nat) {
    8 * n <= |s| && sizes == read + ReadTable(order, s[..8 * n], n)
  }

  lemma {:induction false} TableStarts(order: Order, b: bytes, start: nat, n: nat, table: bytes, sizes: Sizes)
    requires start + 8 * n <= |b| && table == b[start..start + 8 * n] && sizes == ReadTable(order, table, n)
    ensures TableLeft(sizes, order, b[start..], [], n)
  {
    assert b[start..][..8 * n] == table;
  }

  lemma {:induction false} TableStep(sizes: Sizes, order: Order, s: bytes, read: Sizes, n: nat)
    requires n > 0 && TableLeft(sizes, order, s, read, n)
    ensures |s| >= 8
    ensures TableLeft(sizes, order, s[8..], read + [FirstSizes(order, s)], n - 1)
  {
    FirstSizesOfFront(order, s, 8 * n, 8 * (n - 1));
    MoveOne(read, FirstSizes(order, s), ReadTable(order, s[8..][..8 * (n - 1)], n - 1));
  }

  lemma {:induction false} FirstSizesOfFront(order: Order, s: bytes, k: nat, rest: nat)
    requires 8 + rest == k <= |s|
    ensures FirstSizes(order, s[..k]) == FirstSizes(order, s) && s[..k][8..] == s[8..][..rest]
  {
    assert s[..k][..4] == s[..4] && s[..k][4..8] == s[4..8];
  }

  lemma {:induction false} MoveOne(read: Sizes, size: (nat, nat), others: Sizes)
    ensures read + ([size] + others) == read + [size] + others
  {
  }

  /** The table of `n` pairs at a cursor. */
  method ReadSizes(order: Order, b: bytes, start: nat, n: nat, ghost table: bytes) returns (sizes: Sizes)
    requires start + 8 * n <= |b| && table == b[start..start + 8 * n]
    ensures sizes == ReadTable(order, table, n)
  {
    sizes := [];
    var pos: nat := start;
    ghost var all, left: nat := ReadTable(order, table, n), n;
    TableStarts(order, b, start, n, table, all);
    for i := 0 to n
      invariant left == n - i && pos + 8 * left <= |b|
      invariant TableLeft(all, order, b[pos..], sizes, left)
    {
      var size := NextSizes(order, b, pos, all, sizes, left);
      sizes, pos, left := sizes + [size], pos + 8, left - 1;
    }
  }

  /** The two lengths at a cursor. */
  method NextSizes(order: Order, b: bytes, pos: nat, ghost all: Sizes, ghost read: Sizes, ghost n: nat)
    returns (size: (nat, nat))
    requires pos + 8 <= |b| && n > 0 && TableLeft(all, order, b[pos..], read, n)
    ensures TableLeft(all, order, b[pos + 8..], read + [size], n - 1)
  {
    TableStep(all, order, b[pos..], read, n);
    SuffixWords(b, pos);
    size := (Number(order, b[pos..pos + 4]), Number(order, b[pos + 4..pos + 8]));
  }

  lemma {:induction false} SuffixWords(b: bytes, pos: nat)
    requires pos + 8 <= |b|
    ensures b[pos..][..4] == b[pos..pos + 4] && b[pos..][4..8] == b[pos + 4..pos + 8]
    ensures b[pos..][8..] == b[pos + 8..]
  {
  }

  /** What the loop over the bodies still has to read. */
  ghost predicate BodiesLeft(answer: Option<PairList>, s: bytes, read: PairList, sizes: Sizes) {
    answer == Prepend(read, ReadBodies(s, sizes))
  }

  lemma {:induction false} BodiesStep(answer: Option<PairList>, s: bytes, read: PairList, sizes: Sizes)
    requires sizes != [] && BodiesLeft(answer, s, read, sizes)
    ensures match ReadString(s, sizes[0].0)
            case None => answer == None
            case Some((name, s1)) =>
              match ReadString(s1, sizes[0].1)
              case None => answer == None
              case Some((value, s2)) => BodiesLeft(answer, s2, read + [(name, value)], sizes[1..])
  {
    if ReadString(s, sizes[0].0).Some? {
      var (name, s1) := ReadString(s, sizes[0].0).value;
      if ReadString(s1, sizes[0].1).Some? {
        var (value, s2) := ReadString(s1, sizes[0].1).value;
        PrependTwice(read, (name, value), ReadBodies(s2, sizes[1..]));
      }
    }
  }

  lemma {:induction false} PrependTwice(read: PairList, pair: Pair, others: Option<PairList>)
    ensures Prepend(read, Prepend([pair], others)) == Prepend(read + [pair], others)
  {
    if others.Some? {
      assert read + ([pair] + others.value) == read + [pair] + others.value;
    }
  }

  lemma {:induction false} PrependNothing(others: Option<PairList>)
    ensures Prepend([], others) == others
  {
    if others.Some? {
      assert [] + others.value == others.value;
    }
  }

  lemma {:induction false} BodiesEnd(answer: Option<PairList>, s: bytes, read: PairList)
    requires BodiesLeft(answer, s, read, [])
    ensures answer == if s == [] then Some(read) else None
  {
    assert read + [] == read;
  }

  /** The string of `n` bytes at a cursor, with its NUL. */
  method StringAt(b: bytes, pos: nat, n: nat) returns (ok: bool, next: nat)
    requires pos <= |b|
    ensures ok ==> next == pos + n + 1 <= |b|
    ensures ReadString(b[pos..], n) == if ok then Some((b[pos..pos + n], b[next..])) else None
  {
    if pos + n + 1 > |b| {
      return false, pos;
    }
    next := pos + n + 1;
    ok := b[pos + n] == 0;
    assert b[pos..][..n] == b[pos..pos + n] && b[pos..][n + 1..] == b[next..];
  }

  /** PairsUtil::toPairs; `view` is None for a null pointer. */
  method ToPairs(order: Order, view: Option<bytes>) returns (pairs: PairList)
    ensures pairs == ToPairsResult(order, view)
  {
    if view == None || |view.value| > MAX_BYTES {
      return [];
    }
    var b := view.value;
    var ok, numPairs := ReadCount(order, b);
    if !ok {
      return [];
    }
    ghost var parts := PartsOf(order, b).value;
    var sizes := ReadSizes(order, b, 4, numPairs, parts.table);
    DecodeParts(order, b, parts, sizes);
    pairs := ReadPairs(b, 4 + 8 * numPairs, sizes, parts.bodies);
  }

  /** The number of pairs, if it is within its limit and their table within the buffer. */
  method ReadCount(order: Order, b: bytes) returns (ok: bool, n: nat)
    requires |b| <= MAX_BYTES
    ensures ok ==> 4 + 8 * n <= |b|
    ensures PartsOf(order, b) == if ok then Some(Parts(n, b[4..4 + 8 * n], b[4 + 8 * n..])) else None
  {
    if 4 > |b| {
      return false, 0;
    }
    n := Number(order, b[..4]);
    ok := n <= MAX_COUNT && 4 + n * 8 <= |b|;
  }

  /** The name and the value at a cursor. */
  method NextPair(b: bytes, pos: nat, size: (nat, nat),
                  ghost answer: Option<PairList>, ghost read: PairList, ghost left: Sizes)
    returns (ok: bool, pair: Pair, next: nat)
    requires pos <= |b| && left != [] && left[0] == size && BodiesLeft(answer, b[pos..], read, left)
    ensures !ok ==> answer == None
    ensures ok ==> next <= |b| && BodiesLeft(answer, b[next..], read + [pair], left[1..])
  {
    BodiesStep(answer, b[pos..], read, left);
    pair := ([], []);
    var afterName;
    ok, afterName := StringAt(b, pos, size.0);
    next := afterName;
    if ok {
      ok, next := StringAt(b, afterName, size.1);
      if ok {
        pair := (b[pos..pos + size.0], b[afterName..afterName + size.1]);
      }
    }
  }

  /** The names and values with the given sizes, up to the end. */
  method ReadPairs(b: bytes, start: nat, sizes: Sizes, ghost bodies: bytes) returns (pairs: PairList)
    requires start <= |b| && bodies == b[start..]
    ensures pairs == OrEmpty(ReadBodies(bodies, sizes))
  {
    pairs := [];
    var pos: nat := start;
    ghost var answer := ReadBodies(bodies, sizes);
    PrependNothing(answer);
    assert sizes[0..] == sizes;
    for i := 0 to |sizes|
      invariant pos <= |b|
      invariant BodiesLeft(answer, b[pos..], pairs, sizes[i..])
    {
      var ok, pair, next := NextPair(b, pos, sizes[i], answer, pairs, sizes[i..]);
      if !ok {
        return [];
      }
      pairs, pos := pairs + [pair], next;
      assert sizes[i..][1..] == sizes[i + 1..];
    }
    BodiesEnd(answer, b[pos..], pairs);
    if pos != |b| {
      return [];
    }
  }

  lemma {:induction false} SameCount(order: Order, p: PairList, q: PairList)
    requires InLimits(q) && Encode(order, p) == Encode(order, q)
    ensures InLimits(p)
  {
    EncodedSize(order, p);
    EncodedSize(order, q);
    SliceOfFront(Word(order, |p|), Table(order, p) + Bodies(p), 0, 4);
    SliceOfFront(Word(order, |q|), Table(order, q) + Bodies(q), 0, 4);
    NumberOfWord(order, |p|);
    NumberOfWord(order, |q|);
  }

  /** A list within both limits comes back from its encoding; any other one comes back empty. */
  lemma {:induction false} RoundTrip(order: Order, pairs: PairList, code: bytes, back: PairList)
    requires code == Encode(order, pairs) && back == ToPairsResult(order, Some(code))
    ensures back == if InLimits(pairs) then pairs else []
  {
    DecodeMeaning(order, code, pairs);
    if Decode(order, code).Some? {
      var q := Decode(order, code).value;
      DecodeMeaning(order, code, q);
      SameCount(order, pairs, q);
    }
  }

  /** Accepted encodings are canonical: encoding the result again gives the same bytes. */
  lemma {:induction false} AcceptedIsCanonical(order: Order, s: bytes, pairs: PairList)
    requires pairs == ToPairsResult(order, Some(s)) && pairs != []
    ensures Encode(order, pairs) == s && 4 + SizeOf(pairs) == |s|
  {
    DecodeMeaning(order, s, pairs);
    EncodedSize(order, pairs);
  }

  /** Within the limits no two lists have the same encoding. */
  lemma {:induction false} EncodeIsInjective(order: Order, p: PairList, q: PairList)
    requires InLimits(p) && InLimits(q) && Encode(order, p) == Encode(order, q)
    ensures p == q
  {
    DecodeMeaning(order, Encode(order, p), p);
    DecodeMeaning(order, Encode(order, q), q);
  }

  // ---- The bytes of an encoding ----

  /** Where the name of pair `i` begins among the names and values. */
  function BodyOffset(pairs: PairList, i: nat): nat
    requires i <= |pairs|
  {
    if i == 0 then 0 else BodyOffset(pairs, i - 1) + |pairs[i - 1].0| + 1 + |pairs[i - 1].1| + 1
  }

  lemma {:induction false} TableAt(order: Order, pairs: PairList, i: nat)
    requires i < |pairs|
    ensures |Table(order, pairs)| == 8 * |pairs|
    ensures Table(order, pairs)[8 * i..8 * i + 4] == Word(order, |pairs[i].0|)
    ensures Table(order, pairs)[8 * i + 4..8 * i + 8] == Word(order, |pairs[i].1|)
  {
    EncodedSize(order, pairs);
    EncodedSize(order, pairs[1..]);
    var first := Word(order, |pairs[0].0|) + Word(order, |pairs[0].1|);
    if i > 0 {
      TableAt(order, pairs[1..], i - 1);
      SliceBehind(first, Table(order, pairs[1..]), 8 * (i - 1), 8 * (i - 1) + 4);
      SliceBehind(first, Table(order, pairs[1..]), 8 * (i - 1) + 4, 8 * (i - 1) + 8);
    }
  }

  lemma {:induction false} SliceBehind(x: bytes, y: bytes, i: nat, j: nat)
    requires i <= j <= |y|
    ensures (x + y)[|x| + i..|x| + j] == y[i..j]
  {
    var u := (x + y)[|x| + i..|x| + j];
    assert forall k | 0 <= k < |u| :: u[k] == (x + y)[|x| + i + k] == y[i + k];
  }

  lemma {:induction false} BodyOffsetOfRest(pairs: PairList, i: nat)
    requires 0 < i <= |pairs|
    ensures BodyOffset(pairs, i) == |Body(pairs[0])| + BodyOffset(pairs[1..], i - 1)
  {
    if i > 1 {
      BodyOffsetOfRest(pairs, i - 1);
    }
  }

  lemma {:induction false} BodiesAt(pairs: PairList, i: nat)
    requires i < |pairs|
    ensures BodyOffset(pairs, i) + |Body(pairs[i])| <= |Bodies(pairs)|
    ensures Bodies(pairs)[BodyOffset(pairs, i)..BodyOffset(pairs, i) + |Body(pairs[i])|] == Body(pairs[i])
  {
    if i > 0 {
      BodiesAt(pairs[1..], i - 1);
      BodyOffsetOfRest(pairs, i);
      var at := BodyOffset(pairs[1..], i - 1);
      SliceBehind(Body(pairs[0]), Bodies(pairs[1..]), at, at + |Body(pairs[i])|);
    }
  }

  /** `data` is in the bytes from position `i` on. */
  ghost predicate HoldsAt(s: bytes, i: nat, data: bytes) {
    i + |data| <= |s| && s[i..i + |data|] == data
  }

  /** The layout, position by position: the number of pairs, the two lengths of each pair, and then for each
      pair its name, a NUL, its value and a NUL. */
  lemma {:induction false} Layout(order: Order, pairs: PairList, i: nat, at: nat)
    requires i < |pairs| && at == 4 + 8 * |pairs| + BodyOffset(pairs, i)
    ensures HoldsAt(Encode(order, pairs), 0, Word(order, |pairs|))
    ensures HoldsAt(Encode(order, pairs), 4 + 8 * i, Word(order, |pairs[i].0|))
    ensures HoldsAt(Encode(order, pairs), 4 + 8 * i + 4, Word(order, |pairs[i].1|))
    ensures HoldsAt(Encode(order, pairs), at, pairs[i].0 + [0])
    ensures HoldsAt(Encode(order, pairs), at + |pairs[i].0| + 1, pairs[i].1 + [0])
  {
    LayoutOfTable(order, pairs, i, Bodies(pairs));
    TableAt(order, pairs, i);
    LayoutOfBody(pairs, i, Word(order, |pairs|), Table(order, pairs));
  }

  lemma {:induction false} LayoutOfTable(order: Order, pairs: PairList, i: nat, bodies: bytes)
    requires i < |pairs|
    ensures HoldsAt(Word(order, |pairs|) + (Table(order, pairs) + bodies), 0, Word(order, |pairs|))
    ensures HoldsAt(Word(order, |pairs|) + (Table(order, pairs) + bodies), 4 + 8 * i, Word(order, |pairs[i].0|))
    ensures HoldsAt(Word(order, |pairs|) + (Table(order, pairs) + bodies), 4 + 8 * i + 4, Word(order, |pairs[i].1|))
  {
    var count, table := Word(order, |pairs|), Table(order, pairs);
    TableAt(order, pairs, i);
    WordInEncoding(count, table, bodies, 8 * i, Word(order, |pairs[i].0|));
    WordInEncoding(count, table, bodies, 8 * i + 4, Word(order, |pairs[i].1|));
    CountInEncoding(count, table + bodies);
  }

  lemma {:induction false} LayoutOfBody(pairs: PairList, i: nat, count: bytes, table: bytes)
    requires i < |pairs| && |count| == 4 && |table| == 8 * |pairs|
    ensures HoldsAt(count + (table + Bodies(pairs)), 4 + 8 * |pairs| + BodyOffset(pairs, i), pairs[i].0 + [0])
    ensures HoldsAt(count + (table + Bodies(pairs)), 4 + 8 * |pairs| + BodyOffset(pairs, i) + |pairs[i].0| + 1, pairs[i].1 + [0])
  {
    BodiesAt(pairs, i);
    BodyInEncoding(count, table, Bodies(pairs), BodyOffset(pairs, i), pairs[i]);
  }

  lemma {:induction false} CountInEncoding(count: bytes, rest: bytes)
    ensures HoldsAt(count + rest, 0, count)
  {
  }

  lemma {:induction false} WordInEncoding(count: bytes, table: bytes, bodies: bytes, offset: nat, word: bytes)
    requires HoldsAt(table, offset, word)
    ensures HoldsAt(count + (table + bodies), |count| + offset, word)
  {
    SliceOfFront(table, bodies, offset, offset + |word|);
    SliceBehind(count, table + bodies, offset, offset + |word|);
  }

  lemma {:induction false} BodyInEncoding(count: bytes, table: bytes, bodies: bytes, offset: nat, pair: Pair)
    requires HoldsAt(bodies, offset, Body(pair))
    ensures HoldsAt(count + (table + bodies), |count| + |table| + offset, pair.0 + [0])
    ensures HoldsAt(count + (table + bodies), |count| + |table| + offset + |pair.0| + 1, pair.1 + [0])
  {
    var name, value := pair.0 + [0], pair.1 + [0];
    PartsAt(bodies, offset, name, value);
    SliceBehind(table, bodies, offset, offset + |name|);
    SliceBehind(table, bodies, offset + |name|, offset + |name| + |value|);
    SliceBehind(count, table + bodies, |table| + offset, |table| + offset + |name|);
    SliceBehind(count, table + bodies, |table| + offset + |name|, |table| + offset + |name| + |value|);
  }

  lemma {:induction false} PartsAt(s: bytes, offset: nat, x: bytes, y: bytes)
    requires HoldsAt(s, offset, x + y)
    ensures HoldsAt(s, offset, x) && HoldsAt(s, offset + |x|, y)
  {
    SliceOfSlice(s, offset, offset + |x + y|, 0, |x|);
    SliceOfSlice(s, offset, offset + |x + y|, |x|, |x| + |y|);
    assert (x + y)[0..|x|] == x && (x + y)[|x|..|x| + |y|] == y;
  }

  /** The limits: 1024 pairs, and an encoding of 1 MiB. */
  lemma {:induction false} LimitsMeaning(order: Order, pairs: PairList)
    ensures InLimits(pairs) <==> |pairs| <= 1024 && |Encode(order, pairs)| <= 1048576
  {
    EncodedSize(order, pairs);
  }

  /** A null view, and whatever is not the encoding of a list within the limits, gives an empty list. */
  lemma {:induction false} OthersGiveNothing(order: Order, view: Option<bytes>)
    requires view.Some? ==> forall pairs | |pairs| <= 1024 && |view.value| <= 1048576 :: Encode(order, pairs) != view.value
    ensures ToPairsResult(order, view) == []
  {
    if view.Some? && Decode(order, view.value).Some? {
      var pairs := Decode(order, view.value).value;
      DecodeMeaning(order, view.value, pairs);
      LimitsMeaning(order, pairs);
    }
  }
}
