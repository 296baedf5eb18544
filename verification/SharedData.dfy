/**
 SharedData: a key-value store per VM with compare-and-swap. Every locked method body is one atomic
 step; the class takes the steps, and the runs below are any interleaving of them.
 */
module SharedData {
  import opened Bytes

  datatype WasmResult = Ok | NotFound | CasMismatch

  /** A value and the number under which it was stored. */
  type Entry = (string, nat)

  datatype Store = Store(cas: nat, data: map<string, map<string, Entry>>)

  const INITIAL := Store(1, map[])

  predicate Live(s: Store, vmId: string, key: string) {
    vmId in s.data && key in s.data[vmId]
  }

  function EntryOf(s: Store, vmId: string, key: string): Entry
    requires Live(s, vmId, key)
  {
    s.data[vmId][key]
  }

  /** The counter after a number has been issued: it wraps around and skips 0. */
  function Next(cas: nat): nat {
    if cas + 1 >= U32 then 1 else cas + 1
  }

  /** A nonzero number must be that of the entry, if there is one. */
  predicate Mismatch(s: Store, vmId: string, key: string, cas: nat) {
    Live(s, vmId, key) && cas != 0 && cas != EntryOf(s, vmId, key).1
  }

  function Changed(s: Store, vmId: string, key: string, value: string, cas: nat): (Store, WasmResult) {
    if Mismatch(s, vmId, key, cas) then (s, CasMismatch)
    else
      var inner := if vmId in s.data then s.data[vmId] else map[];
      (Store(Next(s.cas), s.data[vmId := inner[key := (value, s.cas)]]), Ok)
  }

  function Removed(s: Store, vmId: string, key: string, cas: nat): (Store, WasmResult, Option<Entry>) {
    if !Live(s, vmId, key) then (s, NotFound, None)
    else if Mismatch(s, vmId, key, cas) then (s, CasMismatch, None)
    else (s.(data := s.data[vmId := s.data[vmId] - {key}]), Ok, Some(EntryOf(s, vmId, key)))
  }

  function Found(s: Store, vmId: string, key: string): (WasmResult, Option<Entry>) {
    if Live(s, vmId, key) then (Ok, Some(EntryOf(s, vmId, key))) else (NotFound, None)
  }

  class SharedData {
    var cas: nat
    var data: map<string, map<string, Entry>>

    ghost function State(): Store
      reads this
    {
      Store(cas, data)
    }

    /** The counter is a uint32_t, and never 0. */
    ghost predicate Valid()
      reads this
    {
      0 < cas < U32
    }

    constructor ()
      ensures Valid() && State() == INITIAL
    {
      cas, data := 1, map[];
    }

    /** SharedData::nextCas. */
    method NextCas() returns (result: nat)
      requires Valid()
      modifies this`cas
      ensures Valid() && result == old(cas) && cas == Next(old(cas))
    {
      result := cas;
      cas := if cas + 1 == U32 then 0 else cas + 1;
      if cas == 0 {
        cas := cas + 1;
      }
    }

    /** SharedData::get. */
    method Get(vmId: string, key: string) returns (result: WasmResult, entry: Option<Entry>)
      ensures (result, entry) == Found(State(), vmId, key)
    {
      if vmId !in data {
        return NotFound, None;
      }
      var inner := data[vmId];
      if key in inner {
        return Ok, Some(inner[key]);
      }
      return NotFound, None;
    }

    /** SharedData::keys: each key of the VM once. */
    method Keys(vmId: string) returns (result: WasmResult, keys: seq<string>)
      ensures result == Ok
      ensures forall key :: key in keys <==> Live(State(), vmId, key)
      ensures forall i, j | 0 <= i < j < |keys| :: keys[i] != keys[j]
    {
      keys := [];
      if vmId !in data {
        return Ok, keys;
      }
      var left := data[vmId].Keys;
      while left != {}
        invariant left <= data[vmId].Keys
        invariant forall key :: key in keys <==> key in data[vmId] && key !in left
        invariant forall i, j | 0 <= i < j < |keys| :: keys[i] != keys[j]
      {
        var key :| key in left;
        left := left - {key};
        keys := keys + [key];
      }
      result := Ok;
    }

    /** SharedData::set. */
    method Set(vmId: string, key: string, value: string, expected: nat) returns (result: WasmResult)
      requires Valid()
      modifies this
      ensures Valid()
      ensures (State(), result) == Changed(old(State()), vmId, key, value, expected)
    {
      var inner := if vmId in data then data[vmId] else map[];
      if key in inner {
        if expected != 0 && expected != inner[key].1 {
          return CasMismatch;
        }
      }
      var number := NextCas();
      data := data[vmId := inner[key := (value, number)]];
      result := Ok;
    }

    /** SharedData::remove. */
    method Remove(vmId: string, key: string, expected: nat) returns (result: WasmResult, removed: Option<Entry>)
      modifies this`data
      ensures (State(), result, removed) == Removed(old(State()), vmId, key, expected)
    {
      if vmId !in data {
        return NotFound, None;
      }
      var inner := data[vmId];
      if key in inner {
        if expected != 0 && expected != inner[key].1 {
          return CasMismatch, None;
        }
        removed := Some(inner[key]);
        data := data[vmId := inner - {key}];
        return Ok, removed;
      }
      return NotFound, None;
    }

    /** SharedData::deleteByVmId. */
    method DeleteByVmId(vmId: string)
      modifies this`data
      ensures State() == Store(old(cas), old(data) - {vmId})
    {
      data := data - {vmId};
    }
  }

  // ---- The numbers ----

  /** The number that is issued after `k` others. */
  function Issue(k: nat): nat {
    1 + k % (U32 - 1)
  }

  lemma {:induction false} IssuesInOrder(k: nat)
    ensures 0 < Issue(k) < U32 && Next(Issue(k)) == Issue(k + 1)
  {
  }

  /** The counter after `k` numbers have been issued. */
  function CounterAfter(k: nat): nat {
    if k == 0 then INITIAL.cas else Next(CounterAfter(k - 1))
  }

  /** So the k-th number issued, counted from 0, is Issue(k). */
  lemma {:induction false} CounterIsIssue(k: nat)
    ensures CounterAfter(k) == Issue(k)
  {
    if k > 0 {
      CounterIsIssue(k - 1);
      IssuesInOrder(k - 1);
    }
  }

  /** Two numbers are the same exactly if they were issued a multiple of 2^32 - 1 apart: that many in
      a row are distinct, and then they repeat. */
  lemma {:induction false} SameNumberExactlyIf(i: nat, j: nat)
    requires i <= j
    ensures Issue(i) == Issue(j) <==> (j - i) % (U32 - 1) == 0
  {
  }

  // ---- Runs ----

  /** One locked step, with what it was called with and what came of it. */
  datatype Event =
    | Set(vmId: string, key: string, value: string, cas: nat, result: WasmResult)
    | Remove(vmId: string, key: string, cas: nat, result: WasmResult, removed: Option<Entry>)
    | Get(vmId: string, key: string, result: WasmResult, entry: Option<Entry>)
    | Keys(vmId: string, keys: seq<string>)
    | DeleteByVmId(vmId: string)

  ghost predicate Step(s: Store, e: Event, s': Store) {
    match e
    case Set(vmId, key, value, cas, result) => (s', result) == Changed(s, vmId, key, value, cas)
    case Remove(vmId, key, cas, result, removed) => (s', result, removed) == Removed(s, vmId, key, cas)
    case Get(vmId, key, result, entry) => s' == s && (result, entry) == Found(s, vmId, key)
    case Keys(vmId, keys) => s' == s && forall key :: key in keys <==> Live(s, vmId, key)
    case DeleteByVmId(vmId) => s' == Store(s.cas, s.data - {vmId})
  }

  /** Any interleaving of steps on a new store. */
  ghost predicate IsRun(states: seq<Store>, events: seq<Event>) {
    && |states| == |events| + 1 && states[0] == INITIAL
    && forall i {:trigger events[i]} | 0 <= i < |events| :: Step(states[i], events[i], states[i + 1])
  }

  /** The event stores a value in the entry. */
  predicate Stores(e: Event, vmId: string, key: string) {
    e.Set? && e.result == Ok && e.vmId == vmId && e.key == key
  }

  /** How many numbers the first `n` events issued. */
  function Issued(events: seq<Event>, n: nat): nat
    requires n <= |events|
  {
    if n == 0 then 0
    else if events[n - 1].Set? && events[n - 1].result == Ok then Issued(events, n - 1) + 1
    else Issued(events, n - 1)
  }

  /** A value that was stored, after `count` other ones. */
  datatype Stored = Stored(count: nat, value: string)

  /** What the first `n` events stored in the entry last. */
  function Latest(events: seq<Event>, n: nat, vmId: string, key: string): (r: Option<Stored>)
    requires n <= |events|
    ensures r.Some? ==> r.value.count < Issued(events, n)
  {
    if n == 0 then None
    else if Stores(events[n - 1], vmId, key) then Some(Stored(Issued(events, n - 1), events[n - 1].value))
    else Latest(events, n - 1, vmId, key)
  }

  /** The entry holds what was last stored in it, under the number issued for that. */
  ghost predicate EntryRecorded(s: Store, events: seq<Event>, n: nat, vmId: string, key: string)
    requires n <= |events|
  {
    Live(s, vmId, key) ==>
      && Latest(events, n, vmId, key).Some?
      && EntryOf(s, vmId, key) == (Latest(events, n, vmId, key).value.value, Issue(Latest(events, n, vmId, key).value.count))
  }

  ghost predicate Recorded(s: Store, events: seq<Event>, n: nat)
    requires n <= |events|
  {
    s.cas == Issue(Issued(events, n)) && forall vmId, key :: EntryRecorded(s, events, n, vmId, key)
  }

  /** What a step does to an entry it did not store. */
  lemma {:induction false} StepOnEntry(s: Store, e: Event, s': Store, vmId: string, key: string)
    requires Step(s, e, s') && Live(s', vmId, key)
    ensures if Stores(e, vmId, key) then EntryOf(s', vmId, key) == (e.value, s.cas)
            else Live(s, vmId, key) && EntryOf(s', vmId, key) == EntryOf(s, vmId, key)
  {
  }

  /** The k-th number is Issue(k), and in every reachable state an entry holds what was last stored
      in it, under the number issued for that. */
  lemma {:induction false} RunIsRecorded(states: seq<Store>, events: seq<Event>, n: nat)
    requires IsRun(states, events) && n <= |events|
    ensures Recorded(states[n], events, n)
  {
    if n > 0 {
      var s, e := states[n - 1], events[n - 1];
      RunIsRecorded(states, events, n - 1);
      IssuesInOrder(Issued(events, n - 1));
      forall vmId, key
        ensures EntryRecorded(states[n], events, n, vmId, key)
      {
        if Live(states[n], vmId, key) {
          assert EntryRecorded(s, events, n - 1, vmId, key);
          StepOnEntry(s, e, states[n], vmId, key);
        }
      }
    }
  }

  // ---- Compare and swap ----

  /** No two entries share a number if the two were stored less than 2^32 - 1 numbers apart, and so
      none do in a run that issues at most that many. */
  lemma {:induction false} LiveNumbersDiffer(states: seq<Store>, events: seq<Event>, n: nat,
                                             vmId: string, key: string, vmId': string, key': string)
    requires IsRun(states, events) && n <= |events|
    requires Live(states[n], vmId, key) && Live(states[n], vmId', key') && (vmId, key) != (vmId', key')
    requires Apart(Latest(events, n, vmId, key), Latest(events, n, vmId', key')) || Issued(events, n) <= U32 - 1
    ensures EntryOf(states[n], vmId, key).1 != EntryOf(states[n], vmId', key').1
  {
    NumberOfEntry(states, events, n, vmId, key);
    NumberOfEntry(states, events, n, vmId', key');
    var i, j := Latest(events, n, vmId, key).value.count, Latest(events, n, vmId', key').value.count;
    StoredInTurn(events, n, vmId, key, vmId', key');
    CloseNumbersDiffer(i, j);
  }

  lemma {:induction false} CloseNumbersDiffer(i: nat, j: nat)
    requires i != j && -(U32 - 1) < i - j < U32 - 1
    ensures Issue(i) != Issue(j)
  {
    SameNumberExactlyIf(if i < j then i else j, if i < j then j else i);
  }

  predicate Apart(x: Option<Stored>, y: Option<Stored>) {
    x.Some? && y.Some? && -(U32 - 1) < x.value.count - y.value.count < U32 - 1
  }

  lemma {:induction false} StoredInTurn(events: seq<Event>, n: nat, vmId: string, key: string, vmId': string, key': string)
    requires n <= |events| && (vmId, key) != (vmId', key')
    requires Latest(events, n, vmId, key).Some? && Latest(events, n, vmId', key').Some?
    ensures Latest(events, n, vmId, key).value.count != Latest(events, n, vmId', key').value.count
  {
    if !Stores(events[n - 1], vmId, key) && !Stores(events[n - 1], vmId', key') {
      StoredInTurn(events, n - 1, vmId, key, vmId', key');
    }
  }

  lemma {:induction false} LatestGrows(events: seq<Event>, i: nat, j: nat, vmId: string, key: string)
    requires i <= j <= |events| && Latest(events, i, vmId, key).Some?
    ensures Issued(events, i) <= Issued(events, j) && Latest(events, j, vmId, key).Some?
    ensures Latest(events, i, vmId, key).value.count <= Latest(events, j, vmId, key).value.count
  {
    if i < j {
      LatestGrows(events, i, j - 1, vmId, key);
    }
  }

  /** Both stores have the same entry. */
  ghost predicate Same(s: Store, s': Store, vmId: string, key: string) {
    Live(s, vmId, key) && Live(s', vmId, key) && EntryOf(s, vmId, key) == EntryOf(s', vmId, key)
  }

  /** From after `i` events to after `j` events the entry is there and stays the same. */
  ghost predicate Unchanged(states: seq<Store>, i: nat, j: nat, vmId: string, key: string) {
    i <= j < |states| && forall k | i <= k <= j :: Same(states[i], states[k], vmId, key)
  }

  lemma {:induction false} UnchangedWithoutStore(states: seq<Store>, events: seq<Event>, i: nat, j: nat,
                                                 vmId: string, key: string)
    requires IsRun(states, events) && i <= j <= |events| && Live(states[j], vmId, key)
    requires Latest(events, i, vmId, key).Some?
    requires Latest(events, j, vmId, key).Some?
    requires Latest(events, i, vmId, key).value.count == Latest(events, j, vmId, key).value.count
    ensures Unchanged(states, i, j, vmId, key)
  {
    if i < j {
      LatestGrows(events, i, j - 1, vmId, key);
      LatestGrows(events, j - 1, j, vmId, key);
      StepOnEntry(states[j - 1], events[j - 1], states[j], vmId, key);
      UnchangedWithoutStore(states, events, i, j - 1, vmId, key);
      UnchangedOneMore(states, i, j, vmId, key);
    }
  }

  lemma {:induction false} UnchangedOneMore(states: seq<Store>, i: nat, j: nat, vmId: string, key: string)
    requires i < j < |states| && Unchanged(states, i, j - 1, vmId, key) && Same(states[j - 1], states[j], vmId, key)
    ensures Unchanged(states, i, j, vmId, key)
  {
    assert Same(states[i], states[j - 1], vmId, key);
  }

  /** How many numbers were issued between the last storing of the entry before event `i` and that
      before event `j`. */
  function Between(events: seq<Event>, i: nat, j: nat, vmId: string, key: string): int
    requires i <= |events| && j <= |events|
  {
    var before, after := Latest(events, i, vmId, key), Latest(events, j, vmId, key);
    if before == None || after == None then 0 else after.value.count - before.value.count
  }

  /** From after `i` events to after `j` events the entry is there, and nobody stores it again. */
  ghost predicate Untouched(states: seq<Store>, events: seq<Event>, i: nat, j: nat, vmId: string, key: string) {
    && i <= j <= |events| < |states|
    && (forall k | i <= k <= j :: Live(states[k], vmId, key))
    && (forall k | i <= k < j :: !Stores(events[k], vmId, key))
  }

  lemma {:induction false} StoredLater(events: seq<Event>, i: nat, k: nat, j: nat, vmId: string, key: string)
    requires i <= k < j <= |events| && Latest(events, i, vmId, key).Some? && Stores(events[k], vmId, key)
    ensures Between(events, i, j, vmId, key) > 0
  {
    LatestGrows(events, i, k, vmId, key);
    LatestGrows(events, k + 1, j, vmId, key);
  }

  lemma {:induction false} NotStored(events: seq<Event>, i: nat, j: nat, vmId: string, key: string)
    requires i <= j <= |events| && forall k | i <= k < j :: !Stores(events[k], vmId, key)
    ensures Latest(events, j, vmId, key) == Latest(events, i, vmId, key)
  {
    if i < j {
      NotStored(events, i, j - 1, vmId, key);
    }
  }

  lemma {:induction false} UntouchedExactlyIf(states: seq<Store>, events: seq<Event>, i: nat, j: nat, vmId: string, key: string)
    requires IsRun(states, events) && i <= j <= |events| && Live(states[i], vmId, key)
    ensures Untouched(states, events, i, j, vmId, key)
       <==> Live(states[j], vmId, key) && Between(events, i, j, vmId, key) == 0
  {
    RunIsRecorded(states, events, i);
    assert EntryRecorded(states[i], events, i, vmId, key);
    LatestGrows(events, i, j, vmId, key);
    if Live(states[j], vmId, key) && Between(events, i, j, vmId, key) == 0 {
      UnchangedWithoutStore(states, events, i, j, vmId, key);
      forall k | i <= k <= j ensures Live(states[k], vmId, key) {
        assert Same(states[i], states[k], vmId, key);
      }
      forall k | i <= k < j ensures !Stores(events[k], vmId, key) {
        if Stores(events[k], vmId, key) {
          StoredLater(events, i, k, j, vmId, key);
        }
      }
    } else if Untouched(states, events, i, j, vmId, key) {
      NotStored(events, i, j, vmId, key);
    }
  }

  /** A number read from an entry matches later on if and only if the entry is gone by then, or was last
      stored a multiple of 2^32 - 1 numbers later. */
  lemma {:induction false} MatchesExactlyIf(states: seq<Store>, events: seq<Event>, i: nat, j: nat, vmId: string, key: string)
    requires IsRun(states, events) && i <= j <= |events| && Live(states[i], vmId, key)
    ensures !Mismatch(states[j], vmId, key, EntryOf(states[i], vmId, key).1)
       <==> !Live(states[j], vmId, key) || Between(events, i, j, vmId, key) % (U32 - 1) == 0
    ensures Live(states[j], vmId, key) ==> Between(events, i, j, vmId, key) >= 0
  {
    NumberOfEntry(states, events, i, vmId, key);
    LatestGrows(events, i, j, vmId, key);
    var m, n := Latest(events, i, vmId, key).value.count, Latest(events, j, vmId, key).value.count;
    SameNumberExactlyIf(m, n);
    if Live(states[j], vmId, key) {
      NumberOfEntry(states, events, j, vmId, key);
    }
  }

  lemma {:induction false} NumberOfEntry(states: seq<Store>, events: seq<Event>, n: nat, vmId: string, key: string)
    requires IsRun(states, events) && n <= |events| && Live(states[n], vmId, key)
    ensures Latest(events, n, vmId, key).Some?
    ensures EntryOf(states[n], vmId, key).1 == Issue(Latest(events, n, vmId, key).value.count) != 0
  {
    RunIsRecorded(states, events, n);
    assert EntryRecorded(states[n], events, n, vmId, key);
    IssuesInOrder(Latest(events, n, vmId, key).value.count);
  }

  /** At most 2^32 - 1 numbers have been issued since the entry got the one it had after `i` events. */
  ghost predicate Recent(events: seq<Event>, i: nat, j: nat, vmId: string, key: string)
    requires i <= j <= |events|
  {
    var stored := Latest(events, i, vmId, key);
    stored.Some? && Issued(events, j) - stored.value.count <= U32 - 1
  }

  lemma {:induction false} RecentMatch(states: seq<Store>, events: seq<Event>, i: nat, j: nat, vmId: string, key: string)
    requires IsRun(states, events) && i <= j <= |events|
    requires Live(states[i], vmId, key) && Live(states[j], vmId, key) && Recent(events, i, j, vmId, key)
    ensures !Mismatch(states[j], vmId, key, EntryOf(states[i], vmId, key).1)
       <==> Untouched(states, events, i, j, vmId, key)
    ensures !Mismatch(states[j], vmId, key, EntryOf(states[i], vmId, key).1) <==> Unchanged(states, i, j, vmId, key)
  {
    MatchesExactlyIf(states, events, i, j, vmId, key);
    UntouchedExactlyIf(states, events, i, j, vmId, key);
    LatestGrows(events, i, j, vmId, key);
    NotAroundYet(Between(events, i, j, vmId, key));
    if Between(events, i, j, vmId, key) == 0 {
      UnchangedWithoutStore(states, events, i, j, vmId, key);
    }
    if Unchanged(states, i, j, vmId, key) {
      UnchangedIsAccepted(states, i, j, vmId, key);
    }
  }

  lemma {:induction false} NotAroundYet(d: nat)
    requires d < U32 - 1
    ensures d % (U32 - 1) == 0 <==> d == 0
  {
  }

  lemma {:induction false} UnchangedIsAccepted(states: seq<Store>, i: nat, j: nat, vmId: string, key: string)
    requires Unchanged(states, i, j, vmId, key) && Live(states[i], vmId, key)
    ensures !Mismatch(states[j], vmId, key, EntryOf(states[i], vmId, key).1)
  {
    assert Same(states[i], states[j], vmId, key);
  }

  lemma {:induction false} FewIssued(events: seq<Event>, n: nat)
    requires n <= |events|
    ensures Issued(events, n) <= n
  {
    if n > 0 {
      FewIssued(events, n - 1);
    }
  }

  // ---- What the events themselves show ----

  /** What a set does, in the fields: an entry that is there under another number than a nonzero one
      expected refuses it and nothing changes; otherwise the value is stored under the counter's value,
      and all other entries stay. */
  lemma {:induction false} SetMeaning(s: Store, s': Store, vmId: string, key: string, value: string, cas: nat,
                                      result: WasmResult)
    requires Step(s, Set(vmId, key, value, cas, result), s')
    ensures vmId in s.data && key in s.data[vmId] && cas != 0 && cas != s.data[vmId][key].1 ==>
              result == CasMismatch && s' == s
    ensures !(vmId in s.data && key in s.data[vmId] && cas != 0 && cas != s.data[vmId][key].1) ==>
              && result == Ok && s'.cas == (if s.cas + 1 >= 0x1_0000_0000 then 1 else s.cas + 1)
              && vmId in s'.data && key in s'.data[vmId] && s'.data[vmId][key] == (value, s.cas)
    ensures OthersStay(s, s', vmId, key)
  {
  }

  /** Every entry but this one is as before. */
  ghost predicate OthersStay(s: Store, s': Store, vmId: string, key: string) {
    forall v, k | (v, k) != (vmId, key) ::
      && (v in s.data && k in s.data[v] <==> v in s'.data && k in s'.data[v])
      && (v in s.data && k in s.data[v] ==> s'.data[v][k] == s.data[v][k])
  }

  /** What a removal does, in the fields. */
  lemma {:induction false} RemoveMeaning(s: Store, s': Store, vmId: string, key: string, cas: nat,
                                         result: WasmResult, removed: Option<Entry>)
    requires Step(s, Remove(vmId, key, cas, result, removed), s')
    ensures !(vmId in s.data && key in s.data[vmId]) ==> result == NotFound && removed == None && s' == s
    ensures vmId in s.data && key in s.data[vmId] && cas != 0 && cas != s.data[vmId][key].1 ==>
              result == CasMismatch && removed == None && s' == s
    ensures vmId in s.data && key in s.data[vmId] && (cas == 0 || cas == s.data[vmId][key].1) ==>
              && result == Ok && removed == Some(s.data[vmId][key]) && s'.cas == s.cas
              && !(vmId in s'.data && key in s'.data[vmId])
    ensures OthersStay(s, s', vmId, key)
  {
  }

  /** What a lookup gives, in the fields. */
  lemma {:induction false} GetMeaning(s: Store, s': Store, vmId: string, key: string, result: WasmResult, entry: Option<Entry>)
    requires Step(s, Get(vmId, key, result, entry), s')
    ensures s' == s
    ensures vmId in s.data && key in s.data[vmId] ==> result == Ok && entry == Some(s.data[vmId][key])
    ensures !(vmId in s.data && key in s.data[vmId]) ==> result == NotFound && entry == None
  {
  }

  /** The entry is there after the first `n` events: it was set, and not removed or deleted since. */
  predicate Present(events: seq<Event>, n: nat, vmId: string, key: string)
    requires n <= |events|
  {
    n > 0 &&
    match events[n - 1]
    case Set(v, k, _, _, result) => (v == vmId && k == key && result == Ok) || Present(events, n - 1, vmId, key)
    case Remove(v, k, _, result, _) => !(v == vmId && k == key && result == Ok) && Present(events, n - 1, vmId, key)
    case DeleteByVmId(v) => v != vmId && Present(events, n - 1, vmId, key)
    case _ => Present(events, n - 1, vmId, key)
  }

  lemma {:induction false} StepPresence(s: Store, e: Event, s': Store, vmId: string, key: string)
    requires Step(s, e, s')
    ensures Live(s', vmId, key)
       <==> match e
            case Set(v, k, _, _, result) => (v == vmId && k == key && result == Ok) || Live(s, vmId, key)
            case Remove(v, k, _, result, _) => !(v == vmId && k == key && result == Ok) && Live(s, vmId, key)
            case DeleteByVmId(v) => v != vmId && Live(s, vmId, key)
            case _ => Live(s, vmId, key)
  {
  }

  lemma {:induction false} LiveExactlyIfPresent(states: seq<Store>, events: seq<Event>, n: nat, vmId: string, key: string)
    requires IsRun(states, events) && n <= |events|
    ensures Live(states[n], vmId, key) <==> Present(events, n, vmId, key)
  {
    if n > 0 {
      LiveExactlyIfPresent(states, events, n - 1, vmId, key);
      StepPresence(states[n - 1], events[n - 1], states[n], vmId, key);
    }
  }

  /** What was stored last, with the number it got, if it is still there. */
  function Current(events: seq<Event>, n: nat, vmId: string, key: string): Option<Entry>
    requires n <= |events|
  {
    if Present(events, n, vmId, key) && Latest(events, n, vmId, key).Some? then
      var stored := Latest(events, n, vmId, key).value;
      Some((stored.value, Issue(stored.count)))
    else None
  }

  lemma {:induction false} EntryIsCurrent(states: seq<Store>, events: seq<Event>, n: nat, vmId: string, key: string)
    requires IsRun(states, events) && n <= |events|
    ensures Current(events, n, vmId, key)
         == if vmId in states[n].data && key in states[n].data[vmId] then Some(states[n].data[vmId][key]) else None
  {
    RunIsRecorded(states, events, n);
    assert EntryRecorded(states[n], events, n, vmId, key);
    LiveExactlyIfPresent(states, events, n, vmId, key);
  }

  /** Every answer follows from the events before it: a get and a removal give what was stored last and is
      still there, a set and a removal are refused exactly for a nonzero number that is not that entry's,
      and the keys are those of the entries there. */
  lemma {:induction false} HistoryDecides(states: seq<Store>, events: seq<Event>, n: nat)
    requires IsRun(states, events) && n < |events|
    ensures match events[n]
            case Set(vmId, key, _, cas, result) =>
              var current := Current(events, n, vmId, key);
              result == if current.Some? && cas != 0 && cas != current.value.1 then CasMismatch else Ok
            case Remove(vmId, key, cas, result, removed) =>
              var current := Current(events, n, vmId, key);
              if current == None then result == NotFound && removed == None
              else if cas != 0 && cas != current.value.1 then result == CasMismatch && removed == None
              else result == Ok && removed == current
            case Get(vmId, key, result, entry) =>
              var current := Current(events, n, vmId, key);
              entry == current && result == if current == None then NotFound else Ok
            case Keys(vmId, keys) => forall key :: key in keys <==> Current(events, n, vmId, key).Some?
            case DeleteByVmId(_) => true
  {
    match events[n] {
      case Set(vmId, key, value, cas, result) =>
        EntryIsCurrent(states, events, n, vmId, key);
        SetMeaning(states[n], states[n + 1], vmId, key, value, cas, result);
      case Remove(vmId, key, cas, result, removed) =>
        EntryIsCurrent(states, events, n, vmId, key);
        RemoveMeaning(states[n], states[n + 1], vmId, key, cas, result, removed);
      case Get(vmId, key, result, entry) =>
        EntryIsCurrent(states, events, n, vmId, key);
        GetMeaning(states[n], states[n + 1], vmId, key, result, entry);
      case Keys(vmId, keys) =>
        forall key ensures key in keys <==> Current(events, n, vmId, key).Some? {
          EntryIsCurrent(states, events, n, vmId, key);
        }
      case DeleteByVmId(_) =>
    }
  }

  // ---- Reading and then setting ----

  /** Event `i` reads the entry, and event `j` sets it under the number that was read. */
  ghost predicate ReadsThenSets(events: seq<Event>, i: nat, j: nat, vmId: string, key: string, read: Entry,
                                value: string, result: WasmResult) {
    i < j < |events| && events[i] == Get(vmId, key, Ok, Some(read)) && events[j] == Set(vmId, key, value, read.1, result)
  }

  lemma {:induction false} ReadIsThere(states: seq<Store>, events: seq<Event>, i: nat, j: nat, vmId: string, key: string,
                                       read: Entry, value: string, result: WasmResult)
    requires IsRun(states, events) && ReadsThenSets(events, i, j, vmId, key, read, value, result)
    ensures Live(states[i], vmId, key) && EntryOf(states[i], vmId, key) == read
    ensures result == if Mismatch(states[j], vmId, key, read.1) then CasMismatch else Ok
    ensures result == CasMismatch ==> states[j + 1] == states[j]
    ensures result == Ok ==> Live(states[j + 1], vmId, key) && EntryOf(states[j + 1], vmId, key).0 == value
    ensures Live(states[j], vmId, key) <==> Present(events, j, vmId, key)
  {
    GetMeaning(states[i], states[i + 1], vmId, key, Ok, Some(read));
    SetMeaning(states[j], states[j + 1], vmId, key, value, read.1, result);
    LiveExactlyIfPresent(states, events, j, vmId, key);
  }

  /** Compare-and-swap, exactly: setting an entry under the number that was read succeeds if and only if
      the entry is gone by then, or was last stored a multiple of 2^32 - 1 numbers after the value read;
      otherwise the answer is CasMismatch and nothing changes. */
  lemma {:induction false} AcceptedExactlyIf(states: seq<Store>, events: seq<Event>, i: nat, j: nat,
                                             vmId: string, key: string, read: Entry, value: string, result: WasmResult)
    requires IsRun(states, events) && ReadsThenSets(events, i, j, vmId, key, read, value, result)
    ensures result == Ok <==> !Present(events, j, vmId, key) || Between(events, i, j, vmId, key) % (U32 - 1) == 0
    ensures result != Ok ==> result == CasMismatch && states[j + 1] == states[j]
  {
    ReadIsThere(states, events, i, j, vmId, key, read, value, result);
    MatchesExactlyIf(states, events, i, j, vmId, key);
  }

  /** An update is lost, that is, the set succeeds although the entry has been touched since it was read,
      exactly if the entry is gone, or was stored again and the numbers have come around in between. */
  lemma {:induction false} UpdateLostExactlyIf(states: seq<Store>, events: seq<Event>, i: nat, j: nat,
                                               vmId: string, key: string, read: Entry, value: string, result: WasmResult)
    requires IsRun(states, events) && ReadsThenSets(events, i, j, vmId, key, read, value, result)
    ensures result == Ok && !Untouched(states, events, i, j, vmId, key)
       <==> !Present(events, j, vmId, key)
            || (Between(events, i, j, vmId, key) > 0 && Between(events, i, j, vmId, key) % (U32 - 1) == 0)
  {
    AcceptedExactlyIf(states, events, i, j, vmId, key, read, value, result);
    ReadIsThere(states, events, i, j, vmId, key, read, value, result);
    MatchesExactlyIf(states, events, i, j, vmId, key);
    UntouchedExactlyIf(states, events, i, j, vmId, key);
  }

  /** No lost updates: as long as the entry is there and not more than 2^32 - 1 numbers have been issued
      since it was stored, the set succeeds exactly if nobody has touched the entry since it was read; and
      then it replaces exactly what was read by the new value. */
  lemma {:induction false} NoLostUpdates(states: seq<Store>, events: seq<Event>, i: nat, j: nat,
                                         vmId: string, key: string, read: Entry, value: string, result: WasmResult)
    requires IsRun(states, events) && ReadsThenSets(events, i, j, vmId, key, read, value, result)
    requires Present(events, j, vmId, key) && Recent(events, i, j, vmId, key)
    ensures result == Ok <==> Untouched(states, events, i, j, vmId, key)
    ensures result == Ok ==> Current(events, j, vmId, key) == Some(read)
    ensures result == Ok ==> Current(events, j + 1, vmId, key).Some? && Current(events, j + 1, vmId, key).value.0 == value
    ensures result != Ok ==> result == CasMismatch && Current(events, j + 1, vmId, key) == Current(events, j, vmId, key)
  {
    ReadIsThere(states, events, i, j, vmId, key, read, value, result);
    RecentMatch(states, events, i, j, vmId, key);
    if result == Ok {
      assert Same(states[i], states[j], vmId, key);
    }
    EntryIsCurrent(states, events, j, vmId, key);
    EntryIsCurrent(states, events, j + 1, vmId, key);
  }

  /** In particular, in a run of fewer than 2^32 events no update of an entry that is there is ever lost. */
  lemma {:induction false} NoLostUpdatesInShortRuns(states: seq<Store>, events: seq<Event>, i: nat, j: nat,
                                                    vmId: string, key: string, read: Entry, value: string, result: WasmResult)
    requires IsRun(states, events) && ReadsThenSets(events, i, j, vmId, key, read, value, result)
    requires |events| < U32 && Present(events, j, vmId, key)
    ensures result == Ok <==> Untouched(states, events, i, j, vmId, key)
    ensures result == Ok ==> Current(events, j, vmId, key) == Some(read)
  {
    FewIssued(events, j);
    ReadIsThere(states, events, i, j, vmId, key, read, value, result);
    RunIsRecorded(states, events, i);
    assert EntryRecorded(states[i], events, i, vmId, key);
    NoLostUpdates(states, events, i, j, vmId, key, read, value, result);
  }

  lemma {:induction false} SamePrefix(events: seq<Event>, e: Event, n: nat, vmId: string, key: string)
    requires n <= |events|
    ensures Issued(events + [e], n) == Issued(events, n)
    ensures Latest(events + [e], n, vmId, key) == Latest(events, n, vmId, key)
    ensures Present(events + [e], n, vmId, key) == Present(events, n, vmId, key)
  {
    if n > 0 {
      SamePrefix(events, e, n - 1, vmId, key);
    }
  }

  lemma {:induction false} RunGoesOn(states: seq<Store>, events: seq<Event>, e: Event, s': Store)
    requires IsRun(states, events) && Step(states[|events|], e, s')
    ensures IsRun(states + [s'], events + [e])
  {
  }

  /** A run that sets one entry, reads it, and then sets another one `n` times. */
  lemma {:induction false} SetOnceThenOthers(n: nat) returns (states: seq<Store>, events: seq<Event>)
    ensures IsRun(states, events) && |events| == n + 2 && Issued(events, n + 2) == n + 1
    ensures events[1] == Get("vm", "a", Ok, Some(("first", 1)))
    ensures Latest(events, 1, "vm", "a") == Some(Stored(0, "first"))
    ensures Present(events, n + 2, "vm", "a")
  {
    if n == 0 {
      var s1 := Changed(INITIAL, "vm", "a", "first", 0).0;
      states, events := [INITIAL, s1, s1], [Set("vm", "a", "first", 0, Ok), Get("vm", "a", Ok, Some(("first", 1)))];
      assert Issued(events, 0) == 0 && Issued(events, 1) == 1 && Present(events, 1, "vm", "a");
    } else {
      states, events := SetOnceThenOthers(n - 1);
      var e := Set("vm", "b", "other", 0, Ok);
      SamePrefix(events, e, n + 1, "vm", "a");
      SamePrefix(events, e, 1, "vm", "a");
      RunGoesOn(states, events, e, Changed(states[n + 1], "vm", "b", "other", 0).0);
      states, events := states + [Changed(states[n + 1], "vm", "b", "other", 0).0], events + [e];
    }
  }

  /** One number more, and an update can be lost: the entry is overwritten, under the number it had
      before, and a set with that number still succeeds. */
  lemma {:induction false} UpdateLostAfterWraparound() returns (states: seq<Store>, events: seq<Event>, i: nat, j: nat)
    ensures IsRun(states, events) && ReadsThenSets(events, i, j, "vm", "a", ("first", 1), "third", Ok)
    ensures events[j - 1] == Set("vm", "a", "second", 0, Ok) && Issued(events, j) == U32
    ensures !Untouched(states, events, i, j, "vm", "a")
  {
    var n := U32 - 2;
    states, events := SetOnceThenOthers(n);
    i, j := 1, n + 3;
    states, events := OverwrittenAndSet(states, events, n + 2);
    assert Stores(events[j - 1], "vm", "a");
  }

  /** Two sets more, the second one under the number 1: it succeeds, as the first one got that number. */
  lemma {:induction false} OverwrittenAndSet(states: seq<Store>, events: seq<Event>, n: nat)
    returns (states': seq<Store>, events': seq<Event>)
    requires IsRun(states, events) && |events| == n && Issued(events, n) == U32 - 1 && Present(events, n, "vm", "a")
    ensures IsRun(states', events') && |events'| == n + 2 && events'[..n] == events && Issued(events', n + 1) == U32
    ensures events'[n] == Set("vm", "a", "second", 0, Ok) && events'[n + 1] == Set("vm", "a", "third", 1, Ok)
  {
    RunIsRecorded(states, events, n);
    SameNumberExactlyIf(0, U32 - 1);
    var e, e' := Set("vm", "a", "second", 0, Ok), Set("vm", "a", "third", 1, Ok);
    var s1 := Changed(states[n], "vm", "a", "second", 0).0;
    assert EntryOf(s1, "vm", "a").1 == 1;
    RunGoesOn(states, events, e, s1);
    SamePrefix(events, e, n, "vm", "a");
    states', events' := states + [s1], events + [e];
    var s2 := Changed(s1, "vm", "a", "third", 1).0;
    RunGoesOn(states', events', e', s2);
    SamePrefix(events', e', n + 1, "vm", "a");
    states', events' := states' + [s2], events' + [e'];
  }

  /** A number is not looked at when the entry is gone: after a removal, a set with the number of
      the removed value stores a value again. */
  lemma {:induction false} RemovedEntryIsSetAgain(s: Store, vmId: string, key: string, value: string)
    returns (s': Store, s2: Store)
    requires vmId in s.data && key in s.data[vmId]
    ensures Step(s, Remove(vmId, key, s.data[vmId][key].1, Ok, Some(s.data[vmId][key])), s')
    ensures Step(s', Set(vmId, key, value, s.data[vmId][key].1, Ok), s2)
    ensures vmId in s2.data && key in s2.data[vmId] && s2.data[vmId][key] == (value, s.cas)
  {
    s' := Removed(s, vmId, key, s.data[vmId][key].1).0;
    s2 := Changed(s', vmId, key, value, s.data[vmId][key].1).0;
  }
}
