/**
 The thread-local cache of Wasm VMs: weak references by VM key, a queue of keys by which stale
 entries are swept out a chunk at a time, and the failure callbacks that evict a broken VM.
 */
module LocalCache {
  import opened Bytes

  /** A VM, by the identity of its handle. A weak reference to it has expired unless the handle is
      among those alive at that time. */
  type Handle(==) = nat

  datatype FailState = Ok | UnableToCreateVm | UnableToCloneVm | MissingFunction | UnableToInitializeCode
    | StartFailed | ConfigureFailed | RuntimeError

  const MAX_LOCAL_CACHE_GC_CHUNK_SIZE := 64

  type Cache = map<string, Handle>

  /** What the thread remembers; `callbacks` are the keys that each VM's failure callbacks erase. */
  datatype Thread = Thread(cache: Cache, keys: seq<string>, callbacks: map<Handle, seq<string>>)

  const INITIAL := Thread(map[], [], map[])

  /** One step of the sweep: the key at the front goes to the back if its entry is alive. */
  function SweepStep(cache: Cache, keys: seq<string>, alive: set<Handle>): (r: (Cache, seq<string>))
    requires keys != []
    ensures |r.1| >= |keys| - 1
  {
    var key := keys[0];
    if key !in cache then (cache, keys[1..])
    else if cache[key] !in alive then (cache - {key}, keys[1..])
    else (cache, keys[1..] + [key])
  }

  function Steps(cache: Cache, keys: seq<string>, alive: set<Handle>, n: nat): (r: (Cache, seq<string>))
    requires n <= |keys|
    ensures |r.1| >= |keys| - n
  {
    if n == 0 then (cache, keys)
    else
      var (cache1, keys1) := Steps(cache, keys, alive, n - 1);
      SweepStep(cache1, keys1, alive)
  }

  function ChunkSize(keys: seq<string>): (n: nat)
    ensures n <= |keys| && n <= MAX_LOCAL_CACHE_GC_CHUNK_SIZE
    ensures n == |keys| || n == MAX_LOCAL_CACHE_GC_CHUNK_SIZE
  {
    if |keys| < MAX_LOCAL_CACHE_GC_CHUNK_SIZE then |keys| else MAX_LOCAL_CACHE_GC_CHUNK_SIZE
  }

  function Sweep(cache: Cache, keys: seq<string>, alive: set<Handle>): (Cache, seq<string>) {
    Steps(cache, keys, alive, ChunkSize(keys))
  }

  /** The VM of a key, if there is one that is alive. */
  function Found(t: Thread, key: string, alive: set<Handle>): Option<Handle> {
    if key in t.cache && t.cache[key] in alive then Some(t.cache[key]) else None
  }

  /** A lookup that finds nothing drops the expired entry and sweeps a chunk. */
  function LookedUp(t: Thread, key: string, alive: set<Handle>): Thread {
    if Found(t, key, alive).Some? then t
    else
      var (cache, keys) := Sweep(t.cache - {key}, t.keys, alive);
      t.(cache := cache, keys := keys)
  }

  function CallbacksOf(t: Thread, h: Handle): seq<string> {
    if h in t.callbacks then t.callbacks[h] else []
  }

  function Cached(t: Thread, key: string, h: Handle): Thread {
    Thread(t.cache[key := h], t.keys + [key], t.callbacks[h := CallbacksOf(t, h) + [key]])
  }

  function Failed(t: Thread, h: Handle, state: FailState): Thread {
    if state == RuntimeError then t.(cache := t.cache - Elements(CallbacksOf(t, h))) else t
  }

  function Elements(keys: seq<string>): set<string> {
    set key | key in keys
  }

  /** What getOrCreateThreadLocalWasm returns; a failure is recorded in the base VM. */
  datatype Outcome = Wasm(handle: Handle) | Null(baseFailure: FailState)

  class LocalWasms {
    var localWasms: Cache
    var localWasmsKeys: seq<string>
    var failCallbacks: map<Handle, seq<string>>
    var failed: map<Handle, FailState>

    ghost function State(): Thread
      reads this
    {
      Thread(localWasms, localWasmsKeys, failCallbacks)
    }

    constructor ()
      ensures State() == INITIAL
    {
      localWasms, localWasmsKeys, failCallbacks, failed := map[], [], map[], map[];
    }

    /** cacheLocalWasm. */
    method CacheLocalWasm(key: string, h: Handle)
      modifies this`localWasms, this`localWasmsKeys
      ensures localWasms == old(localWasms)[key := h] && localWasmsKeys == old(localWasmsKeys) + [key]
    {
      localWasms := localWasms[key := h];
      localWasmsKeys := localWasmsKeys + [key];
    }

    /** removeStaleLocalCacheEntries. */
    method RemoveStale(alive: set<Handle>)
      modifies this`localWasms, this`localWasmsKeys
      ensures (localWasms, localWasmsKeys) == Sweep(old(localWasms), old(localWasmsKeys), alive)
    {
      var numKeysToCheck := if |localWasmsKeys| < MAX_LOCAL_CACHE_GC_CHUNK_SIZE then |localWasmsKeys|
                            else MAX_LOCAL_CACHE_GC_CHUNK_SIZE;
      for i := 0 to numKeysToCheck
        invariant (localWasms, localWasmsKeys) == Steps(old(localWasms), old(localWasmsKeys), alive, i)
      {
        var key := localWasmsKeys[0];
        localWasmsKeys := localWasmsKeys[1..];
        if key !in localWasms {
          continue;
        }
        if localWasms[key] !in alive {
          localWasms := localWasms - {key};
        } else {
          localWasmsKeys := localWasmsKeys + [key];
        }
      }
    }

    /** getThreadLocalWasm. */
    method GetThreadLocalWasm(key: string, alive: set<Handle>) returns (wasm: Option<Handle>)
      modifies this`localWasms, this`localWasmsKeys
      ensures wasm == Found(old(State()), key, alive)
      ensures State() == LookedUp(old(State()), key, alive)
    {
      if key in localWasms {
        if localWasms[key] in alive {
          return Some(localWasms[key]);
        }
        localWasms := localWasms - {key};
      }
      assert localWasms == old(localWasms) - {key};
      RemoveStale(alive);
      wasm := None;
    }

    /** getOrCreateThreadLocalWasm; `clone` is what the factory returns, and `initialized` whether
        its VM then initializes. */
    method GetOrCreateThreadLocalWasm(key: string, alive: set<Handle>, clone: Option<Handle>, initialized: bool)
      returns (outcome: Outcome)
      modifies this`localWasms, this`localWasmsKeys, this`failCallbacks
      ensures outcome == Created(old(State()), key, alive, clone, initialized).0
      ensures State() == Created(old(State()), key, alive, clone, initialized).1
    {
      var existing := GetThreadLocalWasm(key, alive);
      if existing.Some? {
        return Wasm(existing.value);
      }
      if clone == None {
        return Null(UnableToCloneVm);
      }
      if !initialized {
        return Null(UnableToInitializeCode);
      }
      var h := clone.value;
      CacheLocalWasm(key, h);
      AddFailCallback(h, key);
      outcome := Wasm(h);
    }

    /** WasmVm::addFailCallback, with a callback that erases `key`. */
    method AddFailCallback(h: Handle, key: string)
      modifies this`failCallbacks
      ensures failCallbacks == old(failCallbacks)[h := CallbacksOf(old(State()), h) + [key]]
    {
      failCallbacks := failCallbacks[h := (if h in failCallbacks then failCallbacks[h] else []) + [key]];
    }

    /** WasmVm::fail. */
    method Fail(h: Handle, state: FailState)
      modifies this`failed, this`localWasms
      ensures failed == old(failed)[h := state]
      ensures State() == Failed(old(State()), h, state)
    {
      failed := failed[h := state];
      var callbacks := if h in failCallbacks then failCallbacks[h] else [];
      for i := 0 to |callbacks|
        invariant failed == old(failed)[h := state]
        invariant localWasms == if state == RuntimeError then old(localWasms) - Elements(callbacks[..i]) else old(localWasms)
      {
        assert Elements(callbacks[..i + 1]) == Elements(callbacks[..i]) + {callbacks[i]};
        if state == RuntimeError {
          localWasms := localWasms - {callbacks[i]};
        }
      }
      assert callbacks[..|callbacks|] == callbacks;
    }
  }

  function Created(t: Thread, key: string, alive: set<Handle>, clone: Option<Handle>, initialized: bool): (Outcome, Thread) {
    if Found(t, key, alive).Some? then (Wasm(Found(t, key, alive).value), t)
    else
      var t' := LookedUp(t, key, alive);
      if clone == None then (Null(UnableToCloneVm), t')
      else if !initialized then (Null(UnableToInitializeCode), t')
      else (Wasm(clone.value), Cached(t', key, clone.value))
  }

  // ---- The sweep ----

  /** Every key of the cache is in the queue; the queue may hold others, and a key more than once. */
  ghost predicate AllQueued(cache: Cache, keys: seq<string>) {
    forall key | key in cache :: key in keys
  }

  /** Nothing but expired entries is erased. */
  ghost predicate OnlyExpiredErased(cache: Cache, cache': Cache, alive: set<Handle>) {
    && (forall key | key in cache' :: key in cache && cache'[key] == cache[key])
    && (forall key | key in cache && cache[key] in alive :: key in cache')
  }

  lemma {:induction false} StepIsSafe(cache: Cache, keys: seq<string>, alive: set<Handle>)
    requires keys != []
    ensures OnlyExpiredErased(cache, SweepStep(cache, keys, alive).0, alive)
    ensures AllQueued(cache, keys) ==> AllQueued(SweepStep(cache, keys, alive).0, SweepStep(cache, keys, alive).1)
  {
    var (cache', keys') := SweepStep(cache, keys, alive);
    if AllQueued(cache, keys) {
      forall key | key in cache' ensures key in keys' {
        if key != keys[0] {
          assert key in keys[1..];
        } else {
          assert keys'[|keys'| - 1] == key;
        }
      }
    }
  }

  lemma {:induction false} StepsAreSafe(cache: Cache, keys: seq<string>, alive: set<Handle>, n: nat)
    requires n <= |keys|
    ensures OnlyExpiredErased(cache, Steps(cache, keys, alive, n).0, alive)
    ensures AllQueued(cache, keys) ==> AllQueued(Steps(cache, keys, alive, n).0, Steps(cache, keys, alive, n).1)
  {
    if n > 0 {
      StepsAreSafe(cache, keys, alive, n - 1);
      var (cache1, keys1) := Steps(cache, keys, alive, n - 1);
      StepIsSafe(cache1, keys1, alive);
    }
  }

  /** Of the `n` keys that were in the queue at first, `left` are still to be checked. They are at the
      front, and the entries of the others are gone unless they were alive at first. */
  ghost predicate SweptTo(first: Cache, keys0: seq<string>, alive0: set<Handle>, left: nat, cache: Cache, keys: seq<string>) {
    && left <= |keys0| && left <= |keys| && keys[..left] == keys0[|keys0| - left..]
    && (forall key | key in cache :: key in first && cache[key] == first[key])
    && (forall i | 0 <= i < |keys0| - left && keys0[i] in cache :: first[keys0[i]] in alive0)
  }

  lemma {:induction false} SweptStep(first: Cache, keys0: seq<string>, alive0: set<Handle>, left: nat,
                                     cache: Cache, keys: seq<string>, alive: set<Handle>)
    requires SweptTo(first, keys0, alive0, left, cache, keys) && keys != [] && alive <= alive0
    ensures SweptTo(first, keys0, alive0, if left == 0 then 0 else left - 1,
                    SweepStep(cache, keys, alive).0, SweepStep(cache, keys, alive).1)
  {
    if left > 0 {
      var keys' := SweepStep(cache, keys, alive).1;
      assert keys[0] == keys[..left][0] == keys0[|keys0| - left];
      assert keys'[..left - 1] == keys[..left][1..] == keys0[|keys0| - left..][1..];
    }
  }

  lemma {:induction false} SweptSteps(first: Cache, keys0: seq<string>, alive0: set<Handle>, left: nat,
                                      cache: Cache, keys: seq<string>, alive: set<Handle>, n: nat)
    requires SweptTo(first, keys0, alive0, left, cache, keys) && n <= |keys| && alive <= alive0
    ensures SweptTo(first, keys0, alive0, if left <= n then 0 else left - n,
                    Steps(cache, keys, alive, n).0, Steps(cache, keys, alive, n).1)
  {
    if n > 0 {
      SweptSteps(first, keys0, alive0, left, cache, keys, alive, n - 1);
      var (cache1, keys1) := Steps(cache, keys, alive, n - 1);
      SweptStep(first, keys0, alive0, if left <= n - 1 then 0 else left - (n - 1), cache1, keys1, alive);
    }
  }

  /** Consecutive sweeps, each with the handles that are alive then. */
  function Sweeps(cache: Cache, keys: seq<string>, alives: seq<set<Handle>>): (Cache, seq<string>)
    decreases |alives|
  {
    if alives == [] then (cache, keys)
    else
      var (cache1, keys1) := Sweep(cache, keys, alives[0]);
      Sweeps(cache1, keys1, alives[1..])
  }

  /** A handle that has expired stays so. */
  ghost predicate Shrinking(alives: seq<set<Handle>>) {
    forall i, j | 0 <= i <= j < |alives| :: alives[j] <= alives[i]
  }

  lemma {:induction false} SweepsCheckAll(first: Cache, keys0: seq<string>, alive0: set<Handle>, left: nat,
                                          cache: Cache, keys: seq<string>, alives: seq<set<Handle>>)
    requires SweptTo(first, keys0, alive0, left, cache, keys)
    requires left <= MAX_LOCAL_CACHE_GC_CHUNK_SIZE * |alives| && forall i | 0 <= i < |alives| :: alives[i] <= alive0
    ensures SweptTo(first, keys0, alive0, 0, Sweeps(cache, keys, alives).0, Sweeps(cache, keys, alives).1)
    decreases |alives|
  {
    if alives != [] {
      var n := ChunkSize(keys);
      SweptSteps(first, keys0, alive0, left, cache, keys, alives[0], n);
      var (cache1, keys1) := Sweep(cache, keys, alives[0]);
      SweepsCheckAll(first, keys0, alive0, if left <= n then 0 else left - n, cache1, keys1, alives[1..]);
    }
  }

  lemma {:induction false} SweepsKeepAlive(cache: Cache, keys: seq<string>, alives: seq<set<Handle>>, still: set<Handle>)
    requires forall i | 0 <= i < |alives| :: still <= alives[i]
    ensures OnlyExpiredErased(cache, Sweeps(cache, keys, alives).0, still)
    decreases |alives|
  {
    if alives != [] {
      StepsAreSafe(cache, keys, alives[0], ChunkSize(keys));
      var (cache1, keys1) := Sweep(cache, keys, alives[0]);
      SweepsKeepAlive(cache1, keys1, alives[1..], still);
    }
  }

  /** Once as many chunks have been swept as cover the queue, every entry that had expired at first is
      gone and every one still alive at the end is there. */
  lemma {:induction false} SweepsCleanUp(cache: Cache, keys: seq<string>, alives: seq<set<Handle>>)
    requires AllQueued(cache, keys) && Shrinking(alives)
    requires alives != [] && |keys| <= MAX_LOCAL_CACHE_GC_CHUNK_SIZE * |alives|
    ensures forall key | key in Sweeps(cache, keys, alives).0 :: key in cache && cache[key] in alives[0]
    ensures OnlyExpiredErased(cache, Sweeps(cache, keys, alives).0, alives[|alives| - 1])
  {
    SweepsCheckAll(cache, keys, alives[0], |keys|, cache, keys, alives);
    SweepsKeepAlive(cache, keys, alives, alives[|alives| - 1]);
  }

  // ---- Runs of one thread ----

  /** One step of the thread: a lookup by either function, the caching of a new VM, or a failure. */
  datatype Event =
    | LookUp(key: string, alive: set<Handle>, found: Option<Handle>)
    | Create(key: string, handle: Handle)
    | Fail(handle: Handle, state: FailState)

  ghost predicate Step(t: Thread, e: Event, t': Thread) {
    match e
    case LookUp(key, alive, found) => found == Found(t, key, alive) && t' == LookedUp(t, key, alive)
    case Create(key, handle) => t' == Cached(t, key, handle)
    case Fail(handle, state) => t' == Failed(t, handle, state)
  }

  /** A run of the thread. While a VM is being created, other steps may come in between. */
  ghost predicate IsRun(states: seq<Thread>, events: seq<Event>) {
    && |states| == |events| + 1 && states[0] == INITIAL
    && forall i {:trigger events[i]} | 0 <= i < |events| :: Step(states[i], events[i], states[i + 1])
  }

  /** Each entry is queued for sweeping, and the failure of its VM will erase it. */
  ghost predicate Valid(t: Thread) {
    AllQueued(t.cache, t.keys) && forall key | key in t.cache :: key in CallbacksOf(t, t.cache[key])
  }

  lemma {:induction false} StepKeepsValid(t: Thread, e: Event, t': Thread)
    requires Valid(t) && Step(t, e, t')
    ensures Valid(t')
  {
    match e {
      case LookUp(key, alive, _) =>
        StepsAreSafe(t.cache - {key}, t.keys, alive, ChunkSize(t.keys));
      case Create(key, h) =>
        assert CallbacksOf(t', h)[|CallbacksOf(t, h)|] == key;
        assert t'.keys[|t.keys|] == key;
      case Fail(_, _) =>
    }
  }

  lemma {:induction false} RunStaysValid(states: seq<Thread>, events: seq<Event>, n: nat)
    requires IsRun(states, events) && n <= |events|
    ensures Valid(states[n])
  {
    if n > 0 {
      RunStaysValid(states, events, n - 1);
      StepKeepsValid(states[n - 1], events[n - 1], states[n]);
    }
  }

  /** When the key was last cached, among the first `n` events. */
  function LastCreated(events: seq<Event>, n: nat, key: string): (r: Option<nat>)
    requires n <= |events|
    ensures r.Some? ==> r.value < n && events[r.value].Create? && events[r.value].key == key
  {
    if n == 0 then None
    else if events[n - 1].Create? && events[n - 1].key == key then Some(n - 1)
    else LastCreated(events, n - 1, key)
  }

  /** Events i..n hold no runtime error of the VM. */
  ghost predicate NoRuntimeError(events: seq<Event>, i: nat, n: nat, h: Handle) {
    forall k | i <= k < n <= |events| :: events[k] != Fail(h, RuntimeError)
  }

  /** A step leaves an entry as it is, puts it there, or removes it. A runtime error removes it. */
  lemma {:induction false} StepOnEntry(t: Thread, e: Event, t': Thread, key: string)
    requires Valid(t) && Step(t, e, t') && key in t'.cache
    ensures if e.Create? && e.key == key then t'.cache[key] == e.handle
            else key in t.cache && t'.cache[key] == t.cache[key] && e != Fail(t.cache[key], RuntimeError)
  {
    if e.LookUp? {
      StepsAreSafe(t.cache - {e.key}, t.keys, e.alive, ChunkSize(t.keys));
    }
  }

  /** In every reachable state an entry, expired or not, is of the VM that was cached last for the
      key, and that VM has had no runtime error since. */
  lemma {:induction false} EntriesHaveNotFailed(states: seq<Thread>, events: seq<Event>, n: nat, key: string)
    requires IsRun(states, events) && n <= |events| && key in states[n].cache
    ensures LastCreated(events, n, key).Some?
    ensures states[n].cache[key] == events[LastCreated(events, n, key).value].handle
    ensures NoRuntimeError(events, LastCreated(events, n, key).value, n, states[n].cache[key])
  {
    RunStaysValid(states, events, n - 1);
    StepOnEntry(states[n - 1], events[n - 1], states[n], key);
    if !(events[n - 1].Create? && events[n - 1].key == key) {
      EntriesHaveNotFailed(states, events, n - 1, key);
    }
  }

  /** So no lookup hands out a VM that has trapped since it was cached. */
  lemma {:induction false} LookupsFindSoundVms(states: seq<Thread>, events: seq<Event>, n: nat)
    requires IsRun(states, events) && n < |events| && events[n].LookUp? && events[n].found.Some?
    ensures LastCreated(events, n, events[n].key).Some?
    ensures NoRuntimeError(events, LastCreated(events, n, events[n].key).value, n, events[n].found.value)
  {
    EntriesHaveNotFailed(states, events, n, events[n].key);
  }

  /** Which live entries a step removes: a lookup none, and a failure exactly those whose keys the
      failing VM has callbacks for. */
  lemma {:induction false} LiveEntriesRemoved(t: Thread, e: Event, t': Thread, key: string)
    requires Step(t, e, t') && key in t.cache && (e.LookUp? ==> t.cache[key] in e.alive)
    ensures key !in t'.cache <==> e.Fail? && e.state == RuntimeError && key in CallbacksOf(t, e.handle)
  {
    if e.LookUp? {
      StepsAreSafe(t.cache - {e.key}, t.keys, e.alive, ChunkSize(t.keys));
    }
  }

  /** That can be another VM's entry: one that replaced a broken VM is erased with it when the
      broken VM, still held elsewhere, fails again. */
  lemma {:induction false} SecondFailureEvictsReplacement(key: string) returns (states: seq<Thread>, events: seq<Event>)
    ensures IsRun(states, events) && |events| == 4
    ensures key in states[3].cache && states[3].cache[key] == 2 && events[3] == Fail(1, RuntimeError)
    ensures NoRuntimeError(events, 0, 4, 2) && key !in states[4].cache
  {
    events := [Create(key, 1), Fail(1, RuntimeError), Create(key, 2), Fail(1, RuntimeError)];
    var s1 := Cached(INITIAL, key, 1);
    var s2 := Failed(s1, 1, RuntimeError);
    var s3 := Cached(s2, key, 2);
    states := [INITIAL, s1, s2, s3, Failed(s3, 1, RuntimeError)];
    assert CallbacksOf(s3, 1) == [key];
  }

  // ---- What the steps do, in the fields ----

  /** After `n` steps of a sweep the first `n` keys have been checked: of these, and only of these, the
      expired entries are gone, and those with live entries are in the queue again, at its end. */
  ghost predicate Checked(cache: Cache, keys: seq<string>, alive: set<Handle>, n: nat, cache': Cache, keys': seq<string>)
    requires n <= |keys|
  {
    && keys[n..] <= keys'
    && (forall k | |keys| - n <= k < |keys'| :: keys'[k] in keys[..n] && keys'[k] in cache && cache[keys'[k]] in alive)
    && (forall k | k in cache' :: k in cache && cache'[k] == cache[k])
    && (forall k | k in cache :: k in cache' <==> k !in keys[..n] || cache[k] in alive)
  }

  lemma {:induction false} StepsCheck(cache: Cache, keys: seq<string>, alive: set<Handle>, n: nat)
    requires n <= |keys|
    ensures Checked(cache, keys, alive, n, Steps(cache, keys, alive, n).0, Steps(cache, keys, alive, n).1)
  {
    if n > 0 {
      StepsCheck(cache, keys, alive, n - 1);
      var (cache1, keys1) := Steps(cache, keys, alive, n - 1);
      OneMoreChecked(cache, keys, alive, n, cache1, keys1);
    } else {
      assert keys[0..] == keys;
    }
  }

  lemma {:induction false} OneMoreChecked(cache: Cache, keys: seq<string>, alive: set<Handle>, n: nat,
                                          cache1: Cache, keys1: seq<string>)
    requires 0 < n <= |keys| && Checked(cache, keys, alive, n - 1, cache1, keys1)
    ensures keys1 != []
    ensures Checked(cache, keys, alive, n, SweepStep(cache1, keys1, alive).0, SweepStep(cache1, keys1, alive).1)
  {
    assert keys1[0] == keys[n - 1..][0] == keys[n - 1];
    assert keys[..n] == keys[..n - 1] + [keys[n - 1]];
    assert keys[n - 1..][1..] == keys[n..];
  }

  /** A lookup: a live entry is found and nothing changes. Otherwise the key's entry is gone, and the first
      64 keys of the queue, or as many as there are, have been checked. */
  lemma {:induction false} LookUpMeaning(t: Thread, t': Thread, key: string, alive: set<Handle>, found: Option<Handle>)
    requires Step(t, LookUp(key, alive, found), t')
    ensures key in t.cache && t.cache[key] in alive ==> found == Some(t.cache[key]) && t' == t
    ensures !(key in t.cache && t.cache[key] in alive) ==>
              && found == None && key !in t'.cache && t'.callbacks == t.callbacks
              && Checked(t.cache - {key}, t.keys, alive, if |t.keys| < 64 then |t.keys| else 64, t'.cache, t'.keys)
  {
    StepsCheck(t.cache - {key}, t.keys, alive, ChunkSize(t.keys));
  }

  /** Caching: the key has the VM, is queued, and will be erased by the VM's failure; all else stays. */
  lemma {:induction false} CreateMeaning(t: Thread, t': Thread, key: string, h: Handle)
    requires Step(t, Create(key, h), t')
    ensures t'.cache == t.cache[key := h] && t'.keys == t.keys + [key]
    ensures h in t'.callbacks && t'.callbacks[h] == (if h in t.callbacks then t.callbacks[h] else []) + [key]
    ensures forall x | x != h :: (x in t.callbacks <==> x in t'.callbacks) && (x in t.callbacks ==> t'.callbacks[x] == t.callbacks[x])
  {
  }

  /** A failure: a runtime error erases the entries of exactly the keys that the VM has callbacks for, and
      no other failure changes anything. */
  lemma {:induction false} FailMeaning(t: Thread, t': Thread, h: Handle, state: FailState)
    requires Step(t, Fail(h, state), t')
    ensures state != RuntimeError ==> t' == t
    ensures t'.keys == t.keys && t'.callbacks == t.callbacks
    ensures state == RuntimeError ==>
              forall k :: k in t'.cache <==> k in t.cache && !(h in t.callbacks && k in t.callbacks[h])
    ensures forall k | k in t'.cache :: k in t.cache && t'.cache[k] == t.cache[k]
  {
  }

  /** getOrCreateThreadLocalWasm in the steps of a run: a lookup, whose VM is returned if there is one; and
      otherwise, if the VM can be cloned and initialized, the caching of the clone, which is returned. */
  lemma {:induction false} CreatedInSteps(t: Thread, key: string, alive: set<Handle>, clone: Option<Handle>,
                                          initialized: bool)
    returns (found: Option<Handle>, mid: Thread)
    ensures Step(t, LookUp(key, alive, found), mid)
    ensures var (outcome, t') := Created(t, key, alive, clone, initialized);
            if found.Some? then outcome == Wasm(found.value) && t' == mid
            else if clone == None then outcome == Null(UnableToCloneVm) && t' == mid
            else if !initialized then outcome == Null(UnableToInitializeCode) && t' == mid
            else outcome == Wasm(clone.value) && Step(mid, Create(key, clone.value), t')
  {
    found, mid := Found(t, key, alive), LookedUp(t, key, alive);
  }

  /** So a VM that it creates is in the cache, and a runtime error of that VM takes it out again. */
  lemma {:induction false} CreatedIsEvicted(t: Thread, key: string, alive: set<Handle>, h: Handle, t': Thread, t2: Thread)
    requires !(key in t.cache && t.cache[key] in alive)
    requires Created(t, key, alive, Some(h), true) == (Wasm(h), t') && Step(t', Fail(h, RuntimeError), t2)
    ensures key in t'.cache && t'.cache[key] == h && key in t'.keys
    ensures h in t'.callbacks && key in t'.callbacks[h]
    ensures key !in t2.cache
  {
    var found, mid := CreatedInSteps(t, key, alive, Some(h), true);
    LookUpMeaning(t, mid, key, alive, found);
    CreateMeaning(mid, t', key, h);
    assert t'.callbacks[h][|t'.callbacks[h]| - 1] == key;
    assert t'.keys[|t'.keys| - 1] == key;
    FailMeaning(t', t2, h, RuntimeError);
  }
}
