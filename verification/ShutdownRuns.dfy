/**
 Runs of the shutdown machine: what becomes of every root context, and exactly which runs keep to
 that. Which ones do can be told from the calls alone, by a plain bookkeeping that knows nothing of
 queued actions and nested calls.
 */
module ShutdownRuns {
  import opened Bytes
  import opened Shutdown

  // ---- Which calls are quiet ----

  /** The contexts that wait for their done() call. */
  type Waiting = map<Key, Context>

  /** Those that a call with these done() calls moves, and those that it leaves. */
  function Hits(waiting: Waiting, keys: seq<Key>): set<Key> {
    set k | k in keys && k in waiting
  }

  function Minus(waiting: Waiting, keys: seq<Key>): Waiting {
    map k | k in waiting && k !in keys :: waiting[k]
  }

  /** The same for a call that may not be made at all. */
  function Left(waiting: Waiting, calls: Option<seq<Key>>): Waiting {
    if calls == None then waiting else Minus(waiting, calls.value)
  }

  /** If the deletion of this context enters the VM, the call makes done() calls for no other waiting
      context, and neither does the deletion. */
  predicate Alone(waiting: Waiting, keys: seq<Key>, k: Key)
    requires k in waiting
  {
    waiting[k].onDelete.Some? ==>
      Hits(waiting, keys) == {k} && Hits(waiting, waiting[k].onDelete.value) <= {k}
  }

  /** Each waiting context that the call makes a done() call for is alone. */
  predicate QuietCall(waiting: Waiting, calls: Option<seq<Key>>) {
    calls.Some? ==> forall k | k in Hits(waiting, calls.value) :: Alone(waiting, calls.value, k)
  }

  lemma {:induction false} FirstKey(waiting: Waiting, keys: seq<Key>)
    requires keys != []
    ensures keys[0] in waiting ==>
              && keys[0] !in Hits(waiting - {keys[0]}, keys[1..])
              && Hits(waiting, keys) == Hits(waiting - {keys[0]}, keys[1..]) + {keys[0]}
              && Minus(waiting, keys) == Minus(waiting - {keys[0]}, keys[1..])
    ensures keys[0] !in waiting ==>
              Hits(waiting, keys) == Hits(waiting, keys[1..]) && Minus(waiting, keys) == Minus(waiting, keys[1..])
  {
    assert forall k :: k in keys <==> k == keys[0] || k in keys[1..];
  }

  /** What a sequence of done() calls does. */
  lemma {:induction false} DoneCallsMove(s: State, keys: seq<Key>)
    ensures DoneCalls(s, keys).pendingDone == Minus(s.pendingDone, keys)
    ensures DoneCalls(s, keys).actions == s.actions + |Hits(s.pendingDone, keys)|
    decreases |keys|
  {
    if keys != [] {
      FirstKey(s.pendingDone, keys);
      DoneCallsMove(DoneCalled(s, keys[0]), keys[1..]);
    }
  }

  /** The context waits under one of the keys. */
  ghost predicate Hit(waiting: Waiting, keys: seq<Key>, c: Context) {
    exists k :: k in Hits(waiting, keys) && waiting[k] == c
  }

  lemma {:induction false} DoneCallsQueue(s: State, keys: seq<Key>, c: Context)
    ensures c in DoneCalls(s, keys).pendingDelete <==> c in s.pendingDelete || Hit(s.pendingDone, keys, c)
    decreases |keys|
  {
    if keys != [] {
      FirstKey(s.pendingDone, keys);
      var k0 := keys[0];
      DoneCallsQueue(DoneCalled(s, k0), keys[1..], c);
      if k0 in s.pendingDone {
        CountInserted(s.pendingDelete, s.pendingDone[k0], c);
        assert Hit(s.pendingDone, keys, c) <==> s.pendingDone[k0] == c || Hit(s.pendingDone - {k0}, keys[1..], c);
      }
    }
  }

  lemma {:induction false} OneOnly(hits: set<Key>, k: Key)
    requires k in hits
    ensures |hits| == 1 <==> hits == {k}
  {
    if |hits| == 1 {
      assert |hits - {k}| == 0;
    }
  }

  lemma {:induction false} NoneLeft(waiting: Waiting, keys: seq<Key>, k: Key, calls: seq<Key>)
    requires Hits(waiting, keys) == {k}
    ensures (forall l | l in calls :: l !in Minus(waiting, keys)) <==> Hits(waiting, calls) <= {k}
  {
    assert k in keys;
    forall l | l in calls
      ensures l !in Minus(waiting, keys) <==> (l in Hits(waiting, calls) ==> l in {k})
    {
      if l in waiting && l in keys {
        assert l in Hits(waiting, keys);
      }
    }
  }

  /** After the done() calls the deletion of a context that they moved is quiet exactly if the context
      is alone. */
  lemma {:induction false} QuietAfterCalls(s: State, waiting: Waiting, keys: seq<Key>, k: Key)
    requires k in Hits(waiting, keys)
    requires s.pendingDone == Minus(waiting, keys) && s.actions == |Hits(waiting, keys)| - 1
    ensures Quiet(s, waiting[k]) <==> Alone(waiting, keys, k)
  {
    var c := waiting[k];
    OneOnly(Hits(waiting, keys), k);
    if c.onDelete.Some? && s.actions == 0 {
      NoneLeft(waiting, keys, k, c.onDelete.value);
    }
  }

  /** Whether all deletions due after the done() calls are quiet. */
  lemma {:induction false} AllQuietExactlyIf(s: State, keys: seq<Key>, s2: State)
    requires Idle(s) && DoneCalls(s, keys).actions > 0
    requires s2 == DoneCalls(s, keys).(actions := DoneCalls(s, keys).actions - 1)
    ensures (exists c :: c in s2.pendingDelete && !Quiet(s2, c)) <==> !QuietCall(s.pendingDone, Some(keys))
  {
    var waiting := s.pendingDone;
    DoneCallsMove(s, keys);
    if c :| c in s2.pendingDelete && !Quiet(s2, c) {
      DoneCallsQueue(s, keys, c);
      var k :| k in Hits(waiting, keys) && waiting[k] == c;
      QuietAfterCalls(s2, waiting, keys, k);
    }
    if k :| k in Hits(waiting, keys) && !Alone(waiting, keys, k) {
      DoneCallsQueue(s, keys, waiting[k]);
      assert Hit(waiting, keys, waiting[k]);
      QuietAfterCalls(s2, waiting, keys, k);
    }
  }

  /** A call into the VM leaves an iterator dangling exactly if it is not quiet, as one can tell from
      the contexts that wait before it. If it is quiet, it deletes what its done() calls moved, once
      each. */
  lemma {:induction false} VmCallOnceExactlyIf(s: State, calls: Option<seq<Key>>)
    requires Idle(s) && !s.dangling
    ensures VmCalled(s, calls).dangling <==> !QuietCall(s.pendingDone, calls)
    ensures QuietCall(s.pendingDone, calls) ==>
              && VmCalled(s, calls).pendingDone == Left(s.pendingDone, calls)
              && VmCalled(s, calls).deleted == s.deleted + (if calls == None then [] else DoneCalls(s, calls.value).pendingDelete)
  {
    if calls.Some? {
      var keys := calls.value;
      var s1 := DoneCalls(s, keys);
      DoneCallsMove(s, keys);
      DoneCallsOnlyTake(s, keys);
      if s1.actions > 0 {
        var s2 := s1.(actions := s1.actions - 1);
        VmCallFinishes(s, keys);
        FinishedOnceExactlyIf(s2);
        AllQuietExactlyIf(s, keys, s2);
        if QuietCall(s.pendingDone, calls) {
          QuietFinish(s2);
        }
      }
    }
  }

  /** Shutting the context down makes two calls at most, of which each must be quiet. */
  predicate QuietShutDown(waiting: Waiting, c: Context) {
    QuietCall(waiting, c.onDone) && (AtOnce(c) ==> QuietCall(Left(waiting, c.onDone), c.onDelete))
  }

  function WaitingAfter(waiting: Waiting, key: Key, c: Context): Waiting {
    var w := Left(waiting, c.onDone);
    if AtOnce(c) then Left(w, c.onDelete) else w[key := c]
  }

  /** The same for startShutdown. */
  lemma {:induction false} ShutDownOnceExactlyIf(s: State, key: Key)
    requires Idle(s) && !s.dangling && key in s.roots
    ensures ShutDown(s, key).dangling <==> !QuietShutDown(s.pendingDone, s.roots[key])
    ensures QuietShutDown(s.pendingDone, s.roots[key]) ==>
              ShutDown(s, key).pendingDone == WaitingAfter(s.pendingDone, key, s.roots[key])
  {
    var c := s.roots[key];
    var s1 := VmCalled(s, c.onDone);
    var s2 := s1.(deleted := s1.deleted + [c]);
    ShutDownParts(s, key, c, s1, s2);
    VmCallOnceExactlyIf(s, c.onDone);
    VmCallStaysIdle(s, c.onDone);
    VmCallOnlyForward(s2, c.onDelete);
    if !s1.dangling {
      VmCallOnceExactlyIf(s2, c.onDelete);
    }
  }

  lemma {:induction false} ShutDownParts(s: State, key: Key, c: Context, s1: State, s2: State)
    requires key in s.roots && s.roots[key] == c
    requires s1 == VmCalled(s, c.onDone) && s2 == s1.(deleted := s1.deleted + [c])
    ensures ShutDown(s, key).dangling == if AtOnce(c) then VmCalled(s2, c.onDelete).dangling else s1.dangling
    ensures ShutDown(s, key).pendingDone
         == if AtOnce(c) then VmCalled(s2, c.onDelete).pendingDone else s1.pendingDone[key := c]
  {
  }

  /** A context is destroyed without onDelete exactly if the one that is shut down does not finish at
      once while another one of the same key waits for done() and gets none during onDone. */
  lemma {:induction false} LostExactlyIf(s: State, key: Key)
    requires Idle(s) && !s.dangling && key in s.roots && QuietCall(s.pendingDone, s.roots[key].onDone)
    ensures ShutDown(s, key).lost != s.lost
       <==> s.roots[key].onDone.Some? && !s.roots[key].doneAtOnce && key in Left(s.pendingDone, s.roots[key].onDone)
    ensures key in Left(s.pendingDone, s.roots[key].onDone) && s.roots[key].onDone.Some? && !s.roots[key].doneAtOnce ==>
              ShutDown(s, key).lost == s.lost + [s.pendingDone[key]]
  {
    LostAfterOnDone(s, key);
    VmCallOnceExactlyIf(s, s.roots[key].onDone);
  }

  /** Whatever the VM does: it is so exactly if the other one still waits after onDone, and never if
      none waited before. */
  lemma {:induction false} LostAfterOnDone(s: State, key: Key)
    requires key in s.roots
    ensures ShutDown(s, key).lost
         == if s.roots[key].onDone.Some? && !s.roots[key].doneAtOnce && key in VmCalled(s, s.roots[key].onDone).pendingDone
            then s.lost + [VmCalled(s, s.roots[key].onDone).pendingDone[key]]
            else s.lost
    ensures key !in s.pendingDone ==> ShutDown(s, key).lost == s.lost
  {
    var c := s.roots[key];
    var s1 := VmCalled(s, c.onDone);
    VmCallOnlyForward(s, c.onDone);
    VmCallOnlyForward(s1.(deleted := s1.deleted + [c]), c.onDelete);
  }

  // ---- Runs ----

  /** One call from outside: start(), a call into the VM, and the two forms of startShutdown. */
  datatype Event =
    | Start(context: Context, calls: seq<Key>)
    | CallVm(calls: seq<Key>)
    | StartShutdown(key: Key)
    | StartShutdownAll(order: seq<Key>)

  function After(s: State, e: Event): State {
    match e
    case Start(c, calls) => Started(s, c, calls)
    case CallVm(calls) => VmCalled(s, Some(calls))
    case StartShutdown(key) => ShutDown(s, key)
    case StartShutdownAll(order) => AllShutDown(s, order)
  }

  function Run(events: seq<Event>, n: nat): State
    requires n <= |events|
  {
    if n == 0 then INITIAL else After(Run(events, n - 1), events[n - 1])
  }

  /** The event makes the context a root. */
  predicate Creates(s: State, e: Event, c: Context) {
    e.Start? && e.context == c && c.key !in s.roots
  }

  /** How often the context has become a root. */
  function Creations(events: seq<Event>, n: nat, c: Context): nat
    requires n <= |events|
  {
    if n == 0 then 0
    else Creations(events, n - 1, c) + (if Creates(Run(events, n - 1), events[n - 1], c) then 1 else 0)
  }

  /** Unless an iterator is left dangling, the event makes at most one context of its own a root and
      conserves all others. */
  lemma {:induction false} EventConserves(s: State, e: Event, c: Context)
    requires Settled(s)
    ensures Settled(After(s, e)) && Conserves(s, After(s, e), c, if Creates(s, e, c) then 1 else 0)
  {
    match e {
      case Start(x, calls) => StartConserves(s, x, calls, c);
      case CallVm(calls) => VmCallConserves(s, Some(calls), c);
      case StartShutdown(key) => ShutDownConserves(s, key, c);
      case StartShutdownAll(order) => AllShutDownConserves(s, order, c);
    }
  }

  ghost predicate Conserves(s: State, s': State, c: Context, created: int) {
    !s'.dangling ==>
      && !s.dangling && Times(s', c) == Times(s, c) + created
      && (!AtOnce(c) ==> Surplus(s', c) == Surplus(s, c))
  }

  lemma {:induction false} StartConserves(s: State, x: Context, calls: seq<Key>, c: Context)
    requires Settled(s)
    ensures Settled(Started(s, x, calls))
    ensures Conserves(s, Started(s, x, calls), c, if x == c && c.key !in s.roots then 1 else 0)
  {
    var s1 := if x.key in s.roots then s else s.(roots := s.roots[x.key := x]);
    VmCallConserves(s1, Some(calls), c);
  }

  lemma {:induction false} RunBalances(events: seq<Event>, n: nat, c: Context)
    requires n <= |events|
    ensures Settled(Run(events, n))
    ensures !Run(events, n).dangling ==>
              && Times(Run(events, n), c) == Creations(events, n, c)
              && (!AtOnce(c) ==> Surplus(Run(events, n), c) == 0)
  {
    if n > 0 {
      RunBalances(events, n - 1, c);
      EventConserves(Run(events, n - 1), events[n - 1], c);
    }
  }

  // ---- Which runs are quiet ----

  /** The roots and the waiting contexts, as they are if every call is quiet. */
  datatype Book = Book(roots: map<Key, Context>, waiting: Waiting)

  function BookedShutDown(book: Book, key: Key): Book {
    if key !in book.roots then book
    else Book(book.roots - {key}, WaitingAfter(book.waiting, key, book.roots[key]))
  }

  function BookedShutDowns(book: Book, order: seq<Key>): Book {
    if order == [] then book
    else BookedShutDown(BookedShutDowns(book, order[..|order| - 1]), order[|order| - 1])
  }

  function Booked(book: Book, e: Event): Book {
    match e
    case Start(c, calls) =>
      Book(if c.key in book.roots then book.roots else book.roots[c.key := c], Minus(book.waiting, calls))
    case CallVm(calls) => Book(book.roots, Minus(book.waiting, calls))
    case StartShutdown(key) => BookedShutDown(book, key)
    case StartShutdownAll(order) => BookedShutDowns(book, order)
  }

  predicate QuietShutDowns(book: Book, order: seq<Key>) {
    order != [] ==>
      && QuietShutDowns(book, order[..|order| - 1])
      && QuietStep(BookedShutDowns(book, order[..|order| - 1]), order[|order| - 1])
  }

  predicate QuietEvent(book: Book, e: Event) {
    match e
    case Start(_, calls) => QuietCall(book.waiting, Some(calls))
    case CallVm(calls) => QuietCall(book.waiting, Some(calls))
    case StartShutdown(key) => QuietStep(book, key)
    case StartShutdownAll(order) => QuietShutDowns(book, order)
  }

  function BookOf(events: seq<Event>, n: nat): Book
    requires n <= |events|
  {
    if n == 0 then Book(map[], map[]) else Booked(BookOf(events, n - 1), events[n - 1])
  }

  predicate QuietRun(events: seq<Event>, n: nat)
    requires n <= |events|
  {
    n > 0 ==> QuietRun(events, n - 1) && QuietEvent(BookOf(events, n - 1), events[n - 1])
  }

  /** The state agrees with the book. */
  ghost predicate Agrees(s: State, book: Book) {
    Idle(s) && s.roots == book.roots && s.pendingDone == book.waiting
  }

  lemma {:induction false} StartAgrees(s: State, book: Book, c: Context, calls: seq<Key>)
    requires Agrees(s, book) && !s.dangling
    ensures Started(s, c, calls).dangling <==> !QuietCall(book.waiting, Some(calls))
    ensures QuietCall(book.waiting, Some(calls)) ==> Agrees(Started(s, c, calls), Booked(book, Start(c, calls)))
  {
    var s1 := if c.key in s.roots then s else s.(roots := s.roots[c.key := c]);
    VmCallOnceExactlyIf(s1, Some(calls));
    VmCallStaysIdle(s1, Some(calls));
    VmCalledKeepsRoots(s1, Some(calls));
  }

  lemma {:induction false} CallAgrees(s: State, book: Book, calls: seq<Key>)
    requires Agrees(s, book) && !s.dangling
    ensures VmCalled(s, Some(calls)).dangling <==> !QuietCall(book.waiting, Some(calls))
    ensures QuietCall(book.waiting, Some(calls)) ==> Agrees(VmCalled(s, Some(calls)), Booked(book, CallVm(calls)))
  {
    VmCallOnceExactlyIf(s, Some(calls));
    VmCallStaysIdle(s, Some(calls));
    VmCalledKeepsRoots(s, Some(calls));
  }

  /** Shutting the plugin's context down, if it has one, is quiet. */
  predicate QuietStep(book: Book, key: Key) {
    key in book.roots ==> QuietShutDown(book.waiting, book.roots[key])
  }

  lemma {:induction false} ShutDownAgrees(s: State, book: Book, key: Key)
    requires Agrees(s, book) && !s.dangling
    ensures ShutDown(s, key).dangling <==> !QuietStep(book, key)
    ensures QuietStep(book, key) ==> Agrees(ShutDown(s, key), BookedShutDown(book, key))
  {
    if key in s.roots {
      ShutDownOnceExactlyIf(s, key);
      ShutDownStaysIdle(s, key);
      KeepsRoots(s, key);
    }
  }

  lemma {:induction false} ShutDownsAgree(s: State, book: Book, order: seq<Key>)
    requires Agrees(s, book) && !s.dangling
    ensures AllShutDown(s, order).dangling <==> !QuietShutDowns(book, order)
    ensures QuietShutDowns(book, order) ==> Agrees(AllShutDown(s, order), BookedShutDowns(book, order))
  {
    if order != [] {
      var before, key := order[..|order| - 1], order[|order| - 1];
      ShutDownsAgree(s, book, before);
      ShutDownOnlyForward(AllShutDown(s, before), key);
      if !AllShutDown(s, before).dangling {
        ShutDownAgrees(AllShutDown(s, before), BookedShutDowns(book, before), key);
      }
    }
  }

  lemma {:induction false} ShutDownOnlyForward(s: State, key: Key)
    ensures s.dangling ==> ShutDown(s, key).dangling
  {
    if key in s.roots {
      var c := s.roots[key];
      var s1 := VmCalled(s, c.onDone);
      VmCallOnlyForward(s, c.onDone);
      VmCallOnlyForward(s1.(deleted := s1.deleted + [c]), c.onDelete);
    }
  }

  lemma {:induction false} AllOnlyForward(s: State, order: seq<Key>)
    ensures s.dangling ==> AllShutDown(s, order).dangling
  {
    if order != [] {
      AllOnlyForward(s, order[..|order| - 1]);
      ShutDownOnlyForward(AllShutDown(s, order[..|order| - 1]), order[|order| - 1]);
    }
  }

  lemma {:induction false} EventOnlyForward(s: State, e: Event)
    ensures s.dangling ==> After(s, e).dangling
  {
    match e {
      case Start(c, calls) =>
        VmCallOnlyForward(if c.key in s.roots then s else s.(roots := s.roots[c.key := c]), Some(calls));
      case CallVm(calls) => VmCallOnlyForward(s, Some(calls));
      case StartShutdown(key) => ShutDownOnlyForward(s, key);
      case StartShutdownAll(order) => AllOnlyForward(s, order);
    }
  }

  lemma {:induction false} EventAgrees(s: State, book: Book, e: Event)
    requires Agrees(s, book) && !s.dangling
    ensures After(s, e).dangling <==> !QuietEvent(book, e)
    ensures QuietEvent(book, e) ==> Agrees(After(s, e), Booked(book, e))
  {
    match e {
      case Start(c, calls) => StartAgrees(s, book, c, calls);
      case CallVm(calls) => CallAgrees(s, book, calls);
      case StartShutdown(key) => ShutDownAgrees(s, book, key);
      case StartShutdownAll(order) => ShutDownsAgree(s, book, order);
    }
  }

  /** No iterator is left dangling in a run exactly if every call in it is quiet by the book; and then
      the roots and the waiting contexts are those in the book. */
  lemma {:induction false} SoundExactlyIfQuiet(events: seq<Event>, n: nat)
    requires n <= |events|
    ensures Run(events, n).dangling <==> !QuietRun(events, n)
    ensures QuietRun(events, n) ==> Agrees(Run(events, n), BookOf(events, n))
  {
    if n > 0 {
      SoundExactlyIfQuiet(events, n - 1);
      EventOnlyForward(Run(events, n - 1), events[n - 1]);
      if QuietRun(events, n - 1) {
        EventAgrees(Run(events, n - 1), BookOf(events, n - 1), events[n - 1]);
      }
    }
  }

  // ---- What becomes of a context ----

  /** In a quiet run a context is, over all the places, as often as it has been created; and if it had
      to wait, it has been moved by done() as often as it has been given its onDelete call. */
  lemma {:induction false} RunConserves(events: seq<Event>, n: nat, c: Context)
    requires n <= |events| && QuietRun(events, n)
    ensures Times(Run(events, n), c) == Creations(events, n, c)
    ensures c.onDone.Some? && !c.doneAtOnce ==> Count(Run(events, n).moved, c) == Count(Run(events, n).deleted, c)
  {
    SoundExactlyIfQuiet(events, n);
    RunBalances(events, n, c);
  }

  /** In a quiet run, of a context that was created once: if it finishes at once, it is still a root or
      has had its onDelete call exactly once. If not, it is still a root, or waits for done(), or has
      had its onDelete call exactly once after done() moved it, or was lost when another context of its
      key was shut down. It is in one of these places only. */
  lemma {:induction false} DeletedExactlyOnce(events: seq<Event>, n: nat, c: Context)
    requires n <= |events| && QuietRun(events, n) && Creations(events, n, c) == 1
    ensures Count(Run(events, n).deleted, c) <= 1
    ensures c.onDone == None || c.doneAtOnce ==>
              (Count(Run(events, n).deleted, c) == 1 <==> c !in Run(events, n).roots.Values)
    ensures c.onDone.Some? && !c.doneAtOnce ==>
              (Count(Run(events, n).deleted, c) == 1 <==> !Elsewhere(Run(events, n), c))
              && Count(Run(events, n).moved, c) == Count(Run(events, n).deleted, c)
  {
    var s := Run(events, n);
    RunConserves(events, n, c);
    RunBalances(events, n, c);
    RunIsIdle(events, n);
    InOnePlace(s, c);
  }

  lemma {:induction false} InOnePlace(s: State, c: Context)
    requires Settled(s) && Idle(s) && Times(s, c) == 1
    ensures Count(s.deleted, c) <= 1
    ensures Count(s.deleted, c) == 1 <==> !Elsewhere(s, c)
    ensures c.onDone == None || c.doneAtOnce ==> (Elsewhere(s, c) <==> c in s.roots.Values)
  {
    HeldIsIn(s.roots, c);
    HeldIsIn(s.pendingDone, c);
    assert AtOnce(c) <==> c.onDone == None || c.doneAtOnce;
  }

  /** The context is a root, waits for done(), or has been lost. */
  ghost predicate Elsewhere(s: State, c: Context) {
    c in s.roots.Values || c in s.pendingDone.Values || c in s.lost
  }

  lemma {:induction false} HeldIsIn(m: map<Key, Context>, c: Context)
    requires forall k | k in m :: m[k].key == k
    ensures Held(m, c) == 1 <==> c in m.Values
  {
  }

  lemma {:induction false} RunIsIdle(events: seq<Event>, n: nat)
    requires n <= |events|
    ensures Idle(Run(events, n))
  {
    if n > 0 {
      RunIsIdle(events, n - 1);
      EventStaysIdle(Run(events, n - 1), events[n - 1]);
    }
  }

  lemma {:induction false} EventStaysIdle(s: State, e: Event)
    requires Idle(s)
    ensures Idle(After(s, e))
  {
    match e {
      case Start(c, calls) => VmCallStaysIdle(if c.key in s.roots then s else s.(roots := s.roots[c.key := c]), Some(calls));
      case CallVm(calls) => VmCallStaysIdle(s, Some(calls));
      case StartShutdown(key) => ShutDownStaysIdle(s, key);
      case StartShutdownAll(order) => AllStayIdle(s, order);
    }
  }
}
