/**
 The deferred shutdown of a WasmBase: its root contexts, those waiting for their done() call and
 those waiting for their deletion, and the re-entrant calls by which contexts move between them.
 */
module Shutdown {
  import opened Bytes

  /** A plugin key. */
  type Key = string

  /** A root context, with what its callbacks will do. `onDone` and `onDelete` list the keys that the
      VM calls done() for while it handles the callback, None if the callback does not enter the VM;
      `doneAtOnce` is what the VM answers to onDone. `slot` is where the hash table puts it. */
  datatype Context = Context(id: nat, key: Key, slot: nat, doneAtOnce: bool,
                             onDone: Option<seq<Key>>, onDelete: Option<seq<Key>>)

  /** What onDone returns. */
  predicate AtOnce(c: Context) {
    c.onDone == None || c.doneAtOnce
  }

  /** The fields of the object, and what has become of its contexts: which were given their onDelete
      call, which were moved by done(), which were destroyed without a call, and whether an iterator
      was used after its element was gone. `actions` counts the queued calls of finishShutdown. */
  datatype State = State(roots: map<Key, Context>, pendingDone: map<Key, Context>, pendingDelete: seq<Context>,
                         actions: nat, deleted: seq<Context>, moved: seq<Context>, lost: seq<Context>, dangling: bool)

  const INITIAL := State(map[], map[], [], 0, [], [], [], false)

  /** Bounds the work that is left to do. */
  function Weight(s: State): nat {
    3 * |s.pendingDone| + s.actions + |s.pendingDelete|
  }

  function Inserted(contexts: seq<Context>, c: Context): (r: seq<Context>)
    ensures |r| == |contexts| + 1
  {
    if c.slot < |contexts| then contexts[..c.slot] + [c] + contexts[c.slot..] else contexts + [c]
  }

  /** done(): the context moves on, and its deletion is put off until after the VM call. */
  function DoneCalled(s: State, key: Key): (r: State)
    ensures Weight(r) <= Weight(s)
  {
    if key !in s.pendingDone then s
    else
      var c := s.pendingDone[key];
      s.(pendingDone := s.pendingDone - {key}, pendingDelete := Inserted(s.pendingDelete, c),
         actions := s.actions + 1, moved := s.moved + [c])
  }

  function DoneCalls(s: State, keys: seq<Key>): (r: State)
    ensures Weight(r) <= Weight(s) && r.actions >= s.actions && (r.actions == s.actions ==> r == s)
    decreases |keys|
  {
    if keys == [] then s else DoneCalls(DoneCalled(s, keys[0]), keys[1..])
  }

  /** After a VM call: the queued actions are carried out until none is left. */
  function Drained(s: State): (r: State)
    ensures s.actions == 0 ==> r == s
    ensures s.actions > 0 ==> Weight(r) < Weight(s) && r.pendingDelete == []
    ensures r.actions == 0
    decreases Weight(s), 0
  {
    if s.actions == 0 then s else Drained(Finished(s.(actions := s.actions - 1)))
  }

  /** finishShutdown() */
  function Finished(s: State): (r: State)
    ensures Weight(r) <= Weight(s) && r.pendingDelete == []
    decreases Weight(s), 3
  {
    if s.pendingDelete == [] then s else Finished(Erased(OnDeleted(s, s.pendingDelete[0]), s.pendingDelete[0]))
  }

  /** onDelete(), with the VM call it makes and the actions after that. */
  function OnDeleted(s: State, c: Context): (r: State)
    ensures Weight(r) <= Weight(s)
    ensures (r.pendingDelete == s.pendingDelete && r.actions == s.actions) || (r.pendingDelete == [] && Weight(r) < Weight(s))
    decreases Weight(s), 2
  {
    VmCalled(s.(deleted := s.deleted + [c]), c.onDelete)
  }

  /** A call into the VM that makes these done() calls, if it is made at all. */
  function VmCalled(s: State, calls: Option<seq<Key>>): (r: State)
    ensures Weight(r) <= Weight(s)
    ensures (r.pendingDelete == s.pendingDelete && r.actions == s.actions) || (r.pendingDelete == [] && Weight(r) < Weight(s))
    decreases Weight(s), 1
  {
    if calls == None then s else Drained(DoneCalls(s, calls.value))
  }

  /** The element that the loop of finishShutdown has just handled is erased, if it is still there. */
  function Erased(s: State, c: Context): State {
    if s.pendingDelete != [] && s.pendingDelete[0] == c then s.(pendingDelete := s.pendingDelete[1..])
    else s.(dangling := true)
  }

  /** startShutdown for one plugin. An old context of the same key that still waits for its done()
      call is destroyed by the assignment. */
  function ShutDown(s: State, key: Key): State {
    if key !in s.roots then s
    else
      var c := s.roots[key];
      var s1 := VmCalled(s, c.onDone);
      var s2 := if AtOnce(c) then OnDeleted(s1, c) else Awaiting(s1, key, c);
      s2.(roots := s2.roots - {key})
  }

  function Awaiting(s: State, key: Key, c: Context): State {
    var lost := if key in s.pendingDone then s.lost + [s.pendingDone[key]] else s.lost;
    s.(pendingDone := s.pendingDone[key := c], lost := lost)
  }

  function AllShutDown(s: State, order: seq<Key>): State {
    if order == [] then s else ShutDown(AllShutDown(s, order[..|order| - 1]), order[|order| - 1])
  }

  /** start(): a new context unless the plugin has one, and in either case its onStart, in which the VM
      makes these done() calls. */
  function Started(s: State, c: Context, calls: seq<Key>): State {
    VmCalled(if c.key in s.roots then s else s.(roots := s.roots[c.key := c]), Some(calls))
  }

  class WasmBase {
    var rootContexts: map<Key, Context>
    var pendingDone: map<Key, Context>
    var pendingDelete: seq<Context>
    var afterVmCallActions: nat
    var deleted: seq<Context>
    var moved: seq<Context>
    var lost: seq<Context>
    var dangling: bool

    function Fields(): State
      reads this
    {
      State(rootContexts, pendingDone, pendingDelete, afterVmCallActions, deleted, moved, lost, dangling)
    }

    constructor ()
      ensures Fields() == INITIAL
    {
      rootContexts, pendingDone, pendingDelete, afterVmCallActions := map[], map[], [], 0;
      deleted, moved, lost, dangling := [], [], [], false;
    }

    /** WasmBase::start; `accepts` is what onStart answers. A new context that refuses is not returned,
        but stays among the roots. */
    method Start(c: Context, calls: seq<Key>, accepts: bool) returns (root: Option<Context>)
      modifies this
      ensures Fields() == Started(old(Fields()), c, calls)
      ensures root == if c.key in old(rootContexts) then Some(old(rootContexts)[c.key])
                      else if accepts then Some(c)
                      else None
    {
      if c.key in rootContexts {
        root := Some(rootContexts[c.key]);
        CallVm(Some(calls));
      } else {
        rootContexts := rootContexts[c.key := c];
        CallVm(Some(calls));
        root := if accepts then Some(c) else None;
      }
    }

    /** WasmBase::done, which calls no onDelete. */
    method Done(key: Key) returns (found: bool)
      modifies this
      ensures found == (key in old(pendingDone)) && deleted == old(deleted)
      ensures Fields() == DoneCalled(old(Fields()), key)
    {
      if key !in pendingDone {
        return false;
      }
      var c := pendingDone[key];
      pendingDelete := Inserted(pendingDelete, c);
      pendingDone := pendingDone - {key};
      moved := moved + [c];
      afterVmCallActions := afterVmCallActions + 1;
      found := true;
    }

    /** A call into the VM, which makes these done() calls, and the deferred actions after it. */
    method CallVm(calls: Option<seq<Key>>)
      modifies this
      ensures Fields() == VmCalled(old(Fields()), calls)
      decreases Weight(Fields()), 1
    {
      if calls.Some? {
        ghost var all := DoneCalls(Fields(), calls.value);
        assert calls.value[0..] == calls.value;
        for i := 0 to |calls.value|
          invariant DoneCalls(Fields(), calls.value[i..]) == all && Weight(Fields()) <= Weight(old(Fields()))
        {
          assert calls.value[i..][1..] == calls.value[i + 1..];
          var found := Done(calls.value[i]);
        }
        DoAfterVmCallActions();
      }
    }

    /** WasmBase::doAfterVmCallActions. */
    method DoAfterVmCallActions()
      modifies this
      ensures Fields() == Drained(old(Fields()))
      decreases Weight(Fields()), 0
    {
      ghost var goal := Drained(Fields());
      while afterVmCallActions > 0
        invariant Drained(Fields()) == goal && Weight(Fields()) <= Weight(old(Fields()))
        decreases Weight(Fields())
      {
        DrainedOnce(Fields());
        afterVmCallActions := afterVmCallActions - 1;
        FinishShutdown();
      }
    }

    /** WasmBase::finishShutdown. */
    method FinishShutdown()
      modifies this
      ensures Fields() == Finished(old(Fields()))
      decreases Weight(Fields()), 3
    {
      while pendingDelete != []
        invariant Finished(Fields()) == Finished(old(Fields())) && Weight(Fields()) <= Weight(old(Fields()))
        decreases Weight(Fields())
      {
        var c := pendingDelete[0];
        OnDelete(c);
        if pendingDelete != [] && pendingDelete[0] == c {
          pendingDelete := pendingDelete[1..];
        } else {
          dangling := true;
        }
      }
    }

    /** ContextBase::onDelete. */
    method OnDelete(c: Context)
      modifies this
      ensures Fields() == OnDeleted(old(Fields()), c)
      decreases Weight(Fields()), 2
    {
      deleted := deleted + [c];
      CallVm(c.onDelete);
    }

    /** ContextBase::onDone. */
    method OnDone(c: Context) returns (atOnce: bool)
      modifies this
      ensures Fields() == VmCalled(old(Fields()), c.onDone)
      ensures atOnce <==> c.onDone == None || c.doneAtOnce
    {
      CallVm(c.onDone);
      atOnce := c.onDone == None || c.doneAtOnce;
    }

    /** WasmBase::startShutdown for one plugin. */
    method StartShutdown(key: Key)
      modifies this
      ensures Fields() == ShutDown(old(Fields()), key)
    {
      if key in rootContexts {
        var c := rootContexts[key];
        var atOnce := OnDone(c);
        if atOnce {
          OnDelete(c);
        } else {
          if key in pendingDone {
            lost := lost + [pendingDone[key]];
          }
          pendingDone := pendingDone[key := c];
        }
        rootContexts := rootContexts - {key};
      }
    }

    /** WasmBase::startShutdown for all plugins, in some order. */
    method StartShutdownAll() returns (ghost order: seq<Key>)
      modifies this
      ensures Fields() == AllShutDown(old(Fields()), order)
      ensures EachOnce(order, {}, old(rootContexts).Keys) && rootContexts == map[]
    {
      order := [];
      ghost var left := rootContexts.Keys;
      while rootContexts.Keys != {}
        invariant Fields() == AllShutDown(old(Fields()), order) && left == rootContexts.Keys
        invariant EachOnce(order, left, old(rootContexts).Keys)
        decreases left
      {
        var key :| key in rootContexts;
        OnceMore(order, left, old(rootContexts).Keys, key);
        KeepsRoots(Fields(), key);
        StartShutdown(key);
        OneMoreShutDown(old(Fields()), order, key);
        left, order := left - {key}, order + [key];
      }
    }
  }

  lemma {:induction false} DrainedOnce(s: State)
    requires s.actions > 0
    ensures Drained(s) == Drained(Finished(s.(actions := s.actions - 1)))
  {
  }

  /** Each key of `all` is either in `left` or on the list, on which no key is twice. */
  ghost predicate EachOnce(order: seq<Key>, left: set<Key>, all: set<Key>) {
    && (forall key :: key in all <==> key in order || key in left)
    && (forall key | key in order :: key !in left)
    && (forall i, j | 0 <= i < j < |order| :: order[i] != order[j])
  }

  lemma {:induction false} OnceMore(order: seq<Key>, left: set<Key>, all: set<Key>, key: Key)
    requires EachOnce(order, left, all) && key in left
    ensures EachOnce(order + [key], left - {key}, all)
  {
  }

  // ---- What stays as it is ----

  lemma {:induction false} DoneCallsKeepRoots(s: State, keys: seq<Key>)
    ensures DoneCalls(s, keys).roots == s.roots
    decreases |keys|
  {
    if keys != [] {
      DoneCallsKeepRoots(DoneCalled(s, keys[0]), keys[1..]);
    }
  }

  lemma {:induction false} DrainedKeepsRoots(s: State)
    ensures Drained(s).roots == s.roots
    decreases Weight(s), 0
  {
    if s.actions > 0 {
      var s1 := s.(actions := s.actions - 1);
      FinishedKeepsRoots(s1);
      DrainedKeepsRoots(Finished(s1));
    }
  }

  lemma {:induction false} FinishedKeepsRoots(s: State)
    ensures Finished(s).roots == s.roots
    decreases Weight(s), 3
  {
    if s.pendingDelete != [] {
      var c := s.pendingDelete[0];
      VmCalledKeepsRoots(s.(deleted := s.deleted + [c]), c.onDelete);
      FinishedKeepsRoots(Erased(OnDeleted(s, c), c));
    }
  }

  lemma {:induction false} VmCalledKeepsRoots(s: State, calls: Option<seq<Key>>)
    ensures VmCalled(s, calls).roots == s.roots
    decreases Weight(s), 1
  {
    if calls.Some? {
      DoneCallsKeepRoots(s, calls.value);
      DrainedKeepsRoots(DoneCalls(s, calls.value));
    }
  }

  lemma {:induction false} KeepsRoots(s: State, key: Key)
    ensures ShutDown(s, key).roots == s.roots - {key}
  {
    if key in s.roots {
      var c := s.roots[key];
      var s1 := VmCalled(s, c.onDone);
      VmCalledKeepsRoots(s, c.onDone);
      VmCalledKeepsRoots(s1.(deleted := s1.deleted + [c]), c.onDelete);
    }
  }

  lemma {:induction false} OneMoreShutDown(s: State, order: seq<Key>, key: Key)
    ensures AllShutDown(s, order + [key]) == ShutDown(AllShutDown(s, order), key)
  {
    assert (order + [key])[..|order|] == order;
  }

  // ---- Conservation ----

  ghost function Count(contexts: seq<Context>, c: Context): nat {
    multiset(contexts)[c]
  }

  ghost function Held(m: map<Key, Context>, c: Context): nat {
    if c.key in m && m[c.key] == c then 1 else 0
  }

  /** In how many places a context is: among the roots, waiting for done(), waiting for its deletion,
      destroyed without onDelete, or given an onDelete call, each call counted. */
  ghost function Times(s: State, c: Context): nat {
    Held(s.roots, c) + Held(s.pendingDone, c) + Count(s.pendingDelete, c) + Count(s.lost, c) + Count(s.deleted, c)
  }

  /** How often done() has moved the context, beyond its onDelete calls made and still to be made. */
  ghost function Surplus(s: State, c: Context): int {
    Count(s.moved, c) - Count(s.pendingDelete, c) - Count(s.deleted, c)
  }

  /** The contexts are stored under their own keys, and only those that did not finish at once wait or
      are lost. */
  ghost predicate Settled(s: State) {
    && (forall k | k in s.roots :: s.roots[k].key == k)
    && (forall k | k in s.pendingDone :: s.pendingDone[k].key == k && !AtOnce(s.pendingDone[k]))
    && (forall c | c in s.pendingDelete :: !AtOnce(c))
    && (forall c | c in s.lost :: !AtOnce(c))
  }

  /** Unless an iterator has been left dangling, the context is in `more` places more, and moved by
      done() as often as before but for them. */
  ghost predicate Conserved(s: State, s': State, c: Context, more: int) {
    !s'.dangling ==>
      && !s.dangling && Times(s', c) == Times(s, c) + more
      && (!AtOnce(c) ==> Surplus(s', c) == Surplus(s, c) - more)
  }

  ghost function One(x: Context, c: Context): int {
    if x == c then 1 else 0
  }

  lemma {:induction false} CountInserted(contexts: seq<Context>, x: Context, c: Context)
    ensures Count(Inserted(contexts, x), c) == Count(contexts, c) + One(x, c)
    ensures forall y :: y in Inserted(contexts, x) <==> y == x || y in contexts
  {
    if x.slot < |contexts| {
      assert contexts == contexts[..x.slot] + contexts[x.slot..];
    }
  }

  lemma {:induction false} DoneConserves(s: State, key: Key, c: Context)
    requires Settled(s)
    ensures Settled(DoneCalled(s, key)) && Conserved(s, DoneCalled(s, key), c, 0)
  {
    if key in s.pendingDone {
      CountInserted(s.pendingDelete, s.pendingDone[key], c);
    }
  }

  lemma {:induction false} DoneCallsConserve(s: State, keys: seq<Key>, c: Context)
    requires Settled(s)
    ensures Settled(DoneCalls(s, keys)) && Conserved(s, DoneCalls(s, keys), c, 0)
    decreases |keys|
  {
    if keys != [] {
      DoneConserves(s, keys[0], c);
      DoneCallsConserve(DoneCalled(s, keys[0]), keys[1..], c);
    }
  }

  lemma {:induction false} ConservedTwice(s: State, s1: State, s2: State, c: Context, x: int, y: int)
    requires Conserved(s, s1, c, x) && Conserved(s1, s2, c, y)
    ensures Conserved(s, s2, c, x + y)
  {
  }

  lemma {:induction false} OneActionLess(s: State, c: Context)
    requires s.actions > 0
    ensures Settled(s) ==> Settled(s.(actions := s.actions - 1))
    ensures Conserved(s, s.(actions := s.actions - 1), c, 0)
  {
  }

  lemma {:induction false} DrainedConserves(s: State, c: Context)
    requires Settled(s)
    ensures Settled(Drained(s)) && Conserved(s, Drained(s), c, 0)
    decreases Weight(s), 0
  {
    if s.actions > 0 {
      var s1 := s.(actions := s.actions - 1);
      DrainedOnce(s);
      OneActionLess(s, c);
      FinishedConserves(s1, c);
      DrainedConserves(Finished(s1), c);
      ConservedTwice(s, s1, Finished(s1), c, 0, 0);
      ConservedTwice(s, Finished(s1), Drained(s), c, 0, 0);
    }
  }

  lemma {:induction false} VmCallConserves(s: State, calls: Option<seq<Key>>, c: Context)
    requires Settled(s)
    ensures Settled(VmCalled(s, calls)) && Conserved(s, VmCalled(s, calls), c, 0)
    decreases Weight(s), 1
  {
    if calls.Some? {
      DoneCallsConserve(s, calls.value, c);
      DrainedConserves(DoneCalls(s, calls.value), c);
    }
  }

  /** onDelete adds the call that it is. */
  lemma {:induction false} OnDeleteAddsOne(s: State, x: Context, c: Context)
    requires Settled(s)
    ensures Settled(OnDeleted(s, x)) && Conserved(s, OnDeleted(s, x), c, One(x, c))
    decreases Weight(s), 2
  {
    VmCallConserves(s.(deleted := s.deleted + [x]), x.onDelete, c);
  }

  lemma {:induction false} EraseTakesOne(s: State, x: Context, c: Context)
    requires Settled(s)
    ensures Settled(Erased(s, x)) && Conserved(s, Erased(s, x), c, -One(x, c))
  {
    if s.pendingDelete != [] && s.pendingDelete[0] == x {
      assert s.pendingDelete == [x] + s.pendingDelete[1..];
    }
  }

  lemma {:induction false} FinishedConserves(s: State, c: Context)
    requires Settled(s)
    ensures Settled(Finished(s)) && Conserved(s, Finished(s), c, 0)
    decreases Weight(s), 3
  {
    if s.pendingDelete != [] {
      var x := s.pendingDelete[0];
      OnDeleteAddsOne(s, x, c);
      EraseTakesOne(OnDeleted(s, x), x, c);
      FinishedConserves(Erased(OnDeleted(s, x), x), c);
    }
  }

  lemma {:induction false} RootTaken(s: State, key: Key, x: Context, c: Context)
    requires Settled(s) && key in s.roots && s.roots[key] == x
    ensures Settled(s.(roots := s.roots - {key}))
    ensures Times(s.(roots := s.roots - {key}), c) == Times(s, c) - One(x, c)
  {
  }

  lemma {:induction false} AwaitingAddsOne(s: State, key: Key, x: Context, c: Context)
    requires Settled(s) && x.key == key && !AtOnce(x)
    ensures Settled(Awaiting(s, key, x)) && Times(Awaiting(s, key, x), c) == Times(s, c) + One(x, c)
  {
  }

  lemma {:induction false} ShutDownConserves(s: State, key: Key, c: Context)
    requires Settled(s)
    ensures Settled(ShutDown(s, key)) && Conserved(s, ShutDown(s, key), c, 0)
  {
    if key in s.roots {
      var x := s.roots[key];
      var s1 := VmCalled(s, x.onDone);
      VmCallConserves(s, x.onDone, c);
      VmCalledKeepsRoots(s, x.onDone);
      if AtOnce(x) {
        FinishedAtOnce(s1, key, x, c);
      } else {
        AwaitingAddsOne(s1, key, x, c);
        RootTaken(Awaiting(s1, key, x), key, x, c);
      }
    }
  }

  lemma {:induction false} FinishedAtOnce(s: State, key: Key, x: Context, c: Context)
    requires Settled(s) && key in s.roots && s.roots[key] == x && AtOnce(x)
    ensures var s' := OnDeleted(s, x); Settled(s'.(roots := s'.roots - {key})) && Conserved(s, s'.(roots := s'.roots - {key}), c, 0)
  {
    OnDeleteAddsOne(s, x, c);
    VmCalledKeepsRoots(s.(deleted := s.deleted + [x]), x.onDelete);
    RootTaken(OnDeleted(s, x), key, x, c);
  }

  lemma {:induction false} AllShutDownConserves(s: State, order: seq<Key>, c: Context)
    requires Settled(s)
    ensures Settled(AllShutDown(s, order)) && Conserved(s, AllShutDown(s, order), c, 0)
  {
    if order != [] {
      AllShutDownConserves(s, order[..|order| - 1], c);
      ShutDownConserves(AllShutDown(s, order[..|order| - 1]), order[|order| - 1], c);
    }
  }

  // ---- When contexts are lost, and when onDelete is called twice ----

  lemma {:induction false} DoneCallsOnlyTake(s: State, keys: seq<Key>)
    ensures Subset(DoneCalls(s, keys).pendingDone, s.pendingDone) && DoneCalls(s, keys).lost == s.lost
    ensures DoneCalls(s, keys).deleted == s.deleted && DoneCalls(s, keys).dangling == s.dangling
    ensures forall c | c in s.pendingDelete :: c in DoneCalls(s, keys).pendingDelete
    decreases |keys|
  {
    if keys != [] {
      if keys[0] in s.pendingDone {
        CountInserted(s.pendingDelete, s.pendingDone[keys[0]], s.pendingDone[keys[0]]);
      }
      DoneCallsOnlyTake(DoneCalled(s, keys[0]), keys[1..]);
    }
  }

  /** What calls into the VM, and the deletions after them, never do: they let no context wait for
      done() anew, lose none, and take back neither an onDelete call nor a dangling iterator. */
  ghost predicate OnlyForward(s: State, s': State) {
    Subset(s'.pendingDone, s.pendingDone) && s'.lost == s.lost && s.deleted <= s'.deleted && (s.dangling ==> s'.dangling)
  }

  ghost predicate Subset(m: map<Key, Context>, n: map<Key, Context>) {
    forall k | k in m :: k in n && m[k] == n[k]
  }

  lemma {:induction false} DrainedOnlyForward(s: State)
    ensures OnlyForward(s, Drained(s))
    decreases Weight(s), 0
  {
    if s.actions > 0 {
      var s1 := s.(actions := s.actions - 1);
      FinishedOnlyForward(s1);
      DrainedOnlyForward(Finished(s1));
    }
  }

  lemma {:induction false} VmCallOnlyForward(s: State, calls: Option<seq<Key>>)
    ensures OnlyForward(s, VmCalled(s, calls))
    decreases Weight(s), 1
  {
    if calls.Some? {
      DoneCallsOnlyTake(s, calls.value);
      DrainedOnlyForward(DoneCalls(s, calls.value));
    }
  }

  lemma {:induction false} FinishedOnlyForward(s: State)
    ensures OnlyForward(s, Finished(s))
    ensures s.pendingDelete != [] ==> s.deleted + [s.pendingDelete[0]] <= Finished(s).deleted
    decreases Weight(s), 3
  {
    if s.pendingDelete != [] {
      var c := s.pendingDelete[0];
      VmCallOnlyForward(s.(deleted := s.deleted + [c]), c.onDelete);
      FinishedOnlyForward(Erased(OnDeleted(s, c), c));
    }
  }

  /** Deleting the context starts no second finishShutdown inside the first: it does not enter the
      VM, or no action is queued and none of its done() calls finds a context. */
  predicate Quiet(s: State, c: Context) {
    c.onDelete == None || (s.actions == 0 && forall key | key in c.onDelete.value :: key !in s.pendingDone)
  }

  lemma {:induction false} FruitlessCalls(s: State, keys: seq<Key>)
    ensures DoneCalls(s, keys) == s <==> forall key | key in keys :: key !in s.pendingDone
    ensures DoneCalls(s, keys) != s ==> DoneCalls(s, keys).actions > s.actions
    decreases |keys|
  {
    if keys != [] {
      FruitlessCalls(s, keys[1..]);
      if keys[0] in s.pendingDone {
        var s1 := DoneCalled(s, keys[0]);
        assert DoneCalls(s1, keys[1..]).actions >= s1.actions == s.actions + 1;
      }
    }
  }

  lemma {:induction false} QuietDeletion(s: State, c: Context)
    requires s.pendingDelete != [] && s.pendingDelete[0] == c && Quiet(s, c)
    ensures Erased(OnDeleted(s, c), c) == s.(deleted := s.deleted + [c], pendingDelete := s.pendingDelete[1..])
  {
    if c.onDelete.Some? {
      FruitlessCalls(s.(deleted := s.deleted + [c]), c.onDelete.value);
    }
  }

  /** If all deletions are quiet, finishShutdown makes each call once, in order. */
  lemma {:induction false} QuietFinish(s: State)
    requires forall c | c in s.pendingDelete :: Quiet(s, c)
    ensures Finished(s) == s.(deleted := s.deleted + s.pendingDelete, pendingDelete := [])
    decreases |s.pendingDelete|
  {
    if s.pendingDelete == [] {
      assert s.deleted + [] == s.deleted;
    } else {
      var c, rest := s.pendingDelete[0], s.pendingDelete[1..];
      var s1 := s.(deleted := s.deleted + [c], pendingDelete := rest);
      QuietFirst(s, c, rest, s1);
      QuietFinish(s1);
      SameCalls(s, c, rest, s1);
    }
  }

  lemma {:induction false} SameCalls(s: State, c: Context, rest: seq<Context>, s1: State)
    requires s.pendingDelete == [c] + rest && s1 == s.(deleted := s.deleted + [c], pendingDelete := rest)
    ensures s1.(deleted := s1.deleted + rest, pendingDelete := [])
         == s.(deleted := s.deleted + s.pendingDelete, pendingDelete := [])
  {
    assert s.deleted + s.pendingDelete == s.deleted + [c] + rest;
  }

  lemma {:induction false} QuietFirst(s: State, c: Context, rest: seq<Context>, s1: State)
    requires s.pendingDelete == [c] + rest && s1 == s.(deleted := s.deleted + [c], pendingDelete := rest)
    requires forall x | x in s.pendingDelete :: Quiet(s, x)
    ensures Finished(s) == Finished(s1)
    ensures forall x | x in rest :: Quiet(s1, x)
  {
    QuietDeletion(s, c);
    forall x | x in rest ensures Quiet(s1, x) {
      assert Quiet(s, x);
    }
  }

  lemma {:induction false} CountGrows(x: seq<Context>, y: seq<Context>, c: Context)
    requires x <= y
    ensures Count(x, c) <= Count(y, c)
  {
    assert y == x + y[|x|..];
  }

  lemma {:induction false} FinishedDeletesEach(s: State, c: Context)
    requires c in s.pendingDelete
    ensures Count(Finished(s).deleted, c) >= Count(s.deleted, c) + 1
    decreases Weight(s), 3
  {
    var x := s.pendingDelete[0];
    FinishedOnlyForward(s);
    if c == x {
      CountGrows(s.deleted + [x], Finished(s).deleted, c);
    } else {
      var s1 := OnDeleted(s, x);
      VmCallDeletesPending(s.(deleted := s.deleted + [x]), x.onDelete, c);
      FinishedOnlyForward(Erased(s1, x));
      CountGrows(s1.deleted, Finished(s).deleted, c);
      if s1.pendingDelete == s.pendingDelete {
        VmCallOnlyForward(s.(deleted := s.deleted + [x]), x.onDelete);
        CountGrows(s.deleted + [x], s1.deleted, c);
        FinishedDeletesEach(Erased(s1, x), c);
      }
    }
  }

  /** A call into the VM either leaves the pending deletions alone or carries them all out. */
  lemma {:induction false} VmCallDeletesPending(s: State, calls: Option<seq<Key>>, c: Context)
    requires c in s.pendingDelete
    ensures var s' := VmCalled(s, calls);
            s'.pendingDelete == s.pendingDelete || Count(s'.deleted, c) >= Count(s.deleted, c) + 1
    ensures calls.Some? && DoneCalls(s, calls.value).actions > 0 ==>
              Count(VmCalled(s, calls).deleted, c) >= Count(s.deleted, c) + 1
    decreases Weight(s), 1
  {
    if calls.Some? && DoneCalls(s, calls.value).actions > 0 {
      DoneCallsOnlyTake(s, calls.value);
      var s1 := DoneCalls(s, calls.value);
      var s2 := s1.(actions := s1.actions - 1);
      FinishedDeletesEach(s2, c);
      DrainedOnlyForward(Finished(s2));
      CountGrows(Finished(s2).deleted, Drained(s1).deleted, c);
    }
  }

  lemma {:induction false} UnquietDeletion(s: State, c: Context)
    requires s.pendingDelete != [] && s.pendingDelete[0] == c && !Quiet(s, c)
    ensures Erased(OnDeleted(s, c), c).dangling
    ensures Count(OnDeleted(s, c).deleted, c) >= Count(s.deleted, c) + 2
  {
    var s1 := s.(deleted := s.deleted + [c]);
    FruitlessCalls(s1, c.onDelete.value);
    VmCallDeletesPending(s1, c.onDelete, c);
  }

  /** If one is not, a context gets its call at least twice, and the outer loop is left with an
      iterator to an element that the inner one has erased. */
  lemma {:induction false} UnquietFinish(s: State) returns (c: Context)
    requires exists x :: x in s.pendingDelete && !Quiet(s, x)
    ensures c in s.pendingDelete && Finished(s).dangling
    ensures Count(Finished(s).deleted, c) >= Count(s.deleted, c) + 2
    decreases |s.pendingDelete|
  {
    c := s.pendingDelete[0];
    if Quiet(s, c) {
      QuietDeletion(s, c);
      var s1 := s.(deleted := s.deleted + [c], pendingDelete := s.pendingDelete[1..]);
      var x :| x in s.pendingDelete && !Quiet(s, x);
      assert x in s1.pendingDelete && !Quiet(s1, x);
      var first := c;
      c := UnquietFinish(s1);
      CountGrows(s.deleted, s.deleted + [first], c);
    } else {
      UnquietDeletion(s, c);
      FinishedOnlyForward(Erased(OnDeleted(s, c), c));
      CountGrows(OnDeleted(s, c).deleted, Finished(s).deleted, c);
    }
  }

  /** finishShutdown makes exactly the calls that are due, once each, if and only if every deletion
      is quiet. */
  lemma {:induction false} FinishedOnceExactlyIf(s: State)
    requires !s.dangling
    ensures Finished(s).deleted == s.deleted + s.pendingDelete && !Finished(s).dangling
       <==> forall c | c in s.pendingDelete :: Quiet(s, c)
    ensures Finished(s).dangling <==> exists c :: c in s.pendingDelete && !Quiet(s, c)
  {
    if x :| x in s.pendingDelete && !Quiet(s, x) {
      var c := UnquietFinish(s);
    } else {
      QuietFinish(s);
    }
  }

  /** Between the calls from outside no action is queued and no deletion is due. */
  predicate Idle(s: State) {
    s.actions == 0 && s.pendingDelete == []
  }

  lemma {:induction false} VmCallStaysIdle(s: State, calls: Option<seq<Key>>)
    requires Idle(s)
    ensures Idle(VmCalled(s, calls))
  {
  }

  lemma {:induction false} ShutDownStaysIdle(s: State, key: Key)
    requires Idle(s)
    ensures Idle(ShutDown(s, key))
  {
    if key in s.roots {
      var c := s.roots[key];
      var s1 := VmCalled(s, c.onDone);
      VmCallStaysIdle(s, c.onDone);
      VmCallStaysIdle(s1.(deleted := s1.deleted + [c]), c.onDelete);
    }
  }

  lemma {:induction false} AllStayIdle(s: State, order: seq<Key>)
    requires Idle(s)
    ensures Idle(AllShutDown(s, order))
  {
    if order != [] {
      AllStayIdle(s, order[..|order| - 1]);
      ShutDownStaysIdle(AllShutDown(s, order[..|order| - 1]), order[|order| - 1]);
    }
  }

  lemma {:induction false} VmCallFinishes(s: State, calls: seq<Key>)
    requires DoneCalls(s, calls).actions > 0
    ensures var s1 := DoneCalls(s, calls);
            VmCalled(s, Some(calls)) == Finished(s1.(actions := s1.actions - 1)).(actions := 0)
  {
    var s1 := DoneCalls(s, calls);
    DrainedAfterFinish(Finished(s1.(actions := s1.actions - 1)));
  }

  /** With no deletion due, the remaining actions do nothing. */
  lemma {:induction false} DrainedAfterFinish(s: State)
    requires s.pendingDelete == []
    ensures Drained(s) == s.(actions := 0)
    decreases s.actions
  {
    if s.actions > 0 {
      DrainedAfterFinish(s.(actions := s.actions - 1));
    }
  }

  // ---- The two conditions are needed ----

  lemma {:induction false} IdleCall(s: State, calls: seq<Key>)
    requires s.actions == 0 && forall key | key in calls :: key !in s.pendingDone
    ensures VmCalled(s, Some(calls)) == s
  {
    FruitlessCalls(s, calls);
  }

  predicate Waits(s: State, c: Context) {
    c.key in s.pendingDone && s.pendingDone[c.key] == c
  }

  lemma {:induction false} InsertedFirst(queue: seq<Context>, c: Context)
    requires queue == []
    ensures Inserted(queue, c) == [c]
  {
  }

  lemma {:induction false} InsertedSecond(queue: seq<Context>, b: Context)
    requires |queue| == 1 && b.slot > 0
    ensures Inserted(queue, b) == queue + [b]
  {
  }

  lemma {:induction false} OneCall(s: State, calls: seq<Key>)
    requires |calls| == 1
    ensures DoneCalls(s, calls) == DoneCalled(s, calls[0])
  {
  }

  lemma {:induction false} TwoCalls(s: State, calls: seq<Key>)
    requires |calls| == 2
    ensures DoneCalls(s, calls) == DoneCalled(DoneCalled(s, calls[0]), calls[1])
  {
    OneCall(DoneCalled(s, calls[0]), calls[1..]);
  }

  lemma {:induction false} BothMoved(s: State, a: Context, b: Context)
    requires Idle(s) && Waits(s, a) && Waits(s, b) && a.key != b.key && b.slot > 0
    ensures var s1 := DoneCalled(DoneCalled(s, a.key), b.key);
            s1.pendingDelete == [a, b] && s1.actions == 2 && s1.deleted == s.deleted
  {
    InsertedFirst(s.pendingDelete, a);
    InsertedSecond(DoneCalled(s, a.key).pendingDelete, b);
  }

  /** Two contexts that wait for done() and get it in the same call into the VM: the first gets
      onDelete twice. */
  lemma {:induction false} DoneTogetherDeletesTwice(s: State, a: Context, b: Context)
    requires Idle(s) && Waits(s, a) && Waits(s, b) && a.key != b.key
    requires a.onDelete == b.onDelete == Some([]) && b.slot > 0
    ensures VmCalled(s, Some([a.key, b.key])).deleted == s.deleted + [a, a, b]
    ensures VmCalled(s, Some([a.key, b.key])).dangling
  {
    var s1 := DoneCalled(DoneCalled(s, a.key), b.key);
    BothMoved(s, a, b);
    TwoCalls(s, [a.key, b.key]);
    VmCallFinishes(s, [a.key, b.key]);
    SecondActionDeletesAgain(s1.(actions := 1), a, b);
  }

  lemma {:induction false} SecondActionDeletesAgain(s: State, a: Context, b: Context)
    requires s.actions == 1 && s.pendingDelete == [a, b] && a.onDelete == b.onDelete == Some([])
    ensures Finished(s).deleted == s.deleted + [a, a, b] && Finished(s).dangling
  {
    var s1 := s.(deleted := s.deleted + [a]);
    VmCallFinishes(s1, []);
    QuietFinish(s1.(actions := 0));
    assert s.deleted + [a] + [a, b] == s.deleted + [a, a, b];
  }

  lemma {:induction false} OneMoved(s: State, c: Context)
    requires Idle(s) && Waits(s, c)
    ensures var s1 := DoneCalled(s, c.key);
            && s1.pendingDelete == [c] && s1.actions == 1
            && s1.deleted == s.deleted && s1.lost == s.lost && s1.dangling == s.dangling
  {
    InsertedFirst(s.pendingDelete, c);
  }

  /** A context whose deletion makes no done() calls, and that gets its done() alone, is deleted once. */
  lemma {:induction false} DoneAlone(s: State, c: Context)
    requires Idle(s) && Waits(s, c) && c.onDelete == Some([])
    ensures var s' := VmCalled(s, Some([c.key]));
            s'.deleted == s.deleted + [c] && s'.lost == s.lost && s'.dangling == s.dangling
  {
    OneMoved(s, c);
    OneCall(s, [c.key]);
    VmCallFinishes(s, [c.key]);
    var s1 := DoneCalled(s, c.key).(actions := 0);
    QuietFinish(s1);
  }

  /** A context that is shut down while another one of the same key waits for done(): the old one is
      lost, and a later done() deletes only the new one. */
  lemma {:induction false} RestartedPluginLosesContext(s: State, first: Context, second: Context)
    requires Idle(s) && Waits(s, first) && first.key !in s.roots
    requires first.key == second.key && !second.doneAtOnce && second.onDone == second.onDelete == Some([])
    ensures var s' := VmCalled(ShutDown(Started(s, second, []), second.key), Some([second.key]));
            s'.lost == s.lost + [first] && s'.deleted == s.deleted + [second] && s'.dangling == s.dangling
  {
    var s1 := s.(roots := s.roots[second.key := second]);
    IdleCall(s1, []);
    DoneAlone(ShutDown(s1, second.key), second);
  }

  // ---- What the steps do, in the fields ----

  /** done(): a waiting context is queued for its deletion, and finishShutdown for after the call; no
      onDelete is called, and nothing else changes. */
  lemma {:induction false} DoneMeaning(s: State, key: Key)
    ensures key !in s.pendingDone ==> DoneCalled(s, key) == s
    ensures key in s.pendingDone ==>
              && key !in DoneCalled(s, key).pendingDone && s.pendingDone[key] in DoneCalled(s, key).pendingDelete
              && DoneCalled(s, key).actions == s.actions + 1 && DoneCalled(s, key).moved == s.moved + [s.pendingDone[key]]
              && DoneCalled(s, key).deleted == s.deleted && DoneCalled(s, key).lost == s.lost
              && DoneCalled(s, key).roots == s.roots
    ensures forall k | k != key :: (k in s.pendingDone <==> k in DoneCalled(s, key).pendingDone)
                                   && (k in s.pendingDone ==> DoneCalled(s, key).pendingDone[k] == s.pendingDone[k])
  {
    if key in s.pendingDone {
      CountInserted(s.pendingDelete, s.pendingDone[key], s.pendingDone[key]);
    }
  }

  /** Shutting a context down: if onDone does not enter the VM, or the VM answers true, the context gets its
      onDelete call and nothing is put among the waiting; if the VM answers false, the context waits. In
      either case it is no longer a root. */
  lemma {:induction false} ShutDownMeaning(s: State, key: Key)
    requires key in s.roots
    ensures var (c, s') := (s.roots[key], ShutDown(s, key));
            c.onDone == None || c.doneAtOnce ==>
              Count(s'.deleted, c) >= Count(s.deleted, c) + 1 && Subset(s'.pendingDone, s.pendingDone) && s'.lost == s.lost
    ensures var (c, s') := (s.roots[key], ShutDown(s, key));
            c.onDone.Some? && !c.doneAtOnce ==> key in s'.pendingDone && s'.pendingDone[key] == c
    ensures key !in ShutDown(s, key).roots
    ensures forall k | k != key :: (k in s.roots <==> k in ShutDown(s, key).roots)
                                   && (k in s.roots ==> ShutDown(s, key).roots[k] == s.roots[k])
  {
    var c := s.roots[key];
    var s1 := VmCalled(s, c.onDone);
    var s2 := s1.(deleted := s1.deleted + [c]);
    KeepsRoots(s, key);
    VmCallOnlyForward(s, c.onDone);
    VmCallOnlyForward(s2, c.onDelete);
    CountGrows(s.deleted, s1.deleted, c);
    CountGrows(s2.deleted, VmCalled(s2, c.onDelete).deleted, c);
  }

  /** Starting: the plugin's root stays if it has one, and otherwise the new context is its root. */
  lemma {:induction false} StartMeaning(s: State, c: Context, calls: seq<Key>)
    ensures c.key in s.roots ==> Started(s, c, calls).roots == s.roots
    ensures c.key !in s.roots ==> Started(s, c, calls).roots == s.roots[c.key := c]
  {
    VmCalledKeepsRoots(if c.key in s.roots then s else s.(roots := s.roots[c.key := c]), Some(calls));
  }
}
