/**
 The call context of a thread: which context is executing, and which one it has asked the host to
 attribute its calls to. Calls into a VM save and restore both, so that they may be nested.
 */
module CallContext {
  import opened Bytes

  /** A context object, by its VM and its identity. */
  datatype Context = Context(vm: nat, serial: nat)

  /** The contexts of each VM by their ids. */
  type Registry = map<(nat, nat), Context>

  /** What the code of a VM does during one call into it: steps until it returns or traps. */
  datatype Body = Return | Trap | Do(action: Action, rest: Body)

  /** A host function that is attributed to a context, the setting of the effective context, a host
      function that calls back into a VM, and the creation and destruction of contexts. */
  datatype Action =
    | HostCall
    | SetEffectiveContext(id: nat)
    | CallInto(context: Context, body: Body)
    | Create(vm: nat, id: nat, serial: nat)
    | Destroy(vm: nat, id: nat)

  /** What can be seen of the calls, in the order in which it happens: a call begins, on behalf of a
      context; a host function called in it is attributed to a context, or asks for an effective context
      and is told whether that is one; contexts come and go. A call is known by the position at which it
      begins. */
  datatype Seen =
    | Entered(context: Context)
    | Attributed(call: nat, caller: Context, to: Context)
    | Chosen(call: nat, id: nat, ok: bool)
    | Created(vm: nat, id: nat, context: Context)
    | Destroyed(vm: nat, id: nat)

  /** The value of a Word argument that is cast to uint32_t. */
  function Truncated(word: nat): nat {
    word % U32
  }

  /** contextOrEffectiveContext, on the thread's variables. */
  function ContextOrEffective(current: Context, effective: nat, contexts: Registry): Context {
    if effective == 0 then current
    else if (current.vm, effective) in contexts then contexts[(current.vm, effective)]
    else current
  }

  class Thread {
    var currentContext: Option<Context>
    var effectiveContextId: nat
    var contexts: Registry
    var seen: seq<Seen>

    constructor ()
      ensures currentContext == None && effectiveContextId == 0 && contexts == map[] && seen == []
    {
      currentContext, effectiveContextId, contexts, seen := None, 0, map[], [];
    }

    /** A call into a VM, under a SaveRestoreContext. */
    method Call(context: Context, body: Body)
      modifies this
      ensures currentContext == old(currentContext) && effectiveContextId == old(effectiveContextId)
      ensures (seen, contexts) == Called(old(seen), context, body, old(contexts))
      decreases body, 1
    {
      var savedContext, savedEffectiveContextId := currentContext, effectiveContextId;
      currentContext := Some(context);
      effectiveContextId := 0;
      var call := |seen|;
      seen := seen + [Entered(context)];
      Execute(body, call);
      currentContext := savedContext;
      effectiveContextId := savedEffectiveContextId;
    }

    /** The VM's part of the call. */
    method Execute(body: Body, call: nat)
      requires currentContext.Some?
      modifies this
      ensures currentContext == old(currentContext)
      ensures (seen, contexts) == Meaning(old(seen), currentContext.value, call, old(effectiveContextId), body, old(contexts))
      decreases body, 0
    {
      if body.Do? {
        match body.action {
          case HostCall =>
            var context := ContextOrEffective(currentContext.value, effectiveContextId, contexts);
            seen := seen + [Attributed(call, currentContext.value, context)];
          case SetEffectiveContext(id) =>
            SetEffectiveContext(id, call);
          case CallInto(context, inner) =>
            Call(context, inner);
          case Create(vm, id, serial) =>
            contexts := contexts[(vm, id) := Context(vm, serial)];
            seen := seen + [Created(vm, id, Context(vm, serial))];
          case Destroy(vm, id) =>
            contexts := contexts - {(vm, id)};
            seen := seen + [Destroyed(vm, id)];
        }
        Execute(body.rest, call);
      }
    }

    /** set_effective_context. */
    method SetEffectiveContext(id: nat, call: nat)
      requires currentContext.Some?
      modifies this`effectiveContextId, this`seen
      ensures var ok := CanSet(currentContext.value, old(effectiveContextId), id, contexts);
              && effectiveContextId == (if ok then Truncated(id) else old(effectiveContextId))
              && seen == old(seen) + [Chosen(call, id, ok)]
    {
      var context := ContextOrEffective(currentContext.value, effectiveContextId, contexts);
      var cid := Truncated(id);
      var ok := (context.vm, cid) in contexts;
      if ok {
        effectiveContextId := cid;
      }
      seen := seen + [Chosen(call, id, ok)];
    }
  }

  // ---- What the calls mean, call by call ----

  predicate CanSet(context: Context, effective: nat, id: nat, contexts: Registry) {
    (ContextOrEffective(context, effective, contexts).vm, Truncated(id)) in contexts
  }

  /** What has been seen, and the contexts, after a call: it begins without an effective context. */
  function Called(seen: seq<Seen>, context: Context, body: Body, contexts: Registry): (seq<Seen>, Registry)
    decreases body, 1
  {
    Meaning(seen + [Entered(context)], context, |seen|, 0, body, contexts)
  }

  /** The same after the rest of the call that began at `call`, on behalf of `context`, and has chosen the
      effective context `effective`. The choice belongs to this call: an inner call starts without one
      and leaves this one alone. */
  function Meaning(seen: seq<Seen>, context: Context, call: nat, effective: nat, body: Body, contexts: Registry):
    (seq<Seen>, Registry)
    decreases body, 0
  {
    if !body.Do? then
      (seen, contexts)
    else
      match body.action
      case HostCall =>
        var to := ContextOrEffective(context, effective, contexts);
        Meaning(seen + [Attributed(call, context, to)], context, call, effective, body.rest, contexts)
      case SetEffectiveContext(id) =>
        var ok := CanSet(context, effective, id, contexts);
        Meaning(seen + [Chosen(call, id, ok)], context, call, if ok then Truncated(id) else effective, body.rest, contexts)
      case CallInto(other, inner) =>
        var (seen1, contexts1) := Called(seen, other, inner, contexts);
        Meaning(seen1, context, call, effective, body.rest, contexts1)
      case Create(vm, id, serial) =>
        Meaning(seen + [Created(vm, id, Context(vm, serial))], context, call, effective, body.rest,
                contexts[(vm, id) := Context(vm, serial)])
      case Destroy(vm, id) =>
        Meaning(seen + [Destroyed(vm, id)], context, call, effective, body.rest, contexts - {(vm, id)})
  }

  /** Every context is registered with its own VM. */
  ghost predicate OwnVm(contexts: Registry) {
    forall k | k in contexts :: contexts[k].vm == k.0
  }

  // ---- What may be seen ----

  /** The contexts before the `p`-th thing seen, from those at first and the ones that came and went. */
  function ContextsAt(first: Registry, seen: seq<Seen>, p: nat): Registry
    requires p <= |seen|
  {
    if p == 0 then first
    else
      var before := ContextsAt(first, seen, p - 1);
      match seen[p - 1]
      case Created(vm, id, context) => before[(vm, id) := context]
      case Destroyed(vm, id) => before - {(vm, id)}
      case _ => before
  }

  /** The last choice of the call that was granted, before the `p`-th thing seen; 0 if there is none. */
  function LastChoice(seen: seq<Seen>, p: nat, call: nat): nat
    requires p <= |seen|
  {
    if p == 0 then 0
    else if seen[p - 1].Chosen? && seen[p - 1].call == call && seen[p - 1].ok then seen[p - 1].id % 0x1_0000_0000
    else LastChoice(seen, p - 1, call)
  }

  /** A host function is attributed to the context that its own call chose last, if it chose one and that
      context is there at this moment, and to the context of the call otherwise. A choice is granted
      exactly if the VM of the call has a context with that id, truncated to 32 bits, at this moment. */
  ghost predicate Right(first: Registry, seen: seq<Seen>, p: nat)
    requires p < |seen|
  {
    match seen[p]
    case Attributed(call, caller, to) =>
      && call < p && seen[call] == Entered(caller)
      && var key := (caller.vm, LastChoice(seen, p, call));
      && var there := ContextsAt(first, seen, p);
      && to == if key.1 != 0 && key in there then there[key] else caller
    case Chosen(call, id, ok) =>
      && call < p && seen[call].Entered?
      && (ok <==> (seen[call].context.vm, id % 0x1_0000_0000) in ContextsAt(first, seen, p))
    case _ => true
  }

  ghost predicate Lawful(first: Registry, seen: seq<Seen>) {
    forall p | 0 <= p < |seen| :: Right(first, seen, p)
  }

  lemma {:induction false} SamePast(first: Registry, seen: seq<Seen>, e: Seen, p: nat, call: nat)
    requires p <= |seen|
    ensures ContextsAt(first, seen + [e], p) == ContextsAt(first, seen, p)
    ensures LastChoice(seen + [e], p, call) == LastChoice(seen, p, call)
  {
    if p > 0 {
      SamePast(first, seen, e, p - 1, call);
    }
  }

  lemma {:induction false} RightStays(first: Registry, seen: seq<Seen>, e: Seen, p: nat)
    requires p < |seen| && Right(first, seen, p)
    ensures Right(first, seen + [e], p)
  {
    match seen[p] {
      case Attributed(call, _, _) => SamePast(first, seen, e, p, call);
      case Chosen(call, _, _) => SamePast(first, seen, e, p, call);
      case _ =>
    }
  }

  lemma {:induction false} LawfulOneMore(first: Registry, seen: seq<Seen>, e: Seen)
    requires Lawful(first, seen) && Right(first, seen + [e], |seen|)
    ensures Lawful(first, seen + [e])
  {
    forall p | 0 <= p < |seen + [e]| ensures Right(first, seen + [e], p) {
      if p < |seen| {
        RightStays(first, seen, e, p);
      }
    }
  }

  /** Where a call stands: what has been seen is lawful, and the thread's variables are what it says. */
  ghost predicate Stands(first: Registry, seen: seq<Seen>, context: Context, call: nat, effective: nat, contexts: Registry) {
    && Lawful(first, seen) && contexts == ContextsAt(first, seen, |seen|) && OwnVm(contexts)
    && call < |seen| && seen[call] == Entered(context) && effective == LastChoice(seen, |seen|, call)
  }

  lemma {:induction false} StandsAfterHostCall(first: Registry, seen: seq<Seen>, context: Context, call: nat, effective: nat,
                                               contexts: Registry)
    requires Stands(first, seen, context, call, effective, contexts)
    ensures Stands(first, seen + [Attributed(call, context, ContextOrEffective(context, effective, contexts))],
                   context, call, effective, contexts)
  {
    var e := Attributed(call, context, ContextOrEffective(context, effective, contexts));
    SamePast(first, seen, e, |seen|, call);
    LawfulOneMore(first, seen, e);
  }

  lemma {:induction false} StandsAfterChoice(first: Registry, seen: seq<Seen>, context: Context, call: nat, effective: nat,
                                             contexts: Registry, id: nat)
    requires Stands(first, seen, context, call, effective, contexts)
    ensures var ok := CanSet(context, effective, id, contexts);
            Stands(first, seen + [Chosen(call, id, ok)], context, call, if ok then Truncated(id) else effective, contexts)
  {
    var e := Chosen(call, id, CanSet(context, effective, id, contexts));
    SamePast(first, seen, e, |seen|, call);
    LawfulOneMore(first, seen, e);
  }

  lemma {:induction false} StandsAfterChange(first: Registry, seen: seq<Seen>, context: Context, call: nat, effective: nat,
                                             contexts: Registry, e: Seen, contexts': Registry)
    requires Stands(first, seen, context, call, effective, contexts)
    requires match e
             case Created(vm, id, c) => c.vm == vm && contexts' == contexts[(vm, id) := c]
             case Destroyed(vm, id) => contexts' == contexts - {(vm, id)}
             case _ => false
    ensures Stands(first, seen + [e], context, call, effective, contexts')
  {
    SamePast(first, seen, e, |seen|, call);
    LawfulOneMore(first, seen, e);
  }

  /** A call that has only begun has made no choice. */
  lemma {:induction false} StandsAtStart(first: Registry, seen: seq<Seen>, contexts: Registry, other: Context)
    requires Lawful(first, seen) && contexts == ContextsAt(first, seen, |seen|) && OwnVm(contexts)
    ensures Stands(first, seen + [Entered(other)], other, |seen|, 0, contexts)
  {
    var e := Entered(other);
    SamePast(first, seen, e, |seen|, |seen|);
    LawfulOneMore(first, seen, e);
    NoChoiceYet(first, seen, |seen|, |seen|);
  }

  lemma {:induction false} NoChoiceYet(first: Registry, seen: seq<Seen>, p: nat, call: nat)
    requires p <= |seen| <= call && Lawful(first, seen)
    ensures LastChoice(seen, p, call) == 0
  {
    if p > 0 {
      assert Right(first, seen, p - 1);
      NoChoiceYet(first, seen, p - 1, call);
    }
  }

  /** What a call leaves alone: what was seen before it, and the choices of the calls around it. */
  ghost predicate LeavesOthers(seen: seq<Seen>, call: nat, seen': seq<Seen>) {
    && seen <= seen'
    && forall c | 0 <= c < |seen| && c != call :: LastChoice(seen', |seen'|, c) == LastChoice(seen, |seen|, c)
  }

  lemma {:induction false} OneMoreLeavesOthers(seen: seq<Seen>, call: nat, e: Seen)
    requires e.Chosen? ==> e.call == call
    ensures LeavesOthers(seen, call, seen + [e])
  {
    forall c | 0 <= c < |seen| && c != call ensures LastChoice(seen + [e], |seen + [e]|, c) == LastChoice(seen, |seen|, c) {
      SamePast(map[], seen, e, |seen|, c);
    }
  }

  lemma {:induction false} LeavesOthersTwice(seen: seq<Seen>, call: nat, seen1: seq<Seen>, seen2: seq<Seen>)
    requires LeavesOthers(seen, call, seen1) && LeavesOthers(seen1, call, seen2)
    ensures LeavesOthers(seen, call, seen2)
  {
  }

  /** The whole of a call, and of the calls inside it at any depth, is lawful. */
  lemma {:induction false} CallIsLawful(first: Registry, seen: seq<Seen>, context: Context, body: Body, contexts: Registry)
    requires Lawful(first, seen) && contexts == ContextsAt(first, seen, |seen|) && OwnVm(contexts)
    ensures var (seen', contexts') := Called(seen, context, body, contexts);
            && Lawful(first, seen') && contexts' == ContextsAt(first, seen', |seen'|) && OwnVm(contexts')
            && LeavesOthers(seen, |seen|, seen')
    decreases body, 1
  {
    var seen1 := seen + [Entered(context)];
    StandsAtStart(first, seen, contexts, context);
    MeaningIsLawful(first, seen1, context, |seen|, 0, body, contexts);
    OneMoreLeavesOthers(seen, |seen|, Entered(context));
    LeavesOthersTwice(seen, |seen|, seen1, Called(seen, context, body, contexts).0);
  }

  lemma {:induction false} MeaningIsLawful(first: Registry, seen: seq<Seen>, context: Context, call: nat, effective: nat,
                                           body: Body, contexts: Registry)
    requires Stands(first, seen, context, call, effective, contexts)
    ensures var (seen', contexts') := Meaning(seen, context, call, effective, body, contexts);
            && Lawful(first, seen') && contexts' == ContextsAt(first, seen', |seen'|) && OwnVm(contexts')
            && LeavesOthers(seen, call, seen')
    decreases body, 0
  {
    if body.Do? {
      var seen1, effective1, contexts1 := AfterAction(first, seen, context, call, effective, body, contexts);
      MeaningIsLawful(first, seen1, context, call, effective1, body.rest, contexts1);
      LeavesOthersTwice(seen, call, seen1, Meaning(seen1, context, call, effective1, body.rest, contexts1).0);
    }
  }

  /** Where the call stands after its first action. */
  lemma {:induction false} AfterAction(first: Registry, seen: seq<Seen>, context: Context, call: nat, effective: nat,
                                       body: Body, contexts: Registry)
    returns (seen1: seq<Seen>, effective1: nat, contexts1: Registry)
    requires Stands(first, seen, context, call, effective, contexts) && body.Do?
    ensures Stands(first, seen1, context, call, effective1, contexts1) && LeavesOthers(seen, call, seen1)
    ensures Meaning(seen, context, call, effective, body, contexts)
         == Meaning(seen1, context, call, effective1, body.rest, contexts1)
    decreases body.action, 2
  {
    effective1, contexts1 := effective, contexts;
    match body.action {
      case HostCall =>
        var e := Attributed(call, context, ContextOrEffective(context, effective, contexts));
        seen1 := seen + [e];
        StandsAfterHostCall(first, seen, context, call, effective, contexts);
        OneMoreLeavesOthers(seen, call, e);
      case SetEffectiveContext(id) =>
        var ok := CanSet(context, effective, id, contexts);
        seen1, effective1 := seen + [Chosen(call, id, ok)], if ok then Truncated(id) else effective;
        StandsAfterChoice(first, seen, context, call, effective, contexts, id);
        OneMoreLeavesOthers(seen, call, Chosen(call, id, ok));
      case CallInto(other, inner) =>
        seen1, contexts1 := StandsAfterCall(first, seen, context, call, effective, other, inner, contexts);
      case Create(vm, id, serial) =>
        var e := Created(vm, id, Context(vm, serial));
        seen1, contexts1 := seen + [e], contexts[(vm, id) := Context(vm, serial)];
        StandsAfterChange(first, seen, context, call, effective, contexts, e, contexts1);
        OneMoreLeavesOthers(seen, call, e);
      case Destroy(vm, id) =>
        seen1, contexts1 := seen + [Destroyed(vm, id)], contexts - {(vm, id)};
        StandsAfterChange(first, seen, context, call, effective, contexts, Destroyed(vm, id), contexts1);
        OneMoreLeavesOthers(seen, call, Destroyed(vm, id));
    }
  }

  lemma {:induction false} StandsAfterCall(first: Registry, seen: seq<Seen>, context: Context, call: nat, effective: nat,
                                           other: Context, inner: Body, contexts: Registry)
    returns (seen1: seq<Seen>, contexts1: Registry)
    requires Stands(first, seen, context, call, effective, contexts)
    ensures (seen1, contexts1) == Called(seen, other, inner, contexts)
    ensures Stands(first, seen1, context, call, effective, contexts1) && LeavesOthers(seen, call, seen1)
    decreases inner, 2
  {
    CallIsLawful(first, seen, other, inner, contexts);
    seen1, contexts1 := Called(seen, other, inner, contexts).0, Called(seen, other, inner, contexts).1;
  }

  /** A choice has effect: once it is granted, the host functions of that call are attributed to the
      context chosen, as long as it is registered and nothing else is chosen in that call. */
  lemma {:induction false} ChoiceHasEffect(first: Registry, seen: seq<Seen>, q: nat, p: nat, call: nat, id: nat)
    requires Lawful(first, seen) && q < p < |seen| && seen[q] == Chosen(call, id, true)
    requires seen[p].Attributed? && seen[p].call == call
    requires forall k | q < k < p :: !(seen[k].Chosen? && seen[k].call == call && seen[k].ok)
    ensures var key := (seen[p].caller.vm, id % 0x1_0000_0000);
            seen[p].to == if key.1 != 0 && key in ContextsAt(first, seen, p) then ContextsAt(first, seen, p)[key]
                          else seen[p].caller
  {
    assert Right(first, seen, p);
    ChoiceLasts(seen, q, p, call);
  }

  lemma {:induction false} ChoiceLasts(seen: seq<Seen>, q: nat, p: nat, call: nat)
    requires q < p <= |seen| && seen[q].Chosen? && seen[q].call == call && seen[q].ok
    requires forall k | q < k < p :: !(seen[k].Chosen? && seen[k].call == call && seen[k].ok)
    ensures LastChoice(seen, p, call) == seen[q].id % 0x1_0000_0000
  {
    if q + 1 < p {
      ChoiceLasts(seen, q, p - 1, call);
    }
  }

  lemma {:induction false} ContextsStayOwn(first: Registry, seen: seq<Seen>, p: nat)
    requires OwnVm(first) && p <= |seen|
    requires forall k | 0 <= k < |seen| && seen[k].Created? :: seen[k].context.vm == seen[k].vm
    ensures OwnVm(ContextsAt(first, seen, p))
  {
    if p > 0 {
      ContextsStayOwn(first, seen, p - 1);
    }
  }

  /** No host function is attributed to a context of another VM than the one that called it. */
  lemma {:induction false} AttributedWithinVm(first: Registry, seen: seq<Seen>, p: nat)
    requires Lawful(first, seen) && OwnVm(first) && p < |seen| && seen[p].Attributed?
    requires forall k | 0 <= k < |seen| && seen[k].Created? :: seen[k].context.vm == seen[k].vm
    ensures seen[p].to.vm == seen[p].caller.vm
  {
    assert Right(first, seen, p);
    ContextsStayOwn(first, seen, p);
  }

  /** A call in which nothing is chosen has its host functions attributed to its own context, whatever the
      calls around, before and inside it choose. */
  lemma {:induction false} AttributedToItself(first: Registry, seen: seq<Seen>, p: nat)
    requires Lawful(first, seen) && p < |seen| && seen[p].Attributed?
    requires forall k | 0 <= k < p && seen[k].Chosen? && seen[k].call == seen[p].call :: !seen[k].ok
    ensures seen[p].to == seen[p].caller
  {
    assert Right(first, seen, p);
    NothingChosen(seen, p, seen[p].call);
  }

  lemma {:induction false} NothingChosen(seen: seq<Seen>, p: nat, call: nat)
    requires p <= |seen| && forall k | 0 <= k < p && seen[k].Chosen? && seen[k].call == call :: !seen[k].ok
    ensures LastChoice(seen, p, call) == 0
  {
    if p > 0 {
      NothingChosen(seen, p - 1, call);
    }
  }

  // ---- Inner calls are invisible ----

  /** A body with its inner calls left out. */
  function Flat(body: Body): Body {
    if !body.Do? then body
    else if body.action.CallInto? then Flat(body.rest)
    else Do(body.action, Flat(body.rest))
  }

  /** What is seen of the call itself, from position `p` on. */
  function OwnFrom(seen: seq<Seen>, p: nat, call: nat): seq<Seen>
    requires p <= |seen|
    decreases |seen| - p
  {
    if p == |seen| then []
    else
      (if (seen[p].Attributed? || seen[p].Chosen?) && seen[p].call == call then [seen[p]] else [])
      + OwnFrom(seen, p + 1, call)
  }

  /** No context is created or destroyed, at any depth. */
  predicate KeepsContexts(body: Body) {
    body.Do? ==>
      && !body.action.Create? && !body.action.Destroy?
      && (body.action.CallInto? ==> KeepsContexts(body.action.body))
      && KeepsContexts(body.rest)
  }

  /** The thing seen is not of a call that began before position `at`. */
  predicate Inner(e: Seen, at: nat) {
    (e.Attributed? || e.Chosen?) ==> e.call >= at
  }

  /** What a call adds: things of its own and of calls inside it, and the contexts as they were. */
  lemma {:induction false} MeaningAdds(seen: seq<Seen>, context: Context, call: nat, effective: nat, body: Body,
                                       contexts: Registry)
    requires KeepsContexts(body)
    ensures var (seen', contexts') := Meaning(seen, context, call, effective, body, contexts);
            && contexts' == contexts && seen <= seen'
            && forall p | |seen| <= p < |seen'| :: Inner(seen'[p], |seen|) || seen'[p].call == call
    decreases body, 0
  {
    if body.Do? {
      match body.action {
        case HostCall =>
          MeaningAdds(seen + [Attributed(call, context, ContextOrEffective(context, effective, contexts))],
                      context, call, effective, body.rest, contexts);
        case SetEffectiveContext(id) =>
          var ok := CanSet(context, effective, id, contexts);
          MeaningAdds(seen + [Chosen(call, id, ok)], context, call, if ok then Truncated(id) else effective,
                      body.rest, contexts);
        case CallInto(other, inner) =>
          CallAdds(seen, other, inner, contexts);
          MeaningAdds(Called(seen, other, inner, contexts).0, context, call, effective, body.rest, contexts);
      }
    }
  }

  lemma {:induction false} CallAdds(seen: seq<Seen>, other: Context, inner: Body, contexts: Registry)
    requires KeepsContexts(inner)
    ensures var (seen', contexts') := Called(seen, other, inner, contexts);
            && contexts' == contexts && seen <= seen'
            && forall p | |seen| <= p < |seen'| :: Inner(seen'[p], |seen|)
    decreases inner, 1
  {
    MeaningAdds(seen + [Entered(other)], other, |seen|, 0, inner, contexts);
  }

  lemma {:induction false} OwnOfInner(seen: seq<Seen>, p: nat, at: nat, call: nat)
    requires p <= |seen| && call < at && forall k | p <= k < |seen| :: Inner(seen[k], at)
    ensures OwnFrom(seen, p, call) == []
    decreases |seen| - p
  {
    if p < |seen| {
      OwnOfInner(seen, p + 1, at, call);
    }
  }

  lemma {:induction false} OwnSplits(seen: seq<Seen>, more: seq<Seen>, p: nat, call: nat)
    requires p <= |seen| && seen <= more
    ensures OwnFrom(more, p, call) == OwnFrom(seen, p, call) + OwnFrom(more, |seen|, call)
    decreases |seen| - p
  {
    if p < |seen| {
      OwnSplits(seen, more, p + 1, call);
    }
  }

  lemma {:induction false} OwnOfNext(seen: seq<Seen>, e: Seen, more: seq<Seen>, call: nat)
    requires seen + [e] <= more && (e.Attributed? || e.Chosen?) && e.call == call
    ensures OwnFrom(more, |seen|, call) == [e] + OwnFrom(more, |seen| + 1, call)
  {
    assert more[|seen|] == (seen + [e])[|seen|] == e;
  }

  lemma {:induction false} FlatKeepsContexts(body: Body)
    requires KeepsContexts(body)
    ensures KeepsContexts(Flat(body))
  {
    if body.Do? {
      FlatKeepsContexts(body.rest);
    }
  }

  /** Inner calls that create and destroy no contexts are invisible to the outer call: what is seen of it
      is as if they had not been made, whatever they choose. */
  lemma {:induction false} InnerCallsAreInvisible(seen: seq<Seen>, flat: seq<Seen>, context: Context, call: nat,
                                                  effective: nat, body: Body, contexts: Registry)
    requires KeepsContexts(body) && call < |seen|
    ensures |Meaning(seen, context, call, effective, body, contexts).0| >= |seen|
    ensures |Meaning(flat, context, call, effective, Flat(body), contexts).0| >= |flat|
    ensures OwnFrom(Meaning(seen, context, call, effective, body, contexts).0, |seen|, call)
         == OwnFrom(Meaning(flat, context, call, effective, Flat(body), contexts).0, |flat|, call)
    decreases body, 0
  {
    MeaningAdds(seen, context, call, effective, body, contexts);
    FlatKeepsContexts(body);
    MeaningAdds(flat, context, call, effective, Flat(body), contexts);
    if body.Do? {
      match body.action {
        case HostCall =>
          var e := Attributed(call, context, ContextOrEffective(context, effective, contexts));
          SameAfterOwn(seen, flat, e, context, call, effective, body.rest, contexts);
        case SetEffectiveContext(id) =>
          var ok := CanSet(context, effective, id, contexts);
          SameAfterOwn(seen, flat, Chosen(call, id, ok), context, call, if ok then Truncated(id) else effective,
                       body.rest, contexts);
        case CallInto(other, inner) =>
          var seen1 := Called(seen, other, inner, contexts).0;
          CallAdds(seen, other, inner, contexts);
          MeaningAdds(seen1, context, call, effective, body.rest, contexts);
          OwnOfInner(seen1, |seen|, |seen|, call);
          OwnSplits(seen1, Meaning(seen1, context, call, effective, body.rest, contexts).0, |seen|, call);
          InnerCallsAreInvisible(seen1, flat, context, call, effective, body.rest, contexts);
      }
    }
  }

  lemma {:induction false} SameAfterOwn(seen: seq<Seen>, flat: seq<Seen>, e: Seen, context: Context, call: nat,
                                        effective: nat, rest: Body, contexts: Registry)
    requires KeepsContexts(rest) && call < |seen| && (e.Attributed? || e.Chosen?) && e.call == call
    ensures |Meaning(seen + [e], context, call, effective, rest, contexts).0| >= |seen|
    ensures |Meaning(flat + [e], context, call, effective, Flat(rest), contexts).0| >= |flat|
    ensures OwnFrom(Meaning(seen + [e], context, call, effective, rest, contexts).0, |seen|, call)
         == OwnFrom(Meaning(flat + [e], context, call, effective, Flat(rest), contexts).0, |flat|, call)
    decreases rest, 1
  {
    FlatKeepsContexts(rest);
    MeaningAdds(seen + [e], context, call, effective, rest, contexts);
    MeaningAdds(flat + [e], context, call, effective, Flat(rest), contexts);
    InnerCallsAreInvisible(seen + [e], flat + [e], context, call, effective, rest, contexts);
    OwnOfNext(seen, e, Meaning(seen + [e], context, call, effective, rest, contexts).0, call);
    OwnOfNext(flat, e, Meaning(flat + [e], context, call, effective, Flat(rest), contexts).0, call);
  }

  // ---- Everything is seen ----

  /** A thing seen, without what the host decided. */
  function Outlined(e: Seen): Seen {
    match e
    case Attributed(call, caller, _) => Attributed(call, caller, caller)
    case Chosen(call, id, _) => Chosen(call, id, true)
    case _ => e
  }

  function Outlines(seen: seq<Seen>): seq<Seen> {
    seq(|seen|, i requires 0 <= i < |seen| => Outlined(seen[i]))
  }

  /** What a body must show, action by action, if the next thing is seen at position `at`. */
  function Expected(context: Context, call: nat, body: Body, at: nat): seq<Seen>
    decreases body
  {
    if !body.Do? then
      []
    else
      var first := match body.action
                   case HostCall => [Attributed(call, context, context)]
                   case SetEffectiveContext(id) => [Chosen(call, id, true)]
                   case CallInto(other, inner) => [Entered(other)] + Expected(other, at, inner, at + 1)
                   case Create(vm, id, serial) => [Created(vm, id, Context(vm, serial))]
                   case Destroy(vm, id) => [Destroyed(vm, id)];
      first + Expected(context, call, body.rest, at + |first|)
  }

  lemma {:induction false} OutlinesOneMore(seen: seq<Seen>, e: Seen)
    ensures Outlines(seen + [e]) == Outlines(seen) + [Outlined(e)]
  {
  }

  lemma {:induction false} Regrouped(x: seq<Seen>, y: seq<Seen>, z: seq<Seen>)
    ensures x + y + z == x + (y + z)
  {
  }

  /** Every host function called, every choice made, every inner call and every context that comes or goes
      is seen, in order, in the call that it belongs to. */
  lemma {:induction false} CallIsSeen(seen: seq<Seen>, context: Context, body: Body, contexts: Registry)
    ensures Outlines(Called(seen, context, body, contexts).0)
         == Outlines(seen) + ([Entered(context)] + Expected(context, |seen|, body, |seen| + 1))
    decreases body, 1
  {
    OutlinesOneMore(seen, Entered(context));
    MeaningIsSeen(seen + [Entered(context)], context, |seen|, 0, body, contexts);
    Regrouped(Outlines(seen), [Entered(context)], Expected(context, |seen|, body, |seen| + 1));
  }

  lemma {:induction false} MeaningIsSeen(seen: seq<Seen>, context: Context, call: nat, effective: nat, body: Body,
                                         contexts: Registry)
    ensures Outlines(Meaning(seen, context, call, effective, body, contexts).0)
         == Outlines(seen) + Expected(context, call, body, |seen|)
    decreases body, 0
  {
    if !body.Do? {
      assert Outlines(seen) + [] == Outlines(seen);
    } else {
      match body.action {
        case HostCall =>
          var e := Attributed(call, context, ContextOrEffective(context, effective, contexts));
          OneMoreIsSeen(seen, e, context, call, effective, body.rest, contexts);
        case SetEffectiveContext(id) =>
          var ok := CanSet(context, effective, id, contexts);
          OneMoreIsSeen(seen, Chosen(call, id, ok), context, call, if ok then Truncated(id) else effective, body.rest, contexts);
        case CallInto(other, inner) =>
          var (seen1, contexts1) := Called(seen, other, inner, contexts);
          CallIsSeen(seen, other, inner, contexts);
          var first := [Entered(other)] + Expected(other, |seen|, inner, |seen| + 1);
          assert |seen1| == |Outlines(seen1)| == |seen| + |first|;
          MeaningIsSeen(seen1, context, call, effective, body.rest, contexts1);
          Regrouped(Outlines(seen), first, Expected(context, call, body.rest, |seen1|));
        case Create(vm, id, serial) =>
          OneMoreIsSeen(seen, Created(vm, id, Context(vm, serial)), context, call, effective, body.rest,
                        contexts[(vm, id) := Context(vm, serial)]);
        case Destroy(vm, id) =>
          OneMoreIsSeen(seen, Destroyed(vm, id), context, call, effective, body.rest, contexts - {(vm, id)});
      }
    }
  }

  lemma {:induction false} OneMoreIsSeen(seen: seq<Seen>, e: Seen, context: Context, call: nat, effective: nat, rest: Body,
                                         contexts: Registry)
    ensures Outlines(Meaning(seen + [e], context, call, effective, rest, contexts).0)
         == Outlines(seen) + ([Outlined(e)] + Expected(context, call, rest, |seen| + 1))
    decreases rest, 1
  {
    OutlinesOneMore(seen, e);
    MeaningIsSeen(seen + [e], context, call, effective, rest, contexts);
    Regrouped(Outlines(seen), [Outlined(e)], Expected(context, call, rest, |seen| + 1));
  }
}
