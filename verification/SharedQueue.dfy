/**
 SharedQueue: named queues shared between VMs. Every locked method body is one atomic step; the
 class takes the steps, and the runs below are any interleaving of them.
 */
module SharedQueue {
  import opened Bytes

  /** A VM id and a queue name. */
  type Key = (string, string)

  /** A call_on_thread function, by its identity. */
  type Callback(==) = nat

  datatype Queue = Queue(vmKey: string, contextId: nat, callOnThread: Callback, items: seq<string>)

  /** Whom enqueue tells about a new item, outside the lock. */
  datatype Notification = Notification(vmKey: string, contextId: nat, callOnThread: Callback, token: nat)

  datatype WasmResult = Ok | NotFound | Empty

  /** The token `tries` places after `next`, with 32-bit wraparound. */
  function Ring(next: nat, tries: nat): nat {
    if next + tries < U32 then next + tries else next + tries - U32
  }

  /** `token` is the first one in ring order that is neither 0 nor in use. */
  ghost predicate IsNextToken(next: nat, used: set<nat>, tries: nat, token: nat) {
    && tries < U32 && token == Ring(next, tries)
    && token != 0 && token !in used
    && forall d | 0 <= d < tries :: Ring(next, d) == 0 || Ring(next, d) in used
  }

  lemma {:induction false} NextTokenIsUnique(next: nat, used: set<nat>, tries: nat, token: nat, tries': nat, token': nat)
    requires IsNextToken(next, used, tries, token) && IsNextToken(next, used, tries', token')
    ensures tries == tries' && token == token'
  {
    if tries < tries' {
      NotBefore(next, used, tries', token', tries);
    } else if tries' < tries {
      NotBefore(next, used, tries, token, tries');
    }
  }

  lemma {:induction false} NotBefore(next: nat, used: set<nat>, tries: nat, token: nat, d: nat)
    requires IsNextToken(next, used, tries, token) && d < tries
    ensures !IsNextToken(next, used, d, Ring(next, d))
  {
    assert Ring(next, d) == 0 || Ring(next, d) in used;
  }

  /** There is a next token exactly if not all of the 2^32 - 1 valid ones are in use. */
  lemma {:induction false} NextTokenExactlyIf(next: nat, used: set<nat>)
    requires next < U32
    ensures (exists tries: nat, token: nat :: IsNextToken(next, used, tries, token)) <==> (exists t: nat :: 0 < t < U32 && t !in used)
  {
    if tries: nat, token: nat :| IsNextToken(next, used, tries, token) {
      assert 0 < token < U32 && token !in used;
    }
    if t: nat :| 0 < t < U32 && t !in used {
      var tries := FirstFrom(next, used, 0, if next <= t then t - next else t + U32 - next);
    }
  }

  lemma {:induction false} FirstFrom(next: nat, used: set<nat>, from: nat, free: nat) returns (tries: nat)
    requires from <= free < U32 && Ring(next, free) != 0 && Ring(next, free) !in used
    requires forall d | 0 <= d < from :: Ring(next, d) == 0 || Ring(next, d) in used
    ensures IsNextToken(next, used, tries, Ring(next, tries))
    decreases free - from
  {
    if Ring(next, from) == 0 || Ring(next, from) in used {
      tries := FirstFrom(next, used, from + 1, free);
    } else {
      tries := from;
    }
  }

  /** Keys and live tokens are one to one. */
  ghost predicate OneToOne(tokens: map<Key, nat>, live: set<nat>) {
    && (forall k | k in tokens :: tokens[k] in live)
    && (forall t | t in live :: 0 < t < U32 && exists k :: k in tokens && tokens[k] == t)
    && (forall k, l | k in tokens && l in tokens && tokens[k] == tokens[l] :: k == l)
  }

  /** The keys listed for a VM are its own, and all of its own. */
  ghost predicate Listed(tokens: map<Key, nat>, vmKeys: map<string, set<Key>>) {
    && (forall k | k in tokens :: k.0 in vmKeys && k in vmKeys[k.0])
    && (forall vm, k | vm in vmKeys && k in vmKeys[vm] :: k.0 == vm && k in tokens)
  }

  /** The state of the store. */
  datatype Store = Store(next: nat, vmKeys: map<string, set<Key>>, tokens: map<Key, nat>, queues: map<nat, Queue>) {
    ghost predicate Valid() {
      next < U32 && OneToOne(tokens, queues.Keys) && Listed(tokens, vmKeys)
    }
  }

  const INITIAL := Store(1, map[], map[], map[])

  function Registered(s: Store, key: Key, contextId: nat, callOnThread: Callback, vmKey: string,
                      tries: nat, token: nat): Store
  {
    var items := if token in s.queues then s.queues[token].items else [];
    var queues := s.queues[token := Queue(vmKey, contextId, callOnThread, items)];
    if key in s.tokens then
      s.(queues := queues)
    else
      var keys := if key.0 in s.vmKeys then s.vmKeys[key.0] else {};
      Store(Ring(s.next, tries + 1), s.vmKeys[key.0 := keys + {key}], s.tokens[key := token], queues)
  }

  /** The token that a registration returns: a new key gets the next free one. */
  ghost predicate MayRegister(s: Store, key: Key, tries: nat, token: nat) {
    if key in s.tokens then token == s.tokens[key] else IsNextToken(s.next, s.queues.Keys, tries, token)
  }

  function Enqueued(s: Store, token: nat, value: string): Store {
    if token !in s.queues then s
    else
      var q := s.queues[token];
      s.(queues := s.queues[token := q.(items := q.items + [value])])
  }

  function Dequeued(s: Store, token: nat): Store {
    if token !in s.queues || s.queues[token].items == [] then s
    else
      var q := s.queues[token];
      s.(queues := s.queues[token := q.(items := q.items[1..])])
  }

  /** Exactly the keys of one VM are gone, with the queues behind them. */
  ghost function Deleted(s: Store, vmId: string): Store {
    Store(s.next,
          s.vmKeys - {vmId},
          map k | k in s.tokens && k.0 != vmId :: s.tokens[k],
          map t | t in s.queues && !OwnedBy(s, t, vmId) :: s.queues[t])
  }

  ghost predicate OwnedBy(s: Store, token: nat, vmId: string) {
    exists k :: k in s.tokens && s.tokens[k] == token && k.0 == vmId
  }

  class SharedQueue {
    var nextQueueToken: nat
    var vmQueueKeys: map<string, set<Key>>
    var queueTokens: map<Key, nat>
    var queues: map<nat, Queue>

    ghost function State(): Store
      reads this
    {
      Store(nextQueueToken, vmQueueKeys, queueTokens, queues)
    }

    constructor ()
      ensures State() == INITIAL && State().Valid()
    {
      nextQueueToken := 1;
      vmQueueKeys, queueTokens, queues := map[], map[], map[];
    }

    /** Gives out the first free token in ring order, after at most |queues| + 2 tries. */
    method NextQueueToken() returns (token: nat, ghost tries: nat)
      requires nextQueueToken < U32 && |queues| < U32 - 1
      modifies this`nextQueueToken
      ensures IsNextToken(old(nextQueueToken), queues.Keys, tries, token) && tries + 1 <= |queues| + 2
      ensures nextQueueToken == Ring(old(nextQueueToken), tries + 1)
    {
      tries := 0;
      ghost var start, visited: set<nat> := nextQueueToken, {};
      while true
        invariant tries <= |queues| + 1 && nextQueueToken == Ring(start, tries)
        invariant |visited| == tries && forall x | x in visited :: exists d :: 0 <= d < tries && x == Ring(start, d)
        invariant forall d | 0 <= d < tries :: Ring(start, d) == 0 || Ring(start, d) in queues
        decreases |queues| + 1 - tries
      {
        token := nextQueueToken;
        nextQueueToken := if token + 1 == U32 then 0 else token + 1;
        if token != 0 && token !in queues {
          return;
        }
        assert token !in visited;
        visited, tries := visited + {token}, tries + 1;
        FewVisited(visited, start, tries, queues.Keys);
      }
    }

    /** SharedQueue::registerQueue. */
    method RegisterQueue(vmId: string, queueName: string, contextId: nat, callOnThread: Callback, vmKey: string)
      returns (token: nat, ghost tries: nat)
      requires State().Valid()
      requires (vmId, queueName) in queueTokens || |queues| < U32 - 1
      modifies this
      ensures State().Valid()
      ensures MayRegister(old(State()), (vmId, queueName), tries, token)
      ensures State() == Registered(old(State()), (vmId, queueName), contextId, callOnThread, vmKey, tries, token)
    {
      var key := (vmId, queueName);
      tries := 0;
      if key !in queueTokens {
        ghost var was := queueTokens;
        queueTokens := queueTokens[key := 0];
        token, tries := NextQueueToken();
        queueTokens := queueTokens[key := token];
        assert queueTokens == was[key := token];
        var queueKeys := if vmId in vmQueueKeys then vmQueueKeys[vmId] else {};
        vmQueueKeys := vmQueueKeys[vmId := queueKeys + {key}];
      }
      token := queueTokens[key];
      var items := if token in queues then queues[token].items else [];
      queues := queues[token := Queue(vmKey, contextId, callOnThread, items)];
      RegisterKeepsValid(old(State()), key, contextId, callOnThread, vmKey, tries, token);
    }

    /** SharedQueue::resolveQueue: 0 if there is no such queue. */
    method ResolveQueue(vmId: string, queueName: string) returns (token: nat)
      requires State().Valid()
      ensures token == 0 <==> (vmId, queueName) !in queueTokens
      ensures token != 0 ==> token == queueTokens[(vmId, queueName)] && token in queues
    {
      token := if (vmId, queueName) in queueTokens then queueTokens[(vmId, queueName)] else 0;
    }

    /** SharedQueue::enqueue; whom to notify is read under the lock. */
    method Enqueue(token: nat, value: string) returns (result: WasmResult, notify: Option<Notification>)
      requires State().Valid()
      modifies this`queues
      ensures State().Valid()
      ensures State() == Enqueued(old(State()), token, value)
      ensures result == EnqueueResult(old(State()), token)
      ensures notify == Notified(old(State()), token)
    {
      if token !in queues {
        return NotFound, None;
      }
      var target := queues[token];
      notify := Some(Notification(target.vmKey, target.contextId, target.callOnThread, token));
      QueueKeepsValid(State(), token, target.(items := target.items + [value]));
      queues := queues[token := target.(items := target.items + [value])];
      result := Ok;
    }

    /** SharedQueue::dequeue. */
    method Dequeue(token: nat) returns (result: WasmResult, data: Option<string>)
      requires State().Valid()
      modifies this`queues
      ensures State().Valid()
      ensures State() == Dequeued(old(State()), token)
      ensures (result, data) == DequeueResult(old(State()), token)
    {
      if token !in queues {
        return NotFound, None;
      }
      var q := queues[token];
      if q.items == [] {
        return Empty, None;
      }
      data := Some(q.items[0]);
      QueueKeepsValid(State(), token, q.(items := q.items[1..]));
      queues := queues[token := q.(items := q.items[1..])];
      result := Ok;
    }

    /** SharedQueue::deleteByVmId. */
    method DeleteByVmId(vmId: string)
      requires State().Valid()
      modifies this
      ensures State().Valid()
      ensures State() == Deleted(old(State()), vmId)
    {
      if vmId in vmQueueKeys {
        ghost var was := State();
        var keys := vmQueueKeys[vmId];
        NoKeyDeleted(was, vmId);
        while keys != {}
          invariant keys <= was.vmKeys[vmId] && vmQueueKeys == was.vmKeys && nextQueueToken == was.next
          invariant queueTokens == TokensLeft(was, vmId, keys) && queues == QueuesLeft(was, vmId, keys)
        {
          var key :| key in keys;
          OneKeyDeleted(was, vmId, keys, key);
          keys := keys - {key};
          if key in queueTokens {
            queues := queues - {queueTokens[key]};
            queueTokens := queueTokens - {key};
          }
        }
        AllKeysDeleted(was, vmId);
        vmQueueKeys := vmQueueKeys - {vmId};
      } else {
        NothingToDelete(State(), vmId);
      }
      DeleteKeepsValid(old(State()), vmId);
    }
  }

  /** Whom an item put into the queue is announced to. */
  function Notified(s: Store, token: nat): Option<Notification> {
    if token !in s.queues then None
    else Some(Notification(s.queues[token].vmKey, s.queues[token].contextId, s.queues[token].callOnThread, token))
  }

  function EnqueueResult(s: Store, token: nat): WasmResult {
    if token in s.queues then Ok else NotFound
  }

  function DequeueResult(s: Store, token: nat): (WasmResult, Option<string>) {
    if token !in s.queues then (NotFound, None)
    else if s.queues[token].items == [] then (Empty, None)
    else (Ok, Some(s.queues[token].items[0]))
  }

  /** The queue belongs to a key of the VM that has been deleted already. */
  ghost predicate OwnedOutside(s: Store, token: nat, vmId: string, keys: set<Key>) {
    exists k :: k in s.tokens && s.tokens[k] == token && k.0 == vmId && k !in keys
  }

  /** The tokens and the queues that are there until the keys in `keys` are deleted as well. */
  ghost function TokensLeft(s: Store, vmId: string, keys: set<Key>): map<Key, nat> {
    map k | k in s.tokens && (k.0 != vmId || k in keys) :: s.tokens[k]
  }

  ghost function QueuesLeft(s: Store, vmId: string, keys: set<Key>): map<nat, Queue> {
    map t | t in s.queues && !OwnedOutside(s, t, vmId, keys) :: s.queues[t]
  }

  lemma {:induction false} OneKeyDeleted(s: Store, vmId: string, keys: set<Key>, key: Key)
    requires s.Valid() && vmId in s.vmKeys && keys <= s.vmKeys[vmId] && key in keys
    ensures key in TokensLeft(s, vmId, keys) && TokensLeft(s, vmId, keys)[key] == s.tokens[key]
    ensures TokensLeft(s, vmId, keys - {key}) == TokensLeft(s, vmId, keys) - {key}
    ensures QueuesLeft(s, vmId, keys - {key}) == QueuesLeft(s, vmId, keys) - {s.tokens[key]}
  {
    assert key.0 == vmId && key in s.tokens;
    OneTokenDeleted(s, vmId, keys, key);
    OneQueueDeleted(s, vmId, keys, key);
  }

  lemma {:induction false} OneTokenDeleted(s: Store, vmId: string, keys: set<Key>, key: Key)
    requires key in s.tokens && key.0 == vmId && key in keys
    ensures TokensLeft(s, vmId, keys - {key}) == TokensLeft(s, vmId, keys) - {key}
  {
  }

  lemma {:induction false} OneQueueDeleted(s: Store, vmId: string, keys: set<Key>, key: Key)
    requires key in s.tokens && key.0 == vmId && key in keys
    ensures QueuesLeft(s, vmId, keys - {key}) == QueuesLeft(s, vmId, keys) - {s.tokens[key]}
  {
    OneMoreOutside(s, vmId, keys, key);
  }

  lemma {:induction false} OneMoreOutside(s: Store, vmId: string, keys: set<Key>, key: Key)
    requires key in s.tokens && key.0 == vmId && key in keys
    ensures forall t :: OwnedOutside(s, t, vmId, keys - {key}) <==> OwnedOutside(s, t, vmId, keys) || t == s.tokens[key]
  {
    forall t
      ensures OwnedOutside(s, t, vmId, keys - {key}) <==> OwnedOutside(s, t, vmId, keys) || t == s.tokens[key]
    {
      if OwnedOutside(s, t, vmId, keys) {
        var k :| k in s.tokens && s.tokens[k] == t && k.0 == vmId && k !in keys;
        assert k !in keys - {key};
      }
    }
  }

  lemma {:induction false} NoKeyDeleted(s: Store, vmId: string)
    requires s.Valid() && vmId in s.vmKeys
    ensures TokensLeft(s, vmId, s.vmKeys[vmId]) == s.tokens && QueuesLeft(s, vmId, s.vmKeys[vmId]) == s.queues
  {
  }

  lemma {:induction false} AllKeysDeleted(s: Store, vmId: string)
    ensures TokensLeft(s, vmId, {}) == Deleted(s, vmId).tokens && QueuesLeft(s, vmId, {}) == Deleted(s, vmId).queues
  {
    forall t ensures OwnedOutside(s, t, vmId, {}) <==> OwnedBy(s, t, vmId) {
      if OwnedBy(s, t, vmId) {
        var k :| k in s.tokens && s.tokens[k] == t && k.0 == vmId;
        assert k !in {};
      }
    }
  }

  lemma {:induction false} NothingToDelete(s: Store, vmId: string)
    requires s.Valid() && vmId !in s.vmKeys
    ensures Deleted(s, vmId) == s
  {
  }

  /** Tries that all failed were at different tokens, each of them 0 or in use. */
  lemma {:induction false} FewVisited(visited: set<nat>, start: nat, tries: nat, used: set<nat>)
    requires forall x | x in visited :: exists d :: 0 <= d < tries && x == Ring(start, d)
    requires forall d | 0 <= d < tries :: Ring(start, d) == 0 || Ring(start, d) in used
    ensures |visited| <= |used| + 1
  {
    assert visited <= used + {0};
    Smaller(visited, used + {0});
  }

  lemma {:induction false} Smaller(x: set<nat>, y: set<nat>)
    requires x <= y
    ensures |x| <= |y|
  {
    if x != {} {
      var e :| e in x;
      Smaller(x - {e}, y - {e});
    }
  }

  // ---- Runs ----

  /** One locked step, with what it was called with and what came of it. `tries` is how often the
      token allocator looked. */
  datatype Event =
    | Register(key: Key, contextId: nat, callOnThread: Callback, vmKey: string, tries: nat, token: nat)
    | Resolve(key: Key, token: nat)
    | Enqueue(token: nat, value: string, result: WasmResult, notify: Option<Notification>)
    | Dequeue(token: nat, result: WasmResult, data: Option<string>)
    | DeleteByVmId(vmId: string)

  ghost predicate Step(s: Store, e: Event, s': Store) {
    match e
    case Register(key, contextId, callOnThread, vmKey, tries, token) =>
      && MayRegister(s, key, tries, token)
      && s' == Registered(s, key, contextId, callOnThread, vmKey, tries, token)
    case Resolve(key, token) =>
      s' == s && token == if key in s.tokens then s.tokens[key] else 0
    case Enqueue(token, value, result, notify) =>
      s' == Enqueued(s, token, value) && result == EnqueueResult(s, token) && notify == Notified(s, token)
    case Dequeue(token, result, data) =>
      s' == Dequeued(s, token) && (result, data) == DequeueResult(s, token)
    case DeleteByVmId(vmId) =>
      s' == Deleted(s, vmId)
  }

  /** Every step keeps the store consistent. */
  lemma {:induction false} StepKeepsValid(s: Store, e: Event, s': Store)
    requires s.Valid() && Step(s, e, s')
    ensures s'.Valid()
  {
    match e {
      case Register(key, contextId, callOnThread, vmKey, tries, token) =>
        RegisterKeepsValid(s, key, contextId, callOnThread, vmKey, tries, token);
      case Resolve(_, _) =>
      case Enqueue(token, value, _, _) =>
        if token in s.queues {
          QueueKeepsValid(s, token, s'.queues[token]);
        }
      case Dequeue(token, _, _) =>
        if token in s.queues && s' != s {
          QueueKeepsValid(s, token, s'.queues[token]);
        }
      case DeleteByVmId(vmId) =>
        DeleteKeepsValid(s, vmId);
    }
  }

  lemma {:induction false} QueueKeepsValid(s: Store, token: nat, q: Queue)
    requires s.Valid() && token in s.queues
    ensures s.(queues := s.queues[token := q]).Valid()
  {
    assert s.queues[token := q].Keys == s.queues.Keys;
  }

  lemma {:induction false} RegisterKeepsValid(s: Store, key: Key, contextId: nat, callOnThread: Callback,
                                              vmKey: string, tries: nat, token: nat)
    requires s.Valid() && MayRegister(s, key, tries, token)
    ensures Registered(s, key, contextId, callOnThread, vmKey, tries, token).Valid()
  {
    var s' := Registered(s, key, contextId, callOnThread, vmKey, tries, token);
    if key in s.tokens {
      QueueKeepsValid(s, token, s'.queues[token]);
    } else {
      NewTokenOneToOne(s.tokens, s.queues.Keys, key, token);
      assert s'.queues.Keys == s.queues.Keys + {token};
      NewKeyListed(s.tokens, s.vmKeys, key, token);
    }
  }

  lemma {:induction false} NewTokenOneToOne(tokens: map<Key, nat>, live: set<nat>, key: Key, token: nat)
    requires OneToOne(tokens, live) && key !in tokens && token !in live && 0 < token < U32
    ensures OneToOne(tokens[key := token], live + {token})
  {
    var tokens' := tokens[key := token];
    forall t | t in live + {token} ensures exists k :: k in tokens' && tokens'[k] == t {
      if t == token {
        assert tokens'[key] == t;
      } else {
        var k :| k in tokens && tokens[k] == t;
        assert tokens'[k] == t;
      }
    }
  }

  lemma {:induction false} NewKeyListed(tokens: map<Key, nat>, vmKeys: map<string, set<Key>>, key: Key, token: nat)
    requires Listed(tokens, vmKeys)
    ensures Listed(tokens[key := token], vmKeys[key.0 := (if key.0 in vmKeys then vmKeys[key.0] else {}) + {key}])
  {
  }

  lemma {:induction false} OwnedByItsVm(s: Store, key: Key, vmId: string)
    requires s.Valid() && key in s.tokens
    ensures OwnedBy(s, s.tokens[key], vmId) <==> key.0 == vmId
  {
  }

  /** Deleting a VM takes away its own queues, all of them, and leaves every other key with its
      token and every other queue with its items. */
  lemma {:induction false} DeleteIsExact(s: Store, vmId: string, key: Key)
    requires s.Valid() && key in s.tokens
    ensures Deleted(s, vmId).next == s.next && vmId !in Deleted(s, vmId).vmKeys
    ensures key.0 == vmId ==> key !in Deleted(s, vmId).tokens && s.tokens[key] !in Deleted(s, vmId).queues
    ensures key.0 != vmId ==>
              && key in Deleted(s, vmId).tokens && Deleted(s, vmId).tokens[key] == s.tokens[key]
              && s.tokens[key] in Deleted(s, vmId).queues
              && Deleted(s, vmId).queues[s.tokens[key]] == s.queues[s.tokens[key]]
  {
    OwnedByItsVm(s, key, vmId);
  }

  lemma {:induction false} DeleteKeepsValid(s: Store, vmId: string)
    requires s.Valid()
    ensures Deleted(s, vmId).Valid()
  {
    DeletedOneToOne(s, vmId);
    DeletedListed(s, vmId);
  }

  lemma {:induction false} DeletedOneToOne(s: Store, vmId: string)
    requires s.Valid()
    ensures OneToOne(Deleted(s, vmId).tokens, Deleted(s, vmId).queues.Keys)
  {
    var s' := Deleted(s, vmId);
    forall k | k in s'.tokens ensures s'.tokens[k] in s'.queues {
      OwnedByItsVm(s, k, vmId);
    }
    forall t | t in s'.queues.Keys ensures 0 < t < U32 && exists k :: k in s'.tokens && s'.tokens[k] == t {
      var k :| k in s.tokens && s.tokens[k] == t;
      OwnedByItsVm(s, k, vmId);
      assert s'.tokens[k] == t;
    }
  }

  lemma {:induction false} DeletedListed(s: Store, vmId: string)
    requires s.Valid()
    ensures Listed(Deleted(s, vmId).tokens, Deleted(s, vmId).vmKeys)
  {
    var tokens, vmKeys := Deleted(s, vmId).tokens, Deleted(s, vmId).vmKeys;
    forall k | k in tokens ensures k.0 in vmKeys && k in vmKeys[k.0] {
      assert k in s.tokens;
    }
    forall vm, k: Key | vm in vmKeys && k in vmKeys[vm] ensures k.0 == vm && k in tokens {
      assert k in s.vmKeys[vm];
    }
  }

  /** Any interleaving of steps. */
  ghost predicate IsRun(states: seq<Store>, events: seq<Event>) {
    |states| == |events| + 1 && forall i {:trigger events[i]} | 0 <= i < |events| :: Step(states[i], events[i], states[i + 1])
  }

  lemma {:induction false} RunStaysValid(states: seq<Store>, events: seq<Event>, i: nat)
    requires IsRun(states, events) && i <= |events| && states[0].Valid()
    ensures states[i].Valid()
  {
    if i > 0 {
      RunStaysValid(states, events, i - 1);
      StepKeepsValid(states[i - 1], events[i - 1], states[i]);
    }
  }

  /** What a step puts into the queue, and what it takes from it. */
  function Put(e: Event, token: nat): seq<string> {
    if e.Enqueue? && e.token == token && e.result == Ok then [e.value] else []
  }

  function Taken(e: Event, token: nat): seq<string> {
    if e.Dequeue? && e.token == token && e.data.Some? then [e.data.value] else []
  }

  /** The values that events i..j put into the queue with Ok. */
  function Sent(events: seq<Event>, i: nat, j: nat, token: nat): seq<string>
    requires i <= j <= |events|
  {
    if i == j then [] else Sent(events, i, j - 1, token) + Put(events[j - 1], token)
  }

  /** The values that events i..j took from the queue. */
  function Received(events: seq<Event>, i: nat, j: nat, token: nat): seq<string>
    requires i <= j <= |events|
  {
    if i == j then [] else Received(events, i, j - 1, token) + Taken(events[j - 1], token)
  }

  /** The queue is there from state `i` to state `j`. */
  ghost predicate Lives(states: seq<Store>, i: nat, j: nat, token: nat) {
    i <= j < |states| && forall k | i <= k <= j :: token in states[k].queues
  }

  lemma {:induction false} StepMovesItems(s: Store, e: Event, s': Store, token: nat)
    requires Step(s, e, s') && token in s.queues && token in s'.queues
    ensures s.queues[token].items + Put(e, token) == Taken(e, token) + s'.queues[token].items
  {
  }

  /** First in, first out: as long as a queue lives, what it held at first and what was put into it,
      in that order, is what was taken from it followed by what it still holds. Registering it again
      loses nothing. */
  lemma {:induction false} Fifo(states: seq<Store>, events: seq<Event>, i: nat, j: nat, token: nat)
    requires IsRun(states, events) && Lives(states, i, j, token)
    ensures states[i].queues[token].items + Sent(events, i, j, token)
         == Received(events, i, j, token) + states[j].queues[token].items
  {
    forall k: nat | i <= k < j
      ensures Moves(states, events, k, token)
    {
      StepMovesItems(states[k], events[k], states[k + 1], token);
    }
    FifoChain(states, events, i, j, token);
  }

  /** The step appends to the queue what it puts there, and takes what it takes from the front. */
  ghost predicate Moves(states: seq<Store>, events: seq<Event>, k: nat, token: nat) {
    && k < |events| && k + 1 < |states| && token in states[k].queues && token in states[k + 1].queues
    && states[k].queues[token].items + Put(events[k], token)
    == Taken(events[k], token) + states[k + 1].queues[token].items
  }

  lemma {:induction false} FifoChain(states: seq<Store>, events: seq<Event>, i: nat, j: nat, token: nat)
    requires i <= j <= |events| < |states| && token in states[i].queues
    requires forall k: nat | i <= k < j :: Moves(states, events, k, token)
    ensures token in states[j].queues
    ensures states[i].queues[token].items + Sent(events, i, j, token)
         == Received(events, i, j, token) + states[j].queues[token].items
  {
    if i < j {
      FifoChain(states, events, i, j - 1, token);
      assert Moves(states, events, j - 1, token);
      Regroup(states[i].queues[token].items, Sent(events, i, j - 1, token), Received(events, i, j - 1, token),
              states[j - 1].queues[token].items, Put(events[j - 1], token), Taken(events[j - 1], token),
              states[j].queues[token].items);
    }
  }

  lemma {:induction false} Regroup(first: seq<string>, sent: seq<string>, received: seq<string>, was: seq<string>,
                                   put: seq<string>, taken: seq<string>, now: seq<string>)
    requires first + sent == received + was && was + put == taken + now
    ensures first + (sent + put) == received + taken + now
  {
    assert first + (sent + put) == first + sent + put == received + was + put;
    assert received + was + put == received + (was + put) == received + (taken + now);
  }

  /** From its creation on, a queue gives out exactly what was put into it, in order. */
  lemma {:induction false} FifoFromCreation(states: seq<Store>, events: seq<Event>, i: nat, j: nat, token: nat)
    requires IsRun(states, events) && i < |states| && token !in states[i].queues && Lives(states, i + 1, j, token)
    ensures Sent(events, i + 1, j, token) == Received(events, i + 1, j, token) + states[j].queues[token].items
  {
    CreatedEmpty(states[i], events[i], states[i + 1], token);
    Fifo(states, events, i + 1, j, token);
  }

  lemma {:induction false} CreatedEmpty(s: Store, e: Event, s': Store, token: nat)
    requires Step(s, e, s') && token !in s.queues && token in s'.queues
    ensures s'.queues[token].items == []
  {
  }

  /** As long as a queue lives its token belongs to the same key, so that resolving that key gives
      the same token. */
  lemma {:induction false} TokenStaysWithKey(states: seq<Store>, events: seq<Event>, i: nat, j: nat, key: Key)
    requires IsRun(states, events) && i <= j < |states|
    requires key in states[i].tokens && Lives(states, i, j, states[i].tokens[key])
    ensures key in states[j].tokens && states[j].tokens[key] == states[i].tokens[key]
  {
    if i < j {
      TokenStaysWithKey(states, events, i, j - 1, key);
      StepKeepsToken(states[j - 1], events[j - 1], states[j], key);
    }
  }

  lemma {:induction false} StepKeepsToken(s: Store, e: Event, s': Store, key: Key)
    requires Step(s, e, s') && key in s.tokens && s.tokens[key] in s'.queues
    ensures key in s'.tokens && s'.tokens[key] == s.tokens[key]
  {
    if e.DeleteByVmId? && key.0 == e.vmId {
      assert OwnedBy(s, s.tokens[key], e.vmId);
    }
  }

  /** Whom a registration of `key` names to be notified. */
  function Named(e: Event, key: Key, token: nat): Option<Notification> {
    if e.Register? && e.key == key then Some(Notification(e.vmKey, e.contextId, e.callOnThread, token)) else None
  }

  /** Whom the latest registration of `key` among events i..j names, or else `first`. */
  function LatestNamed(events: seq<Event>, i: nat, j: nat, key: Key, token: nat, first: Option<Notification>): Option<Notification>
    requires i <= j <= |events|
  {
    if i == j then first
    else if Named(events[j - 1], key, token).Some? then Named(events[j - 1], key, token)
    else LatestNamed(events, i, j - 1, key, token, first)
  }

  /** A queue that lives announces its items to whoever registered it last. */
  lemma {:induction false} NotifiesLatest(states: seq<Store>, events: seq<Event>, i: nat, j: nat, key: Key, token: nat)
    requires IsRun(states, events) && states[0].Valid() && i <= j < |states|
    requires key in states[i].tokens && states[i].tokens[key] == token && Lives(states, i, j, token)
    ensures Notified(states[j], token) == LatestNamed(events, i, j, key, token, Notified(states[i], token))
  {
    forall k: nat | i <= k < j
      ensures Renotifies(states, events, k, key, token)
    {
      TokenStaysWithKey(states, events, i, k, key);
      RunNotifies(states, events, k, key, token);
    }
    LatestChain(states, events, i, j, key, token);
  }

  /** The step makes the queue notify whom it names, if it names someone. */
  ghost predicate Renotifies(states: seq<Store>, events: seq<Event>, k: nat, key: Key, token: nat) {
    && k < |events| && k + 1 < |states|
    && Notified(states[k + 1], token)
    == if Named(events[k], key, token).Some? then Named(events[k], key, token) else Notified(states[k], token)
  }

  lemma {:induction false} LatestChain(states: seq<Store>, events: seq<Event>, i: nat, j: nat, key: Key, token: nat)
    requires i <= j <= |events| < |states| && forall k: nat | i <= k < j :: Renotifies(states, events, k, key, token)
    ensures Notified(states[j], token) == LatestNamed(events, i, j, key, token, Notified(states[i], token))
  {
    if i < j {
      LatestChain(states, events, i, j - 1, key, token);
      assert Renotifies(states, events, j - 1, key, token);
    }
  }

  lemma {:induction false} RunNotifies(states: seq<Store>, events: seq<Event>, k: nat, key: Key, token: nat)
    requires IsRun(states, events) && states[0].Valid() && k < |events|
    requires key in states[k].tokens && states[k].tokens[key] == token && token in states[k + 1].queues
    ensures Renotifies(states, events, k, key, token)
  {
    RunStaysValid(states, events, k);
    StepNotifies(states[k], events[k], states[k + 1], key, token);
  }

  lemma {:induction false} StepNotifies(s: Store, e: Event, s': Store, key: Key, token: nat)
    requires s.Valid() && Step(s, e, s')
    requires key in s.tokens && s.tokens[key] == token && token in s'.queues
    ensures Notified(s', token) == if Named(e, key, token).Some? then Named(e, key, token) else Notified(s, token)
  {
  }

  // ---- Stale tokens ----

  /** How far a step moves the allocator around the ring. */
  function Advance(s: Store, e: Event): nat {
    if e.Register? && e.key !in s.tokens then e.tries + 1 else 0
  }

  /** How far events i..j move it. */
  function Travelled(states: seq<Store>, events: seq<Event>, i: nat, j: nat): nat
    requires i <= j <= |events| <= |states|
  {
    if i == j then 0 else Travelled(states, events, i, j - 1) + Advance(states[j - 1], events[j - 1])
  }

  /** Where the allocator is after it has moved. */
  function Moved(next: nat, distance: nat): nat {
    (next + distance) % U32
  }

  lemma {:induction false} MovedTwice(next: nat, x: nat, y: nat)
    ensures Moved(Moved(next, x), y) == Moved(next, x + y)
  {
  }

  lemma {:induction false} StepAdvances(s: Store, e: Event, s': Store)
    requires Step(s, e, s')
    ensures s.next < U32 ==> s'.next < U32 && s'.next == Moved(s.next, Advance(s, e))
  {
  }

  lemma {:induction false} RunAdvances(states: seq<Store>, events: seq<Event>, i: nat, j: nat)
    requires IsRun(states, events) && i <= j <= |events| && states[i].next < U32
    ensures states[j].next < U32 && states[j].next == Moved(states[i].next, Travelled(states, events, i, j))
  {
    forall k: nat | i <= k < j
      ensures Advances(states, events, k)
    {
      StepAdvances(states[k], events[k], states[k + 1]);
    }
    AdvanceChain(states, events, i, j);
  }

  /** The step moves the allocator by its advance. */
  ghost predicate Advances(states: seq<Store>, events: seq<Event>, k: nat) {
    && k < |events| && k + 1 < |states|
    && (states[k].next < U32 ==>
          states[k + 1].next < U32 && states[k + 1].next == Moved(states[k].next, Advance(states[k], events[k])))
  }

  lemma {:induction false} AdvanceChain(states: seq<Store>, events: seq<Event>, i: nat, j: nat)
    requires i <= j <= |events| < |states| && states[i].next < U32
    requires forall k: nat | i <= k < j :: Advances(states, events, k)
    ensures states[j].next < U32 && states[j].next == Moved(states[i].next, Travelled(states, events, i, j))
  {
    if i < j {
      AdvanceChain(states, events, i, j - 1);
      assert Advances(states, events, j - 1);
      MovedTwice(states[i].next, Travelled(states, events, i, j - 1), Advance(states[j - 1], events[j - 1]));
    }
  }

  /** The event gives the token to a new key. */
  ghost predicate Issues(s: Store, e: Event, token: nat) {
    e.Register? && e.key !in s.tokens && e.token == token
  }

  lemma {:induction false} NextAfterIssue(s: Store, e: Event, s': Store, token: nat)
    requires Step(s, e, s') && s.next < U32 && Issues(s, e, token)
    ensures s'.next == Moved(token, 1) && Advance(s, e) > 0
  {
  }

  /** A token that has been issued, whether its queue is still there or has been deleted, is not issued
      again until the allocator has gone around the whole ring. */
  lemma {:induction false} NotReissuedWithinARound(states: seq<Store>, events: seq<Event>, i: nat, j: nat, token: nat)
    requires IsRun(states, events) && states[0].Valid() && i < j < |events|
    requires Issues(states[i], events[i], token) && Issues(states[j], events[j], token)
    ensures Travelled(states, events, i + 1, j + 1) >= U32
    ensures Travelled(states, events, i + 1, j + 1) % U32 == 0
  {
    RunStaysValid(states, events, i);
    RunStaysValid(states, events, j);
    NextAfterIssue(states[i], events[i], states[i + 1], token);
    NextAfterIssue(states[j], events[j], states[j + 1], token);
    RunAdvances(states, events, i + 1, j + 1);
    FullRound(states[i + 1].next, Travelled(states, events, i + 1, j + 1));
  }

  lemma {:induction false} FullRound(x: nat, d: nat)
    requires x < U32 && d > 0 && Moved(x, d) == x
    ensures d >= U32 && d % U32 == 0
  {
  }

  // ---- What the steps do, in the fields ----

  /** Every queue but this one is as before, and so is everything else. */
  ghost predicate OnlyQueueChanges(s: Store, s': Store, token: nat) {
    && s'.next == s.next && s'.vmKeys == s.vmKeys && s'.tokens == s.tokens
    && forall t | t != token :: (t in s.queues <==> t in s'.queues) && (t in s.queues ==> s'.queues[t] == s.queues[t])
  }

  /** Registering: the key has the token, its queue has the new parameters, and all other keys and
      queues are as before. A known key keeps its token and its items; a new one gets the first free
      nonzero token in ring order and an empty queue, and the allocator goes on behind it. */
  lemma {:induction false} RegisterMeaning(s: Store, s': Store, key: Key, contextId: nat, callOnThread: Callback,
                                           vmKey: string, tries: nat, token: nat)
    requires s.Valid() && Step(s, Register(key, contextId, callOnThread, vmKey, tries, token), s')
    ensures key in s'.tokens && s'.tokens[key] == token && token in s'.queues
    ensures s'.queues[token].vmKey == vmKey && s'.queues[token].contextId == contextId
    ensures s'.queues[token].callOnThread == callOnThread
    ensures key in s.tokens ==>
              && token == s.tokens[key] && token in s.queues && s'.queues[token].items == s.queues[token].items
              && s'.next == s.next && s'.vmKeys == s.vmKeys && s'.tokens == s.tokens
    ensures key !in s.tokens ==>
              && token != 0 && token !in s.queues && s'.queues[token].items == []
              && token == (s.next + tries) % 0x1_0000_0000 && s'.next == (token + 1) % 0x1_0000_0000
              && forall t: nat | t !in s.queues && 0 < t < 0x1_0000_0000 :: tries <= Distance(s.next, t)
    ensures forall k | k != key :: (k in s.tokens <==> k in s'.tokens) && (k in s.tokens ==> s'.tokens[k] == s.tokens[k])
    ensures forall t | t != token :: (t in s.queues <==> t in s'.queues) && (t in s.queues ==> s'.queues[t] == s.queues[t])
  {
    if key !in s.tokens {
      RingModulo(s.next, tries);
      forall t: nat | t !in s.queues && 0 < t < 0x1_0000_0000
        ensures tries <= Distance(s.next, t)
      {
        assert Ring(s.next, Distance(s.next, t)) == t;
      }
    }
  }

  /** How far a token is ahead on the ring. */
  function Distance(next: nat, token: nat): int {
    if next <= token then token - next else token + 0x1_0000_0000 - next
  }

  lemma {:induction false} RingModulo(next: nat, tries: nat)
    requires next < U32 && tries < U32
    ensures Ring(next, tries) == (next + tries) % U32
    ensures Ring(next, tries + 1) == (Ring(next, tries) + 1) % U32
  {
  }

  /** Resolving: the key's token, or 0. */
  lemma {:induction false} ResolveMeaning(s: Store, s': Store, key: Key, token: nat)
    requires s.Valid() && Step(s, Resolve(key, token), s')
    ensures s' == s && (key in s.tokens ==> token == s.tokens[key] && token != 0) && (key !in s.tokens ==> token == 0)
  {
  }

  /** Enqueuing: the item goes to the end of the queue, and whoever registered it is named; with an
      unknown token nothing happens. */
  lemma {:induction false} EnqueueMeaning(s: Store, s': Store, token: nat, value: string, result: WasmResult,
                                          notify: Option<Notification>)
    requires Step(s, Enqueue(token, value, result, notify), s')
    ensures token !in s.queues ==> result == NotFound && notify == None && s' == s
    ensures token in s.queues ==>
              && result == Ok && OnlyQueueChanges(s, s', token) && token in s'.queues
              && s'.queues[token] == s.queues[token].(items := s.queues[token].items + [value])
              && notify.Some? && notify.value.vmKey == s.queues[token].vmKey && notify.value.token == token
              && notify.value.contextId == s.queues[token].contextId
              && notify.value.callOnThread == s.queues[token].callOnThread
  {
  }

  /** Dequeuing: the first item is taken from the queue; with an unknown token or an empty queue nothing
      happens, and the answers differ. */
  lemma {:induction false} DequeueMeaning(s: Store, s': Store, token: nat, result: WasmResult, data: Option<string>)
    requires Step(s, Dequeue(token, result, data), s')
    ensures token !in s.queues ==> result == NotFound && data == None && s' == s
    ensures token in s.queues && s.queues[token].items == [] ==> result == Empty && data == None && s' == s
    ensures token in s.queues && s.queues[token].items != [] ==>
              && result == Ok && data == Some(s.queues[token].items[0])
              && OnlyQueueChanges(s, s', token) && token in s'.queues
              && s'.queues[token] == s.queues[token].(items := s.queues[token].items[1..])
  {
  }

  /** From its first registration on, as long as the queue lives: every enqueue succeeds and names whoever
      registered it last, and every dequeue succeeds unless all items sent have been received. */
  lemma {:induction false} LivingQueueAnswers(states: seq<Store>, events: seq<Event>, i: nat, j: nat, key: Key, token: nat)
    requires IsRun(states, events) && states[0].Valid() && i < j < |events|
    requires events[i].Register? && events[i].key == key && events[i].token == token
    requires key !in states[i].tokens && Lives(states, i + 1, j, token)
    ensures events[j].Enqueue? && events[j].token == token ==>
              events[j].result == Ok && events[j].notify == LatestNamed(events, i, j, key, token, None)
    ensures events[j].Dequeue? && events[j].token == token ==>
              && (events[j].result == Ok <==> |Received(events, i + 1, j, token)| < |Sent(events, i + 1, j, token)|)
              && (events[j].result != Ok ==> events[j].result == Empty && events[j].data == None)
              && (events[j].result == Ok ==>
                    |Received(events, i + 1, j, token)| < |Sent(events, i + 1, j, token)|
                    && events[j].data == Some(Sent(events, i + 1, j, token)[|Received(events, i + 1, j, token)|]))
  {
    var e := events[i];
    RunStaysValid(states, events, i);
    RegisterMeaning(states[i], states[i + 1], key, e.contextId, e.callOnThread, e.vmKey, e.tries, token);
    if events[j].Enqueue? && events[j].token == token {
      NotifiesLatest(states, events, i + 1, j, key, token);
      EnqueueMeaning(states[j], states[j + 1], token, events[j].value, events[j].result, events[j].notify);
      LatestFrom(events, i, j, key, token);
    }
    if events[j].Dequeue? && events[j].token == token {
      FifoFromCreation(states, events, i, j, token);
      DequeueMeaning(states[j], states[j + 1], token, events[j].result, events[j].data);
    }
  }

  lemma {:induction false} LatestFrom(events: seq<Event>, i: nat, j: nat, key: Key, token: nat)
    requires i < j <= |events| && Named(events[i], key, token).Some?
    ensures LatestNamed(events, i, j, key, token, None)
         == LatestNamed(events, i + 1, j, key, token, Named(events[i], key, token))
  {
    if i + 1 < j {
      LatestFrom(events, i, j - 1, key, token);
    }
  }
}
