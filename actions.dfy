/** The actions of core.ts that change running calls: pause and resume mark the
    active calls of the target elements, stop/finish/finishAll end them, optionally
    clearing the elements' pending queues. */
module Actions {
  import opened Types
  import opened Queues
  import opened Ticks

  /** The `options` argument of an action: undefined, a boolean, a string, or anything else. */
  datatype Arg = Undefined | Bool(b: bool) | Str(s: string) | Other

  /** `queueName`: `options`, or the default queue "" when it is undefined. */
  function QueueName(arg: Arg): (r: Arg)
    ensures r != Undefined
  {
    if arg == Undefined then Str(DEFAULT_QUEUE) else arg
  }

  /** A call's queue as a JavaScript value: `false` or its name. */
  function QueueValue(q: QName): (r: Arg)
    ensures r.Bool? <==> q == NoQueue
    ensures r != Other && r != Undefined
  {
    if q == NoQueue then Bool(false) else Str(q.name)
  }

  /** Which calls an action's queue option selects: undefined selects the default queue and
      the `queue:false` calls, `true` every call, `false` the `queue:false` calls, a string
      that queue, and anything else nothing. */
  predicate Matches(q: QName, arg: Arg)
  {
    match arg
    case Undefined => q == Named(DEFAULT_QUEUE) || q == NoQueue
    case Bool(b) => b || q == NoQueue
    case Str(s) => q == Named(s)
    case Other => false
  }

  /** The test that skips a call (core.ts:179, 211, 277): it fails exactly for the calls
      the option selects. */
  function Skips(q: QName, arg: Arg): (r: bool)
    ensures r <==> !Matches(q, arg)
  {
    var queueName := QueueName(arg);
    queueName != Bool(true) && QueueValue(q) != queueName && !(arg == Undefined && q == NoQueue)
  }

  /** Some element of `els` is one of `targets`. */
  predicate Targets(els: seq<Element>, targets: seq<Element>)
  {
    exists i | 0 <= i < |els| :: els[i] in targets
  }

  /** The `some` over a call's elements (core.ts:178-185, 210-218): it stops at once when the
      queue test skips the call, and otherwise at the first element that is a target. */
  function SomeTarget(els: seq<Element>, targets: seq<Element>, skip: bool): (r: bool)
    ensures r <==> !skip && Targets(els, targets)
    decreases |els|
  {
    if els == [] then false
    else if skip then false
    else if els[0] in targets then true
    else
      assert forall i | 0 <= i < |els| - 1 :: els[1..][i] == els[i + 1];
      assert Targets(els, targets) ==> Targets(els[1..], targets) by {
        if Targets(els, targets) {
          var i :| 0 <= i < |els| && els[i] in targets;
          assert i > 0 && els[1..][i - 1] == els[i];
        }
      }
      SomeTarget(els[1..], targets, skip)
  }

  /** One call of the pause (`to == Paused`) or resume (`to == Resumed`) walk: a call not
      already in that state, selected by the option and targeting one of the elements, is
      put in it; nothing else about the call changes. */
  function Toggle(c: Call, targets: seq<Element>, arg: Arg, to: Pause): (r: Call)
    ensures r == if Matches(c.queue, arg) && Targets(c.elements, targets) then c.(paused := to) else c
  {
    if c.paused != to && SomeTarget(c.elements, targets, Skips(c.queue, arg)) then c.(paused := to) else c
  }

  /** The walk over `order`, front to back. */
  function ToggleAll(calls: seq<Call>, order: seq<Handle>, targets: seq<Element>, arg: Arg, to: Pause): (r: seq<Call>)
    requires Within(order, |calls|)
    ensures |r| == |calls|
    decreases |order|
  {
    if order == [] then calls
    else ToggleAll(calls[order[0] := Toggle(calls[order[0]], targets, arg, to)], order[1..], targets, arg, to)
  }

  /** The walk toggles every call of `order` once and no other call. */
  lemma {:induction false} ToggleAllCalls(calls: seq<Call>, order: seq<Handle>, targets: seq<Element>, arg: Arg, to: Pause)
    requires Within(order, |calls|)
    ensures var r := ToggleAll(calls, order, targets, arg, to);
      forall x | 0 <= x < |calls| :: r[x] == if x in order then Toggle(calls[x], targets, arg, to) else calls[x]
    decreases |order|
  {
    if order != [] {
      var h := order[0];
      var calls' := calls[h := Toggle(calls[h], targets, arg, to)];
      ToggleAllCalls(calls', order[1..], targets, arg, to);
      forall x | 0 <= x < |calls| ensures x in order <==> x == h || x in order[1..] { }
    }
  }

  /** The action that ends calls, as named by the first argument. */
  datatype Verb = Stop | Finish | FinishAll

  /** `options === true || isString(options)`: the targets' pending queues are cleared too. */
  predicate Clears(arg: Arg)
  {
    arg == Bool(true) || arg.Str?
  }

  /** The queue argument handed to `dequeue`: `isString(options) ? options : undefined`. */
  function ClearedQueue(arg: Arg): (q: QueueArg)
    ensures q != QFalse
    ensures QueueKey(q) == (if arg.Str? then arg.s else DEFAULT_QUEUE)
  {
    if arg.Str? then QString(arg.s) else QOther
  }

  /** What a matched element does to its call (core.ts:298-311): "stop" turns it into a
      `queue:false` call and sets `timeStart` to -1, "finish" and "finishAll" only set `timeStart`. */
  function Mark(c: Call, verb: Verb): (r: Call)
    ensures r.timeStart == -1.0 && r.elements == c.elements && r.callbacks == c.callbacks && r.element == c.element
    ensures r.queue == (if verb == Stop then NoQueue else c.queue)
    ensures r.(queue := c.queue, timeStart := c.timeStart) == c
  {
    if verb == Stop then c.(queue := NoQueue, timeStart := -1.0) else c.(timeStart := -1.0)
  }

  /** The targets equal to `a`, in order: the matches of the inner `forEach` (core.ts:282-284). */
  function Occurrences(targets: seq<Element>, a: Element): (r: seq<Element>)
    ensures forall i | 0 <= i < |r| :: r[i] == a
    ensures r == [] <==> a !in targets
    decreases |targets|
  {
    if targets == [] then []
    else Occurrences(targets[..|targets| - 1], a) + (if targets[|targets| - 1] == a then [a] else [])
  }

  /** The element walk of one active call (core.ts:267-314): each of the call's elements that
      the queue test lets through, checked against the call as it is at that moment, is matched
      against the targets. The result is the call as the matches leave it and the matched
      elements, in order. */
  function Scan(c: Call, els: seq<Element>, targets: seq<Element>, arg: Arg, verb: Verb): (r: (Call, seq<Element>))
    decreases |els|
  {
    if els == [] then (c, [])
    else if Skips(c.queue, arg) then Scan(c, els[1..], targets, arg, verb)
    else
      var hits := Occurrences(targets, els[0]);
      var r := Scan(if hits == [] then c else Mark(c, verb), els[1..], targets, arg, verb);
      (r.0, hits + r.1)
  }

  /** A call with a match is marked once, whatever the number of matches; a call without one
      is left as it was; every match is an element both of the call and of the targets. */
  lemma {:induction false} ScanMarks(c: Call, els: seq<Element>, targets: seq<Element>, arg: Arg, verb: Verb)
    ensures var r := Scan(c, els, targets, arg, verb);
      && r.0 == (if r.1 == [] then c else Mark(c, verb))
      && forall x | x in r.1 :: x in els && x in targets
    decreases |els|
  {
    if els != [] {
      assert forall x | x in els[1..] :: x in els;
      if Skips(c.queue, arg) {
        ScanMarks(c, els[1..], targets, arg, verb);
      } else {
        var found := Occurrences(targets, els[0]);
        var c' := if found == [] then c else Mark(c, verb);
        ScanMarks(c', els[1..], targets, arg, verb);
        assert Mark(Mark(c, verb), verb) == Mark(c, verb);
        var r := Scan(c', els[1..], targets, arg, verb);
        assert forall x | x in found :: x == els[0] && x in targets;
        assert forall x | x in found + r.1 :: x in found || x in r.1;
      }
    }
  }

  /** A call is matched exactly when the queue option selects it and it targets one of the
      elements. */
  lemma {:induction false} ScanMatches(c: Call, els: seq<Element>, targets: seq<Element>, arg: Arg, verb: Verb)
    ensures Scan(c, els, targets, arg, verb).1 != [] <==> Matches(c.queue, arg) && Targets(els, targets)
    decreases |els|
  {
    if els != [] {
      assert forall i | 0 <= i < |els| - 1 :: els[1..][i] == els[i + 1];
      assert Targets(els, targets) <==> els[0] in targets || Targets(els[1..], targets) by {
        if Targets(els, targets) && els[0] !in targets {
          var i :| 0 <= i < |els| && els[i] in targets;
          assert els[1..][i - 1] == els[i];
        }
      }
      ScanMatches(c, els[1..], targets, arg, verb);
    }
  }

  /** One more target: its match, if any, is appended. */
  lemma OccurrencesSnoc(targets: seq<Element>, j: nat, a: Element)
    requires j < |targets|
    ensures Occurrences(targets[..j + 1], a) == Occurrences(targets[..j], a) + (if targets[j] == a then [a] else [])
  {
    assert targets[..j + 1][..j] == targets[..j];
  }

  /** The inner `forEach` over the targets for one element of the call (core.ts:282-313):
      every target equal to it is a match and marks the call. */
  method MatchTargets(c: Call, a: Element, targets: seq<Element>, verb: Verb) returns (c': Call, found: seq<Element>)
    ensures found == Occurrences(targets, a)
    ensures c' == if found == [] then c else Mark(c, verb)
  {
    c', found := c, [];
    for j := 0 to |targets|
      invariant found == Occurrences(targets[..j], a)
      invariant c' == if found == [] then c else Mark(c, verb)
    {
      OccurrencesSnoc(targets, j, a);
      if targets[j] == a {
        found := found + [a];
        c' := Mark(c', verb);
      }
    }
    assert targets[..|targets|] == targets;
  }

  lemma Associative<T>(a: seq<T>, b: seq<T>, c: seq<T>)
    ensures a + (b + c) == (a + b) + c
  {
  }

  /** The walk from element `i` on: the element is skipped or matched, then the walk goes on. */
  lemma ScanAt(c: Call, els: seq<Element>, i: nat, targets: seq<Element>, arg: Arg, verb: Verb)
    requires i < |els|
    ensures var found := Occurrences(targets, els[i]);
      Scan(c, els[i..], targets, arg, verb)
        == if Skips(c.queue, arg) then Scan(c, els[i + 1..], targets, arg, verb)
           else var r := Scan(if found == [] then c else Mark(c, verb), els[i + 1..], targets, arg, verb); (r.0, found + r.1)
  {
    assert els[i..][1..] == els[i + 1..];
  }

  /** The element walk of one call (core.ts:267-314), with the queue clearing left to the
      caller: returns the call as the matches leave it and the matched elements. */
  method ScanCall(c: Call, targets: seq<Element>, arg: Arg, verb: Verb) returns (c': Call, hits: seq<Element>)
    ensures (c', hits) == Scan(c, c.elements, targets, arg, verb)
  {
    c', hits := c, [];
    ghost var total := Scan(c, c.elements, targets, arg, verb);
    assert c.elements[0..] == c.elements && [] + total.1 == total.1;
    for i := 0 to |c.elements|
      invariant total == (Scan(c', c.elements[i..], targets, arg, verb).0, hits + Scan(c', c.elements[i..], targets, arg, verb).1)
    {
      var activeElement := c.elements[i];
      ScanAt(c', c.elements, i, targets, arg, verb);
      if !Skips(c'.queue, arg) {
        var found;
        c', found := MatchTargets(c', activeElement, targets, verb);
        ghost var r := Scan(c', c.elements[i + 1..], targets, arg, verb);
        Associative(hits, found, r.1);
        hits := hits + found;
      }
    }
    assert hits + [] == hits;
  }

  /** The resolver event of a drained call: only a call that holds a resolver has one
      (a handle outside the arena, which a well-formed registry never holds, has none). */
  function ResolveOf(calls: seq<Call>, h: Handle): (r: seq<Event>)
    ensures r == [] || r == [Resolve(h)]
    ensures r != [] <==> h < |calls| && calls[h].hooks.resolver
  {
    if h < |calls| && calls[h].hooks.resolver then [Resolve(h)] else []
  }

  /** The resolver events of drained calls `hs`, in order. */
  function Resolved(calls: seq<Call>, hs: seq<Handle>): seq<Event>
    decreases |hs|
  {
    if hs == [] then [] else Resolved(calls, hs[..|hs| - 1]) + ResolveOf(calls, hs[|hs| - 1])
  }

  /** Exactly the drained calls that hold a resolver have it invoked. */
  lemma {:induction false} ResolvedExact(calls: seq<Call>, hs: seq<Handle>)
    ensures forall e :: e in Resolved(calls, hs) <==> e.Resolve? && e.call in hs && e.call < |calls| && calls[e.call].hooks.resolver
    decreases |hs|
  {
    if hs != [] {
      var init := hs[..|hs| - 1];
      ResolvedExact(calls, init);
      assert forall x :: x in hs <==> x in init || x == hs[|hs| - 1];
    }
  }

  /** The parts of the registry that clearing a queue leaves alone. */
  ghost function Links(s: State): (seq<Handle>, seq<Link>, seq<Link>, Link, Link, Link, map<QueueId, Handle>)
    reads s
  {
    (s.active, s.next, s.prev, s.first, s.last, s.firstNew, s.lastAnimation)
  }

  /** One `dequeue(element, queue, true)` of the clearing loop, stated for the one key it touches. */
  method SkipHead(s: State, e: Element, q: QueueArg, ghost k: QueueId) returns (popped: Popped)
    requires s.Valid() && q != QFalse && e in s.elements && k == KeyOf(e, q)
    modifies s`next, s`prev, s`first, s`last, s`firstNew, s`queueList, s`lastAnimation, s`active, s`pending, s`loc
    ensures s.Valid() && Links(s) == old(Links(s))
    ensures s.queueList - {k} == old(s.queueList) - {k} && s.pending - {k} == old(s.pending) - {k}
    ensures popped.PoppedCall? <==> k in old(s.pending) && old(s.pending)[k] != []
    ensures popped.PoppedCall? ==> popped.h == old(s.pending)[k][0] && k in s.pending && s.pending[k] == old(s.pending)[k][1..]
    ensures !popped.PoppedCall? ==> k !in s.pending && k !in s.queueList
  {
    ghost var lists0, pending0 := s.queueList, s.pending;
    assert k in s.pending ==> QueueOk(s.pending[k], s.queueList[k], s.next, s.loc, k);
    popped := s.Dequeue(e, q, true);
    if popped.PoppedCall? {
      MinusUpdated(lists0, k, s.queueList[k]);
      MinusUpdated(pending0, k, s.pending[k]);
    } else if k in lists0 {
      MinusTwice(lists0, k);
      MinusTwice(pending0, k);
    }
  }

  /** Removing a key forgets whatever was last stored under it. */
  lemma MinusUpdated<K, V>(m: map<K, V>, k: K, v: V)
    ensures m[k := v] - {k} == m - {k}
  {
  }

  /** Removing a key twice removes it once. */
  lemma MinusTwice<K, V>(m: map<K, V>, k: K)
    ensures (m - {k}) - {k} == m - {k}
  {
  }

  /** Clearing one element's queue (core.ts:290-295): `dequeue` with `skip` set pops the
      pending calls without starting them and each one's resolver is invoked, until `dequeue`
      meets the `null` sentinel, which it deletes, or finds no entry. The active list and the
      links of the calls are untouched. The resolver invocations are returned in order for the
      caller to append to the log. */
  method Drain(s: State, e: Element, q: QueueArg) returns (resolved: seq<Event>)
    requires s.Valid() && q != QFalse && e in s.elements
    modifies s`next, s`prev, s`first, s`last, s`firstNew, s`queueList, s`lastAnimation, s`active, s`pending, s`loc
    ensures s.Valid() && Links(s) == old(Links(s))
    ensures var k := KeyOf(e, q);
      && s.queueList == old(s.queueList) - {k} && s.pending == old(s.pending) - {k}
      && resolved == if k in old(s.pending) then Resolved(s.calls, old(s.pending)[k]) else []
  {
    ghost var k := KeyOf(e, q);
    ghost var whole := if k in s.pending then s.pending[k] else [];
    ghost var n := 0;
    resolved := [];
    while true
      invariant s.Valid() && Links(s) == old(Links(s))
      invariant s.queueList - {k} == old(s.queueList) - {k} && s.pending - {k} == old(s.pending) - {k}
      invariant 0 <= n <= |whole|
      invariant if k in s.pending then s.pending[k] == whole[n..] else n == |whole|
      invariant resolved == Resolved(s.calls, whole[..n])
      decreases |whole| - n + (if k in s.pending then 1 else 0)
    {
      var popped := SkipHead(s, e, q, k);
      if !popped.PoppedCall? {
        break;
      }
      ResolvedStep(s.calls, whole, n);
      resolved := resolved + ResolveOf(s.calls, popped.h);
      n := n + 1;
    }
    assert whole[..n] == whole;
    Removed(s.queueList, old(s.queueList), k);
    Removed(s.pending, old(s.pending), k);
  }

  /** A map that agrees with `m0` off `k` and lacks `k` is `m0` without `k`. */
  lemma Removed<K, V>(m: map<K, V>, m0: map<K, V>, k: K)
    requires m - {k} == m0 - {k} && k !in m
    ensures m == m0 - {k}
  {
    assert m == m - {k};
  }

  /** `Resolved` grows by one call's resolver event per drained call. */
  lemma ResolvedStep(calls: seq<Call>, hs: seq<Handle>, n: nat)
    requires n < |hs|
    ensures Resolved(calls, hs[..n]) + ResolveOf(calls, hs[n]) == Resolved(calls, hs[..n + 1])
  {
    assert hs[..n + 1][..n] == hs[..n];
  }

  /** Clearing the queues of `els` in turn: each element's entry for the queue `q` is
      deleted and the resolvers of its pending calls are invoked; an element met again has
      nothing left to clear. The result is the new `queueList` and FIFOs and the events. */
  function ClearAll(lists: QueueLists, pending: Pending, calls: seq<Call>, els: seq<Element>, q: QueueArg): (QueueLists, Pending, seq<Event>)
    requires q != QFalse
    decreases |els|
  {
    if els == [] then (lists, pending, [])
    else
      var p := ClearAll(lists, pending, calls, els[..|els| - 1], q);
      var k := KeyOf(els[|els| - 1], q);
      (p.0 - {k}, p.1 - {k}, p.2 + if k in p.1 then Resolved(calls, p.1[k]) else [])
  }

  /** The key of queue `q` on one of the elements `els`. */
  predicate OnElements(k: QueueId, els: seq<Element>, q: QueueArg)
    requires q != QFalse
  {
    k.element in els && k.name == QueueKey(q)
  }

  /** Clearing removes exactly the entries of `q` on the cleared elements, keeps every other
      entry as it was, and invokes the resolver of exactly the calls pending in a removed
      entry that hold one. */
  lemma {:induction false} ClearAllExact(lists: QueueLists, pending: Pending, calls: seq<Call>, els: seq<Element>, q: QueueArg)
    requires q != QFalse
    ensures var r := ClearAll(lists, pending, calls, els, q);
      && (forall k :: k in r.0 <==> k in lists && !OnElements(k, els, q))
      && (forall k :: k in r.1 <==> k in pending && !OnElements(k, els, q))
      && (forall k | k in r.0 :: r.0[k] == lists[k])
      && (forall k | k in r.1 :: r.1[k] == pending[k])
      && (forall e :: e in r.2 <==>
            && e.Resolve? && e.call < |calls| && calls[e.call].hooks.resolver
            && exists k | k in pending && OnElements(k, els, q) :: e.call in pending[k])
    decreases |els|
  {
    if els != [] {
      var init := els[..|els| - 1];
      var a := els[|els| - 1];
      ClearAllExact(lists, pending, calls, init, q);
      var p := ClearAll(lists, pending, calls, init, q);
      var k := KeyOf(a, q);
      assert forall x :: x in els <==> x in init || x == a;
      var more := if k in p.1 then Resolved(calls, p.1[k]) else [];
      if k in p.1 {
        ResolvedExact(calls, p.1[k]);
      }
      forall e
        ensures e in p.2 + more <==>
          && e.Resolve? && e.call < |calls| && calls[e.call].hooks.resolver
          && exists k' | k' in pending && OnElements(k', els, q) :: e.call in pending[k']
      {
        if e in p.2 + more && e !in p.2 {
          assert k in pending && OnElements(k, els, q) && e.call in pending[k];
        }
        if e.Resolve? && e.call < |calls| && calls[e.call].hooks.resolver {
          if k' :| k' in pending && OnElements(k', els, q) && e.call in pending[k'] {
            if !OnElements(k', init, q) {
              assert k' == k;
            }
          }
        }
      }
    }
  }

  /** Clearing the queue `q` of each element of `els` in turn (core.ts:289-296). */
  method DrainAll(s: State, els: seq<Element>, q: QueueArg) returns (events: seq<Event>)
    requires s.Valid() && q != QFalse && forall i | 0 <= i < |els| :: els[i] in s.elements
    modifies s`next, s`prev, s`first, s`last, s`firstNew, s`queueList, s`lastAnimation, s`active, s`pending, s`loc
    ensures s.Valid() && Links(s) == old(Links(s))
    ensures (s.queueList, s.pending, events) == ClearAll(old(s.queueList), old(s.pending), s.calls, els, q)
  {
    events := [];
    for i := 0 to |els|
      invariant s.Valid() && Links(s) == old(Links(s))
      invariant (s.queueList, s.pending, events) == ClearAll(old(s.queueList), old(s.pending), s.calls, els[..i], q)
    {
      assert els[..i + 1][..i] == els[..i];
      var resolved := Drain(s, els[i], q);
      events := events + resolved;
    }
    assert els[..|els|] == els;
  }

  /** The pause and resume walks (core.ts:169-187, 201-220): from `State.first` along `next`,
      each call is toggled in turn. */
  method ToggleWalk(s: State, targets: seq<Element>, arg: Arg, to: Pause)
    requires s.Valid() && s.CallbacksValid()
    modifies s`calls
    ensures s.Valid() && s.CallbacksValid()
    ensures s.calls == ToggleAll(old(s.calls), s.active, targets, arg, to)
  {
    ghost var final := ToggleAll(s.calls, s.active, targets, arg, to);
    ghost var j := 0;
    var activeCall := s.first;
    while activeCall.Ref?
      invariant Linked(s.active, s.next) && |s.calls| == |old(s.calls)|
      invariant 0 <= j <= |s.active| && activeCall == First(s.active[j..])
      invariant Within(s.active[j..], |s.calls|) && final == ToggleAll(s.calls, s.active[j..], targets, arg, to)
      decreases |s.active| - j
    {
      var h := activeCall.h;
      assert s.next[s.active[j]] == Succ(s.active, j);
      var nextCall := s.next[h];
      var c := s.calls[h];
      assert s.active[j..][1..] == s.active[j + 1..];
      if c.paused != to && SomeTarget(c.elements, targets, Skips(c.queue, arg)) {
        s.calls := s.calls[h := c.(paused := to)];
      } else {
        assert s.calls == s.calls[h := Toggle(c, targets, arg, to)];
      }
      activeCall := nextCall;
      j := j + 1;
    }
    ToggleAllCalls(old(s.calls), s.active, targets, arg, to);
    assert CallbacksOk(s.calls, s.callbacks) by {
      forall x | 0 <= x < |s.calls| ensures s.calls[x].callbacks == old(s.calls)[x].callbacks { }
    }
  }

  /** Pause (core.ts:160-189). */
  method Pause(s: State, targets: seq<Element>, arg: Arg)
    requires s.Valid() && s.CallbacksValid()
    modifies s`calls
    ensures s.Valid() && s.CallbacksValid()
    ensures s.calls == ToggleAll(old(s.calls), s.active, targets, arg, Paused)
  {
    ToggleWalk(s, targets, arg, Paused);
  }

  /** Resume (core.ts:191-222). */
  method Resume(s: State, targets: seq<Element>, arg: Arg)
    requires s.Valid() && s.CallbacksValid()
    modifies s`calls
    ensures s.Valid() && s.CallbacksValid()
    ensures s.calls == ToggleAll(old(s.calls), s.active, targets, arg, Resumed)
  {
    ToggleWalk(s, targets, arg, Resumed);
  }

  /** What the stop walk carries from call to call: the calls, the queue registry, the
      resolver events so far and `callsToStop`. */
  datatype Sweep = Sweep(calls: seq<Call>, lists: QueueLists, pending: Pending, events: seq<Event>, toStop: seq<Handle>)

  /** `n` copies of `h`: one push per match. */
  function Copies(h: Handle, n: nat): (r: seq<Handle>)
    ensures |r| == n && forall i | 0 <= i < n :: r[i] == h
  {
    seq(n, _ => h)
  }

  /** One call of the stop walk (core.ts:264-314): its delay is cleared, its elements are
      scanned; each match clears the matched element's queue when the option asks for it and,
      for "stop", pushes the call onto `callsToStop`. */
  function Visit(w: Sweep, h: Handle, targets: seq<Element>, arg: Arg, verb: Verb): (r: Sweep)
    requires h < |w.calls|
    ensures |r.calls| == |w.calls|
  {
    var c := w.calls[h].(delay := 0.0);
    var scan := Scan(c, c.elements, targets, arg, verb);
    var cleared := if Clears(arg) then ClearAll(w.lists, w.pending, w.calls, scan.1, ClearedQueue(arg)) else (w.lists, w.pending, []);
    Sweep(w.calls[h := scan.0], cleared.0, cleared.1, w.events + cleared.2,
          w.toStop + if verb == Stop then Copies(h, |scan.1|) else [])
  }

  /** The elements on which the visit of call `h` clears queues: `dequeue` reads their
      data cache (queue.ts:72-73), so they are the ones that must have one. */
  function Hits(calls: seq<Call>, h: Handle, targets: seq<Element>, arg: Arg, verb: Verb): (r: seq<Element>)
    requires h < |calls|
    ensures forall x | x in r :: x in calls[h].elements && x in targets
  {
    var c := calls[h].(delay := 0.0);
    ScanMarks(c, c.elements, targets, arg, verb);
    Scan(c, c.elements, targets, arg, verb).1
  }

  /** Every element on which the walk over `order` would clear queues is in `cached`. */
  ghost predicate HitsCached(calls: seq<Call>, order: seq<Handle>, targets: seq<Element>, arg: Arg, verb: Verb, cached: set<Element>)
  {
    forall i, x | 0 <= i < |order| && order[i] < |calls| && x in Hits(calls, order[i], targets, arg, verb) :: x in cached
  }

  /** When every target has a data cache, so has every element the walk clears on. */
  lemma TargetsCached(calls: seq<Call>, order: seq<Handle>, targets: seq<Element>, arg: Arg, verb: Verb, cached: set<Element>)
    requires forall i | 0 <= i < |targets| :: targets[i] in cached
    ensures HitsCached(calls, order, targets, arg, verb, cached)
  {
    forall i, x | 0 <= i < |order| && order[i] < |calls| && x in Hits(calls, order[i], targets, arg, verb)
      ensures x in cached
    {
      var k :| 0 <= k < |targets| && targets[k] == x;
    }
  }

  /** The walk's first call clears queues only on cached elements. */
  lemma HitsCachedHead(calls: seq<Call>, order: seq<Handle>, targets: seq<Element>, arg: Arg, verb: Verb, cached: set<Element>)
    requires order != [] && order[0] < |calls| && HitsCached(calls, order, targets, arg, verb, cached)
    ensures forall x | x in Hits(calls, order[0], targets, arg, verb) :: x in cached
  {
  }

  /** Visiting the walk's first call, which changes no other call, leaves the rest of the
      walk clearing queues only on cached elements. */
  lemma HitsCachedRest(calls: seq<Call>, order: seq<Handle>, c: Call, targets: seq<Element>, arg: Arg, verb: Verb, cached: set<Element>)
    requires order != [] && order[0] < |calls| && order[0] !in order[1..]
    requires HitsCached(calls, order, targets, arg, verb, cached)
    ensures HitsCached(calls[order[0] := c], order[1..], targets, arg, verb, cached)
  {
    var rest := order[1..];
    forall i, x | 0 <= i < |rest| && rest[i] < |calls| && x in Hits(calls[order[0] := c], rest[i], targets, arg, verb)
      ensures x in cached
    {
      assert rest[i] in rest;
      assert order[i + 1] == rest[i];
    }
  }

  /** The stop walk over `order`, front to back. */
  function StopAll(w: Sweep, order: seq<Handle>, targets: seq<Element>, arg: Arg, verb: Verb): (r: Sweep)
    requires Within(order, |w.calls|)
    ensures |r.calls| == |w.calls|
    decreases |order|
  {
    if order == [] then w else StopAll(Visit(w, order[0], targets, arg, verb), order[1..], targets, arg, verb)
  }

  /** Every call the walk visits has its delay cleared and is marked exactly when it matches:
      "stop" turns it into a `queue:false` call at time -1, the others only move its start to
      -1. A call the walk does not visit is untouched. */
  lemma {:induction false} StopAllCalls(w: Sweep, order: seq<Handle>, targets: seq<Element>, arg: Arg, verb: Verb)
    requires Within(order, |w.calls|) && Distinct(order)
    ensures var r := StopAll(w, order, targets, arg, verb);
      forall x | 0 <= x < |w.calls| :: r.calls[x] ==
        if x !in order then w.calls[x]
        else if Matches(w.calls[x].queue, arg) && Targets(w.calls[x].elements, targets) then Mark(w.calls[x].(delay := 0.0), verb)
        else w.calls[x].(delay := 0.0)
    decreases |order|
  {
    if order != [] {
      var h := order[0];
      var v := Visit(w, h, targets, arg, verb);
      var c := w.calls[h].(delay := 0.0);
      ScanMarks(c, c.elements, targets, arg, verb);
      ScanMatches(c, c.elements, targets, arg, verb);
      assert Distinct(order[1..]) && Within(order[1..], |v.calls|);
      StopAllCalls(v, order[1..], targets, arg, verb);
      forall x | x in order[1..] ensures x != h {
        var i :| 0 <= i < |order[1..]| && order[1..][i] == x;
        assert order[0] != order[i + 1];
      }
      assert forall x :: x in order <==> x == h || x in order[1..];
    }
  }

  /** "stop" pushes exactly the visited calls that match onto `callsToStop`, the other verbs
      push nothing. */
  lemma {:induction false} StopAllPushes(w: Sweep, order: seq<Handle>, targets: seq<Element>, arg: Arg, verb: Verb)
    requires Within(order, |w.calls|) && Distinct(order)
    ensures var r := StopAll(w, order, targets, arg, verb);
      forall x :: x in r.toStop <==>
        || x in w.toStop
        || (verb == Stop && x in order && Matches(w.calls[x].queue, arg) && Targets(w.calls[x].elements, targets))
    decreases |order|
  {
    if order != [] {
      var h := order[0];
      var v := Visit(w, h, targets, arg, verb);
      var c := w.calls[h].(delay := 0.0);
      ScanMatches(c, c.elements, targets, arg, verb);
      assert Distinct(order[1..]) && Within(order[1..], |v.calls|);
      StopAllPushes(v, order[1..], targets, arg, verb);
      forall x | x in order[1..] ensures v.calls[x] == w.calls[x] {
        var i :| 0 <= i < |order[1..]| && order[1..][i] == x;
        assert order[0] != order[i + 1];
      }
      assert forall x :: x in order <==> x == h || x in order[1..];
    }
  }

  /** The walk clears queues only when the option asks for it, only the option's queue on
      target elements, and leaves every other entry as it was. */
  lemma {:induction false} StopAllClears(w: Sweep, order: seq<Handle>, targets: seq<Element>, arg: Arg, verb: Verb)
    requires Within(order, |w.calls|)
    ensures var r := StopAll(w, order, targets, arg, verb);
      && (!Clears(arg) ==> r.lists == w.lists && r.pending == w.pending && r.events == w.events)
      && (forall k | k in r.lists :: k in w.lists && r.lists[k] == w.lists[k])
      && (forall k | k in r.pending :: k in w.pending && r.pending[k] == w.pending[k])
      && (forall k | k in w.pending && k !in r.pending :: OnElements(k, targets, ClearedQueue(arg)))
    decreases |order|
  {
    if order != [] {
      var h := order[0];
      var v := Visit(w, h, targets, arg, verb);
      var c := w.calls[h].(delay := 0.0);
      var scan := Scan(c, c.elements, targets, arg, verb);
      ScanMarks(c, c.elements, targets, arg, verb);
      ClearAllExact(w.lists, w.pending, w.calls, scan.1, ClearedQueue(arg));
      StopAllClears(v, order[1..], targets, arg, verb);
    }
  }

  /** A visited call that matches has the option's queue cleared on one of its target
      elements at least, when the option asks for clearing. */
  lemma {:induction false} StopAllClearsMatched(w: Sweep, order: seq<Handle>, targets: seq<Element>, arg: Arg, verb: Verb)
    requires Within(order, |w.calls|) && Distinct(order) && Clears(arg)
    ensures var r := StopAll(w, order, targets, arg, verb);
      forall x | x in order && Matches(w.calls[x].queue, arg) && Targets(w.calls[x].elements, targets) ::
        exists e | e in w.calls[x].elements && e in targets :: QueueId(e, QueueKey(ClearedQueue(arg))) !in r.pending
    decreases |order|
  {
    if order != [] {
      var h := order[0];
      var v := Visit(w, h, targets, arg, verb);
      var r := StopAll(w, order, targets, arg, verb);
      var q := ClearedQueue(arg);
      assert Distinct(order[1..]) && Within(order[1..], |v.calls|);
      StopAllClearsMatched(v, order[1..], targets, arg, verb);
      StopAllClears(v, order[1..], targets, arg, verb);
      forall x | x in order[1..] ensures v.calls[x] == w.calls[x] {
        var i :| 0 <= i < |order[1..]| && order[1..][i] == x;
        assert order[0] != order[i + 1];
      }
      var c := w.calls[h].(delay := 0.0);
      var scan := Scan(c, c.elements, targets, arg, verb);
      if Matches(w.calls[h].queue, arg) && Targets(w.calls[h].elements, targets) {
        ScanMatches(c, c.elements, targets, arg, verb);
        ScanMarks(c, c.elements, targets, arg, verb);
        ClearAllExact(w.lists, w.pending, w.calls, scan.1, q);
        var e := scan.1[0];
        assert e in scan.1;
        assert QueueId(e, QueueKey(q)) !in v.pending;
      }
      assert forall x :: x in order <==> x == h || x in order[1..];
    }
  }

  /** The part of the state that releasing queued calls changes or reads. */
  datatype Registry = Registry(calls: seq<Call>, active: seq<Handle>, firstNew: Link, lists: QueueLists, pending: Pending)

  ghost function RegistryOf(s: State): Registry
    reads s
  {
    Registry(s.calls, s.active, s.firstNew, s.queueList, s.pending)
  }

  /** `calls` with each of `hs` turned into a `queue:false` call. */
  function Unqueued(calls: seq<Call>, hs: seq<Handle>): (r: seq<Call>)
    ensures |r| == |calls|
    decreases |hs|
  {
    if hs == [] then calls
    else
      var p := Unqueued(calls, hs[..|hs| - 1]);
      var h := hs[|hs| - 1];
      if h < |p| then p[h := p[h].(queue := NoQueue)] else p
  }

  /** Exactly the calls of `hs` lose their queue; nothing else about any call changes. */
  lemma {:induction false} UnqueuedCalls(calls: seq<Call>, hs: seq<Handle>)
    ensures forall x | 0 <= x < |calls| :: Unqueued(calls, hs)[x] == if x in hs then calls[x].(queue := NoQueue) else calls[x]
    decreases |hs|
  {
    if hs != [] {
      UnqueuedCalls(calls, hs[..|hs| - 1]);
      assert forall x :: x in hs <==> x in hs[..|hs| - 1] || x == hs[|hs| - 1];
    }
  }

  /** Releasing one queue (core.ts:234-236): its pending calls become active in FIFO order as
      `queue:false` calls, the first of them becoming the `firstNew` marker when it was unset,
      and the entry is deleted. */
  function ReleaseOne(r: Registry, k: QueueId): Registry
  {
    if k !in r.pending then r
    else
      var hs := r.pending[k];
      Registry(Unqueued(r.calls, hs), r.active + hs, if r.firstNew == Nil && hs != [] then Ref(hs[0]) else r.firstNew,
               r.lists - {k}, r.pending - {k})
  }

  /** Releasing the queue `q` of each element of `els` in turn. */
  function ReleaseAll(r: Registry, els: seq<Element>, q: QueueArg): Registry
    requires q != QFalse
    decreases |els|
  {
    if els == [] then r else ReleaseOne(ReleaseAll(r, els[..|els| - 1], q), KeyOf(els[|els| - 1], q))
  }

  /** Releasing removes the entries of `q` on the released elements and keeps every other
      entry as it was. */
  lemma {:induction false} ReleaseAllEntries(r: Registry, els: seq<Element>, q: QueueArg)
    requires q != QFalse
    ensures var r' := ReleaseAll(r, els, q);
      && (forall k :: k in r'.pending <==> k in r.pending && !OnElements(k, els, q))
      && (forall k :: k in r'.lists <==> k in r.lists && !(k in r.pending && OnElements(k, els, q)))
      && (forall k | k in r'.pending :: r'.pending[k] == r.pending[k])
      && (forall k | k in r'.lists :: r'.lists[k] == r.lists[k])
    decreases |els|
  {
    if els != [] {
      var init := els[..|els| - 1];
      ReleaseAllEntries(r, init, q);
      assert forall x :: x in els <==> x in init || x == els[|els| - 1];
    }
  }

  /** Releasing keeps the active calls in front and appends exactly the calls pending in the
      released entries, each of them turned into a `queue:false` call; no other call changes. */
  lemma {:induction false} ReleaseAllStarts(r: Registry, els: seq<Element>, q: QueueArg)
    requires q != QFalse
    ensures var r' := ReleaseAll(r, els, q);
      && |r.active| <= |r'.active| && r'.active[..|r.active|] == r.active
      && (forall h :: h in r'.active[|r.active|..] <==> exists k | k in r.pending && OnElements(k, els, q) :: h in r.pending[k])
      && |r'.calls| == |r.calls|
      && (forall h | 0 <= h < |r.calls| :: r'.calls[h] == if h in r'.active[|r.active|..] then r.calls[h].(queue := NoQueue) else r.calls[h])
    decreases |els|
  {
    if els != [] {
      var init := els[..|els| - 1];
      var a := els[|els| - 1];
      var k := KeyOf(a, q);
      ReleaseAllStarts(r, init, q);
      ReleaseAllEntries(r, init, q);
      var p := ReleaseAll(r, init, q);
      var r' := ReleaseOne(p, k);
      var before := p.active[|r.active|..];
      assert forall x :: x in els <==> x in init || x == a;
      if k in p.pending {
        var hs := p.pending[k];
        UnqueuedCalls(p.calls, hs);
        assert r'.active[..|r.active|] == p.active[..|r.active|];
        assert r'.active[|r.active|..] == before + hs;
        forall h ensures h in before + hs <==> exists k' | k' in r.pending && OnElements(k', els, q) :: h in r.pending[k'] {
          if h in hs {
            assert k in r.pending && OnElements(k, els, q);
          }
          if k' :| k' in r.pending && OnElements(k', els, q) && h in r.pending[k'] {
            if !OnElements(k', init, q) {
              assert k' == k;
            }
          }
        }
      } else {
        forall k' | k' in r.pending && OnElements(k', els, q) ensures OnElements(k', init, q) {
          if k'.element == a {
            assert k' == k;
          }
        }
      }
    }
  }

  /** One `dequeue(element, queue)` of the release loop, stated for the one key it touches. */
  method PopActive(s: State, e: Element, q: QueueArg, ghost k: QueueId) returns (popped: Popped)
    requires s.Valid() && q != QFalse && e in s.elements && k == KeyOf(e, q)
    modifies s`next, s`prev, s`first, s`last, s`firstNew, s`queueList, s`lastAnimation, s`active, s`pending, s`loc
    ensures s.Valid() && s.lastAnimation == old(s.lastAnimation)
    ensures s.queueList - {k} == old(s.queueList) - {k} && s.pending - {k} == old(s.pending) - {k}
    ensures popped.PoppedCall? <==> k in old(s.pending) && old(s.pending)[k] != []
    ensures popped.PoppedCall? ==>
      && popped.h == old(s.pending)[k][0] && popped.h < |s.calls|
      && k in s.pending && s.pending[k] == old(s.pending)[k][1..]
      && s.active == old(s.active) + [popped.h]
      && s.firstNew == if old(s.firstNew) == Nil then Ref(popped.h) else old(s.firstNew)
    ensures !popped.PoppedCall? ==>
      k !in s.pending && k !in s.queueList && s.active == old(s.active) && s.firstNew == old(s.firstNew)
  {
    assert k in s.pending ==> QueueOk(s.pending[k], s.queueList[k], s.next, s.loc, k);
    popped := s.Dequeue(e, q, false);
    if popped.PoppedCall? {
      assert popped.h in s.active;
    }
  }

  /** One step of the release loop (core.ts:234-236): `dequeue(element, queue)` starts the
      head call of the one key it touches, which then becomes a `queue:false` call. */
  method ReleaseHead(s: State, e: Element, q: QueueArg, ghost k: QueueId) returns (popped: Popped)
    requires s.Valid() && s.CallbacksValid() && q != QFalse && e in s.elements && k == KeyOf(e, q)
    modifies s`calls, s`next, s`prev, s`first, s`last, s`firstNew, s`queueList, s`lastAnimation, s`active, s`pending, s`loc
    ensures s.Valid() && s.CallbacksValid() && s.lastAnimation == old(s.lastAnimation)
    ensures s.queueList - {k} == old(s.queueList) - {k} && s.pending - {k} == old(s.pending) - {k}
    ensures popped.PoppedCall? <==> k in old(s.pending) && old(s.pending)[k] != []
    ensures popped.PoppedCall? ==>
      && popped.h == old(s.pending)[k][0] && popped.h < |s.calls|
      && k in s.pending && s.pending[k] == old(s.pending)[k][1..]
      && s.active == old(s.active) + [popped.h]
      && s.firstNew == (if old(s.firstNew) == Nil then Ref(popped.h) else old(s.firstNew))
      && s.calls == old(s.calls)[popped.h := old(s.calls)[popped.h].(queue := NoQueue)]
    ensures !popped.PoppedCall? ==>
      && k !in s.pending && k !in s.queueList && s.active == old(s.active) && s.firstNew == old(s.firstNew)
      && s.calls == old(s.calls)
  {
    popped := PopActive(s, e, q, k);
    if popped.PoppedCall? {
      var h := popped.h;
      Unqueue(s.calls, s.callbacks, h);
      s.calls := s.calls[h := s.calls[h].(queue := NoQueue)];
    }
  }

  /** Turning a call into a `queue:false` call keeps its callbacks record. */
  lemma Unqueue(calls: seq<Call>, callbacks: seq<Callbacks>, h: Handle)
    requires CallbacksOk(calls, callbacks) && h < |calls|
    ensures CallbacksOk(calls[h := calls[h].(queue := NoQueue)], callbacks)
  {
    var calls' := calls[h := calls[h].(queue := NoQueue)];
    assert forall x | 0 <= x < |calls| :: calls'[x].callbacks == calls[x].callbacks;
  }

  /** One more released call: the registry after `n + 1` calls. */
  lemma ReleaseStep(calls: seq<Call>, active: seq<Handle>, hs: seq<Handle>, n: nat)
    requires n < |hs| && hs[n] < |calls|
    ensures var p := Unqueued(calls, hs[..n]);
      && p[hs[n] := p[hs[n]].(queue := NoQueue)] == Unqueued(calls, hs[..n + 1])
      && (active + hs[..n]) + [hs[n]] == active + hs[..n + 1]
      && hs[..n] + [hs[n]] == hs[..n + 1]
  {
    assert hs[..n + 1][..n] == hs[..n];
    assert hs[..n + 1] == hs[..n] + [hs[n]];
  }

  /** Releasing one element's queue `q` (core.ts:232-236): `dequeue` without `skip` starts
      each pending call in turn and the call is turned into a `queue:false` call, until
      `dequeue` meets the `null` sentinel, which it deletes, or finds no entry. The released
      calls are returned in order. */
  method Release(s: State, e: Element, q: QueueArg) returns (released: seq<Handle>)
    requires s.Valid() && s.CallbacksValid() && q != QFalse && e in s.elements
    modifies s`calls, s`next, s`prev, s`first, s`last, s`firstNew, s`queueList, s`lastAnimation, s`active, s`pending, s`loc
    ensures s.Valid() && s.CallbacksValid() && s.lastAnimation == old(s.lastAnimation)
    ensures RegistryOf(s) == ReleaseOne(old(RegistryOf(s)), KeyOf(e, q))
    ensures s.active == old(s.active) + released
  {
    ghost var k := KeyOf(e, q);
    ghost var whole := if k in s.pending then s.pending[k] else [];
    ghost var n := 0;
    released := [];
    while true
      invariant s.Valid() && s.CallbacksValid() && s.lastAnimation == old(s.lastAnimation)
      invariant s.queueList - {k} == old(s.queueList) - {k} && s.pending - {k} == old(s.pending) - {k}
      invariant 0 <= n <= |whole| && released == whole[..n]
      invariant if k in s.pending then s.pending[k] == whole[n..] else n == |whole|
      invariant s.calls == Unqueued(old(s.calls), whole[..n]) && s.active == old(s.active) + whole[..n]
      invariant s.firstNew == if old(s.firstNew) == Nil && n > 0 then Ref(whole[0]) else old(s.firstNew)
      decreases |whole| - n + (if k in s.pending then 1 else 0)
    {
      var popped := ReleaseHead(s, e, q, k);
      if !popped.PoppedCall? {
        break;
      }
      ReleaseStep(old(s.calls), old(s.active), whole, n);
      released := released + [popped.h];
      n := n + 1;
    }
    assert whole[..n] == whole;
    Removed(s.queueList, old(s.queueList), k);
    Removed(s.pending, old(s.pending), k);
    if k !in old(s.pending) {
      Absent(old(s.queueList), k);
      Absent(old(s.pending), k);
      assert s.active == old(s.active) + [];
    }
  }

  /** Removing an absent key changes nothing. */
  lemma Absent<K, V>(m: map<K, V>, k: K)
    requires k !in m
    ensures m - {k} == m
  {
  }

  /** Releasing the queue `q` of each element of `els` in turn (core.ts:227-237); the
      released calls are returned in order. */
  method ReleaseEach(s: State, els: seq<Element>, q: QueueArg) returns (released: seq<Handle>)
    requires s.Valid() && s.CallbacksValid() && q != QFalse && forall i | 0 <= i < |els| :: els[i] in s.elements
    modifies s`calls, s`next, s`prev, s`first, s`last, s`firstNew, s`queueList, s`lastAnimation, s`active, s`pending, s`loc
    ensures s.Valid() && s.CallbacksValid() && s.lastAnimation == old(s.lastAnimation)
    ensures RegistryOf(s) == ReleaseAll(old(RegistryOf(s)), els, q)
    ensures s.active == old(s.active) + released
  {
    released := [];
    for i := 0 to |els|
      invariant s.Valid() && s.CallbacksValid() && s.lastAnimation == old(s.lastAnimation)
      invariant RegistryOf(s) == ReleaseAll(old(RegistryOf(s)), els[..i], q)
      invariant s.active == old(s.active) + released
    {
      assert els[..i + 1][..i] == els[..i];
      var more := Release(s, els[i], q);
      Associative(old(s.active), released, more);
      released := released + more;
    }
    assert els[..|els|] == els;
  }

  /** One call of the stop walk (core.ts:264-314), on the state. The matches' queues are
      cleared after the element scan rather than between its steps: the scan reads only the
      call and clearing touches only the queues, so the outcome is the same. */
  method StopVisit(s: State, h: Handle, targets: seq<Element>, arg: Arg, verb: Verb, events: seq<Event>, toStop: seq<Handle>)
    returns (events': seq<Event>, toStop': seq<Handle>)
    requires s.Valid() && s.CallbacksValid() && h < |s.calls|
    requires Clears(arg) ==> forall x | x in Hits(s.calls, h, targets, arg, verb) :: x in s.elements
    modifies s`calls, s`next, s`prev, s`first, s`last, s`firstNew, s`queueList, s`lastAnimation, s`active, s`pending, s`loc
    ensures s.Valid() && s.CallbacksValid() && Links(s) == old(Links(s))
    ensures Sweep(s.calls, s.queueList, s.pending, events', toStop')
      == Visit(Sweep(old(s.calls), old(s.queueList), old(s.pending), events, toStop), h, targets, arg, verb)
  {
    var c := s.calls[h].(delay := 0.0);
    var c', hits := ScanCall(c, targets, arg, verb);
    ScanMarks(c, c.elements, targets, arg, verb);
    var cleared := [];
    if Clears(arg) {
      forall i | 0 <= i < |hits| ensures hits[i] in s.elements {
        assert hits[i] in hits;
      }
      cleared := DrainAll(s, hits, ClearedQueue(arg));
    }
    assert c'.callbacks == s.calls[h].callbacks;
    s.calls := s.calls[h := c'];
    events' := events + cleared;
    toStop' := toStop + if verb == Stop then Copies(h, |hits|) else [];
  }

  /** The state of the stop walk before position `j` of the active list: the sweep of the
      remaining calls from the current state still ends in `final`. */
  ghost predicate Swept(s: State, n: nat, targets: seq<Element>, arg: Arg, verb: Verb, final: Sweep,
                        events: seq<Event>, toStop: seq<Handle>, j: nat)
    reads s
  {
    && s.Valid() && s.CallbacksValid() && |s.calls| == n
    && j <= |s.active| && Within(s.active[j..], |s.calls|)
    && (Clears(arg) ==> HitsCached(s.calls, s.active[j..], targets, arg, verb, s.elements))
    && final == StopAll(Sweep(s.calls, s.queueList, s.pending, events, toStop), s.active[j..], targets, arg, verb)
  }

  /** The stop walk (core.ts:258-316): from `State.first` along `next`, every active call
      is visited once; the successor is read before the visit. */
  method StopWalk(s: State, targets: seq<Element>, arg: Arg, verb: Verb) returns (events: seq<Event>, toStop: seq<Handle>)
    requires s.Valid() && s.CallbacksValid()
    requires Clears(arg) ==> HitsCached(s.calls, s.active, targets, arg, verb, s.elements)
    modifies s`calls, s`next, s`prev, s`first, s`last, s`firstNew, s`queueList, s`lastAnimation, s`active, s`pending, s`loc
    ensures s.Valid() && s.CallbacksValid() && Links(s) == old(Links(s))
    ensures Sweep(s.calls, s.queueList, s.pending, events, toStop)
      == StopAll(Sweep(old(s.calls), old(s.queueList), old(s.pending), [], []), s.active, targets, arg, verb)
  {
    events, toStop := [], [];
    ghost var final := StopAll(Sweep(s.calls, s.queueList, s.pending, [], []), s.active, targets, arg, verb);
    ghost var j := 0;
    assert Within(s.active[0..], |s.calls|) by {
      forall i | 0 <= i < |s.active| ensures s.active[i] < |s.calls| {
        assert s.loc[s.active[i]] == Active;
      }
    }
    var activeCall := s.first;
    while activeCall.Ref?
      invariant Swept(s, |old(s.calls)|, targets, arg, verb, final, events, toStop, j)
      invariant Links(s) == old(Links(s)) && activeCall == First(s.active[j..])
      decreases |s.active| - j
    {
      activeCall, events, toStop := StopNext(s, |old(s.calls)|, targets, arg, verb, final, events, toStop, j, activeCall.h);
      j := j + 1;
    }
    assert s.active[j..] == [];
  }

  /** One round of the stop walk: the successor of the call at position `j` is read, then
      the call is visited. */
  method StopNext(s: State, ghost n: nat, targets: seq<Element>, arg: Arg, verb: Verb, ghost final: Sweep,
                  events: seq<Event>, toStop: seq<Handle>, ghost j: nat, h: Handle)
    returns (nextCall: Link, events': seq<Event>, toStop': seq<Handle>)
    requires Swept(s, n, targets, arg, verb, final, events, toStop, j) && Ref(h) == First(s.active[j..])
    modifies s`calls, s`next, s`prev, s`first, s`last, s`firstNew, s`queueList, s`lastAnimation, s`active, s`pending, s`loc
    ensures Links(s) == old(Links(s)) && nextCall == First(s.active[j + 1..])
    ensures Swept(s, n, targets, arg, verb, final, events', toStop', j + 1)
  {
    assert s.active[j..][0] == s.active[j];
    assert s.next[s.active[j]] == Succ(s.active, j);
    nextCall := s.next[h];
    assert s.active[j..][1..] == s.active[j + 1..];
    ghost var calls := s.calls;
    LinkedDistinct(s.active, s.next);
    assert h !in s.active[j + 1..];
    if Clears(arg) {
      HitsCachedHead(calls, s.active[j..], targets, arg, verb, s.elements);
    }
    events', toStop' := StopVisit(s, h, targets, arg, verb, events, toStop);
    if Clears(arg) {
      HitsCachedRest(calls, s.active[j..], s.calls[h], targets, arg, verb, s.elements);
    }
  }

  /** The `completeCall(call, true)` of each call of `hs`, in order. */
  function Completes(hs: seq<Handle>): (r: seq<Event>)
    ensures |r| == |hs| && forall i | 0 <= i < |hs| :: r[i] == Complete(hs[i], true)
  {
    seq(|hs|, i requires 0 <= i < |hs| => Complete(hs[i], true))
  }

  /** Premature completion of the calls the "stop" walk pushed (core.ts:320-323). */
  method CompleteEach(s: State, hs: seq<Handle>)
    requires s.Valid()
    modifies s`log
    ensures s.Valid() && s.log == old(s.log) + Completes(hs)
  {
    for i := 0 to |hs|
      invariant s.Valid() && s.log == old(s.log) + Completes(hs[..i])
    {
      s.CompleteCall(hs[i], true);
      assert Completes(hs[..i + 1]) == Completes(hs[..i]) + [Complete(hs[i], true)];
    }
    assert hs[..|hs|] == hs;
  }

  /** The registry the stop walk starts from: for "finishAll" with a queue option, the
      targets' queues have been released and `expandTweens` has cleared the marker. */
  function Prepared(r: Registry, targets: seq<Element>, arg: Arg, verb: Verb): (p: Registry)
    ensures verb != FinishAll || !Clears(arg) ==> p == r
  {
    if verb == FinishAll && Clears(arg) then ReleaseAll(r, targets, ClearedQueue(arg)).(firstNew := Nil) else r
  }

  /** The first part of "finishAll" with `true` or a queue name (core.ts:226-239): the
      targets' queues are released, then `expandTweens` clears the marker. The other actions
      do nothing here. */
  method Prepare(s: State, targets: seq<Element>, arg: Arg, verb: Verb)
    requires s.Valid() && s.CallbacksValid()
    requires verb == FinishAll && Clears(arg) ==> forall i | 0 <= i < |targets| :: targets[i] in s.elements
    modifies s`calls, s`next, s`prev, s`first, s`last, s`firstNew, s`queueList, s`lastAnimation, s`active, s`pending, s`loc
    ensures s.Valid() && s.CallbacksValid() && s.lastAnimation == old(s.lastAnimation)
    ensures RegistryOf(s) == Prepared(old(RegistryOf(s)), targets, arg, verb)
  {
    if verb == FinishAll && Clears(arg) {
      var _ := ReleaseEach(s, targets, ClearedQueue(arg));
      s.ExpandTweens();
    }
  }

  /** The walk over the active calls and, for "stop", the premature completions that follow
      it (core.ts:257-329), from whatever registry the state holds. */
  method StopSweep(s: State, targets: seq<Element>, arg: Arg, verb: Verb)
    requires s.Valid() && s.CallbacksValid()
    requires Clears(arg) ==> HitsCached(s.calls, s.active, targets, arg, verb, s.elements)
    modifies s`calls, s`next, s`prev, s`first, s`last, s`firstNew, s`queueList, s`lastAnimation, s`active, s`pending, s`loc, s`log
    ensures s.Valid() && s.CallbacksValid() && Links(s) == old(Links(s))
    ensures Within(s.active, |old(s.calls)|)
    ensures var w := StopAll(Sweep(old(s.calls), old(s.queueList), old(s.pending), [], []), s.active, targets, arg, verb);
      && s.calls == w.calls && s.queueList == w.lists && s.pending == w.pending
      && s.log == old(s.log) + w.events + (if verb == Stop then Completes(w.toStop) else [])
  {
    var events, toStop := StopWalk(s, targets, arg, verb);
    s.log := s.log + events;
    if verb == Stop {
      CompleteEach(s, toStop);
    } else {
      assert s.log + [] == s.log;
    }
  }

  /** The stop, finish and finishAll actions (core.ts:224-332). "finishAll" with `true` or a
      queue name first starts every call pending in that queue on the targets as a
      `queue:false` call. Then every active call is walked: its delay is cleared and, when it
      matches, it is marked, the targets' queues are cleared if asked, and for "stop" it is
      completed prematurely once per match after the walk. */
  method StopAction(s: State, targets: seq<Element>, arg: Arg, verb: Verb)
    requires s.Valid() && s.CallbacksValid()
    requires Clears(arg) ==>
      if verb == FinishAll then forall i | 0 <= i < |targets| :: targets[i] in s.elements
      else HitsCached(s.calls, s.active, targets, arg, verb, s.elements)
    modifies s`calls, s`next, s`prev, s`first, s`last, s`firstNew, s`queueList, s`lastAnimation, s`active, s`pending, s`loc, s`log
    ensures s.Valid() && s.CallbacksValid() && s.lastAnimation == old(s.lastAnimation)
    ensures var p := Prepared(old(RegistryOf(s)), targets, arg, verb);
      && s.active == p.active && s.firstNew == p.firstNew && Within(p.active, |p.calls|)
      && var w := StopAll(Sweep(p.calls, p.lists, p.pending, [], []), p.active, targets, arg, verb);
      && s.calls == w.calls && s.queueList == w.lists && s.pending == w.pending
      && s.log == old(s.log) + w.events + (if verb == Stop then Completes(w.toStop) else [])
  {
    Prepare(s, targets, arg, verb);
    if verb == FinishAll && Clears(arg) {
      TargetsCached(s.calls, s.active, targets, arg, verb, s.elements);
    }
    StopSweep(s, targets, arg, verb);
  }
}
