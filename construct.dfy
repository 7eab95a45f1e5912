/** Part II of a Velocity call (core.ts:536-588): the targeted elements get a data cache, each
    element gets its own call, every call is queued, and the tick loop is started if it is not
    running. */
module Construction {
  import opened Types
  import opened Queues
  import opened Ticks
  import opened Options
  import opened Actions

  /** What every call of one Velocity call shares once the options are resolved. */
  datatype Settings = Settings(delay: real, duration: real, queue: QueueArg, given: Hooks)

  /** The record built for element `i` (core.ts:554-575) on a fresh call; the file that
      hands out fresh calls is not part of this model, so the fields it leaves alone start
      at their empty values. */
  function NewCallFor(elements: seq<Element>, i: nat, o: Settings): (c: Call)
    requires i < |elements|
    ensures c.element == elements[i] && c.elements == elements && c.queue == CallQueue(o.queue)
    ensures c.hooks == HooksFor(i, |elements|, o.given) && c.callbacks.None?
  {
    Call(elements[i], elements, CallQueue(o.queue), 0.0, Running, o.delay, o.duration, false, 0.0, 0.0, None,
         HooksFor(i, |elements|, o.given), [], {})
  }

  /** The calls of one Velocity call, one per element, in element order. */
  function CallsFor(elements: seq<Element>, o: Settings): (r: seq<Call>)
    ensures |r| == |elements|
    ensures forall i | 0 <= i < |elements| :: r[i] == NewCallFor(elements, i, o)
  {
    seq(|elements|, i requires 0 <= i < |elements| => NewCallFor(elements, i, o))
  }

  /** The active list and the queue registry `queue` works on. */
  datatype Lists = Lists(active: seq<Handle>, lists: QueueLists, pending: Pending)

  ghost function ListsOf(s: State): Lists
    reads s
  {
    Lists(s.active, s.queueList, s.pending)
  }

  /** Every registry entry has a pending FIFO and the other way round. */
  predicate Keyed(l: Lists)
  {
    l.pending.Keys == l.lists.Keys
  }

  /** What `queue` (queue.ts:35-61) does to the lists: with `false` the call becomes active;
      on a missing entry it becomes active behind a new `null` entry; otherwise it joins the
      FIFO, and becomes its head when the entry was `null`. */
  function Enqueue(l: Lists, e: Element, q: QueueArg, h: Handle): (r: Lists)
    ensures Keyed(l) ==> Keyed(r)
  {
    if q == QFalse then l.(active := l.active + [h])
    else
      var k := KeyOf(e, q);
      if k !in l.lists then Lists(l.active + [h], l.lists[k := Sentinel], l.pending[k := []])
      else
        Lists(l.active, l.lists[k := if l.lists[k] == Sentinel then Head(h) else l.lists[k]],
              l.pending[k := (if k in l.pending then l.pending[k] else []) + [h]])
  }

  /** One `queue`: the call starts exactly when its queue is `false` or its FIFO has no entry;
      nothing else starts or stops, and only that FIFO's entry can appear. */
  lemma EnqueueStep(l: Lists, e: Element, q: QueueArg, h: Handle)
    ensures var r := Enqueue(l, e, q, h);
      && (h in r.active <==> h in l.active || q == QFalse || KeyOf(e, q) !in l.lists)
      && (forall x | x in r.active :: x in l.active || x == h)
      && (forall x | x in l.active :: x in r.active)
      && |l.active| <= |r.active| && r.active[..|l.active|] == l.active
      && (q == QFalse ==> r.lists == l.lists)
      && (q != QFalse ==> r.lists.Keys == l.lists.Keys + {KeyOf(e, q)})
  {
  }

  /** Calls `h0`, `h0 + 1`, ... queued in order, call `h0 + i` on element `targets[i]`. */
  function EnqueueAll(l: Lists, targets: seq<Element>, q: QueueArg, h0: nat): (r: Lists)
    ensures Keyed(l) ==> Keyed(r)
    decreases |targets|
  {
    if targets == [] then l
    else
      var n := |targets| - 1;
      Enqueue(EnqueueAll(l, targets[..n], q, h0), targets[n], q, h0 + n)
  }

  /** The entries queueing creates: none with queue `false`, otherwise exactly one for each
      FIFO a call is queued on. */
  lemma {:induction false} EnqueueAllKeys(l: Lists, targets: seq<Element>, q: QueueArg, h0: nat)
    ensures q == QFalse ==> EnqueueAll(l, targets, q, h0).lists == l.lists
    ensures l.lists.Keys <= EnqueueAll(l, targets, q, h0).lists.Keys
    ensures q != QFalse ==> forall j | 0 <= j < |targets| :: KeyOf(targets[j], q) in EnqueueAll(l, targets, q, h0).lists
    ensures q != QFalse ==> forall k | k in EnqueueAll(l, targets, q, h0).lists && k !in l.lists ::
      exists j | 0 <= j < |targets| :: KeyOf(targets[j], q) == k
    decreases |targets|
  {
    if targets != [] {
      var n := |targets| - 1;
      var init := targets[..n];
      var r0 := EnqueueAll(l, init, q, h0);
      EnqueueAllKeys(l, init, q, h0);
      EnqueueStep(r0, targets[n], q, h0 + n);
      if q != QFalse {
        var r := EnqueueAll(l, targets, q, h0);
        forall j | 0 <= j < |targets| ensures KeyOf(targets[j], q) in r.lists {
          if j < n { assert init[j] == targets[j]; }
        }
        forall k | k in r.lists && k !in l.lists ensures exists j | 0 <= j < |targets| :: KeyOf(targets[j], q) == k {
          if k in r0.lists {
            var j :| 0 <= j < n && KeyOf(init[j], q) == k;
            assert init[j] == targets[j];
          } else {
            assert KeyOf(targets[n], q) == k;
          }
        }
      }
    }
  }

  /** Whether call `i` of a batch queued on `targets` finds its queue free: the queue is
      `false`, or its FIFO had no entry, neither before the batch nor from an earlier call of
      the batch. */
  predicate StartsNow(l: Lists, targets: seq<Element>, q: QueueArg, i: nat)
    requires i < |targets|
  {
    q == QFalse || (KeyOf(targets[i], q) !in l.lists && forall j | 0 <= j < i :: KeyOf(targets[j], q) != KeyOf(targets[i], q))
  }

  /** Queueing keeps the active calls first and in their order, and activates only calls of
      the batch. */
  lemma {:induction false} EnqueueAllPrefix(l: Lists, targets: seq<Element>, q: QueueArg, h0: nat)
    ensures var r := EnqueueAll(l, targets, q, h0);
      && |l.active| <= |r.active| && r.active[..|l.active|] == l.active
      && (forall x | x in r.active :: x in l.active || h0 <= x < h0 + |targets|)
    decreases |targets|
  {
    if targets != [] {
      var n := |targets| - 1;
      var r0 := EnqueueAll(l, targets[..n], q, h0);
      EnqueueAllPrefix(l, targets[..n], q, h0);
      EnqueueStep(r0, targets[n], q, h0 + n);
      var r := EnqueueAll(l, targets, q, h0);
      assert r.active[..|l.active|] == r.active[..|r0.active|][..|l.active|];
    }
  }

  /** The last call of a batch starts exactly when `StartsNow` holds for it. */
  lemma LastStarts(l: Lists, targets: seq<Element>, q: QueueArg, h0: nat)
    requires forall x | x in l.active :: x < h0
    requires targets != []
    ensures h0 + |targets| - 1 in EnqueueAll(l, targets, q, h0).active <==> StartsNow(l, targets, q, |targets| - 1)
  {
    var n := |targets| - 1;
    var init := targets[..n];
    var r0 := EnqueueAll(l, init, q, h0);
    EnqueueAllPrefix(l, init, q, h0);
    EnqueueAllKeys(l, init, q, h0);
    EnqueueStep(r0, targets[n], q, h0 + n);
    assert h0 + n !in r0.active;
    if q != QFalse {
      var k := KeyOf(targets[n], q);
      if k in r0.lists && k !in l.lists {
        var j :| 0 <= j < n && KeyOf(init[j], q) == k;
        assert init[j] == targets[j];
      }
      if k !in r0.lists {
        forall j | 0 <= j < n ensures KeyOf(targets[j], q) != k {
          assert init[j] == targets[j];
        }
      }
    }
  }

  /** Which calls start at once: call `h0 + i` becomes active exactly when `StartsNow`
      holds for it. */
  lemma {:induction false} EnqueueAllActive(l: Lists, targets: seq<Element>, q: QueueArg, h0: nat)
    requires forall x | x in l.active :: x < h0
    ensures forall x | h0 <= x < h0 + |targets| ::
      x in EnqueueAll(l, targets, q, h0).active <==> StartsNow(l, targets, q, x - h0)
    decreases |targets|
  {
    if targets != [] {
      var n := |targets| - 1;
      var init := targets[..n];
      var r0 := EnqueueAll(l, init, q, h0);
      var r := EnqueueAll(l, targets, q, h0);
      EnqueueAllActive(l, init, q, h0);
      EnqueueStep(r0, targets[n], q, h0 + n);
      LastStarts(l, targets, q, h0);
      forall x | h0 <= x < h0 + n ensures x in r.active <==> StartsNow(l, targets, q, x - h0) {
        var i := x - h0;
        assert x in r.active <==> StartsNow(l, init, q, i);
        assert init[i] == targets[i];
        assert forall j | 0 <= j < i :: init[j] == targets[j];
      }
    }
  }

  /** `queue` on the state, stated on the lists. */
  method EnqueueOn(s: State, e: Element, h: Handle, q: QueueArg)
    requires s.Valid() && h < |s.calls| && s.loc[h] == Free && s.next[h] == Nil
    requires q != QFalse ==> e in s.elements
    modifies s`next, s`prev, s`first, s`last, s`firstNew, s`queueList, s`lastAnimation, s`active, s`pending, s`loc
    ensures s.Valid() && s.lastAnimation == old(s.lastAnimation)
    ensures ListsOf(s) == Enqueue(old(ListsOf(s)), e, q, h)
  {
    s.Queue(e, h, q);
  }

  /** One iteration of the per-element loop: a fresh call, queued, then `expandTweens`. */
  method QueueOne(s: State, c: Call, e: Element, q: QueueArg) returns (h: Handle)
    requires s.Valid() && s.CallbacksValid() && c.callbacks.None?
    requires q != QFalse ==> e in s.elements
    modifies s`calls, s`next, s`prev, s`first, s`last, s`firstNew, s`queueList, s`lastAnimation, s`active, s`pending, s`loc
    ensures s.Valid() && s.CallbacksValid() && s.lastAnimation == old(s.lastAnimation)
    ensures h == |old(s.calls)| && s.calls == old(s.calls) + [c]
    ensures ListsOf(s) == Enqueue(old(ListsOf(s)), e, q, h)
  {
    h := s.NewCall(c);
    EnqueueOn(s, e, h, q);
    s.ExpandTweens();
  }

  /** The per-element loop of core.ts:553-581: a fresh call per element, queued on the
      element `targets` names for it, then the new calls' tweens are expanded. */
  method QueueCalls(s: State, elements: seq<Element>, o: Settings, targets: seq<Element>)
    requires s.Valid() && s.CallbacksValid()
    requires |targets| == |elements|
    requires forall i | 0 <= i < |targets| :: targets[i] in s.elements
    modifies s`calls, s`next, s`prev, s`first, s`last, s`firstNew, s`queueList, s`lastAnimation, s`active, s`pending, s`loc
    ensures s.Valid() && s.CallbacksValid() && s.lastAnimation == old(s.lastAnimation)
    ensures s.calls == old(s.calls) + CallsFor(elements, o)
    ensures ListsOf(s) == EnqueueAll(old(ListsOf(s)), targets, ArgOf(CallQueue(o.queue)), |old(s.calls)|)
  {
    var q := ArgOf(CallQueue(o.queue));
    ghost var calls0, lists0 := s.calls, ListsOf(s);
    for i := 0 to |elements|
      invariant s.Valid() && s.CallbacksValid() && s.lastAnimation == old(s.lastAnimation)
      invariant s.calls == calls0 + CallsFor(elements, o)[..i]
      invariant ListsOf(s) == EnqueueAll(lists0, targets[..i], q, |calls0|)
    {
      var _ := QueueOne(s, NewCallFor(elements, i, o), targets[i], q);
      CallsForSnoc(calls0, elements, o, i);
      assert targets[..i + 1][..i] == targets[..i];
    }
    assert targets[..|elements|] == targets;
    assert CallsFor(elements, o)[..|elements|] == CallsFor(elements, o);
  }

  /** Creating the call for one more element extends the arena by it. */
  lemma CallsForSnoc(calls: seq<Call>, elements: seq<Element>, o: Settings, i: nat)
    requires i < |elements|
    ensures calls + CallsFor(elements, o)[..i] + [NewCallFor(elements, i, o)] == calls + CallsFor(elements, o)[..i + 1]
  {
    assert CallsFor(elements, o)[..i + 1] == CallsFor(elements, o)[..i] + [NewCallFor(elements, i, o)];
  }

  /** The element-init loop (core.ts:536-542): every targeted element gets a data cache. */
  method InitAll(s: State, elements: seq<Element>)
    requires s.Valid()
    modifies s`elements
    ensures s.Valid() && s.elements == old(s.elements) + set i | 0 <= i < |elements| :: elements[i]
  {
    for i := 0 to |elements|
      invariant s.Valid() && s.elements == old(s.elements) + set j | 0 <= j < i :: elements[j]
    {
      if elements[i] !in s.elements {
        s.InitElement(elements[i]);
      }
      assert (set j | 0 <= j < i + 1 :: elements[j]) == (set j | 0 <= j < i :: elements[j]) + {elements[i]};
    }
  }

  /** core.ts:583-588: a tick loop that is not running is marked running and ticked once
      with no timestamp, which only re-arms it. */
  method StartTicking(s: State, clock: real, easing: Easing)
    requires s.Valid() && s.CallbacksValid()
    modifies s`calls, s`callbacks, s`log, s`next, s`prev, s`first, s`last, s`firstNew, s`queueList,
             s`lastAnimation, s`active, s`pending, s`loc, s`lastTick, s`isTicking
    ensures s.Valid() && s.CallbacksValid() && s.isTicking
    ensures s.calls == old(s.calls) && s.log == old(s.log) && ListsOf(s) == old(ListsOf(s))
  {
    if !s.isTicking {
      s.isTicking := true;
      var _ := Tick(s, NoStamp, clock, easing);
    }
  }

  /** Every call queued on the first element, as core.ts:579 does. */
  function OnFirst(elements: seq<Element>): (t: seq<Element>)
    ensures |t| == |elements| && forall i | 0 <= i < |t| :: t[i] == elements[0]
  {
    seq(|elements|, i requires 0 <= i < |elements| => elements[0])
  }

  /** Part II as written: init, one call per element queued on `elements[0]`, and the tick
      loop started (with no timestamp) when it is not running. */
  method StartAsWritten(s: State, elements: seq<Element>, o: Settings, clock: real, easing: Easing)
    requires s.Valid() && s.CallbacksValid()
    modifies s`elements, s`calls, s`callbacks, s`log, s`next, s`prev, s`first, s`last, s`firstNew,
             s`queueList, s`lastAnimation, s`active, s`pending, s`loc, s`lastTick, s`isTicking
    ensures s.Valid() && s.CallbacksValid() && s.isTicking
    ensures s.elements == old(s.elements) + set i | 0 <= i < |elements| :: elements[i]
    ensures s.calls == old(s.calls) + CallsFor(elements, o) && s.log == old(s.log)
    ensures ListsOf(s) == EnqueueAll(old(ListsOf(s)), OnFirst(elements), ArgOf(CallQueue(o.queue)), |old(s.calls)|)
  {
    InitAll(s, elements);
    QueueCalls(s, elements, o, OnFirst(elements));
    StartTicking(s, clock, easing);
  }

  /** Part II with each call queued on its own element, as the comment at core.ts:548-549
      describes. */
  method Start(s: State, elements: seq<Element>, o: Settings, clock: real, easing: Easing)
    requires s.Valid() && s.CallbacksValid()
    modifies s`elements, s`calls, s`callbacks, s`log, s`next, s`prev, s`first, s`last, s`firstNew,
             s`queueList, s`lastAnimation, s`active, s`pending, s`loc, s`lastTick, s`isTicking
    ensures s.Valid() && s.CallbacksValid() && s.isTicking
    ensures s.elements == old(s.elements) + set i | 0 <= i < |elements| :: elements[i]
    ensures s.calls == old(s.calls) + CallsFor(elements, o) && s.log == old(s.log)
    ensures ListsOf(s) == EnqueueAll(old(ListsOf(s)), elements, ArgOf(CallQueue(o.queue)), |old(s.calls)|)
  {
    InitAll(s, elements);
    QueueCalls(s, elements, o, elements);
    StartTicking(s, clock, easing);
  }

  /** With each call on its own element and no element twice, an element's call starts at
      once exactly when its queue is `false` or the element had no entry for that queue:
      each element's existing queue is respected and no other element's is. */
  lemma OwnQueueRespected(l: Lists, elements: seq<Element>, q: QueueArg, h0: nat)
    requires forall x | x in l.active :: x < h0
    requires forall i, j | 0 <= i < j < |elements| :: elements[i] != elements[j]
    ensures forall x | h0 <= x < h0 + |elements| ::
      x in EnqueueAll(l, elements, q, h0).active <==> q == QFalse || KeyOf(elements[x - h0], q) !in l.lists
  {
    EnqueueAllActive(l, elements, q, h0);
    forall i | 0 <= i < |elements|
      ensures StartsNow(l, elements, q, i) <==> q == QFalse || KeyOf(elements[i], q) !in l.lists
    {
      if q != QFalse {
        forall j | 0 <= j < i ensures KeyOf(elements[j], q) != KeyOf(elements[i], q) {
          assert elements[j] != elements[i];
        }
      }
    }
  }

  /** As written, on a named queue every call but the first waits in `elements[0]`'s FIFO,
      whatever its own element's queue holds. */
  lemma FirstElementSerializes(l: Lists, elements: seq<Element>, q: QueueArg, h0: nat)
    requires forall x | x in l.active :: x < h0
    requires q != QFalse
    ensures forall x | h0 < x < h0 + |elements| :: x !in EnqueueAll(l, OnFirst(elements), q, h0).active
  {
    var t := OnFirst(elements);
    EnqueueAllActive(l, t, q, h0);
    forall i | 0 < i < |elements| ensures !StartsNow(l, t, q, i) {
      assert KeyOf(t[0], q) == KeyOf(t[i], q);
    }
  }

  /** Two elements with empty queues animated by one call on the default queue: as written
      the second element's call does not start, though its own element is idle. */
  lemma SecondElementWaits(a: Element, b: Element, h0: nat)
    requires a != b
    ensures h0 + 1 !in EnqueueAll(Lists([], map[], map[]), OnFirst([a, b]), QOther, h0).active
    ensures h0 + 1 in EnqueueAll(Lists([], map[], map[]), [a, b], QOther, h0).active
  {
    FirstElementSerializes(Lists([], map[], map[]), [a, b], QOther, h0);
    OwnQueueRespected(Lists([], map[], map[]), [a, b], QOther, h0);
  }

  /** Draining as core.ts:294 writes it: every dequeued call's `resolver` is invoked, and
      invoking the `false` a call without a resolver holds throws; `None` is the thrown
      TypeError. */
  function ResolvedAsWritten(calls: seq<Call>, hs: seq<Handle>): (r: Option<seq<Event>>)
    requires forall i | 0 <= i < |hs| :: hs[i] < |calls|
    ensures r.None? <==> exists i | 0 <= i < |hs| :: !calls[hs[i]].hooks.resolver
    decreases |hs|
  {
    if hs == [] then Some([])
    else
      var n := |hs| - 1;
      var before := ResolvedAsWritten(calls, hs[..n]);
      assert forall i | 0 <= i < n :: hs[..n][i] == hs[i];
      if before.None? || !calls[hs[n]].hooks.resolver then None
      else Some(before.value + [Resolve(hs[n])])
  }

  /** Where every drained call holds a resolver the code as written and the model's drain
      agree. */
  lemma {:induction false} AsWrittenAgrees(calls: seq<Call>, hs: seq<Handle>)
    requires forall i | 0 <= i < |hs| :: hs[i] < |calls| && calls[hs[i]].hooks.resolver
    ensures ResolvedAsWritten(calls, hs) == Some(Resolved(calls, hs))
    decreases |hs|
  {
    if hs != [] {
      var n := |hs| - 1;
      assert forall i | 0 <= i < n :: hs[..n][i] == hs[i];
      AsWrittenAgrees(calls, hs[..n]);
    }
  }

  /** A call on two elements whose promise has a resolver: the first element's call holds
      none, so as written draining a FIFO that holds it throws, while the model's drain
      invokes nothing for it. */
  lemma DrainingFirstCallThrows(a: Element, b: Element, o: Settings)
    requires o.given.resolver
    ensures ResolvedAsWritten(CallsFor([a, b], o), [0]) == None
    ensures Resolved(CallsFor([a, b], o), [0]) == []
    ensures ResolvedAsWritten(CallsFor([a, b], o), [1]) == Some([Resolve(1)])
  {
    var calls := CallsFor([a, b], o);
    assert !calls[0].hooks.resolver && calls[1].hooks.resolver;
    assert [0][..0] == [] && [1][..0] == [];
    assert ResolvedAsWritten(calls, []) == Some([]);
    assert [] + [Resolve(1)] == [Resolve(1)];
  }
}
