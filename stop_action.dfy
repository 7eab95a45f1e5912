/** The registered "stop" and "finishAll" actions of actions/stop.ts and
    actions/finishAll.ts: checked calls are flagged as stopped and completed when
    their queue matches; finishAll first releases each element's pending queue. */
module StopActions {
  import opened Types
  import opened Queues
  import opened Ticks
  import opened Actions

  /** A checked call is stopped when no queue name was given or the name is the call's
      own queue (stop.ts:18). */
  predicate Stops(c: Call, queueName: Option<QName>)
  {
    queueName.None? || queueName.value == c.queue
  }

  /** checkAnimationShouldBeStopped (stop.ts:16-22) on the calls and the effects it hands on. */
  function Check(calls: seq<Call>, h: Handle, queueName: Option<QName>): (r: (seq<Call>, seq<Event>))
    requires h < |calls|
    ensures |r.0| == |calls|
  {
    if Stops(calls[h], queueName) then
      (calls[h := calls[h].(flags := calls[h].flags + {Stopped})], [Validate(h), Complete(h, false)])
    else
      (calls, [Validate(h)])
  }

  /** Checking each call of `hs` in turn. */
  function CheckAll(calls: seq<Call>, hs: seq<Handle>, queueName: Option<QName>): (r: (seq<Call>, seq<Event>))
    requires Within(hs, |calls|)
    ensures |r.0| == |calls|
    decreases |hs|
  {
    if hs == [] then (calls, [])
    else
      var p := CheckAll(calls, hs[..|hs| - 1], queueName);
      var q := Check(p.0, hs[|hs| - 1], queueName);
      (q.0, p.1 + q.1)
  }

  /** Checking gives the `STOPPED` flag exactly to the checked calls that match, changes
      nothing else, validates every checked call and completes exactly the matched ones. */
  lemma {:induction false} CheckAllExact(calls: seq<Call>, hs: seq<Handle>, queueName: Option<QName>)
    requires Within(hs, |calls|)
    ensures var r := CheckAll(calls, hs, queueName);
      && (forall x | 0 <= x < |calls| ::
            r.0[x] == if x in hs && Stops(calls[x], queueName) then calls[x].(flags := calls[x].flags + {Stopped}) else calls[x])
      && (forall e | e in r.1 :: (e.Validate? || e.Complete?) && e.call in hs)
      && (forall x | x in hs :: Validate(x) in r.1)
      && (forall x: Handle, b: bool | Complete(x, b) in r.1 :: !b && x < |calls| && Stops(calls[x], queueName))
      && (forall x | x in hs && Stops(calls[x], queueName) :: Complete(x, false) in r.1)
    decreases |hs|
  {
    if hs != [] {
      var init, h := hs[..|hs| - 1], hs[|hs| - 1];
      assert Within(init, |calls|);
      CheckAllExact(calls, init, queueName);
      var p := CheckAll(calls, init, queueName);
      assert p.0[h].queue == calls[h].queue;
      forall x | x in hs ensures x in init || x == h {
        var i :| 0 <= i < |hs| && hs[i] == x;
        if i < |hs| - 1 { assert init[i] == x; }
      }
      forall x | x in init ensures x in hs {
        var i :| 0 <= i < |init| && init[i] == x;
        assert hs[i] == x;
      }
    }
  }

  /** The active calls that the walk checks: those whose element is among the targets,
      or all of them when no elements were given (stop.ts:58). */
  function Chosen(calls: seq<Call>, order: seq<Handle>, targets: Option<seq<Element>>): (r: seq<Handle>)
    requires Within(order, |calls|)
    ensures Within(r, |calls|) && |r| <= |order|
    ensures forall x :: x in r <==> x in order && (targets.None? || calls[x].element in targets.value)
    decreases |order|
  {
    if order == [] then []
    else
      var rest := Chosen(calls, order[..|order| - 1], targets);
      var h := order[|order| - 1];
      assert forall x | x in order :: x in order[..|order| - 1] || x == h;
      if targets.None? || calls[h].element in targets.value then rest + [h] else rest
  }

  /** The calls from the `firstNew` marker to the end of the active list. */
  ghost function Fresh(active: seq<Handle>, marker: Link): (r: seq<Handle>)
    ensures |r| <= |active|
    decreases |active|
  {
    if marker == Nil || active == [] then []
    else if active[0] == marker.h then active
    else Fresh(active[1..], marker)
  }

  /** In a list without repeats, the marker at position `i` starts the suffix at `i`. */
  lemma {:induction false} FreshAt(active: seq<Handle>, i: nat)
    requires Distinct(active) && i < |active|
    ensures Fresh(active, Ref(active[i])) == active[i..]
    decreases i
  {
    if i > 0 {
      assert active[0] != active[i];
      assert Distinct(active[1..]) by {
        forall a, b | 0 <= a < b < |active| - 1 ensures active[1..][a] != active[1..][b] {
          assert active[a + 1] != active[b + 1];
        }
      }
      FreshAt(active[1..], i - 1);
      assert active[1..][i - 1..] == active[i..];
    }
  }

  /** In the active list, the marker at position `i` starts the suffix at `i`. */
  lemma MarkerAt(active: seq<Handle>, next: seq<Link>, i: nat)
    requires Linked(active, next) && i < |active|
    ensures Fresh(active, Ref(active[i])) == active[i..]
  {
    LinkedDistinct(active, next);
    FreshAt(active, i);
  }

  /** The `validateTweens` of each call of `hs`, in order. */
  function Validates(hs: seq<Handle>): (r: seq<Event>)
    ensures |r| == |hs| && forall i | 0 <= i < |hs| :: r[i] == Validate(hs[i])
  {
    seq(|hs|, i requires 0 <= i < |hs| => Validate(hs[i]))
  }

  lemma ValidatesStep(hs: seq<Handle>, i0: nat, i: nat)
    requires i0 <= i < |hs|
    ensures Validates(hs[i0..i + 1]) == Validates(hs[i0..i]) + [Validate(hs[i])]
  {
    assert hs[i0..i + 1] == hs[i0..i] + [hs[i]];
  }

  /** The position of the marker in the active list: the new calls are the suffix from it. */
  lemma MarkerIndex(active: seq<Handle>, next: seq<Link>, marker: Link) returns (i: nat)
    requires Linked(active, next) && (marker == Nil || marker.h in active)
    ensures i <= |active| && marker == First(active[i..]) && Fresh(active, marker) == active[i..]
  {
    i := |active|;
    if marker.Ref? {
      i :| 0 <= i < |active| && active[i] == marker.h;
      MarkerAt(active, next, i);
    }
  }

  /** `while ((activeCall = State.firstNew)) validateTweens(activeCall)` (stop.ts:53-55):
      every call from the marker to the end of the active list is validated in order,
      which moves the marker off the end of the list. */
  method ValidateNew(s: State)
    requires s.Valid() && s.MarkerInList()
    modifies s`firstNew, s`log
    ensures s.Valid() && s.firstNew == Nil
    ensures s.log == old(s.log) + Validates(Fresh(s.active, old(s.firstNew)))
  {
    ghost var i0 := MarkerIndex(s.active, s.next, s.firstNew);
    ghost var i := i0;
    while s.firstNew.Ref?
      invariant s.Valid()
      invariant i0 <= i <= |s.active| && s.firstNew == First(s.active[i..])
      invariant s.log == old(s.log) + Validates(s.active[i0..i])
      decreases |s.active| - i
    {
      ValidateAt(s, i);
      ValidatesStep(s.active, i0, i);
      i := i + 1;
    }
    assert s.active[i0..i] == s.active[i0..];
  }

  /** One round of that loop: validating the call at the marker moves the marker to the next
      active call, or off the end. */
  method ValidateAt(s: State, ghost i: nat)
    requires s.Valid() && i < |s.active| && s.firstNew == Ref(s.active[i])
    modifies s`firstNew, s`log
    ensures s.Valid() && s.firstNew == First(s.active[i + 1..])
    ensures s.log == old(s.log) + [Validate(s.active[i])]
  {
    assert s.next[s.active[i]] == Succ(s.active, i);
    s.ValidateTweens(s.firstNew.h);
    if i + 1 < |s.active| {
      assert s.active[i + 1..][0] == s.active[i + 1];
    }
  }

  /** checkAnimationShouldBeStopped (stop.ts:16-22): validates the call, and when the queue
      matches ORs `STOPPED` into its flags and completes it (without the `stopped` argument). */
  method CheckCall(s: State, h: Handle, queueName: Option<QName>)
    requires s.Valid() && s.CallbacksValid() && h < |s.calls|
    modifies s`calls, s`firstNew, s`log
    ensures s.Valid() && s.CallbacksValid() && (old(s.MarkerInList()) ==> s.MarkerInList())
    ensures s.firstNew == if old(s.firstNew) == Ref(h) then s.next[h] else old(s.firstNew)
    ensures var r := Check(old(s.calls), h, queueName);
      s.calls == r.0 && s.log == old(s.log) + r.1
  {
    s.ValidateTweens(h);
    var c := s.calls[h];
    if queueName.None? || queueName.value == c.queue {
      s.calls := s.calls[h := c.(flags := c.flags + {Stopped})];
      s.CompleteCall(h, false);
      assert s.log == old(s.log) + [Validate(h), Complete(h, false)];
    }
  }

  /** The state of the stop walk after `j` positions of `order`: the calls chosen so far
      have been checked, from the snapshot `calls`, and their events logged after `log`. */
  ghost predicate Walked(s: State, calls: seq<Call>, log: seq<Event>, order: seq<Handle>,
                         targets: Option<seq<Element>>, queueName: Option<QName>, j: nat, done: seq<Event>)
    reads s
  {
    && s.Valid() && s.CallbacksValid() && s.firstNew == Nil
    && Within(order, |calls|) && j <= |order|
    && s.log == log + done
    && (s.calls, done) == CheckAll(calls, Chosen(calls, order[..j], targets), queueName)
  }

  /** The stop walk of stop.ts:56-61 as written: the successor is read from `_next`, a field
      no code assigns, so it is undefined and the walk falls back at once to `State.firstNew`,
      which the validation loop has unset. Only the call at `State.first` is checked, if it
      is chosen. */
  method CheckWalkAsWritten(s: State, targets: Option<seq<Element>>, queueName: Option<QName>)
    requires s.Valid() && s.CallbacksValid() && s.firstNew == Nil
    modifies s`calls, s`firstNew, s`log
    ensures s.Valid() && s.CallbacksValid() && s.firstNew == Nil
    ensures var r := CheckAll(old(s.calls), Chosen(old(s.calls), s.active[..if s.active == [] then 0 else 1], targets), queueName);
      s.calls == r.0 && s.log == old(s.log) + r.1
  {
    ghost var j := 0;
    ghost var order, calls0, log0 := s.active, s.calls, s.log;
    ghost var done: seq<Event> := [];
    assert Within(order, |calls0|) by {
      forall i | 0 <= i < |order| ensures order[i] < |calls0| {
        assert s.loc[order[i]] == Active;
      }
    }
    var activeCall := s.first;
    while activeCall.Ref?
      invariant j <= 1 && j <= |order| && activeCall == (if j == 0 then First(order) else Nil)
      invariant Walked(s, calls0, log0, order, targets, queueName, j, done)
      decreases 1 - j
    {
      var nextCall: Link := Nil;
      var unread;
      unread, done := CheckIfChosen(s, activeCall.h, targets, queueName, calls0, log0, order, j, done);
      activeCall := if nextCall.Ref? then nextCall else s.firstNew;
      j := j + 1;
    }
  }

  /** Two active calls on one targeted element: the walk as written stops only the first,
      the walk along `next` stops both. */
  lemma SecondCallMissed(calls: seq<Call>, e: Element, q: QName)
    requires |calls| == 2 && calls[0].element == e && calls[1].element == e
    requires calls[1].queue == q && Stopped !in calls[1].flags
    ensures var asWritten := Chosen(calls, [0, 1][..1], Some([e]));
      1 !in asWritten && Stopped !in CheckAll(calls, asWritten, Some(q)).0[1].flags
    ensures var intended := Chosen(calls, [0, 1], Some([e]));
      1 in intended && Stopped in CheckAll(calls, intended, Some(q)).0[1].flags
  {
    var one, two: seq<Handle> := [0, 1][..1], [0, 1];
    assert one == [0] && 1 in two;
    CheckAllExact(calls, Chosen(calls, one, Some([e])), Some(q));
    CheckAllExact(calls, Chosen(calls, two, Some([e])), Some(q));
  }

  /** The stop walk (stop.ts:56-61) as evidently intended: from `State.first` along the
      `next` links (the source reads `_next`, which nothing assigns), falling back to
      `State.firstNew` at the end, every chosen call is checked. */
  method CheckWalk(s: State, targets: Option<seq<Element>>, queueName: Option<QName>)
    requires s.Valid() && s.CallbacksValid() && s.firstNew == Nil
    modifies s`calls, s`firstNew, s`log
    ensures s.Valid() && s.CallbacksValid() && s.firstNew == Nil
    ensures var r := CheckAll(old(s.calls), Chosen(old(s.calls), s.active, targets), queueName);
      s.calls == r.0 && s.log == old(s.log) + r.1
  {
    ghost var j := 0;
    ghost var order, calls0, log0 := s.active, s.calls, s.log;
    ghost var done: seq<Event> := [];
    assert Within(order, |calls0|) by {
      forall i | 0 <= i < |order| ensures order[i] < |calls0| {
        assert s.loc[order[i]] == Active;
      }
    }
    var activeCall := s.first;
    while activeCall.Ref?
      invariant 0 <= j <= |order| && activeCall == First(order[j..])
      invariant Walked(s, calls0, log0, order, targets, queueName, j, done)
      decreases |order| - j
    {
      var nextCall;
      nextCall, done := CheckIfChosen(s, activeCall.h, targets, queueName, calls0, log0, order, j, done);
      activeCall := if nextCall.Ref? then nextCall else s.firstNew;
      j := j + 1;
    }
    assert order[..j] == order;
  }

  /** One step of that walk: the call at position `j` is checked when it is chosen, and the
      saved `_next` link is handed back. */
  method CheckIfChosen(s: State, h: Handle, targets: Option<seq<Element>>, queueName: Option<QName>,
                       ghost calls: seq<Call>, ghost log: seq<Event>, ghost order: seq<Handle>, ghost j: nat, ghost done: seq<Event>)
    returns (nextCall: Link, ghost done': seq<Event>)
    requires s.active == order && j < |order| && Ref(h) == First(order[j..])
    requires Walked(s, calls, log, order, targets, queueName, j, done)
    modifies s`calls, s`firstNew, s`log
    ensures nextCall == First(order[j + 1..])
    ensures Walked(s, calls, log, order, targets, queueName, j + 1, done')
  {
    assert order[j..][0] == order[j];
    assert s.next[order[j]] == Succ(order, j);
    nextCall := s.next[h];
    ghost var more: seq<Event>;
    ghost var chosen := Chosen(calls, order[..j], targets);
    CheckAllKeeps(calls, chosen, queueName, h);
    ChosenSnoc(calls, order, j, targets);
    more := [];
    if targets.None? || s.calls[h].element in targets.value {
      CheckCall(s, h, queueName);
      more := Check(old(s.calls), h, queueName).1;
      CheckAllSnoc(calls, chosen, h, queueName);
      assert Chosen(calls, order[..j + 1], targets) == chosen + [h];
      assert s.calls == CheckAll(calls, chosen + [h], queueName).0;
      assert done + more == CheckAll(calls, chosen + [h], queueName).1;
    } else {
      assert Chosen(calls, order[..j + 1], targets) == chosen;
      assert done + more == done;
    }
    Associative(log, done, more);
    done' := done + more;
  }

  /** Checking never changes a call's element or queue. */
  lemma {:induction false} CheckAllKeeps(calls: seq<Call>, hs: seq<Handle>, queueName: Option<QName>, x: Handle)
    requires Within(hs, |calls|) && x < |calls|
    ensures CheckAll(calls, hs, queueName).0[x].element == calls[x].element
    ensures CheckAll(calls, hs, queueName).0[x].queue == calls[x].queue
    decreases |hs|
  {
    if hs != [] {
      CheckAllKeeps(calls, hs[..|hs| - 1], queueName, x);
    }
  }

  /** Checking one more call continues the check. */
  lemma CheckAllSnoc(calls: seq<Call>, hs: seq<Handle>, h: Handle, queueName: Option<QName>)
    requires Within(hs, |calls|) && h < |calls|
    ensures Within(hs + [h], |calls|)
    ensures var p := CheckAll(calls, hs, queueName);
      var q := Check(p.0, h, queueName);
      CheckAll(calls, hs + [h], queueName) == (q.0, p.1 + q.1)
  {
    assert (hs + [h])[..|hs|] == hs;
  }

  /** The chosen calls of one more position of the walk. */
  lemma ChosenSnoc(calls: seq<Call>, order: seq<Handle>, j: nat, targets: Option<seq<Element>>)
    requires Within(order, |calls|) && j < |order|
    ensures Chosen(calls, order[..j + 1], targets)
      == Chosen(calls, order[..j], targets) + (if targets.None? || calls[order[j]].element in targets.value then [order[j]] else [])
    ensures j + 1 < |order| ==> First(order[j + 1..]) == Ref(order[j + 1])
  {
    assert order[..j + 1][..j] == order[..j];
  }

  /** The target of a stop: the subject's own `animations` list, or its elements (absent
      when the subject is not given). */
  datatype Subject = Animations(hs: seq<Handle>) | Elements(targets: Option<seq<Element>>)

  /** The calls stop checks: the animations list in its order, or the chosen active calls,
      after the new calls were validated. */
  function Scope(calls: seq<Call>, active: seq<Handle>, subject: Subject): (r: seq<Handle>)
    requires Within(active, |calls|) && (subject.Animations? ==> Within(subject.hs, |calls|))
    ensures Within(r, |calls|)
    ensures subject.Animations? ==> r == subject.hs
    ensures subject.Elements? ==> forall x :: x in r <==> x in active && (subject.targets.None? || calls[x].element in subject.targets.value)
  {
    if subject.Animations? then subject.hs else Chosen(calls, active, subject.targets)
  }

  /** The queue name the walk compares against: an absent name becomes the default queue "",
      unless an animations list is checked, where it stops every call (stop.ts:38, 49-51). */
  function Effective(subject: Subject, queueName: Option<QName>): (r: Option<QName>)
    ensures subject.Elements? ==> r.Some? && (queueName.Some? ==> r == queueName)
    ensures subject.Animations? ==> r == queueName
  {
    if subject.Elements? && queueName.None? then Some(Named(DEFAULT_QUEUE)) else queueName
  }

  /** stop (stop.ts:37-70), without the promise resolution. With an animations list only its
      calls are checked; otherwise the new calls are validated first and the chosen active
      calls are checked. */
  method Stop(s: State, subject: Subject, queueName: Option<QName>)
    requires s.Valid() && s.CallbacksValid() && s.MarkerInList()
    requires subject.Animations? ==> Within(subject.hs, |s.calls|)
    modifies s`calls, s`firstNew, s`log
    ensures s.Valid() && s.CallbacksValid()
    ensures s.MarkerInList() && (subject.Elements? ==> s.firstNew == Nil)
    ensures var pre := if subject.Elements? then Validates(Fresh(s.active, old(s.firstNew))) else [];
      var r := CheckAll(old(s.calls), Scope(old(s.calls), s.active, subject), Effective(subject, queueName));
      s.calls == r.0 && s.log == old(s.log) + pre + r.1
  {
    assert Within(s.active, |s.calls|) by {
      forall i | 0 <= i < |s.active| ensures s.active[i] < |s.calls| {
        assert s.loc[s.active[i]] == Active;
      }
    }
    if subject.Animations? {
      StopList(s, subject.hs, queueName);
      assert s.log == old(s.log) + [] + CheckAll(old(s.calls), subject.hs, queueName).1;
    } else {
      var name := if queueName.None? then Some(Named(DEFAULT_QUEUE)) else queueName;
      ValidateNew(s);
      CheckWalk(s, subject.targets, name);
    }
  }

  /** The animations-list branch (stop.ts:41-44): each listed call is checked in order. */
  method StopList(s: State, hs: seq<Handle>, queueName: Option<QName>)
    requires s.Valid() && s.CallbacksValid() && Within(hs, |s.calls|)
    modifies s`calls, s`firstNew, s`log
    ensures s.Valid() && s.CallbacksValid() && (old(s.MarkerInList()) ==> s.MarkerInList())
    ensures var r := CheckAll(old(s.calls), hs, queueName);
      s.calls == r.0 && s.log == old(s.log) + r.1
  {
    for i := 0 to |hs|
      invariant s.Valid() && s.CallbacksValid() && |s.calls| == |old(s.calls)|
      invariant old(s.MarkerInList()) ==> s.MarkerInList()
      invariant var r := CheckAll(old(s.calls), hs[..i], queueName);
        s.calls == r.0 && s.log == old(s.log) + r.1
    {
      assert hs[..i + 1][..i] == hs[..i];
      CheckCall(s, hs[i], queueName);
    }
    assert hs[..|hs|] == hs;
  }


  /** How a registered action ends: normally, or with a `TypeError` thrown before any change. */
  datatype Outcome = Finished | Thrown

  /** The `expandTween` of each call of `hs`, in order. */
  function Expansions(hs: seq<Handle>): (r: seq<Event>)
    ensures |r| == |hs| && forall i | 0 <= i < |hs| :: r[i] == ExpandTween(hs[i])
  {
    seq(|hs|, i requires 0 <= i < |hs| => ExpandTween(hs[i]))
  }

  /** finishAll's draining (finishAll.ts:17-30): the queue named by `State.first`'s call is
      released on each element; a `false` queue releases nothing, and so do no elements. */
  function Drained(r: Registry, first: Link, elements: seq<Element>): (p: Registry)
    requires first.Ref? ==> first.h < |r.calls|
    ensures elements == [] || first == Nil || r.calls[first.h].queue == NoQueue ==> p == r
  {
    if elements == [] || first == Nil then r
    else
      var q := ArgOf(r.calls[first.h].queue);
      if q == QFalse then r else ReleaseAll(r, elements, q)
  }

  /** Releasing keeps the arena's size and keeps the marker on the active list. */
  lemma {:induction false} ReleaseAllKeeps(r: Registry, els: seq<Element>, q: QueueArg)
    requires q != QFalse && (r.firstNew == Nil || r.firstNew.h in r.active)
    ensures var r' := ReleaseAll(r, els, q);
      |r'.calls| == |r.calls| && (r'.firstNew == Nil || r'.firstNew.h in r'.active)
    decreases |els|
  {
    if els != [] {
      ReleaseAllKeeps(r, els[..|els| - 1], q);
    }
  }

  /** The draining step of finishAll (finishAll.ts:17-30), on a state whose `first` call
      exists whenever there are elements: the registry becomes `Drained` of the old one and
      the calls it releases are appended to the active list. */
  method DrainFirst(s: State, elements: seq<Element>) returns (released: seq<Handle>)
    requires s.Valid() && s.CallbacksValid() && s.MarkerInList()
    requires forall i | 0 <= i < |elements| :: elements[i] in s.elements
    requires elements != [] ==> s.first.Ref?
    modifies s`calls, s`next, s`prev, s`first, s`last, s`firstNew, s`queueList, s`lastAnimation, s`active, s`pending, s`loc
    ensures s.Valid() && s.CallbacksValid() && s.MarkerInList() && |s.calls| == |old(s.calls)|
    ensures old(s.first).Ref? ==> old(s.first).h < |old(s.calls)|
    ensures RegistryOf(s) == Drained(old(RegistryOf(s)), old(s.first), elements)
    ensures s.active == old(s.active) + released
  {
    assert s.first.Ref? ==> s.first.h < |s.calls| by {
      if s.first.Ref? { assert s.loc[s.active[0]] == Active; }
    }
    released := [];
    if elements != [] {
      var q := ArgOf(s.calls[s.first.h].queue);
      if q != QFalse {
        ReleaseAllKeeps(RegistryOf(s), elements, q);
        released := ReleaseEach(s, elements, q);
      }
    }
  }

  /** finishAll (finishAll.ts:16-33): reads the queue of `State.first`'s call (a `TypeError`
      when there is none and there are elements to drain), releases that queue on each
      element, expanding each released call, then runs stop with the same arguments. */
  method FinishAll(s: State, elements: Option<seq<Element>>, animations: Option<seq<Handle>>, queueName: Option<QName>)
    returns (outcome: Outcome)
    requires s.Valid() && s.CallbacksValid() && s.MarkerInList()
    requires elements.Some? ==> forall i | 0 <= i < |elements.value| :: elements.value[i] in s.elements
    requires animations.Some? ==> Within(animations.value, |s.calls|)
    modifies s`calls, s`next, s`prev, s`first, s`last, s`firstNew, s`queueList, s`lastAnimation, s`active, s`pending, s`loc, s`log
    ensures s.Valid() && s.CallbacksValid()
    ensures outcome == Thrown <==> elements.None? || (elements.value != [] && old(s.first) == Nil)
    ensures outcome == Thrown ==> RegistryOf(s) == old(RegistryOf(s)) && s.log == old(s.log)
    ensures outcome == Finished ==>
      && (old(s.first).Ref? ==> old(s.first).h < |old(s.calls)|)
      && var p := Drained(old(RegistryOf(s)), old(s.first), elements.value);
      && |old(s.active)| <= |p.active| && |p.calls| == |old(s.calls)|
      && s.active == p.active && s.queueList == p.lists && s.pending == p.pending
      && var subject := if animations.Some? then Animations(animations.value) else Elements(Some(elements.value));
      && Within(p.active, |p.calls|)
      && var r := CheckAll(p.calls, Scope(p.calls, p.active, subject), Effective(subject, queueName));
      && s.calls == r.0
      && s.log == old(s.log) + Expansions(p.active[|old(s.active)|..])
                  + (if subject.Elements? then Validates(Fresh(p.active, p.firstNew)) else []) + r.1
  {
    if elements.None? || (elements.value != [] && s.first == Nil) {
      return Thrown;
    }
    outcome := Finished;
    var released := DrainFirst(s, elements.value);
    assert s.active[|old(s.active)|..] == released;
    s.log := s.log + Expansions(released);
    var subject := if animations.Some? then Animations(animations.value) else Elements(Some(elements.value));
    Stop(s, subject, queueName);
  }
}
