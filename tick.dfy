/** tick.ts: one animation frame. Every active call up to the `firstNew` marker
    is advanced: its clock is started, paused or delayed, its `begin` hook fires
    once, its completion fraction is computed and each tween's value is
    evaluated and written when it changed. Then the progress hooks and the
    completions are dispatched in two more walks over the list. */
module Ticks {
  import opened Types
  import opened Queues

  /** One frame at 60 frames per second, in milliseconds. */
  const FRAME_TIME: real := 1000.0 / 60.0

  /** The `timestamp` argument: absent or `false`, `true` (read the clock), or a number. */
  datatype Stamp = NoStamp | Now | At(t: real)

  /** `if (timestamp)`: a number counts unless it is 0. */
  predicate Truthy(stamp: Stamp)
  {
    stamp.Now? || (stamp.At? && stamp.t != 0.0)
  }

  /** `timeCurrent`: the timestamp itself, or the clock reading when the timestamp is `true`. */
  function TimeOf(stamp: Stamp, clock: real): real
  {
    if stamp.At? then stamp.t else clock
  }

  /** `deltaTime`: the time since the last tick, or one frame when there was none. */
  function Delta(timeCurrent: real, lastTick: real): real
  {
    if lastTick != 0.0 then timeCurrent - lastTick else FRAME_TIME
  }

  /** JavaScript's `Math.round`: the nearest integer, halves rounded up. */
  function Round(x: real): (r: int)
    ensures x - 0.5 < r as real <= x + 0.5
  {
    (x + 0.5).Floor
  }

  /** `Math.min(ellapsed / duration, 1)`. A zero duration completes at once. */
  function Percent(ellapsed: real, duration: real): (p: real)
    ensures p <= 1.0
    ensures duration > 0.0 ==> (p == 1.0 <==> ellapsed >= duration)
    ensures duration == 0.0 ==> p == 1.0
    ensures duration != 0.0 && p < 1.0 ==> p * duration == ellapsed
  {
    if duration == 0.0 then 1.0
    else if ellapsed / duration < 1.0 then ellapsed / duration
    else 1.0
  }

  /** `getEasing(delta)`: the eased share of `delta`, mirrored for a reversed tween. */
  function Eased(easing: Easing, t: Tween, pc: real, h: Handle, delta: real): real
  {
    delta * (if t.reverse then 1.0 - easing(t.easing, 1.0 - pc, h, delta) else easing(t.easing, pc, h, delta))
  }

  /** A number, rounded when its slot is marked with `!`. */
  function Rounded(x: real, round: bool): Piece
  {
    Nbr(if round then Round(x) as real else x)
  }

  /** `expandPattern` for one `{index}` slot. */
  function SlotPiece(index: nat, round: bool, starts: seq<real>, ends: seq<real>,
                     easing: Easing, t: Tween, pc: real, h: Handle): Piece
  {
    if pc < 1.0 then
      if index < |starts| && index < |ends| then
        Rounded(starts[index] + Eased(easing, t, pc, h, ends[index] - starts[index]), round)
      else Bad
    else if index < |ends| then Rounded(ends[index], round)
    else Bad
  }

  /** `pattern.replace(/{(\d+)(!)?}/g, expandPattern)` over a tokenised pattern. */
  function Expand(pattern: seq<Token>, starts: seq<real>, ends: seq<real>,
                  easing: Easing, t: Tween, pc: real, h: Handle): (r: seq<Piece>)
    ensures |r| == |pattern|
    ensures forall i | 0 <= i < |pattern| && pattern[i].Lit? :: r[i] == Txt(pattern[i].text)
    ensures forall i | 0 <= i < |pattern| && pattern[i].Slot? ::
              r[i] == SlotPiece(pattern[i].index, pattern[i].round, starts, ends, easing, t, pc, h)
  {
    seq(|pattern|, i requires 0 <= i < |pattern| =>
      match pattern[i]
      case Lit(text) => Txt(text)
      case Slot(index, round) => SlotPiece(index, round, starts, ends, easing, t, pc, h))
  }

  /** A tween's value at completion fraction `pc`. */
  function TweenValue(t: Tween, pc: real, h: Handle, easing: Easing): Value
  {
    match t.shape
    case Patterned(pattern, starts, ends) => Text(Expand(pattern, starts, ends, easing, t, pc, h))
    case Plain(start, end) =>
      if pc == 1.0 then Num(end) else Num(start + Eased(easing, t, pc, h, end - start))
  }

  /** At 100% a plain tween is exactly its end value, and every slot of a pattern is
      its end value (rounded when marked), whatever the easing. */
  lemma ValueAtEnd(t: Tween, h: Handle, easing: Easing)
    ensures t.shape.Plain? ==> TweenValue(t, 1.0, h, easing) == Num(t.shape.end)
    ensures t.shape.Patterned? ==>
      var v := TweenValue(t, 1.0, h, easing);
      && v.Text? && |v.pieces| == |t.shape.pattern|
      && forall i | 0 <= i < |t.shape.pattern| && t.shape.pattern[i].Slot? && t.shape.pattern[i].index < |t.shape.ends| ::
           v.pieces[i] == Rounded(t.shape.ends[t.shape.pattern[i].index], t.shape.pattern[i].round)
  {
  }

  /** The value at 100% does not depend on the easing or the call. */
  lemma EndIgnoresEasing(t: Tween, h1: Handle, e1: Easing, h2: Handle, e2: Easing)
    ensures TweenValue(t, 1.0, h1, e1) == TweenValue(t, 1.0, h2, e2)
  {
    if t.shape.Patterned? {
      var p := t.shape.pattern;
      var a := Expand(p, t.shape.starts, t.shape.ends, e1, t, 1.0, h1);
      var b := Expand(p, t.shape.starts, t.shape.ends, e2, t, 1.0, h2);
      forall i | 0 <= i < |p| ensures a[i] == b[i] {
      }
    }
  }

  /** One tween after the tick: its `currentValue` is the value just computed. */
  function Advance(t: Tween, pc: real, h: Handle, easing: Easing): Tween
  {
    t.(currentValue := Some(TweenValue(t, pc, h, easing)))
  }

  /** The write one tween causes: none when the value is unchanged after the first tick,
      none for the `tween` pseudo-property. */
  /** Every tween of a call after the property loop. */
  function AdvanceAll(ts: seq<Tween>, pc: real, h: Handle, easing: Easing): (r: seq<Tween>)
    ensures |r| == |ts| && forall i | 0 <= i < |ts| :: r[i] == Advance(ts[i], pc, h, easing)
  {
    seq(|ts|, i requires 0 <= i < |ts| => Advance(ts[i], pc, h, easing))
  }

  function WriteOf(t: Tween, element: Element, pc: real, firstTick: bool, h: Handle, easing: Easing): seq<Event>
  {
    var v := TweenValue(t, pc, h, easing);
    if (!firstTick && t.currentValue == Some(v)) || t.property == "tween" then []
    else [Write(element, t.property, v)]
  }

  /** The writes of a call's tweens, in order. */
  function Writes(ts: seq<Tween>, element: Element, pc: real, firstTick: bool, h: Handle, easing: Easing): seq<Event>
    decreases |ts|
  {
    if ts == [] then []
    else Writes(ts[..|ts| - 1], element, pc, firstTick, h, easing) + WriteOf(ts[|ts| - 1], element, pc, firstTick, h, easing)
  }

  /** Every write goes to the call's element, never to `tween`, and there is at most one per tween. */
  lemma {:induction false} WritesShape(ts: seq<Tween>, element: Element, pc: real, firstTick: bool, h: Handle, easing: Easing)
    ensures var w := Writes(ts, element, pc, firstTick, h, easing);
      && |w| <= |ts|
      && forall e | e in w :: e.Write? && e.element == element && e.property != "tween"
    decreases |ts|
  {
    if ts != [] {
      WritesShape(ts[..|ts| - 1], element, pc, firstTick, h, easing);
    }
  }

  /** After the first tick, a call whose values are all unchanged writes nothing. */
  lemma {:induction false} WritesQuiet(ts: seq<Tween>, element: Element, pc: real, h: Handle, easing: Easing)
    requires forall i | 0 <= i < |ts| :: ts[i].currentValue == Some(TweenValue(ts[i], pc, h, easing))
    ensures Writes(ts, element, pc, false, h, easing) == []
    decreases |ts|
  {
    if ts != [] {
      WritesQuiet(ts[..|ts| - 1], element, pc, h, easing);
    }
  }

  /** On the first tick every real property is written once, in order. */
  lemma {:induction false} WritesFirst(ts: seq<Tween>, element: Element, pc: real, h: Handle, easing: Easing)
    requires forall i | 0 <= i < |ts| :: ts[i].property != "tween"
    ensures var w := Writes(ts, element, pc, true, h, easing);
      && |w| == |ts|
      && forall i | 0 <= i < |ts| :: w[i] == Write(element, ts[i].property, TweenValue(ts[i], pc, h, easing))
    decreases |ts|
  {
    if ts != [] {
      WritesFirst(ts[..|ts| - 1], element, pc, h, easing);
    }
  }

  /** The property loop over a call's tweens: each tween's value is computed and stored, and
      written unless unchanged or the `tween` pseudo-property. */
  method EvalTweens(element: Element, tweens: seq<Tween>, pc: real, firstTick: bool, h: Handle, easing: Easing)
    returns (out: seq<Tween>, writes: seq<Event>)
    ensures out == AdvanceAll(tweens, pc, h, easing)
    ensures writes == Writes(tweens, element, pc, firstTick, h, easing)
  {
    out, writes := [], [];
    for i := 0 to |tweens|
      invariant |out| == i && forall j | 0 <= j < i :: out[j] == Advance(tweens[j], pc, h, easing)
      invariant writes == Writes(tweens[..i], element, pc, firstTick, h, easing)
    {
      var tween := tweens[i];
      var currentValue := TweenValue(tween, pc, h, easing);
      assert tweens[..i + 1][..i] == tweens[..i];
      if !firstTick && tween.currentValue == Some(currentValue) {
        out := out + [tween];
        continue;
      }
      out := out + [tween.(currentValue := Some(currentValue))];
      if tween.property != "tween" {
        writes := writes + [Write(element, tween.property, currentValue)];
      }
    }
    assert tweens[..|tweens|] == tweens;
    assert out == AdvanceAll(tweens, pc, h, easing);
  }

  /** What the clock part of the tick does to a call: hold it (paused, or still delayed)
      or let it go on to evaluation, saying whether this is its first tick. */
  datatype Timed = Hold(call: Call) | Go(call: Call, firstTick: bool)

  /** The timing part of the tick for one call (tick.ts:140-178). */
  function Clock(c: Call, now: real, delta: real): (r: Timed)
    ensures r.call == c.(timeStart := r.call.timeStart, paused := r.call.paused)
    ensures r.call.paused == (if c.paused == Resumed then Running else c.paused)
    ensures r.Go? ==> r.firstTick == (c.timeStart == 0.0) && r.call.paused != Paused
  {
    var firstTick := c.timeStart == 0.0;
    var start := if firstTick then now - delta else c.timeStart;
    if c.paused == Paused then Hold(c.(timeStart := start + delta))
    else
      var c1 := c.(timeStart := start, paused := if c.paused == Resumed then Running else c.paused);
      if !c.started && c.delay != 0.0 then
        if start + c.delay > now then Hold(c1) else Go(c1.(timeStart := now - delta), firstTick)
      else Go(c1, firstTick)
  }

  /** A paused call is held and its start moves forward by the frame, so the time it has
      run, measured at this tick, equals the time it had run at the previous tick. */
  lemma PausedFreezes(c: Call, now: real, delta: real)
    requires c.paused == Paused && c.timeStart != 0.0
    ensures Clock(c, now, delta).Hold?
    ensures now - Clock(c, now, delta).call.timeStart == (now - delta) - c.timeStart
  {
  }

  /** On its first tick a call's clock starts one frame back, so it does not begin at 0%. */
  lemma FirstTickStart(c: Call, now: real, delta: real)
    requires c.timeStart == 0.0 && c.paused != Paused && (c.started || c.delay == 0.0)
    ensures Clock(c, now, delta) == Go(c.(timeStart := now - delta, paused := Clock(c, now, delta).call.paused), true)
  {
  }

  /** A call not yet started with a delay waits while the delay has not passed, and once it
      has, its clock restarts one frame back. */
  lemma DelayGate(c: Call, now: real, delta: real)
    requires !c.started && c.delay != 0.0 && c.paused != Paused
    ensures var start := if c.timeStart == 0.0 then now - delta else c.timeStart;
      && (Clock(c, now, delta).Hold? <==> start + c.delay > now)
      && (Clock(c, now, delta).Go? ==> Clock(c, now, delta).call.timeStart == now - delta)
  {
  }

  /** The `begin` step on the shared callbacks record of a call that had not started. */
  datatype Started = Started(callbacks: seq<Callbacks>, events: seq<Event>)

  /** tick.ts:184-204: every call of a request bumps the shared counter; the first one to
      start takes `first` and fires `begin`, which is then cleared. */
  function StartCall(cbs: seq<Callbacks>, c: Call, h: Handle): (r: Started)
    requires c.callbacks.Some? ==> c.callbacks.value < |cbs|
    ensures |r.callbacks| == |cbs|
    ensures c.started || c.callbacks.None? ==> r == Started(cbs, [])
  {
    if c.started || c.callbacks.None? then Started(cbs, [])
    else
      var id := c.callbacks.value;
      var cb := cbs[id];
      if cb.started == 0 then
        Started(cbs[id := cb.(started := 1, first := Ref(h), begin := false)], if cb.begin then [Begin(h)] else [])
      else Started(cbs[id := cb.(started := cb.started + 1)], [])
  }

  /** `begin` fires exactly when the record had no started call and still held the hook; after
      any call starts, the record counts a start and holds no hook, so it never fires again. */
  lemma BeginOnce(cbs: seq<Callbacks>, c: Call, h: Handle)
    requires !c.started && c.callbacks.Some? && c.callbacks.value < |cbs|
    ensures var id := c.callbacks.value;
      var r := StartCall(cbs, c, h);
      && (r.events != [] <==> cbs[id].started == 0 && cbs[id].begin)
      && (r.events != [] ==> r.events == [Begin(h)])
      && r.callbacks[id].started == cbs[id].started + 1
      && (cbs[id].started == 0 ==> r.callbacks[id].first == Ref(h) && !r.callbacks[id].begin)
      && (cbs[id].started != 0 ==> r.callbacks[id] == cbs[id].(started := cbs[id].started + 1))
      && forall j | 0 <= j < |cbs| && j != id :: r.callbacks[j] == cbs[j]
  {
  }

  /** What the first walk accumulates: the call records, the callbacks records, the effects,
      and the `hasProgress`/`hasComplete` flags. */
  datatype Pass = Pass(calls: seq<Call>, callbacks: seq<Callbacks>, events: seq<Event>, progress: bool, complete: bool)

  /** The evaluation of a call that goes on past the clock (tick.ts:184-372). */
  function Run(p: Pass, h: Handle, c: Call, firstTick: bool, now: real, easing: Easing): (r: Pass)
    requires h < |p.calls| && (c.callbacks.Some? ==> c.callbacks.value < |p.callbacks|)
    ensures |r.calls| == |p.calls| && r.calls == p.calls[h := r.calls[h]] && |r.callbacks| == |p.callbacks|
    ensures r.calls[h].element == c.element && r.calls[h].callbacks == c.callbacks
  {
    var b := StartCall(p.callbacks, c, h);
    var ellapsed := now - c.timeStart;
    var pc := Percent(ellapsed, c.duration);
    var c2 := c.(started := true, ellapsedTime := ellapsed, percentComplete := pc, tweens := AdvanceAll(c.tweens, pc, h, easing));
    var writes := Writes(c.tweens, c.element, pc, firstTick, h, easing);
    var progress := c.callbacks.Some? && b.callbacks[c.callbacks.value].first == Ref(h) && b.callbacks[c.callbacks.value].progress;
    Pass(p.calls[h := c2], b.callbacks, p.events + b.events + writes, p.progress || progress, p.complete || pc == 1.0)
  }

  /** One call of the first walk. A call whose element lost its data is only unlinked. */
  function CallStep(p: Pass, h: Handle, elements: set<Element>, now: real, delta: real, easing: Easing): (r: Pass)
    requires h < |p.calls| && CallbacksOk(p.calls, p.callbacks)
    ensures |r.calls| == |p.calls| && r.calls == p.calls[h := r.calls[h]] && |r.callbacks| == |p.callbacks|
    ensures r.calls[h].element == p.calls[h].element && r.calls[h].callbacks == p.calls[h].callbacks
    ensures r.calls[h].queue == p.calls[h].queue && r.calls[h].duration == p.calls[h].duration
    ensures |p.events| <= |r.events| && r.events[..|p.events|] == p.events
    ensures (p.progress ==> r.progress) && (p.complete ==> r.complete)
    ensures p.calls[h].element !in elements ==> r == p
  {
    var c := p.calls[h];
    if c.element !in elements then p
    else
      match Clock(c, now, delta)
      case Hold(c1) => p.(calls := p.calls[h := c1])
      case Go(c1, firstTick) => Run(p, h, c1, firstTick, now, easing)
  }

  /** A call raises `hasComplete` only when it is started, not paused and at 100%. */
  lemma CompleteOnlyAtEnd(p: Pass, h: Handle, elements: set<Element>, now: real, delta: real, easing: Easing)
    requires h < |p.calls| && CallbacksOk(p.calls, p.callbacks) && !p.complete
    ensures var r := CallStep(p, h, elements, now, delta, easing);
      r.complete ==> r.calls[h].started && r.calls[h].paused != Paused && r.calls[h].percentComplete == 1.0
  {
  }

  /** A call the walk evaluates is started afterwards, and its completion fraction never exceeds 1. */
  lemma EvaluatedStarted(p: Pass, h: Handle, elements: set<Element>, now: real, delta: real, easing: Easing)
    requires h < |p.calls| && CallbacksOk(p.calls, p.callbacks)
    requires p.calls[h].element in elements && Clock(p.calls[h], now, delta).Go?
    ensures var r := CallStep(p, h, elements, now, delta, easing);
      && r.calls[h].started && r.calls[h].percentComplete <= 1.0
      && r.calls[h].ellapsedTime == now - Clock(p.calls[h], now, delta).call.timeStart
  {
  }

  /** All handles of `order` are in the arena. */
  predicate Within(order: seq<Handle>, n: nat)
  {
    forall i | 0 <= i < |order| :: order[i] < n
  }

  /** The first walk over `order` from a starting state, front to back. */
  function EvalPass(p: Pass, order: seq<Handle>, elements: set<Element>, now: real, delta: real, easing: Easing): (r: Pass)
    requires Within(order, |p.calls|) && CallbacksOk(p.calls, p.callbacks)
    ensures |r.calls| == |p.calls| && |r.callbacks| == |p.callbacks|
    ensures CallbacksOk(r.calls, r.callbacks)
    decreases |order|
  {
    if order == [] then p
    else
      var q := CallStep(p, order[0], elements, now, delta, easing);
      assert forall x | 0 <= x < |q.calls| :: q.calls[x].callbacks == p.calls[x].callbacks;
      EvalPass(q, order[1..], elements, now, delta, easing)
  }

  /** The walk keeps every call's element and callbacks record, and leaves calls outside
      `order` as they were. */
  lemma {:induction false} EvalPassFrame(p: Pass, order: seq<Handle>, elements: set<Element>, now: real, delta: real, easing: Easing, x: Handle)
    requires Within(order, |p.calls|) && CallbacksOk(p.calls, p.callbacks) && x < |p.calls|
    ensures var r := EvalPass(p, order, elements, now, delta, easing);
      && r.calls[x].element == p.calls[x].element && r.calls[x].callbacks == p.calls[x].callbacks
      && (x !in order ==> r.calls[x] == p.calls[x])
    decreases |order|
  {
    if order != [] {
      var q := CallStep(p, order[0], elements, now, delta, easing);
      assert forall x | 0 <= x < |q.calls| :: q.calls[x].callbacks == p.calls[x].callbacks;
      EvalPassFrame(q, order[1..], elements, now, delta, easing, x);
      assert x !in order ==> x !in order[1..] && x != order[0];
    }
  }

  /** The calls that stay in the list: those whose element still has data, in order. */
  function Kept(order: seq<Handle>, calls: seq<Call>, elements: set<Element>): (r: seq<Handle>)
    requires Within(order, |calls|)
    ensures |r| <= |order|
    decreases |order|
  {
    if order == [] then []
    else (if calls[order[0]].element in elements then [order[0]] else []) + Kept(order[1..], calls, elements)
  }

  /** One step of the walk moves the head of `rest` to the kept prefix when its element has data. */
  lemma KeptStep(kept: seq<Handle>, rest: seq<Handle>, calls: seq<Call>, elements: set<Element>) returns (kept': seq<Handle>)
    requires rest != [] && Within(rest, |calls|)
    ensures Within(rest[1..], |calls|)
    ensures kept' == if calls[rest[0]].element in elements then kept + [rest[0]] else kept
    ensures kept + Kept(rest, calls, elements) == kept' + Kept(rest[1..], calls, elements)
  {
    kept' := if calls[rest[0]].element in elements then kept + [rest[0]] else kept;
    assert forall i | 0 <= i < |rest[1..]| :: rest[1..][i] == rest[i + 1];
    if calls[rest[0]].element in elements {
      assert kept + ([rest[0]] + Kept(rest[1..], calls, elements)) == kept + [rest[0]] + Kept(rest[1..], calls, elements);
    } else {
      assert [] + Kept(rest[1..], calls, elements) == Kept(rest[1..], calls, elements);
    }
  }

  /** Evaluating a call never moves it to another element, so what is kept does not change. */
  lemma {:induction false} KeptFrame(order: seq<Handle>, calls: seq<Call>, h: Handle, c: Call, elements: set<Element>)
    requires Within(order, |calls|) && h < |calls| && c.element == calls[h].element
    ensures Kept(order, calls[h := c], elements) == Kept(order, calls, elements)
    decreases |order|
  {
    if order != [] {
      KeptFrame(order[1..], calls, h, c, elements);
    }
  }

  /** The marker of the list that starts at the head of `order`. */
  function First(order: seq<Handle>): Link
  {
    if order == [] then Nil else Ref(order[0])
  }

  /** In the list `kept + rest`, the head of `rest` sits at position `|kept|` and its
      successor is the head of what follows it. */
  lemma SuccFirst(kept: seq<Handle>, rest: seq<Handle>)
    requires rest != []
    ensures (kept + rest)[|kept|] == rest[0] && Succ(kept + rest, |kept|) == First(rest[1..])
  {
    if |rest| > 1 {
      assert (kept + rest)[|kept| + 1] == rest[1];
    }
  }

  /** The kept calls are exactly the calls of `order` whose element still has data. */
  lemma {:induction false} KeptMembers(order: seq<Handle>, calls: seq<Call>, elements: set<Element>)
    requires Within(order, |calls|)
    ensures forall x :: x in Kept(order, calls, elements) <==> x in order && calls[x].element in elements
    decreases |order|
  {
    if order != [] {
      KeptMembers(order[1..], calls, elements);
      assert forall x :: x in order <==> x == order[0] || x in order[1..];
    }
  }

  /** `(tweens["tween"] || {}).currentValue`. */
  function TweenDummy(ts: seq<Tween>): (v: Option<Value>)
    ensures v.Some? ==> exists i | 0 <= i < |ts| :: ts[i].property == "tween" && ts[i].currentValue == v
  {
    if ts == [] then None
    else if ts[0].property == "tween" then ts[0].currentValue
    else TweenDummy(ts[1..])
  }

  /** The progress hook's call: started, not paused, first of its request, with a hook. */
  predicate Reports(c: Call, cbs: seq<Callbacks>, h: Handle)
  {
    c.callbacks.Some? && c.callbacks.value < |cbs| && c.started && c.paused != Paused
    && cbs[c.callbacks.value].first == Ref(h) && cbs[c.callbacks.value].progress
  }

  /** The progress walk's effects over `order`. */
  function ProgressEvents(calls: seq<Call>, cbs: seq<Callbacks>, order: seq<Handle>, now: real): seq<Event>
    requires forall i | 0 <= i < |order| :: order[i] < |calls|
    decreases |order|
  {
    if order == [] then []
    else
      var h := order[|order| - 1];
      var c := calls[h];
      ProgressEvents(calls, cbs, order[..|order| - 1], now)
      + (if Reports(c, cbs, h) then
           var remaining := c.timeStart + c.duration - now;
           [Progress(h, c.percentComplete, if remaining > 0.0 then remaining else 0.0, c.timeStart, TweenDummy(c.tweens))]
         else [])
  }

  /** Every progress report is for a reporting call of the walk, with its own completion
      fraction and a remaining time that is never negative. */
  lemma {:induction false} ProgressSound(calls: seq<Call>, cbs: seq<Callbacks>, order: seq<Handle>, now: real)
    requires forall i | 0 <= i < |order| :: order[i] < |calls|
    ensures forall e | e in ProgressEvents(calls, cbs, order, now) ::
      && e.Progress? && e.call in order && e.call < |calls| && Reports(calls[e.call], cbs, e.call)
      && e.percent == calls[e.call].percentComplete && e.remaining >= 0.0
    decreases |order|
  {
    if order != [] {
      ProgressSound(calls, cbs, order[..|order| - 1], now);
    }
  }

  /** A call the completion walk hands to `completeCall`. */
  predicate Finished(c: Call)
  {
    c.started && c.paused != Paused && c.percentComplete == 1.0
  }

  /** The completion walk's effects over `order`. */
  function CompleteEvents(calls: seq<Call>, order: seq<Handle>): seq<Event>
    requires forall i | 0 <= i < |order| :: order[i] < |calls|
    decreases |order|
  {
    if order == [] then []
    else
      var h := order[|order| - 1];
      CompleteEvents(calls, order[..|order| - 1]) + (if Finished(calls[h]) then [Complete(h, false)] else [])
  }

  /** `completeCall` runs for exactly the started, unpaused, finished calls of the walk. */
  lemma {:induction false} CompleteExact(calls: seq<Call>, order: seq<Handle>)
    requires forall i | 0 <= i < |order| :: order[i] < |calls|
    ensures forall e | e in CompleteEvents(calls, order) :: e.Complete? && !e.stopped
    ensures forall h | 0 <= h < |calls| :: Complete(h, false) in CompleteEvents(calls, order) <==> h in order && Finished(calls[h])
    decreases |order|
  {
    if order != [] {
      var init := order[..|order| - 1];
      CompleteExact(calls, init);
      assert forall h :: h in order <==> h in init || h == order[|order| - 1];
    }
  }

  /** Removing position `|k|` of `k + o[j..]` leaves `k + o[j + 1..]`. */
  lemma DropHead(k: seq<Handle>, o: seq<Handle>, j: nat)
    requires j < |o|
    ensures (k + o[j..])[..|k|] + (k + o[j..])[|k| + 1..] == k + o[j + 1..]
  {
    assert (k + o[j..])[..|k|] == k;
    assert (k + o[j..])[|k| + 1..] == o[j + 1..];
  }

  lemma KeepHead(k: seq<Handle>, o: seq<Handle>)
    requires o != []
    ensures (k + [o[0]]) + o[1..] == k + o
  {
    assert o == [o[0]] + o[1..];
  }

  /** tick.ts:184-204: bumps the shared counter of a call that had not started, and on the
      first start takes `first` and fires and clears `begin`. */
  method StartCallbacks(cbs: seq<Callbacks>, c: Call, h: Handle) returns (cbs': seq<Callbacks>, events: seq<Event>)
    requires c.callbacks.Some? ==> c.callbacks.value < |cbs|
    ensures Started(cbs', events) == StartCall(cbs, c, h)
  {
    cbs', events := cbs, [];
    if !c.started && c.callbacks.Some? {
      var id := c.callbacks.value;
      var cb := cbs[id];
      var count := cb.started;
      cb := cb.(started := count + 1);
      if count == 0 {
        cb := cb.(first := Ref(h));
        if cb.begin {
          events := [Begin(h)];
          cb := cb.(begin := false);
        }
      }
      cbs' := cbs[id := cb];
    }
  }

  /** tick.ts:184-372 for a call past its clock: `begin`, the completion fraction, the
      property loop and the progress flag. */
  method RunStep(p: Pass, h: Handle, c: Call, firstTick: bool, now: real, easing: Easing) returns (r: Pass)
    requires h < |p.calls| && (c.callbacks.Some? ==> c.callbacks.value < |p.callbacks|)
    ensures r == Run(p, h, c, firstTick, now, easing)
  {
    var hasProgress, hasComplete := p.progress, p.complete;
    var cbs, events := StartCallbacks(p.callbacks, c, h);
    var ellapsed := now - c.timeStart;
    var percentComplete := Percent(ellapsed, c.duration);
    if percentComplete == 1.0 {
      hasComplete := true;
    }
    var tweens, writes := EvalTweens(c.element, c.tweens, percentComplete, firstTick, h, easing);
    var c2 := c.(started := true, ellapsedTime := ellapsed, percentComplete := percentComplete, tweens := tweens);
    if c.callbacks.Some? && cbs[c.callbacks.value].first == Ref(h) && cbs[c.callbacks.value].progress {
      hasProgress := true;
    }
    r := Pass(p.calls[h := c2], cbs, p.events + events + writes, hasProgress, hasComplete);
  }

  /** tick.ts:140-178: a first tick starts the clock one frame back, a paused call only
      moves its start, a delayed call waits until the delay has passed. */
  method ClockStep(c: Call, now: real, delta: real) returns (t: Timed)
    ensures t == Clock(c, now, delta)
  {
    var call := c;
    var timeStart := call.timeStart;
    var firstTick := timeStart == 0.0;
    if firstTick {
      timeStart := now - delta;
      call := call.(timeStart := timeStart);
    }
    if call.paused == Paused {
      call := call.(timeStart := call.timeStart + delta);
      return Hold(call);
    } else if call.paused == Resumed {
      call := call.(paused := Running);
    }
    if !call.started && call.delay != 0.0 {
      if timeStart + call.delay > now {
        return Hold(call);
      }
      timeStart := now - delta;
      call := call.(timeStart := timeStart);
    }
    return Go(call, firstTick);
  }

  /** tick.ts:129-372 for one call whose element has data: the clock first, then the
      evaluation, stored back into the call's record in one step. */
  method EvalCall(s: State, h: Handle, now: real, delta: real, easing: Easing, progress: bool, complete: bool)
    returns (hasProgress: bool, hasComplete: bool)
    requires s.Valid() && s.CallbacksValid() && h < |s.calls| && s.calls[h].element in s.elements
    modifies s`calls, s`callbacks, s`log
    ensures s.Valid() && s.CallbacksValid()
    ensures var r := CallStep(Pass(old(s.calls), old(s.callbacks), old(s.log), progress, complete), h, s.elements, now, delta, easing);
      && s.calls == r.calls && s.callbacks == r.callbacks && s.log == r.events
      && hasProgress == r.progress && hasComplete == r.complete
  {
    var t := ClockStep(s.calls[h], now, delta);
    if t.Hold? {
      s.SetCall(h, t.call, s.callbacks, s.log);
      hasProgress, hasComplete := progress, complete;
    } else {
      var r := RunStep(Pass(s.calls, s.callbacks, s.log, progress, complete), h, t.call, t.firstTick, now, easing);
      s.SetCall(h, r.calls[h], r.callbacks, r.events);
      hasProgress, hasComplete := r.progress, r.complete;
    }
  }

  /** One step of the first walk: the successor is read first; a call whose element lost
      its data is freed (tick.ts:135-138), any other is evaluated. */
  method Visit(s: State, ghost kept: seq<Handle>, ghost kept': seq<Handle>, ghost rest: seq<Handle>, h: Handle,
               now: real, delta: real, easing: Easing, progress: bool, complete: bool)
    returns (nextCall: Link, hasProgress: bool, hasComplete: bool)
    requires s.Valid() && s.CallbacksValid() && s.firstNew == Nil
    requires s.active == kept + rest && rest != [] && rest[0] == h && h < |s.calls|
    requires kept' == if s.calls[h].element in s.elements then kept + [h] else kept
    modifies s`calls, s`callbacks, s`log, s`next, s`prev, s`first, s`last, s`firstNew, s`queueList, s`lastAnimation,
             s`active, s`pending, s`loc
    ensures s.Valid() && s.CallbacksValid() && s.firstNew == Nil
    ensures s.queueList == old(s.queueList) && s.lastAnimation == old(s.lastAnimation) && s.pending == old(s.pending)
    ensures nextCall == First(rest[1..])
    ensures s.active == kept' + rest[1..]
    ensures var r := CallStep(Pass(old(s.calls), old(s.callbacks), old(s.log), progress, complete), h, s.elements, now, delta, easing);
      && s.calls == r.calls && s.callbacks == r.callbacks && s.log == r.events
      && hasProgress == r.progress && hasComplete == r.complete
  {
    SuccFirst(kept, rest);
    ActivePosition(s.active, s.first, s.last, s.next, s.prev, s.loc, |kept|);
    nextCall := s.next[h];
    if s.calls[h].element !in s.elements {
      Drop(s, kept, rest, h);
      hasProgress, hasComplete := progress, complete;
    } else {
      hasProgress, hasComplete := EvalCall(s, h, now, delta, easing, progress, complete);
      KeepHead(kept, rest);
    }
  }

  /** tick.ts:135-138: the call of an element without data is freed; it leaves the list and
      the rest keep their order. */
  method Drop(s: State, ghost kept: seq<Handle>, ghost rest: seq<Handle>, h: Handle)
    requires s.Valid() && s.firstNew == Nil
    requires s.active == kept + rest && rest != [] && rest[0] == h && h < |s.calls| && s.calls[h].element !in s.elements
    modifies s`next, s`prev, s`first, s`last, s`firstNew, s`queueList, s`lastAnimation, s`active, s`pending, s`loc
    ensures s.Valid() && s.firstNew == Nil
    ensures s.queueList == old(s.queueList) && s.lastAnimation == old(s.lastAnimation) && s.pending == old(s.pending)
    ensures s.active == kept + rest[1..]
  {
    assert s.active[|kept|] == h;
    ghost var active, next := s.active, s.next;
    ghost var i := s.FreeAnimationCall(h);
    assert i == |kept| by {
      if i < |kept| {
        LinkedNoRepeat(active, next, i, |kept|);
      } else if i > |kept| {
        LinkedNoRepeat(active, next, |kept|, i);
      }
    }
    DropHead(kept, rest, 0);
  }

  /** The first walk (tick.ts:124-372): from `State.first` up to `State.firstNew`, saving each
      call's successor first. A call whose element lost its data is freed; the others are
      evaluated. */
  method EvalLoop(s: State, now: real, delta: real, easing: Easing) returns (hasProgress: bool, hasComplete: bool)
    requires s.Valid() && s.CallbacksValid() && s.firstNew == Nil
    modifies s`calls, s`callbacks, s`log, s`next, s`prev, s`first, s`last, s`firstNew, s`queueList, s`lastAnimation,
             s`active, s`pending, s`loc
    ensures s.Valid() && s.CallbacksValid() && s.firstNew == Nil
    ensures s.queueList == old(s.queueList) && s.lastAnimation == old(s.lastAnimation) && s.pending == old(s.pending)
    ensures Within(old(s.active), |old(s.calls)|)
    ensures s.active == Kept(old(s.active), old(s.calls), s.elements)
    ensures var r := EvalPass(Pass(old(s.calls), old(s.callbacks), old(s.log), false, false), old(s.active), s.elements, now, delta, easing);
      && s.calls == r.calls && s.callbacks == r.callbacks && s.log == r.events
      && hasProgress == r.progress && hasComplete == r.complete
  {
    ghost var final := EvalPass(Pass(s.calls, s.callbacks, s.log, false, false), s.active, s.elements, now, delta, easing);
    ghost var keptAll := Kept(s.active, s.calls, s.elements);
    ghost var kept: seq<Handle> := [];
    ghost var rest := s.active;
    hasProgress, hasComplete := false, false;
    var activeCall := s.first;
    while activeCall.Ref? && activeCall != s.firstNew
      invariant s.Valid() && s.CallbacksValid() && s.firstNew == Nil
      invariant s.queueList == old(s.queueList) && s.lastAnimation == old(s.lastAnimation) && s.pending == old(s.pending)
      invariant s.active == kept + rest && Within(rest, |s.calls|)
      invariant activeCall == First(rest)
      invariant keptAll == kept + Kept(rest, s.calls, s.elements)
      invariant final == EvalPass(Pass(s.calls, s.callbacks, s.log, hasProgress, hasComplete), rest, s.elements, now, delta, easing)
      decreases |rest|
    {
      activeCall, hasProgress, hasComplete, kept, rest :=
        EvalStep(s, final, keptAll, kept, rest, activeCall.h, now, delta, easing, hasProgress, hasComplete);
    }
  }

  /** One round of the first walk: the call at the head of `rest` is visited, and the walk's
      invariant (the kept calls so far, and the pass still to come) holds one call further on. */
  method EvalStep(s: State, ghost final: Pass, ghost keptAll: seq<Handle>, ghost kept: seq<Handle>,
                  ghost rest: seq<Handle>, h: Handle, now: real, delta: real, easing: Easing,
                  progress: bool, complete: bool)
    returns (nextCall: Link, hasProgress: bool, hasComplete: bool, ghost kept2: seq<Handle>, ghost rest2: seq<Handle>)
    requires s.Valid() && s.CallbacksValid() && s.firstNew == Nil
    requires s.active == kept + rest && Within(rest, |s.calls|) && Ref(h) == First(rest)
    requires keptAll == kept + Kept(rest, s.calls, s.elements)
    requires final == EvalPass(Pass(s.calls, s.callbacks, s.log, progress, complete), rest, s.elements, now, delta, easing)
    modifies s`calls, s`callbacks, s`log, s`next, s`prev, s`first, s`last, s`firstNew, s`queueList, s`lastAnimation,
             s`active, s`pending, s`loc
    ensures s.Valid() && s.CallbacksValid() && s.firstNew == Nil
    ensures s.queueList == old(s.queueList) && s.lastAnimation == old(s.lastAnimation) && s.pending == old(s.pending)
    ensures s.active == kept2 + rest2 && Within(rest2, |s.calls|) && nextCall == First(rest2) && |rest2| < |rest|
    ensures keptAll == kept2 + Kept(rest2, s.calls, s.elements)
    ensures final == EvalPass(Pass(s.calls, s.callbacks, s.log, hasProgress, hasComplete), rest2, s.elements, now, delta, easing)
  {
    ghost var before := s.calls;
    kept2 := KeptStep(kept, rest, s.calls, s.elements);
    nextCall, hasProgress, hasComplete := Visit(s, kept, kept2, rest, h, now, delta, easing, progress, complete);
    KeptFrame(rest[1..], before, h, s.calls[h], s.elements);
    rest2 := rest[1..];
  }

  /** The progress walk (tick.ts:374-391): each reporting call hands its timing to the hook. */
  method ProgressLoop(s: State, now: real)
    requires s.Valid() && s.CallbacksValid() && s.firstNew == Nil
    modifies s`log
    ensures s.log == old(s.log) + ProgressEvents(s.calls, s.callbacks, s.active, now)
  {
    ghost var j := 0;
    var activeCall := s.first;
    while activeCall.Ref? && activeCall != s.firstNew
      invariant 0 <= j <= |s.active| && activeCall == (if j < |s.active| then Ref(s.active[j]) else Nil)
      invariant s.log == old(s.log) + ProgressEvents(s.calls, s.callbacks, s.active[..j], now)
      decreases |s.active| - j
    {
      var h := activeCall.h;
      assert s.next[s.active[j]] == Succ(s.active, j);
      var nextCall := s.next[h];
      var c := s.calls[h];
      assert s.active[..j + 1][..j] == s.active[..j];
      if c.callbacks.Some? && c.started && c.paused != Paused
         && s.callbacks[c.callbacks.value].first == Ref(h) && s.callbacks[c.callbacks.value].progress
      {
        var remaining := c.timeStart + c.duration - now;
        s.log := s.log + [Progress(h, c.percentComplete, if remaining > 0.0 then remaining else 0.0, c.timeStart, TweenDummy(c.tweens))];
      }
      activeCall := nextCall;
      j := j + 1;
    }
    assert s.active[..j] == s.active;
  }

  /** The completion walk (tick.ts:392-399): every started, unpaused call at 100% is completed. */
  method CompleteLoop(s: State)
    requires s.Valid() && s.firstNew == Nil
    modifies s`log
    ensures s.log == old(s.log) + CompleteEvents(s.calls, s.active)
  {
    ghost var j := 0;
    var activeCall := s.first;
    while activeCall.Ref? && activeCall != s.firstNew
      invariant s.Valid()
      invariant 0 <= j <= |s.active| && activeCall == (if j < |s.active| then Ref(s.active[j]) else Nil)
      invariant s.log == old(s.log) + CompleteEvents(s.calls, s.active[..j])
      decreases |s.active| - j
    {
      var h := activeCall.h;
      assert s.next[s.active[j]] == Succ(s.active, j);
      var nextCall := s.next[h];
      var c := s.calls[h];
      assert s.active[..j + 1][..j] == s.active[..j];
      if c.started && c.paused != Paused && c.percentComplete == 1.0 {
        s.CompleteCall(h, false);
      }
      activeCall := nextCall;
      j := j + 1;
    }
    assert s.active[..j] == s.active;
  }

  /** The walks of one frame (tick.ts:124-399): evaluation, progress reports when a call
      asked for them, completion when a call finished. */
  method Walks(s: State, now: real, delta: real, easing: Easing)
    requires s.Valid() && s.CallbacksValid()
    modifies s`calls, s`callbacks, s`log, s`next, s`prev, s`first, s`last, s`firstNew, s`queueList, s`lastAnimation,
             s`active, s`pending, s`loc
    ensures s.Valid() && s.CallbacksValid() && s.firstNew == Nil
    ensures s.queueList == old(s.queueList) && s.lastAnimation == old(s.lastAnimation) && s.pending == old(s.pending)
    ensures var r := EvalPass(Pass(old(s.calls), old(s.callbacks), old(s.log), false, false), old(s.active), s.elements, now, delta, easing);
      && s.active == Kept(old(s.active), old(s.calls), s.elements)
      && s.calls == r.calls && s.callbacks == r.callbacks
      && s.log == r.events + (if r.progress then ProgressEvents(r.calls, r.callbacks, s.active, now) else [])
                           + (if r.complete then CompleteEvents(r.calls, s.active) else [])
  {
    s.ExpandTweens();
    var hasProgress, hasComplete := EvalLoop(s, now, delta, easing);
    ghost var log1 := s.log;
    if hasProgress {
      ProgressLoop(s, now);
    } else {
      assert log1 + [] == log1;
    }
    ghost var log2 := s.log;
    if hasComplete {
      CompleteLoop(s);
    } else {
      assert log2 + [] == log2;
    }
  }

  /** One frame with a truthy timestamp (tick.ts:117-399): `lastTick` takes the current time
      (or is reset at once when the ticker stops, as nothing in between reads it), then the
      walks run. */
  method Frame(s: State, now: real, delta: real, easing: Easing)
    requires s.Valid() && s.CallbacksValid()
    modifies s`calls, s`callbacks, s`log, s`next, s`prev, s`first, s`last, s`firstNew, s`queueList, s`lastAnimation,
             s`active, s`pending, s`loc, s`lastTick
    ensures s.Valid() && s.CallbacksValid() && s.firstNew == Nil
    ensures s.queueList == old(s.queueList) && s.lastAnimation == old(s.lastAnimation) && s.pending == old(s.pending)
    ensures s.lastTick == (if s.isTicking then now else 0.0)
    ensures var r := EvalPass(Pass(old(s.calls), old(s.callbacks), old(s.log), false, false), old(s.active), s.elements, now, delta, easing);
      && s.active == Kept(old(s.active), old(s.calls), s.elements)
      && s.calls == r.calls && s.callbacks == r.callbacks
      && s.log == r.events + (if r.progress then ProgressEvents(r.calls, r.callbacks, s.active, now) else [])
                           + (if r.complete then CompleteEvents(r.calls, s.active) else [])
  {
    s.lastTick := if s.isTicking then now else 0.0;
    Walks(s, now, delta, easing);
  }

  /** tick (tick.ts:81-408). With a falsy timestamp no call is processed. Otherwise the
      three walks run over the list, and `lastTick` becomes the current time. Afterwards
      the ticker is re-armed while ticking, and `lastTick` is reset otherwise. */
  method Tick(s: State, stamp: Stamp, clock: real, easing: Easing) returns (rearm: bool)
    requires s.Valid() && s.CallbacksValid()
    modifies s`calls, s`callbacks, s`log, s`next, s`prev, s`first, s`last, s`firstNew, s`queueList, s`lastAnimation,
             s`active, s`pending, s`loc, s`lastTick
    ensures s.Valid() && s.CallbacksValid() && s.firstNew == Nil && rearm == s.isTicking
    ensures s.queueList == old(s.queueList) && s.lastAnimation == old(s.lastAnimation) && s.pending == old(s.pending)
    ensures !Truthy(stamp) ==>
      && s.calls == old(s.calls) && s.callbacks == old(s.callbacks) && s.log == old(s.log) && s.active == old(s.active)
      && s.lastTick == (if rearm then old(s.lastTick) else 0.0)
    ensures Truthy(stamp) ==>
      var now := TimeOf(stamp, clock);
      var r := EvalPass(Pass(old(s.calls), old(s.callbacks), old(s.log), false, false), old(s.active), s.elements,
                        now, Delta(now, old(s.lastTick)), easing);
      && s.active == Kept(old(s.active), old(s.calls), s.elements)
      && s.calls == r.calls && s.callbacks == r.callbacks
      && s.log == r.events + (if r.progress then ProgressEvents(r.calls, r.callbacks, s.active, now) else [])
                           + (if r.complete then CompleteEvents(r.calls, s.active) else [])
      && s.lastTick == (if rearm then now else 0.0)
  {
    rearm := s.isTicking;
    if Truthy(stamp) {
      var timeCurrent := TimeOf(stamp, clock);
      Frame(s, timeCurrent, Delta(timeCurrent, s.lastTick), easing);
    } else {
      s.ExpandTweens();
      if !rearm {
        s.lastTick := 0.0;
      }
    }
  }
}
