/** How core.ts turns the arguments of a Velocity call into the per-call values the
    scheduler uses: jQuery-style argument overloading, duration names, mock mode and the
    delay, the queue option, hook assignment, and the stagger/drag arithmetic of redirects. */
module Options {
  import opened Types
  import Queues

  /** A JavaScript number as the option code sees it: a finite value or NaN (infinities are
      not modelled). */
  datatype JsNum = Finite(x: real) | NaN

  /** JavaScript truthiness of a number: neither 0 nor NaN. */
  predicate Truthy(n: JsNum)
  {
    n.Finite? && n.x != 0.0
  }

  /** `n || d` on numbers. */
  function Or(n: JsNum, d: JsNum): (r: JsNum)
    ensures Truthy(n) ==> r == n
    ensures !Truthy(n) ==> r == d
  {
    if Truthy(n) then n else d
  }

  /** `a * b`: NaN absorbs. */
  function Times(a: JsNum, b: JsNum): (r: JsNum)
    ensures r.Finite? <==> a.Finite? && b.Finite?
    ensures r.Finite? ==> r.x == a.x * b.x
  {
    if a.Finite? && b.Finite? then Finite(a.x * b.x) else NaN
  }

  /** ASCII lower-casing, as `toLowerCase` and the `/i` regex flag act on the names below. */
  function Lower(s: string): (r: string)
    ensures |r| == |s|
    ensures forall i | 0 <= i < |s| :: r[i] == (if 'A' <= s[i] <= 'Z' then (s[i] as int + 32) as char else s[i])
  {
    seq(|s|, i requires 0 <= i < |s| => if 'A' <= s[i] <= 'Z' then (s[i] as int + 32) as char else s[i])
  }

  /** Named durations; src/Velocity/constants.ts, which defines them, is not part of this
      model, so Velocity's documented values are used. */
  const DURATION_FAST: real := 200.0
  const DURATION_DEFAULT: real := 400.0
  const DURATION_SLOW: real := 600.0

  /** The three duration names, compared case-insensitively. */
  predicate NamedSpeed(s: string)
  {
    Lower(s) == "fast" || Lower(s) == "normal" || Lower(s) == "slow"
  }

  /** The `duration` option: absent (or of another type), a number, or a string together with
      what `parseFloat` makes of it. */
  datatype DurationOption = NoDuration | DurationNumber(n: JsNum) | DurationString(s: string, parsed: JsNum)

  /** `optionsDuration` (core.ts:446-463): a number is taken as it is, a speed name gives its
      constant, and any other string its parsed value, where 0 and NaN become 1. */
  function OptionsDuration(d: DurationOption): (r: Option<JsNum>)
    ensures r.None? <==> d.NoDuration?
    ensures d.DurationNumber? ==> r == Some(d.n)
    ensures d.DurationString? ==> r.Some? && Truthy(r.value)
    ensures d.DurationString? && Lower(d.s) == "fast" ==> r == Some(Finite(DURATION_FAST))
    ensures d.DurationString? && Lower(d.s) == "normal" ==> r == Some(Finite(DURATION_DEFAULT))
    ensures d.DurationString? && Lower(d.s) == "slow" ==> r == Some(Finite(DURATION_SLOW))
    ensures d.DurationString? && !NamedSpeed(d.s) ==> r == Some(if Truthy(d.parsed) then d.parsed else Finite(1.0))
  {
    match d
    case NoDuration => None
    case DurationNumber(n) => Some(n)
    case DurationString(s, parsed) =>
      var name := Lower(s);
      if name == "fast" then Some(Finite(DURATION_FAST))
      else if name == "normal" then Some(Finite(DURATION_DEFAULT))
      else if name == "slow" then Some(Finite(DURATION_SLOW))
      else Some(Or(parsed, Finite(1.0)))
  }

  /** `VelocityStatic.mock`: falsy, `true`, or another truthy value with its `parseFloat`. */
  datatype Mock = MockOff | MockOn | MockScale(parsed: JsNum)

  /** The `delay` option as `parseInt(delay, 10)` and `parseFloat(delay)` read it. */
  datatype DelayOption = DelayOption(asInt: JsNum, asFloat: JsNum)

  datatype Timing = Timing(delay: JsNum, duration: JsNum)

  /** The multiplier of a mock value: its parsed value, or 1 when that is 0 or NaN. */
  function MockFactor(parsed: JsNum): (m: JsNum)
    ensures Truthy(m)
  {
    Or(parsed, Finite(1.0))
  }

  /** `optionsDelay` and the final `optionsDuration` (core.ts:491-503): mock `true` forces an
      immediate one-millisecond animation, another mock value scales both times, and
      otherwise the delay is the parsed integer and missing values become 0. */
  function Resolve(duration: Option<JsNum>, delay: DelayOption, mock: Mock): (t: Timing)
    ensures mock.MockOn? ==> t == Timing(Finite(0.0), Finite(1.0))
    ensures mock.MockScale? ==>
      var given := if duration.Some? then duration.value else NaN;
      t == Timing(Times(delay.asFloat, MockFactor(mock.parsed)), Times(given, MockFactor(mock.parsed)))
    ensures mock.MockOff? ==> t.delay.Finite? && t.duration.Finite?
    ensures mock.MockOff? ==> t.delay == (if Truthy(delay.asInt) then delay.asInt else Finite(0.0))
    ensures mock.MockOff? ==> t.duration == (if duration.Some? && Truthy(duration.value) then duration.value else Finite(0.0))
  {
    match mock
    case MockOn => Timing(Finite(0.0), Finite(1.0))
    case MockScale(parsed) =>
      var m := MockFactor(parsed);
      Timing(Times(delay.asFloat, m), Times(if duration.Some? then duration.value else NaN, m))
    case MockOff =>
      Timing(Or(delay.asInt, Finite(0.0)), Or(if duration.Some? then duration.value else NaN, Finite(0.0)))
  }

  /** Under a mock scale, a zero time stays zero and a non-zero finite one stays non-zero: the
      factor is never 0. */
  lemma ScaleKeepsZero(x: JsNum, parsed: JsNum)
    ensures Times(x, MockFactor(parsed)) == Finite(0.0) <==> x == Finite(0.0)
  {
    var m := MockFactor(parsed);
    if x.Finite? && x.x * m.x == 0.0 {
      assert m.x != 0.0;
      assert x.x == 0.0;
    }
  }

  /** The call's `queue` (core.ts:569): `false` stays `false`, a string is kept, anything
      else is the default queue "" (src/Velocity/defaults.ts:5). */
  function CallQueue(q: QueueArg): (r: QName)
    ensures r == NoQueue <==> q == QFalse
    ensures q != QFalse ==> r == Named(QueueKey(q))
  {
    match q
    case QFalse => NoQueue
    case QString(s) => Named(s)
    case QOther => Named(DEFAULT_QUEUE)
  }

  /** Queueing a call by its recorded queue reaches the same FIFO as the option it came from. */
  lemma CallQueueKey(e: Element, q: QueueArg)
    requires q != QFalse
    ensures ArgOf(CallQueue(q)) != QFalse
    ensures Queues.KeyOf(e, ArgOf(CallQueue(q))) == Queues.KeyOf(e, q)
  {
  }

  /** The hooks of the `i`-th of `n` calls (core.ts:559-573): `begin` and `progress` only on
      the first, `complete` and the resolver only on the last; `given` says which the call
      supplies. */
  function HooksFor(i: nat, n: nat, given: Hooks): (h: Hooks)
    requires i < n
    ensures h.begin <==> given.begin && i == 0
    ensures h.progress <==> given.progress && i == 0
    ensures h.complete <==> given.complete && i == n - 1
    ensures h.resolver <==> given.resolver && i == n - 1
  {
    Hooks(i == 0 && given.begin, i == n - 1 && given.complete, i == 0 && given.progress, i == n - 1 && given.resolver)
  }

  /** Over one call's elements each supplied hook lands on exactly one call: two calls that
      both carry it are the same call. */
  lemma {:induction false} HooksOnce(n: nat, given: Hooks)
    requires n > 0
    ensures given.begin ==> HooksFor(0, n, given).begin
    ensures given.complete ==> HooksFor(n - 1, n, given).complete
    ensures given.resolver ==> HooksFor(n - 1, n, given).resolver
    ensures forall i, j | 0 <= i < n && 0 <= j < n ::
      && (HooksFor(i, n, given).begin && HooksFor(j, n, given).begin ==> i == j)
      && (HooksFor(i, n, given).progress && HooksFor(j, n, given).progress ==> i == j)
      && (HooksFor(i, n, given).complete && HooksFor(j, n, given).complete ==> i == j)
      && (HooksFor(i, n, given).resolver && HooksFor(j, n, given).resolver ==> i == j)
  {
    forall i, j | 0 <= i < n && 0 <= j < n
      ensures HooksFor(i, n, given).begin && HooksFor(j, n, given).begin ==> i == j
      ensures HooksFor(i, n, given).complete && HooksFor(j, n, given).complete ==> i == j
    {
      var hi, hj := HooksFor(i, n, given), HooksFor(j, n, given);
      assert hi.begin ==> i == 0;
      assert hj.begin ==> j == 0;
      assert hi.complete ==> i == n - 1;
      assert hj.complete ==> j == n - 1;
    }
  }

  /** What the overloading loop can tell about an argument: its type, and its string form,
      which the two regular expressions test. */
  datatype ArgKind = KString | KArray | KFunction | KOther
  datatype OptArg = OptArg(kind: ArgKind, text: string)

  /** Which option an overloaded argument fills. */
  datatype Slot = ToDuration | ToEasing | ToComplete | Ignored

  predicate StartsWithDigit(s: string)
  {
    |s| > 0 && '0' <= s[0] <= '9'
  }

  /** core.ts:125-137: a non-array whose string form is a speed name or starts with a digit is
      a duration; strings and arrays are easings; functions are the complete callback. */
  function SlotOf(a: OptArg): (r: Slot)
    ensures r == ToDuration <==> a.kind != KArray && (NamedSpeed(a.text) || StartsWithDigit(a.text))
    ensures r == ToEasing <==> (a.kind == KString || a.kind == KArray) && !(a.kind != KArray && (NamedSpeed(a.text) || StartsWithDigit(a.text)))
    ensures r == ToComplete ==> a.kind == KFunction
  {
    if a.kind != KArray && (NamedSpeed(a.text) || StartsWithDigit(a.text)) then ToDuration
    else if a.kind == KString || a.kind == KArray then ToEasing
    else if a.kind == KFunction then ToComplete
    else Ignored
  }

  /** Overloading applies unless the first argument names an action or the options are a
      plain object (core.ts:117). */
  predicate Overloads(propertiesText: string, optionsArePlainObject: bool)
  {
    var name := Lower(propertiesText);
    !(name == "stop" || name == "finish" || name == "finishall" || name == "pause" || name == "resume")
      && !optionsArePlainObject
  }

  /** The options object the overloading loop builds. */
  datatype Overloaded = Overloaded(duration: Option<OptArg>, easing: Option<OptArg>, complete: Option<OptArg>)

  /** The last argument of `args` that fills `slot`, if any. */
  function LastIn(args: seq<OptArg>, slot: Slot): (r: Option<OptArg>)
    ensures r.Some? ==> SlotOf(r.value) == slot && r.value in args
    decreases |args|
  {
    if args == [] then None
    else if SlotOf(args[|args| - 1]) == slot then Some(args[|args| - 1])
    else LastIn(args[..|args| - 1], slot)
  }

  /** No argument fills `slot` exactly when `LastIn` finds none, and a found one is followed
      by no other argument of that slot. */
  lemma {:induction false} LastInExact(args: seq<OptArg>, slot: Slot)
    ensures LastIn(args, slot).None? <==> forall i | 0 <= i < |args| :: SlotOf(args[i]) != slot
    ensures LastIn(args, slot).Some? ==>
      exists i | 0 <= i < |args| :: args[i] == LastIn(args, slot).value
        && forall j | i < j < |args| :: SlotOf(args[j]) != slot
    decreases |args|
  {
    if args != [] {
      var init := args[..|args| - 1];
      var n := |args| - 1;
      LastInExact(init, slot);
      if SlotOf(args[n]) != slot {
        if LastIn(init, slot).Some? {
          var i :| 0 <= i < |init| && init[i] == LastIn(init, slot).value
            && forall j | i < j < |init| :: SlotOf(init[j]) != slot;
          assert args[i] == init[i];
          forall j | i < j < |args| ensures SlotOf(args[j]) != slot {
            if j < n { assert args[j] == init[j]; }
          }
        } else {
          forall i | 0 <= i < |args| ensures SlotOf(args[i]) != slot {
            if i < n { assert args[i] == init[i]; }
          }
        }
      } else {
        assert args[n] == LastIn(args, slot).value;
      }
    }
  }

  /** The overloading loop (core.ts:118-139): arguments are read left to right and each fills
      its option, so the last one of each kind wins. */
  method Overload(args: seq<OptArg>) returns (o: Overloaded)
    ensures o == Overloaded(LastIn(args, ToDuration), LastIn(args, ToEasing), LastIn(args, ToComplete))
  {
    o := Overloaded(None, None, None);
    for i := 0 to |args|
      invariant o == Overloaded(LastIn(args[..i], ToDuration), LastIn(args[..i], ToEasing), LastIn(args[..i], ToComplete))
    {
      assert args[..i + 1][..i] == args[..i];
      var a := args[i];
      if a.kind != KArray && (NamedSpeed(a.text) || StartsWithDigit(a.text)) {
        o := o.(duration := Some(a));
      } else if a.kind == KString || a.kind == KArray {
        o := o.(easing := Some(a));
      } else if a.kind == KFunction {
        o := o.(complete := Some(a));
      }
    }
    assert args[..|args|] == args;
  }

  /** The `stagger` option: a value with its `parseFloat`, or a function with what it returns
      for this element. */
  datatype Stagger = StaggerValue(parsed: JsNum) | StaggerFunction(result: JsNum)

  /** A redirect's per-element delay (core.ts:356-361): the original delay plus `stagger`
      per element index, or plus what the function returns; `None` keeps the delay. */
  function StaggeredDelay(delayOriginal: real, stagger: Stagger, i: nat): (r: Option<JsNum>)
    ensures stagger.StaggerValue? && Truthy(stagger.parsed) ==> r == Some(Finite(delayOriginal + stagger.parsed.x * i as real))
    ensures stagger.StaggerValue? && !Truthy(stagger.parsed) ==> r.None?
    ensures stagger.StaggerFunction? && stagger.result.Finite? ==> r == Some(Finite(delayOriginal + stagger.result.x))
  {
    match stagger
    case StaggerValue(parsed) =>
      if Truthy(parsed) then Some(Finite(delayOriginal + parsed.x * i as real)) else None
    case StaggerFunction(result) =>
      if result.Finite? then Some(Finite(delayOriginal + result.x)) else Some(NaN)
  }

  /** With a numeric stagger the delays of neighbouring elements differ by exactly the
      stagger. */
  lemma StaggerSteps(delayOriginal: real, stagger: Stagger, i: nat)
    requires stagger.StaggerValue? && Truthy(stagger.parsed)
    ensures StaggeredDelay(delayOriginal, stagger, i + 1).value.x - StaggeredDelay(delayOriginal, stagger, i).value.x
      == stagger.parsed.x
  {
  }

  predicate StartsWith(s: string, prefix: string)
  {
    |prefix| <= |s| && s[..|prefix|] == prefix
  }

  /** The duration drag starts from (core.ts:366): the original duration, or 1000 for UI-pack
      callouts and transitions and the default otherwise when that is 0 or NaN. */
  function DragBase(durationOriginal: JsNum, redirect: string): (d: real)
    ensures Truthy(durationOriginal) ==> d == durationOriginal.x
    ensures !Truthy(durationOriginal) ==> d > 0.0
  {
    if Truthy(durationOriginal) then durationOriginal.x
    else if StartsWith(redirect, "callout") || StartsWith(redirect, "transition") then 1000.0
    else DURATION_DEFAULT
  }

  function Max(a: real, b: real): (m: real)
    ensures m >= a && m >= b && (m == a || m == b)
  {
    if a >= b then a else b
  }

  /** `c * x` grows with `x` when `c` is not negative. */
  lemma MulMono(c: real, x: real, y: real)
    requires c >= 0.0 && x <= y
    ensures c * x <= c * y
  {
    assert c * y - c * x == c * (y - x);
  }

  /** `a / n` grows with `a` and stays within [0, 1] for `0 <= a <= n`. */
  lemma DivMono(a: real, b: real, n: real)
    requires 0.0 <= a <= b && n > 0.0
    ensures 0.0 <= a / n <= b / n
    ensures b <= n ==> b / n <= 1.0
  {
  }

  /** The share of the base duration element `i` of `n` gets before the floors. */
  function DragShare(i: nat, n: nat, backwards: bool): (f: real)
    requires i < n
    ensures 0.0 <= f <= 1.0
  {
    DivMono(i as real, i as real + 1.0, n as real);
    DivMono(0.0, i as real, n as real);
    if backwards then 1.0 - i as real / n as real else (i as real + 1.0) / n as real
  }

  /** Later elements get a larger share, or a smaller one with `backwards`. */
  lemma ShareMono(i: nat, j: nat, n: nat, backwards: bool)
    requires i <= j < n
    ensures !backwards ==> DragShare(i, n, backwards) <= DragShare(j, n, backwards)
    ensures backwards ==> DragShare(i, n, backwards) >= DragShare(j, n, backwards)
  {
    DivMono(i as real, j as real, n as real);
    DivMono(i as real + 1.0, j as real + 1.0, n as real);
  }

  /** A dragged duration (core.ts:373): the element's share (`DragShare`) of the base
      duration, but never below three quarters of it nor below 200 ms. */
  function Dragged(base: real, share: real): (r: real)
    ensures r >= 200.0 && r >= base * 0.75 && r >= base * share
    ensures base >= 200.0 && 0.0 <= share <= 1.0 ==> r <= base
  {
    assert base >= 0.0 && share <= 1.0 ==> base * share <= base * 1.0 by {
      if base >= 0.0 && share <= 1.0 { MulMono(base, share, 1.0); }
    }
    Max(Max(base * share, base * 0.75), 200.0)
  }

  /** A larger share never gives a shorter dragged duration; with `ShareMono` this makes the
      durations grow along the set, or shrink with `backwards`. */
  lemma DragMonotone(base: real, x: real, y: real)
    requires base >= 0.0 && x <= y
    ensures Dragged(base, x) <= Dragged(base, y)
  {
    MulMono(base, x, y);
    var p, q := base * x, base * y;
    assert p <= q;
    assert Max(Max(p, base * 0.75), 200.0) <= Max(Max(q, base * 0.75), 200.0);
  }
}
