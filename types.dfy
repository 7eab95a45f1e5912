/** Values shared by the scheduling core: animation calls, tweens and the
    record of effects the core hands to code outside this model. */
module Types {

  /** A stable handle of an animation call in the call arena. */
  type Handle = nat

  /** The identity of an animated element. */
  type Element = nat

  datatype Option<T> = None | Some(value: T)

  /** A `prev`/`next` field or a list marker: `undefined` or a call. */
  datatype Link = Nil | Ref(h: Handle)

  /** The queue a call belongs to: `false` (bypasses queueing) or a named FIFO. */
  datatype QName = NoQueue | Named(name: string)

  /** The queue argument of `queue`/`dequeue`: `false`, a string, or anything else. */
  datatype QueueArg = QFalse | QString(s: string) | QOther

  /** The queue name used when the element's queue option is not a string. */
  const DEFAULT_QUEUE: string := ""

  /** The key an element's `queueList` uses for a queue argument other than `false`. */
  function QueueKey(a: QueueArg): (k: string)
    requires a != QFalse
    ensures a.QString? ==> k == a.s
    ensures a.QOther? ==> k == DEFAULT_QUEUE
  {
    if a.QString? then a.s else DEFAULT_QUEUE
  }

  /** The argument a call's own queue becomes when it is queued. */
  function ArgOf(q: QName): (a: QueueArg)
    ensures a == QFalse <==> q == NoQueue
    ensures q.Named? ==> QueueKey(a) == q.name
  {
    if q.NoQueue? then QFalse else QString(q.name)
  }

  /** The tri-state `paused` field: `undefined`, `true`, or `false` (resumed, cleared after one tick). */
  datatype Pause = Running | Paused | Resumed

  /** Bits of `_flags`. */
  datatype Flag = Stopped

  /** A piece of a `{n}` / `{n!}` value pattern. */
  datatype Token = Lit(text: string) | Slot(index: nat, round: bool)

  /** A piece of an evaluated pattern: literal text, a number, or an index the
      start/end arrays do not hold (JavaScript's `undefined`/`NaN`). */
  datatype Piece = Txt(text: string) | Nbr(n: real) | Bad

  /** A tween's current value: a plain number or an expanded pattern. */
  datatype Value = Num(n: real) | Text(pieces: seq<Piece>)

  /** Start/end values of a tween: plain numbers, or a pattern with one start and end per index. */
  datatype Shape =
    | Plain(start: real, end: real)
    | Patterned(pattern: seq<Token>, starts: seq<real>, ends: seq<real>)

  /** An easing: a name looked up in the easing table, or a function given directly. */
  datatype EasingRef = EasingName(name: string) | EasingFn(id: nat)

  /** The easing functions, left uninterpreted: (easing, percent, call, delta) to a factor. */
  type Easing = (EasingRef, real, Handle, real) -> real

  datatype Tween = Tween(
    property: string,
    shape: Shape,
    easing: EasingRef,
    reverse: bool,
    currentValue: Option<Value>)

  /** The per-call hooks that core.ts stores on each call. */
  datatype Hooks = Hooks(begin: bool, complete: bool, progress: bool, resolver: bool)

  /** The shared callbacks record that tick.ts reads (`callbacks`). */
  datatype Callbacks = Callbacks(started: nat, first: Link, begin: bool, progress: bool)

  /** One animation call: one element of one request. */
  datatype Call = Call(
    element: Element,
    elements: seq<Element>,
    queue: QName,
    timeStart: real,
    paused: Pause,
    delay: real,
    duration: real,
    started: bool,
    percentComplete: real,
    ellapsedTime: real,
    callbacks: Option<nat>,
    hooks: Hooks,
    tweens: seq<Tween>,
    flags: set<Flag>)

  /** Effects the core hands to code this model does not contain, in the order they happen. */
  datatype Event =
    | Write(element: Element, property: string, value: Value)   // CSS.setPropertyValue
    | Begin(call: Handle)                                         // the begin hook
    | Progress(call: Handle, percent: real, remaining: real, start: real, tweenValue: Option<Value>)
    | Complete(call: Handle, stopped: bool)                       // completeCall(call[, true])
    | Validate(call: Handle)                                      // validateTweens(call)
    | ExpandTween(call: Handle)                                   // expandTween(call)
    | Resolve(call: Handle)                                       // call.resolver(call.elements)
}
