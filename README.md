# Velocity animation scheduling core, in Dafny

This project models the scheduling core of Velocity, the JavaScript animation engine.
It covers these parts:

- **The active list and per-element queues** (`src/Velocity/queue.ts`): the global doubly
  linked list of active calls (`State.first`, `State.last`, `State.firstNew`) and each element's
  named queues, where `null` marks an idle queue and a call marks the head of a FIFO.
- **One animation frame** (`src/Velocity/tick.ts`): the clock, pause and delay handling, the
  once-per-request `begin` hook, the completion fraction, tween values and the DOM writes they
  cause, the progress reports and the completions.
- **The call itself** (`src/core.ts`):
  - the pause, resume, stop, finish and finishAll actions;
  - option resolution: duration names, mock mode, argument overloading, stagger and drag;
  - Part II, where a fresh call is built per element, queued, and the tick loop is started.
- **The stop and finishAll actions** (`src/Velocity/actions/stop.ts`,
  `src/Velocity/actions/finishAll.ts`).
- **CSS property names** (`src/Velocity/css/names.ts`): camel-casing, the SVG attribute test,
  and the vendor-prefix probe with its cache.
- **The normalization registry** (`src/Velocity/normalizations/normalizations.ts`) and what
  registers into it: the inner/outer dimension normalizations
  (`src/Velocity/css/normalizations/dimensions.ts`) and the vendor-prefix normalizations
  (`src/Velocity/css/normalizations/vendorPrefix.ts`).

How the model is built:

- **Linked lists.** Calls live in an arena (`Queues.State.calls`) addressed by handles. The
  links `next`/`prev` and the registries are fields of the class `Queues.State`, and its methods
  update them in place as the source does. Ghost fields (`active`, `pending`, `loc`) give the
  abstract lists those links encode, and `Valid()` ties the two together.
- **Effects.** Effects the core hands to code outside it (`completeCall`, `validateTweens`,
  the `expandTween` of a released call, resolvers, hooks, style writes) are appended as events
  to `State.log`, in the order the source performs them. `expandTweens`, which expands every
  new call, logs nothing: its only modelled effect is that `State.firstNew` is unset.
- **Pure logic.** The value computations are functions, and the loops are methods proved
  against them.
- **Normalizations.** The registry of `normalizations.ts` is the class `Normalizations.Registry`,
  and `registerNormalization` updates it in place. `Normalizations.Tables` and `Register` are
  its value-level specification.

## Model

| member | source | states |
|---|---|---|
| Types.QueueKey | src/Velocity/queue.ts:40-42 | A string queue argument names its own queue, and any other non-`false` argument names the default queue `""`. |
| Queues.State.constructor | src/Velocity/queue.ts:16-30 | A new state has no calls, an empty active list with all three markers unset, no queues and no ticking. The cited lines are the first use of `State.first`, `State.last` and `State.firstNew`; their initial values are in `state.ts`, which is not part of this model. |
| Queues.State.NewCall | src/core.ts:555 | A fresh handle is appended to the arena, with no links and no location. The state stays valid. |
| Queues.State.InitElement | src/core.ts:539-540 | The element gains a data cache. A new element has no queue entries yet. |
| Queues.State.Animate | src/Velocity/queue.ts:16-30 | The call is appended at the tail of the active list. `first` and `firstNew` are set when they were unset, and the queues do not change. |
| Queues.State.Queue | src/Velocity/queue.ts:35-61 | Queue `false` starts the call. A queue with no entry gets a `null` entry and the call starts. Otherwise the call joins the end of that queue's FIFO, as its head when the entry was `null`; the active list is untouched. |
| Queues.State.Hold | src/Velocity/queue.ts:47-48 | Behind a `null` entry the call becomes the head of an empty FIFO. |
| Queues.State.Append | src/Velocity/queue.ts:53-58 | On a non-empty FIFO the call is linked behind its last element. The entry still names the old head. |
| Queues.State.Pop | src/Velocity/queue.ts:76-80 | The head of a non-empty FIFO is popped and the next call becomes the head (or `null`). The popped call is started unless `skip` is set, in which case it is freed. |
| Queues.State.Dequeue | src/Velocity/queue.ts:68-86 | Queue `false` or a missing entry change nothing. A `null` entry is deleted. A head is popped as `Pop` says, and its handle returned. |
| Queues.State.FreeAnimationCall | src/Velocity/queue.ts:94-113 | The call is removed from the active list, and `firstNew` and the queues are unchanged. A named queue of an element with data records it as that queue's last animation, and its links are cleared. |
| Queues.State.ExpandTweens | src/Velocity/tick.ts:82 | After expansion no call is new: `firstNew` is unset. |
| Queues.State.ValidateTweens | src/Velocity/actions/stop.ts:17 | The validation is logged, and `firstNew` moves past the call when it pointed at it. |
| Queues.State.CompleteCall | src/Velocity/tick.ts:397 | `completeCall` is logged with its stopped flag. |
| Queues.OneList | src/Velocity/queue.ts:46-59 | An active call is in no pending FIFO. |
| Ticks.Round | src/Velocity/tick.ts:114 | `Math.round`: the result is within half a unit, with halves rounded up. |
| Ticks.Percent | src/Velocity/tick.ts:216 | The fraction never exceeds 1. With a positive duration it is exactly 1 once the elapsed time reaches the duration, and otherwise elapsed/duration. A zero duration is complete at once. |
| Ticks.Expand | src/Velocity/tick.ts:107-115 | A pattern expands piece by piece: literal text is kept, and each `{n}` or `{n!}` slot becomes the eased value of index `n`, rounded when marked. |
| Ticks.ValueAtEnd | src/Velocity/tick.ts:108-113 | At 100% a plain tween takes exactly its end value. Every slot of a pattern takes its end value, rounded when marked. |
| Ticks.EndIgnoresEasing | src/Velocity/tick.ts:263-266 | At 100% the value depends neither on the easing nor on the call. |
| Ticks.AdvanceAll | src/Velocity/tick.ts:249-276 | Every tween is advanced to its value at the current fraction, in order. |
| Ticks.WritesShape | src/Velocity/tick.ts:272-345 | A frame writes at most one style per tween, only to the call's element, and never the dummy `tween` property. |
| Ticks.WritesQuiet | src/Velocity/tick.ts:272-274 | After the first tick, tweens whose value did not change write nothing. |
| Ticks.WritesFirst | src/Velocity/tick.ts:272-345 | On the first tick every tween writes its value, in tween order. |
| Ticks.EvalTweens | src/Velocity/tick.ts:249-345 | The property loop computes exactly `AdvanceAll` and `Writes`. |
| Ticks.Clock | src/Velocity/tick.ts:140-178 | Only `timeStart` and `paused` change, and a resumed call becomes running. A call that goes on is unpaused, and it is on its first tick exactly when it had no start time. |
| Ticks.PausedFreezes | src/Velocity/tick.ts:162-166 | A paused call is held, and its start moves by one frame, so the elapsed time stands still. |
| Ticks.FirstTickStart | src/Velocity/tick.ts:155-160 | On the first tick the clock starts one frame back. |
| Ticks.DelayGate | src/Velocity/tick.ts:173-178 | A delayed call that has not started is held exactly while start + delay is after now. When released, its clock restarts one frame back. |
| Ticks.StartCall | src/Velocity/tick.ts:184-204 | A call that has started, or that has no shared callbacks, leaves the callbacks alone and emits nothing. |
| Ticks.BeginOnce | src/Velocity/tick.ts:184-204 | Each call bumps the shared counter. The first records itself as `first` and fires `begin` exactly when it is set, and `begin` is then cleared. No other request's callbacks change. |
| Ticks.Run | src/Velocity/tick.ts:184-372 | Evaluating a call changes only that call, and keeps its element and callbacks. |
| Ticks.CallStep | src/Velocity/tick.ts:129-372 | One call's step changes only that call, and only appends events. It keeps its element, callbacks, queue and duration, and never clears the progress or complete flags. A call whose element lost its data is left alone. |
| Ticks.CompleteOnlyAtEnd | src/Velocity/tick.ts:216-219 | The complete flag is raised only by a started, unpaused call at 100%. |
| Ticks.EvaluatedStarted | src/Velocity/tick.ts:184-216 | A call past its clock is started, with fraction at most 1 and elapsed time now − timeStart. |
| Ticks.EvalPass | src/Velocity/tick.ts:124-372 | The first walk keeps the arena sizes and the callback references valid. |
| Ticks.EvalPassFrame | src/Velocity/tick.ts:124-372 | A call the walk does not visit is unchanged, and no call's element or callbacks change. |
| Ticks.KeptMembers | src/Velocity/tick.ts:135-138 | After the walk, the active calls are exactly those whose element still has data. |
| Ticks.TweenDummy | src/Velocity/tick.ts:280-281 | A reported dummy value is the current value of a `tween` property. |
| Ticks.ProgressSound | src/Velocity/tick.ts:374-391 | Every progress report comes from a walked call that reports: started, unpaused, the first of its request, with a `progress` hook. It carries that call's fraction and a non-negative remaining time. |
| Ticks.CompleteExact | src/Velocity/tick.ts:392-399 | The completion walk completes, not stopped, exactly the walked calls that are started, unpaused and at 100%. |
| Ticks.StartCallbacks | src/Velocity/tick.ts:184-204 | The method computes `StartCall`. |
| Ticks.RunStep | src/Velocity/tick.ts:184-372 | The method computes `Run`. |
| Ticks.ClockStep | src/Velocity/tick.ts:140-178 | The method computes `Clock`. |
| Ticks.EvalCall | src/Velocity/tick.ts:129-372 | Evaluating one call on the state is `CallStep`. |
| Ticks.Visit | src/Velocity/tick.ts:124-138 | One walk step either evaluates the call or frees it when its element has lost its data, and hands back the saved `next`. |
| Ticks.Drop | src/Velocity/tick.ts:135-138 | A call whose element has no data leaves the active list and nothing else moves. |
| Ticks.EvalLoop | src/Velocity/tick.ts:124-372 | The first walk is `EvalPass` over the old active list. Afterwards the active list is exactly the kept calls, and the queues do not change. |
| Ticks.ProgressLoop | src/Velocity/tick.ts:374-391 | The progress walk appends exactly `ProgressEvents`. |
| Ticks.CompleteLoop | src/Velocity/tick.ts:392-399 | The completion walk appends exactly `CompleteEvents`. |
| Ticks.Walks | src/Velocity/tick.ts:124-399 | A frame's log is the evaluation events, then progress reports if any call reports, then completions if any call finished. |
| Ticks.Frame | src/Velocity/tick.ts:117-399 | As `Walks`. `lastTick` is the current time while ticking goes on, and otherwise 0. |
| Ticks.Tick | src/Velocity/tick.ts:81-408 | A falsy timestamp processes nothing. A truthy one runs a frame with delta taken from `lastTick`. The loop re-arms exactly while `isTicking` holds. |
| Actions.QueueName | src/core.ts:169 | A missing queue option becomes the default queue. |
| Actions.QueueValue | src/core.ts:569 | A call's queue value is `false` exactly when it has no queue. |
| Actions.Skips | src/core.ts:179 | A call is skipped exactly when its queue does not match the option. |
| Actions.SomeTarget | src/core.ts:178-185 | The `some` succeeds exactly when the call is not skipped and one of its elements is targeted. |
| Actions.ToggleAllCalls | src/core.ts:174-187 | After the walk every listed call is toggled and every other call is unchanged. |
| Actions.ClearedQueue | src/core.ts:293 | The queue cleared is the one named by a string option, and otherwise the default. |
| Actions.Mark | src/core.ts:298-311 | A matched call gets `timeStart` −1 and nothing else changes, except that "stop" also drops its queue. |
| Actions.Occurrences | src/core.ts:282-284 | The targets equal to the element, one entry each. There are none exactly when the element is not targeted. |
| Actions.ScanMarks | src/core.ts:267-314 | A call is marked exactly when one of its elements was hit, and every hit is an element of the call that is targeted. |
| Actions.ScanMatches | src/core.ts:267-314 | Some element is hit exactly when the queue matches and the call has a targeted element. |
| Actions.MatchTargets | src/core.ts:282-313 | The inner loop finds the occurrences, and marks the call when there are any. |
| Actions.ScanCall | src/core.ts:267-314 | The element walk of one call computes `Scan`. |
| Actions.ResolveOf | src/core.ts:294 | A dequeued call resolves exactly when it has a resolver. The corrected half of F4. |
| Actions.ResolvedExact | src/core.ts:293-295 | The drained calls resolved are exactly the drained calls with a resolver. |
| Actions.Drain | src/core.ts:290-295 | Clearing one element's queue deletes its entry and its FIFO, and resolves each pending call that has a resolver. The active list does not change. |
| Actions.ClearAllExact | src/core.ts:289-296 | Clearing over all targets removes exactly the targeted entries and keeps the others as they were. It resolves exactly the pending calls of removed queues that have a resolver. |
| Actions.DrainAll | src/core.ts:289-296 | The method computes `ClearAll`. |
| Actions.ToggleWalk | src/core.ts:169-187 | The pause/resume walk computes `ToggleAll` over the active list. |
| Actions.Pause | src/core.ts:160-189 | Matching calls on targeted elements become paused. |
| Actions.Resume | src/core.ts:191-222 | Matching calls on targeted elements become resumed. |
| Actions.StopAllCalls | src/core.ts:263-316 | Every walked call loses its delay, and a matching call on a targeted element is marked. Calls not walked are unchanged. |
| Actions.StopAllPushes | src/core.ts:306 | "stop" pushes exactly the walked calls that match. |
| Actions.StopAllClears | src/core.ts:289-296 | Without a clearing option no queue changes. Otherwise only entries of targeted elements are removed, and the remaining entries are unchanged. |
| Actions.StopAllClearsMatched | src/core.ts:289-296 | With a clearing option, every matched call has a targeted element whose cleared queue is gone. |
| Actions.UnqueuedCalls | src/core.ts:235 | Released calls lose their queue, and no other call changes. |
| Actions.ReleaseAllEntries | src/core.ts:227-237 | finishAll's release removes exactly the targeted FIFOs (and their entries), and keeps the others unchanged. |
| Actions.ReleaseAllStarts | src/core.ts:227-237 | Released calls are appended to the active list. They are exactly the pending calls of the targeted queues, and they lose their queue. |
| Actions.ReleaseHead | src/core.ts:234-235 | One dequeue starts the FIFO's head and drops its queue. An empty queue is deleted. |
| Actions.Release | src/core.ts:232-236 | Releasing one element's queue computes `ReleaseOne` and appends the released calls to the active list. |
| Actions.ReleaseEach | src/core.ts:227-237 | The method computes `ReleaseAll`. |
| Actions.StopVisit | src/core.ts:264-314 | One step of the stop walk computes `Visit` on the state. With a clearing option it needs a data cache only on the elements it clears (`Hits`), where `dequeue` would otherwise throw. |
| Actions.Hits | src/core.ts:284-291 | The elements on which visiting a call clears queues are elements of that call and targets. |
| Actions.TargetsCached | src/core.ts:226-237 | When every target has a data cache, as finishAll's drain needs, every element the walk clears on has one. |
| Actions.StopWalk | src/core.ts:258-316 | The stop walk computes `StopAll` over the active list. With a clearing option it needs a data cache only on the elements the walk clears (`HitsCached`). A target that no active call animates needs none. |
| Actions.Completes | src/core.ts:320-323 | Each pushed call is completed as stopped, in push order. |
| Actions.CompleteEach | src/core.ts:320-323 | The loop appends exactly `Completes`. |
| Actions.Prepared | src/core.ts:226-239 | Only finishAll with `true` or a queue name releases queues before the walk. |
| Actions.Prepare | src/core.ts:226-239 | The method computes `Prepared`. Only finishAll with `true` or a queue name needs every target to have a data cache, since only it dequeues on every target. |
| Actions.StopSweep | src/core.ts:257-329 | The walk and, for "stop", the premature completions compute `StopAll` and then append `Completes` of the pushed calls. |
| Actions.StopAction | src/core.ts:224-332 | The action is the release (for finishAll), then the stop walk, then premature completion of what "stop" pushed. A data cache is needed on every target for finishAll with a clearing option, and otherwise only on the elements the walk clears. |
| StopActions.Check | src/Velocity/actions/stop.ts:16-22 | Checking a call changes only that call. |
| StopActions.CheckAllExact | src/Velocity/actions/stop.ts:16-22 | Every checked call is validated. The calls whose queue matches are flagged stopped and completed, not as stopped, and no other call changes. |
| StopActions.Chosen | src/Velocity/actions/stop.ts:58 | The calls checked are exactly the active calls on given elements, or all of them when no elements were given. |
| StopActions.FreshAt | src/Velocity/actions/stop.ts:53-55 | The calls from the `firstNew` marker on are the tail of the active list from that call. |
| StopActions.Validates | src/Velocity/actions/stop.ts:53-55 | One validation per call, in order. |
| StopActions.ValidateNew | src/Velocity/actions/stop.ts:53-55 | The loop validates every new call in order, and leaves `firstNew` unset. |
| StopActions.CheckCall | src/Velocity/actions/stop.ts:16-22 | The method computes `Check`, and moves `firstNew` past the call. |
| StopActions.CheckWalk | src/Velocity/actions/stop.ts:56-61 | The walk as evidently intended, following `next` where the source reads the never-assigned `_next`: it checks exactly the chosen calls, in list order. The corrected half of F5. |
| StopActions.CheckWalkAsWritten | src/Velocity/actions/stop.ts:56-61 | The walk as written: `_next` is undefined and `State.firstNew` is unset, so only the call at `State.first` is checked, if it is chosen. The as-written half of F5. |
| StopActions.SecondCallMissed | src/Velocity/actions/stop.ts:57 | With two active calls on one targeted element, the walk as written leaves the second without `STOPPED`, while the walk along `next` stops both. |
| StopActions.CheckAllKeeps | src/Velocity/actions/stop.ts:16-22 | Checking never changes a call's element or queue. |
| StopActions.Scope | src/Velocity/actions/stop.ts:41-61 | An animations list is checked as given. Otherwise the checked calls are the active calls on the given elements. |
| StopActions.Effective | src/Velocity/actions/stop.ts:38-51 | The element branch always has a queue to match, the given one when present. The animations branch keeps what was given. |
| StopActions.Stop | src/Velocity/actions/stop.ts:37-70 | stop is the validation of new calls (element branch), then `CheckAll` over the scope with the effective queue. On the element branch the scope is every chosen active call, as the corrected walk of F5 visits them. |
| StopActions.StopList | src/Velocity/actions/stop.ts:41-44 | The animations branch computes `CheckAll` over the list. |
| StopActions.Expansions | src/Velocity/actions/finishAll.ts:29 | One `expandTween` per released call, in order. |
| StopActions.Drained | src/Velocity/actions/finishAll.ts:17-30 | With no elements, no first call, or a first call without a queue, nothing is drained. |
| StopActions.ReleaseAllKeeps | src/Velocity/actions/finishAll.ts:19-31 | Releasing keeps the arena size, and keeps `firstNew` on the active list. |
| StopActions.DrainFirst | src/Velocity/actions/finishAll.ts:17-30 | The drain computes `Drained` from the queue of the first call. The released calls are appended to the active list, and the arena keeps its size. |
| StopActions.FinishAll | src/Velocity/actions/finishAll.ts:16-33 | finishAll throws exactly when it has no elements, or has elements but no first call, and then changes nothing. Otherwise it drains the queue of the first call, expands each released call, then runs stop, whose element walk is the corrected one of F5. |
| Options.OptionsDuration | src/core.ts:446-463 | A number is kept. `fast`/`normal`/`slow` (any case) give 200/400/600. Another string gives its parsed value, or 1 when that is falsy. No option gives none. |
| Options.MockFactor | src/core.ts:496 | The mock factor is never falsy. |
| Options.Resolve | src/core.ts:491-503 | Mock `true` forces delay 0 and duration 1. A factor scales both. Otherwise a falsy delay or duration becomes 0. |
| Options.ScaleKeepsZero | src/core.ts:496-499 | Scaling by the mock factor keeps zero, and only zero, at zero. |
| Options.CallQueue | src/core.ts:569 | `false` gives no queue, and anything else the queue `QueueKey` names. |
| Options.CallQueueKey | src/core.ts:569 | Passing a call's stored queue back to `queue` reaches the same entry as the original argument. |
| Options.HooksFor | src/core.ts:559-573 | `begin`/`progress` go to the first call only, and `complete`/`resolver` to the last only. |
| Options.HooksOnce | src/core.ts:559-573 | Each given hook lands on exactly one call of the request. |
| Options.SlotOf | src/core.ts:129-137 | A non-array that is a speed name or starts with a digit is a duration. Other strings and arrays are easings, and functions are complete callbacks. |
| Options.LastIn | src/core.ts:125-138 | What fills a slot is one of the arguments and belongs to that slot. |
| Options.LastInExact | src/core.ts:125-138 | A slot stays empty exactly when no argument belongs to it. Otherwise it holds the last argument that does. |
| Options.Overload | src/core.ts:118-139 | The loop fills each slot with its last argument. |
| Options.StaggeredDelay | src/core.ts:356-361 | A truthy stagger adds stagger × index to the original delay. A function adds its result. A falsy value leaves the delay alone. |
| Options.StaggerSteps | src/core.ts:358-359 | Successive elements differ by exactly the stagger. |
| Options.DragBase | src/core.ts:368 | Drag starts from the original duration, or from a positive default. |
| Options.DragShare | src/core.ts:373 | Each element's share lies in [0, 1]. |
| Options.ShareMono | src/core.ts:373 | Shares grow along the elements, or shrink when going backwards. |
| Options.Dragged | src/core.ts:373 | A dragged duration is at least 200 ms, at least 75% of the base, and at least the element's share. With a base of 200 ms or more it never exceeds the base. |
| Options.DragMonotone | src/core.ts:373 | A larger share never gives a shorter duration. |
| Construction.NewCallFor | src/core.ts:554-575 | Element `i`'s call targets it, shares the element list and the resolved queue, and gets the hooks `HooksFor` assigns. |
| Construction.CallsFor | src/core.ts:553-581 | One call per element, in order. |
| Construction.Enqueue | src/Velocity/queue.ts:35-61 | `queue` keeps each entry paired with a FIFO. |
| Construction.EnqueueStep | src/Velocity/queue.ts:35-61 | The call starts exactly when the queue is `false` or has no entry yet. The active list only grows at its end, and exactly one entry is added when a queue is named. |
| Construction.EnqueueAllKeys | src/core.ts:553-581 | Queuing a request creates an entry for each target's queue and no other. |
| Construction.EnqueueAllPrefix | src/core.ts:553-581 | Queuing a request only appends to the active list, and only the request's own calls. |
| Construction.EnqueueAllActive | src/core.ts:553-581 | A call of the request starts at once exactly when `StartsNow` holds: its queue is `false`, or the queue had no entry before it. |
| Construction.EnqueueOn | src/Velocity/queue.ts:35-61 | `queue` on the state is `Enqueue` on its lists. |
| Construction.QueueOne | src/core.ts:554-580 | One iteration appends the call and queues it. |
| Construction.QueueCalls | src/core.ts:553-581 | The loop appends `CallsFor` and computes `EnqueueAll`. |
| Construction.InitAll | src/core.ts:536-542 | Every targeted element gains a data cache. |
| Construction.StartTicking | src/core.ts:583-588 | The tick loop is left running, and starting it changes no call, queue or log. |
| Construction.OnFirst | src/core.ts:579 | Every call targets `elements[0]`. |
| Construction.StartAsWritten | src/core.ts:536-588 | Part II as written: every call is queued on the first element. The as-written half of F2. |
| Construction.Start | src/core.ts:548-549 | Part II with each call on its own element, as the comment describes. The corrected half of F2. |
| Construction.OwnQueueRespected | src/core.ts:548-549 | With distinct elements, an element's call starts exactly when its own queue is `false` or empty. |
| Construction.FirstElementSerializes | src/core.ts:579 | As written, with a named queue, every call after the first waits in the first element's queue. |
| Construction.SecondElementWaits | src/core.ts:579 | Concrete case for F2: the second of two elements waits as written, and starts when corrected. |
| Construction.ResolvedAsWritten | src/core.ts:294 | Draining as written throws exactly when a drained call has no resolver. The as-written half of F4. |
| Construction.AsWrittenAgrees | src/core.ts:294 | When every drained call has a resolver, the written code and the corrected model agree. |
| Construction.DrainingFirstCallThrows | src/core.ts:294 | Concrete case for F4: the first call of a two-element request has no resolver, so draining it throws. |
| Names.Upper | src/Velocity/css/names.ts:13 | `toUpperCase` on ASCII: lower-case letters move by 32, and other characters are unchanged. |
| Names.Matches | src/Velocity/css/names.ts:12 | Each replacement consumes two characters. |
| Names.CamelCase | src/Velocity/css/names.ts:11-15 | The result is one character shorter per replacement. |
| Names.CamelCaseNoDash | src/Velocity/css/names.ts:11-15 | A name without `-` is unchanged. |
| Names.CamelCaseDashes | src/Velocity/css/names.ts:11-15 | Each replacement removes exactly one `-`. |
| Names.CamelCaseFirstMatch | src/Velocity/css/names.ts:11-15 | The first `-x` becomes `X`, and the text before it is kept. |
| Names.BackgroundColor | src/Velocity/css/names.ts:9-10 | `background-color` becomes `backgroundColor`. |
| Names.SVGAttributeCases | src/Velocity/css/names.ts:17-25 | The test is case-insensitive and whole-word, and `transform` counts only where it is added. |
| Names.CapitalizeFirst | src/Velocity/css/names.ts:44-46 | Only the first character is upper-cased. |
| Names.Candidate | src/Velocity/css/names.ts:35-47 | Candidate 0 is the name itself. The others are a vendor followed by the capitalised name. |
| Names.FirstSupported | src/Velocity/css/names.ts:37-58 | A returned candidate is supported. |
| Names.FirstSupportedExact | src/Velocity/css/names.ts:37-61 | The probe returns the earliest supported candidate, or nothing exactly when none is supported. |
| Names.PrefixCache.constructor | src/Velocity/css/names.ts:32 | The cache starts empty. |
| Names.PrefixCache.PrefixCheck | src/Velocity/css/names.ts:30-62 | A non-empty cached match is returned without probing. Otherwise the first supported candidate is cached and returned with `true`, or the name is returned with `false` and the cache untouched. |
| Names.CheckTwice | src/Velocity/css/names.ts:32-33 | Once a probe succeeds, the same name gets the same answer again, whatever the browser reports later. |
| Normalizations.Arg | src/Velocity/normalizations/normalizations.ts:54-56 | A missing argument reads as `undefined`. |
| Normalizations.IndexOf | src/Velocity/normalizations/normalizations.ts:65 | `indexOf`: the first index holding the value, or −1 exactly when it is absent. |
| Normalizations.Register | src/Velocity/normalizations/normalizations.ts:53-76 | Registration keeps the constructor and table lists aligned and the constructors distinct. |
| Normalizations.RegisterEffect | src/Velocity/normalizations/normalizations.ts:58-75 | A refused call changes nothing. An accepted one makes the lookup of (constructor, name) give the callback and leaves every other lookup alone; constructors only grow. |
| Normalizations.IndexOfAppend | src/Velocity/normalizations/normalizations.ts:65-68 | Pushing a new constructor does not move the others. |
| Normalizations.NoCacheGrows | src/Velocity/normalizations/normalizations.ts:72-74 | The no-cache set only grows, and gains exactly the name of an accepted call whose fourth argument is `false`. |
| Normalizations.NameFirstRefused | src/Velocity/normalizations/normalizations.ts:58-59 | A string in the constructor slot is refused with a warning, and nothing is registered. |
| Normalizations.RegisterAll | src/Velocity/normalizations/normalizations.ts:53-76 | A sequence of registrations keeps the tables aligned. |
| Normalizations.NameFirstRegistersNothing | src/Velocity/normalizations/normalizations.ts:58-59 | Two-element calls whose first element is a name register nothing, and give one warning each. Part of the as-written half of F1. |
| Normalizations.RegistrationArgs | src/Velocity/css/normalizations/dimensions.ts:50 | Without a target the arguments are `[name, callback]`. With one they are `[target, name, callback]`. |
| Normalizations.LastFor | src/Velocity/normalizations/normalizations.ts:71 | The callback a name ends up with is one listed for it, and exists exactly when the name is listed. |
| Normalizations.RegisterAllFind | src/Velocity/normalizations/normalizations.ts:65-71 | Registering a list against a valid constructor makes each name give its last listed callback, and leaves every other lookup alone, with no warnings. |
| Normalizations.Registry.constructor | src/Velocity/normalizations/normalizations.ts:25-40 | The registry starts with no constructors, tables or no-cache names. |
| Normalizations.Registry.RegisterNormalization | src/Velocity/normalizations/normalizations.ts:53-76 | The registry's tables become `Register` of the old ones, and a refusal appends its warning. |
| Normalizations.Registry.RegisterEach | src/Velocity/css/normalizations/dimensions.ts:50-53 | Registering calls in order is `RegisterAll`. |
| Dimensions.Value | src/Velocity/css/normalizations/dimensions.ts:27 | A missing style parses as NaN. |
| Dimensions.Fields | src/Velocity/css/normalizations/dimensions.ts:23-24 | Four fields are read, and never the dimension itself. |
| Dimensions.Reads | src/Velocity/css/normalizations/dimensions.ts:26-27 | Each field is read in order. |
| Dimensions.AugmentDimension | src/Velocity/css/normalizations/dimensions.ts:14-35 | The loop computes `Augment`. |
| Dimensions.SumSkipsNaN | src/Velocity/css/normalizations/dimensions.ts:28-30 | A NaN field counts as 0. |
| Dimensions.SumNonNegative | src/Velocity/css/normalizations/dimensions.ts:26-31 | Non-negative fields give a non-negative sum. |
| Dimensions.AugmentSigns | src/Velocity/css/normalizations/dimensions.ts:17-34 | The inner augment is ≤ 0 ≤ the outer. Border-box has no outer augment, and content-box no inner one. |
| Dimensions.OuterMinusInner | src/Velocity/css/normalizations/dimensions.ts:17-34 | Outer minus inner is the padding-and-border sum, whatever the box-sizing. |
| Dimensions.Offset | src/Velocity/css/normalizations/dimensions.ts:45 | NaN stays NaN, and a number is shifted by `d`. |
| Dimensions.SetDimension | src/Velocity/css/normalizations/dimensions.ts:45-46 | The setter writes value − augment to the dimension, and nothing else changes. |
| Dimensions.SetKeepsAugment | src/Velocity/css/normalizations/dimensions.ts:45 | Writing width or height does not change the augment. |
| Dimensions.SetThenGet | src/Velocity/css/normalizations/dimensions.ts:42-46 | With the corrected getter, reading after writing gives back the written value. The corrected half of F3. |
| Dimensions.SetThenGetAsWritten | src/Velocity/css/normalizations/dimensions.ts:43 | As written, reading after writing gives the value back only when it equals the augment. The as-written half of F3. |
| Dimensions.OuterWidthReadsPadding | src/Velocity/css/normalizations/dimensions.ts:43 | Concrete case for F3: content-box, 10px left padding, outerWidth set to 100, and the read gives 10. |
| Dimensions.RegisterDimensions | src/Velocity/css/normalizations/dimensions.ts:50-53 | The four registrations are `RegisterAll` of the dimension list. |
| Dimensions.DimensionsAsWritten | src/Velocity/css/normalizations/dimensions.ts:50-53 | As written, nothing is registered, and each of the four names gives one warning. The as-written half of F1. |
| Dimensions.DimensionsLast | src/Velocity/css/normalizations/dimensions.ts:50-53 | The list names each of the four dimensions once, with its width/height and inner/outer. |
| Dimensions.DimensionsRegistered | src/Velocity/css/normalizations/dimensions.ts:50-53 | With a constructor passed, each of the four names finds its normalization and every other lookup is unchanged. The corrected half of F1. |
| VendorPrefixes.VendorTestsExclusive | src/Velocity/css/normalizations/vendorPrefix.ts:24 | At most one vendor pattern matches a name. |
| VendorPrefixes.NoEarlierMatch | src/Velocity/css/normalizations/vendorPrefix.ts:31-32 | No earlier pattern matches a name that a later one does. |
| VendorPrefixes.LowerRun | src/Velocity/css/normalizations/vendorPrefix.ts:33 | `[a-z]+` takes exactly the leading lower-case run. |
| VendorPrefixes.UnprefixedOfVendor | src/Velocity/css/normalizations/vendorPrefix.ts:33 | A vendor name loses its prefix, and the next letter is lower-cased. |
| VendorPrefixes.WebkitUnprefixed | src/Velocity/css/normalizations/vendorPrefix.ts:24-33 | `webkit` followed by a capital is a vendor name, and it unprefixes to the lowered capital and the rest (e.g. `webkitTransform` becomes `transform`). |
| VendorPrefixes.VendorKeyHead | src/Velocity/css/normalizations/vendorPrefix.ts:24 | Vendor names start with `w`, `m` or `o`. |
| VendorPrefixes.NotVendorKeys | src/Velocity/css/normalizations/vendorPrefix.ts:24 | The patterns are case-sensitive and need a prefix. |
| VendorPrefixes.VendorPrefixAccess | src/Velocity/css/normalizations/vendorPrefix.ts:14-22 | Reading changes nothing. Writing sets only the prefixed property and returns `true`. A later read sees the written value when the two names coincide. |
| VendorPrefixes.SelectedExact | src/Velocity/css/normalizations/vendorPrefix.ts:30-40 | A registration is selected exactly when some style key yields it. |
| VendorPrefixes.RegisterKey | src/Velocity/css/normalizations/vendorPrefix.ts:31-39 | The inner loop registers exactly what `KeyEntry` selects for the key. |
| VendorPrefixes.RegisterVendorPrefixes | src/Velocity/css/normalizations/vendorPrefix.ts:30-40 | The loops register exactly `Selected` over the style keys. |
| VendorPrefixes.VendorPrefixesAsWritten | src/Velocity/css/normalizations/vendorPrefix.ts:36 | As written, nothing is registered, and there is one warning per selected key. The as-written half of F1. |
| VendorPrefixes.LastSelected | src/Velocity/css/normalizations/vendorPrefix.ts:33-36 | Whatever a name ends up mapped to comes from a style key standing for it. |
| VendorPrefixes.SelectedName | src/Velocity/css/normalizations/vendorPrefix.ts:33-36 | A name some key stands for gets a registration. |
| VendorPrefixes.VendorPrefixesRegistered | src/Velocity/css/normalizations/vendorPrefix.ts:30-40 | With a constructor passed, a name some key stands for finds a vendor normalization from such a key. The corrected half of F1. |
| VendorPrefixes.VendorPrefixesUntouched | src/Velocity/css/normalizations/vendorPrefix.ts:30-40 | Names no key stands for, and other constructors, keep their lookups. |

## Left out

- **DOM work.** Style reads and writes, class changes, computed styles and `Data(element)`
  become parameters or logged events. The browser's `element.style`, `State.prefixElement` and
  `isString(style[...])` become a `supported` / `isStringStyle` function and a `map`.
- **Browser reaction to writes.** The model's `element.style` does not alias prefixed and
  unprefixed names as a browser does.
- **Options not modelled.** The `display`, `visibility`, `mobileHA`, `loop` and `repeat`
  options, and the transform cache and hooks flushing of the tick, are left out. They only
  write styles.
- **The frame scheduler.** The `requestAnimationFrame` shim and the hidden-tab ticker are left
  out. The timestamp and `performance.now()` are parameters.
- **Numbers.** JavaScript numbers are reals, with NaN as a separate `JsNum` case where the core
  tests for it. Infinity and a NaN duration in the tick are not modelled. A zero duration
  completes at once. A negative duration gives `Math.min(elapsed / duration, 1)`, which is below 1
  for a positive elapsed time, so such a call does not complete.
- Construction.NewCallFor: takes the delay and duration as reals from `Settings`, which is not
  connected to `Options.Resolve`. So the NaN delay that `parseFloat(options.delay) * mock` gives
  in mock mode when no delay is set (core.ts:497) never reaches a call.
- Ticks.SlotPiece: `Bad` stands both for the `NaN` that an out-of-range slot gives while the
  tween runs and for the `undefined` it gives at 100% without rounding (tick.ts:108-113).
  These stringify differently (`NaN`, `undefined`).
- **Code outside the model.** Easing functions, `validateQueue`, `completeCall`,
  `validateTweens`, `expandTween(s)`, `getAnimationCall` and the promise handling (stop.ts:63-69,
  core.ts:325-328) are outside this model. They become parameters or logged events, and their
  files are not part of this model.
- Queues.State.CompleteCall: `completeCall` is logged, but does not unlink the call. Its
  effect on the list is not part of this model. Nor is its reset of `State.isTicking` when the
  last call completes (noted at tick.ts:402): once Part II sets `isTicking`, nothing in the
  model clears it, so Ticks.Tick re-arms the ticker on every frame.
- **`getValue` on a call's queue.** stop.ts:18 and finishAll.ts:25 read a call's queue through
  `getValue`. The model reads the call's own queue (`ArgOf(calls[h].queue)`). Part II always
  sets it to `false` or a string (core.ts:569), so the fallbacks to the options and the
  default queue are never reached.
- Construction.InitAll: gives every target a data cache. The source does so only for DOM
  nodes (`isNode`, core.ts:539); every element is assumed to be a node.
- **Duration constants.** `DURATION_FAST`, `DURATION_DEFAULT` and `DURATION_SLOW` are not part
  of this model. The documented values 200, 400 and 600 are used.
- **Undeclared source.** `getAnimationCall`'s recycling of freed calls is not part of this
  model: fresh calls start from empty fields.
- **Data caches before `dequeue`.** `dequeue` reads `Data(element).queueList` (queue.ts:72-73),
  which throws a TypeError on an element without a data cache. The model does not represent
  that exception: the methods that dequeue require a cache on exactly the elements they
  dequeue on. For finishAll with `true` or a queue name (core.ts:226-237) and for the
  finishAll of finishAll.ts these are all targets. For the stop walk (core.ts:284-291) they
  are only the targeted elements of matching active calls (`Actions.HitsCached`).
- **The `firstNew` marker.** `stop` and `finishAll` require `firstNew` to be on the active
  list or unset (`MarkerInList`).
- Actions.StopVisit: the order in which events are logged while draining within one element
  step follows the `Visit` function, which gives the same multiset of events.
- StopActions.FinishAll: the `expandTween` events of all released calls are logged after the
  whole drain, not interleaved with the dequeues.
- **Case folding.** Lower- and upper-casing cover ASCII letters only.
- Options.Dragged: takes the element's share as an argument. That the share grows along the
  elements is the separate lemma `Options.ShareMono`.
- **Disabled code.** The commented-out transform normalizations
  (normalizations.ts:100-164) are not code and are left out.
- Normalizations.Registry.RegisterNormalization: the warning text goes to the console in the
  source. Here it is the `Warning` value appended to `warnings`.
- **Object identity.** JavaScript objects are compared by identity. Constructors are modelled
  as `JsVal` values with an identity field, and `instanceof Object` as their being a function
  or an object.

## Findings

| source | as written | input that shows it | evidently intended | confidence | as-written member | corrected member |
|---|---|---|---|---|---|---|
| src/Velocity/css/normalizations/dimensions.ts:50-53 | `registerNormalization` is called with `[name, callback]`, so the name sits in the constructor slot and the first validation (normalizations.ts:58) refuses it | `["innerWidth", getDimension("width", true)]`: nothing is registered and a warning is printed | pass the element constructor first: `[Element, name, callback]` | not executed | Dimensions.DimensionsAsWritten | Dimensions.DimensionsRegistered |
| src/Velocity/css/normalizations/vendorPrefix.ts:36 | the same two-element call for every vendor-prefixed style key | a style with the key `webkitTransform` and a string `transform`: `["transform", vendorPrefix(...)]` is refused | pass the element constructor first | not executed | VendorPrefixes.VendorPrefixesAsWritten | VendorPrefixes.VendorPrefixesRegistered |
| src/core.ts:579 | every call is queued on `elements[0]` | two elements `a`, `b` and queue `""`: `b`'s call waits in `a`'s queue instead of starting | queue each call on its own `element`, as core.ts:548-549 says | not executed | Construction.StartAsWritten, Construction.SecondElementWaits, Construction.FirstElementSerializes | Construction.Start, Construction.OwnQueueRespected |
| src/Velocity/css/normalizations/dimensions.ts:43 | the getter returns only the augment | content-box, paddingLeft 10: set outerWidth 100, then get outerWidth gives 10 | return the dimension plus the augment, so that get inverts set | not executed | Dimensions.SetThenGetAsWritten, Dimensions.OuterWidthReadsPadding | Dimensions.DimensionNormalization, Dimensions.SetThenGet |
| src/core.ts:294 | every dequeued call's `resolver` is invoked, but only the last call of a request has one (core.ts:573) | a two-element request on queue `"q"` still pending, then `stop` with `"q"`: draining the first call throws | resolve only calls that carry a resolver | not executed | Construction.ResolvedAsWritten, Construction.DrainingFirstCallThrows | Actions.ResolveOf, Actions.Drain |
| src/Velocity/actions/stop.ts:57 | the walk reads its successor from `_next`, a field no code assigns, and falls back to `State.firstNew`, which the loop at stop.ts:53-55 has just unset | two active calls animating `el`, then `stop` on `el`: only the call at `State.first` gets `STOPPED` and is completed | read `next`, as every other walk of the active list does (core.ts:175, 207, 264; tick.ts:125) | not executed | StopActions.CheckWalkAsWritten, StopActions.SecondCallMissed | StopActions.CheckWalk, StopActions.Stop |
