# RD_Tween playback engine, modelled in Dafny

This project models the playback engine of the RD_Tween Unity tween library. It treats the engine as four cooperating state machines, each an immutable value. Every operation is a pure function or method returning the new state plus a trace of the effects the C# code performs:

- **Step sequencer** (`ActionCore`, `TweenActionCore`). An ordered list of timed steps and a playhead made of:
  - step index;
  - elapsed time in the step;
  - direction;
  - loops done;
  - delay waited;
  - the set of steps whose start hook has run.

  It covers configuration, controls (play, pause, resume, kill, play backwards), scrubbing (`Goto`, `Rewind`, `Complete`) and the per-tick update with Restart, Yoyo and Incremental loops.
- **Property driver** (`Property`, `PropertyTween<float>`, with the float operators `TweenFactory.To` passes). A one-step sequencer whose start hook resolves the start and end values. It handles the relative flag, the From instruction, the Incremental factor and the once-cached delta. Its step writes `lerp(start, end, eased t)`. Instances are recycled through a bounded free list (`Pooling`).
- **Timeline compositor** (`Sequence`, `TweenSequence`). Children and callbacks placed at offsets by `Append`/`Join`/`Prepend`/`Insert` and the interval/callback builders. It has one clock clamped to `[0, duration]`, seeks each child to its clamped local time, and fires callbacks on crossings with per-direction flags.
- **Scheduler** (`Manager`, `TweenManager`). Six lists keyed by update phase and time scale, registration without duplicates, moves between lists, a per-tick pass that evicts and releases, and kill and query by target or id.

Times and values are `real`. The 0.0001 minimum step duration is the constant `Epsilon`.

Unity's `obj == null` is `IsNull(target, destroyed)`, where `destroyed` is the set of destroyed objects. Unity's `==` on two objects is `SameObject`.

Opaque code becomes trace events:
- easing, step application and start hooks;
- user callbacks;
- registration with the scheduler;
- calls on child tweens;
- the virtual `Release`.

The pool layer (`Property.Perform`, `Sequence.Commit`) performs the subclass's `Release` when the core's trace asks for it.

The files are:
- `common.dfy`: shared types and Unity's null semantics;
- `pooling.dfy`: the free-list stacks;
- `core.dfy` and `core_props.dfy`: the sequencer;
- `property.dfy` and `property_props.dfy`: the property driver;
- `sequence.dfy` and `sequence_props.dfy`: the timeline;
- `manager.dfy` and `manager_props.dfy`: the scheduler.

### Behaviour as written

The model follows the code. These consequences of the code are stated as lemmas:

- A relative Incremental tween with end value 10 drives the property 0→10 on the first loop and 10→30 on the second, because the factor is `LoopsDone + 1` applied on top of the current value (`PropertyProps.RelativeIncrementalExample`).
- The tick that finishes the delay is played in full: the part of the tick spent waiting is not subtracted (`CoreProps.DelayNotCarried`).
- `Goto(Duration, true)` on a one-step tween lands past the end, and the next tick completes it (`CoreProps.TwoSecondStep`).
- Yoyo with an even loop count ends on a backward pass, so the completion callback never runs (`CoreProps.YoyoTwoLoopsNeverComplete`).
- `TweenSequence` never adds a raw step, so the guard `base.UpdateTween(0f)` reaches the empty-steps branch. A sequence built with the builders alone is therefore released and evicted on its first unpaused tick, before its clock runs (`SequenceProps.BuiltSequenceEvictedOnFirstTick`). Its null target also makes `IsDead` true, so `UpdateList` evicts it even before `UpdateTween`. The clock is modelled on its own (`Sequence.Clock`) and is reachable when a caller adds raw steps through the public `AddStep`.
- A sequence's `Rewind` calls the base `Rewind`, which returns at once without raw steps, so the sequence's loop count and direction survive a rewind. Its `Goto` resets them through `base.Goto(0, false)`.
- `Join` uses the start of the last `Append`; `Insert` does not move it (`SequenceProps.JoinIgnoresInsert`).
- `Kill` with `complete: false` calls the tween's `Kill`, which never calls `Release`. The manager removes the tween from its list, so it is never returned to a pool (`ManagerProps.KillCallsExactly`: a kill pass makes no `Release` call).

## Model

| member | source | states |
|---|---|---|
| ActionCore.ResetCore | Runtime/Core/TweenActionCore.cs:62-92 | A reset tween is valid, has no steps and no callbacks, sits at index 0 going forward with nothing elapsed, one loop, Restart type, no delay, speed 1, AutoKill on, the Normal update type with scaled time, not playing, paused or killed, and keeps only the target and autoplay flag given |
| ActionCore.IsDead | Runtime/Core/TweenActionCore.cs:94 | A tween is dead exactly when its target is null under Unity's rules: never set, or destroyed |
| ActionCore.Duration | Runtime/Core/TweenActionCore.cs:96-102 | The total length is the sum of the step durations, folded from the last step; `CoreProps.DurationIsSum` equates it with the front-to-back sum |
| ActionCore.Autoplay | Runtime/Core/TweenActionCore.cs:132-144 | A killed or already playing tween is unchanged with no effect; otherwise it becomes playing and unpaused, registers with the scheduler, then runs the play callback; nothing else changes |
| ActionCore.Pause | Runtime/Core/TweenActionCore.cs:285-292 | Pause is idempotent: the result is always paused, and the pause callback runs only when the tween was not already paused |
| ActionCore.Resume | Runtime/Core/TweenActionCore.cs:294-301 | An unpaused tween is untouched; a paused one ends unpaused; its only effects are registration and the play callback |
| ActionCore.Kill | Runtime/Core/TweenActionCore.cs:303-311 | Kill is idempotent: the result is killed, and the kill callback runs only on the transition |
| ActionCore.Settle | Runtime/Core/TweenActionCore.cs:412-415 | The paused flag ends as the negation of `play`, nothing but playing/paused changes, and only registration and play/pause callbacks can occur |
| ActionCore.PlayForward | Runtime/Core/TweenActionCore.cs:313-319 | Direction becomes forward and the tween unpaused, with the rest of the playhead kept. From a valid state the result is valid exactly when the index is not -1, the place a backward tick leaves the playhead before the first step |
| ActionCore.PlayBackwards | Runtime/Core/TweenActionCore.cs:321-338 | No steps: unchanged. Past the end: moves onto the end of the last step. At a step's start: moves to that step's end. Otherwise position kept. In every non-empty case the direction becomes backward and the tween is unpaused and stays valid |
| ActionCore.SetUpdate | Runtime/Core/TweenActionCore.cs:148-160 | Stores type and scale; a playing tween asks the scheduler to move it from its old (type, scale), a stopped one does not |
| ActionCore.SetDelay | Runtime/Core/TweenActionCore.cs:162-166 | The delay becomes the argument, raised to 0 when negative, and nothing else changes |
| ActionCore.SetSpeed | Runtime/Core/TweenActionCore.cs:168-172 | The speed becomes the argument, raised to 0 when negative, and nothing else changes |
| ActionCore.SetLoops | Runtime/Core/TweenActionCore.cs:174-179 | Loop count and type are stored unclamped and nothing else changes |
| ActionCore.SetAutoKill | Runtime/Core/TweenActionCore.cs:181-185 | Only the AutoKill flag changes |
| ActionCore.SetId | Runtime/Core/TweenActionCore.cs:187-191 | Only the id changes |
| ActionCore.SetEase | Runtime/Core/TweenActionCore.cs:193-200 | No steps: unchanged; otherwise only the last step's ease changes (to Linear for null) |
| ActionCore.SetHook | Runtime/Core/TweenActionCore.cs:260-282 | The named callback is set or cleared and the other three are kept |
| ActionCore.AddStep | Runtime/Core/TweenActionCore.cs:104-130 | The step list grows by one step at the end whose duration is at least `Epsilon`, the total duration grows by exactly that amount, earlier steps are kept, and an autoplaying live tween ends playing |
| ActionCore.AppendInterval | Runtime/Core/TweenActionCore.cs:256 | One step without a start hook is appended after the kept steps, the duration grows by `max(Epsilon, d)` and validity is kept |
| ActionCore.AppendCallback | Runtime/Core/TweenActionCore.cs:257 | One step of exactly `Epsilon` carrying the callback as its start hook |
| ActionCore.PrepareStepStart | Runtime/Core/TweenActionCore.cs:553-561 | The step is marked started; its start hook runs only if it was not already started |
| ActionCore.Walk | Runtime/Core/TweenActionCore.cs:392-410 | The walk consumes exactly the remaining time: prefix durations plus elapsed equal the start plus remaining; it stops inside a step (elapsed below its duration) or past the end with nothing elapsed; exactly the visited steps are marked started |
| ActionCore.WalkApplies | Runtime/Core/TweenActionCore.cs:392-410 | The walk only starts and applies steps, and every step it passes over fully receives progress 1 |
| ActionCore.WalkStarts | Runtime/Core/TweenActionCore.cs:392-410 | Every visited step whose start hook had not run gets it run |
| ActionCore.WalkLast | Runtime/Core/TweenActionCore.cs:392-410 | The last effect is the progress of the step where the walk stopped, or progress 1 on the last step when it ran past the end |
| ActionCore.GotoEnd | Runtime/Core/TweenActionCore.cs:394-410 | With at least one step, the walk ends past the last step exactly when the requested time reaches the duration |
| ActionCore.SeekTo | Runtime/Core/TweenActionCore.cs:380-410 | After seeking: index in `[0, Count]`, prefix durations plus elapsed equal `clamp(t, 0, Duration)`, steps up to the index (and only those) started, loops 0, direction forward, delay counted as waited |
| ActionCore.Rewind | Runtime/Core/TweenActionCore.cs:358-378 | No steps: unchanged. Otherwise the playhead is at step 0 with nothing elapsed, loops 0, forward, delay to wait again, only step 0 started (its hook run again if present), progress 0 applied, not killed, paused iff not `play`; it never releases or completes |
| ActionCore.Goto | Runtime/Core/TweenActionCore.cs:380-416 | The playhead is `SeekTo`'s; steps and configuration kept; not killed; paused iff not `play`; never runs the completion callback or Release |
| ActionCore.GotoNormalized | Runtime/Core/TweenActionCore.cs:418 | The playhead lands exactly at `Duration * clamp01(t)` |
| ActionCore.Complete | Runtime/Core/TweenActionCore.cs:420-434 | Ends past the last step with every step started and paused; killed iff AutoKill; Release called iff AutoKill; completion callback iff requested and set; without AutoKill no longer playing |
| ActionCore.PlayFromEnd | Runtime/Core/TweenActionCore.cs:340-346 | With a step: playhead at the end of the last step going backward, unpaused, every step started |
| ActionCore.Restart | Runtime/Core/TweenActionCore.cs:348-355 | With steps: playhead fully rewound (only step 0 started), paused iff not `play` |
| ActionCore.Finish | Runtime/Core/TweenActionCore.cs:538-545 | Returns not alive, with the completion callback only for a forward ending, then Release |
| ActionCore.Exhausted | Runtime/Core/TweenActionCore.cs:505 | The loops are used up when the count is 1, or when it is not -1 and at least count - 1 loops are done; so -1 never finishes and any other count below 1 finishes at the first boundary |
| ActionCore.HandleLoopOrFinish | Runtime/Core/TweenActionCore.cs:503-545 | Finishes iff the loops are exhausted (always for 1, never for -1). Finishing leaves the state alone, runs the completion callback only for a forward ending and then calls Release; a tick that goes on never calls Release. Otherwise one loop is counted. Restart/Incremental go forward from index 0 with flags cleared. Yoyo at the forward end turns back onto the last step's end keeping the flags, and starts that step (with the new loop count) unless it had already started; at the backward end it restarts forward with flags cleared |
| ActionCore.UpdateForward | Runtime/Core/TweenActionCore.cs:459-478 | Past the end it resolves the loop. Otherwise it starts the step, applies the clamped progress, and either keeps the time or, once the step's duration is reached, moves to the next index with elapsed 0 (no carry). The index never exceeds the step count |
| ActionCore.UpdateBackward | Runtime/Core/TweenActionCore.cs:480-501 | Below the start it resolves the loop. Otherwise it subtracts the tick. On reaching 0 it moves to the previous step's full duration, or to index -1 from step 0. The index never drops below -1 |
| ActionCore.AfterDelay | Runtime/Core/TweenActionCore.cs:450-454 | Only `delayElapsed` changes, and only while the delay is not yet over |
| ActionCore.UpdateTween | Runtime/Core/TweenActionCore.cs:437-457 | Killed or step-less: not alive and Release, no completion callback. Paused: alive with no change. While the delay has not elapsed: alive, only `delayElapsed` grows, index and elapsed untouched. Validity, steps and configuration kept |
| CoreProps.DurationIsSum | Runtime/Core/TweenActionCore.cs:96-102 | `Duration` equals the front-to-back sum of the step durations |
| CoreProps.DurationPositive | Runtime/Core/TweenActionCore.cs:113-116 | A tween with a step has duration at least `Epsilon` |
| CoreProps.DecompositionUnique | Runtime/Core/TweenActionCore.cs:392-410 | A time has only one (index, elapsed) form, so the playhead `Goto` reaches is determined by the time |
| CoreProps.SeekAt | Runtime/Core/TweenActionCore.cs:392-410 | Seeking to the time of an (index, elapsed) form lands on exactly that form |
| CoreProps.SeekInside | Runtime/Core/TweenActionCore.cs:392-410 | Seeking inside a step lands in that step and applies its progress last |
| CoreProps.TickMatchesSeek | Runtime/Core/TweenActionCore.cs:459-478 | A forward tick inside a step lands where seeking to the old position plus the tick would |
| CoreProps.TickStopsAtStepEnd | Runtime/Core/TweenActionCore.cs:472-477 | A forward tick reaching a step's end stops at the next step's start, dropping any excess |
| CoreProps.BackwardTickPosition | Runtime/Core/TweenActionCore.cs:480-501 | A backward tick moves the position back by the tick, or onto the end of the previous step |
| CoreProps.PlayForwardBeforeStart | Runtime/Core/TweenActionCore.cs:478-501 | A backward tick off the first step leaves the tween alive at index -1 going backward, and `PlayForward` from there leaves the playhead invariant: the next forward tick would read `Steps[-1]` |
| CoreProps.LoopCount | Runtime/Core/TweenActionCore.cs:503-517 | With Loops = N (Restart or Incremental) each of the first boundaries counts one loop and the tween finishes exactly at the boundary where LoopsDone reaches N-1 |
| CoreProps.ThreeLoops | Runtime/Core/TweenActionCore.cs:503-508 | Loops = 3: two boundaries pass without completion, the third completes with exactly one completion callback |
| CoreProps.InfiniteLoopsNeverComplete | Runtime/Core/TweenActionCore.cs:505-508 | Loops = -1: every boundary counts a loop and the tween never finishes or completes |
| CoreProps.YoyoTwoLoopsNeverComplete | Runtime/Core/TweenActionCore.cs:519-545 | Yoyo with 2 loops bounces backward once and then finishes on the backward end without the completion callback |
| CoreProps.StartHooksAcrossBoundaries | Runtime/Core/TweenActionCore.cs:510-532 | A Yoyo bounce at the forward end reruns no start hook; a Restart boundary clears the flags so step 0's hook runs again on the next tick |
| CoreProps.RewindGotoRewind | Runtime/Core/TweenActionCore.cs:358-416 | Rewind, seek to the end, rewind again returns to exactly the first rewound playhead |
| CoreProps.DelayNotCarried | Runtime/Core/TweenActionCore.cs:448-456 | The tick that ends the delay advances the step by the whole scaled tick |
| CoreProps.CompleteThenUpdate | Runtime/Core/TweenActionCore.cs:420-446 | After Complete the next tick finishes an auto-killed tween with Release and leaves a kept one paused |
| CoreProps.TwoSecondStep | Runtime/Core/TweenActionCore.cs:380-416 | One 2-second step: seeking to 1 applies 0.5, seeking to 2 lands past the end with 1 applied, and `Goto(2, true)` leaves the tween to finish on its next tick |
| Pooling.Take | Runtime/Tweens/PropertyTween.cs:25 | Pops the top of a non-empty free list, or hands out a never-used handle; the stack stays bounded and duplicate-free |
| Pooling.Push | Runtime/Tweens/PropertyTween.cs:69-70 | Pushes the handle only while the free list is below the bound; the bound is never exceeded |
| Property.Lerp | Runtime/Extensions/TweenFactory.cs:19 | `Mathf.LerpUnclamped` on floats: `a + (b - a) * t`, not clamped to [0, 1]; `Property.LerpEnds` gives its endpoints |
| Property.LerpEnds | Runtime/Extensions/TweenFactory.cs:19 | `LerpUnclamped` gives the start at 0 and the end at 1 |
| Property.Fresh | Runtime/Tweens/PropertyTween.cs:92 | A new instance is not pooled, has no steps and no closures |
| Property.Reset | Runtime/Tweens/PropertyTween.cs:25-45 | After the rental reset the instance holds exactly the given closures and end value, relative off, no From, no delta, one step of `max(Epsilon, duration)` with the start hook, a reset playhead and configuration; only `_start`/`_end` survive |
| Property.SetRelative | Runtime/Core/TweenActionCore.cs:202-209 | Only the main step carries `ConfigRelative`, so the flag changes exactly when the main step is the only step; with no step, or after an appended interval or callback step, nothing changes |
| Property.SetFrom | Runtime/Core/TweenActionCore.cs:211-254 | Only the main step carries `ConfigFrom`, so the From instruction changes exactly when the main step is the only step; otherwise nothing changes |
| Property.IncFactor | Runtime/Tweens/PropertyTween.cs:116 | `LoopsDone + 1` for Incremental loops, otherwise 1 |
| Property.OnStartStep | Runtime/Tweens/PropertyTween.cs:106-171 | The delta is cached on the first non-relative start with `sub` and kept afterwards. The start is the From value (written), the provisional end plus the offset (written, when `add` exists) or the current value (no write). The end is `start + baseEnd * factor` (relative with add and mul), `baseEnd + delta * LoopsDone` (absolute Incremental with a cached delta) or `baseEnd` |
| Property.Interpret | Runtime/Tweens/PropertyTween.cs:94-104 | Starts of the main step run the start hook on the current value and its applications write through the setter. Effects of later interval or callback steps, like all other effects, pass through without touching the instance or the value. Closures are kept and a cached delta is never recomputed |
| Property.ApplyWritesLerp | Runtime/Tweens/PropertyTween.cs:98 | Applying the main step at progress p writes `lerp(start, end, ease(p))` and changes nothing else |
| Property.Rent | Runtime/Tweens/PropertyTween.cs:13-47 | Reuses the top of the free list (or a new instance), resets it as `Reset` states, leaves every other instance untouched, and keeps the pool well formed |
| Property.Kept | Runtime/Tweens/PropertyTween.cs:51 | `Release` only pauses exactly when AutoKill is off, the tween is not killed and its target is not null under Unity's rules |
| Property.Release | Runtime/Tweens/PropertyTween.cs:49-71 | A kept tween (AutoKill off, not killed, live target) is only paused and keeps its closures. An already pooled one is untouched. Otherwise it is marked pooled, all six closures are dropped, and it is pushed only below 256 |
| Property.Perform | Runtime/Tweens/PropertyTween.cs:49-71 | Installs the core state and performs Release only when the core asked for it; the pool stays well formed. Closures are needed only by a trace with main-step effects. An already pooled instance that `Release` would not pause, given such an inert trace, gets only its core state: free list, value and effects are as before |
| Property.Update | Runtime/Core/TweenActionCore.cs:437-457 | A tick reports the core's liveness and keeps the pool well formed; a released instance can be ticked when the tick does not reach the main step. A killed tween's tick returns false and starts with the Release call; when the user's `Complete` already pooled it, nothing else happens. A pooled instance's tick leaves the free list and the value alone and has only the core's effects |
| PropertyProps.LastApplyWins | Runtime/Tweens/PropertyTween.cs:94-104 | Over any run of effects that does not restart the main step, the value left is the lerp of the last main-step application: interval and callback steps in between never write the property |
| PropertyProps.IntervalEndsConfiguration | Runtime/Core/TweenActionCore.cs:202-256 | Once an interval follows the main step, `SetRelative` and `From*` change nothing |
| PropertyProps.ResurrectedTickIsBenign | Runtime/Core/TweenActionCore.cs:503-545 | A tween pooled by finishing its last loop is not killed; if re-registered, its next tick finishes again without reaching the main step, returns false, leaves the free list alone and writes nothing |
| PropertyProps.RentForgetsPreviousRental | Runtime/Tweens/PropertyTween.cs:25-45 | Two rentals with equal arguments from any two pools give instances differing at most in the stale `_start`/`_end`, with the same effects |
| PropertyProps.StartIgnoresLeftovers | Runtime/Tweens/PropertyTween.cs:134-170 | The start hook overwrites `_start` and `_end`, so their old values never matter |
| PropertyProps.RentedStartsAlike | Runtime/Tweens/PropertyTween.cs:25-45 | The first start of a rented instance is the same whatever pool it came from |
| PropertyProps.ReleaseIdempotent | Runtime/Tweens/PropertyTween.cs:51-58 | A second Release changes nothing and performs nothing |
| PropertyProps.ReleaseThenRentReuses | Runtime/Tweens/PropertyTween.cs:25-70 | An instance pooled below the bound is the next one rented, and the free list returns to what it was |
| PropertyProps.DeltaCachedOnce | Runtime/Tweens/PropertyTween.cs:110-114 | The first start caches `baseEnd - current`; a later start with any value keeps it |
| PropertyProps.RelativeIncrementalExample | Runtime/Tweens/PropertyTween.cs:116-160 | Relative Incremental with end 10 from 0: loop 1 is 0→10, loop 2 is 10→30 |
| PropertyProps.AbsoluteIncrementalStaircase | Runtime/Tweens/PropertyTween.cs:110-167 | Absolute Incremental: loop k ends at `baseEnd + k * delta` and consecutive ends differ by the first start's distance |
| PropertyProps.RelativeRestartMovesByBaseEnd | Runtime/Tweens/PropertyTween.cs:157-163 | Relative without Incremental: the end is always the start plus `baseEnd` |
| Sequence.Place | Runtime/Sequences/TweenSequence.cs:77-82 | A placed child ends its duration after its start and has fired neither way |
| Sequence.Later | Runtime/Sequences/TweenSequence.cs:95-98 | Moving an item shifts start and end by the same amount and keeps its content and flags |
| Sequence.Shift | Runtime/Sequences/TweenSequence.cs:95-98 | Every item moved by the same amount, in order |
| Sequence.Played | Runtime/Core/TweenActionCore.cs:146 | The builders' `Play()` changes only the core, as `Autoplay` does |
| Sequence.Append | Runtime/Sequences/TweenSequence.cs:69-87 | Null child: no-op. Otherwise the child is placed at the old duration, the Join anchor moves there, the duration grows by the child's, and the layout stays within the timeline |
| Sequence.Prepend | Runtime/Sequences/TweenSequence.cs:89-112 | Null child: no-op. Otherwise the child takes `[0, d]`, every old item and the Join anchor move d later, and the duration grows by d |
| Sequence.Join | Runtime/Sequences/TweenSequence.cs:114-131 | Null child: no-op. Otherwise the child starts at the Join anchor, the duration becomes `max(duration, anchor + d)`, and the anchor is kept |
| Sequence.Insert | Runtime/Sequences/TweenSequence.cs:133-150 | Null child: no-op. Otherwise the child starts at `max(0, at)`, the duration becomes `max(duration, start + d)`, and the Join anchor is kept |
| Sequence.AppendInterval | Runtime/Sequences/TweenSequence.cs:152-159 | The duration grows by the gap (negatives as 0), items are kept, and the Join anchor moves to the gap's start |
| Sequence.PrependInterval | Runtime/Sequences/TweenSequence.cs:161-172 | Every item, the duration and the Join anchor move later by the gap (negatives as 0) |
| Sequence.AppendCallback | Runtime/Sequences/TweenSequence.cs:174-191 | Null callback: no-op. Otherwise a zero-length callback item at the current end; the duration and Join anchor are unchanged |
| Sequence.Local | Runtime/Sequences/TweenSequence.cs:291 | The local time lies in `[0, child duration]`: 0 before the child, its duration after it, and the offset into it in between |
| Sequence.Scrub | Runtime/Sequences/TweenSequence.cs:285-294 | A scrub only seeks children: it never fires a callback item |
| Sequence.ScrubSeeks | Runtime/Sequences/TweenSequence.cs:287-293 | Every child is sought to its clamped local time |
| Sequence.ScrubOnly | Runtime/Sequences/TweenSequence.cs:287-293 | Every seek a scrub makes is some child's seek to its own local time |
| Sequence.RewindChildren | Runtime/Sequences/TweenSequence.cs:338-339 | Exactly the children, and no callback item, are rewound |
| Sequence.Fires | Runtime/Sequences/TweenSequence.cs:305-313 | A callback fires forward iff its forward flag is clear and the crossing goes from strictly before its offset to at or past it; backward iff its backward flag is clear and the crossing goes from strictly after to at or before it. Nested children never fire |
| Sequence.Mark | Runtime/Sequences/TweenSequence.cs:305-316 | Sets the fired flag of one direction and keeps the other |
| Sequence.Invoked | Runtime/Sequences/TweenSequence.cs:299-319 | The callback loop invokes only callbacks of the items it walks, in the crossing's direction |
| Sequence.Invoke | Runtime/Sequences/TweenSequence.cs:299-319 | A callback item is marked in the crossing's direction exactly when the crossing fires it (unfired that way, strictly crossed: `prev < start <= now` forward, mirrored backward); every other item is unchanged |
| Sequence.InvokeOnce | Runtime/Sequences/TweenSequence.cs:299-319 | Each callback is invoked exactly once if the crossing fires it and never otherwise |
| Sequence.EvaluateCross | Runtime/Sequences/TweenSequence.cs:296-320 | Every child is sought to `now`, then each callback fires once if it is crossed and unfired in that direction and is marked, otherwise it is untouched |
| Sequence.ResetFlags | Runtime/Sequences/TweenSequence.cs:346-353 | Every item keeps everything but its two fired flags, which are cleared |
| Sequence.Goto | Runtime/Sequences/TweenSequence.cs:207-218 | The time becomes `clamp(t, 0, duration)`. Every child is sought there. Loops, direction and delay are reset by the core's `Goto(0)`. Paused iff not `play`. No callback, completion or Release |
| Sequence.Rewind | Runtime/Sequences/TweenSequence.cs:194-205 | The time is 0, every flag is cleared and every child is sought to 0. Paused iff not `play`. With no raw steps the core's playhead (loops, direction) is untouched |
| Sequence.Conclude | Runtime/Core/TweenActionCore.cs:423-433 | Killed and released iff AutoKill, otherwise paused and stopped; completion callback iff asked and set |
| Sequence.Complete | Runtime/Sequences/TweenSequence.cs:220-228 | The time is the duration, the items are kept, killed iff AutoKill and otherwise stopped and paused, and the sequence stays valid |
| Sequence.CompleteEffects | Runtime/Sequences/TweenSequence.cs:220-228 | Every child is sought to its own end, Release iff AutoKill, the completion callback iff asked and set, and no callback item fires |
| Sequence.HandleLoopBoundary | Runtime/Sequences/TweenSequence.cs:322-344 | Stops iff the loops are exhausted. Otherwise it counts a loop and clears every flag. Yoyo flips direction, jumps to the end it reached and leaves the children alone. Other types rewind every child and restart forward at 0 |
| Sequence.Boundary | Runtime/Sequences/TweenSequence.cs:253-280 | Reaching an end crosses to it; the sequence finishes (with Release, completion only forward) iff the loops are exhausted |
| Sequence.Scaled | Runtime/Sequences/TweenSequence.cs:241 | A non-negative tick at non-negative speed is non-negative |
| Sequence.Target | Runtime/Sequences/TweenSequence.cs:251 | A non-negative tick moves the clock forward when playing forward and backward otherwise |
| Sequence.Advance | Runtime/Sequences/TweenSequence.cs:265-279 | The clock moves to t, every child is sought there, and each callback fires once iff crossed and unfired in that direction |
| Sequence.Run | Runtime/Sequences/TweenSequence.cs:250-282 | Inside the timeline the clock advances; at or past an end it is clamped to that end and loops or finishes |
| Sequence.Clock | Runtime/Sequences/TweenSequence.cs:241-282 | While the delay lasts only `delayElapsed` grows; afterwards the clock runs by `dt * direction`; for a non-negative tick the time stays within `[0, duration]` |
| Sequence.UpdateTween | Runtime/Sequences/TweenSequence.cs:230-283 | Killed: not alive with Release. Paused: alive, unchanged. No raw steps and unpaused: not alive with Release. Duration, items and pool flag are kept, and the time stays in range |
| Sequence.Blank | Runtime/Sequences/TweenSequence.cs:31-36 | A rented sequence is valid, with no items, no steps, no target, duration and time 0 |
| Sequence.Rent | Runtime/Sequences/TweenSequence.cs:28-38 | Reuses the top of the free list or a new instance, resets it to `Blank`, leaves the others untouched |
| Sequence.Release | Runtime/Sequences/TweenSequence.cs:40-56 | AutoKill off and not killed (whatever the target): only paused. Already pooled: untouched. Otherwise pooled once with its items dropped, pushed only below 64 |
| Sequence.Commit | Runtime/Sequences/TweenSequence.cs:40-56 | Stores the new state and performs Release exactly when the operation asked for it |
| Sequence.Update | Runtime/Sequences/TweenSequence.cs:230-283 | A tick of a pooled sequence reports `UpdateTween`'s liveness and keeps the pool well formed |
| Sequence.CompleteIn | Runtime/Sequences/TweenSequence.cs:220-228 | With AutoKill the completed sequence ends pooled with no items; otherwise it is `Complete`'s result |
| SequenceProps.AppendsGrow | Runtime/Sequences/TweenSequence.cs:69-87 | Appending children keeps the items already placed, adds one per child, grows the duration by their total and leaves the Join anchor on the last one's start |
| SequenceProps.AppendsTile | Runtime/Sequences/TweenSequence.cs:69-87 | Appended children tile the timeline: child k starts at the old end plus the durations of those appended before it |
| SequenceProps.JoinIgnoresInsert | Runtime/Sequences/TweenSequence.cs:114-150 | A child joined after an Insert starts with the last appended child, not the inserted one |
| SequenceProps.JoinAfterInterval | Runtime/Sequences/TweenSequence.cs:152-159 | A child joined after an interval starts where the interval starts |
| SequenceProps.ShiftedScrub | Runtime/Sequences/TweenSequence.cs:285-294 | Shifting every item by d and seeking d later drives every child identically |
| SequenceProps.PrependDelaysChildren | Runtime/Sequences/TweenSequence.cs:89-112 | After a Prepend, seeking d later drives every old child exactly as before |
| SequenceProps.FiresAtMostOnce | Runtime/Sequences/TweenSequence.cs:296-320 | Over any run of crossings without a flag reset each callback fires at most once per direction, and never in a direction it already fired in |
| SequenceProps.ResetRearms | Runtime/Sequences/TweenSequence.cs:346-353 | After a reset a callback fires on any strict crossing of its offset |
| SequenceProps.LandingDoesNotFire | Runtime/Sequences/TweenSequence.cs:207-218 | A Goto onto a callback's offset does not fire it, nor does the forward tick leaving from there |
| SequenceProps.CrossingFires | Runtime/Sequences/TweenSequence.cs:303-309 | A forward tick from before an unfired callback to at or past it fires it once and marks it |
| SequenceProps.SequenceLoopCount | Runtime/Sequences/TweenSequence.cs:322-327 | With Loops = N the sequence survives a boundary while fewer than N loops have begun, each counting one loop; with -1 always |
| SequenceProps.YoyoTwiceRestoresDirection | Runtime/Sequences/TweenSequence.cs:331-336 | Two Yoyo bounces restore the direction, touch no child, count two loops and end at time 0 |
| SequenceProps.BuiltSequenceEvictedOnFirstTick | Runtime/Sequences/TweenSequence.cs:230-233 | A rented sequence with an appended child is playing, yet its first tick returns false and pools it with its items dropped |
| SequenceProps.RentResetsCompletely | Runtime/Sequences/TweenSequence.cs:28-38 | Every rental yields the same sequence whatever the pool held |
| SequenceProps.ReleaseIdempotent | Runtime/Sequences/TweenSequence.cs:42-49 | A second Release changes nothing and performs nothing |
| Manager.GetList | Runtime/Core/TweenManager.cs:94-106 | Each (update type, unscaled) pair selects one of the six lists; `Manager.SetList` shows the six are distinct |
| Manager.SetList | Runtime/Core/TweenManager.cs:94-106 | The six (type, scale) pairs name six distinct lists: replacing one leaves the other five as they were |
| Manager.AddTween | Runtime/Core/TweenManager.cs:42-50 | Null is ignored. Otherwise the tween ends in its own list, appended only if absent, and the other lists are unchanged. Lists without duplicates stay so |
| Manager.RemoveFirst | Runtime/Core/TweenManager.cs:54 | `List.Remove` leaves a list without the element untouched and otherwise shortens it by one |
| Manager.RemoveFirstCount | Runtime/Core/TweenManager.cs:54 | Exactly one occurrence of the element is removed and the other contents are kept (multiset difference) |
| Manager.RemoveFirstAt | Runtime/Core/TweenManager.cs:54 | The occurrence removed is the first one |
| Manager.RemoveFirstGone | Runtime/Core/TweenManager.cs:54 | In a list without duplicates the element is gone afterwards |
| Manager.RemoveTween | Runtime/Core/TweenManager.cs:52-55 | Only the named list changes, by removing the tween's first occurrence |
| Manager.ChangeUpdateType | Runtime/Core/TweenManager.cs:57-61 | The tween ends in the list of its current type and scale and, if that differs, no longer in the old one; every other list is unchanged |
| Manager.SurvivorsExactly | Runtime/Core/TweenManager.cs:69-92 | The survivors of a pass are exactly the entries that are non-null, not dead and whose tick returned true |
| Manager.UpdateList | Runtime/Core/TweenManager.cs:69-92 | The backward in-place removal leaves the front-to-back filter of staying entries, in their original order. Its calls are, entry by entry from the back: Release for a dead tween, tick for a live one, then Release if the tick returned false |
| Manager.Update | Runtime/Core/TweenManager.cs:63-67 | Only the phase's scaled list (with the scaled tick) and unscaled list (with the unscaled tick) change; the other four lists are untouched |
| Manager.Matches | Runtime/Core/TweenManager.cs:203-204 | A tween matches iff the target filter is null (under Unity's rules) or names the tween's target, and the id filter is null or equals the tween's id |
| Manager.Unmatched | Runtime/Core/TweenManager.cs:196-216 | With both filters null (after the target check), no entry is kept |
| Manager.UnmatchedExactly | Runtime/Core/TweenManager.cs:196-216 | A kill pass keeps exactly the non-null entries the filter does not match |
| Manager.KillInList | Runtime/Core/TweenManager.cs:196-216 | The backward in-place removal keeps exactly the unmatched non-null entries. Each matched tween is completed (or killed), from the back |
| Manager.Filtered | Runtime/Core/TweenManager.cs:135-169 | Every list is filtered the same way |
| Manager.KillEverywhere | Runtime/Core/TweenManager.cs:150-155 | Each of the six lists is filtered in turn and the calls are logged in that order |
| Manager.Kill | Runtime/Core/TweenManager.cs:145-156 | A null or destroyed target kills nothing. Otherwise every tween on the target leaves every list and `IsTweening(target)` becomes false |
| Manager.KillId | Runtime/Core/TweenManager.cs:158-169 | A null id kills nothing. Otherwise every tween with that id leaves every list and `IsTweeningId(id)` becomes false |
| Manager.KillAll | Runtime/Core/TweenManager.cs:135-143 | Every list ends empty |
| Manager.Exists | Runtime/Core/TweenManager.cs:191-194 | True iff some non-null entry satisfies the predicate |
| Manager.FindInAnyList | Runtime/Core/TweenManager.cs:181-189 | True iff some non-null entry of some list satisfies the predicate |
| Manager.IsTweening | Runtime/Core/TweenManager.cs:171-174 | True iff some registered tween's target equals the query under Unity's `==` (a null query finds tweens whose target is gone) |
| Manager.IsTweeningId | Runtime/Core/TweenManager.cs:176-179 | True iff some registered tween's id equals the query |
| Manager.NoneLeft | Runtime/Core/TweenManager.cs:145-169 | After a targeted kill no remaining tween matches the target, or the id |
| ManagerProps.AddTweenIdempotent | Runtime/Core/TweenManager.cs:42-50 | Registering twice is registering once |
| ManagerProps.RegisteredOnce | Runtime/Core/TweenManager.cs:47-49 | After registration the tween occurs exactly once in its list |
| ManagerProps.RegisteredIsTweening | Runtime/Core/TweenManager.cs:42-50 | A registered tween is found by `IsTweening` on its target and `IsTweeningId` on its id |
| ManagerProps.MovedOnce | Runtime/Core/TweenManager.cs:57-61 | A moved tween is exactly once in its new list and absent from its old one |
| ManagerProps.ReleasedIff | Runtime/Core/TweenManager.cs:69-92 | A pass releases a tween iff it is in the list and does not stay |
| ManagerProps.ReleasedOnce | Runtime/Core/TweenManager.cs:75-89 | Without duplicates each evicted tween is released exactly once and a surviving one never |
| ManagerProps.TickedIff | Runtime/Core/TweenManager.cs:75-84 | A pass ticks a tween iff it is in the list and not dead |
| ManagerProps.SurvivesOrReleased | Runtime/Core/TweenManager.cs:69-92 | Every registered tween either survives the pass or is released, never both |
| ManagerProps.KillCallsExactly | Runtime/Core/TweenManager.cs:196-216 | A kill pass completes (or kills) a tween iff it is listed and matched, and makes no other call (no tick, no Release) |
| ManagerProps.KilledOnce | Runtime/Core/TweenManager.cs:206-214 | Without duplicates each matched tween is completed (or killed) exactly once |
| ManagerProps.KeptOrKilled | Runtime/Core/TweenManager.cs:196-216 | Every listed tween is either kept by a kill pass or receives its call, never both |

## Left out

- The host plumbing is not modelled: `TweenManager.EnsureRunner`, the `Instance` singleton and `TweenRunner`'s frame hooks. The scheduler is an explicit value and each phase's tick is a call of `Manager.Update`.
- The easing curves of `CurvesType` are not modelled, because they are transcendental floating-point math. An ease is an identity in steps and an uninterpreted `real -> real` where a value is computed.
- IEEE float rounding is not modelled. Times and values are `real`.
- `PropertyTween<T>` is modelled only for `T = float` with the operators `TweenFactory.To` passes. The Vector3 and Quaternion instantiations and the Transform, CanvasGroup and Graphic glue are not modelled.
- `Property.Perform` requires live closures whenever the trace starts or applies the main step. On a released instance (a stale reference `Rewind`, `Restart` or `Goto` on, say), the source's `OnStartStep` calls the nulled `_getter` (`PropertyTween.cs:108`) and throws `NullReferenceException`, and an application calls the nulled `_setter`. That crash is not modelled.
- `Property.Interpret` treats every step after the first as one whose closures are not the instance's: the interval and callback steps of `AppendInterval`/`AppendCallback`, whose start is the user's callback and whose apply does nothing. A step a caller adds through the public `AddStep` with its own `configFrom`/`configRelative` closures is not modelled; those closures would receive `SetRelative`/`From*` in place of the main step.
- `Property.SetFrom` models only the `float` overloads of `From`/`FromRelative`. The core's `Vector3` overloads (`TweenActionCore.cs:211-236`) can also be called on a float tween; its start hook then casts the stored value with `(T)_from.Value` (`PropertyTween.cs:139, 146`), which throws `InvalidCastException`. `FromMode` carries only `real`, so that error path is not modelled.
- The legacy engine (`TweenAction`, `Tween`, `TweenExtensions`, `TweenUpdater`) is not modelled. It is not referenced by this path.
- User callbacks, getters, setters and child tweens are not executed. A call on them is a trace event. Re-entrant effects are not modelled: a callback that kills or registers tweens while `UpdateList` or `KillInList` iterates.
- `Manager.UpdateList`: the outcome of each tween's own `UpdateTween` is a parameter (`step`). It is fixed per handle within one pass. The tween's state change is modelled separately by `ActionCore.UpdateTween`, `Property.Update` and `Sequence.Update`.
- `Manager.GetList`: the default arm `_ => _updateScaled` cannot be reached, because `UpdateType` has exactly three values here.
- `Sequence.Child`: a child's duration is captured when it is placed. A later change to a child's duration is not seen by the timeline.
- `ActionCore.UpdateTween` and the other update functions require the playhead invariant `Valid`. States the source could reach only by writing the public `direction` or `delayElapsed` properties directly are not modelled.
- `ActionCore.PlayForward` does not keep `Valid` at index -1, where a backward tick that runs off the first step leaves the playhead (`CoreProps.PlayForwardBeforeStart`). From there the source's next forward tick calls `PrepareStepStart(-1)`, which reads `Steps[-1]` and throws `ArgumentOutOfRangeException`. The update functions require `Valid`, so this crash is not modelled.
- `ActionCore.PlayBackwards` requires a playhead that is not at index -1 with no time elapsed. In that state the source would read `Steps[-1]`.
- `ActionCore.PlayFromEnd` requires at least one step. The source reads `Steps[Count - 1]`.
- `ResetSteps` and `ApplyStepAt` are folded into their callers: clearing the `started` set, and a `StepApplied` event.
