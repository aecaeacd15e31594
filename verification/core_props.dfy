/** Properties of the step sequencer that relate several calls: the duration as a
    sum, seeking versus ticking, loop counting, and the reset round trip. */
module CoreProps {
  import opened Common
  import opened Events
  import opened ActionCore

  // ---- Duration ----

  /** Reference definition: the step durations summed from the front. */
  function SumDurations(steps: seq<Step>): real
  {
    if |steps| == 0 then 0.0 else steps[0].duration + SumDurations(steps[1..])
  }

  lemma {:induction false} DurationCons(steps: seq<Step>)
    requires |steps| > 0
    ensures Duration(steps) == steps[0].duration + Duration(steps[1..])
    decreases |steps|
  {
    if |steps| > 1 {
      var init := steps[..|steps| - 1];
      DurationCons(init);
      assert init[1..] == steps[1..][..|steps[1..]| - 1];
    } else {
      assert steps[..0] == [] && steps[1..] == [];
    }
  }

  /** `Duration` is the sum of the step durations. */
  lemma {:induction false} DurationIsSum(steps: seq<Step>)
    ensures Duration(steps) == SumDurations(steps)
    decreases |steps|
  {
    if |steps| > 0 {
      DurationCons(steps);
      DurationIsSum(steps[1..]);
    }
  }

  /** A tween with a step has a positive duration, since every step lasts at least `Epsilon`. */
  lemma DurationPositive(steps: seq<Step>)
    requires StepsWellFormed(steps) && |steps| > 0
    ensures Duration(steps) >= Epsilon > 0.0
  {
    DurationAtLeast(steps);
    assert (|steps| as real) * Epsilon >= 1.0 * Epsilon;
  }

  // ---- Seeking and ticking agree ----

  /** `(i, e)` is the playhead form of time `p`: inside step `i` after `e`
      seconds, or past the end with nothing elapsed. */
  ghost predicate Decomposes(steps: seq<Step>, i: int, e: real, p: real)
  {
    && 0 <= i <= |steps|
    && (i < |steps| ==> 0.0 <= e < steps[i].duration)
    && (i == |steps| ==> e == 0.0)
    && Duration(steps[..i]) + e == p
  }

  /** A time has exactly one playhead form. */
  lemma {:induction false} DecompositionUnique(steps: seq<Step>, i: int, e: real, j: int, f: real, p: real)
    requires StepsWellFormed(steps)
    requires Decomposes(steps, i, e, p) && Decomposes(steps, j, f, p)
    ensures i == j && e == f
  {
    if i < j {
      DurationSnoc(steps, i);
      DurationPrefixMono(steps, i + 1, j);
    } else if j < i {
      DurationSnoc(steps, j);
      DurationPrefixMono(steps, j + 1, i);
    }
  }

  /** The time a playhead stands at. */
  function Position(steps: seq<Step>, h: Head): real
    requires 0 <= h.index <= |steps|
  {
    Duration(steps[..h.index]) + h.elapsed
  }

  /** Seeking to the time of a playhead form lands on exactly that form. */
  lemma SeekAt(steps: seq<Step>, i: nat, e: real, delay: real)
    requires StepsWellFormed(steps) && i <= |steps|
    requires i < |steps| ==> 0.0 <= e < steps[i].duration
    requires i == |steps| ==> e == 0.0
    ensures var m := SeekTo(steps, Duration(steps[..i]) + e, delay);
      m.head.index == i && m.head.elapsed == e
  {
    var p := Duration(steps[..i]) + e;
    assert steps[..|steps|] == steps;
    DurationPrefixMono(steps, 0, i);
    assert steps[..0] == [];
    if i < |steps| {
      DurationSnoc(steps, i);
      DurationPrefixMono(steps, i + 1, |steps|);
    }
    var m := SeekTo(steps, p, delay);
    SeekLands(steps, p, delay);
    assert Decomposes(steps, i, e, p);
    assert Decomposes(steps, m.head.index, m.head.elapsed, p);
    DecompositionUnique(steps, i, e, m.head.index, m.head.elapsed, p);
  }

  /** Seeking to a time inside step `i` lands `e` into that step and applies its progress last. */
  lemma SeekInside(steps: seq<Step>, i: nat, e: real, delay: real)
    requires StepsWellFormed(steps) && i < |steps| && 0.0 <= e < steps[i].duration
    ensures var m := SeekTo(steps, Duration(steps[..i]) + e, delay);
      && m.head.index == i && m.head.elapsed == e
      && m.trace != [] && m.trace[|m.trace| - 1] == StepApplied(i, e / steps[i].duration)
  {
    SeekAt(steps, i, e, delay);
  }

  /** A forward tick that stays inside the current step lands exactly where a
      seek to the advanced time lands, and applies the same progress last. */
  lemma TickMatchesSeek(c: Core, dt: real)
    requires Valid(c) && c.head.direction == 1 && 0 <= c.head.index < |c.steps|
    requires 0.0 <= c.head.elapsed && 0.0 <= dt
    requires c.head.elapsed + dt < c.steps[c.head.index].duration
    ensures var r := UpdateForward(c, dt);
      var m := SeekTo(c.steps, Position(c.steps, c.head) + dt, c.cfg.delay);
      && r.core.head.index == m.head.index && r.core.head.elapsed == m.head.elapsed
      && r.trace[|r.trace| - 1] == m.trace[|m.trace| - 1]
  {
    var i := c.head.index;
    var e := c.head.elapsed + dt;
    assert Position(c.steps, c.head) + dt == Duration(c.steps[..i]) + e;
    SeekInside(c.steps, i, e, c.cfg.delay);
    Fraction(e, c.steps[i].duration);
  }

  /** A time inside a step is a progress fraction below 1. */
  lemma Fraction(x: real, d: real)
    requires 0.0 <= x < d
    ensures 0.0 <= x / d < 1.0 && Clamp01(x / d) == x / d
  {
  }

  /** A forward tick that reaches the end of its step stops exactly at that end:
      the surplus of the tick is dropped, not carried into the next step. */
  lemma TickStopsAtStepEnd(c: Core, dt: real)
    requires Valid(c) && c.head.direction == 1 && 0 <= c.head.index < |c.steps|
    requires c.head.elapsed + dt >= c.steps[c.head.index].duration
    ensures var r := UpdateForward(c, dt);
      var m := SeekTo(c.steps, Duration(c.steps[..c.head.index + 1]), c.cfg.delay);
      && r.core.head.index == m.head.index && r.core.head.elapsed == m.head.elapsed
      && Position(c.steps, r.core.head) == Duration(c.steps[..c.head.index + 1])
  {
    var i := c.head.index;
    if i + 1 < |c.steps| {
      assert c.steps[i + 1].duration >= Epsilon;
    }
    SeekAt(c.steps, i + 1, 0.0, c.cfg.delay);
    assert Duration(c.steps[..i + 1]) + 0.0 == Duration(c.steps[..i + 1]);
  }

  /** A backward tick moves the playhead back by the tick, or, when it reaches the
      start of its step, exactly to that start (written as the end of the
      previous step); it never moves further back than the tick. */
  lemma BackwardTickPosition(c: Core, dt: real)
    requires Valid(c) && c.head.direction == -1 && 0 < c.head.index < |c.steps|
    ensures var r := UpdateBackward(c, dt);
      && 0 <= r.core.head.index <= |c.steps|
      && (c.head.elapsed - dt > 0.0 ==>
            Position(c.steps, r.core.head) == Position(c.steps, c.head) - dt)
      && (c.head.elapsed - dt <= 0.0 ==>
            Position(c.steps, r.core.head) == Duration(c.steps[..c.head.index])
            && Position(c.steps, r.core.head) >= Position(c.steps, c.head) - dt)
  {
    DurationSnoc(c.steps, c.head.index - 1);
  }

  /** A backward tick that runs off the first step leaves the tween alive at
      index -1; `PlayForward` then turns it round in place, which is not a state
      `UpdateForward` can play: the source's next tick reads `Steps[-1]`. */
  lemma PlayForwardBeforeStart(c: Core, deltaTime: real)
    requires Valid(c) && !c.killed && !c.paused && |c.steps| > 0
    requires c.head.direction == -1 && c.head.index == 0
    requires c.head.delayElapsed >= c.cfg.delay
    requires c.head.elapsed - deltaTime * c.cfg.speed <= 0.0
    ensures var t := UpdateTween(c, deltaTime);
      && t.alive && t.core.head.index == -1 && t.core.head.direction == -1
      && !Valid(PlayForward(t.core).core)
  {
  }

  // ---- Loop counting ----

  /** `k` successive loop boundaries, each reached in the direction the playhead
      is moving (forward ends call `HandleLoopOrFinish(true)`, backward ends
      `false`), stopping at the boundary that finishes the tween. Between two
      boundaries the step updates leave the loop counter and settings alone
      (see `UpdateForward` and `UpdateBackward`). */
  function Boundaries(c: Core, k: nat): (r: Tick)
    requires Valid(c) && |c.steps| > 0
    ensures Valid(r.core) && r.core.cfg == c.cfg && r.core.steps == c.steps
    decreases k
  {
    if k == 0 then Tick(c, true, [])
    else
      var b := HandleLoopOrFinish(c, c.head.direction == 1);
      if !b.alive then b
      else
        var rest := Boundaries(b.core, k - 1);
        Tick(rest.core, rest.alive, b.trace + rest.trace)
  }

  /** Loops = N (Restart or Incremental): the first N - 1 boundaries each count one
      loop and keep the tween alive without the completion callback; the N-th
      finishes it and runs the completion callback exactly once. */
  lemma {:induction false} LoopCount(c: Core, k: nat)
    requires Valid(c) && |c.steps| > 0 && c.head.direction == 1
    requires c.cfg.loopType != Yoyo && c.cfg.loops >= 1 && c.head.loopsDone < c.cfg.loops
    requires c.head.loopsDone + k <= c.cfg.loops
    ensures var r := Boundaries(c, k);
      && (c.head.loopsDone + k < c.cfg.loops ==>
            r.alive && r.core.head.loopsDone == c.head.loopsDone + k && r.core.head.direction == 1
            && Hooked(OnComplete) !in r.trace)
      && (c.head.loopsDone + k == c.cfg.loops ==>
            !r.alive
            && Occurrences(r.trace, Hooked(OnComplete)) == (if OnComplete in c.cfg.hooks then 1 else 0))
    decreases k
  {
    if k > 0 {
      var b := HandleLoopOrFinish(c, true);
      if b.alive {
        LoopCount(b.core, k - 1);
        var rest := Boundaries(b.core, k - 1);
        OccurrencesAppend(b.trace, rest.trace, Hooked(OnComplete));
      } else {
        OccurrencesAppend(Fire(c, OnComplete), [ReleaseCalled], Hooked(OnComplete));
      }
    }
  }

  /** Three loops: two boundaries pass silently, the third completes once. */
  lemma ThreeLoops(c: Core)
    requires Valid(c) && |c.steps| > 0 && c.head.direction == 1 && c.head.loopsDone == 0
    requires c.cfg.loopType == LoopType.Restart && c.cfg.loops == 3 && OnComplete in c.cfg.hooks
    ensures Boundaries(c, 2).alive && Hooked(OnComplete) !in Boundaries(c, 2).trace
    ensures !Boundaries(c, 3).alive && Occurrences(Boundaries(c, 3).trace, Hooked(OnComplete)) == 1
  {
    LoopCount(c, 2);
    LoopCount(c, 3);
  }

  /** Loops = -1: every boundary counts a loop and the tween never completes. */
  lemma {:induction false} InfiniteLoopsNeverComplete(c: Core, k: nat)
    requires Valid(c) && |c.steps| > 0 && c.cfg.loops == -1
    ensures var r := Boundaries(c, k);
      r.alive && r.core.head.loopsDone == c.head.loopsDone + k && Hooked(OnComplete) !in r.trace
    decreases k
  {
    if k > 0 {
      InfiniteLoopsNeverComplete(HandleLoopOrFinish(c, c.head.direction == 1).core, k - 1);
    }
  }

  /** Yoyo with an even loop count ends on a backward pass, so the completion
      callback never runs: two loops bounce once and finish going backward. */
  lemma YoyoTwoLoopsNeverComplete(c: Core)
    requires Valid(c) && |c.steps| > 0 && c.head.direction == 1 && c.head.loopsDone == 0
    requires c.cfg.loopType == Yoyo && c.cfg.loops == 2
    ensures Boundaries(c, 1).alive && Boundaries(c, 1).core.head.direction == -1
    ensures !Boundaries(c, 2).alive && Hooked(OnComplete) !in Boundaries(c, 2).trace
  {
    var b := HandleLoopOrFinish(c, true);
    assert Boundaries(b.core, 1) == HandleLoopOrFinish(b.core, false);
  }

  /** The Yoyo bounce at the forward end keeps the start flags, so once a forward
      pass has started every step, the bounce and every backward update run no
      start hook; a Restart boundary clears them, so the next forward update
      re-runs the first step's start hook. */
  lemma StartHooksAcrossBoundaries(c: Core, dt: real)
    requires Valid(c) && |c.steps| > 0 && c.head.direction == 1 && c.head.index == |c.steps|
    requires !Exhausted(c.cfg.loops, c.head.loopsDone)
    requires forall j :: 0 <= j < |c.steps| ==> j in c.head.started
    ensures c.cfg.loopType == Yoyo ==>
              var b := HandleLoopOrFinish(c, true);
              b.trace == [] && forall e :: e in UpdateBackward(b.core, dt).trace ==> !e.StepStarted?
    ensures c.cfg.loopType == LoopType.Restart && c.steps[0].hasStart ==>
              var b := HandleLoopOrFinish(c, true);
              UpdateForward(b.core, dt).trace[0] == StepStarted(0, c.head.loopsDone + 1)
  {
  }

  // ---- Reset round trip ----

  /** Rewinding, seeking to the end and rewinding again returns to exactly the
      state of the first rewind, re-applying progress 0 to the first step. */
  lemma RewindGotoRewind(c: Core)
    requires Valid(c) && |c.steps| > 0
    ensures var r1 := Rewind(c, false);
      var r2 := Goto(r1.core, Duration(c.steps), false);
      var r3 := Rewind(r2.core, false);
      && r3.core == r1.core
      && StepApplied(0, 0.0) in r3.trace
      && Hooked(OnPause) !in r3.trace
  {
    var r1 := Rewind(c, false);
    var r2 := Goto(r1.core, Duration(c.steps), false);
    var r3 := Rewind(r2.core, false);
    assert r2.core.paused;
    assert r3.trace == Rewind(r2.core, false).trace;
  }

  // ---- Delay ----

  /** The tick that finishes the delay is played in full: the part of it spent
      waiting is not subtracted from the step's progress. */
  lemma DelayNotCarried(c: Core, deltaTime: real)
    requires Valid(c) && !c.killed && !c.paused && |c.steps| > 0
    requires c.head.direction == 1 && c.head.index < |c.steps|
    requires c.head.delayElapsed < c.cfg.delay <= c.head.delayElapsed + deltaTime * c.cfg.speed
    requires c.head.elapsed + deltaTime * c.cfg.speed < c.steps[c.head.index].duration
    ensures var r := UpdateTween(c, deltaTime);
      && r.alive
      && r.core.head.delayElapsed == c.head.delayElapsed + deltaTime * c.cfg.speed
      && r.core.head.index == c.head.index
      && r.core.head.elapsed == c.head.elapsed + deltaTime * c.cfg.speed
  {
    var dt := deltaTime * c.cfg.speed;
    assert !Waiting(c, dt);
    assert UpdateTween(c, deltaTime) == UpdateForward(AfterDelay(c, dt), dt);
  }

  // ---- Completion ----

  /** After `Complete`, the next tick finishes an auto-killed tween without a
      second completion callback and leaves a kept tween untouched. */
  lemma CompleteThenUpdate(c: Core, withCallbacks: bool, deltaTime: real)
    requires Valid(c)
    ensures var k := Complete(c, withCallbacks).core;
      var t := UpdateTween(k, deltaTime);
      && (c.cfg.autoKill ==> !t.alive && t.trace == [ReleaseCalled])
      && (!c.cfg.autoKill ==> t.alive && t.core == k && t.trace == [])
  {
  }

  /** One step of two seconds, progress applied linearly: seeking to 1 applies 0.5,
      seeking to 2 applies 1 and parks the playhead past the end (the seek's own
      effects, before the pause or resume that ends `Goto`). A paused seek
      (`play == false`) leaves the next tick alive and silent; after a playing
      seek the next tick finishes the tween with one completion callback. */
  lemma TwoSecondStep(c: Core, deltaTime: real)
    requires Valid(c) && |c.steps| == 1 && c.steps[0].duration == 2.0
    requires c.cfg.loops == 1 && deltaTime >= 0.0
    ensures var m := SeekTo(c.steps, 1.0, c.cfg.delay);
      && Goto(c, 1.0, false).core.head == m.head
      && m.head.index == 0 && m.head.elapsed == 1.0 && m.trace[|m.trace| - 1] == StepApplied(0, 0.5)
    ensures var m := SeekTo(c.steps, 2.0, c.cfg.delay);
      var g := Goto(c, 2.0, false);
      && g.core.head == m.head
      && m.head.index == 1 && m.head.elapsed == 0.0
      && m.trace[|m.trace| - 1] == StepApplied(0, 1.0)
      && UpdateTween(g.core, deltaTime) == Tick(g.core, true, [])
    ensures var g := Goto(c, 2.0, true);
      var t := UpdateTween(g.core, deltaTime);
      && !t.alive
      && (OnComplete in c.cfg.hooks ==> t.trace == [Hooked(OnComplete), ReleaseCalled])
  {
    assert c.steps[..1] == c.steps && c.steps[..0] == [];
    assert Duration(c.steps) == 2.0;
    var m1 := SeekTo(c.steps, 1.0, c.cfg.delay);
    SeekLands(c.steps, 1.0, c.cfg.delay);
    DecompositionUnique(c.steps, 0, 1.0, m1.head.index, m1.head.elapsed, 1.0);
    var g := Goto(c, 2.0, true);
    assert !g.core.killed && !g.core.paused && !Waiting(g.core, deltaTime * c.cfg.speed);
  }
}
