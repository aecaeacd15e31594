/** The step sequencer `TweenActionCore`: an ordered list of timed steps and a
    playhead (step index, elapsed time in that step, direction, loops done).
    Every operation is a pure function returning the new state and the trace of
    effects the source performs (callbacks, step starts, applied progress). */
module ActionCore {
  import opened Common
  import opened Events

  /** One timed instruction. `ease` and the step's Apply are opaque; `hasStart` says
      whether the step carries an OnStart hook. The per-step `Started` flag of the
      source is kept in `Head.started`, the set of indices whose flag is set. */
  datatype Step = Step(duration: real, ease: EaseId, hasStart: bool)

  /** The settings a user configures through the fluent setters. */
  datatype Config = Config(
    target: Option<TargetId>,
    id: Option<UserId>,
    updateType: UpdateType,
    unscaled: bool,
    delay: real,
    speed: real,
    loops: int,
    loopType: LoopType,
    autoPlay: bool,
    autoKill: bool,
    hooks: set<Hook>)

  /** The playhead: `_currentIndex`, `_elapsed`, `direction`, `LoopsDone`,
      `delayElapsed`, and the steps whose start hook has run. */
  datatype Head = Head(
    index: int,
    elapsed: real,
    direction: int,
    loopsDone: int,
    delayElapsed: real,
    started: set<nat>)

  datatype Core = Core(
    cfg: Config,
    steps: seq<Step>,
    head: Head,
    playing: bool,
    paused: bool,
    killed: bool)

  /** State after a control call, with the effects it performed. */
  datatype Out = Out(core: Core, trace: seq<Event>)
  /** State after an update; `alive == false` asks the scheduler to evict. */
  datatype Tick = Tick(core: Core, alive: bool, trace: seq<Event>)

  predicate StepsWellFormed(steps: seq<Step>)
  {
    forall j :: 0 <= j < |steps| ==> steps[j].duration >= Epsilon
  }

  /** A playhead over `n` steps that the update functions can use without
      indexing `Steps` out of range. */
  ghost predicate HeadFits(h: Head, n: nat)
  {
    && -1 <= h.index <= n
    && (n == 0 ==> h.index == 0)
    && (h.direction == 1 || h.direction == -1)
    && (n > 0 && h.direction == 1 ==> h.index >= 0)
    && (n > 0 && h.direction == -1 ==> h.index < n)
    && h.loopsDone >= 0
    && (forall j :: j in h.started ==> j < n)
  }

  /** The states the engine reaches. */
  ghost predicate Valid(c: Core)
  {
    && StepsWellFormed(c.steps)
    && HeadFits(c.head, |c.steps|)
    && c.cfg.delay >= 0.0 && c.cfg.speed >= 0.0
  }

  /** `Duration`: the sum of the step durations. */
  function Duration(steps: seq<Step>): real
  {
    if |steps| == 0 then 0.0 else Duration(steps[..|steps| - 1]) + steps[|steps| - 1].duration
  }

  lemma DurationSnoc(steps: seq<Step>, i: nat)
    requires i < |steps|
    ensures Duration(steps[..i + 1]) == Duration(steps[..i]) + steps[i].duration
  {
    assert steps[..i + 1][..i] == steps[..i];
  }

  /** Prefix durations grow with the prefix. */
  lemma {:induction false} DurationPrefixMono(steps: seq<Step>, j: nat, k: nat)
    requires StepsWellFormed(steps)
    requires j <= k <= |steps|
    ensures Duration(steps[..j]) <= Duration(steps[..k])
    decreases k
  {
    if j < k {
      DurationPrefixMono(steps, j, k - 1);
      DurationSnoc(steps, k - 1);
    }
  }

  /** Every step lasts at least `Epsilon`, so a non-empty tween has a positive duration. */
  lemma {:induction false} DurationAtLeast(steps: seq<Step>)
    requires StepsWellFormed(steps)
    ensures Duration(steps) >= (|steps| as real) * Epsilon
  {
    if |steps| > 0 {
      var init := steps[..|steps| - 1];
      assert StepsWellFormed(init) by {
        forall j | 0 <= j < |init| ensures init[j].duration >= Epsilon {
          assert init[j] == steps[j];
        }
      }
      DurationAtLeast(init);
    }
  }

  /** The callback `h` if the user set one. */
  function Fire(c: Core, h: Hook): (r: seq<Event>)
    ensures h in c.cfg.hooks ==> r == [Hooked(h)]
    ensures h !in c.cfg.hooks ==> r == []
  {
    if h in c.cfg.hooks then [Hooked(h)] else []
  }

  /** `ResetCore`: every playback and configuration field back at its default. */
  function ResetCore(target: Option<TargetId>, autoPlay: bool): (r: Core)
    ensures Valid(r)
    ensures r.steps == [] && r.head.started == {} && r.cfg.hooks == {}
    ensures r.head.index == 0 && r.head.elapsed == 0.0 && r.head.direction == 1
    ensures r.head.loopsDone == 0 && r.head.delayElapsed == 0.0
    ensures r.cfg.loops == 1 && r.cfg.loopType == LoopType.Restart
    ensures r.cfg.delay == 0.0 && r.cfg.speed == 1.0
    ensures !r.playing && !r.paused && !r.killed && r.cfg.autoKill
    ensures r.cfg.target == target && r.cfg.id.None? && r.cfg.autoPlay == autoPlay
    ensures r.cfg.updateType == Normal && !r.cfg.unscaled
  {
    Core(Config(target, None, Normal, false, 0.0, 1.0, 1, LoopType.Restart, autoPlay, true, {}),
         [], Head(0, 0.0, 1, 0, 0.0, {}), false, false, false)
  }

  /** `IsDead`: the target is gone (or was never set). */
  predicate IsDead(cfg: Config, destroyed: set<TargetId>)
  {
    IsNull(cfg.target, destroyed)
  }

  // ---- Registration and controls ----

  /** `Autoplay` (also `Play`): registers with the scheduler once per transition into playing. */
  function Autoplay(c: Core): (r: Out)
    ensures r.core.(playing := c.playing, paused := c.paused) == c
    ensures c.killed || c.playing ==> r == Out(c, [])
    ensures !c.killed && !c.playing ==>
              r.core.playing && !r.core.paused && r.trace == [Registered] + Fire(c, OnPlay)
  {
    if c.killed || c.playing then Out(c, [])
    else Out(c.(playing := true, paused := false), [Registered] + Fire(c, OnPlay))
  }

  /** `Pause`: idempotent; the pause callback runs only on the transition. */
  function Pause(c: Core): (r: Out)
    ensures r.core == c.(paused := true)
    ensures c.paused ==> r.trace == []
    ensures !c.paused ==> r.trace == Fire(c, OnPause)
  {
    if c.paused then Out(c, []) else Out(c.(paused := true), Fire(c, OnPause))
  }

  /** `Resume`: unpauses a paused tween and re-enters playing. */
  function Resume(c: Core): (r: Out)
    ensures r.core.(playing := c.playing, paused := c.paused) == c
    ensures !c.paused ==> r == Out(c, [])
    ensures c.paused ==> !r.core.paused
    ensures forall e :: e in r.trace ==> e == Registered || e == Hooked(OnPlay)
  {
    if c.paused then Autoplay(c.(paused := false)) else Out(c, [])
  }

  /** `Kill`: idempotent; marks the tween and runs the kill callback once. */
  function Kill(c: Core): (r: Out)
    ensures r.core == c.(killed := true)
    ensures c.killed ==> r.trace == []
    ensures !c.killed ==> r.trace == Fire(c, OnKill)
  {
    if c.killed then Out(c, []) else Out(c.(killed := true), Fire(c, OnKill))
  }

  /** Pause, or resume, as `Goto` and `Rewind` end. */
  function Settle(c: Core, play: bool): (r: Out)
    ensures r.core.(playing := c.playing, paused := c.paused) == c
    ensures r.core.paused == !play
    ensures forall e :: e in r.trace ==> e == Registered || e == Hooked(OnPlay) || e == Hooked(OnPause)
  {
    if play then Resume(c) else Pause(c)
  }

  /** `PlayForward`: direction forward, unpaused, playing. The index is kept, so a
      playhead a backward tick left before the first step (index -1) ends invalid:
      the next forward tick would read `Steps[-1]`. */
  function PlayForward(c: Core): (r: Out)
    ensures r.core.head.direction == 1 && !r.core.paused
    ensures r.core.(head := c.head, paused := c.paused, playing := c.playing) == c
    ensures r.core.head == c.head.(direction := 1)
    ensures Valid(c) ==> (Valid(r.core) <==> c.head.index >= 0)
  {
    Autoplay(c.(head := c.head.(direction := 1), paused := false))
  }

  /** `PlayBackwards`: turns around, first moving a playhead that is past the end
      (or at the very start of a step) onto the end of a step. The source reads
      `Steps[index]` when the playhead is inside the list with no elapsed time,
      which is why a playhead before the start must carry elapsed time. */
  function PlayBackwards(c: Core): (r: Out)
    requires Valid(c)
    requires |c.steps| == 0 || c.head.index >= 0 || c.head.elapsed > 0.0
    ensures Valid(r.core)
    ensures |c.steps| == 0 ==> r == Out(c, [])
    ensures |c.steps| > 0 ==> r.core.head.direction == -1 && !r.core.paused
    ensures |c.steps| > 0 && c.head.index >= |c.steps| ==>
              r.core.head.index == |c.steps| - 1
              && r.core.head.elapsed == c.steps[|c.steps| - 1].duration
    ensures |c.steps| > 0 && 0 <= c.head.index < |c.steps| && c.head.elapsed <= 0.0 ==>
              r.core.head.index == c.head.index && r.core.head.elapsed == c.steps[c.head.index].duration
    ensures |c.steps| > 0 && c.head.index < |c.steps| && c.head.elapsed > 0.0 ==>
              r.core.head.index == c.head.index && r.core.head.elapsed == c.head.elapsed
    ensures r.core.head.started == c.head.started && r.core.head.loopsDone == c.head.loopsDone
    ensures r.core.steps == c.steps && r.core.cfg == c.cfg
  {
    if |c.steps| == 0 then Out(c, [])
    else
      var h := c.head;
      var h1 :=
        if h.index >= |c.steps| then
          h.(index := |c.steps| - 1, elapsed := c.steps[|c.steps| - 1].duration)
        else if h.elapsed <= 0.0 then
          h.(elapsed := c.steps[h.index].duration)
        else h;
      Autoplay(c.(head := h1.(direction := -1), paused := false))
  }

  // ---- Configuration ----

  /** `SetUpdate`: a playing tween asks the scheduler to move it between buckets. */
  function SetUpdate(c: Core, t: UpdateType, unscaled: bool): (r: Out)
    ensures r.core == c.(cfg := c.cfg.(updateType := t, unscaled := unscaled))
    ensures c.playing ==> r.trace == [BucketMoved(c.cfg.updateType, c.cfg.unscaled)]
    ensures !c.playing ==> r.trace == []
  {
    var c1 := c.(cfg := c.cfg.(updateType := t, unscaled := unscaled));
    if c.playing then Out(c1, [BucketMoved(c.cfg.updateType, c.cfg.unscaled)]) else Out(c1, [])
  }

  /** `SetDelay`: a negative delay is clamped to zero. */
  function SetDelay(c: Core, delay: real): (r: Core)
    ensures r.cfg.delay >= 0.0 && (delay >= 0.0 ==> r.cfg.delay == delay)
    ensures delay < 0.0 ==> r.cfg.delay == 0.0
    ensures r == c.(cfg := c.cfg.(delay := r.cfg.delay))
    ensures Valid(c) ==> Valid(r)
  {
    c.(cfg := c.cfg.(delay := Max(0.0, delay)))
  }

  /** `SetSpeed`: a negative speed is clamped to zero. */
  function SetSpeed(c: Core, speed: real): (r: Core)
    ensures r.cfg.speed >= 0.0 && (speed >= 0.0 ==> r.cfg.speed == speed)
    ensures speed < 0.0 ==> r.cfg.speed == 0.0
    ensures r == c.(cfg := c.cfg.(speed := r.cfg.speed))
    ensures Valid(c) ==> Valid(r)
  {
    c.(cfg := c.cfg.(speed := Max(0.0, speed)))
  }

  /** `SetLoops`: stored as given; `-1` means forever. */
  function SetLoops(c: Core, loops: int, loopType: LoopType): (r: Core)
    ensures r.cfg.loops == loops && r.cfg.loopType == loopType
    ensures r == c.(cfg := c.cfg.(loops := loops, loopType := loopType))
    ensures Valid(c) ==> Valid(r)
  {
    c.(cfg := c.cfg.(loops := loops, loopType := loopType))
  }

  /** `SetAutoKill` */
  function SetAutoKill(c: Core, autoKill: bool): (r: Core)
    ensures r.cfg.autoKill == autoKill && r == c.(cfg := c.cfg.(autoKill := autoKill))
  {
    c.(cfg := c.cfg.(autoKill := autoKill))
  }

  /** `SetId` */
  function SetId(c: Core, id: Option<UserId>): (r: Core)
    ensures r.cfg.id == id && r == c.(cfg := c.cfg.(id := id))
  {
    c.(cfg := c.cfg.(id := id))
  }

  /** `SetEase`: configures the most recently added step; a no-op on an empty tween. */
  function SetEase(c: Core, ease: Option<EaseId>): (r: Core)
    ensures |c.steps| == 0 ==> r == c
    ensures |c.steps| > 0 ==>
              |r.steps| == |c.steps| && r.steps[|c.steps| - 1].ease == ease.GetOr(Linear)
              && r.steps[..|c.steps| - 1] == c.steps[..|c.steps| - 1]
              && r.steps[|c.steps| - 1].duration == c.steps[|c.steps| - 1].duration
    ensures r.(steps := c.steps) == c
    ensures Valid(c) ==> Valid(r)
  {
    if |c.steps| == 0 then c
    else
      var last := |c.steps| - 1;
      c.(steps := c.steps[last := c.steps[last].(ease := ease.GetOr(Linear))])
  }

  /** `OnComplete`/`OnPlay`/`OnPause`/`OnKill`: set (or clear, with null) one callback. */
  function SetHook(c: Core, h: Hook, present: bool): (r: Core)
    ensures h in r.cfg.hooks <==> present
    ensures forall g :: g != h ==> (g in r.cfg.hooks <==> g in c.cfg.hooks)
    ensures r == c.(cfg := c.cfg.(hooks := r.cfg.hooks))
  {
    if present then c.(cfg := c.cfg.(hooks := c.cfg.hooks + {h}))
    else c.(cfg := c.cfg.(hooks := c.cfg.hooks - {h}))
  }

  /** `AddStep`: appends a step whose duration is raised to at least `Epsilon`;
      an autoplaying tween registers with the scheduler. */
  function AddStep(c: Core, duration: real, ease: Option<EaseId>, hasStart: bool): (r: Out)
    ensures |r.core.steps| == |c.steps| + 1 && r.core.steps[..|c.steps|] == c.steps
    ensures r.core.steps[|c.steps|] == Step(Max(Epsilon, duration), ease.GetOr(Linear), hasStart)
    ensures r.core.steps[|c.steps|].duration >= Epsilon
    ensures Duration(r.core.steps) == Duration(c.steps) + Max(Epsilon, duration)
    ensures r.core.(steps := c.steps, playing := c.playing, paused := c.paused) == c
    ensures !c.cfg.autoPlay ==> r.trace == []
    ensures c.cfg.autoPlay && !c.killed ==> r.core.playing
    ensures Valid(c) ==> Valid(r.core)
  {
    var steps := c.steps + [Step(Max(Epsilon, duration), ease.GetOr(Linear), hasStart)];
    assert steps[..|c.steps|] == c.steps;
    var c1 := c.(steps := steps);
    if c.cfg.autoPlay then Autoplay(c1) else Out(c1, [])
  }

  /** `AppendInterval`: a step that applies nothing. */
  function AppendInterval(c: Core, duration: real): (r: Out)
    ensures Duration(r.core.steps) == Duration(c.steps) + Max(Epsilon, duration)
    ensures |r.core.steps| == |c.steps| + 1 && r.core.steps[..|c.steps|] == c.steps
    ensures !r.core.steps[|c.steps|].hasStart
    ensures Valid(c) ==> Valid(r.core)
  {
    AddStep(c, duration, None, false)
  }

  /** `AppendCallback`: a minimal step whose start hook is the callback. */
  function AppendCallback(c: Core, present: bool): (r: Out)
    ensures |r.core.steps| == |c.steps| + 1 && r.core.steps[|c.steps|].hasStart == present
    ensures Duration(r.core.steps) == Duration(c.steps) + Epsilon
    ensures Valid(c) ==> Valid(r.core)
  {
    AddStep(c, Epsilon, None, present)
  }

  // ---- Step helpers ----

  /** The start-flag test of `PrepareStepStart` on a bare flag set. */
  function StartStep(steps: seq<Step>, started: set<nat>, i: nat, loopsDone: int): (r: (set<nat>, seq<Event>))
    requires i < |steps|
    ensures r.0 == started + {i}
    ensures i in started || !steps[i].hasStart ==> r.1 == []
    ensures i !in started && steps[i].hasStart ==> r.1 == [StepStarted(i, loopsDone)]
  {
    if i in started then (started, [])
    else (started + {i}, if steps[i].hasStart then [StepStarted(i, loopsDone)] else [])
  }

  /** `PrepareStepStart`: a step's start hook runs once until the flags are reset. */
  function PrepareStepStart(c: Core, i: nat): (r: Out)
    requires i < |c.steps|
    ensures r.core == c.(head := c.head.(started := c.head.started + {i}))
    ensures i in c.head.started ==> r.trace == []
    ensures i !in c.head.started && c.steps[i].hasStart ==> r.trace == [StepStarted(i, c.head.loopsDone)]
    ensures !c.steps[i].hasStart ==> r.trace == []
  {
    var s := StartStep(c.steps, c.head.started, i, c.head.loopsDone);
    Out(c.(head := c.head.(started := s.0)), s.1)
  }

  /** Where the walk of `Goto` stops: index, elapsed time there, start flags, effects. */
  datatype Seek = Seek(index: int, elapsed: real, started: set<nat>, trace: seq<Event>)

  /** The loop in `Goto`: walks the steps from `i`, consuming `remaining`. Fully
      covered steps get progress 1 and the walk stops inside the step where the
      time runs out, with the fractional progress applied there; every visited
      step is started. A walk that covers every step leaves the playhead past
      the end with no elapsed time. */
  function Walk(steps: seq<Step>, started: set<nat>, i: nat, remaining: real): (r: Seek)
    requires StepsWellFormed(steps) && i <= |steps|
    requires 0.0 <= remaining && Duration(steps[..i]) + remaining <= Duration(steps)
    ensures i <= r.index <= |steps|
    ensures Duration(steps[..r.index]) + r.elapsed == Duration(steps[..i]) + remaining
    ensures r.index < |steps| ==> 0.0 <= r.elapsed < steps[r.index].duration
    ensures r.index == |steps| ==> r.elapsed == 0.0
    ensures forall j :: j in r.started <==> j in started || (i <= j <= r.index && j < |steps|)
    decreases |steps| - i
  {
    if i == |steps| then
      assert steps[..i] == steps;
      Seek(i, 0.0, started, [])
    else
      var s := StartStep(steps, started, i, 0);
      var d := steps[i].duration;
      DurationSnoc(steps, i);
      if remaining >= d then
        var rest := Walk(steps, s.0, i + 1, remaining - d);
        rest.(trace := s.1 + [StepApplied(i, 1.0)] + rest.trace)
      else
        Seek(i, remaining, s.0, s.1 + [StepApplied(i, remaining / d)])
  }

  /** The effects of the walk are step starts and applications, and every fully
      covered step received progress 1. */
  lemma {:induction false} WalkApplies(steps: seq<Step>, started: set<nat>, i: nat, remaining: real)
    requires StepsWellFormed(steps) && i <= |steps|
    requires 0.0 <= remaining && Duration(steps[..i]) + remaining <= Duration(steps)
    ensures var r := Walk(steps, started, i, remaining);
      && (forall j :: i <= j < r.index ==> StepApplied(j, 1.0) in r.trace)
      && (forall e :: e in r.trace ==> e.StepStarted? || e.StepApplied?)
    decreases |steps| - i
  {
    if i < |steps| {
      var s := StartStep(steps, started, i, 0);
      var d := steps[i].duration;
      DurationSnoc(steps, i);
      if remaining >= d {
        var rest := Walk(steps, s.0, i + 1, remaining - d);
        var pre := s.1 + [StepApplied(i, 1.0)];
        assert Walk(steps, started, i, remaining) == rest.(trace := pre + rest.trace);
        assert StepApplied(i, 1.0) in pre;
        WalkApplies(steps, s.0, i + 1, remaining - d);
      }
    }
  }

  /** Every step the walk visits whose hook has not run yet has its start hook run. */
  lemma {:induction false} WalkStarts(steps: seq<Step>, started: set<nat>, i: nat, remaining: real)
    requires StepsWellFormed(steps) && i <= |steps|
    requires 0.0 <= remaining && Duration(steps[..i]) + remaining <= Duration(steps)
    ensures var r := Walk(steps, started, i, remaining);
      forall j :: i <= j <= r.index && j < |steps| && j !in started && steps[j].hasStart
        ==> StepStarted(j, 0) in r.trace
    decreases |steps| - i
  {
    if i < |steps| {
      var s := StartStep(steps, started, i, 0);
      var d := steps[i].duration;
      DurationSnoc(steps, i);
      if remaining >= d {
        var rest := Walk(steps, s.0, i + 1, remaining - d);
        var pre := s.1 + [StepApplied(i, 1.0)];
        assert Walk(steps, started, i, remaining) == rest.(trace := pre + rest.trace);
        assert i !in started && steps[i].hasStart ==> StepStarted(i, 0) in pre;
        WalkStarts(steps, s.0, i + 1, remaining - d);
      }
    }
  }

  /** The last effect of the walk is the progress of the step where it stopped,
      or progress 1 on the last step when it ran past the end. */
  lemma {:induction false} WalkLast(steps: seq<Step>, started: set<nat>, i: nat, remaining: real)
    requires StepsWellFormed(steps) && i <= |steps|
    requires 0.0 <= remaining && Duration(steps[..i]) + remaining <= Duration(steps)
    ensures var r := Walk(steps, started, i, remaining);
      && (r.index < |steps| ==>
            r.trace != [] && r.trace[|r.trace| - 1] == StepApplied(r.index, r.elapsed / steps[r.index].duration))
      && (i < |steps| == r.index ==>
            r.trace != [] && r.trace[|r.trace| - 1] == StepApplied(|steps| - 1, 1.0))
    decreases |steps| - i
  {
    if i < |steps| {
      var s := StartStep(steps, started, i, 0);
      var d := steps[i].duration;
      DurationSnoc(steps, i);
      if remaining >= d {
        var rest := Walk(steps, s.0, i + 1, remaining - d);
        var pre := s.1 + [StepApplied(i, 1.0)];
        var tr := pre + rest.trace;
        assert Walk(steps, started, i, remaining) == rest.(trace := tr);
        WalkLast(steps, s.0, i + 1, remaining - d);
        if rest.trace == [] {
          assert tr == pre;
        } else {
          assert tr[|tr| - 1] == rest.trace[|rest.trace| - 1];
        }
      }
    }
  }

  /** The walk stops past the end exactly when the time reaches the duration. */
  lemma GotoEnd(steps: seq<Step>, index: nat, elapsed: real, time: real)
    requires StepsWellFormed(steps) && index <= |steps|
    requires index < |steps| ==> 0.0 <= elapsed < steps[index].duration
    requires index == |steps| ==> elapsed == 0.0
    requires Duration(steps[..index]) + elapsed == Clamp(time, 0.0, Duration(steps))
    ensures |steps| > 0 ==> (index == |steps| <==> time >= Duration(steps))
  {
    assert steps[..|steps|] == steps;
    DurationAtLeast(steps);
    if 0 < |steps| && index < |steps| {
      DurationSnoc(steps, index);
      DurationPrefixMono(steps, index + 1, |steps|);
    }
  }

  /** A playhead together with the effects of reaching it. */
  datatype Moved = Moved(head: Head, trace: seq<Event>)

  /** The playhead `Goto` computes: time clamped into `[0, Duration]`, loops and
      direction reset, the delay counted as already waited, and the steps walked
      from the start with every start flag cleared first. */
  function SeekTo(steps: seq<Step>, time: real, delay: real): (r: Moved)
    requires StepsWellFormed(steps)
    ensures HeadFits(r.head, |steps|)
    ensures 0 <= r.head.index <= |steps|
    ensures Duration(steps[..r.head.index]) + r.head.elapsed == Clamp(time, 0.0, Duration(steps))
    ensures r.head.index < |steps| ==> 0.0 <= r.head.elapsed < steps[r.head.index].duration
    ensures r.head.index == |steps| ==> r.head.elapsed == 0.0
    ensures |steps| > 0 ==> (r.head.index == |steps| <==> time >= Duration(steps))
    ensures forall j :: 0 <= j < |steps| ==> (j in r.head.started <==> j <= r.head.index)
    ensures r.head.loopsDone == 0 && r.head.direction == 1 && r.head.delayElapsed == delay
    ensures forall e :: e in r.trace ==> e.StepStarted? || e.StepApplied?
    ensures r.head.index < |steps| ==>
              r.trace != [] && r.trace[|r.trace| - 1] == StepApplied(r.head.index, r.head.elapsed / steps[r.head.index].duration)
    ensures 0 < |steps| == r.head.index ==>
              r.trace != [] && r.trace[|r.trace| - 1] == StepApplied(|steps| - 1, 1.0)
  {
    var t := Clamp(time, 0.0, Duration(steps));
    DurationAtLeast(steps);
    assert steps[..0] == [];
    var w := Walk(steps, {}, 0, t);
    WalkApplies(steps, {}, 0, t);
    WalkStarts(steps, {}, 0, t);
    WalkLast(steps, {}, 0, t);
    GotoEnd(steps, w.index, w.elapsed, time);
    Moved(Head(w.index, w.elapsed, 1, 0, delay, w.started), w.trace)
  }

  // ---- Scrub ----

  /** `Rewind`: playhead to the start of step 0 with every start flag cleared and
      step 0 re-started; the delay will be waited again. */
  function Rewind(c: Core, play: bool): (r: Out)
    requires Valid(c)
    ensures Valid(r.core)
    ensures |c.steps| == 0 ==> r == Out(c, [])
    ensures |c.steps| > 0 ==>
              && r.core.head == Head(0, 0.0, 1, 0, 0.0, {0})
              && !r.core.killed && r.core.paused == !play
              && r.core.steps == c.steps && r.core.cfg == c.cfg
    ensures |c.steps| > 0 && !play ==> r.core.playing == c.playing
    ensures |c.steps| > 0 ==>
              StepApplied(0, 0.0) in r.trace
              && (c.steps[0].hasStart <==> StepStarted(0, 0) in r.trace)
    ensures forall e :: e in r.trace ==>
              e.StepStarted? || e.StepApplied? || e == Registered || e == Hooked(OnPlay) || e == Hooked(OnPause)
  {
    if |c.steps| == 0 then Out(c, [])
    else
      var c1 := c.(head := Head(0, 0.0, 1, 0, 0.0, {}), killed := false);
      var s := PrepareStepStart(c1, 0);
      var p := Settle(s.core, play);
      Out(p.core, s.trace + [StepApplied(0, 0.0)] + p.trace)
  }

  /** `Goto`: seek to `time` (see `SeekTo`), revive a killed tween, then pause or resume. */
  function Goto(c: Core, time: real, play: bool): (r: Out)
    requires Valid(c)
    ensures Valid(r.core)
    ensures r.core.head == SeekTo(c.steps, time, c.cfg.delay).head
    ensures r.core.steps == c.steps && r.core.cfg == c.cfg
    ensures !r.core.killed && r.core.paused == !play
    ensures !play ==> r.core.playing == c.playing
    ensures Hooked(OnComplete) !in r.trace && ReleaseCalled !in r.trace
    ensures forall e :: e in r.trace ==>
              e.StepStarted? || e.StepApplied? || e == Registered || e == Hooked(OnPlay) || e == Hooked(OnPause)
  {
    var m := SeekTo(c.steps, time, c.cfg.delay);
    var p := Settle(c.(head := m.head, killed := false), play);
    Out(p.core, m.trace + p.trace)
  }

  /** `GotoNormalized`: `Goto(Duration * Clamp01(t01))`. */
  function GotoNormalized(c: Core, t01: real, play: bool): (r: Out)
    requires Valid(c)
    ensures Valid(r.core)
    ensures 0 <= r.core.head.index <= |c.steps|
    ensures Lands(c.steps, r.core.head, Duration(c.steps) * Clamp01(t01))
  {
    var t := Duration(c.steps) * Clamp01(t01);
    DurationAtLeast(c.steps);
    ScaleWithin(Duration(c.steps), Clamp01(t01));
    SeekLands(c.steps, t, c.cfg.delay);
    Goto(c, t, play)
  }

  /** The playhead `h` sits at time `t` of the steps. */
  ghost predicate Lands(steps: seq<Step>, h: Head, t: real)
  {
    0 <= h.index <= |steps| && Duration(steps[..h.index]) + h.elapsed == t
  }

  /** A time within the duration is reached exactly. */
  lemma SeekLands(steps: seq<Step>, t: real, delay: real)
    requires StepsWellFormed(steps) && 0.0 <= t <= Duration(steps)
    ensures Lands(steps, SeekTo(steps, t, delay).head, t)
  {
  }

  /** A fraction of a non-negative length lies within the length. */
  lemma ScaleWithin(d: real, x: real)
    requires d >= 0.0 && 0.0 <= x <= 1.0
    ensures 0.0 <= d * x <= d
    ensures Clamp(d * x, 0.0, d) == d * x
  {
    assert d * x <= d * 1.0;
  }

  /** `Complete`: seek to the end, optionally run the completion callback, then
      either kill and release (AutoKill) or stop in place. */
  function Complete(c: Core, withCallbacks: bool): (r: Out)
    requires Valid(c)
    ensures Valid(r.core)
    ensures r.core.head.index == |c.steps| && r.core.head.elapsed == 0.0
    ensures forall j :: 0 <= j < |c.steps| ==> j in r.core.head.started
    ensures r.core.killed == c.cfg.autoKill && r.core.paused
    ensures !c.cfg.autoKill ==> !r.core.playing
    ensures Hooked(OnComplete) in r.trace <==> withCallbacks && OnComplete in c.cfg.hooks
    ensures ReleaseCalled in r.trace <==> c.cfg.autoKill
    ensures r.core.steps == c.steps && r.core.cfg == c.cfg
  {
    var g := Goto(c, Duration(c.steps), false);
    var cb := if withCallbacks then Fire(g.core, OnComplete) else [];
    if c.cfg.autoKill then Out(g.core.(killed := true), g.trace + cb + [ReleaseCalled])
    else Out(g.core.(paused := true, playing := false), g.trace + cb)
  }

  /** `PlayFromEnd`: seek to the end and play backwards from the last step's end.
      The source reads `Steps[Count - 1]`, so the tween must have a step. */
  function PlayFromEnd(c: Core): (r: Out)
    requires Valid(c) && |c.steps| > 0
    ensures Valid(r.core)
    ensures r.core.head.direction == -1 && !r.core.paused
    ensures r.core.head.index == |c.steps| - 1
    ensures r.core.head.elapsed == c.steps[|c.steps| - 1].duration
    ensures forall j :: 0 <= j < |c.steps| ==> j in r.core.head.started
  {
    var g := Goto(c, Duration(c.steps), false);
    var last := |c.steps| - 1;
    var b := PlayBackwards(g.core.(head := g.core.head.(index := last, elapsed := c.steps[last].duration)));
    Out(b.core, g.trace + b.trace)
  }

  /** `Restart`: rewind paused, then play forward if asked. */
  function Restart(c: Core, play: bool): (r: Out)
    requires Valid(c)
    ensures Valid(r.core)
    ensures |c.steps| > 0 ==>
              r.core.head == Head(0, 0.0, 1, 0, 0.0, {0}) && r.core.paused == !play
  {
    var w := Rewind(c, false);
    if play then
      var f := PlayForward(w.core);
      Out(f.core, w.trace + f.trace)
    else w
  }

  // ---- Update ----

  /** The loop-exhaustion test shared by the sequencer and the timeline. */
  predicate Exhausted(loops: int, loopsDone: int)
  {
    loops == 1 || (loops != -1 && loopsDone >= loops - 1)
  }

  /** `Finish`: completion callback only when the run ended going forward, then Release. */
  function Finish(c: Core, completedForward: bool): (r: Tick)
    ensures r.core == c && !r.alive
    ensures r.trace == (if completedForward then Fire(c, OnComplete) else []) + [ReleaseCalled]
  {
    Tick(c, false, (if completedForward then Fire(c, OnComplete) else []) + [ReleaseCalled])
  }

  /** `HandleLoopOrFinish`: at either end of the step list, finish when the loops
      are exhausted, otherwise count one loop and reposition by loop type. */
  function HandleLoopOrFinish(c: Core, forwardEnded: bool): (r: Tick)
    requires Valid(c) && |c.steps| > 0
    ensures Valid(r.core)
    ensures !r.alive <==> Exhausted(c.cfg.loops, c.head.loopsDone)
    ensures c.cfg.loops == 1 ==> !r.alive
    ensures c.cfg.loops == -1 ==> r.alive
    ensures !r.alive ==> r.core == c
    ensures !r.alive ==> r.trace == (if forwardEnded then Fire(c, OnComplete) else []) + [ReleaseCalled]
    ensures r.alive ==> ReleaseCalled !in r.trace
    ensures Hooked(OnComplete) in r.trace <==> !r.alive && forwardEnded && OnComplete in c.cfg.hooks
    ensures r.alive ==> r.core.head.loopsDone == c.head.loopsDone + 1
    ensures r.alive && c.cfg.loopType != Yoyo ==>
              r.core.head == Head(0, 0.0, 1, c.head.loopsDone + 1, c.head.delayElapsed, {})
              && r.trace == []
    ensures r.alive && c.cfg.loopType == Yoyo && c.head.direction == 1 ==>
              && r.core.head.direction == -1 && r.core.head.index == |c.steps| - 1
              && r.core.head.elapsed == c.steps[|c.steps| - 1].duration
              && r.core.head.started == c.head.started + {|c.steps| - 1}
              && r.trace == (if |c.steps| - 1 !in c.head.started && c.steps[|c.steps| - 1].hasStart
                             then [StepStarted(|c.steps| - 1, c.head.loopsDone + 1)] else [])
    ensures r.alive && c.cfg.loopType == Yoyo && c.head.direction == -1 ==>
              r.core.head == Head(0, 0.0, 1, c.head.loopsDone + 1, c.head.delayElapsed, {})
              && r.trace == []
    ensures r.core.(head := c.head) == c
  {
    if Exhausted(c.cfg.loops, c.head.loopsDone) then Finish(c, forwardEnded)
    else
      var h := c.head.(loopsDone := c.head.loopsDone + 1);
      match c.cfg.loopType
      case Restart =>
        Tick(c.(head := h.(started := {}, index := 0, elapsed := 0.0, direction := 1)), true, [])
      case Incremental =>
        Tick(c.(head := h.(started := {}, index := 0, elapsed := 0.0, direction := 1)), true, [])
      case Yoyo =>
        if h.direction == 1 then
          var last := |c.steps| - 1;
          var s := PrepareStepStart(c.(head := h.(direction := -1, index := last)), last);
          Tick(s.core.(head := s.core.head.(elapsed := c.steps[last].duration)), true, s.trace)
        else
          Tick(c.(head := h.(direction := 1, started := {}, index := 0, elapsed := 0.0)), true, [])
  }

  /** `UpdateForward`: play the current step; once its duration is reached the
      playhead moves to the next step with no carried-over time. */
  function UpdateForward(c: Core, dt: real): (r: Tick)
    requires Valid(c) && |c.steps| > 0 && c.head.direction == 1
    ensures Valid(r.core)
    ensures c.head.index >= |c.steps| ==> r == HandleLoopOrFinish(c, true)
    ensures c.head.index < |c.steps| ==>
              && r.alive && r.core.(head := c.head) == c
              && r.core.head.loopsDone == c.head.loopsDone && r.core.head.direction == 1
              && r.core.head.started == c.head.started + {c.head.index}
              && r.trace != []
              && r.trace[|r.trace| - 1] ==
                   StepApplied(c.head.index, Clamp01((c.head.elapsed + dt) / c.steps[c.head.index].duration))
    ensures c.head.index < |c.steps| && c.head.elapsed + dt >= c.steps[c.head.index].duration ==>
              r.core.head.index == c.head.index + 1 && r.core.head.elapsed == 0.0
    ensures c.head.index < |c.steps| && c.head.elapsed + dt < c.steps[c.head.index].duration ==>
              r.core.head.index == c.head.index && r.core.head.elapsed == c.head.elapsed + dt
    ensures r.core.head.index <= |c.steps|
  {
    if c.head.index >= |c.steps| then HandleLoopOrFinish(c, true)
    else
      var i := c.head.index;
      var s := PrepareStepStart(c, i);
      var e := c.head.elapsed + dt;
      var d := c.steps[i].duration;
      var tr := s.trace + [StepApplied(i, Clamp01(e / d))];
      if e < d then Tick(s.core.(head := s.core.head.(elapsed := e)), true, tr)
      else Tick(s.core.(head := s.core.head.(elapsed := 0.0, index := i + 1)), true, tr)
  }

  /** `UpdateBackward`: the mirror image; on reaching zero the playhead moves to
      the end of the previous step, and below the first step it stays at -1. */
  function UpdateBackward(c: Core, dt: real): (r: Tick)
    requires Valid(c) && |c.steps| > 0 && c.head.direction == -1
    ensures Valid(r.core)
    ensures c.head.index < 0 ==> r == HandleLoopOrFinish(c, false)
    ensures c.head.index >= 0 ==>
              && r.alive && r.core.(head := c.head) == c
              && r.core.head.loopsDone == c.head.loopsDone && r.core.head.direction == -1
              && r.core.head.started == c.head.started + {c.head.index}
              && r.trace != []
              && r.trace[|r.trace| - 1] ==
                   StepApplied(c.head.index, Clamp01((c.head.elapsed - dt) / c.steps[c.head.index].duration))
    ensures c.head.index >= 0 && c.head.elapsed - dt > 0.0 ==>
              r.core.head.index == c.head.index && r.core.head.elapsed == c.head.elapsed - dt
    ensures c.head.index > 0 && c.head.elapsed - dt <= 0.0 ==>
              r.core.head.index == c.head.index - 1
              && r.core.head.elapsed == c.steps[c.head.index - 1].duration
    ensures c.head.index == 0 && c.head.elapsed - dt <= 0.0 ==>
              r.core.head.index == -1 && r.core.head.elapsed == c.head.elapsed - dt
    ensures r.core.head.index >= -1
  {
    if c.head.index < 0 then HandleLoopOrFinish(c, false)
    else
      var i := c.head.index;
      var s := PrepareStepStart(c, i);
      var e := c.head.elapsed - dt;
      var d := c.steps[i].duration;
      var tr := s.trace + [StepApplied(i, Clamp01(e / d))];
      if e > 0.0 then Tick(s.core.(head := s.core.head.(elapsed := e)), true, tr)
      else if i > 0 then
        Tick(s.core.(head := s.core.head.(index := i - 1, elapsed := c.steps[i - 1].duration)), true, tr)
      else Tick(s.core.(head := s.core.head.(index := -1, elapsed := e)), true, tr)
  }

  /** Whether a tick is still spent waiting for the delay. */
  predicate Waiting(c: Core, dt: real)
  {
    c.head.delayElapsed < c.cfg.delay && c.head.delayElapsed + dt < c.cfg.delay
  }

  /** The playhead once the delay is consumed by a tick of `dt` (scaled) seconds. */
  function AfterDelay(c: Core, dt: real): (r: Core)
    ensures r.(head := c.head) == c
    ensures r.head.(delayElapsed := c.head.delayElapsed) == c.head
  {
    if c.head.delayElapsed < c.cfg.delay then c.(head := c.head.(delayElapsed := c.head.delayElapsed + dt))
    else c
  }

  /** `UpdateTween`: one scheduler tick. Killed or empty tweens finish without the
      completion callback, a paused one stays put, the delay is waited first (the
      whole scaled tick is then played, not only what exceeds the delay). */
  function UpdateTween(c: Core, deltaTime: real): (r: Tick)
    requires Valid(c)
    ensures Valid(r.core)
    ensures c.killed ==> r == Tick(c, false, [ReleaseCalled])
    ensures !c.killed && c.paused ==> r == Tick(c, true, [])
    ensures !c.killed && !c.paused && |c.steps| == 0 ==> r == Tick(c, false, [ReleaseCalled])
    ensures !c.killed && !c.paused && |c.steps| > 0 && Waiting(c, deltaTime * c.cfg.speed) ==>
              && r.alive && r.trace == []
              && r.core == c.(head := c.head.(delayElapsed := c.head.delayElapsed + deltaTime * c.cfg.speed))
    ensures r.core.steps == c.steps && r.core.cfg == c.cfg
  {
    if c.killed then Finish(c, false)
    else if c.paused then Tick(c, true, [])
    else if |c.steps| == 0 then Finish(c, false)
    else
      var dt := deltaTime * c.cfg.speed;
      if Waiting(c, dt) then
        Tick(c.(head := c.head.(delayElapsed := c.head.delayElapsed + dt)), true, [])
      else
        var c1 := AfterDelay(c, dt);
        if c1.head.direction >= 0 then UpdateForward(c1, dt) else UpdateBackward(c1, dt)
  }
}
