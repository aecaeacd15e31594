/** Properties of the property tween: rentals do not leak into each other,
    release is idempotent and feeds the next rental, the delta is cached once,
    and the loop arithmetic of the start hook. */
module PropertyProps {
  import opened Common
  import opened Events
  import opened ActionCore
  import opened Property
  import opened Pooling

  /** Later steps never write the property: after a run of effects that does not
      restart the main step, the value left is the lerp of the last main-step
      application, whatever interval or callback effects came between. */
  lemma {:induction false} LastApplyWins(p: Prop, trace: seq<Event>, value: real, ease: real -> real, q: real)
    requires Live(p)
    requires forall e :: e in trace ==> !(OfMain(e) && e.StepStarted?)
    requires |trace| > 0 && trace[|trace| - 1] == StepApplied(0, q)
    ensures Interpret(p, trace, value, ease).value == Lerp(p.start, p.end, ease(q))
    decreases |trace|
  {
    var t := trace[1..];
    assert trace[0] in trace;
    if |trace| > 1 {
      assert t[|t| - 1] == trace[|trace| - 1];
      assert forall e :: e in t ==> e in trace;
      match trace[0]
      case StepApplied(0, progress) =>
        LastApplyWins(p, t, Lerp(p.start, p.end, ease(progress)), ease, q);
      case _ =>
        LastApplyWins(p, t, value, ease, q);
    } else {
      assert t == [];
    }
  }

  /** An interval appended after the main step closes the configuration: neither
      the relative flag nor the From instruction can be changed any more. */
  lemma IntervalEndsConfiguration(p: Prop, d: real, relative: bool, from: FromMode)
    requires |p.core.steps| == 1
    ensures var q := p.(core := AppendInterval(p.core, d).core);
      SetRelative(q, relative) == q && SetFrom(q, from) == q
  {
  }

  /** A finished tween pooled by its own `Finish` is not killed, so a stale
      reference can re-register it. Its next tick finishes again without reaching
      the main step, and its `Release` returns on `_inPool`: the free list is
      untouched and nothing is written. */
  lemma ResurrectedTickIsBenign(w: PropPool, h: Handle, deltaTime: real, value: real,
                                ease: real -> real, destroyed: set<TargetId>)
    requires PoolValid(w) && h in w.objects && w.objects[h].inPool
    requires var c := w.objects[h].core;
      && Valid(c) && !c.killed && !c.paused && |c.steps| > 0
      && c.head.direction == 1 && c.head.index == |c.steps| && c.head.delayElapsed >= c.cfg.delay
      && c.cfg.loops == 1 && c.cfg.autoKill
    ensures Inert(UpdateTween(w.objects[h].core, deltaTime).trace)
    ensures var r := Update(w, h, deltaTime, value, ease, destroyed);
      !r.0 && r.1.pool.free == w.free && r.1.value == value
  {
    var c := w.objects[h].core;
    var t := UpdateTween(c, deltaTime);
    assert t == HandleLoopOrFinish(c, true);
    assert t.trace == Fire(c, OnComplete) + [ReleaseCalled];
  }

  /** No cross-talk: two rentals with the same arguments hand out instances that
      differ at most in the stale `_start`/`_end` of an earlier rental. */
  lemma RentForgetsPreviousRental(w1: PropPool, w2: PropPool, target: Option<TargetId>, autoPlay: bool,
                                  getter: ClosureId, setter: ClosureId, endValue: real, duration: real,
                                  lerp: ClosureId, add: Option<ClosureId>, sub: Option<ClosureId>, mul: Option<ClosureId>)
    requires PoolValid(w1) && PoolValid(w2)
    ensures var r1 := Rent(w1, target, autoPlay, getter, setter, endValue, duration, lerp, add, sub, mul);
      var r2 := Rent(w2, target, autoPlay, getter, setter, endValue, duration, lerp, add, sub, mul);
      && r1.pool.objects[r1.handle].(start := 0.0, end := 0.0) == r2.pool.objects[r2.handle].(start := 0.0, end := 0.0)
      && r1.trace == r2.trace
  {
  }

  /** The stale `_start`/`_end` are never read: the start hook overwrites both. */
  lemma StartIgnoresLeftovers(p: Prop, s: real, e: real, current: real, loopsDone: int)
    ensures OnStartStep(p.(start := s, end := e), current, loopsDone) == OnStartStep(p, current, loopsDone)
  {
  }

  /** Hence the first start of a rented instance is the same whatever pool it came from. */
  lemma RentedStartsAlike(w1: PropPool, w2: PropPool, target: Option<TargetId>, autoPlay: bool,
                          getter: ClosureId, setter: ClosureId, endValue: real, duration: real,
                          lerp: ClosureId, add: Option<ClosureId>, sub: Option<ClosureId>, mul: Option<ClosureId>,
                          current: real, loopsDone: int)
    requires PoolValid(w1) && PoolValid(w2)
    ensures var r1 := Rent(w1, target, autoPlay, getter, setter, endValue, duration, lerp, add, sub, mul);
      var r2 := Rent(w2, target, autoPlay, getter, setter, endValue, duration, lerp, add, sub, mul);
      OnStartStep(r1.pool.objects[r1.handle], current, loopsDone) ==
      OnStartStep(r2.pool.objects[r2.handle], current, loopsDone)
  {
    var r1 := Rent(w1, target, autoPlay, getter, setter, endValue, duration, lerp, add, sub, mul);
    var r2 := Rent(w2, target, autoPlay, getter, setter, endValue, duration, lerp, add, sub, mul);
    var p1 := r1.pool.objects[r1.handle];
    var p2 := r2.pool.objects[r2.handle];
    RentForgetsPreviousRental(w1, w2, target, autoPlay, getter, setter, endValue, duration, lerp, add, sub, mul);
    StartIgnoresLeftovers(p1, 0.0, 0.0, current, loopsDone);
    StartIgnoresLeftovers(p2, 0.0, 0.0, current, loopsDone);
    assert p1.(start := 0.0, end := 0.0) == p2.(start := 0.0, end := 0.0);
  }

  /** `Release` is idempotent: a second call changes nothing and performs nothing
      (the kept branch pauses an already paused tween, the pooling branch finds
      the instance already pooled). */
  lemma ReleaseIdempotent(w: PropPool, h: Handle, destroyed: set<TargetId>)
    requires PoolValid(w) && h in w.objects
    ensures var r := Release(w, h, destroyed);
      Release(r.pool, h, destroyed) == Released(r.pool, [])
  {
    var p := w.objects[h];
    var r := Release(w, h, destroyed);
    if Kept(p, destroyed) {
      assert r.pool.objects[h].core == p.core.(paused := true);
      assert Kept(r.pool.objects[h], destroyed);
      assert r.pool.objects[h := r.pool.objects[h]] == r.pool.objects;
    }
  }

  /** The free list is a stack: an instance released into a pool with room is the
      one the next rental hands out. */
  lemma ReleaseThenRentReuses(w: PropPool, h: Handle, destroyed: set<TargetId>, target: Option<TargetId>, autoPlay: bool,
                              getter: ClosureId, setter: ClosureId, endValue: real, duration: real,
                              lerp: ClosureId, add: Option<ClosureId>, sub: Option<ClosureId>, mul: Option<ClosureId>)
    requires PoolValid(w) && h in w.objects
    requires !Kept(w.objects[h], destroyed) && !w.objects[h].inPool && |w.free| < MaxPool
    ensures var r := Release(w, h, destroyed);
      var n := Rent(r.pool, target, autoPlay, getter, setter, endValue, duration, lerp, add, sub, mul);
      n.handle == h && n.pool.free == w.free
  {
    var r := Release(w, h, destroyed);
    assert (w.free + [h])[..|w.free|] == w.free;
  }

  /** The delta is cached by the first start that may cache it and is never
      recomputed during the rental, whatever the property's value later is. */
  lemma DeltaCachedOnce(p: Prop, current1: real, current2: real, loops1: int, loops2: int)
    requires !p.relative && p.delta.None? && p.sub.Some?
    ensures var s1 := OnStartStep(p, current1, loops1);
      var s2 := OnStartStep(s1.prop, current2, loops2);
      s1.prop.delta == Some(p.baseEnd - current1) && s2.prop.delta == s1.prop.delta
  {
  }

  /** A relative Incremental tween: each loop starts at the property's current
      value and runs for `baseEnd * (LoopsDone + 1)`. With `baseEnd = 10` and the
      property at 0, the first loop drives 0 to 10 and the second 10 to 30. */
  lemma RelativeIncrementalExample(p: Prop)
    requires p.relative && p.add.Some? && p.mul.Some? && p.from == NoFrom
    requires p.baseEnd == 10.0 && p.core.cfg.loopType == Incremental
    ensures var s1 := OnStartStep(p, 0.0, 0);
      && s1.prop.start == 0.0 && s1.prop.end == 10.0 && s1.trace == []
      && var s2 := OnStartStep(s1.prop, s1.prop.end, 1);
         s2.prop.start == 10.0 && s2.prop.end == 30.0 && s2.trace == []
  {
  }

  /** An absolute Incremental tween climbs a linear staircase: loop `k` ends at
      `baseEnd + k * delta`, the delta being the distance of the first start. */
  lemma AbsoluteIncrementalStaircase(p: Prop, current: real, later: real, k: nat)
    requires !p.relative && p.add.Some? && p.mul.Some? && p.sub.Some? && p.delta.None?
    requires p.from == NoFrom && p.core.cfg.loopType == Incremental
    ensures var s0 := OnStartStep(p, current, 0);
      var sk := OnStartStep(s0.prop, later, k);
      var sk1 := OnStartStep(s0.prop, later, k + 1);
      && s0.prop.end == p.baseEnd
      && sk.prop.end == p.baseEnd + (k as real) * (p.baseEnd - current)
      && sk1.prop.end - sk.prop.end == p.baseEnd - current
  {
  }

  /** Without the Incremental loop type the factor is 1 and a relative tween
      always moves by `baseEnd` from where it starts. */
  lemma RelativeRestartMovesByBaseEnd(p: Prop, current: real, loopsDone: int)
    requires p.relative && p.add.Some? && p.mul.Some? && p.core.cfg.loopType != Incremental
    ensures var s := OnStartStep(p, current, loopsDone);
      s.prop.end == s.prop.start + p.baseEnd
  {
  }
}
