/** `PropertyTween<T>` with `T = float` (the operators `TweenFactory.To` passes):
    a one-step sequencer whose start hook resolves the start and end values, whose
    step writes `setter(lerp(start, end, eased t))`, and whose instances are
    recycled through a bounded free list. The animated property is one cell that
    the getter reads and the setter writes. */
module Property {
  import opened Common
  import opened Events
  import opened ActionCore
  import opened Pooling

  /** `MaxPool` */
  const MaxPool: nat := 256

  /** `FromInstruction`: how the start value is chosen. */
  datatype FromMode = NoFrom | FromAbsolute(value: real) | FromRelative(offset: real) | FromCurrent

  /** One instance. Closures are identities, `None` being `null`; when present,
      `add`, `sub`, `mul` and `lerp` are the float operators `a + b`, `a - b`,
      `a * f` and `Mathf.LerpUnclamped`. `delta` merges `_deltaInit` and `_delta`. */
  datatype Prop = Prop(
    core: Core,
    getter: Option<ClosureId>,
    setter: Option<ClosureId>,
    lerp: Option<ClosureId>,
    add: Option<ClosureId>,
    sub: Option<ClosureId>,
    mul: Option<ClosureId>,
    baseEnd: real,
    start: real,
    end: real,
    relative: bool,
    from: FromMode,
    delta: Option<real>,
    inPool: bool)

  /** An instance after an operation, with the effects performed. */
  datatype Done = Done(prop: Prop, trace: seq<Event>)

  /** The closures a rented instance calls while it plays. */
  predicate Live(p: Prop)
  {
    p.getter.Some? && p.setter.Some? && p.lerp.Some?
  }

  /** Whether an effect belongs to the main step, the one `AddMainStep` adds
      first. A step appended later through the base class's `AppendInterval` or
      `AppendCallback` starts the user's callback (if any) and applies `_ => { }`:
      it touches neither the property nor the instance's closures. */
  predicate OfMain(e: Event)
  {
    (e.StepStarted? || e.StepApplied?) && e.step == 0
  }

  /** A core trace that neither starts nor applies the main step, so it calls
      none of the instance's closures (a killed tween's tick is one). */
  predicate Inert(trace: seq<Event>)
  {
    forall e :: e in trace ==> !OfMain(e)
  }

  /** `Mathf.LerpUnclamped` */
  function Lerp(a: real, b: real, t: real): real
  {
    a + (b - a) * t
  }

  /** The interpolation starts at `a` and ends at `b`. */
  lemma LerpEnds(a: real, b: real)
    ensures Lerp(a, b, 0.0) == a && Lerp(a, b, 1.0) == b
  {
  }

  /** `new PropertyTween<T>()`: every field at its initial value. */
  function Fresh(): (r: Prop)
    ensures !r.inPool && r.core.steps == [] && !Live(r)
    ensures r.start == 0.0 && r.end == 0.0
  {
    Prop(ResetCore(None, false), None, None, None, None, None, None, 0.0, 0.0, 0.0, false, NoFrom, None, false)
  }

  /** The per-instance part of `Rent`: reset the core, store the closures and the
      end value, clear the relative flag, the From instruction and the delta
      cache, then add the single step whose start hook is `OnStartStep`. Only
      `_start` and `_end` survive from an earlier rental. */
  function Reset(obj: Prop, target: Option<TargetId>, autoPlay: bool,
                 getter: ClosureId, setter: ClosureId, endValue: real, duration: real,
                 lerp: ClosureId, add: Option<ClosureId>, sub: Option<ClosureId>, mul: Option<ClosureId>): (r: Done)
    ensures Valid(r.prop.core) && Live(r.prop) && !r.prop.inPool
    ensures r.prop.getter == Some(getter) && r.prop.setter == Some(setter) && r.prop.lerp == Some(lerp)
    ensures r.prop.add == add && r.prop.sub == sub && r.prop.mul == mul && r.prop.baseEnd == endValue
    ensures !r.prop.relative && r.prop.from == NoFrom && r.prop.delta.None?
    ensures r.prop.start == obj.start && r.prop.end == obj.end
    ensures r.prop.core.steps == [Step(Max(Epsilon, duration), Linear, true)]
    ensures r.prop.core.head == Head(0, 0.0, 1, 0, 0.0, {})
    ensures r.prop.core.cfg == ResetCore(target, autoPlay).cfg
    ensures !r.prop.core.killed && !r.prop.core.paused && (r.prop.core.playing <==> autoPlay)
    ensures r.trace == (if autoPlay then [Registered] else [])
  {
    var a := AddStep(ResetCore(target, autoPlay), duration, None, true);
    assert a.core.steps == [] + [Step(Max(Epsilon, duration), Linear, true)];
    Done(Prop(a.core, Some(getter), Some(setter), Some(lerp), add, sub, mul,
              endValue, obj.start, obj.end, false, NoFrom, None, false), a.trace)
  }

  /** `SetRelative` invokes the last step's `ConfigRelative`. Only the main step
      carries one, so the flag changes only while the main step is the last (and
      only) step; without steps, or after an interval or callback step, nothing
      changes. */
  function SetRelative(p: Prop, relative: bool): (r: Prop)
    ensures |p.core.steps| == 1 ==> r == p.(relative := relative)
    ensures |p.core.steps| != 1 ==> r == p
  {
    if |p.core.steps| == 1 then p.(relative := relative) else p
  }

  /** `From`/`FromRelative`/`FromCurrent` invoke the last step's `ConfigFrom`,
      which only the main step carries. */
  function SetFrom(p: Prop, from: FromMode): (r: Prop)
    ensures |p.core.steps| == 1 ==> r == p.(from := from)
    ensures |p.core.steps| != 1 ==> r == p
  {
    if |p.core.steps| == 1 then p.(from := from) else p
  }

  /** The loop multiplier: `LoopsDone + 1` for Incremental loops, otherwise 1. */
  function IncFactor(loopType: LoopType, loopsDone: int): (f: real)
    ensures loopType == Incremental ==> f == (loopsDone + 1) as real
    ensures loopType != Incremental ==> f == 1.0
  {
    if loopType == Incremental then (loopsDone + 1) as real else 1.0
  }

  /** A start hook's outcome: the instance, the property value afterwards, the writes. */
  datatype Started = Started(prop: Prop, value: real, trace: seq<Event>)

  /** `OnStartStep`, given the property's `current` value and the loop counter.
      The delta is cached on the first non-relative start that has `sub`; the
      provisional end (for `FromRelative`) and the end follow the relative flag,
      the Incremental factor and the cached delta. */
  function OnStartStep(p: Prop, current: real, loopsDone: int): (r: Started)
    ensures r.prop == p.(delta := r.prop.delta, start := r.prop.start, end := r.prop.end)
    ensures !p.relative && p.delta.None? && p.sub.Some? ==> r.prop.delta == Some(p.baseEnd - current)
    ensures p.relative || p.delta.Some? || p.sub.None? ==> r.prop.delta == p.delta
    ensures (p.from.FromAbsolute? || (p.from.FromRelative? && p.add.Some?)) <==> r.trace != []
    ensures r.trace != [] ==> r.trace == [Wrote(r.prop.start)] && r.value == r.prop.start
    ensures r.trace == [] ==> r.prop.start == current && r.value == current
    ensures p.from.FromAbsolute? ==> r.prop.start == p.from.value
    ensures p.relative && p.add.Some? && p.mul.Some? ==>
              && r.prop.end == r.prop.start + p.baseEnd * IncFactor(p.core.cfg.loopType, loopsDone)
              && (p.from.FromRelative? ==>
                    r.prop.start == current + p.baseEnd * IncFactor(p.core.cfg.loopType, loopsDone) + p.from.offset)
    ensures p.relative && (p.add.None? || p.mul.None?) ==>
              r.prop.end == p.baseEnd && (p.from.FromRelative? && p.add.Some? ==> r.prop.start == p.baseEnd + p.from.offset)
    ensures !p.relative && p.core.cfg.loopType == Incremental && p.add.Some? && p.mul.Some? && r.prop.delta.Some? ==>
              && r.prop.end == p.baseEnd + r.prop.delta.value * (loopsDone as real)
              && (p.from.FromRelative? ==> r.prop.start == r.prop.end + p.from.offset)
    ensures !p.relative && !(p.core.cfg.loopType == Incremental && p.add.Some? && p.mul.Some? && r.prop.delta.Some?) ==>
              r.prop.end == p.baseEnd && (p.from.FromRelative? && p.add.Some? ==> r.prop.start == p.baseEnd + p.from.offset)
  {
    var delta := if !p.relative && p.delta.None? && p.sub.Some? then Some(p.baseEnd - current) else p.delta;
    var inc := IncFactor(p.core.cfg.loopType, loopsDone);
    var scaled := p.add.Some? && p.mul.Some?;
    var stepped := p.core.cfg.loopType == Incremental && scaled && delta.Some?;
    var provisionalEnd :=
      if p.relative then (if scaled then current + p.baseEnd * inc else p.baseEnd)
      else if stepped then p.baseEnd + delta.value * (loopsDone as real)
      else p.baseEnd;
    var start :=
      match p.from
      case FromAbsolute(v) => v
      case FromRelative(offset) => if p.add.Some? then provisionalEnd + offset else current
      case _ => current;
    var writes := p.from.FromAbsolute? || (p.from.FromRelative? && p.add.Some?);
    var end :=
      if p.relative then (if scaled then start + p.baseEnd * inc else p.baseEnd)
      else if stepped then p.baseEnd + delta.value * (loopsDone as real)
      else p.baseEnd;
    Started(p.(delta := delta, start := start, end := end),
            if writes then start else current,
            if writes then [Wrote(start)] else [])
  }

  /** A step's effects made concrete: `Applied(value, pool)`. */
  datatype Played = Played(prop: Prop, value: real, trace: seq<Event>)

  /** Runs the property tween's side of a core trace: a start of the main step
      runs `OnStartStep` on the current property value, an application of the
      main step writes `lerp(start, end, ease(progress))` through the setter;
      every other effect, those of later steps included, passes through
      unchanged. An inert trace needs no closure, which is why `Perform` runs
      this only on a trace that has main-step effects. */
  function Interpret(p: Prop, trace: seq<Event>, value: real, ease: real -> real): (r: Played)
    requires Live(p)
    ensures Live(r.prop)
    ensures r.prop == p.(delta := r.prop.delta, start := r.prop.start, end := r.prop.end)
    ensures p.delta.Some? ==> r.prop.delta == p.delta
    ensures (forall e :: e in trace ==> !(OfMain(e) && e.StepStarted?)) ==> r.prop == p
    ensures Inert(trace) ==> r == Played(p, value, trace)
    ensures forall e :: e in trace ==> e in r.trace
    decreases |trace|
  {
    if |trace| == 0 then Played(p, value, [])
    else
      match trace[0]
      case StepStarted(0, loopsDone) =>
        assert trace[0] in trace;
        var s := OnStartStep(p, value, loopsDone);
        var rest := Interpret(s.prop, trace[1..], s.value, ease);
        Played(rest.prop, rest.value, [trace[0]] + s.trace + rest.trace)
      case StepApplied(0, progress) =>
        assert trace[0] in trace;
        var v := Lerp(p.start, p.end, ease(progress));
        var rest := Interpret(p, trace[1..], v, ease);
        Played(rest.prop, rest.value, [trace[0], Wrote(v)] + rest.trace)
      case _ =>
        var rest := Interpret(p, trace[1..], value, ease);
        Played(rest.prop, rest.value, [trace[0]] + rest.trace)
  }

  /** The main step's apply writes `lerp(start, end, eased t)` and nothing else. */
  lemma ApplyWritesLerp(p: Prop, progress: real, value: real, ease: real -> real)
    requires Live(p)
    ensures var r := Interpret(p, [StepApplied(0, progress)], value, ease);
      && r.prop == p
      && r.value == Lerp(p.start, p.end, ease(progress))
      && r.trace == [StepApplied(0, progress), Wrote(r.value)]
  {
    assert [StepApplied(0, progress)][1..] == [];
  }

  // ---- Pool ----

  /** The static pool of property tweens. */
  type PropPool = Pool<Prop>

  /** The free list is a bounded stack of pooled instances, and a pooled instance
      holds no closures. */
  ghost predicate PoolValid(w: PropPool)
  {
    && Stacked(w, MaxPool)
    && (forall i :: 0 <= i < |w.free| ==> w.objects[w.free[i]].inPool)
    && (forall h :: h in w.objects && w.objects[h].inPool ==> !Live(w.objects[h]))
  }

  /** A rental: the pool afterwards, the instance handed out, the effects. */
  datatype Rental = Rental(pool: PropPool, handle: Handle, trace: seq<Event>)

  /** `Rent`: pops the most recently released instance, or creates one, and resets it. */
  function Rent(w: PropPool, target: Option<TargetId>, autoPlay: bool,
                getter: ClosureId, setter: ClosureId, endValue: real, duration: real,
                lerp: ClosureId, add: Option<ClosureId>, sub: Option<ClosureId>, mul: Option<ClosureId>): (r: Rental)
    requires PoolValid(w)
    ensures PoolValid(r.pool)
    ensures r.handle in r.pool.objects && r.handle !in r.pool.free
    ensures |w.free| > 0 ==>
              r.handle == w.free[|w.free| - 1] && r.pool.free == w.free[..|w.free| - 1]
              && r.pool.objects[r.handle] ==
                   Reset(w.objects[r.handle], target, autoPlay, getter, setter, endValue, duration, lerp, add, sub, mul).prop
    ensures |w.free| == 0 ==>
              r.handle !in w.objects && r.pool.free == []
              && r.pool.objects[r.handle] ==
                   Reset(Fresh(), target, autoPlay, getter, setter, endValue, duration, lerp, add, sub, mul).prop
    ensures r.pool.objects.Keys == w.objects.Keys + {r.handle}
    ensures forall k :: k in w.objects && k != r.handle ==> r.pool.objects[k] == w.objects[k]
  {
    var t := Take(w, MaxPool, Fresh());
    var d := Reset(t.obj.(inPool := false), target, autoPlay, getter, setter, endValue, duration, lerp, add, sub, mul);
    Rental(Give(t, d.prop), t.handle, d.trace)
  }

  datatype Released = Released(pool: PropPool, trace: seq<Event>)

  /** The condition under which `Release` only pauses: a tween kept alive by the
      user (AutoKill off), not killed, whose target still exists. */
  predicate Kept(p: Prop, destroyed: set<TargetId>)
  {
    !p.core.cfg.autoKill && !p.core.killed && !IsNull(p.core.cfg.target, destroyed)
  }

  /** `Release` (the override the core's `Finish` and `Complete` call). A kept
      tween is paused and stays rented with its closures; otherwise the instance
      is marked pooled once, its closures are dropped, and it is pushed onto the
      free list unless the list already holds `MaxPool` instances. */
  function Release(w: PropPool, h: Handle, destroyed: set<TargetId>): (r: Released)
    requires PoolValid(w) && h in w.objects
    ensures PoolValid(r.pool) && r.pool.next == w.next
    ensures r.pool.objects.Keys == w.objects.Keys
    ensures forall k :: k in w.objects && k != h ==> r.pool.objects[k] == w.objects[k]
    ensures var p := w.objects[h];
      Kept(p, destroyed) ==>
        && r.pool.objects[h] == p.(core := Pause(p.core).core)
        && r.pool.free == w.free && r.trace == Pause(p.core).trace
    ensures var p := w.objects[h];
      !Kept(p, destroyed) && p.inPool ==> r == Released(w, [])
    ensures var p := w.objects[h];
      !Kept(p, destroyed) && !p.inPool ==>
        && r.pool.objects[h] == p.(inPool := true, getter := None, setter := None, lerp := None,
                                   add := None, sub := None, mul := None)
        && (|w.free| < MaxPool ==> r.pool.free == w.free + [h] && r.trace == [Pooled])
        && (|w.free| >= MaxPool ==> r.pool.free == w.free && r.trace == [])
    ensures !Kept(w.objects[h], destroyed) ==> r.pool.objects[h].inPool && !Live(r.pool.objects[h])
  {
    var p := w.objects[h];
    if Kept(p, destroyed) then
      var q := Pause(p.core);
      Released(w.(objects := w.objects[h := p.(core := q.core)]), q.trace)
    else if p.inPool then Released(w, [])
    else
      var p1 := p.(inPool := true, getter := None, setter := None, lerp := None, add := None, sub := None, mul := None);
      var objects := w.objects[h := p1];
      var w1 := w.(objects := objects);
      Released(Push(w1, h, MaxPool), if |w.free| < MaxPool then [Pooled] else [])
  }

  /** A playing instance after a core operation. */
  datatype Driven = Driven(pool: PropPool, value: real, trace: seq<Event>)

  /** Replaces instance `h`'s core by `core`, performs the property side of the
      core's effects and, when the core asked for it, the instance's `Release`.
      An instance whose closures were dropped can only be handed an inert trace. */
  function Perform(w: PropPool, h: Handle, core: Core, trace: seq<Event>, value: real,
                   ease: real -> real, destroyed: set<TargetId>): (r: Driven)
    requires PoolValid(w) && h in w.objects
    requires Live(w.objects[h]) || Inert(trace)
    ensures PoolValid(r.pool) && h in r.pool.objects
    ensures r.pool.objects[h].core == core || ReleaseCalled in trace
    ensures ReleaseCalled !in trace ==> r.pool.free == w.free
    ensures var p := w.objects[h];
      p.inPool && !Kept(p.(core := core), destroyed) && Inert(trace) ==>
        r == Driven(w.(objects := w.objects[h := p.(core := core)]), value, trace)
  {
    var p := w.objects[h];
    var i := if Inert(trace) then Played(p.(core := core), value, trace)
             else Interpret(p.(core := core), trace, value, ease);
    var w1 := w.(objects := w.objects[h := i.prop]);
    if ReleaseCalled in trace then
      var rel := Release(w1, h, destroyed);
      Driven(rel.pool, i.value, i.trace + rel.trace)
    else Driven(w1, i.value, i.trace)
  }

  /** One scheduler tick of a property tween. An instance already released can
      still be listed: a tween the user completed with AutoKill on (killed), or a
      finished one that a stale reference re-registered. Its tick does not reach
      the main step; it finishes, and its `Release` returns at once on `_inPool`. */
  function Update(w: PropPool, h: Handle, deltaTime: real, value: real, ease: real -> real,
                  destroyed: set<TargetId>): (r: (bool, Driven))
    requires PoolValid(w) && h in w.objects && Valid(w.objects[h].core)
    requires Live(w.objects[h]) || Inert(UpdateTween(w.objects[h].core, deltaTime).trace)
    ensures r.0 == UpdateTween(w.objects[h].core, deltaTime).alive
    ensures PoolValid(r.1.pool)
    ensures w.objects[h].core.killed ==> !r.0 && |r.1.trace| > 0 && r.1.trace[0] == ReleaseCalled
    ensures w.objects[h].core.killed && w.objects[h].inPool ==>
              r.1 == Driven(w, value, [ReleaseCalled])
    ensures var p := w.objects[h];
      var t := UpdateTween(p.core, deltaTime);
      p.inPool && !Kept(p.(core := t.core), destroyed) && Inert(t.trace) ==>
        r.1.pool.free == w.free && r.1.value == value && r.1.trace == t.trace
  {
    var t := UpdateTween(w.objects[h].core, deltaTime);
    (t.alive, Perform(w, h, t.core, t.trace, value, ease, destroyed))
  }
}
