/** Shared vocabulary of the tween engine: identities, enums, the float helpers of
    UnityEngine.Mathf the engine relies on (over reals), and Unity's null semantics. */
module Common {

  /** A nullable value: `None` is C#'s `null`. */
  datatype Option<+T> = None | Some(value: T) {
    function GetOr(default: T): T {
      match this
      case Some(v) => v
      case None => default
    }
  }

  /** Identity of a heap object of the engine (a tween or a sequence instance). */
  type Handle = nat
  /** Identity of the Unity object a tween animates. */
  type TargetId = nat
  /** A user-supplied tween id; `object.Equals` on ids is modelled as `==`. */
  type UserId = nat
  /** An easing curve; the engine only ever calls it, never inspects it. */
  type EaseId = nat
  /** A caller-supplied closure (getter, setter or operator of a property tween). */
  type ClosureId = nat
  /** A caller-supplied callback placed on a sequence timeline. */
  type CallbackId = nat

  /** `CurvesType.Linear`, the ease a step gets when none is given. */
  const Linear: EaseId := 0

  /** The minimum step duration; it keeps `elapsed / duration` well defined. */
  const Epsilon: real := 0.0001

  datatype UpdateType = Normal | Late | Fixed
  datatype LoopType = Restart | Yoyo | Incremental

  /** `Mathf.Max` */
  function Max(a: real, b: real): (r: real)
    ensures r >= a && r >= b
    ensures r == a || r == b
  {
    if a >= b then a else b
  }

  /** `Mathf.Clamp`: below the range gives the lower end, above it the upper end. */
  function Clamp(x: real, lo: real, hi: real): (r: real)
    ensures lo <= hi ==> lo <= r <= hi
    ensures lo <= x <= hi ==> r == x
    ensures x < lo ==> r == lo
    ensures lo <= hi && x > hi ==> r == hi
  {
    if x < lo then lo else if x > hi then hi else x
  }

  /** `Mathf.Clamp01` */
  function Clamp01(x: real): (r: real)
    ensures 0.0 <= r <= 1.0
    ensures 0.0 <= x <= 1.0 ==> r == x
  {
    Clamp(x, 0.0, 1.0)
  }

  /** Unity's `obj == null`: a missing reference or a destroyed object. */
  predicate IsNull(t: Option<TargetId>, destroyed: set<TargetId>)
  {
    t.None? || t.value in destroyed
  }

  /** Unity's overloaded `==` on two object references: two null-like references
      are equal, a null-like one never equals a live one, live ones compare by identity. */
  predicate SameObject(a: Option<TargetId>, b: Option<TargetId>, destroyed: set<TargetId>)
  {
    if IsNull(a, destroyed) || IsNull(b, destroyed) then
      IsNull(a, destroyed) && IsNull(b, destroyed)
    else
      a.value == b.value
  }
}

/** The observable effects of the engine. Closures the engine calls but cannot see
    (easing, step application, start hooks, user callbacks, the scheduler, Release)
    are recorded as events, in the order the source performs them. */
module Events {
  import opened Common

  /** The four user callbacks of `TweenActionCore`. */
  datatype Hook = OnComplete | OnPlay | OnPause | OnKill

  datatype Event =
    | Hooked(hook: Hook)                        // a user callback ran
    | StepStarted(step: nat, loopsDone: int)    // a step's OnStart ran (LoopsDone at that moment)
    | StepApplied(step: nat, progress: real)    // a step's Apply received Ease(progress)
    | Registered                                // TweenManager.AddTween(this)
    | BucketMoved(oldType: UpdateType, oldUnscaled: bool) // TweenManager.ChangeUpdateType
    | ReleaseCalled                             // the virtual Release() was entered
    | Pooled                                    // the instance went into its pool's free list
    | Wrote(value: real)                        // a property tween's setter was called
    | ChildSought(child: Handle, local: real)   // child.Goto(local, play: false)
    | ChildRewound(child: Handle)               // child.Rewind(false)
    | CallbackInvoked(item: nat, forward: bool) // a timeline callback item fired

  /** Number of occurrences of `e` in `trace`. */
  function Occurrences(trace: seq<Event>, e: Event): (n: nat)
    ensures n <= |trace|
    ensures n == 0 <==> e !in trace
  {
    if |trace| == 0 then 0
    else (if trace[0] == e then 1 else 0) + Occurrences(trace[1..], e)
  }

  /** Counting over a trace with one event in front. */
  lemma OccurrencesCons(x: Event, t: seq<Event>, e: Event)
    ensures Occurrences([x] + t, e) == (if x == e then 1 else 0) + Occurrences(t, e)
  {
    assert ([x] + t)[1..] == t;
  }

  lemma {:induction false} OccurrencesAppend(a: seq<Event>, b: seq<Event>, e: Event)
    ensures Occurrences(a + b, e) == Occurrences(a, e) + Occurrences(b, e)
  {
    if |a| == 0 {
      assert a + b == b;
    } else {
      assert (a + b)[1..] == a[1..] + b;
      OccurrencesAppend(a[1..], b, e);
    }
  }
}
