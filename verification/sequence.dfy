/** The timeline compositor `TweenSequence`: child tweens and callbacks placed at
    offsets on one clock. The sequence is itself a `TweenActionCore` (with no
    steps of its own unless a caller adds raw ones), so its loops, delay,
    speed and pause state live in the embedded core. Children are other tweens
    the sequence only drives from outside: seeking and rewinding one is an
    event of the trace. */
module Sequence {
  import opened Common
  import opened Events
  import opened Pooling
  import ActionCore

  /** `MaxPool` of the sequence pool. */
  const MaxPool: nat := 64

  /** A tween's `Duration` is a sum of non-negative durations. */
  type Length = x: real | x >= 0.0

  /** A child tween and the duration it had when it was placed. */
  datatype Child = Child(tween: Handle, length: Length)

  datatype Content = Nested(child: Child) | Callback(cb: CallbackId)

  /** `Item`: a child or a callback, its offsets, and the per-direction fired flags. */
  datatype Item = Item(content: Content, start: real, end: real, firedForward: bool, firedBackward: bool)

  /** A `TweenSequence`: its core, `_items`, `_duration`, `_lastAppendStart`,
      `_time` and `_inPool`. */
  datatype Timeline = Timeline(
    core: ActionCore.Core,
    items: seq<Item>,
    duration: real,
    lastAppendStart: real,
    time: real,
    inPool: bool)

  /** State after a builder or control call, with the effects it performed. */
  datatype Out = Out(tl: Timeline, trace: seq<Event>)
  /** State after a tick; `alive == false` asks the scheduler to evict. */
  datatype Tick = Tick(tl: Timeline, alive: bool, trace: seq<Event>)

  /** The time an item occupies on the timeline: a child's duration, nothing for a callback. */
  function Span(c: Content): real
  {
    if c.Nested? then c.child.length else 0.0
  }

  /** An item lies within the timeline and ends `Span` after it starts. */
  predicate Fits(it: Item, duration: real)
  {
    0.0 <= it.start && it.end == it.start + Span(it.content) && it.end <= duration
  }

  /** The layout invariant the builders keep, and the clock range. */
  ghost predicate Placed(s: Timeline)
  {
    && 0.0 <= s.lastAppendStart <= s.duration
    && 0.0 <= s.time <= s.duration
    && (forall k :: 0 <= k < |s.items| ==> Fits(s.items[k], s.duration))
  }

  ghost predicate Valid(s: Timeline)
  {
    Placed(s) && ActionCore.Valid(s.core)
  }

  // ---- Building ----

  /** A child item placed at `start`, not yet fired either way. */
  function Place(c: Child, start: real): (it: Item)
    ensures it.content == Nested(c) && it.start == start && it.end == start + c.length
    ensures !it.firedForward && !it.firedBackward
  {
    Item(Nested(c), start, start + c.length, false, false)
  }

  /** An item moved `d` later on the timeline. */
  function Later(it: Item, d: real): (r: Item)
    ensures r.content == it.content && r.start == it.start + d && r.end == it.end + d
    ensures r.firedForward == it.firedForward && r.firedBackward == it.firedBackward
  {
    it.(start := it.start + d, end := it.end + d)
  }

  /** Every item moved `d` later, as the loop of `Prepend` and `PrependInterval` does. */
  function Shift(items: seq<Item>, d: real): (r: seq<Item>)
    ensures |r| == |items|
    ensures forall k :: 0 <= k < |items| ==> r[k] == Later(items[k], d)
  {
    seq(|items|, k requires 0 <= k < |items| => Later(items[k], d))
  }

  /** `Play()` at the end of every builder. */
  function Played(s: Timeline): (r: Out)
    ensures r.tl.(core := s.core) == s
    ensures r.tl.core == ActionCore.Autoplay(s.core).core && r.trace == ActionCore.Autoplay(s.core).trace
  {
    var a := ActionCore.Autoplay(s.core);
    Out(s.(core := a.core), a.trace)
  }

  /** `Append`: the child starts where the timeline ended, and becomes the anchor for `Join`. */
  function Append(s: Timeline, child: Option<Child>): (r: Out)
    requires Placed(s)
    ensures Placed(r.tl)
    ensures r.tl.time == s.time && r.tl.inPool == s.inPool
    ensures child.None? ==> r == Out(s, [])
    ensures child.Some? ==>
              && r.tl.items == s.items + [Place(child.value, s.duration)]
              && r.tl.duration == s.duration + child.value.length
              && r.tl.lastAppendStart == s.duration
              && r.tl.core == ActionCore.Autoplay(s.core).core && r.trace == ActionCore.Autoplay(s.core).trace
  {
    if child.None? then Out(s, [])
    else
      var c := child.value;
      var start := s.duration;
      Played(s.(lastAppendStart := start, items := s.items + [Place(c, start)],
                duration := Max(s.duration, start + c.length)))
  }

  /** `Prepend`: the child takes `[0, length]` and everything already placed,
      the `Join` anchor included, moves `length` later. */
  function Prepend(s: Timeline, child: Option<Child>): (r: Out)
    requires Placed(s)
    ensures Placed(r.tl)
    ensures r.tl.time == s.time && r.tl.inPool == s.inPool
    ensures child.None? ==> r == Out(s, [])
    ensures child.Some? ==>
              && r.tl.items == [Place(child.value, 0.0)] + Shift(s.items, child.value.length)
              && r.tl.duration == s.duration + child.value.length
              && r.tl.lastAppendStart == s.lastAppendStart + child.value.length
              && r.tl.core == ActionCore.Autoplay(s.core).core && r.trace == ActionCore.Autoplay(s.core).trace
  {
    if child.None? then Out(s, [])
    else
      var c := child.value;
      Played(s.(items := [Place(c, 0.0)] + Shift(s.items, c.length),
                duration := s.duration + c.length,
                lastAppendStart := s.lastAppendStart + c.length))
  }

  /** `Join`: the child starts with the last appended one. */
  function Join(s: Timeline, child: Option<Child>): (r: Out)
    requires Placed(s)
    ensures Placed(r.tl)
    ensures r.tl.time == s.time && r.tl.inPool == s.inPool
    ensures child.None? ==> r == Out(s, [])
    ensures child.Some? ==>
              && r.tl.items == s.items + [Place(child.value, s.lastAppendStart)]
              && r.tl.duration == Max(s.duration, s.lastAppendStart + child.value.length)
              && r.tl.lastAppendStart == s.lastAppendStart
              && r.tl.core == ActionCore.Autoplay(s.core).core && r.trace == ActionCore.Autoplay(s.core).trace
  {
    if child.None? then Out(s, [])
    else
      var c := child.value;
      var start := s.lastAppendStart;
      Played(s.(items := s.items + [Place(c, start)], duration := Max(s.duration, start + c.length)))
  }

  /** `Insert`: the child starts at `atTime`, raised to 0; the `Join` anchor is
      left where the last `Append` put it. */
  function Insert(s: Timeline, atTime: real, child: Option<Child>): (r: Out)
    requires Placed(s)
    ensures Placed(r.tl)
    ensures r.tl.time == s.time && r.tl.inPool == s.inPool
    ensures child.None? ==> r == Out(s, [])
    ensures child.Some? ==>
              && r.tl.items == s.items + [Place(child.value, Max(0.0, atTime))]
              && r.tl.duration == Max(s.duration, Max(0.0, atTime) + child.value.length)
              && r.tl.lastAppendStart == s.lastAppendStart
              && r.tl.core == ActionCore.Autoplay(s.core).core && r.trace == ActionCore.Autoplay(s.core).trace
  {
    if child.None? then Out(s, [])
    else
      var c := child.value;
      var at := Max(0.0, atTime);
      Played(s.(items := s.items + [Place(c, at)], duration := Max(s.duration, at + c.length)))
  }

  /** `AppendInterval`: the timeline grows by the gap (negative gaps count as 0)
      and the `Join` anchor moves to where the gap starts. */
  function AppendInterval(s: Timeline, duration: real): (r: Out)
    requires Placed(s)
    ensures Placed(r.tl)
    ensures r.tl.items == s.items && r.tl.time == s.time && r.tl.inPool == s.inPool
    ensures r.tl.duration == s.duration + Max(0.0, duration)
    ensures r.tl.lastAppendStart == s.duration
    ensures r.tl.core == ActionCore.Autoplay(s.core).core && r.trace == ActionCore.Autoplay(s.core).trace
  {
    var d := Max(0.0, duration);
    var total := s.duration + d;
    Played(s.(duration := total, lastAppendStart := total - d))
  }

  /** `PrependInterval`: everything moves later by the gap. */
  function PrependInterval(s: Timeline, duration: real): (r: Out)
    requires Placed(s)
    ensures Placed(r.tl)
    ensures r.tl.time == s.time && r.tl.inPool == s.inPool
    ensures r.tl.items == Shift(s.items, Max(0.0, duration))
    ensures r.tl.duration == s.duration + Max(0.0, duration)
    ensures r.tl.lastAppendStart == s.lastAppendStart + Max(0.0, duration)
    ensures r.tl.core == ActionCore.Autoplay(s.core).core && r.trace == ActionCore.Autoplay(s.core).trace
  {
    var d := Max(0.0, duration);
    Played(s.(items := Shift(s.items, d), duration := s.duration + d, lastAppendStart := s.lastAppendStart + d))
  }

  /** `AppendCallback`: a zero-length item at the current end; the timeline does not grow. */
  function AppendCallback(s: Timeline, cb: Option<CallbackId>): (r: Out)
    requires Placed(s)
    ensures Placed(r.tl)
    ensures r.tl.duration == s.duration && r.tl.lastAppendStart == s.lastAppendStart
    ensures r.tl.time == s.time && r.tl.inPool == s.inPool
    ensures cb.None? ==> r == Out(s, [])
    ensures cb.Some? ==>
              && r.tl.items == s.items + [Item(Callback(cb.value), s.duration, s.duration, false, false)]
              && r.tl.core == ActionCore.Autoplay(s.core).core && r.trace == ActionCore.Autoplay(s.core).trace
  {
    if cb.None? then Out(s, [])
    else Played(s.(items := s.items + [Item(Callback(cb.value), s.duration, s.duration, false, false)]))
  }

  // ---- Driving the children ----

  /** The local time a child is sought to: the timeline time relative to the
      child's start, clamped to the child's duration. */
  function Local(it: Item, time: real): (r: real)
    requires it.content.Nested?
    ensures 0.0 <= r <= it.content.child.length
    ensures it.start <= time <= it.start + it.content.child.length ==> r == time - it.start
    ensures time <= it.start ==> r == 0.0
    ensures time >= it.start + it.content.child.length ==> r == it.content.child.length
  {
    Clamp(time - it.start, 0.0, it.content.child.length)
  }

  /** `item.Tween.Goto(local, play: false)` */
  function Sought(it: Item, time: real): Event
    requires it.content.Nested?
  {
    ChildSought(it.content.child.tween, Local(it, time))
  }

  /** `EvaluateScrub`: every child, in order, is sought to its local time;
      callback items are skipped. */
  function Scrub(items: seq<Item>, time: real): (r: seq<Event>)
    ensures forall e :: e in r ==> e.ChildSought?
  {
    if |items| == 0 then []
    else
      var rest := Scrub(items[1..], time);
      if items[0].content.Nested? then [Sought(items[0], time)] + rest else rest
  }

  /** A scrub seeks every child, each to its own local time. */
  lemma {:induction false} ScrubSeeks(items: seq<Item>, time: real)
    ensures forall k :: 0 <= k < |items| && items[k].content.Nested? ==> Sought(items[k], time) in Scrub(items, time)
  {
    if |items| > 0 {
      ScrubSeeks(items[1..], time);
      assert forall k :: 1 <= k < |items| ==> items[k] == items[1..][k - 1];
    }
  }

  /** A scrub seeks nothing but the children. */
  lemma {:induction false} ScrubOnly(items: seq<Item>, time: real)
    ensures forall e :: e in Scrub(items, time) ==>
              exists k :: 0 <= k < |items| && items[k].content.Nested? && e == Sought(items[k], time)
  {
    if |items| > 0 {
      ScrubOnly(items[1..], time);
      assert forall k :: 1 <= k < |items| ==> items[k] == items[1..][k - 1];
    }
  }

  /** The `Rewind(false)` of every child, in order, at a Restart or Incremental loop boundary. */
  function RewindChildren(items: seq<Item>): (r: seq<Event>)
    ensures forall e :: e in r ==> e.ChildRewound?
    ensures forall k :: 0 <= k < |items| && items[k].content.Nested? ==> ChildRewound(items[k].content.child.tween) in r
    ensures forall e :: e in r ==>
              exists k :: 0 <= k < |items| && items[k].content.Nested? && e == ChildRewound(items[k].content.child.tween)
  {
    if |items| == 0 then []
    else
      var rest := RewindChildren(items[1..]);
      assert forall k :: 1 <= k < |items| ==> items[k] == items[1..][k - 1];
      if items[0].content.Nested? then [ChildRewound(items[0].content.child.tween)] + rest else rest
  }

  // ---- Callbacks ----

  /** Whether a crossing from `prev` to `now` fires an item: a callback not yet
      fired in that direction whose offset is passed, strictly leaving the side
      it was on (a scrub that lands exactly on the offset does not fire). */
  predicate Fires(it: Item, prev: real, now: real, forward: bool)
  {
    && it.content.Callback?
    && if forward then !it.firedForward && prev < it.start && now >= it.start
       else !it.firedBackward && prev > it.start && now <= it.start
  }

  /** The item with its flag for `forward` set. */
  function Mark(it: Item, forward: bool): (r: Item)
    ensures r.content == it.content && r.start == it.start && r.end == it.end
    ensures forward ==> r.firedForward && r.firedBackward == it.firedBackward
    ensures !forward ==> r.firedBackward && r.firedForward == it.firedForward
  {
    if forward then it.(firedForward := true) else it.(firedBackward := true)
  }

  datatype Crossed = Crossed(items: seq<Item>, trace: seq<Event>)

  /** Every item the crossing fires, marked for its direction. */
  function MarkFired(items: seq<Item>, prev: real, now: real, forward: bool): (r: seq<Item>)
    ensures |r| == |items|
    ensures forall k :: 0 <= k < |items| ==>
              r[k] == (if Fires(items[k], prev, now, forward) then Mark(items[k], forward) else items[k])
  {
    seq(|items|, k requires 0 <= k < |items| =>
      if Fires(items[k], prev, now, forward) then Mark(items[k], forward) else items[k])
  }

  /** The invocations of the callback loop over `items`, whose first element is item `from`. */
  function Invoked(items: seq<Item>, from: nat, prev: real, now: real, forward: bool): (r: seq<Event>)
    ensures forall e :: e in r ==> e.CallbackInvoked? && e.forward == forward && from <= e.item < from + |items|
    decreases |items|
  {
    if |items| == 0 then []
    else
      var rest := Invoked(items[1..], from + 1, prev, now, forward);
      if Fires(items[0], prev, now, forward) then [CallbackInvoked(from, forward)] + rest else rest
  }

  /** The callback loop of `EvaluateCross` over `items`, whose first element is item `from`:
      each fired callback is marked and invoked. */
  function Invoke(items: seq<Item>, from: nat, prev: real, now: real, forward: bool): (r: Crossed)
    ensures |r.items| == |items|
    ensures forall k :: 0 <= k < |items| ==>
              r.items[k] == (if Fires(items[k], prev, now, forward) then Mark(items[k], forward) else items[k])
    ensures forall e :: e in r.trace ==>
              e.CallbackInvoked? && e.forward == forward && from <= e.item < from + |items|
  {
    Crossed(MarkFired(items, prev, now, forward), Invoked(items, from, prev, now, forward))
  }

  /** The callback loop invokes each callback once if the crossing fires it and never otherwise. */
  lemma {:induction false} InvokeOnce(items: seq<Item>, from: nat, prev: real, now: real, forward: bool, k: nat)
    requires k < |items|
    ensures Occurrences(Invoked(items, from, prev, now, forward), CallbackInvoked(from + k, forward))
            == (if Fires(items[k], prev, now, forward) then 1 else 0)
    decreases |items|
  {
    var rest := Invoked(items[1..], from + 1, prev, now, forward);
    var e := CallbackInvoked(from + k, forward);
    if k == 0 {
      assert e !in rest;
    } else {
      assert items[1..][k - 1] == items[k];
      InvokeOnce(items[1..], from + 1, prev, now, forward, k - 1);
    }
    if Fires(items[0], prev, now, forward) {
      OccurrencesCons(CallbackInvoked(from, forward), rest, e);
    }
  }

  /** `EvaluateCross`: seek the children to `now`, then fire every callback the
      crossing reaches, each at most once (`Occurrences`) and only if not yet
      fired in that direction. */
  function EvaluateCross(items: seq<Item>, prev: real, now: real, forward: bool): (r: Crossed)
    ensures |r.items| == |items|
    ensures forall k :: 0 <= k < |items| ==>
              r.items[k] == (if Fires(items[k], prev, now, forward) then Mark(items[k], forward) else items[k])
    ensures forall k :: 0 <= k < |items| && items[k].content.Nested? ==> Sought(items[k], now) in r.trace
    ensures forall e :: e in r.trace ==> e.ChildSought? || (e.CallbackInvoked? && e.forward == forward)
    ensures forall k :: 0 <= k < |items| ==>
              Occurrences(r.trace, CallbackInvoked(k, forward)) == (if Fires(items[k], prev, now, forward) then 1 else 0)
  {
    var sc := Scrub(items, now);
    ScrubSeeks(items, now);
    var c := Invoke(items, 0, prev, now, forward);
    forall k | 0 <= k < |items|
      ensures Occurrences(sc + c.trace, CallbackInvoked(k, forward)) == (if Fires(items[k], prev, now, forward) then 1 else 0)
    {
      OccurrencesAppend(sc, c.trace, CallbackInvoked(k, forward));
      InvokeOnce(items, 0, prev, now, forward, k);
      assert CallbackInvoked(k, forward) !in sc;
    }
    Crossed(c.items, sc + c.trace)
  }

  /** `ResetCallbackFlags` */
  function ResetFlags(items: seq<Item>): (r: seq<Item>)
    ensures |r| == |items|
    ensures forall k :: 0 <= k < |items| ==> r[k] == items[k].(firedForward := false, firedBackward := false)
  {
    seq(|items|, k requires 0 <= k < |items| => items[k].(firedForward := false, firedBackward := false))
  }

  /** Clearing the fired flags keeps every item inside the timeline. */
  lemma ResetFits(items: seq<Item>, duration: real)
    requires forall k :: 0 <= k < |items| ==> Fits(items[k], duration)
    ensures forall k :: 0 <= k < |items| ==> Fits(ResetFlags(items)[k], duration)
  {
    forall k | 0 <= k < |items| ensures Fits(ResetFlags(items)[k], duration) {
      assert Fits(items[k], duration);
    }
  }

  // ---- Scrub ----

  /** `Goto`: the core's own `Goto(0, false)` (loops, direction and delay reset),
      then the clamped time and every child sought to it; callbacks never fire. */
  function Goto(s: Timeline, time: real, play: bool): (r: Out)
    requires Valid(s)
    ensures Valid(r.tl)
    ensures r.tl.time == Clamp(time, 0.0, s.duration)
    ensures r.tl.items == s.items && r.tl.duration == s.duration
    ensures r.tl.lastAppendStart == s.lastAppendStart && r.tl.inPool == s.inPool
    ensures r.tl.core.head.loopsDone == 0 && r.tl.core.head.direction == 1
    ensures r.tl.core.head.delayElapsed == s.core.cfg.delay
    ensures r.tl.core.cfg == s.core.cfg && r.tl.core.steps == s.core.steps
    ensures !r.tl.core.killed && r.tl.core.paused == !play
    ensures forall k :: 0 <= k < |s.items| && s.items[k].content.Nested? ==> Sought(s.items[k], r.tl.time) in r.trace
    ensures forall e :: e in r.trace ==> !e.CallbackInvoked? && e != ReleaseCalled && e != Hooked(OnComplete)
  {
    var t := Clamp(time, 0.0, s.duration);
    var g := ActionCore.Goto(s.core, 0.0, false);
    var sc := Scrub(s.items, t);
    ScrubSeeks(s.items, t);
    var p := ActionCore.Settle(g.core, play);
    Out(s.(core := p.core, time := t), g.trace + sc + p.trace)
  }

  /** `Rewind`: the core's `Rewind`, which does nothing without raw steps (so the
      sequence's loop count and direction survive), then time 0, every flag
      cleared and every child sought to its start. */
  function Rewind(s: Timeline, play: bool): (r: Out)
    requires Valid(s)
    ensures Valid(r.tl)
    ensures r.tl.time == 0.0 && r.tl.core.paused == !play
    ensures r.tl.duration == s.duration && r.tl.lastAppendStart == s.lastAppendStart && r.tl.inPool == s.inPool
    ensures |r.tl.items| == |s.items|
    ensures forall k :: 0 <= k < |s.items| ==>
              r.tl.items[k] == s.items[k].(firedForward := false, firedBackward := false)
    ensures forall k :: 0 <= k < |s.items| && s.items[k].content.Nested? ==>
              ChildSought(s.items[k].content.child.tween, 0.0) in r.trace
    ensures s.core.steps == [] ==> r.tl.core.head == s.core.head
    ensures forall e :: e in r.trace ==> !e.CallbackInvoked? && e != ReleaseCalled
  {
    var b := ActionCore.Rewind(s.core, false);
    var items := ResetFlags(s.items);
    var sc := Scrub(items, 0.0);
    ScrubSeeks(items, 0.0);
    ResetFits(s.items, s.duration);
    var p := ActionCore.Settle(b.core, play);
    assert forall e :: e in b.trace + sc + p.trace ==> !e.CallbackInvoked? && e != ReleaseCalled by {
      forall e | e in b.trace + sc + p.trace ensures !e.CallbackInvoked? && e != ReleaseCalled {
        assert e in b.trace || e in sc || e in p.trace;
      }
    }
    assert forall k :: 0 <= k < |s.items| && s.items[k].content.Nested? ==>
             Sought(items[k], 0.0) == ChildSought(s.items[k].content.child.tween, 0.0);
    Out(s.(core := p.core, time := 0.0, items := items), b.trace + sc + p.trace)
  }

  /** The end of the core's `Complete` once its `Goto` is done: the completion
      callback if asked, then kill and release (AutoKill) or stop in place. */
  function Conclude(c: ActionCore.Core, withCallbacks: bool): (r: ActionCore.Out)
    ensures r.core == (if c.cfg.autoKill then c.(killed := true) else c.(paused := true, playing := false))
    ensures ReleaseCalled in r.trace <==> c.cfg.autoKill
    ensures Hooked(OnComplete) in r.trace <==> withCallbacks && OnComplete in c.cfg.hooks
    ensures forall e :: e in r.trace ==> e == ReleaseCalled || e == Hooked(OnComplete)
  {
    var cb := if withCallbacks then ActionCore.Fire(c, OnComplete) else [];
    if c.cfg.autoKill then ActionCore.Out(c.(killed := true), cb + [ReleaseCalled])
    else ActionCore.Out(c.(paused := true, playing := false), cb)
  }

  /** `Complete`: time to the end, every child sought to its own end, then the
      core's `Complete`, whose virtual `Goto(Duration)` is this sequence's
      `Goto`. Its effects are stated by `CompleteEffects`. */
  function Complete(s: Timeline, withCallbacks: bool): (r: Out)
    requires Valid(s)
    ensures Valid(r.tl)
    ensures r.tl.time == s.duration && r.tl.items == s.items
    ensures r.tl.duration == s.duration && r.tl.inPool == s.inPool
    ensures r.tl.core.killed == s.core.cfg.autoKill && r.tl.core.paused
    ensures !s.core.cfg.autoKill ==> !r.tl.core.playing
  {
    var sc := Scrub(s.items, s.duration);
    var s1 := s.(time := s.duration);
    assert Valid(s1);
    var g := Goto(s1, s.duration, false);
    var f := Conclude(g.tl.core, withCallbacks);
    assert g.tl.core.cfg == s.core.cfg;
    assert ActionCore.Valid(f.core);
    Out(g.tl.(core := f.core), sc + g.trace + f.trace)
  }

  /** The effects of `Complete`: every child is sought to its own end, Release
      is called exactly when AutoKill is on, the completion callback runs exactly
      when asked for and set, and no callback item fires. */
  lemma CompleteEffects(s: Timeline, withCallbacks: bool)
    requires Valid(s)
    ensures var r := Complete(s, withCallbacks);
      && (forall k :: 0 <= k < |s.items| && s.items[k].content.Nested? ==>
            ChildSought(s.items[k].content.child.tween, s.items[k].content.child.length) in r.trace)
      && (ReleaseCalled in r.trace <==> s.core.cfg.autoKill)
      && (Hooked(OnComplete) in r.trace <==> withCallbacks && OnComplete in s.core.cfg.hooks)
      && (forall e :: e in r.trace ==> !e.CallbackInvoked?)
  {
    var sc := Scrub(s.items, s.duration);
    ScrubSeeks(s.items, s.duration);
    var s1 := s.(time := s.duration);
    var g := Goto(s1, s.duration, false);
    var f := Conclude(g.tl.core, withCallbacks);
    assert g.tl.core.cfg == s.core.cfg;
    var before := sc + g.trace;
    assert Complete(s, withCallbacks).trace == before + f.trace;
    assert forall k :: 0 <= k < |s.items| && s.items[k].content.Nested? ==>
             Sought(s.items[k], s.duration) == ChildSought(s.items[k].content.child.tween, s.items[k].content.child.length);
    assert forall e :: e in before ==> !e.CallbackInvoked? && e != ReleaseCalled && e != Hooked(OnComplete) by {
      forall e | e in before ensures !e.CallbackInvoked? && e != ReleaseCalled && e != Hooked(OnComplete) {
        assert e in sc || e in g.trace;
      }
    }
  }

  // ---- Clock ----

  /** `HandleLoopBoundary`: at either end, stop when the loops are exhausted;
      otherwise count a loop, re-arm every callback, and either bounce (Yoyo:
      the children are left where they are) or rewind every child and restart
      forward from 0. */
  function HandleLoopBoundary(s: Timeline, forwardEnded: bool): (r: Tick)
    requires Placed(s)
    ensures Placed(r.tl)
    ensures !r.alive <==> ActionCore.Exhausted(s.core.cfg.loops, s.core.head.loopsDone)
    ensures !r.alive ==> r == Tick(s, false, [])
    ensures r.tl.duration == s.duration && r.tl.lastAppendStart == s.lastAppendStart && r.tl.inPool == s.inPool
    ensures r.tl.core.cfg == s.core.cfg && r.tl.core.steps == s.core.steps
    ensures r.alive ==>
              && r.tl.core.head.loopsDone == s.core.head.loopsDone + 1
              && |r.tl.items| == |s.items|
              && (forall k :: 0 <= k < |s.items| ==>
                    r.tl.items[k] == s.items[k].(firedForward := false, firedBackward := false))
    ensures r.alive && s.core.cfg.loopType == Yoyo ==>
              && r.tl.core.head.direction == -s.core.head.direction
              && r.tl.time == (if forwardEnded then s.duration else 0.0)
              && r.trace == []
    ensures r.alive && s.core.cfg.loopType != Yoyo ==>
              && r.tl.core.head.direction == 1 && r.tl.time == 0.0
              && r.trace == RewindChildren(s.items)
    ensures ActionCore.Valid(s.core) && s.core.steps == [] ==> ActionCore.Valid(r.tl.core)
  {
    var c := s.core;
    if ActionCore.Exhausted(c.cfg.loops, c.head.loopsDone) then Tick(s, false, [])
    else
      var h := c.head.(loopsDone := c.head.loopsDone + 1);
      var items := ResetFlags(s.items);
      ResetFits(s.items, s.duration);
      if c.cfg.loopType == Yoyo then
        var t := if forwardEnded then s.duration else 0.0;
        Tick(s.(core := c.(head := h.(direction := -h.direction)), items := items, time := t), true, [])
      else
        Tick(s.(core := c.(head := h.(direction := 1)), items := items, time := 0.0), true, RewindChildren(s.items))
  }

  /** The clock reaching an end `at`: cross to it, then loop or finish. */
  function Boundary(s: Timeline, at: real, forward: bool): (r: Tick)
    requires Placed(s) && 0.0 <= at <= s.duration
    ensures Placed(r.tl) && r.tl.duration == s.duration && |r.tl.items| == |s.items|
    ensures r.tl.lastAppendStart == s.lastAppendStart && r.tl.inPool == s.inPool
    ensures r.tl.core.cfg == s.core.cfg && r.tl.core.steps == s.core.steps
    ensures !r.alive <==> ActionCore.Exhausted(s.core.cfg.loops, s.core.head.loopsDone)
    ensures !r.alive ==> r.tl.time == at && ReleaseCalled in r.trace && r.tl.core == s.core
    ensures Hooked(OnComplete) in r.trace <==> !r.alive && forward && OnComplete in s.core.cfg.hooks
    ensures forall k :: 0 <= k < |s.items| ==>
              Occurrences(r.trace, CallbackInvoked(k, forward)) == (if Fires(s.items[k], s.time, at, forward) then 1 else 0)
    ensures ActionCore.Valid(s.core) && s.core.steps == [] ==> ActionCore.Valid(r.tl.core)
  {
    var a := Advance(s, at, forward);
    var b := HandleLoopBoundary(a.tl, forward);
    assert ReleaseCalled !in a.trace && Hooked(OnComplete) !in a.trace;
    if b.alive then
      assert forall e :: e in b.trace ==> e.ChildRewound?;
      forall k | 0 <= k < |s.items|
        ensures Occurrences(a.trace + b.trace, CallbackInvoked(k, forward)) == Occurrences(a.trace, CallbackInvoked(k, forward))
      {
        assert CallbackInvoked(k, forward) !in b.trace;
        OccurrencesAppend(a.trace, b.trace, CallbackInvoked(k, forward));
      }
      Tick(b.tl, true, a.trace + b.trace)
    else
      var f := ActionCore.Finish(a.tl.core, forward);
      assert forall e :: e in f.trace ==> e == ReleaseCalled || e == Hooked(OnComplete);
      forall k | 0 <= k < |s.items|
        ensures Occurrences(a.trace + f.trace, CallbackInvoked(k, forward)) == Occurrences(a.trace, CallbackInvoked(k, forward))
      {
        assert CallbackInvoked(k, forward) !in f.trace;
        OccurrencesAppend(a.trace, f.trace, CallbackInvoked(k, forward));
      }
      Tick(a.tl, false, a.trace + f.trace)
  }

  /** `deltaTime * Speed` */
  function Scaled(deltaTime: real, speed: real): (dt: real)
    ensures deltaTime >= 0.0 && speed >= 0.0 ==> dt >= 0.0
  {
    deltaTime * speed
  }

  /** `_time + dt * direction`: the time the clock moves to before clamping. */
  function Target(s: Timeline, dt: real): (t: real)
    ensures dt >= 0.0 && s.core.head.direction > 0 ==> t >= s.time
    ensures dt >= 0.0 && s.core.head.direction <= 0 ==> t <= s.time
  {
    var dir := s.core.head.direction as real;
    assert dt >= 0.0 && dir > 0.0 ==> dt * dir >= 0.0;
    assert dt >= 0.0 && dir <= 0.0 ==> dt * dir <= 0.0;
    s.time + dt * dir
  }

  /** The clock moving to `t` inside the timeline: children sought, callbacks crossed. */
  function Advance(s: Timeline, t: real, forward: bool): (r: Tick)
    requires Placed(s)
    ensures r.alive && r.tl.time == t && |r.tl.items| == |s.items|
    ensures r.tl.(time := s.time, items := s.items) == s
    ensures 0.0 <= t <= s.duration ==> Placed(r.tl)
    ensures forall k :: 0 <= k < |s.items| ==>
              r.tl.items[k] == (if Fires(s.items[k], s.time, t, forward) then Mark(s.items[k], forward) else s.items[k])
    ensures forall k :: 0 <= k < |s.items| && s.items[k].content.Nested? ==> Sought(s.items[k], t) in r.trace
    ensures forall k :: 0 <= k < |s.items| ==>
              Occurrences(r.trace, CallbackInvoked(k, forward)) == (if Fires(s.items[k], s.time, t, forward) then 1 else 0)
    ensures forall e :: e in r.trace ==> e.ChildSought? || (e.CallbackInvoked? && e.forward == forward)
  {
    var c := EvaluateCross(s.items, s.time, t, forward);
    var s1 := s.(time := t, items := c.items);
    assert 0.0 <= t <= s.duration ==> Placed(s1) by {
      forall k | 0 <= k < |s.items| ensures Fits(c.items[k], s.duration) {
        assert Fits(s.items[k], s.duration);
      }
    }
    Tick(s1, true, c.trace)
  }

  /** The clock once the delay is over, moving to `t`: inside the timeline it
      advances, at or past an end it stops there and loops or finishes. */
  function Run(s: Timeline, t: real): (r: Tick)
    requires Placed(s)
    ensures (s.core.head.direction > 0 ==> t >= 0.0) && (s.core.head.direction <= 0 ==> t <= s.duration) ==>
              Placed(r.tl)
    ensures r.tl.duration == s.duration && |r.tl.items| == |s.items|
    ensures r.tl.lastAppendStart == s.lastAppendStart && r.tl.inPool == s.inPool
    ensures r.tl.core.cfg == s.core.cfg && r.tl.core.steps == s.core.steps
    ensures s.core.head.direction > 0 && t < s.duration ==> r == Advance(s, t, true)
    ensures s.core.head.direction <= 0 && t > 0.0 ==> r == Advance(s, t, false)
    ensures s.core.head.direction > 0 && t >= s.duration ==> r == Boundary(s, s.duration, true)
    ensures s.core.head.direction <= 0 && t <= 0.0 ==> r == Boundary(s, 0.0, false)
    ensures ActionCore.Valid(s.core) && s.core.steps == [] ==> ActionCore.Valid(r.tl.core)
  {
    if s.core.head.direction > 0 then
      if t >= s.duration then Boundary(s, s.duration, true) else Advance(s, t, true)
    else
      if t <= 0.0 then Boundary(s, 0.0, false) else Advance(s, t, false)
  }

  /** The clock of `UpdateTween` (everything after its three guards): the delay
      is waited first, then the whole scaled tick runs the timeline. The time
      stays within `[0, duration]` for any non-negative tick. */
  function Clock(s: Timeline, deltaTime: real): (r: Tick)
    requires Placed(s)
    ensures deltaTime >= 0.0 && s.core.cfg.speed >= 0.0 ==> Placed(r.tl)
    ensures r.tl.duration == s.duration && |r.tl.items| == |s.items|
    ensures r.tl.lastAppendStart == s.lastAppendStart && r.tl.inPool == s.inPool
    ensures r.tl.core.cfg == s.core.cfg && r.tl.core.steps == s.core.steps
    ensures var dt := Scaled(deltaTime, s.core.cfg.speed);
      ActionCore.Waiting(s.core, dt) ==>
        r == Tick(s.(core := s.core.(head := s.core.head.(delayElapsed := s.core.head.delayElapsed + dt))), true, [])
    ensures var dt := Scaled(deltaTime, s.core.cfg.speed);
      !ActionCore.Waiting(s.core, dt) ==> r == Run(s.(core := ActionCore.AfterDelay(s.core, dt)), Target(s, dt))
    ensures ActionCore.Valid(s.core) && s.core.steps == [] ==> ActionCore.Valid(r.tl.core)
  {
    var dt := Scaled(deltaTime, s.core.cfg.speed);
    if ActionCore.Waiting(s.core, dt) then
      Tick(s.(core := s.core.(head := s.core.head.(delayElapsed := s.core.head.delayElapsed + dt))), true, [])
    else
      var s1 := s.(core := ActionCore.AfterDelay(s.core, dt));
      assert s1.core.head.direction == s.core.head.direction && s1.time == s.time;
      assert Placed(s1);
      assert ActionCore.Valid(s.core) ==> ActionCore.Valid(s1.core);
      Run(s1, Target(s, dt))
  }

  /** `UpdateTween`: the core's `UpdateTween(0)` is the guard. A sequence built
      only with the timeline builders has no raw steps, so an unpaused one
      fails the guard and is released on its first tick; the clock runs only
      when a caller has added raw steps through the public `AddStep`. */
  function UpdateTween(s: Timeline, deltaTime: real): (r: Tick)
    requires Valid(s)
    ensures r.tl.duration == s.duration && |r.tl.items| == |s.items| && r.tl.inPool == s.inPool
    ensures s.core.killed ==> r == Tick(s, false, [ReleaseCalled])
    ensures !s.core.killed && s.core.paused ==> r == Tick(s, true, [])
    ensures !s.core.killed && !s.core.paused && s.core.steps == [] ==> r == Tick(s, false, [ReleaseCalled])
    ensures !r.alive ==> ReleaseCalled in r.trace || r.tl.core.killed
    ensures deltaTime >= 0.0 ==> Placed(r.tl)
    ensures s.core.steps == [] ==> Valid(r.tl)
  {
    var g := ActionCore.UpdateTween(s.core, 0.0);
    var s1 := s.(core := g.core);
    if !g.alive then Tick(s1, false, g.trace)
    else if g.core.killed then Tick(s1, false, g.trace)
    else if g.core.paused then Tick(s1, true, g.trace)
    else
      var c := Clock(s1, deltaTime);
      Tick(c.tl, c.alive, g.trace + c.trace)
  }

  // ---- Pool ----

  /** The static pool of sequences. */
  type SeqPool = Pool<Timeline>

  /** The free list is a bounded stack of pooled sequences, and a pooled sequence
      holds no items. */
  ghost predicate PoolValid(w: SeqPool)
  {
    && Stacked(w, MaxPool)
    && (forall i :: 0 <= i < |w.free| ==> w.objects[w.free[i]].inPool)
    && (forall h :: h in w.objects && w.objects[h].inPool ==> w.objects[h].items == [])
  }

  /** The state `new TweenSequence()` leaves before `Rent` resets it. */
  function Created(): Timeline
  {
    Timeline(ActionCore.ResetCore(None, true), [], 0.0, 0.0, 0.0, false)
  }

  /** The sequence `Rent` hands out: a reset core without target, no items, a
      zero-length timeline at time 0. */
  function Blank(autoPlay: bool): (s: Timeline)
    ensures Valid(s) && s.items == [] && s.duration == 0.0 && s.time == 0.0 && !s.inPool
    ensures s.core.steps == [] && s.core.cfg.target.None? && s.core.cfg.autoPlay == autoPlay
  {
    Timeline(ActionCore.ResetCore(None, autoPlay), [], 0.0, 0.0, 0.0, false)
  }

  datatype Rental = Rental(pool: SeqPool, handle: Handle)

  /** `Rent`: pops the most recently released sequence, or creates one, and resets
      every field; nothing of the previous rental survives. */
  function Rent(w: SeqPool, autoPlay: bool): (r: Rental)
    requires PoolValid(w)
    ensures PoolValid(r.pool)
    ensures r.handle in r.pool.objects && r.handle !in r.pool.free
    ensures r.pool.objects[r.handle] == Blank(autoPlay)
    ensures |w.free| > 0 ==> r.handle == w.free[|w.free| - 1] && r.pool.free == w.free[..|w.free| - 1]
    ensures |w.free| == 0 ==> r.handle !in w.objects && r.pool.free == []
    ensures r.pool.objects.Keys == w.objects.Keys + {r.handle}
    ensures forall k :: k in w.objects && k != r.handle ==> r.pool.objects[k] == w.objects[k]
  {
    var t := Take(w, MaxPool, Created());
    Rental(Give(t, Blank(autoPlay)), t.handle)
  }

  datatype Released = Released(pool: SeqPool, trace: seq<Event>)

  /** `Release`: a sequence the user keeps (AutoKill off, not killed) is only
      paused, whatever its target; otherwise it is pooled once, its items
      dropped, and pushed unless the free list already holds `MaxPool`. */
  function Release(w: SeqPool, h: Handle): (r: Released)
    requires PoolValid(w) && h in w.objects
    ensures PoolValid(r.pool) && r.pool.next == w.next
    ensures r.pool.objects.Keys == w.objects.Keys
    ensures forall k :: k in w.objects && k != h ==> r.pool.objects[k] == w.objects[k]
    ensures var s := w.objects[h];
      !s.core.cfg.autoKill && !s.core.killed ==>
        && r.pool.objects[h] == s.(core := ActionCore.Pause(s.core).core)
        && r.pool.free == w.free && r.trace == ActionCore.Pause(s.core).trace
    ensures var s := w.objects[h];
      (s.core.cfg.autoKill || s.core.killed) && s.inPool ==> r == Released(w, [])
    ensures var s := w.objects[h];
      (s.core.cfg.autoKill || s.core.killed) && !s.inPool ==>
        && r.pool.objects[h] == s.(inPool := true, items := [])
        && (|w.free| < MaxPool ==> r.pool.free == w.free + [h] && r.trace == [Pooled])
        && (|w.free| >= MaxPool ==> r.pool.free == w.free && r.trace == [])
  {
    var s := w.objects[h];
    if !s.core.cfg.autoKill && !s.core.killed then
      var p := ActionCore.Pause(s.core);
      Released(w.(objects := w.objects[h := s.(core := p.core)]), p.trace)
    else if s.inPool then Released(w, [])
    else
      var w1 := w.(objects := w.objects[h := s.(inPool := true, items := [])]);
      Released(Push(w1, h, MaxPool), if |w.free| < MaxPool then [Pooled] else [])
  }

  /** Stores sequence `h`'s new state and, when the operation asked for it, runs
      its `Release`. */
  function Commit(w: SeqPool, h: Handle, s: Timeline, trace: seq<Event>): (r: Released)
    requires PoolValid(w) && h in w.objects
    requires s.inPool == w.objects[h].inPool && (s.inPool ==> s.items == [])
    ensures PoolValid(r.pool) && r.pool.objects.Keys == w.objects.Keys
    ensures forall k :: k in w.objects && k != h ==> r.pool.objects[k] == w.objects[k]
    ensures ReleaseCalled !in trace ==> r == Released(w.(objects := w.objects[h := s]), trace)
    ensures ReleaseCalled in trace ==>
              r == Released(Release(w.(objects := w.objects[h := s]), h).pool,
                            trace + Release(w.(objects := w.objects[h := s]), h).trace)
  {
    var w1 := w.(objects := w.objects[h := s]);
    if ReleaseCalled in trace then
      var rel := Release(w1, h);
      Released(rel.pool, trace + rel.trace)
    else Released(w1, trace)
  }

  /** One scheduler tick of sequence `h`. */
  function Update(w: SeqPool, h: Handle, deltaTime: real): (r: (bool, Released))
    requires PoolValid(w) && h in w.objects && Valid(w.objects[h])
    ensures PoolValid(r.1.pool)
    ensures r.0 == UpdateTween(w.objects[h], deltaTime).alive
  {
    var t := UpdateTween(w.objects[h], deltaTime);
    (t.alive, Commit(w, h, t.tl, t.trace))
  }

  /** `Complete` of sequence `h`, with its `Release` when AutoKill is on. */
  function CompleteIn(w: SeqPool, h: Handle, withCallbacks: bool): (r: Released)
    requires PoolValid(w) && h in w.objects && Valid(w.objects[h])
    ensures PoolValid(r.pool) && h in r.pool.objects
    ensures w.objects[h].core.cfg.autoKill ==> r.pool.objects[h].inPool && r.pool.objects[h].items == []
    ensures !w.objects[h].core.cfg.autoKill ==> r.pool.objects[h] == Complete(w.objects[h], withCallbacks).tl
  {
    var c := Complete(w.objects[h], withCallbacks);
    Commit(w, h, c.tl, c.trace)
  }
}
