/** Properties of the timeline compositor: the builder arithmetic, callbacks
    firing at most once per direction, loop counting, and what the guard of
    `UpdateTween` does to a sequence built with the builders alone. */
module SequenceProps {
  import opened Common
  import opened Events
  import opened Pooling
  import ActionCore
  import opened Sequence

  // ---- Building ----

  /** The summed duration of a list of children. */
  function Total(cs: seq<Child>): real
  {
    if |cs| == 0 then 0.0 else cs[0].length + Total(cs[1..])
  }

  /** `Append` of each child in turn. */
  function AppendAll(s: Timeline, cs: seq<Child>): (r: Timeline)
    requires Placed(s)
    ensures Placed(r)
    decreases |cs|
  {
    if |cs| == 0 then s else AppendAll(Append(s, Some(cs[0])).tl, cs[1..])
  }

  /** The total of a non-empty prefix is its first duration plus the rest. */
  lemma TotalPrefix(cs: seq<Child>, k: nat)
    requires 0 < k <= |cs|
    ensures Total(cs[..k]) == cs[0].length + Total(cs[1..][..k - 1])
  {
    assert cs[..k][0] == cs[0];
    assert cs[..k][1..] == cs[1..][..k - 1];
  }

  /** Appending children keeps the items already placed, adds one item per child,
      grows the timeline by their total and leaves the `Join` anchor on the last
      one's start. */
  lemma {:induction false} AppendsGrow(s: Timeline, cs: seq<Child>)
    requires Placed(s)
    ensures var r := AppendAll(s, cs);
      && |r.items| == |s.items| + |cs|
      && r.items[..|s.items|] == s.items
      && r.duration == s.duration + Total(cs)
      && (|cs| > 0 ==> r.lastAppendStart == s.duration + Total(cs[..|cs| - 1]))
    decreases |cs|
  {
    if |cs| > 0 {
      var s1 := Append(s, Some(cs[0])).tl;
      var r := AppendAll(s1, cs[1..]);
      AppendsGrow(s1, cs[1..]);
      assert r == AppendAll(s, cs);
      assert r.items[..|s.items|] == s.items by {
        assert r.items[..|s1.items|][..|s.items|] == r.items[..|s.items|];
      }
      if |cs| > 1 {
        TotalPrefix(cs, |cs| - 1);
      } else {
        assert cs[..0] == [];
      }
    }
  }

  /** Appended children tile the timeline back to back: child `k` starts at the
      old end plus the durations of the children appended before it. */
  lemma {:induction false} AppendsTile(s: Timeline, cs: seq<Child>, k: nat)
    requires Placed(s) && k < |cs|
    ensures var r := AppendAll(s, cs);
      |s.items| + k < |r.items| && r.items[|s.items| + k] == Place(cs[k], s.duration + Total(cs[..k]))
    decreases |cs|
  {
    var s1 := Append(s, Some(cs[0])).tl;
    var r := AppendAll(s1, cs[1..]);
    assert r == AppendAll(s, cs);
    AppendsGrow(s1, cs[1..]);
    if k == 0 {
      assert cs[..0] == [];
      assert r.items[..|s1.items|][|s.items|] == s1.items[|s.items|];
    } else {
      AppendsTile(s1, cs[1..], k - 1);
      assert cs[1..][k - 1] == cs[k];
      TotalPrefix(cs, k);
    }
  }

  /** `Insert` does not move the `Join` anchor: a child joined after an insert
      starts with the last appended child, not with the inserted one. */
  lemma JoinIgnoresInsert(s: Timeline, a: Child, atTime: real, b: Child, c: Child)
    requires Placed(s)
    ensures var s1 := Append(s, Some(a)).tl;
      var s2 := Insert(s1, atTime, Some(b)).tl;
      var s3 := Join(s2, Some(c)).tl;
      && s2.items[|s2.items| - 1].start == Max(0.0, atTime)
      && s3.items[|s3.items| - 1] == Place(c, s.duration)
  {
  }

  /** `AppendInterval` followed by `Join` starts the joined child at the gap. */
  lemma JoinAfterInterval(s: Timeline, gap: real, c: Child)
    requires Placed(s)
    ensures var s1 := AppendInterval(s, gap).tl;
      var s2 := Join(s1, Some(c)).tl;
      s2.items[|s2.items| - 1] == Place(c, s.duration)
  {
  }

  /** Moving the whole timeline by `d` and seeking `d` later seeks every child
      to the same local time. */
  lemma {:induction false} ShiftedScrub(items: seq<Item>, d: real, time: real)
    ensures Scrub(Shift(items, d), time + d) == Scrub(items, time)
    decreases |items|
  {
    if |items| > 0 {
      var sh := Shift(items, d);
      assert sh[0] == Later(items[0], d);
      assert sh[1..] == Shift(items[1..], d);
      ShiftedScrub(items[1..], d, time);
      if items[0].content.Nested? {
        LaterSought(items[0], d, time);
      }
    }
  }

  /** One item moved `d` later and sought `d` later is sought to the same local time. */
  lemma LaterSought(it: Item, d: real, time: real)
    requires it.content.Nested?
    ensures Sought(Later(it, d), time + d) == Sought(it, time)
  {
  }

  /** `Prepend` delays everything already placed: seeking `length` later than
      before drives every old child exactly as before, after the new one. */
  lemma PrependDelaysChildren(s: Timeline, c: Child, time: real)
    requires Placed(s)
    ensures var r := Prepend(s, Some(c)).tl;
      Scrub(r.items, time + c.length) == [Sought(Place(c, 0.0), time + c.length)] + Scrub(s.items, time)
  {
    var first := Place(c, 0.0);
    var rest := Shift(s.items, c.length);
    assert Prepend(s, Some(c)).tl.items == [first] + rest;
    ScrubCons(first, rest, time + c.length);
    ShiftedScrub(s.items, c.length, time);
  }

  /** Seeking a list with a child in front seeks that child first. */
  lemma ScrubCons(it: Item, items: seq<Item>, time: real)
    requires it.content.Nested?
    ensures Scrub([it] + items, time) == [Sought(it, time)] + Scrub(items, time)
  {
    assert ([it] + items)[1..] == items;
  }

  // ---- Callbacks ----

  /** The fired flag of `it` for one direction. */
  predicate Flag(it: Item, forward: bool)
  {
    if forward then it.firedForward else it.firedBackward
  }

  /** One crossing of the clock: from `prev` to `now`, in a direction. */
  datatype Move = Move(prev: real, now: real, forward: bool)

  /** A run of crossings with no flag reset in between. */
  function CrossAll(items: seq<Item>, moves: seq<Move>): (r: Crossed)
    ensures |r.items| == |items|
    ensures forall k :: 0 <= k < |items| ==>
              r.items[k].content == items[k].content && r.items[k].start == items[k].start
    decreases |moves|
  {
    if |moves| == 0 then Crossed(items, [])
    else
      var m := moves[0];
      var c := EvaluateCross(items, m.prev, m.now, m.forward);
      var rest := CrossAll(c.items, moves[1..]);
      Crossed(rest.items, c.trace + rest.trace)
  }

  /** Between two resets each callback fires at most once per direction, and
      never in a direction it has already fired in, however the clock moves. */
  lemma {:induction false} FiresAtMostOnce(items: seq<Item>, moves: seq<Move>, k: nat, forward: bool)
    requires k < |items|
    ensures Occurrences(CrossAll(items, moves).trace, CallbackInvoked(k, forward)) <=
              (if Flag(items[k], forward) then 0 else 1)
    decreases |moves|
  {
    if |moves| > 0 {
      var m := moves[0];
      var c := EvaluateCross(items, m.prev, m.now, m.forward);
      var rest := CrossAll(c.items, moves[1..]);
      var e := CallbackInvoked(k, forward);
      OccurrencesAppend(c.trace, rest.trace, e);
      FiresAtMostOnce(c.items, moves[1..], k, forward);
      if m.forward == forward {
        assert Occurrences(c.trace, e) == (if Fires(items[k], m.prev, m.now, m.forward) then 1 else 0);
        if Fires(items[k], m.prev, m.now, m.forward) {
          assert Flag(c.items[k], forward);
        }
      } else {
        assert e !in c.trace;
        assert Flag(c.items[k], forward) == Flag(items[k], forward);
      }
    }
  }

  /** After `ResetCallbackFlags` a callback fires again on any crossing of its offset. */
  lemma ResetRearms(items: seq<Item>, k: nat, prev: real, now: real, forward: bool)
    requires k < |items| && items[k].content.Callback?
    ensures Fires(ResetFlags(items)[k], prev, now, forward) <==>
              if forward then prev < items[k].start <= now else now <= items[k].start < prev
  {
  }

  /** A `Goto` that lands exactly on a callback's offset does not fire it, and
      neither does the forward tick that leaves from there. */
  lemma LandingDoesNotFire(s: Timeline, k: nat, t: real, play: bool)
    requires Valid(s) && k < |s.items| && s.items[k].content.Callback?
    ensures var g := Goto(s, s.items[k].start, play);
      && CallbackInvoked(k, true) !in g.trace
      && Occurrences(Advance(g.tl, t, true).trace, CallbackInvoked(k, true)) == 0
  {
    assert Fits(s.items[k], s.duration);
  }

  /** A forward tick from before an unfired callback to at or past it fires it
      exactly once and marks it. */
  lemma CrossingFires(s: Timeline, k: nat, t: real)
    requires Placed(s) && k < |s.items| && s.items[k].content.Callback? && !s.items[k].firedForward
    requires s.time < s.items[k].start <= t
    ensures var a := Advance(s, t, true);
      Occurrences(a.trace, CallbackInvoked(k, true)) == 1 && a.tl.items[k].firedForward
  {
  }

  // ---- Loops ----

  /** `k` successive loop boundaries, stopping at the one that finishes. */
  function Bounces(s: Timeline, k: nat, forwardEnded: bool): (r: Tick)
    requires Placed(s)
    ensures Placed(r.tl) && r.tl.core.cfg == s.core.cfg
    decreases k
  {
    if k == 0 then Tick(s, true, [])
    else
      var b := HandleLoopBoundary(s, forwardEnded);
      if !b.alive then b else Bounces(b.tl, k - 1, forwardEnded)
  }

  /** Loop counting is exact: with `Loops = N` the sequence survives a boundary
      while fewer than `N` loops have been started, and each surviving boundary
      counts one loop; with `Loops = -1` it survives them all. */
  lemma {:induction false} SequenceLoopCount(s: Timeline, k: nat, forwardEnded: bool)
    requires Placed(s) && s.core.head.loopsDone >= 0
    requires s.core.cfg.loops == -1 || 0 <= s.core.head.loopsDone < s.core.cfg.loops
    ensures var r := Bounces(s, k, forwardEnded);
      && (r.alive <==> s.core.cfg.loops == -1 || s.core.head.loopsDone + k < s.core.cfg.loops)
      && (r.alive ==> r.tl.core.head.loopsDone == s.core.head.loopsDone + k)
    decreases k
  {
    if k > 0 {
      var b := HandleLoopBoundary(s, forwardEnded);
      if b.alive {
        SequenceLoopCount(b.tl, k - 1, forwardEnded);
      }
    }
  }

  /** Two Yoyo bounces bring the direction back, leave every child alone and
      count two loops. */
  lemma YoyoTwiceRestoresDirection(s: Timeline)
    requires Placed(s) && s.core.cfg.loopType == Yoyo && s.core.cfg.loops == -1
    ensures var b1 := HandleLoopBoundary(s, true);
      var b2 := HandleLoopBoundary(b1.tl, false);
      && b1.alive && b2.alive && b1.trace == [] && b2.trace == []
      && b2.tl.core.head.direction == s.core.head.direction
      && b2.tl.core.head.loopsDone == s.core.head.loopsDone + 2
      && b2.tl.time == 0.0
  {
  }

  // ---- Scheduling and pool ----

  /** Built with the builders alone, a sequence has no raw steps, so its first
      unpaused tick fails the guard: it is evicted and, with the default
      AutoKill, pooled with its items dropped, before its clock ever runs. */
  lemma BuiltSequenceEvictedOnFirstTick(w: SeqPool, child: Child, deltaTime: real)
    requires PoolValid(w)
    ensures var n := Rent(w, true);
      var a := Append(n.pool.objects[n.handle], Some(child));
      var w1 := n.pool.(objects := n.pool.objects[n.handle := a.tl]);
      && a.tl.core.playing && !a.tl.core.paused && a.tl.core.steps == []
      && PoolValid(w1) && Valid(a.tl)
      && var u := Update(w1, n.handle, deltaTime);
         && !u.0 && u.1.pool.objects[n.handle].inPool && u.1.pool.objects[n.handle].items == []
  {
    var n := Rent(w, true);
    var s := n.pool.objects[n.handle];
    var a := Append(s, Some(child));
    assert ActionCore.Valid(a.tl.core) by {
      assert a.tl.core.(playing := s.core.playing, paused := s.core.paused) == s.core;
    }
    var w1 := n.pool.(objects := n.pool.objects[n.handle := a.tl]);
    assert n.handle !in w1.free;
    var t := UpdateTween(a.tl, deltaTime);
    assert t == Tick(a.tl, false, [ReleaseCalled]);
  }

  /** Every rental starts from the same sequence, whatever the pool held. */
  lemma RentResetsCompletely(w1: SeqPool, w2: SeqPool, autoPlay: bool)
    requires PoolValid(w1) && PoolValid(w2)
    ensures var r1 := Rent(w1, autoPlay);
      var r2 := Rent(w2, autoPlay);
      r1.pool.objects[r1.handle] == r2.pool.objects[r2.handle]
  {
  }

  /** `Release` is idempotent. */
  lemma ReleaseIdempotent(w: SeqPool, h: Handle)
    requires PoolValid(w) && h in w.objects
    ensures var r := Release(w, h);
      Release(r.pool, h) == Released(r.pool, [])
  {
    var s := w.objects[h];
    var r := Release(w, h);
    if !s.core.cfg.autoKill && !s.core.killed {
      assert r.pool.objects[h].core == s.core.(paused := true);
      assert r.pool.objects[h := r.pool.objects[h]] == r.pool.objects;
    }
  }
}
