/** Properties of the scheduler: registration is idempotent and keeps each tween
    once, a tick pass releases every evicted tween exactly once and ticks
    exactly the live ones, and a kill pass completes or kills exactly the
    matched tweens and never releases one. */
module ManagerProps {
  import opened Common
  import ActionCore
  import opened Manager

  /** Registering twice is registering once. */
  lemma AddTweenIdempotent(s: Scheduler, tween: Entry, cfgs: Handle -> ActionCore.Config)
    ensures AddTween(AddTween(s, tween, cfgs), tween, cfgs) == AddTween(s, tween, cfgs)
  {
  }

  /** After registration the tween is in its own list exactly once. */
  lemma RegisteredOnce(s: Scheduler, h: Handle, cfgs: Handle -> ActionCore.Config)
    requires Registered(s)
    ensures var c := cfgs(h);
      multiset(GetList(AddTween(s, Some(h), cfgs), c.updateType, c.unscaled))[Some(h)] == 1
  {
    var c := cfgs(h);
    var l := GetList(AddTween(s, Some(h), cfgs), c.updateType, c.unscaled);
    assert NoDup(l);
    MultisetNoDup(l);
    assert Some(h) in l;
  }

  /** A registered tween is found by `IsTweening` on its own target. */
  lemma RegisteredIsTweening(s: Scheduler, h: Handle, cfgs: Handle -> ActionCore.Config, destroyed: set<TargetId>)
    ensures IsTweening(AddTween(s, Some(h), cfgs), cfgs(h).target, cfgs, destroyed)
    ensures IsTweeningId(AddTween(s, Some(h), cfgs), cfgs(h).id, cfgs)
  {
    var c := cfgs(h);
    var l := GetList(AddTween(s, Some(h), cfgs), c.updateType, c.unscaled);
    assert Some(h) in l;
    var k :| 0 <= k < |l| && l[k] == Some(h);
    assert l[k].Some? && SameObject(cfgs(l[k].value).target, c.target, destroyed);
  }

  /** Moving a registered tween leaves it once in its new list and nowhere in its old one. */
  lemma MovedOnce(s: Scheduler, h: Handle, oldType: UpdateType, oldUnscaled: bool, cfgs: Handle -> ActionCore.Config)
    requires Registered(s)
    ensures var c := cfgs(h);
      var r := ChangeUpdateType(s, h, oldType, oldUnscaled, cfgs);
      && multiset(GetList(r, c.updateType, c.unscaled))[Some(h)] == 1
      && ((oldType != c.updateType || oldUnscaled != c.unscaled) ==> Some(h) !in GetList(r, oldType, oldUnscaled))
  {
    var c := cfgs(h);
    var r := ChangeUpdateType(s, h, oldType, oldUnscaled, cfgs);
    RegisteredOnce(RemoveTween(s, h, oldType, oldUnscaled), h, cfgs);
  }

  /** A tick pass releases exactly the tweens it drops. */
  lemma {:induction false} ReleasedIff(l: seq<Entry>, h: Handle, cfgs: Handle -> ActionCore.Config,
                                       destroyed: set<TargetId>, step: Handle -> bool)
    ensures ReleasedBy(h) in Visits(l, cfgs, destroyed, step) <==> Some(h) in l && !Stays(Some(h), cfgs, destroyed, step)
  {
    if |l| > 0 {
      ReleasedIff(l[1..], h, cfgs, destroyed, step);
      assert Some(h) in l <==> l[0] == Some(h) || Some(h) in l[1..] by {
        assert l == [l[0]] + l[1..];
      }
    }
  }

  /** One visit releases `h` once if it is `h`'s entry and `h` does not stay, otherwise never. */
  lemma VisitReleases(e: Entry, h: Handle, cfgs: Handle -> ActionCore.Config,
                      destroyed: set<TargetId>, step: Handle -> bool)
    ensures multiset(Visit(e, cfgs, destroyed, step))[ReleasedBy(h)]
            == if e == Some(h) && !Stays(e, cfgs, destroyed, step) then 1 else 0
  {
  }

  /** With no duplicates each dropped tween is released once, and a kept one never. */
  lemma {:induction false} ReleasedOnce(l: seq<Entry>, h: Handle, cfgs: Handle -> ActionCore.Config,
                                        destroyed: set<TargetId>, step: Handle -> bool)
    requires NoDup(l)
    ensures multiset(Visits(l, cfgs, destroyed, step))[ReleasedBy(h)]
            == if Some(h) in l && !Stays(Some(h), cfgs, destroyed, step) then 1 else 0
  {
    if |l| > 0 {
      assert l == [l[0]] + l[1..];
      assert NoDup(l[1..]);
      ReleasedOnce(l[1..], h, cfgs, destroyed, step);
      assert l[0] == Some(h) ==> Some(h) !in l[1..];
      VisitReleases(l[0], h, cfgs, destroyed, step);
      assert multiset(Visits(l, cfgs, destroyed, step))
             == multiset(Visits(l[1..], cfgs, destroyed, step)) + multiset(Visit(l[0], cfgs, destroyed, step));
    }
  }

  /** A tick pass ticks exactly the live tweens: null entries and dead tweens are not ticked. */
  lemma {:induction false} TickedIff(l: seq<Entry>, h: Handle, cfgs: Handle -> ActionCore.Config,
                                     destroyed: set<TargetId>, step: Handle -> bool)
    ensures Ticked(h) in Visits(l, cfgs, destroyed, step) <==> Some(h) in l && !Dead(cfgs, destroyed, h)
  {
    if |l| > 0 {
      TickedIff(l[1..], h, cfgs, destroyed, step);
      assert Some(h) in l <==> l[0] == Some(h) || Some(h) in l[1..] by {
        assert l == [l[0]] + l[1..];
      }
    }
  }

  /** Every non-null entry either survives the pass or is released, never both. */
  lemma SurvivesOrReleased(l: seq<Entry>, h: Handle, cfgs: Handle -> ActionCore.Config,
                           destroyed: set<TargetId>, step: Handle -> bool)
    requires Some(h) in l
    ensures Some(h) in Survivors(l, cfgs, destroyed, step) <==> ReleasedBy(h) !in Visits(l, cfgs, destroyed, step)
  {
    SurvivorsExactly(l, cfgs, destroyed, step);
    ReleasedIff(l, h, cfgs, destroyed, step);
  }

  /** The call a kill makes on a matched tween. */
  function KillCall(h: Handle, complete: bool): Call
  {
    if complete then Completed(h) else Killed(h)
  }

  /** A kill pass calls `Complete` (or `Kill`) on exactly the matched tweens,
      and only that: it never ticks or releases a tween. */
  lemma {:induction false} KillCallsExactly(l: seq<Entry>, h: Handle, complete: bool, target: Option<TargetId>,
                                            id: Option<UserId>, cfgs: Handle -> ActionCore.Config, destroyed: set<TargetId>)
    ensures KillCall(h, complete) in KillCalls(l, complete, target, id, cfgs, destroyed)
            <==> Some(h) in l && Matches(h, target, id, cfgs, destroyed)
    ensures forall c :: c in KillCalls(l, complete, target, id, cfgs, destroyed) ==>
              c == KillCall(c.h, complete) && Some(c.h) in l
  {
    if |l| > 0 {
      KillCallsExactly(l[1..], h, complete, target, id, cfgs, destroyed);
      assert forall e :: e in l <==> e == l[0] || e in l[1..] by {
        assert l == [l[0]] + l[1..];
      }
    }
  }

  /** With no duplicates each matched tween is completed (or killed) once. */
  lemma {:induction false} KilledOnce(l: seq<Entry>, h: Handle, complete: bool, target: Option<TargetId>,
                                      id: Option<UserId>, cfgs: Handle -> ActionCore.Config, destroyed: set<TargetId>)
    requires NoDup(l)
    ensures multiset(KillCalls(l, complete, target, id, cfgs, destroyed))[KillCall(h, complete)]
            == if Some(h) in l && Matches(h, target, id, cfgs, destroyed) then 1 else 0
  {
    if |l| > 0 {
      assert l == [l[0]] + l[1..];
      assert NoDup(l[1..]);
      KilledOnce(l[1..], h, complete, target, id, cfgs, destroyed);
      assert l[0] == Some(h) ==> Some(h) !in l[1..];
    }
  }

  /** Every non-null entry is either kept by a kill pass or receives its call, never both. */
  lemma KeptOrKilled(l: seq<Entry>, h: Handle, complete: bool, target: Option<TargetId>,
                     id: Option<UserId>, cfgs: Handle -> ActionCore.Config, destroyed: set<TargetId>)
    requires Some(h) in l
    ensures Some(h) in Unmatched(l, target, id, cfgs, destroyed)
            <==> KillCall(h, complete) !in KillCalls(l, complete, target, id, cfgs, destroyed)
  {
    UnmatchedExactly(l, target, id, cfgs, destroyed);
    KillCallsExactly(l, h, complete, target, id, cfgs, destroyed);
  }
}
