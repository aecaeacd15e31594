/** The scheduler `TweenManager`: six lists of registered tweens, one per update
    phase and time scale, driven once per phase by the host's frame hooks.
    Tweens are handles; what the scheduler reads of one (update type, scale,
    target, id) is its core's `Config`, given by `cfgs`. What a tween does when
    it is ticked, completed, killed or released is its own business: the
    scheduler's side of it is a log of the calls it makes, and the outcome of a
    tick is a parameter. */
module Manager {
  import opened Common
  import ActionCore

  /** A list slot; C# lists may hold `null`. */
  type Entry = Option<Handle>

  /** `_updateScaled`, `_updateUnscaled`, `_lateScaled`, `_lateUnscaled`, `_fixedScaled`, `_fixedUnscaled`. */
  datatype Scheduler = Scheduler(
    updateScaled: seq<Entry>,
    updateUnscaled: seq<Entry>,
    lateScaled: seq<Entry>,
    lateUnscaled: seq<Entry>,
    fixedScaled: seq<Entry>,
    fixedUnscaled: seq<Entry>)

  /** A call the scheduler makes on a tween. */
  datatype Call = Ticked(h: Handle) | ReleasedBy(h: Handle) | Completed(h: Handle) | Killed(h: Handle)

  function Empty(): Scheduler
  {
    Scheduler([], [], [], [], [], [])
  }

  // ---- Buckets ----

  /** `GetList` */
  function GetList(s: Scheduler, t: UpdateType, unscaled: bool): seq<Entry>
  {
    match (t, unscaled)
    case (Normal, false) => s.updateScaled
    case (Normal, true) => s.updateUnscaled
    case (Late, false) => s.lateScaled
    case (Late, true) => s.lateUnscaled
    case (Fixed, false) => s.fixedScaled
    case (Fixed, true) => s.fixedUnscaled
  }

  /** Replaces the list `GetList(t, unscaled)` returns. The six pairs name six
      different lists: replacing one leaves the other five as they were. */
  function SetList(s: Scheduler, t: UpdateType, unscaled: bool, l: seq<Entry>): (r: Scheduler)
    ensures GetList(r, t, unscaled) == l
    ensures forall t2: UpdateType, u2: bool :: (t2 != t || u2 != unscaled) ==> GetList(r, t2, u2) == GetList(s, t2, u2)
  {
    match (t, unscaled)
    case (Normal, false) => s.(updateScaled := l)
    case (Normal, true) => s.(updateUnscaled := l)
    case (Late, false) => s.(lateScaled := l)
    case (Late, true) => s.(lateUnscaled := l)
    case (Fixed, false) => s.(fixedScaled := l)
    case (Fixed, true) => s.(fixedUnscaled := l)
  }

  /** No list holds a tween twice. */
  predicate NoDup(l: seq<Entry>)
  {
    forall i, j :: 0 <= i < j < |l| ==> l[i] != l[j]
  }

  ghost predicate Registered(s: Scheduler)
  {
    forall t: UpdateType, u: bool :: NoDup(GetList(s, t, u))
  }

  // ---- Registration ----

  /** `AddTween`: ignores null; appends to the tween's own list unless already there. */
  function AddTween(s: Scheduler, tween: Entry, cfgs: Handle -> ActionCore.Config): (r: Scheduler)
    ensures tween.None? ==> r == s
    ensures tween.Some? ==>
              var c := cfgs(tween.value);
              && tween in GetList(r, c.updateType, c.unscaled)
              && (tween in GetList(s, c.updateType, c.unscaled) ==> r == s)
              && (tween !in GetList(s, c.updateType, c.unscaled) ==>
                    GetList(r, c.updateType, c.unscaled) == GetList(s, c.updateType, c.unscaled) + [tween])
              && (forall t: UpdateType, u: bool :: (t != c.updateType || u != c.unscaled) ==> GetList(r, t, u) == GetList(s, t, u))
    ensures Registered(s) ==> Registered(r)
  {
    if tween.None? then s
    else
      var c := cfgs(tween.value);
      var l := GetList(s, c.updateType, c.unscaled);
      if tween in l then s
      else
        var r := SetList(s, c.updateType, c.unscaled, l + [tween]);
        assert NoDup(l) ==> NoDup(l + [tween]);
        r
  }

  /** `List.Remove`: drops the first occurrence, if any. */
  function RemoveFirst(l: seq<Entry>, x: Entry): (r: seq<Entry>)
    ensures x !in l ==> r == l
    ensures x in l ==> |r| == |l| - 1
  {
    if |l| == 0 then l
    else
      assert l == [l[0]] + l[1..];
      if l[0] == x then l[1..] else [l[0]] + RemoveFirst(l[1..], x)
  }

  /** `List.Remove` takes away one occurrence and leaves the rest of the contents. */
  lemma {:induction false} RemoveFirstCount(l: seq<Entry>, x: Entry)
    ensures multiset(RemoveFirst(l, x)) == multiset(l) - multiset{x}
  {
    if |l| > 0 {
      assert l == [l[0]] + l[1..];
      RemoveFirstCount(l[1..], x);
      if l[0] != x {
        assert RemoveFirst(l, x) == [l[0]] + RemoveFirst(l[1..], x);
      }
    }
  }

  /** The occurrence removed is the first one: the list closes over index `i`. */
  lemma {:induction false} RemoveFirstAt(l: seq<Entry>, x: Entry, i: nat)
    requires i < |l| && l[i] == x && x !in l[..i]
    ensures RemoveFirst(l, x) == l[..i] + l[i + 1..]
  {
    if i == 0 {
      assert l[..0] + l[1..] == l[1..];
    } else {
      var t := l[1..];
      assert l[0] != x by { assert l[..i][0] == l[0]; }
      assert t[..i - 1] == l[1..i];
      assert x !in t[..i - 1] by {
        forall y | y in l[1..i] ensures y in l[..i] {
          var k :| 0 <= k < i - 1 && l[1..i][k] == y;
          assert l[..i][k + 1] == y;
        }
      }
      RemoveFirstAt(t, x, i - 1);
      assert RemoveFirst(l, x) == [l[0]] + RemoveFirst(t, x);
      assert t[i..] == l[i + 1..];
      assert [l[0]] + l[1..i] == l[..i];
      assert [l[0]] + (l[1..i] + l[i + 1..]) == ([l[0]] + l[1..i]) + l[i + 1..];
    }
  }

  /** Removing from a list without duplicates removes the element entirely. */
  lemma RemoveFirstGone(l: seq<Entry>, x: Entry)
    requires NoDup(l)
    ensures NoDup(RemoveFirst(l, x)) && x !in RemoveFirst(l, x)
  {
    MultisetNoDup(l);
    var r := RemoveFirst(l, x);
    RemoveFirstCount(l, x);
    assert multiset(r)[x] == 0;
    NoDupOfMultiset(r);
  }

  /** Every element occurring at most once means no duplicates. */
  lemma {:induction false} NoDupOfMultiset(l: seq<Entry>)
    requires forall y :: multiset(l)[y] <= 1
    ensures NoDup(l)
  {
    if |l| > 0 {
      assert l == [l[0]] + l[1..];
      assert multiset(l) == multiset{l[0]} + multiset(l[1..]);
      forall y ensures multiset(l[1..])[y] <= 1 {
        assert multiset(l)[y] == multiset{l[0]}[y] + multiset(l[1..])[y];
      }
      assert multiset(l)[l[0]] == 1 + multiset(l[1..])[l[0]];
      assert l[0] !in l[1..];
      NoDupOfMultiset(l[1..]);
      forall j | 0 < j < |l| ensures l[0] != l[j] {
        assert l[j] == l[1..][j - 1];
      }
      forall i, j | 0 <= i < j < |l| ensures l[i] != l[j] {
        if i > 0 {
          assert l[i] == l[1..][i - 1] && l[j] == l[1..][j - 1];
        }
      }
    }
  }

  /** Without duplicates every element occurs once. */
  lemma {:induction false} MultisetNoDup(l: seq<Entry>)
    requires NoDup(l)
    ensures forall y :: multiset(l)[y] <= 1
  {
    if |l| > 0 {
      assert l == [l[0]] + l[1..];
      assert NoDup(l[1..]);
      MultisetNoDup(l[1..]);
      assert l[0] !in l[1..];
    }
  }

  /** `RemoveTween`: removes the tween from the named list only. */
  function RemoveTween(s: Scheduler, tween: Handle, t: UpdateType, unscaled: bool): (r: Scheduler)
    ensures GetList(r, t, unscaled) == RemoveFirst(GetList(s, t, unscaled), Some(tween))
    ensures forall t2: UpdateType, u2: bool :: (t2 != t || u2 != unscaled) ==> GetList(r, t2, u2) == GetList(s, t2, u2)
    ensures Registered(s) ==> Registered(r) && Some(tween) !in GetList(r, t, unscaled)
  {
    var l := GetList(s, t, unscaled);
    assert NoDup(l) ==> NoDup(RemoveFirst(l, Some(tween))) && Some(tween) !in RemoveFirst(l, Some(tween)) by {
      if NoDup(l) {
        RemoveFirstGone(l, Some(tween));
      }
    }
    SetList(s, t, unscaled, RemoveFirst(l, Some(tween)))
  }

  /** `ChangeUpdateType`: out of the list of the old type and scale, into the
      list of the current ones; the other lists are untouched. */
  function ChangeUpdateType(s: Scheduler, tween: Handle, oldType: UpdateType, oldUnscaled: bool,
                            cfgs: Handle -> ActionCore.Config): (r: Scheduler)
    ensures var c := cfgs(tween);
      Some(tween) in GetList(r, c.updateType, c.unscaled)
    ensures var c := cfgs(tween);
      Registered(s) && (oldType != c.updateType || oldUnscaled != c.unscaled) ==>
        Some(tween) !in GetList(r, oldType, oldUnscaled)
    ensures var c := cfgs(tween);
      forall t: UpdateType, u: bool ::
        (t != c.updateType || u != c.unscaled) && (t != oldType || u != oldUnscaled) ==> GetList(r, t, u) == GetList(s, t, u)
    ensures Registered(s) ==> Registered(r)
  {
    AddTween(RemoveTween(s, tween, oldType, oldUnscaled), Some(tween), cfgs)
  }

  // ---- Ticking ----

  /** `IsDead` of the tween in the list. */
  predicate Dead(cfgs: Handle -> ActionCore.Config, destroyed: set<TargetId>, h: Handle)
  {
    ActionCore.IsDead(cfgs(h), destroyed)
  }

  /** An entry `UpdateList` keeps: a live tween whose `UpdateTween` returned true. */
  predicate Stays(e: Entry, cfgs: Handle -> ActionCore.Config, destroyed: set<TargetId>, step: Handle -> bool)
  {
    e.Some? && !Dead(cfgs, destroyed, e.value) && step(e.value)
  }

  /** The entries that stay, in list order. */
  function Survivors(l: seq<Entry>, cfgs: Handle -> ActionCore.Config, destroyed: set<TargetId>, step: Handle -> bool): (r: seq<Entry>)
    ensures |r| <= |l|
  {
    if |l| == 0 then []
    else
      var rest := Survivors(l[1..], cfgs, destroyed, step);
      if Stays(l[0], cfgs, destroyed, step) then [l[0]] + rest else rest
  }

  /** The survivors are exactly the entries that stay, and a list without
      duplicates keeps none. */
  lemma {:induction false} SurvivorsExactly(l: seq<Entry>, cfgs: Handle -> ActionCore.Config, destroyed: set<TargetId>, step: Handle -> bool)
    ensures forall e :: e in Survivors(l, cfgs, destroyed, step) <==> e in l && Stays(e, cfgs, destroyed, step)
    ensures NoDup(l) ==> NoDup(Survivors(l, cfgs, destroyed, step))
  {
    if |l| > 0 {
      SurvivorsExactly(l[1..], cfgs, destroyed, step);
      assert forall e :: e in l <==> e == l[0] || e in l[1..];
      assert NoDup(l) ==> NoDup(l[1..]) && l[0] !in l[1..];
    }
  }

  /** The calls one entry receives: nothing for null, `Release` for a dead
      tween, a tick and, if it returned false, `Release` for a live one. */
  function Visit(e: Entry, cfgs: Handle -> ActionCore.Config, destroyed: set<TargetId>, step: Handle -> bool): seq<Call>
  {
    if e.None? then []
    else if Dead(cfgs, destroyed, e.value) then [ReleasedBy(e.value)]
    else if step(e.value) then [Ticked(e.value)]
    else [Ticked(e.value), ReleasedBy(e.value)]
  }

  /** The calls of a pass over `l` from its last entry to its first. */
  function Visits(l: seq<Entry>, cfgs: Handle -> ActionCore.Config, destroyed: set<TargetId>, step: Handle -> bool): seq<Call>
  {
    if |l| == 0 then [] else Visits(l[1..], cfgs, destroyed, step) + Visit(l[0], cfgs, destroyed, step)
  }

  /** The entry at `|a|` of `a + [x] + b`, and removing it. */
  lemma Cut(a: seq<Entry>, x: Entry, b: seq<Entry>)
    ensures var c := a + [x] + b;
      && c[|a|] == x && c[..|a|] == a && c[|a| + 1..] == b
      && c[..|a|] + c[|a| + 1..] == a + b && c == a + ([x] + b)
  {
    var c := a + [x] + b;
    assert c[..|a|] == a;
    assert c[|a| + 1..] == b;
  }

  /** Cutting a list at `i`. */
  lemma SplitAt(l: seq<Entry>, i: nat)
    requires i < |l|
    ensures l[i..][0] == l[i] && l[i..][1..] == l[i + 1..]
    ensures l[..i + 1] == l[..i] + [l[i]]
  {
  }

  /** One entry of the filter and of the call log, from the front of a suffix. */
  lemma UpdateStep(l: seq<Entry>, i: nat, cfgs: Handle -> ActionCore.Config, destroyed: set<TargetId>, step: Handle -> bool)
    requires i < |l|
    ensures Survivors(l[i..], cfgs, destroyed, step)
            == (if Stays(l[i], cfgs, destroyed, step) then [l[i]] else []) + Survivors(l[i + 1..], cfgs, destroyed, step)
    ensures Visits(l[i..], cfgs, destroyed, step) == Visits(l[i + 1..], cfgs, destroyed, step) + Visit(l[i], cfgs, destroyed, step)
  {
    assert l[i..][0] == l[i] && l[i..][1..] == l[i + 1..];
  }

  /** `UpdateList`: walks the list backwards, removing null entries, dead
      tweens (released) and tweens whose tick returned false (released). */
  method UpdateList(list: seq<Entry>, cfgs: Handle -> ActionCore.Config, destroyed: set<TargetId>, step: Handle -> bool)
    returns (kept: seq<Entry>, calls: seq<Call>)
    ensures kept == Survivors(list, cfgs, destroyed, step)
    ensures calls == Visits(list, cfgs, destroyed, step)
  {
    kept := list;
    calls := [];
    var i := |list|;
    while i > 0
      invariant 0 <= i <= |list|
      invariant kept == list[..i] + Survivors(list[i..], cfgs, destroyed, step)
      invariant calls == Visits(list[i..], cfgs, destroyed, step)
    {
      i := i - 1;
      ghost var tail := Survivors(list[i + 1..], cfgs, destroyed, step);
      SplitAt(list, i);
      UpdateStep(list, i, cfgs, destroyed, step);
      Cut(list[..i], list[i], tail);
      assert kept == list[..i] + [list[i]] + tail;
      var tween := kept[i];
      if tween.None? {
        kept := kept[..i] + kept[i + 1..];
      } else if Dead(cfgs, destroyed, tween.value) {
        calls := calls + [ReleasedBy(tween.value)];
        kept := kept[..i] + kept[i + 1..];
      } else {
        calls := calls + [Ticked(tween.value)];
        if !step(tween.value) {
          calls := calls + [ReleasedBy(tween.value)];
          kept := kept[..i] + kept[i + 1..];
        }
      }
    }
    assert list[0..] == list;
  }

  /** `Update(type, scaledDt, unscaledDt)`: the scaled list of the phase with one
      tick outcome, then its unscaled list with the other; the other four lists
      are not touched. */
  method Update(s: Scheduler, t: UpdateType, cfgs: Handle -> ActionCore.Config, destroyed: set<TargetId>,
                stepScaled: Handle -> bool, stepUnscaled: Handle -> bool)
    returns (r: Scheduler, calls: seq<Call>)
    ensures GetList(r, t, false) == Survivors(GetList(s, t, false), cfgs, destroyed, stepScaled)
    ensures GetList(r, t, true) == Survivors(GetList(s, t, true), cfgs, destroyed, stepUnscaled)
    ensures forall t2: UpdateType, u: bool :: t2 != t ==> GetList(r, t2, u) == GetList(s, t2, u)
    ensures calls == Visits(GetList(s, t, false), cfgs, destroyed, stepScaled)
                     + Visits(GetList(s, t, true), cfgs, destroyed, stepUnscaled)
    ensures Registered(s) ==> Registered(r)
  {
    var k1, c1 := UpdateList(GetList(s, t, false), cfgs, destroyed, stepScaled);
    var s1 := SetList(s, t, false, k1);
    var k2, c2 := UpdateList(GetList(s1, t, true), cfgs, destroyed, stepUnscaled);
    r := SetList(s1, t, true, k2);
    calls := c1 + c2;
    SurvivorsExactly(GetList(s, t, false), cfgs, destroyed, stepScaled);
    SurvivorsExactly(GetList(s, t, true), cfgs, destroyed, stepUnscaled);
  }

  // ---- Kill and queries ----

  /** `matchTarget && matchId`: a null filter matches everything; targets
      compare with Unity's `==`, ids with `Equals`. */
  predicate Matches(h: Handle, target: Option<TargetId>, id: Option<UserId>,
                    cfgs: Handle -> ActionCore.Config, destroyed: set<TargetId>)
  {
    && (IsNull(target, destroyed) || SameObject(cfgs(h).target, target, destroyed))
    && (id.None? || cfgs(h).id == id)
  }

  /** The entries `KillInList` keeps: the non-null ones the filter does not match. */
  function Unmatched(l: seq<Entry>, target: Option<TargetId>, id: Option<UserId>,
                     cfgs: Handle -> ActionCore.Config, destroyed: set<TargetId>): (r: seq<Entry>)
    ensures |r| <= |l|
    ensures IsNull(target, destroyed) && id.None? ==> r == []
  {
    if |l| == 0 then []
    else
      var rest := Unmatched(l[1..], target, id, cfgs, destroyed);
      if l[0].Some? && !Matches(l[0].value, target, id, cfgs, destroyed) then [l[0]] + rest else rest
  }

  /** The kept entries are exactly the non-null ones the filter misses. */
  lemma {:induction false} UnmatchedExactly(l: seq<Entry>, target: Option<TargetId>, id: Option<UserId>,
                                            cfgs: Handle -> ActionCore.Config, destroyed: set<TargetId>)
    ensures forall e :: e in Unmatched(l, target, id, cfgs, destroyed) <==>
              e in l && e.Some? && !Matches(e.value, target, id, cfgs, destroyed)
    ensures NoDup(l) ==> NoDup(Unmatched(l, target, id, cfgs, destroyed))
  {
    if |l| > 0 {
      UnmatchedExactly(l[1..], target, id, cfgs, destroyed);
      assert forall e :: e in l <==> e == l[0] || e in l[1..];
      assert NoDup(l) ==> NoDup(l[1..]) && l[0] !in l[1..];
    }
  }

  /** The calls of `KillInList` over `l`, last entry first. */
  function KillCalls(l: seq<Entry>, complete: bool, target: Option<TargetId>, id: Option<UserId>,
                     cfgs: Handle -> ActionCore.Config, destroyed: set<TargetId>): seq<Call>
  {
    if |l| == 0 then []
    else
      KillCalls(l[1..], complete, target, id, cfgs, destroyed)
      + (if l[0].Some? && Matches(l[0].value, target, id, cfgs, destroyed)
         then [if complete then Completed(l[0].value) else Killed(l[0].value)] else [])
  }

  /** One entry of the filter and of the call log, from the front of a suffix. */
  lemma KillStep(l: seq<Entry>, i: nat, complete: bool, target: Option<TargetId>, id: Option<UserId>,
                 cfgs: Handle -> ActionCore.Config, destroyed: set<TargetId>)
    requires i < |l|
    ensures Unmatched(l[i..], target, id, cfgs, destroyed)
            == (if l[i].Some? && !Matches(l[i].value, target, id, cfgs, destroyed) then [l[i]] else [])
               + Unmatched(l[i + 1..], target, id, cfgs, destroyed)
    ensures KillCalls(l[i..], complete, target, id, cfgs, destroyed)
            == KillCalls(l[i + 1..], complete, target, id, cfgs, destroyed)
               + (if l[i].Some? && Matches(l[i].value, target, id, cfgs, destroyed)
                  then [if complete then Completed(l[i].value) else Killed(l[i].value)] else [])
  {
    assert l[i..][0] == l[i] && l[i..][1..] == l[i + 1..];
  }

  /** `KillInList`: walks the list backwards, dropping null entries and
      completing or killing, then dropping, every tween the filter matches. */
  method KillInList(list: seq<Entry>, complete: bool, target: Option<TargetId>, id: Option<UserId>,
                    cfgs: Handle -> ActionCore.Config, destroyed: set<TargetId>)
    returns (kept: seq<Entry>, calls: seq<Call>)
    ensures kept == Unmatched(list, target, id, cfgs, destroyed)
    ensures calls == KillCalls(list, complete, target, id, cfgs, destroyed)
  {
    kept := list;
    calls := [];
    var i := |list|;
    while i > 0
      invariant 0 <= i <= |list|
      invariant kept == list[..i] + Unmatched(list[i..], target, id, cfgs, destroyed)
      invariant calls == KillCalls(list[i..], complete, target, id, cfgs, destroyed)
    {
      i := i - 1;
      ghost var tail := Unmatched(list[i + 1..], target, id, cfgs, destroyed);
      SplitAt(list, i);
      KillStep(list, i, complete, target, id, cfgs, destroyed);
      Cut(list[..i], list[i], tail);
      assert kept == list[..i] + [list[i]] + tail;
      var tween := kept[i];
      if tween.None? {
        kept := kept[..i] + kept[i + 1..];
      } else if Matches(tween.value, target, id, cfgs, destroyed) {
        calls := calls + [if complete then Completed(tween.value) else Killed(tween.value)];
        kept := kept[..i] + kept[i + 1..];
      }
    }
    assert list[0..] == list;
  }

  /** Every list with the filter's matches (and its null entries) removed. */
  function Filtered(s: Scheduler, target: Option<TargetId>, id: Option<UserId>,
                    cfgs: Handle -> ActionCore.Config, destroyed: set<TargetId>): (r: Scheduler)
    ensures forall t: UpdateType, u: bool :: GetList(r, t, u) == Unmatched(GetList(s, t, u), target, id, cfgs, destroyed)
  {
    Scheduler(
      Unmatched(s.updateScaled, target, id, cfgs, destroyed),
      Unmatched(s.updateUnscaled, target, id, cfgs, destroyed),
      Unmatched(s.lateScaled, target, id, cfgs, destroyed),
      Unmatched(s.lateUnscaled, target, id, cfgs, destroyed),
      Unmatched(s.fixedScaled, target, id, cfgs, destroyed),
      Unmatched(s.fixedUnscaled, target, id, cfgs, destroyed))
  }

  /** The calls of `KillInList` over the six lists, in the order the kill
      functions visit them. */
  function KillLog(s: Scheduler, complete: bool, target: Option<TargetId>, id: Option<UserId>,
                   cfgs: Handle -> ActionCore.Config, destroyed: set<TargetId>): seq<Call>
  {
    KillCalls(s.updateScaled, complete, target, id, cfgs, destroyed)
    + KillCalls(s.updateUnscaled, complete, target, id, cfgs, destroyed)
    + KillCalls(s.lateScaled, complete, target, id, cfgs, destroyed)
    + KillCalls(s.lateUnscaled, complete, target, id, cfgs, destroyed)
    + KillCalls(s.fixedScaled, complete, target, id, cfgs, destroyed)
    + KillCalls(s.fixedUnscaled, complete, target, id, cfgs, destroyed)
  }

  /** `KillInList` on each of the six lists in turn. */
  method KillEverywhere(s: Scheduler, complete: bool, target: Option<TargetId>, id: Option<UserId>,
                        cfgs: Handle -> ActionCore.Config, destroyed: set<TargetId>)
    returns (r: Scheduler, calls: seq<Call>)
    ensures r == Filtered(s, target, id, cfgs, destroyed)
    ensures calls == KillLog(s, complete, target, id, cfgs, destroyed)
  {
    var k1, c1 := KillInList(s.updateScaled, complete, target, id, cfgs, destroyed);
    var k2, c2 := KillInList(s.updateUnscaled, complete, target, id, cfgs, destroyed);
    var k3, c3 := KillInList(s.lateScaled, complete, target, id, cfgs, destroyed);
    var k4, c4 := KillInList(s.lateUnscaled, complete, target, id, cfgs, destroyed);
    var k5, c5 := KillInList(s.fixedScaled, complete, target, id, cfgs, destroyed);
    var k6, c6 := KillInList(s.fixedUnscaled, complete, target, id, cfgs, destroyed);
    r := Scheduler(k1, k2, k3, k4, k5, k6);
    calls := c1 + c2 + c3 + c4 + c5 + c6;
  }

  /** `Kill(target)`: a null or destroyed target kills nothing; otherwise every
      tween on that target leaves the scheduler, completed or killed. */
  method Kill(s: Scheduler, target: Option<TargetId>, complete: bool,
              cfgs: Handle -> ActionCore.Config, destroyed: set<TargetId>)
    returns (r: Scheduler, calls: seq<Call>)
    ensures IsNull(target, destroyed) ==> r == s && calls == []
    ensures !IsNull(target, destroyed) ==>
              && (forall t: UpdateType, u: bool :: GetList(r, t, u) == Unmatched(GetList(s, t, u), target, None, cfgs, destroyed))
              && calls == KillLog(s, complete, target, None, cfgs, destroyed)
              && !IsTweening(r, target, cfgs, destroyed)
  {
    if IsNull(target, destroyed) {
      return s, [];
    }
    r, calls := KillEverywhere(s, complete, target, None, cfgs, destroyed);
    NoneLeft(r, target, None, s, cfgs, destroyed);
  }

  /** `KillId(id)`: a null id kills nothing; otherwise every tween with that id
      leaves the scheduler, completed or killed. */
  method KillId(s: Scheduler, id: Option<UserId>, complete: bool,
                cfgs: Handle -> ActionCore.Config, destroyed: set<TargetId>)
    returns (r: Scheduler, calls: seq<Call>)
    ensures id.None? ==> r == s && calls == []
    ensures id.Some? ==>
              && (forall t: UpdateType, u: bool :: GetList(r, t, u) == Unmatched(GetList(s, t, u), None, id, cfgs, destroyed))
              && calls == KillLog(s, complete, None, id, cfgs, destroyed)
              && !IsTweeningId(r, id, cfgs)
  {
    if id.None? {
      return s, [];
    }
    r, calls := KillEverywhere(s, complete, None, id, cfgs, destroyed);
    NoneLeft(r, None, id, s, cfgs, destroyed);
  }

  /** `KillAll`: every list ends up empty. */
  method KillAll(s: Scheduler, complete: bool, cfgs: Handle -> ActionCore.Config, destroyed: set<TargetId>)
    returns (r: Scheduler, calls: seq<Call>)
    ensures r == Empty()
    ensures calls == KillLog(s, complete, None, None, cfgs, destroyed)
  {
    r, calls := KillEverywhere(s, complete, None, None, cfgs, destroyed);
  }

  /** `Exists`: some non-null entry satisfies `pred`. */
  function Exists(l: seq<Entry>, pred: Handle -> bool): (r: bool)
    ensures r <==> exists k :: 0 <= k < |l| && l[k].Some? && pred(l[k].value)
  {
    if |l| == 0 then false
    else
      assert forall k :: 1 <= k < |l| ==> l[k] == l[1..][k - 1];
      (l[0].Some? && pred(l[0].value)) || Exists(l[1..], pred)
  }

  /** `FindInAnyList` */
  function FindInAnyList(s: Scheduler, pred: Handle -> bool): (r: bool)
    ensures r <==> exists t: UpdateType, u: bool, k ::
              0 <= k < |GetList(s, t, u)| && GetList(s, t, u)[k].Some? && pred(GetList(s, t, u)[k].value)
  {
    assert s.updateScaled == GetList(s, Normal, false) && s.updateUnscaled == GetList(s, Normal, true);
    assert s.lateScaled == GetList(s, Late, false) && s.lateUnscaled == GetList(s, Late, true);
    assert s.fixedScaled == GetList(s, Fixed, false) && s.fixedUnscaled == GetList(s, Fixed, true);
    Exists(s.updateScaled, pred) || Exists(s.updateUnscaled, pred) ||
    Exists(s.lateScaled, pred) || Exists(s.lateUnscaled, pred) ||
    Exists(s.fixedScaled, pred) || Exists(s.fixedUnscaled, pred)
  }

  /** `IsTweening(target)`: some registered tween's target equals it under
      Unity's `==` (so a null query finds the tweens whose target is gone). */
  function IsTweening(s: Scheduler, target: Option<TargetId>, cfgs: Handle -> ActionCore.Config,
                      destroyed: set<TargetId>): (r: bool)
    ensures r <==> exists t: UpdateType, u: bool, k ::
              0 <= k < |GetList(s, t, u)| && GetList(s, t, u)[k].Some?
              && SameObject(cfgs(GetList(s, t, u)[k].value).target, target, destroyed)
  {
    FindInAnyList(s, (h: Handle) => SameObject(cfgs(h).target, target, destroyed))
  }

  /** `IsTweeningId(id)`: some registered tween's id `Equals` it. */
  function IsTweeningId(s: Scheduler, id: Option<UserId>, cfgs: Handle -> ActionCore.Config): (r: bool)
    ensures r <==> exists t: UpdateType, u: bool, k ::
              0 <= k < |GetList(s, t, u)| && GetList(s, t, u)[k].Some? && cfgs(GetList(s, t, u)[k].value).id == id
  {
    FindInAnyList(s, (h: Handle) => cfgs(h).id == id)
  }

  /** After a targeted kill nothing the filter matches is left in any list. */
  lemma NoneLeft(r: Scheduler, target: Option<TargetId>, id: Option<UserId>, s: Scheduler,
                 cfgs: Handle -> ActionCore.Config, destroyed: set<TargetId>)
    requires forall t: UpdateType, u: bool :: GetList(r, t, u) == Unmatched(GetList(s, t, u), target, id, cfgs, destroyed)
    ensures !IsNull(target, destroyed) && id.None? ==> !IsTweening(r, target, cfgs, destroyed)
    ensures target.None? && id.Some? ==> !IsTweeningId(r, id, cfgs)
  {
    forall t: UpdateType, u: bool, k | 0 <= k < |GetList(r, t, u)| && GetList(r, t, u)[k].Some?
      ensures !Matches(GetList(r, t, u)[k].value, target, id, cfgs, destroyed)
    {
      UnmatchedExactly(GetList(s, t, u), target, id, cfgs, destroyed);
      assert GetList(r, t, u)[k] in GetList(r, t, u);
    }
  }
}
