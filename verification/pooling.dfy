/** The static `Stack<T>` free lists of `PropertyTween<T>` and `TweenSequence`: all
    instances ever created, the released ones waiting on a bounded stack (top
    last), and the identity the next `new` would get. */
module Pooling {
  import opened Common

  datatype Pool<T> = Pool(objects: map<Handle, T>, free: seq<Handle>, next: Handle)

  /** The stack holds at most `cap` distinct, existing instances. */
  ghost predicate Stacked<T>(w: Pool<T>, cap: nat)
  {
    && |w.free| <= cap
    && (forall i, j :: 0 <= i < j < |w.free| ==> w.free[i] != w.free[j])
    && (forall i :: 0 <= i < |w.free| ==> w.free[i] in w.objects)
    && (forall h :: h in w.objects ==> h < w.next)
  }

  /** An instance taken for a rental: the pool without it, its handle, its old state. */
  datatype Taken<T> = Taken(pool: Pool<T>, handle: Handle, obj: T)

  /** `Pool.Count > 0 ? Pool.Pop() : new ...()` */
  function Take<T>(w: Pool<T>, cap: nat, created: T): (r: Taken<T>)
    requires Stacked(w, cap)
    ensures Stacked(r.pool, cap) && r.pool.objects == w.objects && r.handle !in r.pool.free
    ensures |w.free| > 0 ==>
              && r.handle == w.free[|w.free| - 1] && r.handle in w.objects
              && r.pool.free == w.free[..|w.free| - 1]
              && r.obj == w.objects[r.handle] && r.pool.next == w.next
    ensures |w.free| == 0 ==>
              && r.handle == w.next && r.handle !in w.objects && r.pool.free == []
              && r.obj == created && r.pool.next == w.next + 1
    ensures forall i :: 0 <= i < |r.pool.free| ==> r.pool.free[i] in w.free
  {
    if |w.free| > 0 then
      var h := w.free[|w.free| - 1];
      Taken(w.(free := w.free[..|w.free| - 1]), h, w.objects[h])
    else Taken(w.(next := w.next + 1), w.next, created)
  }

  /** Stores the taken instance back under its handle. */
  function Give<T>(t: Taken<T>, obj: T): (r: Pool<T>)
    ensures r.objects == t.pool.objects[t.handle := obj]
    ensures r.free == t.pool.free && r.next == t.pool.next
  {
    t.pool.(objects := t.pool.objects[t.handle := obj])
  }

  /** `if (Pool.Count < MaxPool) Pool.Push(this)`: an instance beyond the bound is dropped. */
  function Push<T>(w: Pool<T>, h: Handle, cap: nat): (r: Pool<T>)
    requires Stacked(w, cap) && h in w.objects && h !in w.free
    ensures Stacked(r, cap) && r.objects == w.objects && r.next == w.next
    ensures |w.free| < cap ==> r.free == w.free + [h]
    ensures |w.free| >= cap ==> r.free == w.free
  {
    if |w.free| < cap then w.(free := w.free + [h]) else w
  }
}
