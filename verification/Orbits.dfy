/** Repeating a partial step until it no longer applies. The mapping walker follows rewrites of
    paths this way, the chain filter follows request keys to target keys. */
module Orbits {
  import opened Paths

  /** Where `p` ends when at most `n` steps finish it. */
  function NormalForm<T>(step: T -> Option<T>, p: T, n: nat): Option<T>
    decreases n, p
  {
    match step(p)
    case None => Some(p)
    case Some(q) => if n == 0 then None else NormalForm(step, q, n - 1)
  }

  /** The point after `n` steps, or the end if that comes first. */
  function After<T>(step: T -> Option<T>, p: T, n: nat): T
    decreases n, p
  {
    if n == 0 then p
    else match step(p)
      case None => p
      case Some(q) => After(step, q, n - 1)
  }

  /** Exactly `n` steps lead from `p` to a point where the step no longer applies. */
  predicate ResolvesIn<T>(step: T -> Option<T>, p: T, n: nat)
    decreases n, p
  {
    match step(p)
    case None => n == 0
    case Some(q) => n > 0 && ResolvesIn(step, q, n - 1)
  }

  ghost predicate StepTogether<T(!new), K(!new)>(step: T -> Option<T>, key: T -> K, p: T, q: T) {
    key(p) == key(q) ==>
      && step(p).None? == step(q).None?
      && (step(p).Some? ==> key(step(p).value) == key(step(q).value))
  }

  /** Points with equal keys step together. */
  ghost predicate Respects<T(!new), K(!new)>(step: T -> Option<T>, key: T -> K) {
    forall p, q {:trigger StepTogether(step, key, p, q)} :: StepTogether(step, key, p, q)
  }

  lemma {:induction false} NormalFormSteps<T>(step: T -> Option<T>, p: T, n: nat) returns (k: nat)
    requires NormalForm(step, p, n).Some?
    ensures k <= n && ResolvesIn(step, p, k)
    ensures NormalForm(step, p, n).value == After(step, p, k)
    decreases n
  {
    match step(p)
    case None => k := 0;
    case Some(q) =>
      var j := NormalFormSteps(step, q, n - 1);
      k := j + 1;
  }

  lemma {:induction false} ResolvesInNormalForm<T>(step: T -> Option<T>, p: T, k: nat, n: nat)
    requires ResolvesIn(step, p, k)
    ensures NormalForm(step, p, n) == if k <= n then Some(After(step, p, k)) else None
    decreases n
  {
    match step(p)
    case None =>
    case Some(q) => if n > 0 { ResolvesInNormalForm(step, q, k - 1, n - 1); }
  }

  lemma {:induction false} ResolvesInRespell<T(!new), K(!new)>(step: T -> Option<T>, key: T -> K, p: T, q: T, n: nat)
    requires Respects(step, key) && key(p) == key(q) && ResolvesIn(step, p, n)
    ensures ResolvesIn(step, q, n)
    ensures key(After(step, p, n)) == key(After(step, q, n))
    decreases n
  {
    assert StepTogether(step, key, p, q);
    match step(p)
    case None =>
    case Some(p') => ResolvesInRespell(step, key, p', step(q).value, n - 1);
  }

  lemma {:induction false} AfterPlusOne<T>(step: T -> Option<T>, p: T, n: nat)
    ensures After(step, p, n + 1) ==
            var q := After(step, p, n); if step(q).None? then q else step(q).value
    decreases n
  {
    match step(p)
    case None =>
    case Some(q) => if n > 0 { AfterPlusOne(step, q, n - 1); }
  }

  lemma {:induction false} ResolvesInSuffix<T>(step: T -> Option<T>, p: T, k: nat, n: nat)
    requires ResolvesIn(step, p, n) && k <= n
    ensures ResolvesIn(step, After(step, p, k), n - k)
    decreases n
  {
    if k > 0 {
      ResolvesInSuffix(step, step(p).value, k - 1, n - 1);
    }
  }

  lemma {:induction false} ResolvesInUnique<T>(step: T -> Option<T>, p: T, m: nat, n: nat)
    requires ResolvesIn(step, p, m) && ResolvesIn(step, p, n)
    ensures m == n
    decreases n
  {
    match step(p)
    case None =>
    case Some(q) => ResolvesInUnique(step, q, m - 1, n - 1);
  }

  lemma {:induction false} AfterStays<T>(step: T -> Option<T>, p: T, n: nat, k: nat)
    requires ResolvesIn(step, p, n) && n <= k
    ensures After(step, p, k) == After(step, p, n)
    ensures step(After(step, p, k)).None?
    decreases n
  {
    match step(p)
    case None =>
    case Some(q) => AfterStays(step, q, n - 1, k - 1);
  }

  /** A walk that ends never passes the same key twice: a repeat would go on for ever. */
  lemma KeysDistinct<T(!new), K(!new)>(step: T -> Option<T>, key: T -> K, p: T, n: nat, i: nat, j: nat)
    requires Respects(step, key) && ResolvesIn(step, p, n) && i < j <= n
    ensures key(After(step, p, i)) != key(After(step, p, j))
  {
    var a, b := After(step, p, i), After(step, p, j);
    ResolvesInSuffix(step, p, i, n);
    ResolvesInSuffix(step, p, j, n);
    if key(a) == key(b) {
      ResolvesInRespell(step, key, b, a, n - j);
      ResolvesInUnique(step, a, n - i, n - j);
    }
  }

  /** A repeated key means there is no end. */
  lemma RevisitNeverResolves<T(!new), K(!new)>(step: T -> Option<T>, key: T -> K, p: T, i: nat, k: nat, n: nat)
    requires Respects(step, key) && i <= k && step(After(step, p, k)).Some?
    requires key(After(step, p, i)) == key(After(step, p, k + 1))
    ensures !ResolvesIn(step, p, n)
  {
    if ResolvesIn(step, p, n) {
      if n <= k {
        AfterStays(step, p, n, k);
      } else {
        KeysDistinct(step, key, p, n, i, k + 1);
      }
    }
  }

  /** The points of a walk that ends, from `p` to the end. */
  lemma Chain<T(!new), K(!new)>(step: T -> Option<T>, key: T -> K, p: T, n: nat) returns (chain: seq<T>)
    requires Respects(step, key) && ResolvesIn(step, p, n)
    ensures |chain| == n + 1 && chain[0] == p && chain[n] == After(step, p, n)
    ensures forall i :: 0 <= i < n ==> step(chain[i]) == Some(chain[i + 1])
    ensures forall i, j :: 0 <= i < j < |chain| ==> key(chain[i]) != key(chain[j])
  {
    chain := seq(n + 1, i requires 0 <= i <= n => After(step, p, i));
    forall i | 0 <= i < n ensures step(chain[i]) == Some(chain[i + 1]) {
      ResolvesInSuffix(step, p, i, n);
      AfterPlusOne(step, p, i);
    }
    forall i, j | 0 <= i < j <= n ensures key(chain[i]) != key(chain[j]) {
      KeysDistinct(step, key, p, n, i, j);
    }
  }

  // ----- walking with a record of the keys passed -----

  /** `k` steps lead from `p` to `current`; `visited` holds only keys passed on the way; what is
      left of the bound decides as the whole bound does. */
  ghost predicate Walked<T(!new), K(!new)>(step: T -> Option<T>, key: T -> K, p: T, bound: nat, k: nat, current: T, visited: set<K>) {
    && current == After(step, p, k)
    && (forall v :: v in visited ==> exists i :: 0 <= i <= k && key(After(step, p, i)) == v)
    && NormalForm(step, p, bound) == (if k <= bound then NormalForm(step, current, bound - k) else None)
  }

  lemma WalkOn<T(!new), K(!new)>(step: T -> Option<T>, key: T -> K, p: T, bound: nat, k: nat, current: T, visited: set<K>)
    requires Walked(step, key, p, bound, k, current, visited) && step(current).Some?
    ensures Walked(step, key, p, bound, k + 1, step(current).value, visited + {key(step(current).value)})
  {
    var next := step(current).value;
    AfterPlusOne(step, p, k);
    assert After(step, p, k + 1) == next;
    forall v | v in visited + {key(next)}
      ensures exists i :: 0 <= i <= k + 1 && key(After(step, p, i)) == v
    {
      if v in visited {
        var i :| 0 <= i <= k && key(After(step, p, i)) == v;
      }
    }
  }

  /** Coming back to a passed key means that no number of steps finishes. */
  lemma WalkRepeats<T(!new), K(!new)>(step: T -> Option<T>, key: T -> K, p: T, bound: nat, k: nat, current: T, visited: set<K>)
    requires Respects(step, key) && Walked(step, key, p, bound, k, current, visited)
    requires step(current).Some? && key(step(current).value) in visited
    ensures NormalForm(step, p, bound).None?
  {
    AfterPlusOne(step, p, k);
    var i :| 0 <= i <= k && key(After(step, p, i)) == key(step(current).value);
    if NormalForm(step, p, bound).Some? {
      var n := NormalFormSteps(step, p, bound);
      RevisitNeverResolves(step, key, p, i, k, n);
    }
  }

  // ----- walking back -----

  ghost predicate UndoneAt<T(!new), K(!new)>(back: T -> Option<T>, go: T -> Option<T>, key: T -> K, p: T) {
    go(p).Some? ==> back(go(p).value).Some? && key(back(go(p).value).value) == key(p)
  }

  /** `back` takes the first `n` steps of `go` from `p` back, up to the key. */
  ghost predicate UndoneAlong<T(!new), K(!new)>(back: T -> Option<T>, go: T -> Option<T>, key: T -> K, p: T, n: nat)
    decreases n, p
  {
    n > 0 && go(p).Some? ==> UndoneAt(back, go, key, p) && UndoneAlong(back, go, key, go(p).value, n - 1)
  }

  /** Walking there and then back comes to where walking back from the start comes. */
  lemma {:induction false} ThereAndBack<T(!new), K(!new)>(go: T -> Option<T>, back: T -> Option<T>, key: T -> K, p: T, n: nat, k: nat)
    requires UndoneAlong(back, go, key, p, n) && Respects(back, key) && ResolvesIn(go, p, n) && ResolvesIn(back, p, k)
    ensures var q := After(go, p, n);
            ResolvesIn(back, q, n + k) && key(After(back, q, n + k)) == key(After(back, p, k))
    decreases n
  {
    if n > 0 {
      var next := go(p).value;
      OneBack(go, back, key, p, k);
      ThereAndBack(go, back, key, next, n - 1, k + 1);
      assert After(go, p, n) == After(go, next, n - 1);
    }
  }

  lemma OneBack<T(!new), K(!new)>(go: T -> Option<T>, back: T -> Option<T>, key: T -> K, p: T, k: nat)
    requires UndoneAt(back, go, key, p) && Respects(back, key) && go(p).Some? && ResolvesIn(back, p, k)
    ensures ResolvesIn(back, go(p).value, k + 1)
    ensures key(After(back, go(p).value, k + 1)) == key(After(back, p, k))
  {
    var p' := back(go(p).value).value;
    ResolvesInRespell(back, key, p, p', k);
  }

  /** So a point where `back` does not apply is come back to. */
  lemma BackToStart<T(!new), K(!new)>(go: T -> Option<T>, back: T -> Option<T>, key: T -> K, p: T, n: nat)
    requires UndoneAlong(back, go, key, p, n) && Respects(back, key) && ResolvesIn(go, p, n) && back(p).None?
    ensures var q := After(go, p, n); ResolvesIn(back, q, n) && key(After(back, q, n)) == key(p)
  {
    ThereAndBack(go, back, key, p, n, 0);
  }

  // ----- following another step on the keys -----

  ghost predicate FollowsAt<T(!new), K(!new)>(go: T -> Option<T>, chain: K -> Option<K>, key: T -> K, p: T) {
    chain(key(p)).Some? ==> go(p).Some? && key(go(p).value) == chain(key(p)).value
  }

  /** Wherever `chain` steps on the key, `go` steps along; it may go on where `chain` ends. */
  ghost predicate Follows<T(!new), K(!new)>(go: T -> Option<T>, chain: K -> Option<K>, key: T -> K) {
    forall p {:trigger FollowsAt(go, chain, key, p)} :: FollowsAt(go, chain, key, p)
  }

  /** While the chain lasts, the walk is along it. */
  lemma {:induction false} FollowsToEnd<T(!new), K(!new)>(go: T -> Option<T>, chain: K -> Option<K>, key: T -> K, p: T, n: nat, bound: nat)
    requires Follows(go, chain, key) && ResolvesIn(chain, key(p), n) && n <= bound
    ensures var end := After(go, p, n);
            && key(end) == After(chain, key(p), n) && chain(key(end)).None?
            && NormalForm(go, p, bound) == NormalForm(go, end, bound - n)
            && (n > 0 ==> go(p).Some?)
    decreases n
  {
    if n > 0 {
      assert FollowsAt(go, chain, key, p);
      FollowsToEnd(go, chain, key, go(p).value, n - 1, bound - 1);
    }
  }

  /** Where the chain does not end in time, neither does the walk. */
  lemma {:induction false} FollowsTooLong<T(!new), K(!new)>(go: T -> Option<T>, chain: K -> Option<K>, key: T -> K, p: T, bound: nat)
    requires Follows(go, chain, key) && NormalForm(chain, key(p), bound).None?
    ensures NormalForm(go, p, bound).None?
    decreases bound
  {
    assert FollowsAt(go, chain, key, p);
    if bound > 0 {
      FollowsTooLong(go, chain, key, go(p).value, bound - 1);
    }
  }

  // ----- cycles -----

  ghost predicate OnCycle<T>(step: T -> Option<T>, p: T) {
    step(p).Some? && exists n: nat :: n > 0 && After(step, p, n) == p
  }

  lemma {:induction false} AfterAdds<T>(step: T -> Option<T>, p: T, m: nat, n: nat)
    ensures After(step, After(step, p, m), n) == After(step, p, m + n)
    decreases m
  {
    if m > 0 {
      match step(p)
      case None => EndIsFixed(step, p, n);
      case Some(q) => AfterAdds(step, q, m - 1, n);
    }
  }

  lemma EndIsFixed<T>(step: T -> Option<T>, p: T, n: nat)
    requires step(p).None?
    ensures After(step, p, n) == p
  {
  }

  /** From any point of its orbit a cyclic point is reached again. */
  lemma {:induction false} CycleReturns<T>(step: T -> Option<T>, p: T, j: nat) returns (m: nat)
    requires OnCycle(step, p)
    ensures After(step, After(step, p, j), m) == p
    decreases j
  {
    var n: nat :| n > 0 && After(step, p, n) == p;
    if j <= n {
      m := n - j;
      AfterAdds(step, p, j, m);
    } else {
      AfterAdds(step, p, n, j - n);
      m := CycleReturns(step, p, j - n);
    }
  }

  lemma CycleNeverResolves<T(!new)>(step: T -> Option<T>, p: T, n: nat)
    requires OnCycle(step, p)
    ensures !ResolvesIn(step, p, n)
    ensures NormalForm(step, p, n).None?
  {
    var k: nat :| k > 0 && After(step, p, k) == p;
    AfterPlusOne(step, p, k - 1);
    forall m: nat ensures !ResolvesIn(step, p, m) {
      RevisitNeverResolves(step, (x: T) => x, p, 0, k - 1, m);
    }
    if NormalForm(step, p, n).Some? {
      var m := NormalFormSteps(step, p, n);
    }
  }
}
