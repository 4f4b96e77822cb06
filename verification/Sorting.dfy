/** Three-way comparison and stable sorting, as `cmp`, `then_with` and `sort_by` of the Rust
    standard library define them. */
module Sorting {

  datatype Ordering = Less | Equal | Greater

  type Compare<!T> = (T, T) -> Ordering

  function Flip(o: Ordering): Ordering {
    match o case Less => Greater case Equal => Equal case Greater => Less
  }

  function ThenWith(first: Ordering, second: Ordering): Ordering {
    if first == Equal then second else first
  }

  /** What `sort_by` expects of a comparison: both directions agree, and it is transitive. */
  ghost predicate Lawful<T(!new)>(cmp: Compare<T>) {
    && (forall a, b :: cmp(b, a) == Flip(cmp(a, b)))
    && (forall a, b, c :: cmp(a, b) != Greater && cmp(b, c) != Greater ==> cmp(a, c) != Greater)
  }

  /** Only equal values compare equal. */
  ghost predicate Exact<T(!new)>(cmp: Compare<T>) {
    forall a, b :: cmp(a, b) == Equal ==> a == b
  }

  // ----- comparing text -----

  function CompareNat(a: nat, b: nat): Ordering {
    if a < b then Less else if a == b then Equal else Greater
  }

  /** `cmp` on strings. */
  function CompareText(a: string, b: string): Ordering {
    if a == "" then (if b == "" then Equal else Less)
    else if b == "" then Greater
    else if a[0] < b[0] then Less
    else if a[0] > b[0] then Greater
    else CompareText(a[1..], b[1..])
  }

  lemma {:induction false} TextFlips(a: string, b: string)
    ensures CompareText(b, a) == Flip(CompareText(a, b))
    ensures CompareText(a, b) == Equal <==> a == b
  {
    if a != "" && b != "" {
      TextFlips(a[1..], b[1..]);
      assert a == [a[0]] + a[1..] && b == [b[0]] + b[1..];
    }
  }

  lemma {:induction false} TextTransitive(a: string, b: string, c: string)
    requires CompareText(a, b) != Greater && CompareText(b, c) != Greater
    ensures CompareText(a, c) != Greater
  {
    if a != "" && b != "" && c != "" && a[0] == b[0] == c[0] {
      TextTransitive(a[1..], b[1..], c[1..]);
    }
  }

  /** Text order is a total order. */
  lemma TextOrder()
    ensures Lawful(CompareText) && Exact(CompareText)
  {
    forall a: string, b: string
      ensures CompareText(b, a) == Flip(CompareText(a, b))
      ensures CompareText(a, b) == Equal ==> a == b
    {
      TextFlips(a, b);
    }
    forall a: string, b: string, c: string | CompareText(a, b) != Greater && CompareText(b, c) != Greater
      ensures CompareText(a, c) != Greater
    {
      TextTransitive(a, b, c);
    }
  }

  /** `a` ends inside `b`, or has the smaller letter where they first differ. */
  ghost predicate TextBefore(a: string, b: string) {
    exists k :: TextBeforeAt(a, b, k)
  }

  ghost predicate TextBeforeAt(a: string, b: string, k: nat) {
    k <= |a| && k < |b| && a[..k] == b[..k] && (k == |a| || a[k] < b[k])
  }

  lemma {:induction false} CompareTextMeans(a: string, b: string)
    ensures CompareText(a, b) == Less <==> TextBefore(a, b)
    decreases |a|
  {
    if a == "" || b == "" || a[0] != b[0] {
      assert b != "" && (a == "" || a[0] < b[0]) ==> TextBeforeAt(a, b, 0);
      assert forall k: nat :: k > 0 && TextBeforeAt(a, b, k) ==> a[..k][0] == a[0] && b[..k][0] == b[0];
    } else {
      CompareTextMeans(a[1..], b[1..]);
      OneLetterOn(a, b);
    }
  }

  lemma OneLetterOn(a: string, b: string)
    requires a != "" && b != "" && a[0] == b[0]
    ensures TextBefore(a, b) <==> TextBefore(a[1..], b[1..])
  {
    if k: nat :| TextBeforeAt(a, b, k) {
      assert a[1..][..k - 1] == a[..k][1..] && b[1..][..k - 1] == b[..k][1..];
      assert TextBeforeAt(a[1..], b[1..], k - 1);
    }
    if k: nat :| TextBeforeAt(a[1..], b[1..], k) {
      assert a[..k + 1] == [a[0]] + a[1..][..k] && b[..k + 1] == [b[0]] + b[1..][..k];
      assert TextBeforeAt(a, b, k + 1);
    }
  }

  // ----- building comparisons -----

  /** Comparing by a key first, by another comparison second. */
  function ByKey<T, K>(key: T -> K, cmp: Compare<K>, next: Compare<T>): Compare<T> {
    (a, b) => ThenWith(cmp(key(a), key(b)), next(a, b))
  }

  lemma ByKeyAt<T, K>(key: T -> K, cmp: Compare<K>, next: Compare<T>, a: T, b: T)
    ensures ByKey(key, cmp, next)(a, b) == ThenWith(cmp(key(a), key(b)), next(a, b))
  {
  }

  function Reversed<T>(cmp: Compare<T>): Compare<T> {
    (a, b) => cmp(b, a)
  }

  lemma LessThenAtMost<K(!new)>(cmp: Compare<K>, a: K, b: K, c: K)
    requires Lawful(cmp) && cmp(a, b) != Greater && cmp(b, c) != Greater && cmp(a, c) == Equal
    ensures cmp(a, b) == Equal && cmp(b, c) == Equal
  {
    assert cmp(c, a) != Greater;
    assert cmp(b, a) != Greater && cmp(c, b) != Greater;
  }

  lemma ByKeyLawful<T(!new), K(!new)>(key: T -> K, cmp: Compare<K>, next: Compare<T>)
    requires Lawful(cmp) && Lawful(next)
    ensures Lawful(ByKey(key, cmp, next))
    ensures Exact(next) ==> Exact(ByKey(key, cmp, next))
  {
    var both := ByKey(key, cmp, next);
    forall a, b, c | both(a, b) != Greater && both(b, c) != Greater
      ensures both(a, c) != Greater
    {
      assert cmp(key(a), key(c)) != Greater;
      if cmp(key(a), key(c)) == Equal {
        LessThenAtMost(cmp, key(a), key(b), key(c));
      }
    }
  }

  lemma ReversedLawful<T(!new)>(cmp: Compare<T>)
    requires Lawful(cmp)
    ensures Lawful(Reversed(cmp))
    ensures Exact(cmp) ==> Exact(Reversed(cmp))
  {
  }

  // ----- sorting -----

  ghost predicate Sorted<T>(cmp: Compare<T>, s: seq<T>) {
    forall i, j :: 0 <= i < j < |s| ==> cmp(s[i], s[j]) != Greater
  }

  function Insert<T>(cmp: Compare<T>, x: T, s: seq<T>): seq<T> {
    if |s| == 0 || cmp(x, s[0]) != Greater then [x] + s else [s[0]] + Insert(cmp, x, s[1..])
  }

  /** `sort_by` */
  function Sort<T>(cmp: Compare<T>, s: seq<T>): seq<T> {
    if |s| == 0 then [] else Insert(cmp, s[0], Sort(cmp, s[1..]))
  }

  lemma {:induction false} InsertAdds<T>(cmp: Compare<T>, x: T, s: seq<T>)
    ensures multiset(Insert(cmp, x, s)) == multiset(s) + multiset{x}
  {
    if !(|s| == 0 || cmp(x, s[0]) != Greater) {
      InsertAdds(cmp, x, s[1..]);
      assert s == [s[0]] + s[1..];
    }
  }

  lemma {:induction false} InsertSorts<T(!new)>(cmp: Compare<T>, x: T, s: seq<T>)
    requires Lawful(cmp) && Sorted(cmp, s)
    ensures Sorted(cmp, Insert(cmp, x, s))
  {
    if |s| == 0 {
    } else if cmp(x, s[0]) != Greater {
      var r := [x] + s;
      forall i, j | 0 <= i < j < |r|
        ensures cmp(r[i], r[j]) != Greater
      {
        if i == 0 && j > 1 {
          assert cmp(s[0], s[j - 1]) != Greater;
        }
      }
    } else {
      var rest := Insert(cmp, x, s[1..]);
      InsertSorts(cmp, x, s[1..]);
      InsertAdds(cmp, x, s[1..]);
      forall j | 0 <= j < |rest|
        ensures cmp(s[0], rest[j]) != Greater
      {
        assert rest[j] in multiset(rest);
        assert rest[j] == x || rest[j] in s[1..];
      }
    }
  }

  lemma {:induction false} SortPermutes<T>(cmp: Compare<T>, s: seq<T>)
    ensures multiset(Sort(cmp, s)) == multiset(s)
    ensures |Sort(cmp, s)| == |s|
  {
    if |s| > 0 {
      SortPermutes(cmp, s[1..]);
      InsertAdds(cmp, s[0], Sort(cmp, s[1..]));
      assert s == [s[0]] + s[1..];
    }
    assert |multiset(Sort(cmp, s))| == |multiset(s)|;
  }

  lemma {:induction false} SortSorts<T(!new)>(cmp: Compare<T>, s: seq<T>)
    requires Lawful(cmp)
    ensures Sorted(cmp, Sort(cmp, s))
  {
    if |s| > 0 {
      SortSorts(cmp, s[1..]);
      InsertSorts(cmp, s[0], Sort(cmp, s[1..]));
    }
  }

  // ----- sorted lists are canonical -----

  function Mapped<T, K>(key: T -> K, s: seq<T>): seq<K> {
    seq(|s|, i requires 0 <= i < |s| => key(s[i]))
  }

  lemma SortedTail<T>(cmp: Compare<T>, s: seq<T>)
    requires Sorted(cmp, s) && |s| > 0
    ensures Sorted(cmp, s[1..])
    ensures forall x :: x in s ==> x == s[0] || cmp(s[0], x) != Greater
  {
  }

  /** Sorting leaves one arrangement of a bag. */
  lemma {:induction false} SortedUnique<T(!new)>(cmp: Compare<T>, a: seq<T>, b: seq<T>)
    requires Lawful(cmp) && Exact(cmp)
    requires Sorted(cmp, a) && Sorted(cmp, b) && multiset(a) == multiset(b)
    ensures a == b
  {
    assert |a| == |multiset(a)| && |b| == |multiset(b)|;
    if |a| > 0 {
      SameFirst(cmp, a, b);
      TailBag(a);
      TailBag(b);
      CancelOne(multiset(a[1..]), multiset(b[1..]), a[0]);
      assert Sorted(cmp, a[1..]) by { SortedTail(cmp, a); }
      assert Sorted(cmp, b[1..]) by { SortedTail(cmp, b); }
      SortedUnique(cmp, a[1..], b[1..]);
    }
  }

  lemma TailBag<T>(s: seq<T>)
    requires |s| > 0
    ensures multiset(s) == multiset(s[1..]) + multiset{s[0]}
  {
    assert s == [s[0]] + s[1..];
  }

  lemma SameFirst<T(!new)>(cmp: Compare<T>, a: seq<T>, b: seq<T>)
    requires Lawful(cmp) && Exact(cmp) && |a| > 0 && |b| > 0
    requires Sorted(cmp, a) && Sorted(cmp, b) && multiset(a) == multiset(b)
    ensures a[0] == b[0]
  {
    SortedTail(cmp, a);
    SortedTail(cmp, b);
    assert b[0] in multiset(a) && a[0] in multiset(b);
  }

  function Without<T>(s: seq<T>, i: nat): seq<T>
    requires i < |s|
  {
    s[..i] + s[i + 1..]
  }

  lemma TakenOut<T>(s: seq<T>, i: nat)
    requires i < |s|
    ensures multiset(s) == multiset(Without(s, i)) + multiset{s[i]}
  {
    assert s == s[..i] + [s[i]] + s[i + 1..];
  }

  lemma {:induction false} DistinctBag<T(!new)>(s: seq<T>)
    requires forall i, j :: 0 <= i < j < |s| ==> s[i] != s[j]
    ensures forall t :: multiset(s)[t] == if t in s then 1 else 0
  {
    if |s| > 0 {
      DistinctBag(s[1..]);
      assert s == [s[0]] + s[1..];
    }
  }

  lemma CancelOne<T>(m: multiset<T>, n: multiset<T>, x: T)
    requires m + multiset{x} == n + multiset{x}
    ensures m == n
  {
    assert m == (m + multiset{x}) - multiset{x};
    assert n == (n + multiset{x}) - multiset{x};
  }

  lemma MappedWithout<T, K>(key: T -> K, s: seq<T>, i: nat)
    requires i < |s|
    ensures Mapped(key, Without(s, i)) == Without(Mapped(key, s), i)
  {
  }

  lemma {:induction false} MappedBag<T, K>(key: T -> K, a: seq<T>, b: seq<T>)
    requires multiset(a) == multiset(b)
    ensures multiset(Mapped(key, a)) == multiset(Mapped(key, b))
    decreases |a|
  {
    assert |a| == |multiset(a)| && |b| == |multiset(b)|;
    if |a| > 0 {
      assert a[0] in multiset(b);
      var i :| 0 <= i < |b| && b[i] == a[0];
      TakenOut(a, 0);
      TakenOut(b, i);
      CancelOne(multiset(Without(a, 0)), multiset(Without(b, i)), a[0]);
      MappedBag(key, Without(a, 0), Without(b, i));
      MappedWithout(key, a, 0);
      MappedWithout(key, b, i);
      TakenOut(Mapped(key, a), 0);
      TakenOut(Mapped(key, b), i);
    }
  }

  /** Sorting by a key first and comparing the sorted keys position by position compares the bags
      of keys. */
  lemma SortThenZip<T(!new), K(!new)>(key: T -> K, cmp: Compare<K>, next: Compare<T>, a: seq<T>, b: seq<T>)
    requires Lawful(cmp) && Exact(cmp) && Lawful(next)
    ensures Mapped(key, Sort(ByKey(key, cmp, next), a)) == Mapped(key, Sort(ByKey(key, cmp, next), b)) <==>
            multiset(Mapped(key, a)) == multiset(Mapped(key, b))
  {
    var both := ByKey(key, cmp, next);
    ByKeyLawful(key, cmp, next);
    KeysSorted(key, cmp, next, Sort(both, a));
    KeysSorted(key, cmp, next, Sort(both, b));
    SortSorts(both, a);
    SortSorts(both, b);
    SortPermutes(both, a);
    SortPermutes(both, b);
    MappedBag(key, Sort(both, a), a);
    MappedBag(key, Sort(both, b), b);
    if multiset(Mapped(key, a)) == multiset(Mapped(key, b)) {
      SortedUnique(cmp, Mapped(key, Sort(both, a)), Mapped(key, Sort(both, b)));
    }
  }

  lemma KeysSorted<T, K>(key: T -> K, cmp: Compare<K>, next: Compare<T>, s: seq<T>)
    ensures Sorted(ByKey(key, cmp, next), s) ==> Sorted(cmp, Mapped(key, s))
  {
    if Sorted(ByKey(key, cmp, next), s) {
      forall i, j | 0 <= i < j < |s|
        ensures cmp(key(s[i]), key(s[j])) != Greater
      {
        assert ByKey(key, cmp, next)(s[i], s[j]) != Greater;
      }
    }
  }
}
