/**
 The bottom-up merge sort that utlist.h and uthash.h run on linked lists, on sequences:
 runs of doubling length are merged in passes.
 */
module MergeSort {
  import opened Basics

  /** The order of a comparison function as the sort macros need it. */
  ghost predicate TotalPreorder(cmp: (int, int) -> int) {
    && (forall a, b :: cmp(a, b) < 0 <==> cmp(b, a) > 0)
    && (forall a, b, c :: cmp(a, b) <= 0 && cmp(b, c) <= 0 ==> cmp(a, c) <= 0)
  }

  /** One merge; on equal keys the element of the first run goes first. */
  function Merge<T>(p: seq<T>, q: seq<T>, key: T -> int, cmp: (int, int) -> int): (r: seq<T>)
    ensures |r| == |p| + |q|
    decreases |p| + |q|
  {
    if p == [] then q
    else if q == [] then p
    else if cmp(key(p[0]), key(q[0])) <= 0 then [p[0]] + Merge(p[1..], q, key, cmp)
    else [q[0]] + Merge(p, q[1..], key, cmp)
  }

  /** One pass: neighbouring runs of length `k` are merged. */
  function Pass<T>(s: seq<T>, k: nat, key: T -> int, cmp: (int, int) -> int): (r: seq<T>)
    requires k >= 1
    ensures |r| == |s|
    decreases |s|
  {
    if s == [] then []
    else
      var m, n := Min(k, |s|), Min(2 * k, |s|);
      Merge(s[..m], s[m..n], key, cmp) + Pass(s[n..], k, key, cmp)
  }

  /** Passes with doubling run length until one pass has made a single merge. */
  function SortFrom<T>(s: seq<T>, k: nat, key: T -> int, cmp: (int, int) -> int): (r: seq<T>)
    requires k >= 1
    ensures |r| == |s|
    decreases |s| - k
  {
    var t := Pass(s, k, key, cmp);
    if |s| <= 2 * k then t else SortFrom(t, 2 * k, key, cmp)
  }

  function Sort<T>(s: seq<T>, key: T -> int, cmp: (int, int) -> int): (r: seq<T>)
    ensures |r| == |s|
  {
    SortFrom(s, 1, key, cmp)
  }

  // ----- What is left to do in the middle of a merge, and in the middle of a pass

  /** What the merge of the two rests will add to the output makes it `target`. */
  ghost predicate Remaining<T>(s: seq<T>, i: nat, m: nat, j: nat, n: nat, out: seq<T>, target: seq<T>,
                            key: T -> int, cmp: (int, int) -> int)
  {
    i <= m <= j <= n <= |s| && out + Merge(s[i..m], s[j..n], key, cmp) == target
  }

  lemma AllRemaining<T>(s: seq<T>, start: nat, m: nat, n: nat, out: seq<T>, key: T -> int, cmp: (int, int) -> int)
    requires start <= m <= n <= |s|
    ensures Remaining(s, start, m, m, n, out, out + Merge(s[start..m], s[m..n], key, cmp), key, cmp)
  {
  }

  lemma NothingLeft<T>(s: seq<T>, m: nat, n: nat, out: seq<T>, target: seq<T>, key: T -> int, cmp: (int, int) -> int)
    requires Remaining(s, m, m, n, n, out, target, key, cmp)
    ensures out == target
  {
  }

  /** The element that the merge takes next. */
  lemma Peel<T>(s: seq<T>, i: nat, m: nat, j: nat, n: nat, key: T -> int, cmp: (int, int) -> int, out: seq<T>, target: seq<T>)
    requires Remaining(s, i, m, j, n, out, target, key, cmp) && (i < m || j < n)
    ensures if i < m && (j == n || cmp(key(s[i]), key(s[j])) <= 0)
            then Remaining(s, i + 1, m, j, n, out + [s[i]], target, key, cmp)
            else Remaining(s, i, m, j + 1, n, out + [s[j]], target, key, cmp)
  {
    if i < m {
      assert s[i..m][1..] == s[i + 1..m];
    }
    if j < n {
      assert s[j..n][1..] == s[j + 1..n];
    }
  }

  /** The passes over the rest of the list will make the output the result of the whole pass. */
  ghost predicate Passing<T>(s: seq<T>, start: nat, k: nat, out: seq<T>, key: T -> int, cmp: (int, int) -> int) {
    start <= |s| && k >= 1 && out + Pass(s[start..], k, key, cmp) == Pass(s, k, key, cmp)
  }

  lemma StartPass<T>(s: seq<T>, k: nat, key: T -> int, cmp: (int, int) -> int)
    requires k >= 1
    ensures Passing(s, 0, k, [], key, cmp)
  {
    assert s[0..] == s;
  }

  lemma PassStep<T>(s: seq<T>, start: nat, k: nat, out: seq<T>, key: T -> int, cmp: (int, int) -> int)
    requires Passing(s, start, k, out, key, cmp) && start < |s|
    ensures var m, n := start + Min(k, |s| - start), Min(start + 2 * k, |s|);
            Passing(s, n, k, out + Merge(s[start..m], s[m..n], key, cmp), key, cmp)
  {
    hide Merge;
    var m, n := start + Min(k, |s| - start), Min(start + 2 * k, |s|);
    var rest := s[start..];
    assert rest[..m - start] == s[start..m];
    assert rest[m - start..n - start] == s[m..n];
    assert rest[n - start..] == s[n..];
  }

  lemma EndPass<T>(s: seq<T>, k: nat, out: seq<T>, key: T -> int, cmp: (int, int) -> int)
    requires Passing(s, |s|, k, out, key, cmp)
    ensures out == Pass(s, k, key, cmp)
  {
  }

  // ----- Correctness: order by key, then by the rank an element had at the start

  predicate Before<T>(a: T, b: T, key: T -> int, cmp: (int, int) -> int, rank: T -> int) {
    var c := cmp(key(a), key(b));
    c < 0 || (c == 0 && rank(a) < rank(b))
  }

  predicate Ordered<T>(s: seq<T>, key: T -> int, cmp: (int, int) -> int, rank: T -> int) {
    forall i, j :: 0 <= i < j < |s| ==> Before(s[i], s[j], key, cmp, rank)
  }

  predicate Earlier<T>(a: seq<T>, b: seq<T>, rank: T -> int) {
    forall i, j :: 0 <= i < |a| && 0 <= j < |b| ==> rank(a[i]) < rank(b[j])
  }

  /** Runs of length `k` are ordered, and later runs hold elements of later rank. */
  predicate Runs<T>(s: seq<T>, k: nat, key: T -> int, cmp: (int, int) -> int, rank: T -> int)
    requires k >= 1
    decreases |s|
  {
    s != [] ==>
      var m := Min(k, |s|);
      Ordered(s[..m], key, cmp, rank) && Earlier(s[..m], s[m..], rank) && Runs(s[m..], k, key, cmp, rank)
  }

  lemma {:induction false} MergeMultiset<T>(p: seq<T>, q: seq<T>, key: T -> int, cmp: (int, int) -> int)
    ensures multiset(Merge(p, q, key, cmp)) == multiset(p) + multiset(q)
    decreases |p| + |q|
  {
    if p != [] && q != [] {
      assert p == [p[0]] + p[1..] && q == [q[0]] + q[1..];
      if cmp(key(p[0]), key(q[0])) <= 0 {
        MergeMultiset(p[1..], q, key, cmp);
      } else {
        MergeMultiset(p, q[1..], key, cmp);
      }
    }
  }

  /** Every element of the merge comes from one of the runs. */
  lemma MergeElement<T>(p: seq<T>, q: seq<T>, key: T -> int, cmp: (int, int) -> int, i: nat)
    requires i < |p| + |q|
    ensures var x := Merge(p, q, key, cmp)[i];
            (exists j :: 0 <= j < |p| && p[j] == x) || (exists j :: 0 <= j < |q| && q[j] == x)
  {
    var r := Merge(p, q, key, cmp);
    MergeMultiset(p, q, key, cmp);
    assert r[i] in multiset(r);
    assert r[i] in multiset(p) || r[i] in multiset(q);
  }

  /** Merging two ordered runs, the first of earlier rank, gives an ordered run. */
  lemma {:induction false} MergeOrdered<T>(p: seq<T>, q: seq<T>, key: T -> int, cmp: (int, int) -> int, rank: T -> int)
    requires TotalPreorder(cmp)
    requires Ordered(p, key, cmp, rank) && Ordered(q, key, cmp, rank) && Earlier(p, q, rank)
    ensures Ordered(Merge(p, q, key, cmp), key, cmp, rank)
    decreases |p| + |q|
  {
    if p != [] && q != [] {
      if cmp(key(p[0]), key(q[0])) <= 0 {
        MergeOrdered(p[1..], q, key, cmp, rank);
        forall i | 0 <= i < |p| - 1 + |q|
          ensures Before(p[0], Merge(p[1..], q, key, cmp)[i], key, cmp, rank)
        {
          MergeElement(p[1..], q, key, cmp, i);
          FirstBefore(p[0], q, key, cmp, rank);
        }
      } else {
        MergeOrdered(p, q[1..], key, cmp, rank);
        forall i | 0 <= i < |p| + |q| - 1
          ensures Before(q[0], Merge(p, q[1..], key, cmp)[i], key, cmp, rank)
        {
          MergeElement(p, q[1..], key, cmp, i);
          FirstBelow(q[0], p, key, cmp, rank);
        }
      }
    }
  }

  lemma FirstBefore<T>(x: T, q: seq<T>, key: T -> int, cmp: (int, int) -> int, rank: T -> int)
    requires TotalPreorder(cmp) && Ordered(q, key, cmp, rank) && q != [] && cmp(key(x), key(q[0])) <= 0
    requires forall j :: 0 <= j < |q| ==> rank(x) < rank(q[j])
    ensures forall j :: 0 <= j < |q| ==> Before(x, q[j], key, cmp, rank)
  {
    forall j | 0 <= j < |q| ensures Before(x, q[j], key, cmp, rank) {
      var a, b, c := key(x), key(q[0]), key(q[j]);
      if j > 0 {
        assert Before(q[0], q[j], key, cmp, rank);
        assert cmp(b, c) <= 0;
      }
      assert cmp(a, c) <= 0;
    }
  }

  lemma FirstBelow<T>(x: T, p: seq<T>, key: T -> int, cmp: (int, int) -> int, rank: T -> int)
    requires TotalPreorder(cmp) && Ordered(p, key, cmp, rank) && p != [] && cmp(key(p[0]), key(x)) > 0
    ensures forall j :: 0 <= j < |p| ==> Before(x, p[j], key, cmp, rank)
  {
    forall j | 0 <= j < |p| ensures Before(x, p[j], key, cmp, rank) {
      var a, b, c := key(x), key(p[0]), key(p[j]);
      if j > 0 {
        assert Before(p[0], p[j], key, cmp, rank);
      }
      assert cmp(b, c) <= 0 || j == 0;
      assert cmp(c, a) <= 0 ==> cmp(b, a) <= 0;
    }
  }

  lemma {:induction false} PassMultiset<T>(s: seq<T>, k: nat, key: T -> int, cmp: (int, int) -> int)
    requires k >= 1
    ensures multiset(Pass(s, k, key, cmp)) == multiset(s)
    decreases |s|
  {
    hide Merge;
    if s != [] {
      var m, n := Min(k, |s|), Min(2 * k, |s|);
      MergeMultiset(s[..m], s[m..n], key, cmp);
      PassMultiset(s[n..], k, key, cmp);
      ThreeParts(s, m, n);
    }
  }

  lemma ThreeParts<T>(s: seq<T>, m: nat, n: nat)
    requires m <= n <= |s|
    ensures multiset(s) == multiset(s[..m]) + multiset(s[m..n]) + multiset(s[n..])
    ensures s[..n] == s[..m] + s[m..n]
  {
    assert s == s[..m] + s[m..n] + s[n..];
  }

  lemma EarlierByMultiset<T>(a: seq<T>, a': seq<T>, b: seq<T>, b': seq<T>, rank: T -> int)
    requires Earlier(a, b, rank) && multiset(a) == multiset(a') && multiset(b) == multiset(b')
    ensures Earlier(a', b', rank)
  {
    forall i, j | 0 <= i < |a'| && 0 <= j < |b'| ensures rank(a'[i]) < rank(b'[j]) {
      assert a'[i] in multiset(a) && b'[j] in multiset(b);
      var i' :| 0 <= i' < |a| && a[i'] == a'[i];
      var j' :| 0 <= j' < |b| && b[j'] == b'[j];
    }
  }

  /** A pass doubles the length of the ordered runs. */
  lemma {:induction false} PassDoubles<T>(s: seq<T>, k: nat, key: T -> int, cmp: (int, int) -> int, rank: T -> int)
    requires TotalPreorder(cmp) && k >= 1 && Runs(s, k, key, cmp, rank)
    ensures Runs(Pass(s, k, key, cmp), 2 * k, key, cmp, rank)
    decreases |s|
  {
    if s != [] {
      var m, n := Min(k, |s|), Min(2 * k, |s|);
      var a, b, c := s[..m], s[m..n], s[n..];
      var r, rest := Merge(a, b, key, cmp), Pass(c, k, key, cmp);
      SecondRun(s, k, key, cmp, rank);
      MergeOrdered(a, b, key, cmp, rank);
      PassDoubles(c, k, key, cmp, rank);
      MergeMultiset(a, b, key, cmp);
      PassMultiset(c, k, key, cmp);
      assert multiset(a + b) == multiset(r);
      EarlierByMultiset(a + b, r, c, rest, rank);
      assert (r + rest)[..n] == r && (r + rest)[n..] == rest;
    }
  }

  lemma FirstRun<T>(s: seq<T>, k: nat, key: T -> int, cmp: (int, int) -> int, rank: T -> int)
    requires k >= 1 && s != [] && Runs(s, k, key, cmp, rank)
    ensures var m := Min(k, |s|);
            Ordered(s[..m], key, cmp, rank) && Earlier(s[..m], s[m..], rank) && Runs(s[m..], k, key, cmp, rank)
  {
  }

  lemma DropTwice<T>(s: seq<T>, m: nat, n: nat)
    requires m <= n <= |s|
    ensures s[m..][..n - m] == s[m..n] && s[m..][n - m..] == s[n..] && s[..n] == s[..m] + s[m..n]
  {
  }

  /** The first two runs and what follows them. */
  lemma SecondRun<T>(s: seq<T>, k: nat, key: T -> int, cmp: (int, int) -> int, rank: T -> int)
    requires k >= 1 && s != [] && Runs(s, k, key, cmp, rank)
    ensures var m, n := Min(k, |s|), Min(2 * k, |s|);
            && Ordered(s[..m], key, cmp, rank) && Ordered(s[m..n], key, cmp, rank) && Earlier(s[..m], s[m..n], rank)
            && Earlier(s[..m] + s[m..n], s[n..], rank) && Runs(s[n..], k, key, cmp, rank)
  {
    hide Ordered, Earlier, Runs;
    var m, n := Min(k, |s|), Min(2 * k, |s|);
    var tail := s[m..];
    FirstRun(s, k, key, cmp, rank);
    DropTwice(s, m, n);
    EarlierParts(s[..m], tail, n - m, rank);
    if m < |s| {
      assert Min(k, |tail|) == n - m;
      FirstRun(tail, k, key, cmp, rank);
      EarlierJoin(s[..m], s[m..n], s[n..], rank);
    } else {
      assert s[n..] == tail;
      EarlierNothing(s[..m] + s[m..n], s[m..n], s[n..], key, cmp, rank);
    }
  }

  lemma EarlierNothing<T>(a: seq<T>, b: seq<T>, c: seq<T>, key: T -> int, cmp: (int, int) -> int, rank: T -> int)
    requires b == [] && c == []
    ensures Earlier(a, c, rank) && Ordered(b, key, cmp, rank)
  {
  }

  lemma EarlierParts<T>(a: seq<T>, b: seq<T>, i: nat, rank: T -> int)
    requires Earlier(a, b, rank) && i <= |b|
    ensures Earlier(a, b[..i], rank) && Earlier(a, b[i..], rank)
  {
  }

  lemma EarlierJoin<T>(a: seq<T>, b: seq<T>, c: seq<T>, rank: T -> int)
    requires Earlier(a, c, rank) && Earlier(b, c, rank)
    ensures Earlier(a + b, c, rank)
  {
  }

  lemma {:induction false} SortFromCorrect<T>(s: seq<T>, k: nat, key: T -> int, cmp: (int, int) -> int, rank: T -> int)
    requires TotalPreorder(cmp) && k >= 1 && Runs(s, k, key, cmp, rank)
    ensures Ordered(SortFrom(s, k, key, cmp), key, cmp, rank)
    decreases |s| - k
  {
    PassDoubles(s, k, key, cmp, rank);
    var t := Pass(s, k, key, cmp);
    if |s| <= 2 * k {
      if t != [] { assert t[..Min(2 * k, |t|)] == t; }
    } else {
      SortFromCorrect(t, 2 * k, key, cmp, rank);
    }
  }

  /** Whatever the comparison function, the sort only rearranges. */
  lemma {:induction false} SortFromMultiset<T>(s: seq<T>, k: nat, key: T -> int, cmp: (int, int) -> int)
    requires k >= 1
    ensures multiset(SortFrom(s, k, key, cmp)) == multiset(s)
    decreases |s| - k
  {
    PassMultiset(s, k, key, cmp);
    if |s| > 2 * k {
      SortFromMultiset(Pass(s, k, key, cmp), 2 * k, key, cmp);
    }
  }

  function Position<T(==)>(s: seq<T>, x: T): (i: nat)
    ensures i <= |s|
    ensures i < |s| ==> s[i] == x
    ensures forall j :: 0 <= j < i ==> s[j] != x
  {
    if s == [] || s[0] == x then 0 else 1 + Position(s[1..], x)
  }

  lemma {:induction false} SingletonRuns<T>(s: seq<T>, key: T -> int, cmp: (int, int) -> int, rank: T -> int)
    requires forall i, j :: 0 <= i < j < |s| ==> rank(s[i]) < rank(s[j])
    ensures Runs(s, 1, key, cmp, rank)
    decreases |s|
  {
    if s != [] {
      SingletonRuns(s[1..], key, cmp, rank);
    }
  }

  /** The sort is a stable sort, for every total preorder. */
  lemma StableSort<T>(s: seq<T>, key: T -> int, cmp: (int, int) -> int)
    requires TotalPreorder(cmp) && Distinct(s)
    ensures var r := Sort(s, key, cmp);
            && multiset(r) == multiset(s)
            && (forall i, j :: 0 <= i < j < |r| ==>
                  && cmp(key(r[i]), key(r[j])) <= 0
                  && (cmp(key(r[i]), key(r[j])) == 0 ==> Position(s, r[i]) < Position(s, r[j])))
  {
    var rank := (x: T) => Position(s, x) as int;
    forall i, j | 0 <= i < j < |s| ensures rank(s[i]) < rank(s[j]) {
      assert Position(s, s[i]) == i && Position(s, s[j]) == j;
    }
    SingletonRuns(s, key, cmp, rank);
    SortFromCorrect(s, 1, key, cmp, rank);
    SortFromMultiset(s, 1, key, cmp);
    var r := Sort(s, key, cmp);
    assert forall i, j :: 0 <= i < j < |r| ==> Before(r[i], r[j], key, cmp, rank);
  }
}
