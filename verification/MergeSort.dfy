// The bottom-up merge sort behind sort, intersect, difference and unique.
module MergeSort {

  // leq(a, b): a may stay in front of b.
  ghost predicate TotalPreorder<T(!new)>(leq: (T, T) -> bool) {
    && (forall a, b :: leq(a, b) || leq(b, a))
    && (forall a, b, c :: leq(a, b) && leq(b, c) ==> leq(a, c))
  }

  predicate Same<T>(leq: (T, T) -> bool, a: T, b: T) {
    leq(a, b) && leq(b, a)
  }

  ghost predicate Sorted<T>(leq: (T, T) -> bool, s: seq<T>) {
    forall i, j :: 0 <= i < j < |s| ==> leq(s[i], s[j])
  }

  // The elements that compare equal to v, in order.
  ghost function Class<T>(leq: (T, T) -> bool, v: T, s: seq<T>): seq<T> {
    if s == [] then []
    else (if Same(leq, s[0], v) then [s[0]] else []) + Class(leq, v, s[1..])
  }

  // r is s sorted, and elements that compare equal are in the order they had in s.
  ghost predicate StableSort<T(!new)>(leq: (T, T) -> bool, s: seq<T>, r: seq<T>) {
    Sorted(leq, r) && forall v :: Class(leq, v, r) == Class(leq, v, s)
  }

  // ---------- the sort as a function ----------

  function Merge<T>(leq: (T, T) -> bool, a: seq<T>, b: seq<T>): seq<T> {
    if a == [] then b
    else if b == [] then a
    else if leq(a[0], b[0]) then [a[0]] + Merge(leq, a[1..], b)
    else [b[0]] + Merge(leq, a, b[1..])
  }

  function Min(a: nat, b: nat): nat { if a < b then a else b }

  // Neighbouring runs of length m are merged.
  function Pass<T>(leq: (T, T) -> bool, s: seq<T>, m: nat): seq<T>
    requires m > 0
    decreases |s|
  {
    if |s| <= m then s
    else Merge(leq, s[..m], s[m..Min(2 * m, |s|)]) + Pass(leq, s[Min(2 * m, |s|)..], m)
  }

  function Passes<T>(leq: (T, T) -> bool, s: seq<T>, m: nat, n: nat): seq<T>
    requires m > 0
    decreases n - m
  {
    if m >= n then s else Passes(leq, Pass(leq, s, m), 2 * m, n)
  }

  function Sort<T>(leq: (T, T) -> bool, s: seq<T>): seq<T> {
    Passes(leq, s, 1, |s|)
  }

  lemma {:induction false} MergeLength<T>(leq: (T, T) -> bool, a: seq<T>, b: seq<T>)
    ensures |Merge(leq, a, b)| == |a| + |b|
  {
    if a != [] && b != [] {
      if leq(a[0], b[0]) { MergeLength(leq, a[1..], b); } else { MergeLength(leq, a, b[1..]); }
    }
  }

  lemma {:induction false} MergePermutes<T>(leq: (T, T) -> bool, a: seq<T>, b: seq<T>)
    ensures multiset(Merge(leq, a, b)) == multiset(a) + multiset(b)
  {
    if a != [] && b != [] {
      if leq(a[0], b[0]) {
        MergePermutes(leq, a[1..], b);
        assert a == [a[0]] + a[1..];
      } else {
        MergePermutes(leq, a, b[1..]);
        assert b == [b[0]] + b[1..];
      }
    }
  }

  lemma {:induction false} PassLength<T>(leq: (T, T) -> bool, s: seq<T>, m: nat)
    requires m > 0
    ensures |Pass(leq, s, m)| == |s|
    decreases |s|
  {
    if |s| > m {
      var e := Min(2 * m, |s|);
      MergeLength(leq, s[..m], s[m..e]);
      PassLength(leq, s[e..], m);
    }
  }

  lemma {:induction false} PassPermutes<T>(leq: (T, T) -> bool, s: seq<T>, m: nat)
    requires m > 0
    ensures multiset(Pass(leq, s, m)) == multiset(s)
    decreases |s|
  {
    if |s| > m {
      var e := Min(2 * m, |s|);
      MergePermutes(leq, s[..m], s[m..e]);
      PassPermutes(leq, s[e..], m);
      ThreeParts(s, m, e);
    }
  }

  lemma ThreeParts<T>(s: seq<T>, m: nat, e: nat)
    requires m <= e <= |s|
    ensures multiset(s) == multiset(s[..m]) + multiset(s[m..e]) + multiset(s[e..])
  {
    assert s == s[..m] + s[m..e] + s[e..];
  }

  // Whatever the comparison does, sorting only rearranges.
  lemma SortPermutes<T>(leq: (T, T) -> bool, s: seq<T>)
    ensures multiset(Sort(leq, s)) == multiset(s) && |Sort(leq, s)| == |s|
  {
    PassesPermute(leq, s, 1, |s|);
  }

  lemma {:induction false} PassesPermute<T>(leq: (T, T) -> bool, s: seq<T>, m: nat, n: nat)
    requires m > 0
    ensures multiset(Passes(leq, s, m, n)) == multiset(s) && |Passes(leq, s, m, n)| == |s|
    decreases n - m
  {
    if m < n {
      PassLength(leq, s, m);
      PassPermutes(leq, s, m);
      PassesPermute(leq, Pass(leq, s, m), 2 * m, n);
    }
  }

  // ---------- stability ----------

  lemma {:induction false} ClassConcat<T>(leq: (T, T) -> bool, v: T, a: seq<T>, b: seq<T>)
    ensures Class(leq, v, a + b) == Class(leq, v, a) + Class(leq, v, b)
  {
    if a == [] {
      assert a + b == b;
    } else {
      ClassConcat(leq, v, a[1..], b);
      ConcatTail(a, b);
      ClassStep(leq, v, a + b);
      ClassStep(leq, v, a);
    }
  }

  lemma ConcatTail<T>(a: seq<T>, b: seq<T>)
    requires a != []
    ensures (a + b)[1..] == a[1..] + b && (a + b)[0] == a[0]
  {
  }

  lemma ClassStep<T>(leq: (T, T) -> bool, v: T, s: seq<T>)
    requires s != []
    ensures Class(leq, v, s) == (if Same(leq, s[0], v) then [s[0]] else []) + Class(leq, v, s[1..])
  {
  }

  // Nothing in s compares equal to v.
  lemma {:induction false} ClassEmpty<T>(leq: (T, T) -> bool, v: T, s: seq<T>)
    requires forall i :: 0 <= i < |s| ==> !Same(leq, s[i], v)
    ensures Class(leq, v, s) == []
  {
    if s != [] { ClassEmpty(leq, v, s[1..]); }
  }

  lemma ClassCons<T>(leq: (T, T) -> bool, v: T, x: T, s: seq<T>)
    ensures Class(leq, v, [x] + s) == (if Same(leq, x, v) then [x] else []) + Class(leq, v, s)
  {
    assert ([x] + s)[1..] == s;
  }

  lemma HeadTail<T>(s: seq<T>)
    requires s != []
    ensures s == [s[0]] + s[1..]
  {
  }

  lemma {:induction false} MergeClass<T(!new)>(leq: (T, T) -> bool, v: T, a: seq<T>, b: seq<T>)
    requires TotalPreorder(leq) && Sorted(leq, a) && Sorted(leq, b)
    ensures Class(leq, v, Merge(leq, a, b)) == Class(leq, v, a) + Class(leq, v, b)
  {
    if a == [] || b == [] {
    } else if leq(a[0], b[0]) {
      MergeClass(leq, v, a[1..], b);
      ClassCons(leq, v, a[0], Merge(leq, a[1..], b));
      ClassCons(leq, v, a[0], a[1..]);
      HeadTail(a);
    } else {
      MergeClass(leq, v, a, b[1..]);
      ClassCons(leq, v, b[0], Merge(leq, a, b[1..]));
      ClassCons(leq, v, b[0], b[1..]);
      HeadTail(b);
      if Same(leq, b[0], v) { LaterAbove(leq, v, a, b[0]); }
    }
  }

  lemma LaterAbove<T(!new)>(leq: (T, T) -> bool, v: T, a: seq<T>, x: T)
    requires TotalPreorder(leq) && Sorted(leq, a) && a != [] && !leq(a[0], x) && Same(leq, x, v)
    ensures Class(leq, v, a) == []
  {
    forall i | 0 <= i < |a| ensures !Same(leq, a[i], v) {
      assert i == 0 || leq(a[0], a[i]);
    }
    ClassEmpty(leq, v, a);
  }

  lemma {:induction false} MergeBound<T(!new)>(leq: (T, T) -> bool, x: T, a: seq<T>, b: seq<T>)
    requires (forall i :: 0 <= i < |a| ==> leq(x, a[i])) && (forall i :: 0 <= i < |b| ==> leq(x, b[i]))
    ensures forall i :: 0 <= i < |Merge(leq, a, b)| ==> leq(x, Merge(leq, a, b)[i])
  {
    if a != [] && b != [] {
      if leq(a[0], b[0]) { MergeBound(leq, x, a[1..], b); } else { MergeBound(leq, x, a, b[1..]); }
    }
  }

  lemma {:induction false} MergeSorted<T(!new)>(leq: (T, T) -> bool, a: seq<T>, b: seq<T>)
    requires TotalPreorder(leq) && Sorted(leq, a) && Sorted(leq, b)
    ensures Sorted(leq, Merge(leq, a, b))
  {
    if a != [] && b != [] {
      if leq(a[0], b[0]) {
        MergeSorted(leq, a[1..], b);
        BelowSorted(leq, a[0], b);
        MergeBound(leq, a[0], a[1..], b);
        SortedCons(leq, a[0], Merge(leq, a[1..], b));
      } else {
        MergeSorted(leq, a, b[1..]);
        BelowSorted(leq, b[0], a);
        MergeBound(leq, b[0], a, b[1..]);
        SortedCons(leq, b[0], Merge(leq, a, b[1..]));
      }
    }
  }

  lemma BelowSorted<T(!new)>(leq: (T, T) -> bool, x: T, s: seq<T>)
    requires TotalPreorder(leq) && Sorted(leq, s) && (s == [] || leq(x, s[0]))
    ensures forall i :: 0 <= i < |s| ==> leq(x, s[i])
  {
    forall i | 0 <= i < |s| ensures leq(x, s[i]) {
      assert i == 0 || leq(s[0], s[i]);
    }
  }

  lemma SortedCons<T>(leq: (T, T) -> bool, x: T, s: seq<T>)
    requires Sorted(leq, s) && forall i :: 0 <= i < |s| ==> leq(x, s[i])
    ensures Sorted(leq, [x] + s)
  {
    var r := [x] + s;
    forall i, j | 0 <= i < j < |r| ensures leq(r[i], r[j]) {
      assert r[j] == s[j - 1];
      if i > 0 { assert r[i] == s[i - 1]; }
    }
  }

  lemma MergeStable<T(!new)>(leq: (T, T) -> bool, s: seq<T>, r: seq<T>, s': seq<T>, r': seq<T>)
    requires TotalPreorder(leq) && StableSort(leq, s, r) && StableSort(leq, s', r')
    ensures StableSort(leq, s + s', Merge(leq, r, r'))
  {
    MergeSorted(leq, r, r');
    forall v ensures Class(leq, v, Merge(leq, r, r')) == Class(leq, v, s + s') {
      MergeClass(leq, v, r, r');
      ClassConcat(leq, v, s, s');
    }
  }

  // ---------- comparisons that let ties go right ----------

  function Reverse<T>(s: seq<T>): (r: seq<T>)
    ensures |r| == |s|
  {
    if s == [] then [] else Reverse(s[1..]) + [s[0]]
  }

  lemma {:induction false} ReverseConcat<T>(a: seq<T>, b: seq<T>)
    ensures Reverse(a + b) == Reverse(b) + Reverse(a)
  {
    if a == [] {
      assert a + b == b;
    } else {
      ConcatTail(a, b);
      ReverseConcat(a[1..], b);
    }
  }

  lemma {:induction false} ClassReverse<T>(leq: (T, T) -> bool, v: T, s: seq<T>)
    ensures Class(leq, v, Reverse(s)) == Reverse(Class(leq, v, s))
  {
    if s != [] {
      var one := if Same(leq, s[0], v) then [s[0]] else [];
      ClassReverse(leq, v, s[1..]);
      ClassConcat(leq, v, Reverse(s[1..]), [s[0]]);
      ClassStep(leq, v, s);
      ReverseConcat(one, Class(leq, v, s[1..]));
      assert Class(leq, v, [s[0]]) == one == Reverse(one);
    }
  }

  // cmp is the order leq itself, or its strict part.
  ghost predicate Decides<T(!new)>(cmp: (T, T) -> bool, leq: (T, T) -> bool, strict: bool) {
    forall a, b :: cmp(a, b) <==> if strict then !leq(b, a) else leq(a, b)
  }

  // Merging with the strict part is merging with the runs exchanged.
  lemma {:induction false} MergeDecides<T(!new)>(cmp: (T, T) -> bool, leq: (T, T) -> bool, strict: bool, a: seq<T>,
                                                 b: seq<T>)
    requires Decides(cmp, leq, strict)
    ensures Merge(cmp, a, b) == if strict then Merge(leq, b, a) else Merge(leq, a, b)
  {
    if a != [] && b != [] {
      if cmp(a[0], b[0]) {
        MergeDecides(cmp, leq, strict, a[1..], b);
      } else {
        MergeDecides(cmp, leq, strict, a, b[1..]);
      }
    }
  }

  // The order that elements which compare equal end in.
  function Ties<T>(strict: bool, s: seq<T>): seq<T> {
    if strict then Reverse(s) else s
  }

  lemma MergeTies<T(!new)>(cmp: (T, T) -> bool, leq: (T, T) -> bool, strict: bool, s: seq<T>,
                           r: seq<T>, s': seq<T>, r': seq<T>)
    requires TotalPreorder(leq) && Decides(cmp, leq, strict)
    requires StableSort(leq, Ties(strict, s), r) && StableSort(leq, Ties(strict, s'), r')
    ensures StableSort(leq, Ties(strict, s + s'), Merge(cmp, r, r'))
  {
    MergeDecides(cmp, leq, strict, r, r');
    if strict {
      MergeStable(leq, Reverse(s'), r', Reverse(s), r);
      ReverseConcat(s, s');
    } else {
      MergeStable(leq, s, r, s', r');
    }
  }

  // Every run of length m of r is that run of s, sorted.
  ghost predicate Runs<T(!new)>(leq: (T, T) -> bool, strict: bool, s: seq<T>, r: seq<T>, m: nat)
    requires m > 0
    decreases |s|
  {
    && |r| == |s|
    && (s == [] ||
          var e := Min(m, |s|);
          StableSort(leq, Ties(strict, s[..e]), r[..e]) && Runs(leq, strict, s[e..], r[e..], m))
  }

  lemma {:induction false} SingleRuns<T(!new)>(leq: (T, T) -> bool, strict: bool, s: seq<T>)
    ensures Runs(leq, strict, s, s, 1)
    decreases |s|
  {
    if s != [] {
      var one := s[..1];
      assert one[1..] == [] && Reverse(one) == one;
      SingleRuns(leq, strict, s[1..]);
    }
  }

  lemma OneRun<T(!new)>(leq: (T, T) -> bool, strict: bool, s: seq<T>, r: seq<T>, m: nat)
    requires m > 0 && |s| <= m && Runs(leq, strict, s, r, m)
    ensures StableSort(leq, Ties(strict, s), r)
  {
    if s != [] {
      assert s[..|s|] == s && r[..|s|] == r;
    }
  }

  lemma SliceOfRest<T>(s: seq<T>, m: nat, e: nat)
    requires m <= e <= |s|
    ensures s[m..][..e - m] == s[m..e] && s[m..][e - m..] == s[e..]
  {
  }

  lemma FirstRun<T(!new)>(leq: (T, T) -> bool, strict: bool, s: seq<T>, r: seq<T>, m: nat, e: nat)
    requires m > 0 && s != [] && e == Min(m, |s|) && Runs(leq, strict, s, r, m)
    ensures |r| == |s| && StableSort(leq, Ties(strict, s[..e]), r[..e]) && Runs(leq, strict, s[e..], r[e..], m)
  {
  }

  lemma TwoRuns<T(!new)>(leq: (T, T) -> bool, strict: bool, s: seq<T>, r: seq<T>, m: nat, e: nat)
    requires 0 < m < |s| && e == Min(2 * m, |s|) && Runs(leq, strict, s, r, m)
    ensures |r| == |s| && StableSort(leq, Ties(strict, s[..m]), r[..m])
    ensures StableSort(leq, Ties(strict, s[m..e]), r[m..e]) && Runs(leq, strict, s[e..], r[e..], m)
  {
    FirstRun(leq, strict, s, r, m, m);
    FirstRun(leq, strict, s[m..], r[m..], m, e - m);
    SliceOfRest(s, m, e);
    SliceOfRest(r, m, e);
  }

  lemma {:induction false} MergedRuns<T(!new)>(cmp: (T, T) -> bool, leq: (T, T) -> bool, strict: bool, s: seq<T>,
                                               r: seq<T>, m: nat, e: nat)
    requires 0 < m < |s| && e == Min(2 * m, |s|) && Runs(leq, strict, s, r, m)
    requires TotalPreorder(leq) && Decides(cmp, leq, strict)
    ensures |r| == |s| && Runs(leq, strict, s[e..], r[e..], m)
    ensures |Merge(cmp, r[..m], r[m..e])| == e
    ensures StableSort(leq, Ties(strict, s[..e]), Merge(cmp, r[..m], r[m..e]))
  {
    TwoRuns(leq, strict, s, r, m, e);
    var s1, s2, r1, r2 := s[..m], s[m..e], r[..m], r[m..e];
    assert s1 + s2 == s[..e];
    MergeTies(cmp, leq, strict, s1, r1, s2, r2);
    MergeLength(cmp, r1, r2);
  }

  // A pass doubles the length of the sorted runs.
  lemma {:induction false} PassRuns<T(!new)>(cmp: (T, T) -> bool, leq: (T, T) -> bool, strict: bool, s: seq<T>,
                                             r: seq<T>, m: nat)
    requires m > 0 && TotalPreorder(leq) && Decides(cmp, leq, strict) && Runs(leq, strict, s, r, m)
    ensures Runs(leq, strict, s, Pass(cmp, r, m), 2 * m)
    decreases |s|
  {
    if |s| <= m {
      OneRun(leq, strict, s, r, m);
      assert s[..|s|] == s && r[..|s|] == r;
    } else {
      var e := Min(2 * m, |s|);
      MergedRuns(cmp, leq, strict, s, r, m, e);
      PassRuns(cmp, leq, strict, s[e..], r[e..], m);
      RunsCons(leq, strict, s, 2 * m, e, Merge(cmp, r[..m], r[m..e]), Pass(cmp, r[e..], m));
    }
  }

  lemma RunsCons<T(!new)>(leq: (T, T) -> bool, strict: bool, s: seq<T>, m: nat, e: nat, q: seq<T>,
                          rest: seq<T>)
    requires m > 0 && e == Min(m, |s|) == |q| && StableSort(leq, Ties(strict, s[..e]), q)
    requires Runs(leq, strict, s[e..], rest, m)
    ensures Runs(leq, strict, s, q + rest, m)
  {
    assert (q + rest)[..e] == q && (q + rest)[e..] == rest;
  }

  lemma {:induction false} PassesRuns<T(!new)>(cmp: (T, T) -> bool, leq: (T, T) -> bool, strict: bool, s: seq<T>,
                                               r: seq<T>, m: nat)
    requires m > 0 && TotalPreorder(leq) && Decides(cmp, leq, strict) && Runs(leq, strict, s, r, m)
    ensures StableSort(leq, Ties(strict, s), Passes(cmp, r, m, |s|))
    decreases |s| - m
  {
    if m >= |s| {
      OneRun(leq, strict, s, r, m);
    } else {
      PassRuns(cmp, leq, strict, s, r, m);
      PassesRuns(cmp, leq, strict, s, Pass(cmp, r, m), 2 * m);
    }
  }

  // For every length and every total preorder the result is sorted and stable.
  lemma SortIsStable<T(!new)>(leq: (T, T) -> bool, s: seq<T>)
    requires TotalPreorder(leq)
    ensures StableSort(leq, s, Sort(leq, s))
  {
    SingleRuns(leq, false, s);
    PassesRuns(leq, leq, false, s, s, 1);
  }

  lemma SortTwo<T>(leq: (T, T) -> bool, a: T, b: T)
    ensures Sort(leq, [a, b]) == if leq(a, b) then [a, b] else [b, a]
  {
    var s := [a, b];
    assert s[..1] == [a] && s[1..2] == [b] && s[2..] == [] && [a][1..] == [] && [b][1..] == [];
    assert Pass(leq, s, 1) == Merge(leq, [a], [b]);
  }

  lemma SortThree<T>(leq: (T, T) -> bool, a: T, b: T, c: T)
    requires leq(a, b) && leq(b, c) && !leq(a, c)
    ensures Sort(leq, [a, b, c]) == [c, a, b]
  {
    var s := [a, b, c];
    assert s[..1] == [a] && s[1..2] == [b] && s[2..] == [c] && [a][1..] == [] && [b][1..] == [] && [c][1..] == [];
    assert Pass(leq, s, 1) == s by {
      assert Merge(leq, [a], [b]) == [a, b];
      assert Pass(leq, [c], 1) == [c];
    }
    assert s[..2] == [a, b] && s[2..3] == [c] && s[3..] == [];
    assert Merge(leq, [a, b], [c]) == [c, a, b];
    assert Pass(leq, s, 2) == [c, a, b];
  }

  // The sort is stable on every input exactly when the comparison is a total preorder.
  lemma StableExactly<T(!new)>(leq: (T, T) -> bool)
    ensures (forall s :: StableSort(leq, s, Sort(leq, s))) <==> TotalPreorder(leq)
  {
    if TotalPreorder(leq) {
      forall s ensures StableSort(leq, s, Sort(leq, s)) { SortIsStable(leq, s); }
    }
    if forall s :: StableSort(leq, s, Sort(leq, s)) {
      forall a, b ensures leq(a, b) || leq(b, a) {
        assert StableSort(leq, [a, b], Sort(leq, [a, b]));
        StableTwo(leq, a, b);
      }
      forall a, b, c | leq(a, b) && leq(b, c) ensures leq(a, c) {
        if !leq(a, c) { StableThree(leq, a, b, c); }
      }
    }
  }

  lemma ClassThree<T>(leq: (T, T) -> bool, v: T, x: T, y: T, z: T)
    ensures Class(leq, v, [x, y, z])
         == (if Same(leq, x, v) then [x] else []) + (if Same(leq, y, v) then [y] else [])
             + (if Same(leq, z, v) then [z] else [])
  {
    ClassCons(leq, v, x, [y, z]);
    ClassCons(leq, v, y, [z]);
    ClassCons(leq, v, z, []);
    assert [x] + [y, z] == [x, y, z] && [y] + [z] == [y, z] && [z] + [] == [z];
  }

  // A first element moved to the end of a list leaves it as it was only if all are equal.
  lemma Rotated<T>(one: seq<T>, b: T, c: T)
    requires one + [b] + [c] == [c] + one + [b]
    ensures b == c
  {
    assert (one + [b] + [c])[|one| + 1] == c && ([c] + one + [b])[|one| + 1] == b;
  }

  lemma StableTwo<T(!new)>(leq: (T, T) -> bool, a: T, b: T)
    requires StableSort(leq, [a, b], Sort(leq, [a, b]))
    ensures leq(a, b) || leq(b, a)
  {
    SortTwo(leq, a, b);
    var r := Sort(leq, [a, b]);
    assert |r| == 2 && leq(r[0], r[1]);
  }

  lemma StableThree<T(!new)>(leq: (T, T) -> bool, a: T, b: T, c: T)
    requires leq(a, b) && leq(b, c) && StableSort(leq, [a, b, c], Sort(leq, [a, b, c])) && leq(b, b) && leq(c, c)
    ensures leq(a, c)
  {
    if !leq(a, c) {
      SortThree(leq, a, b, c);
      ThreeSorted(leq, a, b, c, Sort(leq, [a, b, c]));
    }
  }

  lemma ThreeSorted<T(!new)>(leq: (T, T) -> bool, a: T, b: T, c: T, r: seq<T>)
    requires leq(b, c) && leq(b, b) && leq(c, c) && r == [c, a, b] && StableSort(leq, [a, b, c], r)
    ensures b == c
  {
    assert leq(r[0], r[2]);
    ClassThree(leq, b, a, b, c);
    ClassThree(leq, b, c, a, b);
    Rotated(if Same(leq, a, b) then [a] else [], b, c);
  }

  // ---------- strict comparisons ----------

  ghost predicate StrictWeakOrder<T(!new)>(lt: (T, T) -> bool) {
    && (forall a :: !lt(a, a))
    && (forall a, b, c :: lt(a, b) && lt(b, c) ==> lt(a, c))
    && (forall a, b, c :: !lt(a, b) && !lt(b, a) && !lt(b, c) && !lt(c, b) ==> !lt(a, c) && !lt(c, a))
  }

  function AtMost<T>(lt: (T, T) -> bool): (T, T) -> bool {
    (a, b) => !lt(b, a)
  }

  lemma StrictPart<T(!new)>(lt: (T, T) -> bool)
    requires StrictWeakOrder(lt)
    ensures TotalPreorder(AtMost(lt)) && Decides(lt, AtMost(lt), true)
  {
    var leq := AtMost(lt);
    forall a, b ensures leq(a, b) || leq(b, a) {
      assert lt(a, b) && lt(b, a) ==> lt(a, a);
    }
    forall a, b, c | leq(a, b) && leq(b, c) ensures leq(a, c) {
      assert lt(c, a) && lt(a, b) ==> lt(c, b);
      assert lt(b, c) && lt(c, a) ==> lt(b, a);
    }
  }

  // A strict comparison sorts too, but every class of elements that compare equal comes out
  // reversed.
  lemma StrictSortReverses<T(!new)>(lt: (T, T) -> bool, s: seq<T>)
    requires StrictWeakOrder(lt)
    ensures Sorted(AtMost(lt), Sort(lt, s))
    ensures forall v :: Class(AtMost(lt), v, Sort(lt, s)) == Reverse(Class(AtMost(lt), v, s))
  {
    var leq := AtMost(lt);
    StrictPart(lt);
    SingleRuns(leq, true, s);
    PassesRuns(lt, leq, true, s, s, 1);
    forall v ensures Class(leq, v, Sort(lt, s)) == Reverse(Class(leq, v, s)) {
      ClassReverse(leq, v, s);
    }
  }

  // ---------- what a sorted rearrangement is ----------

  ghost predicate Distinct<T>(s: seq<T>) {
    forall i, j :: 0 <= i < j < |s| ==> s[i] != s[j]
  }

  lemma {:induction false} CountDistinct<T>(s: seq<T>, x: T)
    requires Distinct(s)
    ensures multiset(s)[x] == if x in s then 1 else 0
  {
    if s != [] {
      CountDistinct(s[1..], x);
      assert s == [s[0]] + s[1..];
    }
  }

  lemma DistinctByCount<T(!new)>(s: seq<T>, r: seq<T>)
    requires Distinct(s) && multiset(r) == multiset(s)
    ensures Distinct(r)
  {
    forall i, j | 0 <= i < j < |r| ensures r[i] != r[j] {
      if r[i] == r[j] {
        assert r == r[..j] + [r[j]] + r[j + 1..];
        assert r[i] in multiset(r[..j]) by { assert r[i] == r[..j][i]; }
        CountDistinct(s, r[i]);
      }
    }
  }

  lemma SameElements<T(!new)>(s: seq<T>, r: seq<T>)
    requires Distinct(s) && Distinct(r) && forall x :: x in s <==> x in r
    ensures multiset(s) == multiset(r)
  {
    forall x ensures multiset(s)[x] == multiset(r)[x] {
      CountDistinct(s, x);
      CountDistinct(r, x);
    }
  }

  lemma TailCount<T>(s: seq<T>)
    requires s != []
    ensures multiset(s) == multiset{s[0]} + multiset(s[1..]) && s[0] in multiset(s)
  {
    assert s == [s[0]] + s[1..];
  }

  lemma CancelOne<T(!new)>(x: T, a: multiset<T>, b: multiset<T>)
    requires multiset{x} + a == multiset{x} + b
    ensures a == b
  {
    forall y ensures a[y] == b[y] {
      assert (multiset{x} + a)[y] == (multiset{x} + b)[y];
    }
  }

  lemma InBoth<T>(s: seq<T>, r: seq<T>, x: T)
    requires multiset(s) == multiset(r) && x in s
    ensures x in r
  {
    assert x in multiset(s);
  }

  // No two different elements of s compare equal.
  ghost predicate Antisymmetric<T>(leq: (T, T) -> bool, s: seq<T>) {
    forall i, j :: 0 <= i < |s| && 0 <= j < |s| && Same(leq, s[i], s[j]) ==> s[i] == s[j]
  }

  lemma SameHead<T(!new)>(leq: (T, T) -> bool, s: seq<T>, r: seq<T>)
    requires Sorted(leq, s) && Sorted(leq, r) && multiset(s) == multiset(r) && s != [] && r != []
    requires Antisymmetric(leq, s)
    ensures s[0] == r[0]
  {
    InBoth(s, r, s[0]);
    InBoth(r, s, r[0]);
    var i :| 0 <= i < |r| && r[i] == s[0];
    var j :| 0 <= j < |s| && s[j] == r[0];
    if i > 0 && j > 0 {
      assert leq(r[0], r[i]) && leq(s[0], s[j]);
      assert Same(leq, s[0], s[j]);
    }
  }

  // There is only one way to sort them.
  lemma {:induction false} SortedUnique<T(!new)>(leq: (T, T) -> bool, s: seq<T>, r: seq<T>)
    requires Sorted(leq, s) && Sorted(leq, r) && multiset(s) == multiset(r) && Antisymmetric(leq, s)
    ensures s == r
  {
    if s == [] || r == [] {
      if s != [] { TailCount(s); }
      if r != [] { TailCount(r); }
    } else {
      SameHead(leq, s, r);
      TailCount(s);
      TailCount(r);
      CancelOne(s[0], multiset(s[1..]), multiset(r[1..]));
      SortedUnique(leq, s[1..], r[1..]);
      assert s == [s[0]] + s[1..] && r == [r[0]] + r[1..];
    }
  }

  // Elements that compare equal are listed in the class in the order they have in s ...
  lemma {:induction false} ClassOrder<T>(leq: (T, T) -> bool, v: T, s: seq<T>, i: nat, j: nat) returns (p: nat, q: nat)
    requires i < j < |s| && Same(leq, s[i], v) && Same(leq, s[j], v)
    ensures p < q < |Class(leq, v, s)| && Class(leq, v, s)[p] == s[i] && Class(leq, v, s)[q] == s[j]
  {
    var here := if Same(leq, s[0], v) then 1 else 0;
    if i == 0 {
      p := 0;
      q := ClassMember(leq, v, s[1..], j - 1);
      q := q + 1;
    } else {
      p, q := ClassOrder(leq, v, s[1..], i - 1, j - 1);
      p, q := p + here, q + here;
    }
  }

  lemma {:induction false} ClassMember<T>(leq: (T, T) -> bool, v: T, s: seq<T>, i: nat) returns (p: nat)
    requires i < |s| && Same(leq, s[i], v)
    ensures p < |Class(leq, v, s)| && Class(leq, v, s)[p] == s[i]
  {
    if i == 0 {
      p := 0;
    } else {
      p := ClassMember(leq, v, s[1..], i - 1);
      p := p + if Same(leq, s[0], v) then 1 else 0;
    }
  }

  // ... and only those are listed.
  lemma {:induction false} ClassFrom<T>(leq: (T, T) -> bool, v: T, s: seq<T>, p: nat) returns (i: nat)
    requires p < |Class(leq, v, s)|
    ensures i < |s| && s[i] == Class(leq, v, s)[p] && |Class(leq, v, s[..i])| == p
  {
    var here := if Same(leq, s[0], v) then 1 else 0;
    if p < here {
      i := 0;
    } else {
      i := ClassFrom(leq, v, s[1..], p - here);
      assert s[..i + 1][1..] == s[1..][..i];
      i := i + 1;
    }
  }

  lemma ClassPrefix<T>(leq: (T, T) -> bool, v: T, s: seq<T>, i: nat, j: nat)
    requires j <= i <= |s|
    ensures |Class(leq, v, s[..j])| <= |Class(leq, v, s[..i])|
  {
    assert s[..i] == s[..j] + s[j..i];
    ClassConcat(leq, v, s[..j], s[j..i]);
  }

  // A stable sort keeps two elements that compare equal in order.
  lemma OrderKept<T(!new)>(leq: (T, T) -> bool, s: seq<T>, r: seq<T>, i: nat, j: nat, i': nat, j': nat)
    requires StableSort(leq, s, r) && Distinct(s) && (forall a :: leq(a, a))
    requires i < j < |r| && Same(leq, r[i], r[j]) && i' < |s| && j' < |s| && s[i'] == r[i] && s[j'] == r[j]
    ensures i' < j'
  {
    var v := r[j];
    var p, q := ClassOrder(leq, v, r, i, j);
    assert Class(leq, v, r) == Class(leq, v, s);
    var a := ClassFrom(leq, v, s, p);
    var b := ClassFrom(leq, v, s, q);
    assert a == i' && b == j';
    if b <= a { ClassPrefix(leq, v, s, a, b); }
  }

  lemma ShortClass<T>(leq: (T, T) -> bool, v: T, s: seq<T>)
    requires |Class(leq, v, s)| > 1
    ensures exists i, j :: 0 <= i < j < |s| && Same(leq, s[i], v) && Same(leq, s[j], v)
  {
    var c := Class(leq, v, s);
    var i := ClassFrom(leq, v, s, 0);
    var j := ClassFrom(leq, v, s, 1);
    ClassSame(leq, v, s, 0);
    ClassSame(leq, v, s, 1);
    if j <= i { ClassPrefix(leq, v, s, i, j); }
    assert Same(leq, s[i], v) && Same(leq, s[j], v);
  }

  lemma {:induction false} ClassSame<T>(leq: (T, T) -> bool, v: T, s: seq<T>, p: nat)
    requires p < |Class(leq, v, s)|
    ensures Same(leq, Class(leq, v, s)[p], v)
  {
    if Same(leq, s[0], v) {
      if p > 0 { ClassSame(leq, v, s[1..], p - 1); }
    } else {
      ClassSame(leq, v, s[1..], p);
    }
  }

  // The ends of a class of more than one element are different elements.
  lemma ClassEnds<T>(leq: (T, T) -> bool, v: T, s: seq<T>)
    requires Distinct(s) && |Class(leq, v, s)| > 1
    ensures var c := Class(leq, v, s); c[0] != c[|c| - 1]
  {
    var c := Class(leq, v, s);
    var i := ClassFrom(leq, v, s, 0);
    var j := ClassFrom(leq, v, s, |c| - 1);
    assert i != j;
    assert i < j || j < i;
  }

  lemma {:induction false} ReverseEnds<T>(s: seq<T>)
    requires s != []
    ensures Reverse(s)[0] == s[|s| - 1]
  {
    if |s| > 1 { ReverseEnds(s[1..]); }
  }

  // With a strict comparison the sort of different elements is stable exactly when no two of
  // them compare equal.
  lemma StrictSortStable<T(!new)>(lt: (T, T) -> bool, s: seq<T>)
    requires StrictWeakOrder(lt) && Distinct(s)
    ensures StableSort(AtMost(lt), s, Sort(lt, s))
        <==> forall i, j :: 0 <= i < j < |s| ==> lt(s[i], s[j]) || lt(s[j], s[i])
  {
    var leq, r := AtMost(lt), Sort(lt, s);
    StrictPart(lt);
    StrictSortReverses(lt, s);
    forall i, j | 0 <= i < j < |s| && Same(leq, s[i], s[j]) ensures !StableSort(leq, s, r) {
      var p, q := ClassOrder(leq, s[j], s, i, j);
      ClassEnds(leq, s[j], s);
      ReverseEnds(Class(leq, s[j], s));
      assert Class(leq, s[j], r) != Class(leq, s[j], s);
    }
    if forall i, j :: 0 <= i < j < |s| ==> lt(s[i], s[j]) || lt(s[j], s[i]) {
      forall v ensures Class(leq, v, r) == Class(leq, v, s) {
        ShortReverse(leq, v, s);
      }
    }
  }

  lemma ShortReverse<T(!new)>(leq: (T, T) -> bool, v: T, s: seq<T>)
    requires TotalPreorder(leq) && forall i, j :: 0 <= i < j < |s| ==> !Same(leq, s[i], s[j])
    ensures Reverse(Class(leq, v, s)) == Class(leq, v, s)
  {
    var c := Class(leq, v, s);
    if |c| > 1 {
      ShortClass(leq, v, s);
    } else if |c| == 1 {
      assert c[1..] == [] && c == [c[0]];
    }
  }

  // ---------- the sort in place ----------

  // What remains to be merged is what remains of the result.
  lemma TakeLeft<T>(leq: (T, T) -> bool, a: seq<T>, b: seq<T>, p: nat, q: nat, r: seq<T>, d: nat)
    requires p < |a| && q <= |b| && d <= |r| && Merge(leq, a[p..], b[q..]) == r[d..]
    requires q == |b| || leq(a[p], b[q])
    ensures d < |r| && r[d] == a[p] && Merge(leq, a[p + 1..], b[q..]) == r[d + 1..]
  {
    assert a[p..][1..] == a[p + 1..] && (d < |r| ==> r[d..][1..] == r[d + 1..]);
    if q == |b| { assert a[p..] == [a[p]] + a[p + 1..]; }
  }

  lemma TakeRight<T>(leq: (T, T) -> bool, a: seq<T>, b: seq<T>, p: nat, q: nat, r: seq<T>, d: nat)
    requires p <= |a| && q < |b| && d <= |r| && Merge(leq, a[p..], b[q..]) == r[d..]
    requires p == |a| || !leq(a[p], b[q])
    ensures d < |r| && r[d] == b[q] && Merge(leq, a[p..], b[q + 1..]) == r[d + 1..]
  {
    assert b[q..][1..] == b[q + 1..] && (d < |r| ==> r[d..][1..] == r[d + 1..]);
    if p == |a| { assert b[q..] == [b[q]] + b[q + 1..]; }
  }

  // The bounds of the two runs that start at i; l is behind lf when there is no second one.
  method RunBounds(i: nat, m: nat, n: nat) returns (l: int, kf: int, lf: int)
    requires i < n && m > 0
    ensures lf + 1 == Min(i + 2 * m, n)
    ensures if i + m < n then l == i + m && kf == l - 1 else l == n + 1 && kf == n
  {
    l := i + m;
    if l >= n {
      kf, lf := n, n;
      l := lf + 1;
    } else {
      kf, lf := i + m - 1, l + m - 1;
    }
    if lf >= n {
      lf := n - 1;
    }
  }

  // Which run gives the next element: the left one unless it is used up or larger.
  method FromLeft<T>(leq: (T, T) -> bool, x: array<T>, k: int, kf: int, l: int, lf: int) returns (left: bool)
    requires k <= kf && l <= lf ==> 0 <= k < x.Length && 0 <= l < x.Length
    ensures left == (k <= kf && (l > lf || leq(x[k], x[l])))
  {
    if k > kf {
      return false;
    }
    if l > lf {
      return true;
    }
    left := leq(x[k], x[l]);
  }

  // How many of the first d merged elements come from the left run.
  ghost function Taken<T>(leq: (T, T) -> bool, a: seq<T>, b: seq<T>, d: nat): (p: nat)
    requires d <= |a| + |b|
    ensures p <= |a| && p <= d && d - p <= |b|
  {
    if d == 0 then 0
    else
      var p := Taken(leq, a, b, d - 1);
      if GoesLeft(leq, a, b, p, d - 1 - p) then p + 1 else p
  }

  ghost predicate GoesLeft<T>(leq: (T, T) -> bool, a: seq<T>, b: seq<T>, p: nat, q: nat)
    requires p <= |a| && q <= |b|
  {
    p < |a| && (q == |b| || leq(a[p], b[q]))
  }

  ghost function Picked<T>(leq: (T, T) -> bool, a: seq<T>, b: seq<T>, d: nat): T
    requires d < |a| + |b|
  {
    var p := Taken(leq, a, b, d);
    if GoesLeft(leq, a, b, p, d - p) then a[p] else b[d - p]
  }

  // What remains to be merged is what remains of the result.
  ghost predicate Remains<T>(leq: (T, T) -> bool, a: seq<T>, b: seq<T>, p: nat, q: nat, r: seq<T>, d: nat) {
    p <= |a| && q <= |b| && d <= |r| && Merge(leq, a[p..], b[q..]) == r[d..]
  }

  lemma RemainsAtStart<T>(leq: (T, T) -> bool, a: seq<T>, b: seq<T>)
    ensures Remains(leq, a, b, 0, 0, Merge(leq, a, b), 0)
  {
    assert a[0..] == a && b[0..] == b && Merge(leq, a, b)[0..] == Merge(leq, a, b);
  }

  lemma RemainsNext<T>(leq: (T, T) -> bool, a: seq<T>, b: seq<T>, p: nat, q: nat, r: seq<T>, d: nat)
    requires Remains(leq, a, b, p, q, r, d) && p + q < |a| + |b|
    ensures d < |r|
    ensures if GoesLeft(leq, a, b, p, q) then r[d] == a[p] && Remains(leq, a, b, p + 1, q, r, d + 1)
            else r[d] == b[q] && Remains(leq, a, b, p, q + 1, r, d + 1)
  {
    if GoesLeft(leq, a, b, p, q) { TakeLeft(leq, a, b, p, q, r, d); } else { TakeRight(leq, a, b, p, q, r, d); }
  }

  lemma {:induction false} MergeRemains<T>(leq: (T, T) -> bool, a: seq<T>, b: seq<T>, d: nat)
    requires d <= |a| + |b|
    ensures Remains(leq, a, b, Taken(leq, a, b, d), d - Taken(leq, a, b, d), Merge(leq, a, b), d)
  {
    if d == 0 {
      RemainsAtStart(leq, a, b);
    } else {
      MergeRemains(leq, a, b, d - 1);
      RemainsStep(leq, a, b, Taken(leq, a, b, d - 1), Taken(leq, a, b, d), Merge(leq, a, b), d - 1);
    }
  }

  lemma RemainsStep<T>(leq: (T, T) -> bool, a: seq<T>, b: seq<T>, p: nat, p': nat, r: seq<T>, d: nat)
    requires p <= d < |a| + |b| && Remains(leq, a, b, p, d - p, r, d)
    requires p' == if GoesLeft(leq, a, b, p, d - p) then p + 1 else p
    ensures Remains(leq, a, b, p', d + 1 - p', r, d + 1)
  {
    RemainsNext(leq, a, b, p, d - p, r, d);
  }

  lemma MergePicks<T>(leq: (T, T) -> bool, a: seq<T>, b: seq<T>, d: nat)
    requires d < |a| + |b|
    ensures |Merge(leq, a, b)| == |a| + |b| && Merge(leq, a, b)[d] == Picked(leq, a, b, d)
  {
    var p := Taken(leq, a, b, d);
    MergeLength(leq, a, b);
    MergeRemains(leq, a, b, d);
    RemainsNext(leq, a, b, p, d - p, Merge(leq, a, b), d);
  }

  // Merge the two runs of x that start at i into y.
  method MergeRuns<T>(leq: (T, T) -> bool, x: array<T>, y: array<T>, i: nat, m: nat, n: nat,
                      ghost left: seq<T>, ghost right: seq<T>)
    requires x != y && i < n <= x.Length && n == y.Length && m > 0
    requires |left| == Min(m, n - i) && |right| == Min(m, n - i - |left|)
    requires forall t :: 0 <= t < |left| ==> left[t] == x[i + t]
    requires forall t :: 0 <= t < |right| ==> right[t] == x[i + |left| + t]
    modifies y
    ensures forall t :: 0 <= t < |left| + |right| ==> y[i + t] == Picked(leq, left, right, t)
    ensures forall t :: 0 <= t < i ==> y[t] == old(y[t])
  {
    var l, kf, lf := RunBounds(i, m, n);
    var k := i;
    ghost var l0 := l;
    var j := i;
    while j <= lf
      invariant i <= j <= lf + 1 == i + |left| + |right|
      invariant k - i == Taken(leq, left, right, j - i) && l - l0 == j - k
      invariant forall t :: 0 <= t < j - i ==> y[i + t] == Picked(leq, left, right, t)
      invariant forall t :: 0 <= t < i ==> y[t] == old(y[t])
    {
      var fromLeft := FromLeft(leq, x, k, kf, l, lf);
      if fromLeft {
        assert x[k] == left[k - i];
        y[j] := x[k];
        k := k + 1;
      } else {
        assert x[l] == right[l - l0];
        y[j] := x[l];
        l := l + 1;
      }
      j := j + 1;
    }
  }

  // From i on, r is what a pass makes of s.
  ghost predicate PassFrom<T>(leq: (T, T) -> bool, s: seq<T>, r: seq<T>, m: nat, i: nat)
    requires m > 0
  {
    i <= |s| == |r| && r[i..] == Pass(leq, s[i..], m)
  }

  lemma PassStep<T>(leq: (T, T) -> bool, s: seq<T>, r: seq<T>, m: nat, i: nat, left: seq<T>, right: seq<T>)
    requires m > 0 && i < |s| && PassFrom(leq, s, r, m, i)
    requires left == s[i..Min(i + m, |s|)] && right == s[Min(i + m, |s|)..Min(i + 2 * m, |s|)]
    ensures PassFrom(leq, s, r, m, i + |left| + |right|)
    ensures forall t :: 0 <= t < |left| + |right| ==> r[i + t] == Picked(leq, left, right, t)
  {
    PassUnfold(leq, s, m, i, Min(i + m, |s|), Min(i + 2 * m, |s|));
    MergedHead(leq, r, i, left, right, Pass(leq, s[i + |left| + |right|..], m));
  }

  lemma MergedHead<T>(leq: (T, T) -> bool, r: seq<T>, i: nat, left: seq<T>, right: seq<T>, rest: seq<T>)
    requires i <= |r| && r[i..] == Merge(leq, left, right) + rest
    ensures i + |left| + |right| <= |r| && r[i + |left| + |right|..] == rest
    ensures forall t :: 0 <= t < |left| + |right| ==> r[i + t] == Picked(leq, left, right, t)
  {
    MergeLength(leq, left, right);
    TailOfConcat(r, i, Merge(leq, left, right), rest);
    forall t | 0 <= t < |left| + |right| ensures r[i + t] == Picked(leq, left, right, t) {
      MergePicks(leq, left, right, t);
    }
  }

  lemma TailOfConcat<T>(r: seq<T>, i: nat, q: seq<T>, rest: seq<T>)
    requires i <= |r| && r[i..] == q + rest
    ensures i + |q| <= |r| && r[i + |q|..] == rest && forall t :: 0 <= t < |q| ==> r[i + t] == q[t]
  {
    assert |r[i..]| == |q| + |rest|;
    forall t | 0 <= t < |q| ensures r[i + t] == q[t] {
      assert r[i..][t] == (q + rest)[t];
    }
    forall t | 0 <= t < |rest| ensures r[i + |q|..][t] == rest[t] {
      assert r[i..][|q| + t] == (q + rest)[|q| + t];
    }
  }

  lemma PassHead<T>(leq: (T, T) -> bool, s: seq<T>, m: nat, left: seq<T>, right: seq<T>, tail: seq<T>)
    requires m > 0
    requires if |s| <= m then left == s && right == [] && tail == []
             else left == s[..m] && right == s[m..Min(2 * m, |s|)] && tail == s[Min(2 * m, |s|)..]
    ensures Pass(leq, s, m) == Merge(leq, left, right) + Pass(leq, tail, m)
  {
    if |s| <= m { assert s + [] == s; }
  }

  lemma SliceFrom<T>(s: seq<T>, i: nat, a: nat, e: nat)
    requires i <= a <= e <= |s|
    ensures s[i..][..a - i] == s[i..a] && s[i..][a - i..e - i] == s[a..e] && s[i..][e - i..] == s[e..]
  {
  }

  lemma SliceRest<T>(s: seq<T>, i: nat)
    requires i <= |s|
    ensures s[i..|s|] == s[i..] && s[|s|..|s|] == [] && s[|s|..] == []
  {
  }

  lemma PassUnfold<T>(leq: (T, T) -> bool, s: seq<T>, m: nat, i: nat, a: nat, e: nat)
    requires m > 0 && i < |s| && a == Min(i + m, |s|) && e == Min(i + 2 * m, |s|)
    ensures Pass(leq, s[i..], m) == Merge(leq, s[i..a], s[a..e]) + Pass(leq, s[e..], m)
  {
    SliceFrom(s, i, a, e);
    if i + m >= |s| { SliceRest(s, i); }
    PassHead(leq, s[i..], m, s[i..a], s[a..e], s[e..]);
  }

  ghost predicate Starts<T>(x: array<T>, s: seq<T>)
    reads x
  {
    |s| <= x.Length && forall t :: 0 <= t < |s| ==> x[t] == s[t]
  }

  method MergeAt<T>(leq: (T, T) -> bool, x: array<T>, y: array<T>, i: nat, m: nat, n: nat, ghost s: seq<T>,
                    ghost r: seq<T>)
    requires x != y && i < n <= x.Length && n == y.Length && m > 0
    requires |s| == n && Starts(x, s) && PassFrom(leq, s, r, m, i)
    modifies y
    ensures PassFrom(leq, s, r, m, Min(i + 2 * m, n))
    ensures forall t :: i <= t < Min(i + 2 * m, n) ==> y[t] == r[t]
    ensures forall t :: 0 <= t < i ==> y[t] == old(y[t])
  {
    ghost var left, right := s[i..Min(i + m, n)], s[Min(i + m, n)..Min(i + 2 * m, n)];
    PassStep(leq, s, r, m, i, left, right);
    MergeRuns(leq, x, y, i, m, n, left, right);
    forall t | i <= t < Min(i + 2 * m, n) ensures y[t] == r[t] {
      var d := t - i;
      assert y[i + d] == Picked(leq, left, right, d) == r[i + d];
    }
  }

  // One pass over x, into y.
  method MergePass<T>(leq: (T, T) -> bool, x: array<T>, y: array<T>, m: nat, n: nat)
    requires x != y && n <= x.Length && n == y.Length && m > 0
    modifies y
    ensures y[..] == Pass(leq, x[..n], m)
  {
    ghost var s := x[..n];
    ghost var r := Pass(leq, s, m);
    PassLength(leq, s, m);
    assert s[0..] == s && r[0..] == r;
    var i := 0;
    while i < n
      invariant 0 <= i && Starts(x, s) && PassFrom(leq, s, r, m, Min(i, n))
      invariant forall t :: 0 <= t < Min(i, n) ==> y[t] == r[t]
    {
      MergeAt(leq, x, y, i, m, n, s, r);
      i := i + 2 * m;
    }
  }

  method CopyBack<T>(x: array<T>, y: array<T>)
    requires x != y && y.Length <= x.Length
    modifies x
    ensures x[..y.Length] == y[..]
    ensures forall t :: y.Length <= t < x.Length ==> x[t] == old(x[t])
  {
    for i := 0 to y.Length
      invariant forall t :: 0 <= t < i ==> x[t] == y[t]
      invariant forall t :: y.Length <= t < x.Length ==> x[t] == old(x[t])
    {
      x[i] := y[i];
    }
  }

  method Round<T>(leq: (T, T) -> bool, x: array<T>, y: array<T>, m: nat, n: nat)
    requires x != y && n <= x.Length && n == y.Length && m > 0
    modifies x, y
    ensures x[..n] == Pass(leq, old(x[..n]), m)
    ensures forall t :: n <= t < x.Length ==> x[t] == old(x[t])
  {
    MergePass(leq, x, y, m, n);
    CopyBack(x, y);
  }

  // Sort the first n elements of x in place.
  method Binsort<T>(leq: (T, T) -> bool, x: array<T>, n: nat)
    requires n <= x.Length
    modifies x
    ensures x[..n] == Sort(leq, old(x[..n]))
    ensures forall t :: n <= t < x.Length ==> x[t] == old(x[t])
  {
    if n == 0 {
      return;
    }
    var y := new T[n](i requires 0 <= i < n reads x => x[i]);
    ghost var s := x[..n];
    var m := 1;
    while m < n
      invariant m > 0 && fresh(y) && y.Length == n
      invariant Passes(leq, x[..n], m, n) == Sort(leq, s)
      invariant forall t :: n <= t < x.Length ==> x[t] == old(x[t])
      decreases n - m
    {
      Round(leq, x, y, m, n);
      m := 2 * m;
    }
  }
}
