// intersect, difference and unique: both lists are sorted as vectors of cells, walked side by
// side, and the chosen cells are put back into the order of the first list.
module SetOperations {
  import opened Chains
  import opened MergeSort

  datatype Mode = Inter | Diff | Unique

  // Marks the values a transitivity argument is about.
  predicate Steps<V>(a: V, b: V, c: V) {
    true
  }

  // compareCells: negative, zero or positive, for a total preorder.
  ghost predicate Comparison<V(!new)>(cmp: (V, V) -> int) {
    && (forall a, b :: cmp(a, b) < 0 <==> cmp(b, a) > 0)
    && (forall a, b, c {:trigger Steps(a, b, c)} :: Steps(a, b, c) && cmp(a, b) <= 0 && cmp(b, c) <= 0 ==>
         cmp(a, c) <= 0)
  }

  // A chain, with its cells known to be different.
  ghost predicate Linked(next: map<Addr, int>, head: int, addrs: seq<Addr>) {
    Distinct(addrs) && Chain(next, head, addrs)
  }

  // ---------- the naive meaning ----------

  predicate Member<V>(cmp: (V, V) -> int, v: V, b: seq<V>) {
    exists i :: 0 <= i < |b| && cmp(v, b[i]) == 0
  }

  predicate Keeps<V>(cmp: (V, V) -> int, mode: Mode, b: seq<V>, v: V) {
    match mode
    case Inter => Member(cmp, v, b)
    case Diff => !Member(cmp, v, b)
    case Unique => true
  }

  // Element i is wanted: it is kept, and in set mode no element before it is equal.
  predicate Wanted<V>(cmp: (V, V) -> int, mode: Mode, listMode: bool, b: seq<V>, a: seq<V>, i: nat)
    requires i < |a|
  {
    Keeps(cmp, mode, b, a[i]) && (listMode || forall j :: 0 <= j < i ==> cmp(a[j], a[i]) != 0)
  }

  // Filter a by membership in b, in a's order.
  function Naive<V>(cmp: (V, V) -> int, mode: Mode, listMode: bool, b: seq<V>, a: seq<V>, n: nat): seq<V>
    requires n <= |a|
  {
    if n == 0 then []
    else
      var rest := Naive(cmp, mode, listMode, b, a, n - 1);
      if Wanted(cmp, mode, listMode, b, a, n - 1) then rest + [a[n - 1]] else rest
  }

  // ---------- addresses and their values ----------

  function Values<V>(value: Addr -> V, addrs: seq<Addr>): (vs: seq<V>)
    ensures |vs| == |addrs| && forall i :: 0 <= i < |addrs| ==> vs[i] == value(addrs[i])
  {
    if addrs == [] then [] else Values(value, addrs[..|addrs| - 1]) + [value(addrs[|addrs| - 1])]
  }

  // The wanted elements of a vector of cells, in the order of the vector.
  ghost function Chosen<V>(cmp: (V, V) -> int, value: Addr -> V, mode: Mode, listMode: bool, b: seq<V>, s: seq<Addr>,
                           n: nat): seq<Addr>
    requires n <= |s|
  {
    if n == 0 then []
    else
      var rest := Chosen(cmp, value, mode, listMode, b, s, n - 1);
      if Wanted(cmp, mode, listMode, b, Values(value, s), n - 1) then rest + [s[n - 1]] else rest
  }

  lemma {:induction false} ChosenValues<V>(cmp: (V, V) -> int, value: Addr -> V, mode: Mode, listMode: bool,
                                           b: seq<V>, s: seq<Addr>, n: nat)
    requires n <= |s|
    ensures Values(value, Chosen(cmp, value, mode, listMode, b, s, n))
        == Naive(cmp, mode, listMode, b, Values(value, s), n)
  {
    if n > 0 {
      ChosenValues(cmp, value, mode, listMode, b, s, n - 1);
      var c := Chosen(cmp, value, mode, listMode, b, s, n - 1);
      assert (c + [s[n - 1]])[..|c|] == c;
      assert Values(value, s)[n - 1] == value(s[n - 1]);
    }
  }

  lemma {:induction false} ChosenFrom<V>(cmp: (V, V) -> int, value: Addr -> V, mode: Mode, listMode: bool, b: seq<V>,
                                         s: seq<Addr>, n: nat, x: Addr)
    requires n <= |s|
    ensures x in Chosen(cmp, value, mode, listMode, b, s, n) <==>
      exists i :: 0 <= i < n && s[i] == x && Wanted(cmp, mode, listMode, b, Values(value, s), i)
  {
    if n > 0 { ChosenFrom(cmp, value, mode, listMode, b, s, n - 1, x); }
  }

  // The chosen cells appear in the order of the vector.
  lemma {:induction false} ChosenAt<V>(cmp: (V, V) -> int, value: Addr -> V, mode: Mode, listMode: bool, b: seq<V>,
                                       s: seq<Addr>, n: nat, p: nat, q: nat)
    returns (i: nat, j: nat)
    requires n <= |s| && p <= q < |Chosen(cmp, value, mode, listMode, b, s, n)|
    ensures i < n && j < n && (p < q ==> i < j) && (p == q ==> i == j)
    ensures s[i] == Chosen(cmp, value, mode, listMode, b, s, n)[p]
    ensures s[j] == Chosen(cmp, value, mode, listMode, b, s, n)[q]
  {
    var c := Chosen(cmp, value, mode, listMode, b, s, n - 1);
    if q < |c| {
      i, j := ChosenAt(cmp, value, mode, listMode, b, s, n - 1, p, q);
    } else {
      j := n - 1;
      i := n - 1;
      if p < |c| {
        var k;
        i, k := ChosenAt(cmp, value, mode, listMode, b, s, n - 1, p, p);
      }
    }
  }

  // ---------- the order of values, and the order of the first list ----------

  function ByValue<V>(cmp: (V, V) -> int, value: Addr -> V): (Addr, Addr) -> bool {
    (a, b) => cmp(value(a), value(b)) <= 0
  }

  function NextOf(next: map<Addr, int>, a: Addr): int {
    if a in next then next[a] else 0
  }

  // Index mode compares the indices that are kept in the next fields.
  function ByNext(next: map<Addr, int>): (Addr, Addr) -> bool {
    (a, b) => NextOf(next, a) <= NextOf(next, b)
  }

  lemma ValuePreorder<V(!new)>(cmp: (V, V) -> int, value: Addr -> V)
    requires Comparison(cmp)
    ensures TotalPreorder(ByValue(cmp, value))
    ensures forall a :: ByValue(cmp, value)(a, a)
  {
    forall a, b ensures ByValue(cmp, value)(a, b) || ByValue(cmp, value)(b, a) {
      assert cmp(value(a), value(b)) < 0 <==> cmp(value(b), value(a)) > 0;
      assert cmp(value(b), value(a)) < 0 <==> cmp(value(a), value(b)) > 0;
    }
    forall a, b, c | ByValue(cmp, value)(a, b) && ByValue(cmp, value)(b, c) ensures ByValue(cmp, value)(a, c) {
      assert Steps(value(a), value(b), value(c));
    }
  }

  lemma NextPreorder(next: map<Addr, int>)
    ensures TotalPreorder(ByNext(next))
  {
  }

  // The next fields hold the positions in addrs.
  ghost predicate Indexed(next: map<Addr, int>, addrs: seq<Addr>) {
    forall i :: 0 <= i < |addrs| ==> addrs[i] in next && next[addrs[i]] == i
  }

  // Sorting by index restores the original order.
  lemma SortedByIndex(next: map<Addr, int>, addrs: seq<Addr>, s: seq<Addr>, r: seq<Addr>)
    requires Indexed(next, addrs) && multiset(r) == multiset(s)
    requires forall p, q :: 0 <= p <= q < |s| ==> s[p] in addrs && NextOf(next, s[p]) <= NextOf(next, s[q])
    ensures Sort(ByNext(next), r) == s
  {
    var leq := ByNext(next);
    NextPreorder(next);
    SortIsStable(leq, r);
    SortPermutes(leq, r);
    assert Antisymmetric(leq, s) by {
      forall i, j | 0 <= i < |s| && 0 <= j < |s| && Same(leq, s[i], s[j]) ensures s[i] == s[j] {
        assert s[i] in addrs && s[j] in addrs;
      }
    }
    SortedUnique(leq, s, Sort(leq, r));
  }

  // ---------- the walk chooses what is wanted ----------

  lemma EqualBothWays<V(!new)>(cmp: (V, V) -> int, a: V, b: V)
    requires Comparison(cmp)
    ensures cmp(a, b) == 0 <==> cmp(b, a) == 0
  {
    assert cmp(a, b) < 0 <==> cmp(b, a) > 0;
    assert cmp(b, a) < 0 <==> cmp(a, b) > 0;
  }

  lemma EqualTransitive<V(!new)>(cmp: (V, V) -> int, a: V, b: V, c: V)
    requires Comparison(cmp) && cmp(a, b) == 0 && cmp(b, c) == 0
    ensures cmp(a, c) == 0
  {
    EqualBothWays(cmp, a, b);
    EqualBothWays(cmp, b, c);
    assert Steps(a, b, c) && Steps(c, b, a);
    assert cmp(c, a) < 0 <==> cmp(a, c) > 0;
    assert cmp(a, c) < 0 <==> cmp(c, a) > 0;
  }

  lemma LessThenAtMost<V(!new)>(cmp: (V, V) -> int, a: V, b: V, c: V)
    requires Comparison(cmp) && cmp(a, b) < 0 && cmp(b, c) <= 0
    ensures cmp(a, c) < 0
  {
    assert cmp(a, b) < 0 <==> cmp(b, a) > 0;
    assert Steps(b, c, a);
    assert cmp(a, c) < 0 <==> cmp(c, a) > 0;
  }

  lemma KeepsEqual<V(!new)>(cmp: (V, V) -> int, mode: Mode, b: seq<V>, v: V, w: V)
    requires Comparison(cmp) && cmp(v, w) == 0
    ensures Keeps(cmp, mode, b, v) == Keeps(cmp, mode, b, w)
  {
    EqualBothWays(cmp, v, w);
    if i :| 0 <= i < |b| && cmp(v, b[i]) == 0 { EqualTransitive(cmp, w, v, b[i]); }
    if i :| 0 <= i < |b| && cmp(w, b[i]) == 0 { EqualTransitive(cmp, v, w, b[i]); }
  }

  // ---------- the naive filter as a set operation ----------

  // Element i of a, of which there is an equal one before n, is kept.
  ghost predicate KeptBefore<V>(cmp: (V, V) -> int, mode: Mode, b: seq<V>, a: seq<V>, n: nat, v: V) {
    exists i :: 0 <= i < n && i < |a| && cmp(v, a[i]) == 0 && Keeps(cmp, mode, b, a[i])
  }

  lemma {:induction false} NaiveMember<V(!new)>(cmp: (V, V) -> int, mode: Mode, listMode: bool, b: seq<V>, a: seq<V>,
                                                n: nat, v: V)
    requires Comparison(cmp) && n <= |a|
    ensures Member(cmp, v, Naive(cmp, mode, listMode, b, a, n)) <==> KeptBefore(cmp, mode, b, a, n, v)
  {
    if n > 0 {
      NaiveMember(cmp, mode, listMode, b, a, n - 1, v);
      var rest, e := Naive(cmp, mode, listMode, b, a, n - 1), a[n - 1];
      if Wanted(cmp, mode, listMode, b, a, n - 1) {
        MemberMore(cmp, v, rest, e);
      } else if cmp(v, e) == 0 && Keeps(cmp, mode, b, e) {
        var j :| 0 <= j < n - 1 && cmp(a[j], e) == 0;
        EqualBothWays(cmp, a[j], e);
        KeepsEqual(cmp, mode, b, a[j], e);
        EqualTransitive(cmp, v, e, a[j]);
      }
    }
  }

  lemma MemberMore<V>(cmp: (V, V) -> int, v: V, s: seq<V>, e: V)
    ensures Member(cmp, v, s + [e]) <==> Member(cmp, v, s) || cmp(v, e) == 0
  {
    var all := s + [e];
    assert all[|s|] == e && forall i :: 0 <= i < |s| ==> all[i] == s[i];
  }

  // No two elements are equal.
  ghost predicate NoRepeats<V>(cmp: (V, V) -> int, r: seq<V>) {
    forall i, j :: 0 <= i < j < |r| ==> cmp(r[i], r[j]) != 0
  }

  lemma NoRepeatsMore<V>(cmp: (V, V) -> int, r: seq<V>, e: V)
    requires NoRepeats(cmp, r) && forall i :: 0 <= i < |r| ==> cmp(r[i], e) != 0
    ensures NoRepeats(cmp, r + [e])
  {
  }

  lemma {:induction false} NaiveDistinct<V(!new)>(cmp: (V, V) -> int, mode: Mode, b: seq<V>, a: seq<V>, n: nat)
    requires Comparison(cmp) && n <= |a|
    ensures NoRepeats(cmp, Naive(cmp, mode, false, b, a, n))
  {
    if n > 0 {
      NaiveDistinct(cmp, mode, b, a, n - 1);
      if Wanted(cmp, mode, false, b, a, n - 1) {
        var rest, e := Naive(cmp, mode, false, b, a, n - 1), a[n - 1];
        NaiveMember(cmp, mode, false, b, a, n - 1, e);
        forall j | 0 <= j < n - 1 ensures cmp(e, a[j]) != 0 { EqualBothWays(cmp, e, a[j]); }
        forall i | 0 <= i < |rest| ensures cmp(rest[i], e) != 0 { EqualBothWays(cmp, rest[i], e); }
        NoRepeatsMore(cmp, rest, e);
      }
    }
  }

  // As sets of values, compared by cmp: the intersection, the difference, and the set itself;
  // in set mode without repetitions.
  lemma SetMeaning<V(!new)>(cmp: (V, V) -> int, listMode: bool, b: seq<V>, a: seq<V>, v: V)
    requires Comparison(cmp)
    ensures Member(cmp, v, Naive(cmp, Inter, listMode, b, a, |a|)) <==> Member(cmp, v, a) && Member(cmp, v, b)
    ensures Member(cmp, v, Naive(cmp, Diff, listMode, b, a, |a|)) <==> Member(cmp, v, a) && !Member(cmp, v, b)
    ensures Member(cmp, v, Naive(cmp, Unique, listMode, b, a, |a|)) <==> Member(cmp, v, a)
  {
    NaiveMember(cmp, Inter, listMode, b, a, |a|, v);
    NaiveMember(cmp, Diff, listMode, b, a, |a|, v);
    NaiveMember(cmp, Unique, listMode, b, a, |a|, v);
    forall i | 0 <= i < |a| && cmp(v, a[i]) == 0 ensures Member(cmp, v, b) <==> Member(cmp, a[i], b) {
      KeepsEqual(cmp, Inter, b, v, a[i]);
    }
  }

  // In list mode every element of the first list that is kept is there, as often as it was.
  lemma {:induction false} ListModeKeepsAll<V>(cmp: (V, V) -> int, mode: Mode, b: seq<V>, a: seq<V>, n: nat, v: V)
    requires n <= |a|
    ensures multiset(Naive(cmp, mode, true, b, a, n))[v] == if Keeps(cmp, mode, b, v) then multiset(a[..n])[v] else 0
  {
    if n > 0 {
      ListModeKeepsAll(cmp, mode, b, a, n - 1, v);
      assert a[..n] == a[..n - 1] + [a[n - 1]];
    } else {
      assert a[..0] == [];
    }
  }

  lemma {:induction false} LastChosen<V>(cmp: (V, V) -> int, value: Addr -> V, mode: Mode, listMode: bool, b: seq<V>,
                                         s: seq<Addr>, n: nat)
    returns (i: nat)
    requires n <= |s| && Chosen(cmp, value, mode, listMode, b, s, n) != []
    ensures i < n && var c := Chosen(cmp, value, mode, listMode, b, s, n); c[|c| - 1] == s[i]
    ensures forall j :: i < j < n ==> !Wanted(cmp, mode, listMode, b, Values(value, s), j)
  {
    if Wanted(cmp, mode, listMode, b, Values(value, s), n - 1) {
      i := n - 1;
    } else {
      i := LastChosen(cmp, value, mode, listMode, b, s, n - 1);
    }
  }

  // The first element equal to element n.
  lemma {:induction false} FirstEqual<V(!new)>(cmp: (V, V) -> int, a: seq<V>, n: nat, j: nat) returns (i: nat)
    requires Comparison(cmp) && j < n < |a| && cmp(a[j], a[n]) == 0
    ensures i <= j && cmp(a[i], a[n]) == 0 && forall k :: 0 <= k < i ==> cmp(a[k], a[i]) != 0
  {
    if k :| 0 <= k < j && cmp(a[k], a[n]) == 0 {
      i := FirstEqual(cmp, a, n, k);
    } else {
      i := j;
      forall k | 0 <= k < i ensures cmp(a[k], a[i]) != 0 {
        if cmp(a[k], a[i]) == 0 { EqualTransitive(cmp, a[k], a[i], a[n]); }
      }
    }
  }

  // In a sorted vector it is enough to compare with the last element chosen.
  lemma DuplicateTest<V(!new)>(cmp: (V, V) -> int, value: Addr -> V, mode: Mode, listMode: bool, b: seq<V>,
                               s: seq<Addr>, n: nat)
    requires Comparison(cmp) && n < |s| && Sorted(ByValue(cmp, value), s) && Keeps(cmp, mode, b, value(s[n]))
    ensures var c := Chosen(cmp, value, mode, listMode, b, s, n);
            Wanted(cmp, mode, listMode, b, Values(value, s), n) <==>
              (c == [] || cmp(value(s[n]), value(c[|c| - 1])) != 0 || listMode)
  {
    var vs := Values(value, s);
    var c := Chosen(cmp, value, mode, listMode, b, s, n);
    if !listMode {
      if Wanted(cmp, mode, listMode, b, vs, n) {
        if c != [] {
          var i := LastChosen(cmp, value, mode, listMode, b, s, n);
          EqualBothWays(cmp, vs[i], vs[n]);
        }
      } else {
        var j :| 0 <= j < n && cmp(vs[j], vs[n]) == 0;
        var i := FirstEqual(cmp, vs, n, j);
        KeepsEqual(cmp, mode, b, vs[i], vs[n]);
        assert Wanted(cmp, mode, listMode, b, vs, i);
        ChosenFrom(cmp, value, mode, listMode, b, s, n, s[i]);
        var k := LastChosen(cmp, value, mode, listMode, b, s, n);
        BetweenEquals(cmp, value, s, i, k, n);
      }
    }
  }

  lemma BetweenEquals<V(!new)>(cmp: (V, V) -> int, value: Addr -> V, s: seq<Addr>, i: nat, k: nat, n: nat)
    requires Comparison(cmp) && Sorted(ByValue(cmp, value), s) && i <= k < n < |s| && cmp(value(s[i]), value(s[n])) == 0
    ensures cmp(value(s[n]), value(s[k])) == 0
  {
    var x, y, z := value(s[i]), value(s[k]), value(s[n]);
    assert ByValue(cmp, value)(s[k], s[n]);
    assert i < k ==> ByValue(cmp, value)(s[i], s[k]);
    EqualBothWays(cmp, x, z);
    if i == k {
      EqualBothWays(cmp, x, z);
    } else {
      assert Steps(z, x, y);
      assert cmp(z, y) < 0 <==> cmp(y, z) > 0;
    }
  }

  // ---------- the chosen cells, in the order of the first list ----------

  lemma ChosenDistinct<V>(cmp: (V, V) -> int, value: Addr -> V, mode: Mode, listMode: bool, b: seq<V>, s: seq<Addr>,
                          n: nat)
    requires n <= |s| && Distinct(s)
    ensures Distinct(Chosen(cmp, value, mode, listMode, b, s, n))
  {
    var c := Chosen(cmp, value, mode, listMode, b, s, n);
    forall p, q | 0 <= p < q < |c| ensures c[p] != c[q] {
      var i, j := ChosenAt(cmp, value, mode, listMode, b, s, n, p, q);
    }
  }

  // An element is wanted at its place in the sorted vector exactly when it is at its place in the list.
  lemma WantedEitherWay<V(!new)>(cmp: (V, V) -> int, value: Addr -> V, mode: Mode, listMode: bool, b: seq<V>,
                                 addrs: seq<Addr>, s: seq<Addr>, i: nat, u: nat)
    requires Comparison(cmp) && Distinct(addrs) && StableSort(ByValue(cmp, value), addrs, s)
        && multiset(s) == multiset(addrs)
    requires i < |s| && u < |addrs| && s[i] == addrs[u]
    ensures Wanted(cmp, mode, listMode, b, Values(value, s), i)
        <==> Wanted(cmp, mode, listMode, b, Values(value, addrs), u)
  {
    ValuePreorder(cmp, value);
    DistinctByCount(addrs, s);
    forall j | 0 <= j < i && cmp(value(s[j]), value(s[i])) == 0
      ensures exists v :: 0 <= v < u && cmp(value(addrs[v]), value(addrs[u])) == 0
    {
      InBoth(s, addrs, s[j]);
      var v :| 0 <= v < |addrs| && addrs[v] == s[j];
      EqualBothWays(cmp, value(s[j]), value(s[i]));
      OrderKept(ByValue(cmp, value), addrs, s, j, i, v, u);
    }
    forall v | 0 <= v < u && cmp(value(addrs[v]), value(addrs[u])) == 0
      ensures exists j :: 0 <= j < i && cmp(value(s[j]), value(s[i])) == 0
    {
      InBoth(addrs, s, addrs[v]);
      var j :| 0 <= j < |s| && s[j] == addrs[v];
      EqualBothWays(cmp, value(s[j]), value(s[i]));
      if j > i { OrderKept(ByValue(cmp, value), addrs, s, i, j, u, v); }
    }
  }

  lemma ChosenSame<V(!new)>(cmp: (V, V) -> int, value: Addr -> V, mode: Mode, listMode: bool, b: seq<V>,
                            addrs: seq<Addr>, s: seq<Addr>)
    requires Comparison(cmp) && Distinct(addrs) && StableSort(ByValue(cmp, value), addrs, s)
        && multiset(s) == multiset(addrs)
    ensures multiset(Chosen(cmp, value, mode, listMode, b, s, |s|))
        == multiset(Chosen(cmp, value, mode, listMode, b, addrs, |addrs|))
  {
    DistinctByCount(addrs, s);
    ChosenDistinct(cmp, value, mode, listMode, b, s, |s|);
    ChosenDistinct(cmp, value, mode, listMode, b, addrs, |addrs|);
    forall x
      ensures x in Chosen(cmp, value, mode, listMode, b, s, |s|)
          <==> x in Chosen(cmp, value, mode, listMode, b, addrs, |addrs|)
    {
      ChosenFrom(cmp, value, mode, listMode, b, s, |s|, x);
      ChosenFrom(cmp, value, mode, listMode, b, addrs, |addrs|, x);
      if i :| 0 <= i < |s| && s[i] == x {
        InBoth(s, addrs, x);
        var u :| 0 <= u < |addrs| && addrs[u] == x;
        WantedEitherWay(cmp, value, mode, listMode, b, addrs, s, i, u);
      }
      if u :| 0 <= u < |addrs| && addrs[u] == x {
        InBoth(addrs, s, x);
        var i :| 0 <= i < |s| && s[i] == x;
        WantedEitherWay(cmp, value, mode, listMode, b, addrs, s, i, u);
      }
    }
    SameElements(Chosen(cmp, value, mode, listMode, b, s, |s|), Chosen(cmp, value, mode, listMode, b, addrs, |addrs|));
  }

  // Sorting the chosen cells by index gives the naive filter of the first list.
  lemma ChosenInOrder<V(!new)>(cmp: (V, V) -> int, value: Addr -> V, mode: Mode, listMode: bool, b: seq<V>,
                               next: map<Addr, int>, addrs: seq<Addr>, s: seq<Addr>)
    requires Comparison(cmp) && Distinct(addrs) && Indexed(next, addrs) && s == Sort(ByValue(cmp, value), addrs)
    ensures Values(value, Sort(ByNext(next), Chosen(cmp, value, mode, listMode, b, s, |s|)))
         == Naive(cmp, mode, listMode, b, Values(value, addrs), |addrs|)
  {
    ValuePreorder(cmp, value);
    SortIsStable(ByValue(cmp, value), addrs);
    SortPermutes(ByValue(cmp, value), addrs);
    ChosenSame(cmp, value, mode, listMode, b, addrs, s);
    var c := Chosen(cmp, value, mode, listMode, b, addrs, |addrs|);
    forall p, q | 0 <= p <= q < |c| ensures c[p] in addrs && NextOf(next, c[p]) <= NextOf(next, c[q]) {
      var i, j := ChosenAt(cmp, value, mode, listMode, b, addrs, |addrs|, p, q);
    }
    SortedByIndex(next, addrs, c, Chosen(cmp, value, mode, listMode, b, s, |s|));
    ChosenValues(cmp, value, mode, listMode, b, addrs, |addrs|);
  }

  // ---------- looking for an element in the second vector ----------

  // Everything before j is smaller than v.
  ghost predicate AllSmaller<V>(cmp: (V, V) -> int, value: Addr -> V, s: seq<Addr>, j: nat, v: V) {
    forall t :: 0 <= t < j && t < |s| ==> cmp(value(s[t]), v) < 0
  }

  // b has the values of the cells s, in whatever order.
  ghost predicate SameMembers<V(!new)>(cmp: (V, V) -> int, value: Addr -> V, b: seq<V>, s: seq<Addr>) {
    forall v :: Member(cmp, v, b) <==> exists t :: 0 <= t < |s| && cmp(v, value(s[t])) == 0
  }

  lemma MembersPermuted<V(!new)>(cmp: (V, V) -> int, value: Addr -> V, addrs: seq<Addr>, s: seq<Addr>)
    requires multiset(s) == multiset(addrs)
    ensures SameMembers(cmp, value, Values(value, addrs), s)
  {
    var b := Values(value, addrs);
    forall v ensures Member(cmp, v, b) <==> exists t :: 0 <= t < |s| && cmp(v, value(s[t])) == 0 {
      if i :| 0 <= i < |b| && cmp(v, b[i]) == 0 {
        InBoth(addrs, s, addrs[i]);
        var t :| 0 <= t < |s| && s[t] == addrs[i];
      }
      if t :| 0 <= t < |s| && cmp(v, value(s[t])) == 0 {
        InBoth(s, addrs, s[t]);
        var i :| 0 <= i < |addrs| && addrs[i] == s[t];
        assert cmp(v, b[i]) == 0;
      }
    }
  }

  // v is before element j or past the end: it is not there.
  lemma NotThere<V(!new)>(cmp: (V, V) -> int, value: Addr -> V, b: seq<V>, s: seq<Addr>, j: nat, v: V)
    requires Comparison(cmp) && SameMembers(cmp, value, b, s) && Sorted(ByValue(cmp, value), s)
    requires AllSmaller(cmp, value, s, j, v) && (j < |s| ==> cmp(v, value(s[j])) < 0)
    ensures !Member(cmp, v, b)
  {
    forall t | 0 <= t < |s| ensures cmp(v, value(s[t])) != 0 {
      EqualBothWays(cmp, v, value(s[t]));
      if t > j {
        assert ByValue(cmp, value)(s[j], s[t]);
        LessThenAtMost(cmp, v, value(s[j]), value(s[t]));
      }
    }
  }

  lemma SmallerForNext<V(!new)>(cmp: (V, V) -> int, value: Addr -> V, s: seq<Addr>, j: nat, v: V, w: V)
    requires Comparison(cmp) && AllSmaller(cmp, value, s, j, v) && cmp(v, w) <= 0
    ensures AllSmaller(cmp, value, s, j, w)
  {
    forall t | 0 <= t < j && t < |s| ensures cmp(value(s[t]), w) < 0 {
      LessThenAtMost(cmp, value(s[t]), v, w);
    }
  }

  datatype Verdict = Pick | Skip | NextJ

  lemma EmptyKeeps<V(!new)>(cmp: (V, V) -> int, value: Addr -> V, mode: Mode, b: seq<V>, s: seq<Addr>, v: V)
    requires SameMembers(cmp, value, b, s) && mode != Inter && (mode == Diff ==> s == [])
    ensures Keeps(cmp, mode, b, v)
  {
  }

  lemma StepForward<V(!new)>(cmp: (V, V) -> int, value: Addr -> V, sa: seq<Addr>, sb: seq<Addr>, i: nat, j: nat)
    requires Comparison(cmp) && Sorted(ByValue(cmp, value), sa) && i < |sa|
        && AllSmaller(cmp, value, sb, j, value(sa[i]))
    ensures i + 1 < |sa| ==> AllSmaller(cmp, value, sb, j, value(sa[i + 1]))
  {
    if i + 1 < |sa| {
      assert ByValue(cmp, value)(sa[i], sa[i + 1]);
      SmallerForNext(cmp, value, sb, j, value(sa[i]), value(sa[i + 1]));
    }
  }

  lemma SortFacts<V(!new)>(cmp: (V, V) -> int, value: Addr -> V, addrs: seq<Addr>)
    requires Comparison(cmp)
    ensures Sorted(ByValue(cmp, value), Sort(ByValue(cmp, value), addrs))
    ensures multiset(Sort(ByValue(cmp, value), addrs)) == multiset(addrs)
    ensures |Sort(ByValue(cmp, value), addrs)| == |addrs|
  {
    ValuePreorder(cmp, value);
    SortIsStable(ByValue(cmp, value), addrs);
    SortPermutes(ByValue(cmp, value), addrs);
  }

  lemma {:induction false} NothingShared<V>(cmp: (V, V) -> int, listMode: bool, a: seq<V>, n: nat)
    requires n <= |a|
    ensures Naive(cmp, Inter, listMode, [], a, n) == []
  {
    if n > 0 { NothingShared(cmp, listMode, a, n - 1); }
  }

  ghost predicate Holds(r: seq<Addr>, k: nat, c: seq<Addr>) {
    k == |c| <= |r| && forall t :: 0 <= t < k ==> r[t] == c[t]
  }

  lemma HoldsMore(r: seq<Addr>, k: nat, c: seq<Addr>, x: Addr)
    requires Holds(r, k, c) && k < |r|
    ensures Holds(r[k := x], k + 1, c + [x])
  {
  }

  lemma HoldsSlice(r: seq<Addr>, k: nat, c: seq<Addr>)
    requires Holds(r, k, c)
    ensures r[..k] == c
  {
  }

  lemma ChosenNext<V(!new)>(cmp: (V, V) -> int, value: Addr -> V, mode: Mode, listMode: bool, b: seq<V>, s: seq<Addr>,
                            i: nat, c: seq<Addr>, isNew: bool)
    requires Comparison(cmp) && i < |s| && Sorted(ByValue(cmp, value), s) && Keeps(cmp, mode, b, value(s[i]))
    requires c == Chosen(cmp, value, mode, listMode, b, s, i)
    requires isNew <==> (c == [] || cmp(value(s[i]), value(c[|c| - 1])) != 0 || listMode)
    ensures Chosen(cmp, value, mode, listMode, b, s, i + 1) == if isNew then c + [s[i]] else c
  {
    DuplicateTest(cmp, value, mode, listMode, b, s, i);
  }

  ghost predicate HasCells(vector: array<Addr>, s: seq<Addr>)
    reads vector
  {
    vector.Length == |s| && forall t :: 0 <= t < |s| ==> vector[t] == s[t]
  }

  // The copies of the first cells of a list, linked one after the other, in storage that was
  // free before.
  ghost predicate Copied<V>(value: Addr -> V, next: map<Addr, int>, free: Addr, addrs: seq<Addr>, copies: seq<Addr>,
                            was: Addr -> V, before: map<Addr, int>) {
    && |copies| <= |addrs| && free > NIL && (forall a :: a in next ==> a < free)
    && (forall k {:trigger copies[k]} :: 0 <= k < |copies| ==>
          NIL < copies[k] < free && copies[k] in next && copies[k] !in before && value(copies[k]) == was(addrs[k]))
    && (forall j, k :: 0 <= j < k < |copies| ==> copies[j] < copies[k])
    && (forall k {:trigger next[copies[k]]} :: 0 <= k < |copies| ==> next[copies[k]] == At(copies, k + 1))
    && (forall a :: a in before ==> a in next && next[a] == before[a])
    && (forall a :: a in before ==> value(a) == was(a))
  }

  lemma CopiedMore<V>(value: Addr -> V, next: map<Addr, int>, free: Addr, addrs: seq<Addr>, copies: seq<Addr>,
                      was: Addr -> V, before: map<Addr, int>, value': Addr -> V, next': map<Addr, int>)
    requires Copied(value, next, free, addrs, copies, was, before) && |copies| < |addrs| && addrs[|copies|] in before
    requires value'(free) == value(addrs[|copies|]) && forall a :: a != free ==> value'(a) == value(a)
    requires next' == if copies == [] then next[free := NIL] else next[free := NIL][copies[|copies| - 1] := free]
    ensures Copied(value', next', free + 1, addrs, copies + [free], was, before)
  {
    var all, x := copies + [free], addrs[|copies|];
    assert value(x) == was(x);
    forall k | 0 <= k < |all| ensures next'[all[k]] == At(all, k + 1) {
      if k < |copies| - 1 { assert copies[k] < copies[|copies| - 1]; }
    }
    forall k | 0 <= k < |all| ensures NIL < all[k] < free + 1 && all[k] in next' && all[k] !in before {
      if k < |copies| { assert copies[k] < free; }
    }
    forall k | 0 <= k < |all| ensures value'(all[k]) == was(addrs[k]) {
      if k < |copies| {
        assert all[k] == copies[k] && copies[k] != free;
        assert value'(copies[k]) == value(copies[k]);
      } else {
        assert all[k] == free && addrs[k] == x;
      }
    }
  }

  lemma SameValues<V>(value: Addr -> V, value': Addr -> V, addrs: seq<Addr>, addrs': seq<Addr>)
    requires |addrs'| == |addrs| && forall k :: 0 <= k < |addrs| ==> value'(addrs'[k]) == value(addrs[k])
    ensures Values(value', addrs') == Values(value, addrs)
  {
  }

  // All cells have been copied.
  lemma CopiedAll<V>(value: Addr -> V, next: map<Addr, int>, free: Addr, addrs: seq<Addr>, copies: seq<Addr>,
                     was: Addr -> V, before: map<Addr, int>)
    requires Copied(value, next, free, addrs, copies, was, before) && |copies| == |addrs|
    ensures Linked(next, At(copies, 0), copies) && Values(value, copies) == Values(was, addrs)
    ensures forall a :: a in before ==> a in next && next[a] == before[a] && value(a) == was(a) && a !in copies
  {
    SameValues(was, value, addrs, copies);
  }

  lemma LinkedFrame(next: map<Addr, int>, next': map<Addr, int>, head: Addr, addrs: seq<Addr>)
    requires Linked(next, head, addrs) && forall a :: a in addrs ==> a in next' && next'[a] == next[a]
    ensures Linked(next', head, addrs)
  {
    forall i | 0 <= i < |addrs| ensures addrs[i] in next' && next'[addrs[i]] == At(addrs, i + 1) {
      assert addrs[i] in addrs && next[addrs[i]] == At(addrs, i + 1);
    }
  }

  ghost predicate Apart(a: seq<Addr>, b: seq<Addr>) {
    forall x :: x in a ==> x !in b
  }

  // Two lists with the same first cell are one.
  lemma OneList(next: map<Addr, int>, list: Addr, addrsA: seq<Addr>, addrsB: seq<Addr>)
    requires Linked(next, list, addrsA) && Linked(next, list, addrsB) && list != NIL
    requires addrsA == addrsB || Apart(addrsA, addrsB)
    ensures addrsA == addrsB
  {
    assert addrsA[0] in addrsA && addrsB[0] in addrsB;
  }

  class ListCells<V(!new)> {
    const cmp: (V, V) -> int
    var value: Addr -> V
    var next: map<Addr, int>
    var free: Addr

    constructor (cmp: (V, V) -> int, value: Addr -> V, next: map<Addr, int>, free: Addr)
      requires free > NIL && forall a :: a in next ==> a < free
      ensures this.cmp == cmp && this.value == value && this.next == next && Room()
    {
      this.cmp, this.value, this.next, this.free := cmp, value, next, free;
    }

    // No cell has been allocated from free on.
    ghost predicate Room()
      reads this
    {
      free > NIL && forall a :: a in next ==> a < free
    }

    method Listlen(list: Addr, ghost addrs: seq<Addr>) returns (length: nat)
      requires Linked(next, list, addrs)
      ensures length == |addrs|
    {
      length := 0;
      var cell := list;
      while cell != NIL
        invariant length <= |addrs| && cell == At(addrs, length)
        decreases |addrs| - length
      {
        cell := next[cell];
        length := length + 1;
      }
    }

    // A vector of the cells of a list. With indexFlag their next fields become their positions.
    method ListToVector(list: Addr, indexFlag: bool, ghost addrs: seq<Addr>) returns (vector: array<Addr>)
      requires Linked(next, list, addrs)
      modifies this`next
      ensures fresh(vector) && vector[..] == addrs
      ensures if indexFlag then Indexed(next, addrs) else next == old(next)
      ensures forall a :: a in old(next) && a !in addrs ==> a in next && next[a] == old(next[a])
    {
      var length := Listlen(list, addrs);
      vector := new Addr[length](_ => NIL);
      var cell := list;
      for i := 0 to length
        invariant cell == At(addrs, i)
        invariant forall k :: 0 <= k < i ==> vector[k] == addrs[k]
        invariant forall k :: 0 <= k < |addrs| ==> addrs[k] in next
        invariant forall k :: i <= k < |addrs| ==> next[addrs[k]] == At(addrs, k + 1)
        invariant if indexFlag then forall k :: 0 <= k < i ==> next[addrs[k]] == k else next == old(next)
        invariant forall a :: a in old(next) && a !in addrs ==> a in next && next[a] == old(next[a])
      {
        var prev := cell;
        vector[i] := prev;
        cell := next[cell];
        if indexFlag {
          next := next[prev := i];
        }
      }
    }

    method ListToSortedVector(list: Addr, indexFlag: bool, ghost addrs: seq<Addr>) returns (vector: array<Addr>)
      requires Linked(next, list, addrs)
      modifies this`next
      ensures fresh(vector) && vector[..] == Sort(ByValue(cmp, value), addrs)
      ensures if indexFlag then Indexed(next, addrs) else next == old(next)
      ensures forall a :: a in old(next) && a !in addrs ==> a in next && next[a] == old(next[a])
    {
      vector := ListToVector(list, indexFlag, addrs);
      assert vector[..vector.Length] == vector[..];
      Binsort(ByValue(cmp, value), vector, vector.Length);
      assert vector[..vector.Length] == vector[..];
    }

    // Link the cells of a vector one after the other.
    method Relink(vector: array<Addr>, ghost addrs: seq<Addr>) returns (list: Addr)
      requires 0 < vector.Length == |addrs| && Distinct(addrs) && NIL !in addrs
      requires forall k :: 0 <= k < |addrs| ==> vector[k] == addrs[k] && addrs[k] in next
      modifies this`next
      ensures Linked(next, list, addrs)
      ensures forall a :: a in old(next) && a !in addrs ==> a in next && next[a] == old(next[a])
    {
      list := vector[0];
      for i := 1 to vector.Length
        invariant list == addrs[i - 1]
        invariant forall k :: 0 <= k < |addrs| ==> addrs[k] in next
        invariant forall k :: 0 <= k < i - 1 ==> next[addrs[k]] == addrs[k + 1]
        invariant forall a :: a in old(next) && a !in addrs ==> a in next && next[a] == old(next[a])
      {
        next := next[list := vector[i]];
        list := vector[i];
      }
      next := next[list := NIL];
      list := vector[0];
    }

    method SortByNext(vector: array<Addr>, ghost addrs: seq<Addr>)
      requires multiset(vector[..]) == multiset(addrs) && Indexed(next, addrs)
      modifies vector
      ensures vector[..] == addrs
    {
      SortedByIndex(next, addrs, addrs, vector[..]);
      assert vector[..vector.Length] == vector[..];
      Binsort(ByNext(next), vector, vector.Length);
      assert vector[..vector.Length] == vector[..];
    }

    // Back to the original order, and to a list.
    method ResortVectorToList(vector: array<Addr>, ghost addrs: seq<Addr>) returns (list: Addr)
      requires vector.Length > 0 && multiset(vector[..]) == multiset(addrs) && Distinct(addrs) && NIL !in addrs
      requires Indexed(next, addrs)
      modifies this`next, vector
      ensures Linked(next, list, addrs)
      ensures forall a :: a in old(next) && a !in addrs ==> a in next && next[a] == old(next[a])
    {
      SortByNext(vector, addrs);
      assert forall k :: 0 <= k < |addrs| ==> vector[..][k] == addrs[k];
      list := Relink(vector, addrs);
    }

    // ---------- the walk ----------

    // What the comparison of an element v of the first vector with element j of the second decides.
    static method Judge(cmp: (V, V) -> int, value: Addr -> V, mode: Mode, w: V, v: V, j: nat, ghost b: seq<V>,
                        ghost sb: seq<Addr>)
      returns (verdict: Verdict)
      requires Comparison(cmp) && mode != Unique && j < |sb| && w == value(sb[j])
      requires SameMembers(cmp, value, b, sb) && Sorted(ByValue(cmp, value), sb)
      requires AllSmaller(cmp, value, sb, j, v)
      ensures verdict == Pick ==> Keeps(cmp, mode, b, v)
      ensures verdict == Skip ==> !Keeps(cmp, mode, b, v)
      ensures verdict == NextJ ==> AllSmaller(cmp, value, sb, j + 1, v) && cmp(v, w) > 0
    {
      var c := cmp(v, w);
      if c == 0 {
        return if mode == Inter then Pick else Skip;
      }
      if c < 0 {
        NotThere(cmp, value, b, sb, j, v);
        return if mode == Inter then Skip else Pick;
      }
      assert cmp(w, v) < 0 <==> cmp(v, w) > 0;
      return NextJ;
    }

    static method Consider(cmp: (V, V) -> int, value: Addr -> V, mode: Mode, v: V, vectorB: array<Addr>, j: nat,
                           ghost b: seq<V>, ghost sb: seq<Addr>)
      returns (verdict: Verdict)
      requires Comparison(cmp) && HasCells(vectorB, sb) && (mode == Inter ==> sb != []) && (sb != [] ==> j < |sb|)
      requires SameMembers(cmp, value, b, sb) && Sorted(ByValue(cmp, value), sb)
      requires AllSmaller(cmp, value, sb, j, v)
      ensures verdict == Pick ==> Keeps(cmp, mode, b, v)
      ensures verdict == Skip ==> !Keeps(cmp, mode, b, v)
      ensures verdict == NextJ ==> j + 1 < |sb| && AllSmaller(cmp, value, sb, j + 1, v)
    {
      if vectorB.Length == 0 || mode == Unique {
        EmptyKeeps(cmp, value, mode, b, sb, v);
        return Pick;
      }
      assert vectorB[j] == sb[j];
      verdict := Judge(cmp, value, mode, value(vectorB[j]), v, j, b, sb);
      if verdict == NextJ && !(j < vectorB.Length - 1) {
        NotThere(cmp, value, b, sb, |sb|, v);
        return if mode == Inter then Skip else Pick;
      }
    }

    // Is the element x to be appended to the k chosen so far? Not if it repeats the last one.
    static method IsNew(cmp: (V, V) -> int, value: Addr -> V, listMode: bool, x: Addr, vectorResult: array<Addr>,
                        k: nat)
      returns (isNew: bool)
      requires k <= vectorResult.Length
      ensures isNew <==> (k == 0 || cmp(value(x), value(vectorResult[k - 1])) != 0 || listMode)
    {
      isNew := k == 0 || cmp(value(x), value(vectorResult[k - 1])) != 0 || listMode;
    }

    // Append element i unless it repeats the one appended last.
    static method Append(cmp: (V, V) -> int, value: Addr -> V, listMode: bool, x: Addr, vectorResult: array<Addr>,
                         k0: nat, ghost mode: Mode, ghost b: seq<V>, ghost s: seq<Addr>, ghost i: nat)
      returns (k: nat)
      requires Comparison(cmp) && Sorted(ByValue(cmp, value), s) && k0 <= i < |s| == vectorResult.Length
      requires s[i] == x && Keeps(cmp, mode, b, value(x))
      requires Holds(vectorResult[..], k0, Chosen(cmp, value, mode, listMode, b, s, i))
      modifies vectorResult
      ensures k <= i + 1 && Holds(vectorResult[..], k, Chosen(cmp, value, mode, listMode, b, s, i + 1))
    {
      ghost var c := Chosen(cmp, value, mode, listMode, b, s, i);
      k := k0;
      var isNew := IsNew(cmp, value, listMode, x, vectorResult, k);
      ChosenNext(cmp, value, mode, listMode, b, s, i, c, isNew);
      if isNew {
        HoldsMore(vectorResult[..], k, c, x);
        vectorResult[k] := x;
        k := k + 1;
      }
    }

    static method Keep(cmp: (V, V) -> int, value: Addr -> V, verdict: Verdict, listMode: bool, x: Addr,
                       vectorResult: array<Addr>, k0: nat, ghost mode: Mode, ghost b: seq<V>, ghost s: seq<Addr>,
                       ghost i: nat)
      returns (k: nat)
      requires Comparison(cmp) && Sorted(ByValue(cmp, value), s) && k0 <= i < |s| == vectorResult.Length && s[i] == x
      requires verdict != NextJ && (verdict == Pick <==> Keeps(cmp, mode, b, value(x)))
      requires Holds(vectorResult[..], k0, Chosen(cmp, value, mode, listMode, b, s, i))
      modifies vectorResult
      ensures k <= i + 1 && Holds(vectorResult[..], k, Chosen(cmp, value, mode, listMode, b, s, i + 1))
    {
      k := k0;
      if verdict == Pick {
        k := Append(cmp, value, listMode, x, vectorResult, k0, mode, b, s, i);
      }
    }

    static method Walk(cmp: (V, V) -> int, value: Addr -> V, mode: Mode, listMode: bool, vectorA: array<Addr>,
                       vectorB: array<Addr>, vectorResult: array<Addr>, ghost b: seq<V>, ghost sa: seq<Addr>,
                       ghost sb: seq<Addr>)
      returns (k: nat)
      requires Comparison(cmp) && vectorA != vectorResult && vectorB != vectorResult
          && vectorA.Length == vectorResult.Length
      requires HasCells(vectorA, sa) && HasCells(vectorB, sb)
      requires SameMembers(cmp, value, b, sb) && Sorted(ByValue(cmp, value), sb)
      requires Sorted(ByValue(cmp, value), sa) && (mode == Inter ==> sb != [])
      modifies vectorResult
      ensures k <= vectorA.Length
      ensures Holds(vectorResult[..], k, Chosen(cmp, value, mode, listMode, b, sa, |sa|))
    {
      var i, j := 0, 0;
      k := 0;
      while i < vectorA.Length
        invariant k <= i <= |sa| && j <= |sb| && (sb != [] ==> j < |sb|)
        invariant i < |sa| ==> AllSmaller(cmp, value, sb, j, value(sa[i]))
        invariant Holds(vectorResult[..], k, Chosen(cmp, value, mode, listMode, b, sa, i))
        invariant HasCells(vectorA, sa) && HasCells(vectorB, sb)
        decreases |sa| - i + |sb| - j
      {
        var x := vectorA[i];
        assert x == sa[i];
        var verdict := Consider(cmp, value, mode, value(x), vectorB, j, b, sb);
        if verdict == NextJ {
          j := j + 1;
        } else {
          StepForward(cmp, value, sa, sb, i, j);
          k := Keep(cmp, value, verdict, listMode, x, vectorResult, k, mode, b, sa, i);
          i := i + 1;
        }
      }
    }

    // Copies of the chosen cells, in the order of the first list.
    method CopyChosen(vectorResult: array<Addr>, k: nat) returns (result: seq<V>)
      requires k <= vectorResult.Length
      modifies vectorResult
      ensures result == Values(value, Sort(ByNext(next), old(vectorResult[..k])))
    {
      Binsort(ByNext(next), vectorResult, k);
      result := [];
      ghost var s := vectorResult[..k];
      for i := 0 to k
        invariant |result| == i && forall t :: 0 <= t < i ==> result[t] == value(s[t])
      {
        result := result + [value(vectorResult[i])];
      }
    }

    // The walk, and its result in the order of the first list.
    method Combine(mode: Mode, listMode: bool, vectorA: array<Addr>, vectorB: array<Addr>, ghost b: seq<V>,
                   ghost addrs: seq<Addr>)
      returns (result: seq<V>)
      requires Comparison(cmp) && Distinct(addrs) && Indexed(next, addrs)
      requires vectorA[..] == Sort(ByValue(cmp, value), addrs) && Sorted(ByValue(cmp, value), vectorA[..])
      requires SameMembers(cmp, value, b, vectorB[..]) && Sorted(ByValue(cmp, value), vectorB[..])
      requires mode == Inter ==> vectorB.Length > 0
      ensures result == Naive(cmp, mode, listMode, b, Values(value, addrs), |addrs|)
    {
      ghost var sa := vectorA[..];
      var vectorResult := new Addr[vectorA.Length](_ => NIL);
      var k := Walk(cmp, value, mode, listMode, vectorA, vectorB, vectorResult, b, sa, vectorB[..]);
      HoldsSlice(vectorResult[..], k, Chosen(cmp, value, mode, listMode, b, sa, |sa|));
      ChosenInOrder(cmp, value, mode, listMode, b, next, addrs, sa);
      assert vectorResult[..][..k] == vectorResult[..k];
      result := CopyChosen(vectorResult, k);
    }

    // A copy of a cell in new storage.
    method CopyCell(cell: Addr) returns (n: Addr)
      requires Room()
      modifies this
      ensures n == old(free) && free == n + 1 && Room() && next == old(next)[n := NIL]
      ensures value(n) == old(value)(cell) && forall a :: a != n ==> value(a) == old(value)(a)
    {
      n := free;
      var was := value;
      value := a => if a == n then was(cell) else was(a);
      next := next[n := NIL];
      free := n + 1;
    }

    // One more copy, linked to the one before.
    method CopyMore(cell: Addr, newCell: Addr, ghost addrs: seq<Addr>, ghost copies: seq<Addr>, ghost was: Addr -> V,
                    ghost before: map<Addr, int>)
      returns (n: Addr)
      requires Copied(value, next, free, addrs, copies, was, before)
      requires |copies| < |addrs| && cell == addrs[|copies|] && cell in before
      requires newCell == if copies == [] then NIL else copies[|copies| - 1]
      modifies this
      ensures Copied(value, next, free, addrs, copies + [n], was, before)
    {
      n := CopyCell(cell);
      if newCell != NIL {
        next := next[newCell := n];
      }
      CopiedMore(old(value), old(next), n, addrs, copies, was, before, value, next);
    }

    method CopyList(list: Addr, ghost addrs: seq<Addr>) returns (copy: Addr, ghost copies: seq<Addr>)
      requires Linked(next, list, addrs) && Room()
      modifies this
      ensures Linked(next, copy, copies) && Room() && Values(value, copies) == Values(old(value), addrs)
      ensures forall a :: a in old(next) ==>
        a in next && next[a] == old(next)[a] && value(a) == old(value)(a) && a !in copies
    {
      var cell, newCell := list, NIL;
      copy, copies := NIL, [];
      ghost var was, before := value, next;
      while cell != NIL
        invariant Copied(value, next, free, addrs, copies, was, before) && cell == At(addrs, |copies|)
        invariant newCell == (if copies == [] then NIL else copies[|copies| - 1]) && copy == At(copies, 0)
        decreases |addrs| - |copies|
      {
        newCell := CopyMore(cell, newCell, addrs, copies, was, before);
        copies := copies + [newCell];
        copy := if copy == NIL then newCell else copy;
        cell := next[cell];
      }
      CopiedAll(value, next, free, addrs, copies, was, before);
    }

    // Two different lists.
    method Select(listA: Addr, listB: Addr, mode: Mode, listMode: bool, ghost addrsA: seq<Addr>,
                  ghost addrsB: seq<Addr>)
      returns (result: seq<V>)
      requires Comparison(cmp) && (mode == Unique ==> !listMode && listB == NIL)
      requires Linked(next, listA, addrsA) && Linked(next, listB, addrsB)
      requires Apart(addrsA, addrsB)
      modifies this`next
      ensures result == Naive(cmp, mode, listMode, Values(value, addrsB), Values(value, addrsA), |addrsA|)
      ensures Linked(next, listA, addrsA) && Linked(next, listB, addrsB)
    {
      if listA == NIL {
        return [];
      }
      if listB == NIL && mode == Inter {
        NothingShared(cmp, listMode, Values(value, addrsA), |addrsA|);
        return [];
      }
      ghost var b := Values(value, addrsB);
      SortFacts(cmp, value, addrsA);
      SortFacts(cmp, value, addrsB);
      var vectorA := ListToSortedVector(listA, true, addrsA);
      LinkedFrame(old(next), next, listB, addrsB);
      ghost var during := next;
      var vectorB := ListToSortedVector(listB, false, addrsB);
      MembersPermuted(cmp, value, addrsB, vectorB[..]);
      result := Combine(mode, listMode, vectorA, vectorB, b, addrsA);
      var list := ResortVectorToList(vectorA, addrsA);
      LinkedFrame(during, next, listB, addrsB);
    }

    // A list and its copy.
    method SelectCopied(list: Addr, mode: Mode, listMode: bool, ghost addrs: seq<Addr>) returns (result: seq<V>)
      requires Comparison(cmp) && mode != Unique && Room() && Linked(next, list, addrs)
      modifies this
      ensures result == Naive(cmp, mode, listMode, Values(old(value), addrs), Values(old(value), addrs), |addrs|)
      ensures Linked(next, list, addrs) && forall a :: a in old(next) ==> value(a) == old(value)(a)
    {
      var copy;
      ghost var copies;
      copy, copies := CopyList(list, addrs);
      SameValues(old(value), value, addrs, addrs);
      result := Select(copy, list, mode, listMode, copies, addrs);
    }

    // A list passed twice is copied first.
    method SetInterDiff(listA: Addr, listB: Addr, mode: Mode, listMode: bool, ghost addrsA: seq<Addr>,
                        ghost addrsB: seq<Addr>)
      returns (result: seq<V>)
      requires Comparison(cmp) && (mode == Unique ==> !listMode && listB == NIL) && Room()
      requires Linked(next, listA, addrsA) && Linked(next, listB, addrsB)
      requires addrsA == addrsB || Apart(addrsA, addrsB)
      modifies this
      ensures result == Naive(cmp, mode, listMode, Values(old(value), addrsB), Values(old(value), addrsA), |addrsA|)
      ensures Linked(next, listA, addrsA) && Linked(next, listB, addrsB)
      ensures forall a :: a in old(next) ==> value(a) == old(value)(a)
    {
      if listA == listB && listA != NIL {
        OneList(next, listA, addrsA, addrsB);
        result := SelectCopied(listB, mode, listMode, addrsB);
      } else {
        result := Select(listA, listB, mode, listMode, addrsA, addrsB);
      }
    }
  }
}
