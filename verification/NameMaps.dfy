// The finite map from names to symbols that a symbol tree stands for.
module NameMaps {
  import opened Names
  import opened SymbolTree
  import opened RedBlack
  import opened Removal

  lemma InOrderIds(t: Tree)
    ensures forall i {:trigger i in Ids(t)} :: i in Ids(t) <==> i in InOrder(t)
  {
  }

  // No two symbols of q have the same name.
  ghost predicate Named(s: seq<Symbol>, q: set<nat>) {
    && (forall i :: i in q ==> i < |s|)
    && (forall i, j :: i in q && j in q && s[i].name == s[j].name ==> i == j)
  }

  ghost function Index(s: seq<Symbol>, q: set<nat>): map<Name, nat>
    requires Named(s, q)
  {
    map i | i in q :: s[i].name := i
  }

  lemma SortedNamed(s: seq<Symbol>, t: Tree)
    requires Sorted(s, InOrder(t))
    ensures Named(s, Ids(t))
  {
    InOrderIds(t);
    var q := InOrder(t);
    forall i | i in Ids(t) ensures i < |s| {
      var a :| 0 <= a < |q| && q[a] == i;
    }
    forall i, j | i in Ids(t) && j in Ids(t) && s[i].name == s[j].name ensures i == j {
      var a :| 0 <= a < |q| && q[a] == i;
      var b :| 0 <= b < |q| && q[b] == j;
      StrCmpEqual(s[i].name, s[j].name);
      StrCmpFlip(s[i].name, s[j].name);
    }
  }

  ghost function NameMap(s: seq<Symbol>, t: Tree): map<Name, nat>
    requires Sorted(s, InOrder(t))
  {
    SortedNamed(s, t);
    Index(s, Ids(t))
  }

  // The later arena has the symbols of the earlier one under the same names.
  ghost predicate Grown(s: seq<Symbol>, s': seq<Symbol>) {
    |s| <= |s'| && forall i :: 0 <= i < |s| ==> s'[i].name == s[i].name
  }

  lemma SortedGrown(s: seq<Symbol>, s': seq<Symbol>, q: seq<nat>)
    requires Sorted(s, q) && Grown(s, s')
    ensures Sorted(s', q)
  {
  }

  // A walk that ended in a hole has missed nothing.
  lemma NotFound(s: seq<Symbol>, c: Ctx, key: Name)
    requires Sorted(s, InOrder(Plug(c, Leaf))) && Around(s, c, key)
    ensures key !in NameMap(s, Plug(c, Leaf))
  {
    var t := Plug(c, Leaf);
    InOrderIds(t);
    InOrderPlug(c, Leaf);
    SortedNamed(s, t);
    forall i | i in Ids(t) ensures s[i].name != key {
      var q := InOrder(t);
      var k :| 0 <= k < |q| && q[k] == i;
      StrCmpEqual(s[i].name, key);
      StrCmpEqual(key, s[i].name);
      if k < |Before(c)| {
        assert Before(c)[k] == i;
      } else {
        assert After(c)[k - |Before(c)|] == i;
      }
    }
  }

  lemma FoundAt(s: seq<Symbol>, c: Ctx, t: Tree)
    requires Sorted(s, InOrder(Plug(c, t))) && t.Node? && t.id < |s|
    ensures s[t.id].name in NameMap(s, Plug(c, t)) && NameMap(s, Plug(c, t))[s[t.id].name] == t.id
  {
    DistinctPlug(c, t);
    SortedNamed(s, Plug(c, t));
  }

  // What Index says, entry by entry.
  lemma IndexEntries(s: seq<Symbol>, q: set<nat>)
    requires Named(s, q)
    ensures forall i :: i in q ==> s[i].name in Index(s, q) && Index(s, q)[s[i].name] == i
    ensures forall key :: key in Index(s, q) ==> Index(s, q)[key] in q && s[Index(s, q)[key]].name == key
  {
  }

  lemma IndexPlus(s: seq<Symbol>, s': seq<Symbol>, q: set<nat>, x: nat)
    requires Named(s, q) && Named(s', q + {x}) && Grown(s, s') && x !in q
    ensures Index(s', q + {x}) == Index(s, q)[s'[x].name := x]
  {
    var m, m' := Index(s, q), Index(s', q + {x});
    IndexEntries(s, q);
    IndexEntries(s', q + {x});
    forall key | key in m' ensures key == s'[x].name || (key in m && m[key] == m'[key]) {
      var i := m'[key];
      if i != x { assert i in q && s[i].name == key; }
    }
    forall key | key in m ensures key in m' {
      assert m[key] in q + {x} && s'[m[key]].name == key;
    }
    assert x in q + {x};
  }

  lemma MapInsert(s: seq<Symbol>, s': seq<Symbol>, t: Tree, t': Tree, x: nat, a: seq<nat>, b: seq<nat>)
    requires Sorted(s, InOrder(t)) && Grown(s, s') && |s| == x < |s'|
    requires InOrder(t) == a + b && InOrder(t') == a + [x] + b
    requires s'[x].name != [] && AllBelow(s, a, s'[x].name) && AllAbove(s, b, s'[x].name)
    ensures Sorted(s', InOrder(t'))
    ensures NameMap(s', t') == NameMap(s, t)[s'[x].name := x]
  {
    SortedGrown(s, s', InOrder(t));
    SortedInsert(s', a, x, b);
    SortedNamed(s, t);
    SortedNamed(s', t');
    InOrderIds(t);
    InOrderIds(t');
    assert Ids(t') == Ids(t) + {x};
    IndexPlus(s, s', Ids(t), x);
  }

  lemma IndexMinus(s: seq<Symbol>, s': seq<Symbol>, q: set<nat>, z: nat)
    requires Named(s, q) && Named(s', q - {z}) && Grown(s, s') && z in q
    ensures Index(s', q - {z}) == Index(s, q) - {s[z].name}
  {
    IndexEntries(s, q);
    IndexEntries(s', q - {z});
    EntriesMinus(s, s', q, z, Index(s, q), Index(s', q - {z}));
    MapMinus(Index(s, q), Index(s', q - {z}), s[z].name);
  }

  lemma MapMinus(m: map<Name, nat>, m': map<Name, nat>, k: Name)
    requires forall key :: key in m' ==> key in m && m[key] == m'[key] && key != k
    requires forall key :: key in m && key != k ==> key in m'
    ensures m' == m - {k}
  {
  }

  lemma EntriesMinus(s: seq<Symbol>, s': seq<Symbol>, q: set<nat>, z: nat, m: map<Name, nat>, m': map<Name, nat>)
    requires Named(s, q) && Named(s', q - {z}) && Grown(s, s') && z in q
    requires forall i :: i in q ==> s[i].name in m && m[s[i].name] == i
    requires forall key :: key in m ==> m[key] in q && s[m[key]].name == key
    requires forall i :: i in q - {z} ==> s'[i].name in m' && m'[s'[i].name] == i
    requires forall key :: key in m' ==> m'[key] in q - {z} && s'[m'[key]].name == key
    ensures forall key :: key in m' ==> key in m && m[key] == m'[key] && key != s[z].name
    ensures forall key :: key in m && key != s[z].name ==> key in m'
  {
    forall key | key in m' ensures key in m && m[key] == m'[key] && key != s[z].name {
      assert m'[key] in q && s[m'[key]].name == key;
    }
    forall key | key in m && key != s[z].name ensures key in m' {
      assert m[key] in q - {z} && s'[m[key]].name == key;
    }
  }

  lemma MapDelete(s: seq<Symbol>, s': seq<Symbol>, t: Tree, t': Tree, z: nat, a: seq<nat>, b: seq<nat>)
    requires Sorted(s, InOrder(t)) && Grown(s, s') && z < |s|
    requires InOrder(t) == a + [z] + b && InOrder(t') == a + b
    ensures Sorted(s', InOrder(t'))
    ensures Ids(t') == Ids(t) - {z}
    ensures NameMap(s', t') == NameMap(s, t) - {s[z].name}
  {
    SortedRemove(s, a, z, b);
    SortedGrown(s, s', a + b);
    SortedOnce(s, a, z, b);
    InOrderIds(t);
    InOrderIds(t');
    assert Ids(t') == Ids(t) - {z};
    SortedNamed(s, t);
    SortedNamed(s', t');
    IndexMinus(s, s', Ids(t), z);
  }

  lemma SortedOnce(s: seq<Symbol>, a: seq<nat>, z: nat, b: seq<nat>)
    requires Sorted(s, a + [z] + b)
    ensures z !in a && z !in b
  {
    SortedSplit(s, a, z, b);
    StrCmpEqual(s[z].name, s[z].name);
  }

  // The map has one entry for each symbol listed.
  lemma MapSize(s: seq<Symbol>, t: Tree)
    requires Sorted(s, InOrder(t)) && Distinct(t)
    ensures |NameMap(s, t)| == |InOrder(t)|
  {
    SortedNamed(s, t);
    IndexSize(s, Ids(t));
    IdsSize(t);
  }

  lemma {:induction false} IndexSize(s: seq<Symbol>, q: set<nat>)
    requires Named(s, q)
    ensures |Index(s, q)| == |q|
    decreases q
  {
    if q != {} {
      var z :| z in q;
      IndexMinus(s, s, q, z);
      IndexSize(s, q - {z});
      IndexEntries(s, q);
      RemoveOne(Index(s, q), s[z].name);
    }
  }

  lemma RemoveOne(m: map<Name, nat>, key: Name)
    requires key in m
    ensures |m - {key}| == |m| - 1
  {
    assert (m - {key}).Keys == m.Keys - {key};
    assert |m.Keys - {key}| == |m.Keys| - 1;
  }

  lemma {:induction false} IdsSize(t: Tree)
    requires Distinct(t)
    ensures |Ids(t)| == |InOrder(t)|
  {
    if t.Node? {
      IdsSize(t.l);
      IdsSize(t.r);
      assert |Ids(t.l) + {t.id}| == |Ids(t.l)| + 1;
      assert |Ids(t)| == |Ids(t.l) + {t.id}| + |Ids(t.r)|;
    }
  }
}
