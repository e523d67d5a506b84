// Finding a key on the way down, linking a new symbol in, and taking one out.
module Removal {
  import opened Names
  import opened SymbolTree
  import opened RedBlack
  import opened Rotation

  // ---------- the way down ----------

  // Everything listed before the hole is below the key, everything after it above.
  ghost predicate Around(s: seq<Symbol>, c: Ctx, key: Name) {
    AllBelow(s, Before(c), key) && AllAbove(s, After(c), key)
  }

  lemma Regroup(a: seq<nat>, b: seq<nat>, x: nat, d: seq<nat>, e: seq<nat>)
    ensures a + (b + [x] + d) + e == (a + b) + [x] + (d + e)
  {
  }

  lemma NodeInOrder(s: seq<Symbol>, c: Ctx, t: Tree)
    requires Sorted(s, InOrder(Plug(c, t))) && t.Node?
    ensures t.id < |s| && s[t.id].name != []
    ensures AllBelow(s, Before(c) + InOrder(t.l), s[t.id].name)
    ensures AllAbove(s, InOrder(t.r) + After(c), s[t.id].name)
    ensures Sorted(s, Before(c) + InOrder(t.l)) && Sorted(s, InOrder(t.r) + After(c))
  {
    InOrderPlug(c, t);
    Regroup(Before(c), InOrder(t.l), t.id, InOrder(t.r), After(c));
    SortedSplit(s, Before(c) + InOrder(t.l), t.id, InOrder(t.r) + After(c));
  }

  lemma DescendLeft(s: seq<Symbol>, c: Ctx, t: Tree, key: Name)
    requires Sorted(s, InOrder(Plug(c, t))) && t.Node? && t.id < |s| && Around(s, c, key) && Less(key, s[t.id].name)
    ensures Around(s, InLeft(c, t.id, t.color, t.r), key)
  {
    NodeInOrder(s, c, t);
    var q, q' := InOrder(t.r) + After(c), After(InLeft(c, t.id, t.color, t.r));
    forall i | 0 <= i < |q'| ensures q'[i] < |s| && Less(key, s[q'[i]].name) {
      if i > 0 {
        assert q'[i] == q[i - 1];
        LessTransitive(key, s[t.id].name, s[q'[i]].name);
      }
    }
  }

  lemma DescendRight(s: seq<Symbol>, c: Ctx, t: Tree, key: Name)
    requires Sorted(s, InOrder(Plug(c, t))) && t.Node? && t.id < |s| && Around(s, c, key) && Less(s[t.id].name, key)
    ensures Around(s, InRight(t.l, t.id, t.color, c), key)
  {
    NodeInOrder(s, c, t);
    var q, q' := Before(c) + InOrder(t.l), Before(InRight(t.l, t.id, t.color, c));
    forall i | 0 <= i < |q'| ensures q'[i] < |s| && Less(s[q'[i]].name, key) {
      if i < |q| {
        assert q'[i] == q[i];
        LessTransitive(s[q'[i]].name, s[t.id].name, key);
      }
    }
  }

  // Which side of its parent the hole is on.
  lemma SideOfParent(s: seq<Symbol>, c: Ctx, key: Name)
    requires Around(s, c, key) && !c.Top?
    ensures c.id < |s|
    ensures c.InLeft? ==> Less(key, s[c.id].name)
    ensures c.InRight? ==> Less(s[c.id].name, key)
  {
    if c.InLeft? {
      assert After(c)[0] == c.id;
    } else {
      assert Before(c)[|Before(c)| - 1] == c.id;
    }
  }

  // ---------- a new symbol in an empty hole ----------

  lemma Attached(s: seq<Symbol>, s': seq<Symbol>, root: nat, root': nat, c: Ctx, x: nat)
    requires Rep(s, root, Plug(c, Leaf)) && x == |s| && |s'| == |s| + 1
    requires s'[x].color == Red && s'[x].parent == ParentId(c) && s'[x].left == SENTINEL && s'[x].right == SENTINEL
    requires Relinked(s, s', root, root', x, c) && s'[SENTINEL] == s[SENTINEL]
    ensures Rep(s', root', Plug(c, Node(Leaf, x, Red, Leaf)))
  {
    Focus(s, root, c, Leaf);
    CtxIdsValid(s, root, SENTINEL, c);
    CtxRelinked(s, s', root, root', SENTINEL, x, c);
    var t := Node(Leaf, x, Red, Leaf);
    assert IsTree(s', s'[x].left, x, Leaf) && IsTree(s', s'[x].right, x, Leaf);
    assert IsTree(s', x, ParentId(c), t) && Ids(t) == {x};
    Focus(s', root', c, t);
  }

  // ---------- taking out a node that has at most one child ----------

  function OnlyChild(t: Tree): Tree
    requires t.Node?
  {
    if t.l.Node? then t.l else t.r
  }

  // The symbols a removal touches: x takes the place of its parent y under y's parent.
  ghost predicate Spliced(s: seq<Symbol>, s': seq<Symbol>, root: nat, root': nat, c: Ctx, x: nat, ids: set<nat>) {
    && |s'| == |s| && x < |s|
    && s'[x] == s[x].(parent := ParentId(c))
    && (x != SENTINEL ==> s'[SENTINEL] == s[SENTINEL])
    && Relinked(s, s', root, root', x, c)
    && Same(s, s', ids - {x})
  }

  lemma SpliceRep(s: seq<Symbol>, s': seq<Symbol>, root: nat, root': nat, c: Ctx, t: Tree)
    requires Rep(s, root, Plug(c, t)) && t.Node? && (t.l.Leaf? || t.r.Leaf?)
    requires Spliced(s, s', root, root', c, RootId(OnlyChild(t)), Ids(OnlyChild(t)))
    ensures Rep(s', root', Plug(c, OnlyChild(t)))
  {
    var u := OnlyChild(t);
    var x := RootId(u);
    Focus(s, root, c, t);
    assert IsTree(s, if t.l.Node? then s[t.id].left else s[t.id].right, t.id, u);
    TreeIds(s, if t.l.Node? then s[t.id].left else s[t.id].right, t.id, u);
    TreeMoved(s, s', x, t.id, ParentId(c), u);
    CtxRelinked(s, s', root, root', t.id, x, c);
    Focus(s', root', c, u);
  }

  // ---------- one symbol takes the place of another ----------

  ghost predicate Replaced(s: seq<Symbol>, s': seq<Symbol>, root: nat, root': nat, c: Ctx, t: Tree, y: nat)
    requires t.Node?
  {
    && |s'| == |s| && y < |s| && RootId(t.l) < |s| && RootId(t.r) < |s|
    && s'[y] == s[y].(left := RootId(t.l), right := RootId(t.r), parent := ParentId(c), color := t.color)
    && s'[RootId(t.l)] == s[RootId(t.l)].(parent := y)
    && s'[RootId(t.r)] == s[RootId(t.r)].(parent := y)
    && (t.r.Node? ==> s'[SENTINEL] == s[SENTINEL])
    && Relinked(s, s', root, root', y, c)
    && Same(s, s', Ids(t.l) - {RootId(t.l)}) && Same(s, s', Ids(t.r) - {RootId(t.r)})
  }

  lemma ReplaceRep(s: seq<Symbol>, s': seq<Symbol>, root: nat, root': nat, c: Ctx, t: Tree, y: nat)
    requires Rep(s, root, Plug(c, t)) && t.Node? && t.l.Node?
    requires 0 < y < |s| && y !in Ids(Plug(c, t))
    requires Replaced(s, s', root, root', c, t, y)
    ensures Rep(s', root', Plug(c, t.(id := y)))
  {
    Focus(s, root, c, t);
    DistinctPlug(c, t);
    TreeIds(s, s[t.id].left, t.id, t.l);
    TreeIds(s, s[t.id].right, t.id, t.r);
    TreeMoved(s, s', RootId(t.l), t.id, y, t.l);
    TreeMoved(s, s', RootId(t.r), t.id, y, t.r);
    CtxRelinked(s, s', root, root', t.id, y, c);
    Focus(s', root', c, t.(id := y));
  }

  // ---------- the successor of a node with two children ----------

  function Compose(d: Ctx, e: Ctx): Ctx {
    match d
    case Top => e
    case InLeft(up, id, col, r) => InLeft(Compose(up, e), id, col, r)
    case InRight(l, id, col, up) => InRight(l, id, col, Compose(up, e))
  }

  lemma {:induction false} PlugCompose(d: Ctx, e: Ctx, t: Tree)
    ensures Plug(Compose(d, e), t) == Plug(e, Plug(d, t))
  {
    match d
    case Top =>
    case InLeft(up, id, col, r) => PlugCompose(up, e, Node(t, id, col, r));
    case InRight(l, id, col, up) => PlugCompose(up, e, Node(l, id, col, t));
  }

  // Only left turns: the hole is the first position listed.
  ghost predicate LeftSpine(d: Ctx) {
    d.Top? || (d.InLeft? && LeftSpine(d.up))
  }

  lemma SpineBefore(d: Ctx)
    requires LeftSpine(d)
    ensures Before(d) == []
  {
    if !d.Top? { SpineBefore(d.up); }
  }

  // The balance around a hole does not depend on which symbols the frames carry.
  lemma {:induction false} RenamedFrame(d: Ctx, l: Tree, z: nat, y: nat, col: Color, c: Ctx, h: nat)
    requires LeftSpine(d)
    ensures var e, e' := InRight(l, z, col, c), InRight(l, y, col, c);
      && (GoodCtx(Compose(d, e), h) ==> GoodCtx(Compose(d, e'), h))
      && ParentColor(Compose(d, e)) == ParentColor(Compose(d, e'))
      && !Compose(d, e').Top?
  {
    if !d.Top? { RenamedFrame(d.up, l, z, y, col, c, h + Weight(d.color)); }
  }

  // What is listed before the successor y leaves its place below z, and after it took the place of z.
  lemma SuccessorOrder(c: Ctx, l: Tree, z: nat, col: Color, d: Ctx, y: Tree)
    requires LeftSpine(d) && y.Node? && y.l.Leaf?
    ensures var rest := InOrder(y.r) + After(d);
      && InOrder(Plug(Compose(d, InRight(l, z, col, c)), y))
          == (Before(c) + InOrder(l)) + [z] + ([y.id] + rest + After(c))
      && InOrder(Plug(Compose(d, InRight(l, y.id, col, c)), y.r))
          == (Before(c) + InOrder(l)) + ([y.id] + rest + After(c))
  {
    var rest := InOrder(y.r) + After(d);
    SpineOrder(c, l, z, col, d, y);
    SpineOrder(c, l, y.id, col, d, y.r);
    Shuffle(Before(c) + InOrder(l), z, y.id, InOrder(y.r), After(d), After(c));
  }

  lemma Shuffle(a: seq<nat>, z: nat, y: nat, r: seq<nat>, d: seq<nat>, e: seq<nat>)
    ensures a + [z] + (([] + [y] + r) + d) + e == a + [z] + ([y] + (r + d) + e)
    ensures a + [y] + (r + d) + e == a + ([y] + (r + d) + e)
  {
  }

  lemma SpineOrder(c: Ctx, l: Tree, z: nat, col: Color, d: Ctx, u: Tree)
    requires LeftSpine(d)
    ensures InOrder(Plug(Compose(d, InRight(l, z, col, c)), u))
        == (Before(c) + InOrder(l)) + [z] + (InOrder(u) + After(d)) + After(c)
  {
    var e := InRight(l, z, col, c);
    SpineBefore(d);
    PlugCompose(d, e, u);
    InOrderPlug(d, u);
    InOrderPlug(e, Plug(d, u));
    assert Before(d) + InOrder(u) + After(d) == InOrder(u) + After(d);
  }
}
