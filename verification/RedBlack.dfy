// Red-black balance of trees and of the contexts around a position, and the key order.
module RedBlack {
  import opened Names
  import opened SymbolTree

  // ---------- balance ----------

  function BlackHeight(t: Tree): nat {
    if t.Leaf? then 0 else BlackHeight(t.l) + Weight(t.color)
  }

  function Weight(col: Color): nat {
    if col == Black then 1 else 0
  }

  ghost predicate Balanced(t: Tree) {
    t.Node? ==> Balanced(t.l) && Balanced(t.r) && BlackHeight(t.l) == BlackHeight(t.r)
  }

  ghost predicate NoRedRed(t: Tree) {
    t.Node? ==>
      && (t.color == Red ==> RootColor(t.l) == Black && RootColor(t.r) == Black)
      && NoRedRed(t.l) && NoRedRed(t.r)
  }

  // No red node has a red child, except that the root may be red over red.
  ghost predicate NoRedRedBelow(t: Tree) {
    t.Node? ==> NoRedRed(t.l) && NoRedRed(t.r)
  }

  // The context is balanced when its hole is filled with a tree of black height h.
  ghost predicate CtxBalanced(c: Ctx, h: nat) {
    match c
    case Top => true
    case InLeft(up, _, col, r) => Balanced(r) && BlackHeight(r) == h && CtxBalanced(up, h + Weight(col))
    case InRight(l, _, col, up) => Balanced(l) && BlackHeight(l) == h && CtxBalanced(up, h + Weight(col))
  }

  ghost predicate CtxNoRedRed(c: Ctx) {
    match c
    case Top => true
    case InLeft(up, _, col, r) =>
      NoRedRed(r) && CtxNoRedRed(up) && (col == Red ==> RootColor(r) == Black && ParentColor(up) == Black)
    case InRight(l, _, col, up) =>
      NoRedRed(l) && CtxNoRedRed(up) && (col == Red ==> RootColor(l) == Black && ParentColor(up) == Black)
  }

  // The root of the tree around the hole is black.
  ghost predicate CtxBlackRoot(c: Ctx) {
    match c
    case Top => true
    case InLeft(up, _, col, _) => if up.Top? then col == Black else CtxBlackRoot(up)
    case InRight(_, _, col, up) => if up.Top? then col == Black else CtxBlackRoot(up)
  }

  ghost predicate GoodCtx(c: Ctx, h: nat) {
    CtxBalanced(c, h) && CtxNoRedRed(c) && CtxBlackRoot(c)
  }

  ghost predicate RedBlackTree(t: Tree) {
    Balanced(t) && NoRedRed(t) && RootColor(t) == Black
  }

  lemma {:induction false} BalancedPlug(c: Ctx, t: Tree)
    ensures Balanced(Plug(c, t)) <==> Balanced(t) && CtxBalanced(c, BlackHeight(t))
  {
    match c
    case Top =>
    case InLeft(up, id, col, r) => BalancedPlug(up, Node(t, id, col, r));
    case InRight(l, id, col, up) => BalancedPlug(up, Node(l, id, col, t));
  }

  lemma {:induction false} NoRedRedPlug(c: Ctx, t: Tree)
    ensures NoRedRed(Plug(c, t)) <==>
            NoRedRed(t) && CtxNoRedRed(c) && (ParentColor(c) == Red ==> RootColor(t) == Black)
  {
    match c
    case Top =>
    case InLeft(up, id, col, r) => NoRedRedPlug(up, Node(t, id, col, r));
    case InRight(l, id, col, up) => NoRedRedPlug(up, Node(l, id, col, t));
  }

  lemma {:induction false} BlackRootPlug(c: Ctx, t: Tree)
    ensures RootColor(Plug(c, t)) == Black <==> if c.Top? then RootColor(t) == Black else CtxBlackRoot(c)
  {
    match c
    case Top =>
    case InLeft(up, id, col, r) => BlackRootPlug(up, Node(t, id, col, r));
    case InRight(l, id, col, up) => BlackRootPlug(up, Node(l, id, col, t));
  }

  // Balance seen at a position.
  lemma RedBlackPlug(c: Ctx, t: Tree)
    ensures RedBlackTree(Plug(c, t)) <==>
            && Balanced(t) && NoRedRed(t) && GoodCtx(c, BlackHeight(t))
            && (ParentColor(c) == Red || c.Top? ==> RootColor(t) == Black)
  {
    BalancedPlug(c, t);
    NoRedRedPlug(c, t);
    BlackRootPlug(c, t);
  }

  // ---------- height ----------

  function Height(t: Tree): nat {
    if t.Leaf? then 0 else 1 + (if Height(t.l) > Height(t.r) then Height(t.l) else Height(t.r))
  }

  function Pow2(n: nat): nat {
    if n == 0 then 1 else 2 * Pow2(n - 1)
  }

  lemma {:induction false} BlackHeightBounds(t: Tree)
    requires Balanced(t) && NoRedRed(t)
    ensures Height(t) <= 2 * BlackHeight(t) + 1 - Weight(RootColor(t))
    ensures Pow2(BlackHeight(t)) <= |InOrder(t)| + 1
  {
    if t.Node? {
      BlackHeightBounds(t.l);
      BlackHeightBounds(t.r);
    }
  }

  lemma {:induction false} Pow2Monotone(m: nat, n: nat)
    requires m <= n
    ensures Pow2(m) <= Pow2(n)
  {
    if m < n { Pow2Monotone(m, n - 1); }
  }

  lemma {:induction false} Pow2Double(n: nat)
    ensures Pow2(2 * n) == Pow2(n) * Pow2(n)
  {
    if n > 0 {
      Pow2Double(n - 1);
      assert Pow2(2 * n) == 2 * (2 * Pow2(2 * n - 2));
      assert Pow2(n) * Pow2(n) == 2 * (2 * (Pow2(n - 1) * Pow2(n - 1)));
    }
  }

  // Height is at most 2 * log2(n + 1) for a tree of n symbols.
  lemma LogarithmicHeight(t: Tree)
    requires RedBlackTree(t)
    ensures var n := |InOrder(t)|; Pow2(Height(t)) <= (n + 1) * (n + 1)
  {
    var n, b := |InOrder(t)|, BlackHeight(t);
    BlackHeightBounds(t);
    Pow2Monotone(Height(t), 2 * b);
    Pow2Double(b);
    Square(Pow2(b), n + 1);
  }

  lemma Square(a: nat, b: nat)
    requires a <= b
    ensures a * a <= b * b
  {
    assert a * a <= a * b <= b * b;
  }

  // ---------- order ----------

  // Along q the names are strictly increasing.
  ghost predicate Sorted(s: seq<Symbol>, q: seq<nat>) {
    && (forall i :: 0 <= i < |q| ==> q[i] < |s| && s[q[i]].name != [])
    && (forall i, j :: 0 <= i < j < |q| ==> Less(s[q[i]].name, s[q[j]].name))
  }

  // Every name listed in q is below (above) the key.
  ghost predicate AllBelow(s: seq<Symbol>, q: seq<nat>, key: Name) {
    forall i :: 0 <= i < |q| ==> q[i] < |s| && Less(s[q[i]].name, key)
  }

  ghost predicate AllAbove(s: seq<Symbol>, q: seq<nat>, key: Name) {
    forall i :: 0 <= i < |q| ==> q[i] < |s| && Less(key, s[q[i]].name)
  }

  lemma SortedSplit(s: seq<Symbol>, a: seq<nat>, x: nat, b: seq<nat>)
    requires Sorted(s, a + [x] + b)
    ensures x < |s| && s[x].name != [] && Sorted(s, a) && Sorted(s, b)
    ensures AllBelow(s, a, s[x].name) && AllAbove(s, b, s[x].name)
  {
    var q := a + [x] + b;
    assert q[|a|] == x;
    forall i | 0 <= i < |a| ensures q[i] == a[i] && a[i] < |s| && Less(s[a[i]].name, s[x].name) {
    }
    forall i | 0 <= i < |b| ensures q[|a| + 1 + i] == b[i] && b[i] < |s| && Less(s[x].name, s[b[i]].name) {
    }
  }

  lemma SortedInsert(s: seq<Symbol>, a: seq<nat>, x: nat, b: seq<nat>)
    requires Sorted(s, a + b) && x < |s| && s[x].name != []
    requires AllBelow(s, a, s[x].name) && AllAbove(s, b, s[x].name)
    ensures Sorted(s, a + [x] + b)
  {
    var q, q' := a + b, a + [x] + b;
    assert forall i :: 0 <= i < |a| ==> q'[i] == q[i] == a[i];
    assert forall i :: 0 <= i < |b| ==> q'[|a| + 1 + i] == q[|a| + i] == b[i];
    assert q'[|a|] == x;
    forall i | 0 <= i < |q'| ensures q'[i] < |s| && s[q'[i]].name != [] {
      if i > |a| { assert q'[i] == q[i - 1]; }
    }
    forall i, j | 0 <= i < j < |q'| ensures Less(s[q'[i]].name, s[q'[j]].name) {
      if i < |a| < j { assert q'[i] == q[i] && q'[j] == q[j - 1]; }
      else if i < |a| && j == |a| { assert q'[i] == a[i]; }
      else if i == |a| { assert q'[j] == b[j - |a| - 1]; }
      else if i > |a| { assert q'[i] == q[i - 1] && q'[j] == q[j - 1]; }
    }
  }

  lemma SortedRemove(s: seq<Symbol>, a: seq<nat>, x: nat, b: seq<nat>)
    requires Sorted(s, a + [x] + b)
    ensures Sorted(s, a + b)
  {
    var q, q' := a + [x] + b, a + b;
    forall i | 0 <= i < |q'|
      ensures q'[i] == q[if i < |a| then i else i + 1] && q'[i] < |s| && s[q'[i]].name != []
    {
    }
    forall i, j | 0 <= i < j < |q'| ensures Less(s[q'[i]].name, s[q'[j]].name) {
      var i', j' := if i < |a| then i else i + 1, if j < |a| then j else j + 1;
      assert q'[i] == q[i'] && q'[j] == q[j'];
    }
  }

  // Symbols keep their names.
  ghost predicate SameNames(s: seq<Symbol>, s': seq<Symbol>) {
    |s| == |s'| && forall i :: 0 <= i < |s| ==> s'[i].name == s[i].name
  }
}
