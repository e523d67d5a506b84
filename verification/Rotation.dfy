// What recoloring and rotating do to the arena, position by position.
module Rotation {
  import opened SymbolTree

  // ---------- reading the arena at a position ----------

  lemma RootInCtx(s: seq<Symbol>, root: nat, x: nat, c: Ctx)
    requires IsCtx(s, root, x, c) && !c.Top?
    ensures root in CtxIds(c) && root != SENTINEL
    decreases c
  {
    if !c.up.Top? { RootInCtx(s, root, c.id, c.up); }
  }

  // The occupant of the hole.
  lemma LookAt(s: seq<Symbol>, root: nat, c: Ctx, t: Tree)
    requires Rep(s, root, Plug(c, t))
    ensures RootId(t) < |s| && s[RootId(t)].color == RootColor(t)
    ensures t.Node? ==>
      && t.id > 0 && s[t.id].parent == ParentId(c)
      && s[t.id].left == RootId(t.l) && s[t.id].right == RootId(t.r)
      && (t.l.Node? ==> t.l.id > 0) && (t.r.Node? ==> t.r.id > 0)
    ensures root == RootId(t) <==> c.Top?
  {
    Focus(s, root, c, t);
    if t.Node? {
      TreeIds(s, s[t.id].left, t.id, t.l);
      TreeIds(s, s[t.id].right, t.id, t.r);
    }
    if !c.Top? {
      RootInCtx(s, root, RootId(t), c);
    }
  }

  // The frame above the hole and the sibling.
  lemma LookUp(s: seq<Symbol>, root: nat, c: Ctx, t: Tree)
    requires Rep(s, root, Plug(c, t)) && !c.Top?
    ensures 0 < c.id < |s| && s[c.id].parent == ParentId(c.up) && s[c.id].color == c.color && c.id != RootId(t)
    ensures c.InLeft? ==>
      && s[c.id].left == RootId(t) && s[c.id].right == RootId(c.r)
      && RootId(c.r) < |s| && s[RootId(c.r)].color == RootColor(c.r)
      && (t.Node? || c.r.Node? ==> RootId(t) != RootId(c.r))
    ensures c.InRight? ==>
      && s[c.id].right == RootId(t) && s[c.id].left == RootId(c.l)
      && RootId(c.l) < |s| && s[RootId(c.l)].color == RootColor(c.l)
      && (t.Node? || c.l.Node? ==> RootId(t) != RootId(c.l))
  {
    Focus(s, root, c, t);
    if c.InLeft? {
      TreeIds(s, s[c.id].right, c.id, c.r);
    } else {
      TreeIds(s, s[c.id].left, c.id, c.l);
    }
  }

  // The tree seen one frame up.
  function ParentTree(c: Ctx, t: Tree): (p: Tree)
    requires !c.Top?
    ensures p.Node? && Plug(c, t) == Plug(c.up, p)
  {
    if c.InLeft? then Node(t, c.id, c.color, c.r) else Node(c.l, c.id, c.color, t)
  }

  lemma LookAround(s: seq<Symbol>, root: nat, c: Ctx, t: Tree)
    requires Rep(s, root, Plug(c, t))
    ensures RootId(t) < |s| && s[RootId(t)].color == RootColor(t)
    ensures t.Node? ==>
      t.id > 0 && s[t.id].parent == ParentId(c) && s[t.id].left == RootId(t.l) && s[t.id].right == RootId(t.r)
    ensures root == RootId(t) <==> c.Top?
    ensures !c.Top? ==>
      0 < c.id < |s| && s[c.id].parent == ParentId(c.up) && s[c.id].color == c.color && c.id != RootId(t)
    ensures c.InLeft? ==>
      && s[c.id].left == RootId(t) && s[c.id].right == RootId(c.r)
      && RootId(c.r) < |s| && s[RootId(c.r)].color == RootColor(c.r)
      && (t.Node? || c.r.Node? ==> RootId(t) != RootId(c.r))
    ensures c.InRight? ==>
      && s[c.id].right == RootId(t) && s[c.id].left == RootId(c.l)
      && RootId(c.l) < |s| && s[RootId(c.l)].color == RootColor(c.l)
      && (t.Node? || c.l.Node? ==> RootId(t) != RootId(c.l))
  {
    LookAt(s, root, c, t);
    if !c.Top? { LookUp(s, root, c, t); }
  }

  // The same tree seen from the children of the occupant, and from the sibling.
  lemma PlugDown(c: Ctx, t: Tree)
    requires t.Node?
    ensures Plug(InLeft(c, t.id, t.color, t.r), t.l) == Plug(c, t) == Plug(InRight(t.l, t.id, t.color, c), t.r)
  {
    assert t == Node(t.l, t.id, t.color, t.r);
  }

  function Sibling(c: Ctx): Tree
    requires !c.Top?
  {
    if c.InLeft? then c.r else c.l
  }

  function SiblingCtx(c: Ctx, t: Tree): Ctx
    requires !c.Top?
  {
    if c.InLeft? then InRight(t, c.id, c.color, c.up) else InLeft(c.up, c.id, c.color, t)
  }

  lemma PlugSibling(c: Ctx, t: Tree)
    requires !c.Top?
    ensures Plug(SiblingCtx(c, t), Sibling(c)) == Plug(c, t)
  {
  }

  lemma LookAtNephews(s: seq<Symbol>, root: nat, c: Ctx, t: Tree)
    requires Rep(s, root, Plug(c, t)) && !c.Top? && Sibling(c).Node?
    ensures var w := Sibling(c);
      && 0 < w.id < |s| && s[w.id].color == w.color
      && s[w.id].left == RootId(w.l) < |s| && s[w.id].right == RootId(w.r) < |s|
      && s[RootId(w.l)].color == RootColor(w.l) && s[RootId(w.r)].color == RootColor(w.r)
  {
    var d, w := SiblingCtx(c, t), Sibling(c);
    PlugSibling(c, t);
    LookAt(s, root, d, w);
    PlugDown(d, w);
    LookAt(s, root, InLeft(d, w.id, w.color, w.r), w.l);
    LookAt(s, root, InRight(w.l, w.id, w.color, d), w.r);
  }

  // ---------- recoloring ----------

  lemma Recolored(s: seq<Symbol>, s': seq<Symbol>, root: nat, c: Ctx, t: Tree, col: Color)
    requires Rep(s, root, Plug(c, t)) && t.Node? && t.id < |s|
    requires s' == s[t.id := s[t.id].(color := col)]
    ensures Rep(s', root, Plug(c, t.(color := col)))
  {
    var t' := t.(color := col);
    Focus(s, root, c, t);
    TreeIds(s, t.id, ParentId(c), t);
    CtxIdsValid(s, root, t.id, c);
    TreeFrame(s, s', s[t.id].left, t.id, t.l);
    TreeFrame(s, s', s[t.id].right, t.id, t.r);
    CtxFrame(s, s', root, t.id, c);
    Focus(s', root, c, t');
  }

  // ---------- rotations ----------

  function RotatedLeft(t: Tree): Tree
    requires t.Node? && t.r.Node?
  {
    Node(Node(t.l, t.id, t.color, t.r.l), t.r.id, t.r.color, t.r.r)
  }

  function RotatedRight(t: Tree): Tree
    requires t.Node? && t.l.Node?
  {
    Node(t.l.l, t.l.id, t.l.color, Node(t.l.r, t.id, t.color, t.r))
  }

  // A rotation keeps what the tree lists and in which order.
  lemma RotationsKeepOrder(t: Tree)
    requires t.Node?
    ensures t.r.Node? ==> InOrder(RotatedLeft(t)) == InOrder(t) && Ids(RotatedLeft(t)) == Ids(t)
    ensures t.l.Node? ==> InOrder(RotatedRight(t)) == InOrder(t) && Ids(RotatedRight(t)) == Ids(t)
  {
    if t.r.Node? { Turned(InOrder(t.l), t.id, InOrder(t.r.l), t.r.id, InOrder(t.r.r)); }
    if t.l.Node? { Turned(InOrder(t.l.l), t.l.id, InOrder(t.l.r), t.id, InOrder(t.r)); }
  }

  lemma Turned(a: seq<nat>, x: nat, b: seq<nat>, y: nat, d: seq<nat>)
    ensures a + [x] + (b + [y] + d) == (a + [x] + b) + [y] + d
  {
  }

  // The symbols of the rotated edge x-y, with b the subtree that changes sides.
  ghost predicate EdgeTurned(s: seq<Symbol>, s': seq<Symbol>, root: nat, root': nat, c: Ctx, ids: set<nat>,
                             b: Tree, x: nat, y: nat)
  {
    && |s'| == |s|
    && x < |s| && y < |s|
    && (b.Node? ==> b.id < |s| && s'[b.id] == s[b.id].(parent := x))
    && Relinked(s, s', root, root', y, c)
    && Same(s, s', ids - {x, y, RootId(b)})
    && s'[SENTINEL] == s[SENTINEL]
  }

  // Two nodes x and y and the three subtrees around the edge between them, all apart.
  ghost predicate EdgeParts(s: seq<Symbol>, root: nat, c: Ctx, x: nat, y: nat, a: Tree, b: Tree, d: Tree) {
    && SentinelOk(s) && IsCtx(s, root, x, c) && CtxDistinct(c) && Distinct(a) && Distinct(b) && Distinct(d)
    && 0 < x < |s| && 0 < y < |s| && x != y
    && Apart(Ids(a), Ids(b), Ids(d), CtxIds(c), x, y)
    && Inside(s, Ids(a) + Ids(b) + Ids(d))
  }

  ghost predicate Apart(a: set<nat>, b: set<nat>, d: set<nat>, c: set<nat>, x: nat, y: nat) {
    a !! b && a !! d && b !! d && a !! c && b !! c && d !! c && {x, y} !! (a + b + d + c)
  }

  ghost predicate Inside(s: seq<Symbol>, q: set<nat>) {
    forall i :: i in q ==> 0 < i < |s|
  }

  lemma LeftEdge(s: seq<Symbol>, root: nat, c: Ctx, t: Tree)
    requires Rep(s, root, Plug(c, t)) && t.Node? && t.r.Node?
    ensures EdgeParts(s, root, c, t.id, t.r.id, t.l, t.r.l, t.r.r)
    ensures IsTree(s, RootId(t.l), t.id, t.l)
    ensures IsTree(s, RootId(t.r.l), t.r.id, t.r.l) && IsTree(s, RootId(t.r.r), t.r.id, t.r.r)
  {
    Focus(s, root, c, t);
    var x := t.id;
    TreeIds(s, x, ParentId(c), t);
    assert IsTree(s, s[x].right, x, t.r) && Distinct(t.r);
    TreeIds(s, s[x].right, x, t.r);
    TreeIds(s, s[x].left, x, t.l);
    TreeIds(s, s[t.r.id].left, t.r.id, t.r.l);
    TreeIds(s, s[t.r.id].right, t.r.id, t.r.r);
  }

  lemma RightEdge(s: seq<Symbol>, root: nat, c: Ctx, t: Tree)
    requires Rep(s, root, Plug(c, t)) && t.Node? && t.l.Node?
    ensures EdgeParts(s, root, c, t.id, t.l.id, t.l.l, t.l.r, t.r)
    ensures IsTree(s, RootId(t.r), t.id, t.r)
    ensures IsTree(s, RootId(t.l.l), t.l.id, t.l.l) && IsTree(s, RootId(t.l.r), t.l.id, t.l.r)
  {
    Focus(s, root, c, t);
    var x := t.id;
    TreeIds(s, x, ParentId(c), t);
    assert IsTree(s, s[x].left, x, t.l) && Distinct(t.l);
    TreeIds(s, s[x].left, x, t.l);
    TreeIds(s, s[x].right, x, t.r);
    TreeIds(s, s[t.l.id].left, t.l.id, t.l.l);
    TreeIds(s, s[t.l.id].right, t.l.id, t.l.r);
  }

  // Turning the edge moves b below x, keeps a and d where they are, and puts y in the hole.
  lemma EdgeMoved(s: seq<Symbol>, s': seq<Symbol>, root: nat, root': nat, c: Ctx, x: nat, y: nat,
                  a: Tree, pa: nat, b: Tree, d: Tree, pd: nat)
    requires EdgeParts(s, root, c, x, y, a, b, d)
    requires IsTree(s, RootId(a), pa, a) && IsTree(s, RootId(b), y, b) && IsTree(s, RootId(d), pd, d)
    requires EdgeTurned(s, s', root, root', c, Ids(a) + Ids(b) + Ids(d), b, x, y)
    ensures SentinelOk(s') && IsCtx(s', root', y, c)
    ensures IsTree(s', RootId(a), pa, a) && IsTree(s', RootId(b), x, b) && IsTree(s', RootId(d), pd, d)
  {
    assert b.Node? ==> b.id in Ids(b);
    TreeFrame(s, s', RootId(a), pa, a);
    TreeMoved(s, s', RootId(b), y, x, b);
    TreeFrame(s, s', RootId(d), pd, d);
    CtxRelinked(s, s', root, root', x, y, c);
  }

  // Two nodes, three subtrees and a context make one tree.
  lemma Assemble(s: seq<Symbol>, root: nat, c: Ctx, u: Tree)
    requires u.Node? && u.l.Node? && SentinelOk(s) && IsCtx(s, root, u.id, c) && CtxDistinct(c)
    requires Distinct(u.l.l) && Distinct(u.l.r) && Distinct(u.r)
    requires Apart(Ids(u.l.l), Ids(u.l.r), Ids(u.r), CtxIds(c), u.l.id, u.id) && u.l.id != u.id
    requires IsTree(s, u.id, ParentId(c), u)
    ensures Rep(s, root, Plug(c, u))
  {
    assert Distinct(u.l) && Ids(u.l) == Ids(u.l.l) + {u.l.id} + Ids(u.l.r);
    assert Distinct(u) && Ids(u) !! CtxIds(c);
    Focus(s, root, c, u);
  }

  lemma AssembleRight(s: seq<Symbol>, root: nat, c: Ctx, u: Tree)
    requires u.Node? && u.r.Node? && SentinelOk(s) && IsCtx(s, root, u.id, c) && CtxDistinct(c)
    requires Distinct(u.l) && Distinct(u.r.l) && Distinct(u.r.r)
    requires Apart(Ids(u.l), Ids(u.r.l), Ids(u.r.r), CtxIds(c), u.id, u.r.id) && u.r.id != u.id
    requires IsTree(s, u.id, ParentId(c), u)
    ensures Rep(s, root, Plug(c, u))
  {
    assert Distinct(u.r) && Ids(u.r) == Ids(u.r.l) + {u.r.id} + Ids(u.r.r);
    assert Distinct(u) && Ids(u) !! CtxIds(c);
    Focus(s, root, c, u);
  }

  lemma RotateLeftRep(s: seq<Symbol>, s': seq<Symbol>, root: nat, root': nat, c: Ctx, t: Tree)
    requires Rep(s, root, Plug(c, t)) && t.Node? && t.r.Node?
    requires EdgeTurned(s, s', root, root', c, Ids(t.l) + Ids(t.r.l) + Ids(t.r.r), t.r.l, t.id, t.r.id)
    requires s'[t.id] == s[t.id].(right := RootId(t.r.l), parent := t.r.id)
    requires s'[t.r.id] == s[t.r.id].(left := t.id, parent := ParentId(c))
    ensures Rep(s', root', Plug(c, RotatedLeft(t)))
  {
    var x, y := t.id, t.r.id;
    LeftEdge(s, root, c, t);
    EdgeMoved(s, s', root, root', c, x, y, t.l, x, t.r.l, t.r.r, y);
    assert IsTree(s', y, ParentId(c), RotatedLeft(t)) by {
      LookAt(s, root, c, t);
      LookAt(s, root, InRight(t.l, x, t.color, c), t.r);
      assert IsTree(s', x, y, RotatedLeft(t).l);
    }
    Assemble(s', root', c, RotatedLeft(t));
  }

  lemma RotateRightRep(s: seq<Symbol>, s': seq<Symbol>, root: nat, root': nat, c: Ctx, t: Tree)
    requires Rep(s, root, Plug(c, t)) && t.Node? && t.l.Node?
    requires EdgeTurned(s, s', root, root', c, Ids(t.l.l) + Ids(t.l.r) + Ids(t.r), t.l.r, t.id, t.l.id)
    requires s'[t.id] == s[t.id].(left := RootId(t.l.r), parent := t.l.id)
    requires s'[t.l.id] == s[t.l.id].(right := t.id, parent := ParentId(c))
    ensures Rep(s', root', Plug(c, RotatedRight(t)))
  {
    var x, y := t.id, t.l.id;
    RightEdge(s, root, c, t);
    EdgeMoved(s, s', root, root', c, x, y, t.l.l, y, t.l.r, t.r, x);
    assert IsTree(s', y, ParentId(c), RotatedRight(t)) by {
      LookAt(s, root, c, t);
      LookAt(s, root, InLeft(c, x, t.color, t.r), t.l);
      assert IsTree(s', x, y, RotatedRight(t).r);
    }
    AssembleRight(s', root', c, RotatedRight(t));
  }
}
