// Why each round of the insert and delete repairs keeps the tree balanced and in order.
module Repair {
  import opened SymbolTree
  import opened RedBlack
  import opened Rotation

  // ---------- insert: a red node in the hole, possibly under a red parent ----------

  ghost predicate RedAt(c: Ctx, t: Tree) {
    t.Node? && t.color == Red && NoRedRed(t) && Balanced(t) && GoodCtx(c, BlackHeight(t))
  }

  lemma RedHasParent(c: Ctx, t: Tree)
    requires RedAt(c, t) && ParentColor(c) == Red
    ensures !c.Top? && !c.up.Top? && c.up.color == Black
  {
  }

  lemma RedAtEnd(c: Ctx, t: Tree)
    requires RedAt(c, t) && (c.Top? || c.color == Black)
    ensures Plug(c, t).Node? && RedBlackTree(Blackened(Plug(c, t)))
  {
    BalancedPlug(c, t);
    NoRedRedPlug(c, t);
    PlugNode(c, t);
  }

  lemma PlugNode(c: Ctx, t: Tree)
    requires t.Node?
    ensures Plug(c, t).Node?
    decreases c
  {
    match c
    case Top =>
    case InLeft(up, id, col, r) => PlugNode(up, Node(t, id, col, r));
    case InRight(l, id, col, up) => PlugNode(up, Node(l, id, col, t));
  }

  // A position of a red violation: t under red parent under black grandparent.
  lemma TwoFrames(c: Ctx, t: Tree)
    requires RedAt(c, t) && ParentColor(c) == Red
    ensures !c.Top? && !c.up.Top? && c.up.color == Black
    ensures var p, b := ParentTree(c, t), BlackHeight(t);
      Balanced(p) && BlackHeight(p) == b && NoRedRedBelow(p) && p.color == Red && GoodCtx(c.up, b)
    ensures var u, b := Sibling(c.up), BlackHeight(t);
      Balanced(u) && BlackHeight(u) == b && NoRedRed(u) && GoodCtx(c.up.up, b + 1)
    ensures RootColor(Sibling(c)) == Black && Balanced(Sibling(c)) && NoRedRed(Sibling(c))
        && BlackHeight(Sibling(c)) == BlackHeight(t)
  {
    RedHasParent(c, t);
  }

  function Blackened(t: Tree): Tree {
    if t.Leaf? then t else t.(color := Black)
  }

  lemma SameOrder(c: Ctx, t: Tree, t': Tree)
    requires InOrder(t) == InOrder(t')
    ensures InOrder(Plug(c, t)) == InOrder(Plug(c, t'))
  {
    InOrderPlug(c, t);
    InOrderPlug(c, t');
  }

  // Parent and uncle are red: both turn black and the violation moves to the grandparent.
  lemma UncleRedLeft(c: Ctx, t: Tree)
    requires RedAt(c, t) && ParentColor(c) == Red && c.up.InLeft? && RootColor(c.up.r) == Red
    ensures var t' := Node(Blackened(ParentTree(c, t)), c.up.id, Red, Blackened(c.up.r));
      RedAt(c.up.up, t') && InOrder(Plug(c.up.up, t')) == InOrder(Plug(c, t))
  {
    TwoFrames(c, t);
    var p := ParentTree(c, t);
    SameOrder(c.up.up, Node(p, c.up.id, Black, c.up.r), Node(Blackened(p), c.up.id, Red, Blackened(c.up.r)));
  }

  lemma UncleRedRight(c: Ctx, t: Tree)
    requires RedAt(c, t) && ParentColor(c) == Red && c.up.InRight? && RootColor(c.up.l) == Red
    ensures var t' := Node(Blackened(c.up.l), c.up.id, Red, Blackened(ParentTree(c, t)));
      RedAt(c.up.up, t') && InOrder(Plug(c.up.up, t')) == InOrder(Plug(c, t))
  {
    TwoFrames(c, t);
    var p := ParentTree(c, t);
    SameOrder(c.up.up, Node(c.up.l, c.up.id, Black, p), Node(Blackened(c.up.l), c.up.id, Red, Blackened(p)));
  }

  // An inner grandchild is rotated to the outside.
  lemma StraightenLeft(c: Ctx, t: Tree)
    requires RedAt(c, t) && ParentColor(c) == Red && c.InRight?
    ensures var c', t' := InLeft(c.up, t.id, Red, t.r), Node(c.l, c.id, Red, t.l);
      RedAt(c', t') && InOrder(Plug(c', t')) == InOrder(Plug(c, t))
  {
    TwoFrames(c, t);
    RotationsKeepOrder(ParentTree(c, t));
    SameOrder(c.up, Node(c.l, c.id, Red, t), Node(Node(c.l, c.id, Red, t.l), t.id, Red, t.r));
  }

  lemma StraightenRight(c: Ctx, t: Tree)
    requires RedAt(c, t) && ParentColor(c) == Red && c.InLeft?
    ensures var c', t' := InRight(t.l, t.id, Red, c.up), Node(t.r, c.id, Red, c.r);
      RedAt(c', t') && InOrder(Plug(c', t')) == InOrder(Plug(c, t))
  {
    TwoFrames(c, t);
    RotationsKeepOrder(ParentTree(c, t));
    SameOrder(c.up, Node(t, c.id, Red, c.r), Node(t.l, t.id, Red, Node(t.r, c.id, Red, c.r)));
  }

  // The uncle is black: the parent takes the place of the grandparent.
  lemma UncleBlackLeft(c: Ctx, t: Tree)
    requires RedAt(c, t) && ParentColor(c) == Red && c.InLeft? && c.up.InLeft? && RootColor(c.up.r) == Black
    ensures var c' := InLeft(c.up.up, c.id, Black, Node(c.r, c.up.id, Red, c.up.r));
      RedAt(c', t) && InOrder(Plug(c', t)) == InOrder(Plug(c, t))
  {
    TwoFrames(c, t);
    var g' := Node(c.r, c.up.id, Red, c.up.r);
    assert Balanced(g') && NoRedRed(g');
    SameOrder(c.up.up, Node(ParentTree(c, t), c.up.id, Black, c.up.r), Node(t, c.id, Black, g'));
  }

  lemma UncleBlackRight(c: Ctx, t: Tree)
    requires RedAt(c, t) && ParentColor(c) == Red && c.InRight? && c.up.InRight? && RootColor(c.up.l) == Black
    ensures var c' := InRight(Node(c.up.l, c.up.id, Red, c.l), c.id, Black, c.up.up);
      RedAt(c', t) && InOrder(Plug(c', t)) == InOrder(Plug(c, t))
  {
    TwoFrames(c, t);
    var g' := Node(c.up.l, c.up.id, Red, c.l);
    assert Balanced(g') && NoRedRed(g');
    SameOrder(c.up.up, Node(c.up.l, c.up.id, Black, ParentTree(c, t)), Node(g', c.id, Black, t));
  }

  // ---------- delete: the hole is one black node short ----------

  ghost predicate LightAt(c: Ctx, t: Tree) {
    Balanced(t) && NoRedRedBelow(t) && GoodCtx(c, BlackHeight(t) + 1)
  }

  // How far the light position can still climb.
  function LightMeasure(c: Ctx, t: Tree): nat {
    if c.Top? || RootColor(t) == Red then 0 else 1 + Depth(c)
  }

  lemma LightAtEnd(c: Ctx, t: Tree)
    requires LightAt(c, t) && (c.Top? || RootColor(t) == Red)
    ensures RedBlackTree(Plug(c, Blackened(t))) && InOrder(Plug(c, Blackened(t))) == InOrder(Plug(c, t))
  {
    RedBlackPlug(c, Blackened(t));
    SameOrder(c, t, Blackened(t));
  }

  lemma LightFrame(c: Ctx, t: Tree)
    requires LightAt(c, t) && RootColor(t) == Black && !c.Top?
    ensures var w, b := Sibling(c), BlackHeight(t);
      && w.Node? && Balanced(w) && NoRedRed(w) && BlackHeight(w) == b + 1
      && Balanced(w.l) && NoRedRed(w.l) && Balanced(w.r) && NoRedRed(w.r)
      && NoRedRed(t) && Balanced(t)
      && GoodCtx(c.up, b + 1 + Weight(c.color))
          && (c.color == Red ==> ParentColor(c.up) == Black && RootColor(w) == Black)
      && (c.up.Top? ==> c.color == Black)
  {
  }

  // The sibling is red: it takes the place of the parent.
  lemma SiblingRedLeft(c: Ctx, t: Tree)
    requires LightAt(c, t) && RootColor(t) == Black && c.InLeft? && RootColor(c.r) == Red
    ensures c.color == Black
    ensures var c' := InLeft(InLeft(c.up, c.r.id, Black, c.r.r), c.id, Red, c.r.l);
      LightAt(c', t) && InOrder(Plug(c', t)) == InOrder(Plug(c, t))
  {
    LightFrame(c, t);
    var c' := InLeft(InLeft(c.up, c.r.id, Black, c.r.r), c.id, Red, c.r.l);
    assert GoodCtx(c'.up, BlackHeight(t) + 1);
    SiblingRedOrderLeft(c, t);
  }

  lemma SiblingRedOrderLeft(c: Ctx, t: Tree)
    requires c.InLeft? && c.r.Node?
    ensures InOrder(Plug(InLeft(InLeft(c.up, c.r.id, Black, c.r.r), c.id, Red, c.r.l), t)) == InOrder(Plug(c, t))
  {
    RotationsKeepOrder(ParentTree(c, t));
    SameOrder(c.up, Node(t, c.id, c.color, c.r), Node(Node(t, c.id, Red, c.r.l), c.r.id, Black, c.r.r));
  }

  // Sibling and nephews are black: the sibling turns red and the parent becomes light.
  lemma SiblingLendsLeft(c: Ctx, t: Tree)
    requires LightAt(c, t) && RootColor(t) == Black && c.InLeft? && RootColor(c.r) == Black
    requires c.r.Node? && RootColor(c.r.l) == Black && RootColor(c.r.r) == Black
    ensures var t' := Node(t, c.id, c.color, c.r.(color := Red));
      LightAt(c.up, t') && InOrder(Plug(c.up, t')) == InOrder(Plug(c, t))
  {
    LightFrame(c, t);
    SameOrder(c.up, Node(t, c.id, c.color, c.r), Node(t, c.id, c.color, c.r.(color := Red)));
  }

  // The outer nephew is black, the inner one red: the inner nephew becomes the sibling.
  lemma NephewInLeft(c: Ctx, t: Tree)
    requires LightAt(c, t) && RootColor(t) == Black && c.InLeft? && RootColor(c.r) == Black
    requires c.r.Node? && RootColor(c.r.l) == Red && RootColor(c.r.r) == Black
    ensures var c' := InLeft(c.up, c.id, c.color, Node(c.r.l.l, c.r.l.id, Black, Node(c.r.l.r, c.r.id, Red, c.r.r)));
      LightAt(c', t) && InOrder(Plug(c', t)) == InOrder(Plug(c, t))
  {
    LightFrame(c, t);
    RotationsKeepOrder(Sibling(c));
    var w' := Node(c.r.l.l, c.r.l.id, Black, Node(c.r.l.r, c.r.id, Red, c.r.r));
    assert BlackHeight(c.r.l.l) == BlackHeight(c.r.l.r) == BlackHeight(t) == BlackHeight(c.r.r);
    assert Balanced(w'.r) && NoRedRed(w'.r);
    assert InOrder(w'.r) == InOrder(RotatedRight(c.r).r);
    assert InOrder(w') == InOrder(RotatedRight(c.r));
    assert Balanced(w') && NoRedRed(w') && BlackHeight(w') == BlackHeight(c.r);
    SameOrder(c.up, Node(t, c.id, c.color, c.r), Node(t, c.id, c.color, w'));
  }

  // The outer nephew is red: the sibling takes the place and color of the parent; done.
  lemma NephewOutLeft(c: Ctx, t: Tree)
    requires LightAt(c, t) && RootColor(t) == Black && c.InLeft? && RootColor(c.r) == Black
    requires c.r.Node? && RootColor(c.r.r) == Red
    ensures var t' := Plug(c.up, Node(Node(t, c.id, Black, c.r.l), c.r.id, c.color, c.r.r.(color := Black)));
      t'.Node? && LightAt(Top, t') && InOrder(t') == InOrder(Plug(c, t)) && RedBlackTree(t')
  {
    LightFrame(c, t);
    var t' := Node(Node(t, c.id, Black, c.r.l), c.r.id, c.color, c.r.r.(color := Black));
    PlugNode(c.up, t');
    NephewOutOrderLeft(c, t);
    assert Balanced(t'.l) && NoRedRed(t'.l) && BlackHeight(t'.l) == BlackHeight(t) + 1;
    assert Balanced(t'.r) && NoRedRed(t'.r) && BlackHeight(t'.r) == BlackHeight(t) + 1;
    RedBlackPlug(c.up, t');
  }

  lemma NephewOutOrderLeft(c: Ctx, t: Tree)
    requires c.InLeft? && c.r.Node? && c.r.r.Node?
    ensures InOrder(Plug(c.up, Node(Node(t, c.id, Black, c.r.l), c.r.id, c.color, c.r.r.(color := Black))))
        == InOrder(Plug(c, t))
  {
    var t' := Node(Node(t, c.id, Black, c.r.l), c.r.id, c.color, c.r.r.(color := Black));
    assert InOrder(t'.l) == InOrder(t) + [c.id] + InOrder(c.r.l);
    assert InOrder(t'.r) == InOrder(c.r.r);
    SameOrder(c.up, Node(t, c.id, c.color, c.r), t');
  }

  // The sibling is red: it takes the place of the parent.
  lemma SiblingRedRight(c: Ctx, t: Tree)
    requires LightAt(c, t) && RootColor(t) == Black && c.InRight? && RootColor(c.l) == Red
    ensures c.color == Black
    ensures var c' := InRight(c.l.r, c.id, Red, InRight(c.l.l, c.l.id, Black, c.up));
      LightAt(c', t) && InOrder(Plug(c', t)) == InOrder(Plug(c, t))
  {
    LightFrame(c, t);
    var c' := InRight(c.l.r, c.id, Red, InRight(c.l.l, c.l.id, Black, c.up));
    assert GoodCtx(c'.up, BlackHeight(t) + 1);
    SiblingRedOrderRight(c, t);
  }

  lemma SiblingRedOrderRight(c: Ctx, t: Tree)
    requires c.InRight? && c.l.Node?
    ensures InOrder(Plug(InRight(c.l.r, c.id, Red, InRight(c.l.l, c.l.id, Black, c.up)), t)) == InOrder(Plug(c, t))
  {
    RotationsKeepOrder(ParentTree(c, t));
    SameOrder(c.up, Node(c.l, c.id, c.color, t), Node(c.l.l, c.l.id, Black, Node(c.l.r, c.id, Red, t)));
  }

  // Sibling and nephews are black: the sibling turns red and the parent becomes light.
  lemma SiblingLendsRight(c: Ctx, t: Tree)
    requires LightAt(c, t) && RootColor(t) == Black && c.InRight? && RootColor(c.l) == Black
    requires c.l.Node? && RootColor(c.l.r) == Black && RootColor(c.l.l) == Black
    ensures var t' := Node(c.l.(color := Red), c.id, c.color, t);
      LightAt(c.up, t') && InOrder(Plug(c.up, t')) == InOrder(Plug(c, t))
  {
    LightFrame(c, t);
    SameOrder(c.up, Node(c.l, c.id, c.color, t), Node(c.l.(color := Red), c.id, c.color, t));
  }

  // The outer nephew is black, the inner one red: the inner nephew becomes the sibling.
  lemma NephewInRight(c: Ctx, t: Tree)
    requires LightAt(c, t) && RootColor(t) == Black && c.InRight? && RootColor(c.l) == Black
    requires c.l.Node? && RootColor(c.l.r) == Red && RootColor(c.l.l) == Black
    ensures var c' := InRight(Node(Node(c.l.l, c.l.id, Red, c.l.r.l), c.l.r.id, Black, c.l.r.r), c.id, c.color, c.up);
      LightAt(c', t) && InOrder(Plug(c', t)) == InOrder(Plug(c, t))
  {
    LightFrame(c, t);
    RotationsKeepOrder(Sibling(c));
    var w' := Node(Node(c.l.l, c.l.id, Red, c.l.r.l), c.l.r.id, Black, c.l.r.r);
    assert BlackHeight(c.l.r.r) == BlackHeight(c.l.r.l) == BlackHeight(t) == BlackHeight(c.l.l);
    assert Balanced(w'.l) && NoRedRed(w'.l);
    assert InOrder(w'.l) == InOrder(RotatedLeft(c.l).l);
    assert InOrder(w') == InOrder(RotatedLeft(c.l));
    assert Balanced(w') && NoRedRed(w') && BlackHeight(w') == BlackHeight(c.l);
    SameOrder(c.up, Node(c.l, c.id, c.color, t), Node(w', c.id, c.color, t));
  }

  // The outer nephew is red: the sibling takes the place and color of the parent; done.
  lemma NephewOutRight(c: Ctx, t: Tree)
    requires LightAt(c, t) && RootColor(t) == Black && c.InRight? && RootColor(c.l) == Black
    requires c.l.Node? && RootColor(c.l.l) == Red
    ensures var t' := Plug(c.up, Node(c.l.l.(color := Black), c.l.id, c.color, Node(c.l.r, c.id, Black, t)));
      t'.Node? && LightAt(Top, t') && InOrder(t') == InOrder(Plug(c, t)) && RedBlackTree(t')
  {
    LightFrame(c, t);
    var t' := Node(c.l.l.(color := Black), c.l.id, c.color, Node(c.l.r, c.id, Black, t));
    PlugNode(c.up, t');
    NephewOutOrderRight(c, t);
    assert Balanced(t'.r) && NoRedRed(t'.r) && BlackHeight(t'.r) == BlackHeight(t) + 1;
    assert Balanced(t'.l) && NoRedRed(t'.l) && BlackHeight(t'.l) == BlackHeight(t) + 1;
    RedBlackPlug(c.up, t');
  }

  lemma NephewOutOrderRight(c: Ctx, t: Tree)
    requires c.InRight? && c.l.Node? && c.l.l.Node?
    ensures InOrder(Plug(c.up, Node(c.l.l.(color := Black), c.l.id, c.color, Node(c.l.r, c.id, Black, t))))
        == InOrder(Plug(c, t))
  {
    var t' := Node(c.l.l.(color := Black), c.l.id, c.color, Node(c.l.r, c.id, Black, t));
    assert InOrder(t'.r) == InOrder(c.l.r) + [c.id] + InOrder(t);
    assert InOrder(t'.l) == InOrder(c.l.l);
    SameOrder(c.up, Node(c.l, c.id, c.color, t), t');
  }
}
