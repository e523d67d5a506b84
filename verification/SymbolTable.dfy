// The symbol table of one context: a red-black tree with parent links in an arena of
// symbols, whose leaves are one shared sentinel.
module SymbolTable {
  import opened Names
  import opened SymbolTree
  import opened RedBlack
  import opened Rotation
  import opened Removal
  import opened Repair
  import opened NameMaps

  datatype Op = Insert(key: Name) | Lookup(key: Name) | Delete(key: Name)

  // What a table is to its callers: a finite map, and the symbol the next creation yields.
  datatype Model = Model(m: map<Name, nat>, next: nat)

  function Apply(s: Model, op: Op): (Model, int) {
    match op
    case Insert(key) => if key in s.m then (s, s.m[key]) else (Model(s.m[key := s.next], s.next + 1), s.next)
    case Lookup(key) => (s, if key in s.m then s.m[key] else NULL)
    case Delete(key) => (Model(s.m - {key}, s.next), if key in s.m then 1 else 0)
  }

  function Replay(s: Model, ops: seq<Op>): (Model, seq<int>) {
    if ops == [] then (s, [])
    else
      var (s', answers) := Replay(s, ops[..|ops| - 1]);
      var (s'', a) := Apply(s', ops[|ops| - 1]);
      (s'', answers + [a])
  }

  class Table {
    var nodes: seq<Symbol>
    var root: int
    var symbolCount: int
    ghost var tree: Tree

    // An empty table has no root (NULL) until its first symbol is entered, and the sentinel
    // as root after its last symbol was deleted.
    ghost predicate Valid()
      reads this
    {
      && root >= NULL && Rep(nodes, RootNode(), tree)
      && RedBlackTree(tree) && Sorted(nodes, InOrder(tree))
    }

    // The table as a map from names to symbols.
    ghost function Map(): map<Name, nat>
      reads this
      requires Valid()
    {
      NameMap(nodes, tree)
    }

    function RootNode(): nat
      reads this
      requires root >= NULL
    {
      if root == NULL then SENTINEL else root
    }

    constructor ()
      ensures Valid() && Map() == map[] && root == NULL
    {
      nodes := [Symbol([], Black, NULL, SENTINEL, SENTINEL)];
      root := NULL;
      symbolCount := 0;
      tree := Leaf;
    }

    // The walk down the tree that lookup, insertion and deletion begin with.
    method Descend(key: Name) returns (current: nat, parent: int, ghost c: Ctx, ghost t: Tree)
      requires Valid() && key != []
      ensures Plug(c, t) == tree && current == RootId(t) && parent == ParentId(c)
      ensures t.Leaf? ==> Around(nodes, c, key)
      ensures t.Node? ==> 0 < t.id < |nodes| && nodes[t.id].name == key
    {
      current := RootNode();
      parent := NULL;
      c, t := Top, tree;
      LookAt(nodes, RootNode(), c, t);
      while current != SENTINEL
        invariant Plug(c, t) == tree && Around(nodes, c, key)
        invariant current == RootId(t) && parent == ParentId(c)
        decreases t
      {
        LookAt(nodes, RootNode(), c, t);
        NodeInOrder(nodes, c, t);
        PlugDown(c, t);
        CompareIsOrder(key, nodes[current].name);
        var d := Compare(key, nodes[current].name);
        if d == 0 {
          return;
        }
        parent := current;
        if d < 0 {
          DescendLeft(nodes, c, t, key);
          current := nodes[current].left;
          c, t := InLeft(c, t.id, t.color, t.r), t.l;
        } else {
          DescendRight(nodes, c, t, key);
          current := nodes[current].right;
          c, t := InRight(t.l, t.id, t.color, c), t.r;
        }
      }
      LookAt(nodes, RootNode(), c, t);
    }
    // The tree rooted at the root field.
    ghost predicate Holds(t: Tree)
      reads this
    {
      root >= 0 && Rep(nodes, root, t)
    }

    method SetColor(x: nat, col: Color, ghost c: Ctx, ghost t: Tree)
      requires Holds(Plug(c, t)) && t.Node? && t.id == x
      modifies this`nodes
      ensures Holds(Plug(c, t.(color := col)))
      ensures x < |old(nodes)| && x != SENTINEL && nodes == old(nodes)[x := old(nodes)[x].(color := col)]
    {
      LookAt(nodes, root, c, t);
      nodes := nodes[x := nodes[x].(color := col)];
      Recolored(old(nodes), nodes, root, c, t, col);
    }

    // Where p pointed to its child x it now points to y; without a parent, y is the root.
    method RelinkLeft(p: int, x: nat, y: nat)
      requires NULL <= p < |nodes|
      modifies this`nodes, this`root
      ensures p == NULL ==> nodes == old(nodes) && root == y
      ensures p != NULL ==> root == old(root) && nodes == old(nodes)[p :=
        if old(nodes)[p].left == x then old(nodes)[p].(left := y) else old(nodes)[p].(right := y)]
    {
      if p != NULL {
        if x == nodes[p].left {
          nodes := nodes[p := nodes[p].(left := y)];
        } else {
          nodes := nodes[p := nodes[p].(right := y)];
        }
      } else {
        root := y;
      }
    }

    method RelinkRight(p: int, x: nat, y: nat)
      requires NULL <= p < |nodes|
      modifies this`nodes, this`root
      ensures p == NULL ==> nodes == old(nodes) && root == y
      ensures p != NULL ==> root == old(root) && nodes == old(nodes)[p :=
        if old(nodes)[p].right == x then old(nodes)[p].(right := y) else old(nodes)[p].(left := y)]
    {
      if p != NULL {
        if x == nodes[p].right {
          nodes := nodes[p := nodes[p].(right := y)];
        } else {
          nodes := nodes[p := nodes[p].(left := y)];
        }
      } else {
        root := y;
      }
    }

    method RotateLeft(x: nat)
      requires |nodes| > 0
      requires x < |nodes| && 0 < nodes[x].right < |nodes| && nodes[nodes[x].right].left < |nodes|
      requires NULL <= nodes[x].parent < |nodes|
      requires var y := nodes[x].right; PairwiseApart(x, y, nodes[y].left, nodes[x].parent)
      modifies this`nodes, this`root
      ensures var y := old(nodes[x].right); var b := old(nodes[y].left); var p := old(nodes[x].parent);
        && |nodes| == |old(nodes)|
        && nodes[x] == old(nodes[x]).(right := b, parent := y)
        && nodes[y] == old(nodes[y]).(left := x, parent := p)
        && (b != SENTINEL ==> nodes[b] == old(nodes[b]).(parent := x))
        && (p != NULL ==>
              nodes[p] ==
              if old(nodes[p].left) == x then old(nodes[p]).(left := y) else old(nodes[p]).(right := y))
        && root == (if p == NULL then y else old(root))
        && (forall i :: 0 <= i < |nodes| && i != x && i != y && (i == b ==> b == SENTINEL) && i != p ==>
              nodes[i] == old(nodes)[i])
    {
      var y := nodes[x].right;
      // establish x.right link
      nodes := nodes[x := nodes[x].(right := nodes[y].left)];
      if nodes[y].left != SENTINEL {
        var b := nodes[y].left;
        nodes := nodes[b := nodes[b].(parent := x)];
      }
      // establish y.parent link
      if y != SENTINEL {
        nodes := nodes[y := nodes[y].(parent := nodes[x].parent)];
      }
      RelinkLeft(nodes[x].parent, x, y);
      // link x and y
      nodes := nodes[y := nodes[y].(left := x)];
      if x != SENTINEL {
        nodes := nodes[x := nodes[x].(parent := y)];
      }
    }

    method RotateLeftAt(x: nat, ghost c: Ctx, ghost t: Tree)
      requires Holds(Plug(c, t)) && t.Node? && t.id == x && t.r.Node?
      modifies this`nodes, this`root
      ensures Holds(Plug(c, RotatedLeft(t)))
      ensures SameNames(old(nodes), nodes) && nodes[SENTINEL] == old(nodes[SENTINEL])
    {
      RotateLeftSymbols(nodes, root, c, t);
      RotateLeft(x);
      RotateLeftRep(old(nodes), nodes, old(root), root, c, t);
    }
    method RotateRight(x: nat)
      requires |nodes| > 0
      requires x < |nodes| && 0 < nodes[x].left < |nodes| && nodes[nodes[x].left].right < |nodes|
      requires NULL <= nodes[x].parent < |nodes|
      requires var y := nodes[x].left; PairwiseApart(x, y, nodes[y].right, nodes[x].parent)
      modifies this`nodes, this`root
      ensures var y := old(nodes[x].left); var b := old(nodes[y].right); var p := old(nodes[x].parent);
        && |nodes| == |old(nodes)|
        && nodes[x] == old(nodes[x]).(left := b, parent := y)
        && nodes[y] == old(nodes[y]).(right := x, parent := p)
        && (b != SENTINEL ==> nodes[b] == old(nodes[b]).(parent := x))
        && (p != NULL ==>
              nodes[p] ==
              if old(nodes[p].right) == x then old(nodes[p]).(right := y) else old(nodes[p]).(left := y))
        && root == (if p == NULL then y else old(root))
        && (forall i :: 0 <= i < |nodes| && i != x && i != y && (i == b ==> b == SENTINEL) && i != p ==>
              nodes[i] == old(nodes)[i])
    {
      var y := nodes[x].left;
      // establish x.left link
      nodes := nodes[x := nodes[x].(left := nodes[y].right)];
      if nodes[y].right != SENTINEL {
        var b := nodes[y].right;
        nodes := nodes[b := nodes[b].(parent := x)];
      }
      // establish y.parent link
      if y != SENTINEL {
        nodes := nodes[y := nodes[y].(parent := nodes[x].parent)];
      }
      RelinkRight(nodes[x].parent, x, y);
      // link x and y
      nodes := nodes[y := nodes[y].(right := x)];
      if x != SENTINEL {
        nodes := nodes[x := nodes[x].(parent := y)];
      }
    }

    method RotateRightAt(x: nat, ghost c: Ctx, ghost t: Tree)
      requires Holds(Plug(c, t)) && t.Node? && t.id == x && t.l.Node?
      modifies this`nodes, this`root
      ensures Holds(Plug(c, RotatedRight(t)))
      ensures SameNames(old(nodes), nodes) && nodes[SENTINEL] == old(nodes[SENTINEL])
    {
      RotateRightSymbols(nodes, root, c, t);
      RotateRight(x);
      RotateRightRep(old(nodes), nodes, old(root), root, c, t);
    }

    // One round when the parent of x is a left child.
    method InsertFixLeft(x0: nat, ghost c0: Ctx, ghost t0: Tree) returns (x: nat, ghost c: Ctx, ghost t: Tree)
      requires Holds(Plug(c0, t0)) && RedAt(c0, t0) && t0.id == x0
      requires !c0.Top? && c0.color == Red && c0.up.InLeft?
      modifies this`nodes, this`root
      ensures Holds(Plug(c, t)) && RedAt(c, t) && t.id == x && Depth(c) < Depth(c0)
      ensures InOrder(Plug(c, t)) == InOrder(Plug(c0, t0))
      ensures SameNames(old(nodes), nodes) && nodes[SENTINEL] == old(nodes[SENTINEL])
    {
      x, c, t := x0, c0, t0;
      LookAround(nodes, root, c, t);
      LookAround(nodes, root, c.up, ParentTree(c, t));
      var y := nodes[nodes[nodes[x].parent].parent].right;
      if nodes[y].color == Red {
        // uncle is red
        UncleRedLeft(c, t);
        ghost var up, g, p, u := c.up.up, c.up.id, ParentTree(c, t), c.up.r;
        SetColor(nodes[x].parent, Black, c.up, p);
        SetColor(y, Black, InRight(p.(color := Black), g, c.up.color, up), u);
        SetColor(nodes[nodes[x].parent].parent, Red, up, Node(p.(color := Black), g, c.up.color, u.(color := Black)));
        x := nodes[nodes[x].parent].parent;
        c, t := up, Node(p.(color := Black), g, Red, u.(color := Black));
      } else {
        // uncle is black
        x, c, t := InsertTurnLeft(x, c, t);
      }
    }

    method InsertTurnLeft(x0: nat, ghost c0: Ctx, ghost t0: Tree) returns (x: nat, ghost c: Ctx, ghost t: Tree)
      requires Holds(Plug(c0, t0)) && RedAt(c0, t0) && t0.id == x0
      requires !c0.Top? && c0.color == Red && c0.up.InLeft? && RootColor(c0.up.r) == Black
      modifies this`nodes, this`root
      ensures Holds(Plug(c, t)) && RedAt(c, t) && t.id == x && Depth(c) < Depth(c0)
      ensures InOrder(Plug(c, t)) == InOrder(Plug(c0, t0))
      ensures SameNames(old(nodes), nodes) && nodes[SENTINEL] == old(nodes[SENTINEL])
    {
      x, c, t := x0, c0, t0;
      LookAround(nodes, root, c, t);
      if x == nodes[nodes[x].parent].right {
        // make x a left child
        x := nodes[x].parent;
        RotateLeftAt(x, c.up, ParentTree(c, t));
        StraightenLeft(c, t);
        c, t := InLeft(c.up, t.id, Red, t.r), Node(c.l, c.id, Red, t.l);
        LookAround(nodes, root, c, t);
      }
      // recolor and rotate
      c := LiftParentLeft(x, c, t);
    }

    method LiftParentLeft(x: nat, ghost c0: Ctx, ghost t: Tree) returns (ghost c: Ctx)
      requires Holds(Plug(c0, t)) && RedAt(c0, t) && t.id == x
      requires c0.InLeft? && c0.color == Red && c0.up.InLeft? && RootColor(c0.up.r) == Black
      modifies this`nodes, this`root
      ensures Holds(Plug(c, t)) && RedAt(c, t) && Depth(c) < Depth(c0)
      ensures InOrder(Plug(c, t)) == InOrder(Plug(c0, t))
      ensures SameNames(old(nodes), nodes) && nodes[SENTINEL] == old(nodes[SENTINEL])
    {
      c := c0;
      LookAround(nodes, root, c, t);
      UncleBlackLeft(c, t);
      LookAround(nodes, root, c.up, ParentTree(c, t));
      ghost var up, g, p, u := c.up.up, c.up.id, ParentTree(c, t), c.up.r;
      SetColor(nodes[x].parent, Black, c.up, p);
      SetColor(nodes[nodes[x].parent].parent, Red, up, Node(p.(color := Black), g, Black, u));
      RotateRightAt(nodes[nodes[x].parent].parent, up, Node(p.(color := Black), g, Red, u));
      c := InLeft(up, c.id, Black, Node(c.r, g, Red, u));
    }

    // One round when the parent of x is a right child.
    method InsertFixRight(x0: nat, ghost c0: Ctx, ghost t0: Tree) returns (x: nat, ghost c: Ctx, ghost t: Tree)
      requires Holds(Plug(c0, t0)) && RedAt(c0, t0) && t0.id == x0
      requires !c0.Top? && c0.color == Red && c0.up.InRight?
      modifies this`nodes, this`root
      ensures Holds(Plug(c, t)) && RedAt(c, t) && t.id == x && Depth(c) < Depth(c0)
      ensures InOrder(Plug(c, t)) == InOrder(Plug(c0, t0))
      ensures SameNames(old(nodes), nodes) && nodes[SENTINEL] == old(nodes[SENTINEL])
    {
      x, c, t := x0, c0, t0;
      LookAround(nodes, root, c, t);
      LookAround(nodes, root, c.up, ParentTree(c, t));
      var y := nodes[nodes[nodes[x].parent].parent].left;
      if nodes[y].color == Red {
        // uncle is red
        UncleRedRight(c, t);
        ghost var up, g, p, u := c.up.up, c.up.id, ParentTree(c, t), c.up.l;
        SetColor(nodes[x].parent, Black, c.up, p);
        SetColor(y, Black, InLeft(up, g, c.up.color, p.(color := Black)), u);
        SetColor(nodes[nodes[x].parent].parent, Red, up, Node(u.(color := Black), g, c.up.color, p.(color := Black)));
        x := nodes[nodes[x].parent].parent;
        c, t := up, Node(u.(color := Black), g, Red, p.(color := Black));
      } else {
        // uncle is black
        x, c, t := InsertTurnRight(x, c, t);
      }
    }

    method InsertTurnRight(x0: nat, ghost c0: Ctx, ghost t0: Tree) returns (x: nat, ghost c: Ctx, ghost t: Tree)
      requires Holds(Plug(c0, t0)) && RedAt(c0, t0) && t0.id == x0
      requires !c0.Top? && c0.color == Red && c0.up.InRight? && RootColor(c0.up.l) == Black
      modifies this`nodes, this`root
      ensures Holds(Plug(c, t)) && RedAt(c, t) && t.id == x && Depth(c) < Depth(c0)
      ensures InOrder(Plug(c, t)) == InOrder(Plug(c0, t0))
      ensures SameNames(old(nodes), nodes) && nodes[SENTINEL] == old(nodes[SENTINEL])
    {
      x, c, t := x0, c0, t0;
      LookAround(nodes, root, c, t);
      if x == nodes[nodes[x].parent].left {
        // make x a right child
        x := nodes[x].parent;
        RotateRightAt(x, c.up, ParentTree(c, t));
        StraightenRight(c, t);
        c, t := InRight(t.l, t.id, Red, c.up), Node(t.r, c.id, Red, c.r);
        LookAround(nodes, root, c, t);
      }
      // recolor and rotate
      c := LiftParentRight(x, c, t);
    }

    method LiftParentRight(x: nat, ghost c0: Ctx, ghost t: Tree) returns (ghost c: Ctx)
      requires Holds(Plug(c0, t)) && RedAt(c0, t) && t.id == x
      requires c0.InRight? && c0.color == Red && c0.up.InRight? && RootColor(c0.up.l) == Black
      modifies this`nodes, this`root
      ensures Holds(Plug(c, t)) && RedAt(c, t) && Depth(c) < Depth(c0)
      ensures InOrder(Plug(c, t)) == InOrder(Plug(c0, t))
      ensures SameNames(old(nodes), nodes) && nodes[SENTINEL] == old(nodes[SENTINEL])
    {
      c := c0;
      LookAround(nodes, root, c, t);
      UncleBlackRight(c, t);
      LookAround(nodes, root, c.up, ParentTree(c, t));
      ghost var up, g, p, u := c.up.up, c.up.id, ParentTree(c, t), c.up.l;
      SetColor(nodes[x].parent, Black, c.up, p);
      SetColor(nodes[nodes[x].parent].parent, Red, up, Node(u, g, Black, p.(color := Black)));
      RotateLeftAt(nodes[nodes[x].parent].parent, up, Node(u, g, Red, p.(color := Black)));
      c := InRight(Node(u, g, Red, c.l), c.id, Black, up);
    }

    // Repair a red node x under a red parent, walking up the tree.
    method InsertFixup(x0: nat, ghost c0: Ctx, ghost t0: Tree) returns (ghost t': Tree)
      requires Holds(Plug(c0, t0)) && RedAt(c0, t0) && t0.id == x0
      modifies this`nodes, this`root
      ensures Holds(t') && RedBlackTree(t')
      ensures InOrder(t') == InOrder(Plug(c0, t0))
      ensures SameNames(old(nodes), nodes) && nodes[SENTINEL] == old(nodes[SENTINEL])
    {
      var x := x0;
      ghost var c, t := c0, t0;
      LookAround(nodes, root, c, t);
      while x != root && nodes[nodes[x].parent].color == Red
        invariant Holds(Plug(c, t)) && RedAt(c, t) && t.id == x
        invariant InOrder(Plug(c, t)) == InOrder(Plug(c0, t0))
        invariant SameNames(old(nodes), nodes) && nodes[SENTINEL] == old(nodes[SENTINEL])
        invariant x < |nodes| && (x == root <==> c.Top?)
        invariant !c.Top? ==> nodes[x].parent == c.id < |nodes| && nodes[c.id].color == c.color
        decreases Depth(c)
      {
        RedHasParent(c, t);
        LookAround(nodes, root, c.up, ParentTree(c, t));
        // we have a violation
        if nodes[x].parent == nodes[nodes[nodes[x].parent].parent].left {
          x, c, t := InsertFixLeft(x, c, t);
        } else {
          x, c, t := InsertFixRight(x, c, t);
        }
        LookAround(nodes, root, c, t);
      }
      t' := Plug(c, t);
      RedAtEnd(c, t);
      LookAround(nodes, root, Top, t');
      SetColor(root, Black, Top, t');
      t' := t'.(color := Black);
    }

    // One round when the light position x is a left child.
    method DeleteFixLeft(x0: nat, ghost c0: Ctx, ghost t0: Tree) returns (x: nat, ghost c: Ctx, ghost t: Tree)
      requires Holds(Plug(c0, t0)) && LightAt(c0, t0) && RootColor(t0) == Black && RootId(t0) == x0 && c0.InLeft?
      requires x0 < |nodes| && nodes[x0].parent == c0.id
      modifies this`nodes, this`root
      ensures Holds(Plug(c, t)) && LightAt(c, t) && RootId(t) == x && LightMeasure(c, t) < LightMeasure(c0, t0)
      ensures x < |nodes| && nodes[x].parent == ParentId(c)
      ensures InOrder(Plug(c, t)) == InOrder(Plug(c0, t0))
      ensures SameNames(old(nodes), nodes)
    {
      x, c, t := x0, c0, t0;
      LookAround(nodes, root, c, t);
      LightFrame(c, t);
      var w := nodes[nodes[x].parent].right;
      if nodes[w].color == Red {
        w, c := SiblingUpLeft(x, w, c, t);
      }
      x, c, t := DeleteSettleLeft(x, w, c, t);
    }

    // The sibling w of the light position x is black.
    method DeleteSettleLeft(x0: nat, w: nat, ghost c0: Ctx, ghost t0: Tree)
      returns (x: nat, ghost c: Ctx, ghost t: Tree)
      requires Holds(Plug(c0, t0)) && LightAt(c0, t0) && RootColor(t0) == Black && RootId(t0) == x0 && c0.InLeft?
      requires RootColor(c0.r) == Black && w == RootId(c0.r)
      requires x0 < |nodes| && nodes[x0].parent == c0.id
      modifies this`nodes, this`root
      ensures Holds(Plug(c, t)) && LightAt(c, t) && RootId(t) == x
      ensures LightMeasure(c, t) <= if c0.color == Red then 0 else Depth(c0)
      ensures x < |nodes| && nodes[x].parent == ParentId(c)
      ensures InOrder(Plug(c, t)) == InOrder(Plug(c0, t0))
      ensures SameNames(old(nodes), nodes)
    {
      x, c, t := x0, c0, t0;
      LightFrame(c, t);
      LookAtNephews(nodes, root, c, t);
      if nodes[nodes[w].left].color == Black && nodes[nodes[w].right].color == Black {
        SiblingLendsLeft(c, t);
        PlugSibling(c, t);
        SetColor(w, Red, InRight(t, c.id, c.color, c.up), c.r);
        x := nodes[x].parent;
        c, t := c.up, Node(t, c.id, c.color, c.r.(color := Red));
        LookAround(nodes, root, c, t);
      } else {
        t := NephewUpLeft(x, w, c, t);
        x, c := root, Top;
        LookAround(nodes, root, c, t);
      }
    }

    // The red sibling w moves above the parent; the new sibling is black.
    method SiblingUpLeft(x: nat, w0: nat, ghost c0: Ctx, ghost t: Tree) returns (w: nat, ghost c: Ctx)
      requires Holds(Plug(c0, t)) && LightAt(c0, t) && RootColor(t) == Black && RootId(t) == x && c0.InLeft?
      requires RootColor(c0.r) == Red && w0 == c0.r.id
      requires x < |nodes| && nodes[x].parent == c0.id
      modifies this`nodes, this`root
      ensures Holds(Plug(c, t)) && LightAt(c, t) && c.InLeft? && c.color == Red && RootColor(c.r) == Black
          && w == RootId(c.r)
      ensures x < |nodes| && nodes[x].parent == c.id
      ensures InOrder(Plug(c, t)) == InOrder(Plug(c0, t))
      ensures SameNames(old(nodes), nodes)
    {
      w, c := w0, c0;
      LookAround(nodes, root, c, t);
      SiblingRedLeft(c, t);
      ghost var up, p, s := c.up, c.id, c.r;
      SetColor(w, Black, InRight(t, p, c.color, up), s);
      SetColor(nodes[x].parent, Red, up, Node(t, p, c.color, s.(color := Black)));
      RotateLeftAt(nodes[x].parent, up, Node(t, p, Red, s.(color := Black)));
      c := InLeft(InLeft(up, s.id, Black, s.r), p, Red, s.l);
      LookAround(nodes, root, c, t);
      w := nodes[nodes[x].parent].right;
    }

    // A red nephew of x moves up; afterwards the whole tree is red-black again.
    method NephewUpLeft(x: nat, w0: nat, ghost c0: Ctx, ghost t: Tree) returns (ghost t': Tree)
      requires Holds(Plug(c0, t)) && LightAt(c0, t) && RootColor(t) == Black && RootId(t) == x && c0.InLeft?
      requires RootColor(c0.r) == Black && c0.r.Node? && w0 == c0.r.id
          && !(RootColor(c0.r.l) == Black && RootColor(c0.r.r) == Black)
      requires x < |nodes| && nodes[x].parent == c0.id
      modifies this`nodes, this`root
      ensures Holds(t') && LightAt(Top, t') && t'.Node?
      ensures InOrder(t') == InOrder(Plug(c0, t))
      ensures SameNames(old(nodes), nodes)
    {
      var w := w0;
      ghost var c := c0;
      LookAtNephews(nodes, root, c, t);
      if nodes[nodes[w].right].color == Black {
        w, c := NephewOverLeft(x, w, c, t);
      }
      t' := NephewOutLeftStep(x, w, c, t);
    }

    method NephewOverLeft(x: nat, w0: nat, ghost c0: Ctx, ghost t: Tree) returns (w: nat, ghost c: Ctx)
      requires Holds(Plug(c0, t)) && LightAt(c0, t) && RootColor(t) == Black && RootId(t) == x && c0.InLeft?
      requires RootColor(c0.r) == Black && c0.r.Node? && w0 == c0.r.id && RootColor(c0.r.l) == Red
          && RootColor(c0.r.r) == Black
      requires x < |nodes| && nodes[x].parent == c0.id
      modifies this`nodes, this`root
      ensures Holds(Plug(c, t)) && LightAt(c, t) && c.InLeft?
      ensures RootColor(c.r) == Black && c.r.Node? && w == c.r.id && RootColor(c.r.r) == Red
      ensures x < |nodes| && nodes[x].parent == c.id
      ensures InOrder(Plug(c, t)) == InOrder(Plug(c0, t))
      ensures SameNames(old(nodes), nodes)
    {
      w, c := w0, c0;
      NephewInLeft(c, t);
      ghost var d, s := InRight(t, c.id, c.color, c.up), c.r;
      PlugSibling(c, t);
      PlugDown(d, s);
      LookAround(nodes, root, InLeft(d, s.id, s.color, s.r), s.l);
      SetColor(nodes[w].left, Black, InLeft(d, s.id, s.color, s.r), s.l);
      SetColor(w, Red, d, Node(s.l.(color := Black), s.id, s.color, s.r));
      RotateRightAt(w, d, Node(s.l.(color := Black), s.id, Red, s.r));
      c := InLeft(c.up, c.id, c.color, Node(s.l.l, s.l.id, Black, Node(s.l.r, s.id, Red, s.r)));
      LookAround(nodes, root, c, t);
      w := nodes[nodes[x].parent].right;
    }

    method NephewOutLeftStep(x: nat, w: nat, ghost c: Ctx, ghost t: Tree) returns (ghost t': Tree)
      requires Holds(Plug(c, t)) && LightAt(c, t) && RootColor(t) == Black && RootId(t) == x && c.InLeft?
      requires RootColor(c.r) == Black && c.r.Node? && w == c.r.id && RootColor(c.r.r) == Red
      requires x < |nodes| && nodes[x].parent == c.id
      modifies this`nodes, this`root
      ensures Holds(t') && LightAt(Top, t') && t'.Node?
      ensures InOrder(t') == InOrder(Plug(c, t))
      ensures SameNames(old(nodes), nodes)
    {
      NephewOutLeft(c, t);
      ghost var up, p, s := c.up, c.id, c.r;
      LookAround(nodes, root, c, t);
      PlugSibling(c, t);
      PlugDown(InRight(t, p, c.color, up), s);
      LookAround(nodes, root, InRight(s.l, s.id, s.color, InRight(t, p, c.color, up)), s.r);
      SetColor(w, nodes[nodes[x].parent].color, InRight(t, p, c.color, up), s);
      SetColor(nodes[x].parent, Black, up, Node(t, p, c.color, s.(color := c.color)));
      PlugDown(up, Node(t, p, Black, s.(color := c.color)));
      PlugDown(InRight(t, p, Black, up), s.(color := c.color));
      SetColor(nodes[w].right, Black, InRight(s.l, s.id, c.color, InRight(t, p, Black, up)), s.r);
      PlugDown(InRight(t, p, Black, up), Node(s.l, s.id, c.color, s.r.(color := Black)));
      RotateLeftAt(nodes[x].parent, up, Node(t, p, Black, Node(s.l, s.id, c.color, s.r.(color := Black))));
      t' := Plug(up, Node(Node(t, p, Black, s.l), s.id, c.color, s.r.(color := Black)));
    }

    // One round when the light position x is a right child.
    method DeleteFixRight(x0: nat, ghost c0: Ctx, ghost t0: Tree) returns (x: nat, ghost c: Ctx, ghost t: Tree)
      requires Holds(Plug(c0, t0)) && LightAt(c0, t0) && RootColor(t0) == Black && RootId(t0) == x0 && c0.InRight?
      requires x0 < |nodes| && nodes[x0].parent == c0.id
      modifies this`nodes, this`root
      ensures Holds(Plug(c, t)) && LightAt(c, t) && RootId(t) == x && LightMeasure(c, t) < LightMeasure(c0, t0)
      ensures x < |nodes| && nodes[x].parent == ParentId(c)
      ensures InOrder(Plug(c, t)) == InOrder(Plug(c0, t0))
      ensures SameNames(old(nodes), nodes)
    {
      x, c, t := x0, c0, t0;
      LookAround(nodes, root, c, t);
      LightFrame(c, t);
      var w := nodes[nodes[x].parent].left;
      if nodes[w].color == Red {
        w, c := SiblingUpRight(x, w, c, t);
      }
      x, c, t := DeleteSettleRight(x, w, c, t);
    }

    // The sibling w of the light position x is black.
    method DeleteSettleRight(x0: nat, w: nat, ghost c0: Ctx, ghost t0: Tree)
      returns (x: nat, ghost c: Ctx, ghost t: Tree)
      requires Holds(Plug(c0, t0)) && LightAt(c0, t0) && RootColor(t0) == Black && RootId(t0) == x0 && c0.InRight?
      requires RootColor(c0.l) == Black && w == RootId(c0.l)
      requires x0 < |nodes| && nodes[x0].parent == c0.id
      modifies this`nodes, this`root
      ensures Holds(Plug(c, t)) && LightAt(c, t) && RootId(t) == x
      ensures LightMeasure(c, t) <= if c0.color == Red then 0 else Depth(c0)
      ensures x < |nodes| && nodes[x].parent == ParentId(c)
      ensures InOrder(Plug(c, t)) == InOrder(Plug(c0, t0))
      ensures SameNames(old(nodes), nodes)
    {
      x, c, t := x0, c0, t0;
      LightFrame(c, t);
      LookAtNephews(nodes, root, c, t);
      if nodes[nodes[w].right].color == Black && nodes[nodes[w].left].color == Black {
        SiblingLendsRight(c, t);
        PlugSibling(c, t);
        SetColor(w, Red, InLeft(c.up, c.id, c.color, t), c.l);
        x := nodes[x].parent;
        c, t := c.up, Node(c.l.(color := Red), c.id, c.color, t);
        LookAround(nodes, root, c, t);
      } else {
        t := NephewUpRight(x, w, c, t);
        x, c := root, Top;
        LookAround(nodes, root, c, t);
      }
    }

    // The red sibling w moves above the parent; the new sibling is black.
    method SiblingUpRight(x: nat, w0: nat, ghost c0: Ctx, ghost t: Tree) returns (w: nat, ghost c: Ctx)
      requires Holds(Plug(c0, t)) && LightAt(c0, t) && RootColor(t) == Black && RootId(t) == x && c0.InRight?
      requires RootColor(c0.l) == Red && w0 == c0.l.id
      requires x < |nodes| && nodes[x].parent == c0.id
      modifies this`nodes, this`root
      ensures Holds(Plug(c, t)) && LightAt(c, t) && c.InRight? && c.color == Red && RootColor(c.l) == Black
          && w == RootId(c.l)
      ensures x < |nodes| && nodes[x].parent == c.id
      ensures InOrder(Plug(c, t)) == InOrder(Plug(c0, t))
      ensures SameNames(old(nodes), nodes)
    {
      w, c := w0, c0;
      LookAround(nodes, root, c, t);
      SiblingRedRight(c, t);
      ghost var up, p, s := c.up, c.id, c.l;
      SetColor(w, Black, InLeft(up, p, c.color, t), s);
      SetColor(nodes[x].parent, Red, up, Node(s.(color := Black), p, c.color, t));
      RotateRightAt(nodes[x].parent, up, Node(s.(color := Black), p, Red, t));
      c := InRight(s.r, p, Red, InRight(s.l, s.id, Black, up));
      LookAround(nodes, root, c, t);
      w := nodes[nodes[x].parent].left;
    }

    // A red nephew of x moves up; afterwards the whole tree is red-black again.
    method NephewUpRight(x: nat, w0: nat, ghost c0: Ctx, ghost t: Tree) returns (ghost t': Tree)
      requires Holds(Plug(c0, t)) && LightAt(c0, t) && RootColor(t) == Black && RootId(t) == x && c0.InRight?
      requires RootColor(c0.l) == Black && c0.l.Node? && w0 == c0.l.id
          && !(RootColor(c0.l.r) == Black && RootColor(c0.l.l) == Black)
      requires x < |nodes| && nodes[x].parent == c0.id
      modifies this`nodes, this`root
      ensures Holds(t') && LightAt(Top, t') && t'.Node?
      ensures InOrder(t') == InOrder(Plug(c0, t))
      ensures SameNames(old(nodes), nodes)
    {
      var w := w0;
      ghost var c := c0;
      LookAtNephews(nodes, root, c, t);
      if nodes[nodes[w].left].color == Black {
        w, c := NephewOverRight(x, w, c, t);
      }
      t' := NephewOutRightStep(x, w, c, t);
    }

    method NephewOverRight(x: nat, w0: nat, ghost c0: Ctx, ghost t: Tree) returns (w: nat, ghost c: Ctx)
      requires Holds(Plug(c0, t)) && LightAt(c0, t) && RootColor(t) == Black && RootId(t) == x && c0.InRight?
      requires RootColor(c0.l) == Black && c0.l.Node? && w0 == c0.l.id && RootColor(c0.l.r) == Red
          && RootColor(c0.l.l) == Black
      requires x < |nodes| && nodes[x].parent == c0.id
      modifies this`nodes, this`root
      ensures Holds(Plug(c, t)) && LightAt(c, t) && c.InRight?
      ensures RootColor(c.l) == Black && c.l.Node? && w == c.l.id && RootColor(c.l.l) == Red
      ensures x < |nodes| && nodes[x].parent == c.id
      ensures InOrder(Plug(c, t)) == InOrder(Plug(c0, t))
      ensures SameNames(old(nodes), nodes)
    {
      w, c := w0, c0;
      NephewInRight(c, t);
      ghost var d, s := InLeft(c.up, c.id, c.color, t), c.l;
      PlugSibling(c, t);
      PlugDown(d, s);
      LookAround(nodes, root, InRight(s.l, s.id, s.color, d), s.r);
      SetColor(nodes[w].right, Black, InRight(s.l, s.id, s.color, d), s.r);
      SetColor(w, Red, d, Node(s.l, s.id, s.color, s.r.(color := Black)));
      RotateLeftAt(w, d, Node(s.l, s.id, Red, s.r.(color := Black)));
      c := InRight(Node(Node(s.l, s.id, Red, s.r.l), s.r.id, Black, s.r.r), c.id, c.color, c.up);
      LookAround(nodes, root, c, t);
      w := nodes[nodes[x].parent].left;
    }

    method NephewOutRightStep(x: nat, w: nat, ghost c: Ctx, ghost t: Tree) returns (ghost t': Tree)
      requires Holds(Plug(c, t)) && LightAt(c, t) && RootColor(t) == Black && RootId(t) == x && c.InRight?
      requires RootColor(c.l) == Black && c.l.Node? && w == c.l.id && RootColor(c.l.l) == Red
      requires x < |nodes| && nodes[x].parent == c.id
      modifies this`nodes, this`root
      ensures Holds(t') && LightAt(Top, t') && t'.Node?
      ensures InOrder(t') == InOrder(Plug(c, t))
      ensures SameNames(old(nodes), nodes)
    {
      NephewOutRight(c, t);
      ghost var up, p, s := c.up, c.id, c.l;
      LookAround(nodes, root, c, t);
      PlugSibling(c, t);
      PlugDown(InLeft(up, p, c.color, t), s);
      LookAround(nodes, root, InLeft(InLeft(up, p, c.color, t), s.id, s.color, s.r), s.l);
      SetColor(w, nodes[nodes[x].parent].color, InLeft(up, p, c.color, t), s);
      SetColor(nodes[x].parent, Black, up, Node(s.(color := c.color), p, c.color, t));
      PlugDown(up, Node(s.(color := c.color), p, Black, t));
      PlugDown(InLeft(up, p, Black, t), s.(color := c.color));
      SetColor(nodes[w].left, Black, InLeft(InLeft(up, p, Black, t), s.id, c.color, s.r), s.l);
      PlugDown(InLeft(up, p, Black, t), Node(s.l.(color := Black), s.id, c.color, s.r));
      RotateRightAt(nodes[x].parent, up, Node(Node(s.l.(color := Black), s.id, c.color, s.r), p, Black, t));
      t' := Plug(up, Node(s.l.(color := Black), s.id, c.color, Node(s.r, p, Black, t)));
    }

    // Repair a position x that is one black node short, walking up the tree. When x is the
    // shared sentinel, its parent field says where it stands.
    method DeleteFixup(x0: nat, ghost c0: Ctx, ghost t0: Tree) returns (ghost t': Tree)
      requires Holds(Plug(c0, t0)) && LightAt(c0, t0) && RootId(t0) == x0
      requires x0 < |nodes| && nodes[x0].parent == ParentId(c0)
      modifies this`nodes, this`root
      ensures Holds(t') && RedBlackTree(t')
      ensures InOrder(t') == InOrder(Plug(c0, t0))
      ensures SameNames(old(nodes), nodes)
    {
      var x := x0;
      ghost var c, t := c0, t0;
      LookAround(nodes, root, c, t);
      while x != root && nodes[x].color == Black
        invariant Holds(Plug(c, t)) && LightAt(c, t) && RootId(t) == x
        invariant InOrder(Plug(c, t)) == InOrder(Plug(c0, t0))
        invariant SameNames(old(nodes), nodes)
        invariant x < |nodes| && nodes[x].parent == ParentId(c)
        invariant (x == root <==> c.Top?) && nodes[x].color == RootColor(t)
        decreases LightMeasure(c, t)
      {
        LookAround(nodes, root, c, t);
        LightFrame(c, t);
        if x == nodes[nodes[x].parent].left {
          x, c, t := DeleteFixLeft(x, c, t);
        } else {
          x, c, t := DeleteFixRight(x, c, t);
        }
        LookAround(nodes, root, c, t);
      }
      LightAtEnd(c, t);
      t' := Plug(c, Blackened(t));
      Blacken(x, c, t);
    }

    // Position x turns black; it may be the sentinel.
    method Blacken(x: nat, ghost c: Ctx, ghost t: Tree)
      requires Holds(Plug(c, t)) && RootId(t) == x
      modifies this`nodes
      ensures Holds(Plug(c, Blackened(t)))
      ensures SameNames(old(nodes), nodes)
    {
      LookAt(nodes, root, c, t);
      nodes := nodes[x := nodes[x].(color := Black)];
      if t.Node? {
        Recolored(old(nodes), nodes, root, c, t, Black);
      } else {
        assert nodes == old(nodes);
      }
    }

    // ---------- the operations ----------

    // Look a name up; when it is missing and creation is forced, enter a new symbol for it.
    method FindInsert(key: Name, force: bool) returns (x: int)
      requires Valid() && key != []
      modifies this
      ensures Valid()
      ensures key in old(Map()) ==> x == old(Map())[key] && unchanged(this)
      ensures key !in old(Map()) && !force ==> x == NULL && unchanged(this)
      ensures key !in old(Map()) && force ==>
        x == |old(nodes)| == |nodes| - 1 && Map() == old(Map())[key := x] && symbolCount == old(symbolCount) + 1
    {
      // find future parent
      var current, parent; ghost var c, t;
      current, parent, c, t := Descend(key);
      if current != SENTINEL {
        FoundAt(nodes, c, t);
        return current;
      }
      NotFound(nodes, c, key);
      // if creation is not forced just return
      if !force {
        return NULL;
      }
      x := Create(key, parent, c);
    }

    method Create(key: Name, parent: int, ghost c: Ctx) returns (x: nat)
      requires Valid() && key != [] && tree == Plug(c, Leaf) && parent == ParentId(c) && Around(nodes, c, key)
      modifies this
      ensures Valid() && x == |old(nodes)| == |nodes| - 1 && Map() == old(Map())[key := x]
          && symbolCount == old(symbolCount) + 1
    {
      x := Attach(key, parent, c);
      ghost var u := Node(Leaf, x, Red, Leaf);
      RedBlackPlug(c, Leaf);
      LeafOrder(c, x);
      tree := InsertFixup(x, c, u);
      MapInsert(old(nodes), nodes, old(tree), tree, x, Before(c), After(c));
      symbolCount := symbolCount + 1;
    }

    // Allocate a red symbol and link it below the parent found on the way down.
    method Attach(key: Name, parent: int, ghost c: Ctx) returns (x: nat)
      requires root >= NULL && Rep(nodes, RootNode(), Plug(c, Leaf)) && key != [] && parent == ParentId(c)
      requires Around(nodes, c, key) && Sorted(nodes, InOrder(Plug(c, Leaf)))
      modifies this`nodes, this`root
      ensures x == |old(nodes)| && Holds(Plug(c, Node(Leaf, x, Red, Leaf)))
      ensures Grown(old(nodes), nodes) && |nodes| == x + 1 && nodes[x].name == key
    {
      LookAround(nodes, RootNode(), c, Leaf);
      x := |nodes|;
      nodes := nodes + [Symbol(key, Red, parent, SENTINEL, SENTINEL)];
      if parent != NULL {
        SideOfParent(old(nodes), c, key);
        ParentNamed(old(nodes), c);
        CompareIsOrder(key, nodes[parent].name);
        var d := Str2Cmp(key, nodes[parent].name);
        if d < 0 {
          nodes := nodes[parent := nodes[parent].(left := x)];
        } else if d > 0 {
          nodes := nodes[parent := nodes[parent].(right := x)];
        } else if StrCmp(key, nodes[parent].name) < 0 {
          nodes := nodes[parent := nodes[parent].(left := x)];
        } else {
          nodes := nodes[parent := nodes[parent].(right := x)];
        }
      } else {
        root := x;
      }
      CtxInside(old(nodes), old(RootNode()), c, Leaf);
      Attached(old(nodes), nodes, old(RootNode()), root, c, x);
    }

    // Take the symbol with this name out of the tree.
    method DeleteSymbol(key: Name) returns (found: bool)
      requires Valid() && key != []
      modifies this
      ensures Valid() && |nodes| == |old(nodes)|
      ensures found <==> key in old(Map())
      ensures !found ==> unchanged(this)
      ensures found ==>
        && Map() == old(Map()) - {key} && Ids(tree) == old(Ids(tree)) - {old(Map())[key]}
        && symbolCount == old(symbolCount) - 1
    {
      // find node in tree
      var z, parent; ghost var c, t;
      z, parent, c, t := Descend(key);
      if z == SENTINEL {
        NotFound(nodes, c, key);
        return false;
      }
      FoundAt(nodes, c, t);
      LookAt(nodes, RootNode(), c, t);
      if nodes[z].left == SENTINEL || nodes[z].right == SENTINEL {
        DeleteLeafward(z, c, t);
      } else {
        DeleteInner(z, c, t);
      }
      symbolCount := symbolCount - 1;
      found := true;
    }

    // Node z has the sentinel as a child: its only child takes its place.
    method DeleteLeafward(z: nat, ghost c: Ctx, ghost t: Tree)
      requires Valid() && tree == Plug(c, t) && t.Node? && t.id == z < |nodes| && (t.l.Leaf? || t.r.Leaf?)
      modifies this`nodes, this`root, this`tree
      ensures Valid() && |nodes| == |old(nodes)| && Ids(tree) == old(Ids(tree)) - {z}
      ensures Map() == old(Map()) - {old(nodes[z].name)}
    {
      RootIsNode(nodes, RootNode(), c, t);
      RedBlackPlug(c, t);
      ghost var u := OnlyChild(t);
      RemovedOrder(c, t);
      var color := nodes[z].color;
      LookAt(nodes, root, c, t);
      var x := Splice(z, c, t);
      tree := Plug(c, u);
      if color == Black {
        tree := DeleteFixup(x, c, u);
      } else {
        RedBlackPlug(c, u);
      }
      MapDelete(old(nodes), nodes, old(tree), tree, z, Before(c) + InOrder(t.l), InOrder(t.r) + After(c));
    }

    // Node z has two children: its successor y leaves its place and takes the place of z.
    method DeleteInner(z: nat, ghost c: Ctx, ghost t: Tree)
      requires Valid() && tree == Plug(c, t) && t.Node? && t.id == z < |nodes| && t.l.Node? && t.r.Node?
      modifies this`nodes, this`root, this`tree
      ensures Valid() && |nodes| == |old(nodes)| && Ids(tree) == old(Ids(tree)) - {z}
      ensures Map() == old(Map()) - {old(nodes[z].name)}
    {
      RootIsNode(nodes, RootNode(), c, t);
      var y; ghost var d, ty;
      y, d, ty := Successor(z, c, t);
      ghost var e, e' := InRight(t.l, z, t.color, c), InRight(t.l, y, t.color, c);
      PlugCompose(d, e, ty);
      PlugDown(c, t);
      RedBlackPlug(Compose(d, e), ty);
      RenamedFrame(d, t.l, z, y, t.color, c, BlackHeight(ty));
      ghost var u := OnlyChild(ty);
      SuccessorOrder(c, t.l, z, t.color, d, ty);
      LookAt(nodes, root, Compose(d, e), ty);
      var color := nodes[y].color;
      OccursOnce(Compose(d, e), ty);
      var x := Splice(y, Compose(d, e), ty);
      TakePlace(y, z, x, c, t, d, u);
      tree := Plug(Compose(d, e'), u);
      if color == Black {
        tree := DeleteFixup(x, Compose(d, e'), u);
      } else {
        RedBlackPlug(Compose(d, e'), u);
      }
      MapDelete(old(nodes), nodes, old(tree), tree, z,
                Before(c) + InOrder(t.l), [y] + (InOrder(ty.r) + After(d)) + After(c));
    }

    // The tree successor of z, reached by one right turn and then left turns only.
    method Successor(z: nat, ghost c: Ctx, ghost t: Tree) returns (y: nat, ghost d: Ctx, ghost ty: Tree)
      requires Holds(Plug(c, t)) && t.Node? && t.id == z < |nodes| && t.r.Node?
      ensures LeftSpine(d) && Plug(d, ty) == t.r && ty.Node? && ty.l.Leaf? && y == ty.id
    {
      ghost var e := InRight(t.l, z, t.color, c);
      PlugDown(c, t);
      LookAt(nodes, root, c, t);
      y := nodes[z].right;
      d, ty := Top, t.r;
      LookAt(nodes, root, e, ty);
      while nodes[y].left != SENTINEL
        invariant LeftSpine(d) && Plug(d, ty) == t.r && ty.Node? && y == ty.id < |nodes|
        invariant nodes[y].left == RootId(ty.l)
        invariant Holds(Plug(Compose(d, e), ty))
        decreases ty
      {
        PlugDown(d, ty);
        PlugDown(Compose(d, e), ty);
        LookAt(nodes, root, InLeft(Compose(d, e), ty.id, ty.color, ty.r), ty.l);
        y := nodes[y].left;
        d, ty := InLeft(d, ty.id, ty.color, ty.r), ty.l;
      }
      PlugDown(Compose(d, e), ty);
      LookAt(nodes, root, InLeft(Compose(d, e), ty.id, ty.color, ty.r), ty.l);
    }

    // Remove y from the parent chain; its only child x, possibly the sentinel, is linked instead.
    method Unlink(y: nat) returns (x: nat)
      requires y < |nodes| && nodes[y].left < |nodes| && nodes[y].right < |nodes| && NULL <= nodes[y].parent < |nodes|
      requires var p := nodes[y].parent; p != y && p != SENTINEL && p != nodes[y].left && p != nodes[y].right
      modifies this`nodes, this`root
      ensures x == if old(nodes[y].left) != SENTINEL then old(nodes[y].left) else old(nodes[y].right)
      ensures var p := old(nodes[y].parent);
        && |nodes| == |old(nodes)|
        && nodes[x] == old(nodes)[x].(parent := p)
        && (p != NULL ==>
              nodes[p] ==
              if old(nodes[p].left) == y then old(nodes[p]).(left := x) else old(nodes[p]).(right := x))
        && root == (if p == NULL then x else old(root))
        && (forall i :: 0 <= i < |nodes| && i != x && i != p ==> nodes[i] == old(nodes)[i])
    {
      // x is y's only child
      if nodes[y].left != SENTINEL {
        x := nodes[y].left;
      } else {
        x := nodes[y].right;
      }
      nodes := nodes[x := nodes[x].(parent := nodes[y].parent)];
      RelinkLeft(nodes[y].parent, y, x);
    }

    method Splice(y: nat, ghost c: Ctx, ghost t: Tree) returns (x: nat)
      requires Holds(Plug(c, t)) && t.Node? && t.id == y && (t.l.Leaf? || t.r.Leaf?)
      modifies this`nodes, this`root
      ensures Holds(Plug(c, OnlyChild(t))) && x == RootId(OnlyChild(t)) < |nodes|
      ensures nodes[x].parent == ParentId(c) && SameNames(old(nodes), nodes)
    {
      SpliceSymbols(nodes, root, c, t);
      x := Unlink(y);
      SpliceRep(old(nodes), nodes, old(root), root, c, t);
    }

    // Symbol y takes over the links and the color of z.
    method Swap(y: nat, z: nat)
      requires 0 < y < |nodes| && 0 < z < |nodes| && y != z
      requires nodes[z].left < |nodes| && nodes[z].right < |nodes| && NULL <= nodes[z].parent < |nodes|
      requires PairwiseApart(y, z, nodes[z].left, nodes[z].parent)
          && PairwiseApart(y, z, nodes[z].right, nodes[z].parent)
      requires nodes[z].left != nodes[z].right
      modifies this`nodes, this`root
      ensures var l, r, p := old(nodes[z].left), old(nodes[z].right), old(nodes[z].parent);
        && |nodes| == |old(nodes)|
        && nodes[y] == old(nodes[y]).(left := l, right := r, parent := p, color := old(nodes[z].color))
        && nodes[l] == old(nodes)[l].(parent := y) && nodes[r] == old(nodes)[r].(parent := y)
        && (p != NULL ==>
              nodes[p] ==
              if old(nodes[p].left) == z then old(nodes[p]).(left := y) else old(nodes[p]).(right := y))
        && root == (if p == NULL then y else old(root))
        && (forall i :: 0 <= i < |nodes| && i != y && i != l && i != r && i != p ==> nodes[i] == old(nodes)[i])
    {
      nodes := nodes[y := nodes[y].(left := nodes[z].left, right := nodes[z].right, parent := nodes[z].parent)];
      RelinkLeft(nodes[z].parent, z, y);
      var r, l := nodes[y].right, nodes[y].left;
      nodes := nodes[r := nodes[r].(parent := y)];
      nodes := nodes[l := nodes[l].(parent := y)];
      nodes := nodes[y := nodes[y].(color := nodes[z].color)];
    }

    method TakePlace(y: nat, z: nat, ghost x: nat, ghost c: Ctx, ghost t: Tree, ghost d: Ctx, ghost u: Tree)
      requires t.Node? && t.id == z && t.l.Node? && Holds(Plug(Compose(d, InRight(t.l, z, t.color, c)), u))
      requires 0 < y < |nodes| && y !in Ids(Plug(Compose(d, InRight(t.l, z, t.color, c)), u))
      requires x == RootId(u) < |nodes| && nodes[x].parent == ParentId(Compose(d, InRight(t.l, z, t.color, c)))
      modifies this`nodes, this`root
      ensures Holds(Plug(Compose(d, InRight(t.l, y, t.color, c)), u))
      ensures x < |nodes| && nodes[x].parent == ParentId(Compose(d, InRight(t.l, y, t.color, c)))
      ensures SameNames(old(nodes), nodes)
    {
      ghost var e, e', v := InRight(t.l, z, t.color, c), InRight(t.l, y, t.color, c), Plug(d, u);
      ghost var w := Node(t.l, z, t.color, v);
      PlugCompose(d, e, u);
      PlugCompose(d, e', u);
      SwapSymbols(nodes, root, c, w, y);
      Swap(y, z);
      ReplaceRep(old(nodes), nodes, old(root), root, c, w, y);
      if u.Node? {
        LookAt(nodes, root, Compose(d, e'), u);
      } else if !d.Top? {
        PlugNode(d.up, ParentTree(d, u));
      }
    }

    // List a subtree after what the list already holds.
    method CollectSymbols(sPtr: nat, list0: seq<nat>, ghost c: Ctx, ghost t: Tree) returns (list: seq<nat>)
      requires Valid() && Plug(c, t) == tree && sPtr == RootId(t)
      ensures list == list0 + InOrder(t)
      decreases t
    {
      list := list0;
      LookAt(nodes, RootNode(), c, t);
      if sPtr != SENTINEL {
        PlugDown(c, t);
        list := CollectSymbols(nodes[sPtr].left, list, InLeft(c, t.id, t.color, t.r), t.l);
        list := list + [sPtr];
        list := CollectSymbols(nodes[sPtr].right, list, InRight(t.l, t.id, t.color, c), t.r);
      }
    }

    // All symbols of the table, in strictly increasing order of their names.
    method Symbols() returns (list: seq<nat>)
      requires Valid()
      ensures forall i :: 0 <= i < |list| ==> list[i] < |nodes|
      ensures forall i, j :: 0 <= i < j < |list| ==> Alphabetical(nodes[list[i]].name, nodes[list[j]].name)
      ensures forall key :: key in Map() ==> Map()[key] in list
      ensures forall i :: i in list ==> i < |nodes| && nodes[i].name in Map() && Map()[nodes[i].name] == i
    {
      LookAt(nodes, RootNode(), Top, tree);
      list := CollectSymbols(RootNode(), [], Top, tree);
      InOrderIds(tree);
      SortedNamed(nodes, tree);
      forall i, j | 0 <= i < j < |list| ensures Alphabetical(nodes[list[i]].name, nodes[list[j]].name) {
        LessIsAlphabetical(nodes[list[i]].name, nodes[list[j]].name);
      }
    }

    method ExecuteDelete(key: Name) returns (a: int)
      requires Valid() && key != []
      modifies this
      ensures Valid() && (Model(Map(), |nodes|), a) == Apply(Model(old(Map()), |old(nodes)|), Delete(key))
    {
      ghost var m := Map();
      var found := DeleteSymbol(key);
      a := if found then 1 else 0;
      if key !in m { assert m - {key} == m; }
    }

    method Execute(op: Op) returns (a: int)
      requires Valid() && op.key != []
      modifies this
      ensures Valid() && (Model(Map(), |nodes|), a) == Apply(Model(old(Map()), |old(nodes)|), op)
    {
      if op.Delete? {
        a := ExecuteDelete(op.key);
      } else {
        a := FindInsert(op.key, op.Insert?);
      }
    }

    // Any run of insertions, lookups and deletions answers like a finite map and leaves a
    // red-black tree of logarithmic height.
    method Run(ops: seq<Op>) returns (answers: seq<int>)
      requires Valid() && forall i :: 0 <= i < |ops| ==> ops[i].key != []
      modifies this
      ensures Valid()
      ensures (Model(Map(), |nodes|), answers) == Replay(Model(old(Map()), |old(nodes)|), ops)
      ensures var n := |Map()|; Pow2(Height(tree)) <= (n + 1) * (n + 1)
    {
      answers := [];
      for k := 0 to |ops|
        invariant Valid()
        invariant (Model(Map(), |nodes|), answers) == Replay(Model(old(Map()), |old(nodes)|), ops[..k])
      {
        assert ops[..k + 1][..k] == ops[..k];
        assert ops[..k + 1][k] == ops[k];
        var a := Execute(ops[k]);
        answers := answers + [a];
      }
      assert ops[..|ops|] == ops;
      MapSize(nodes, tree);
      LogarithmicHeight(tree);
    }
  }

  // The four symbols a rotation touches are different symbols.
  predicate PairwiseApart(x: nat, y: nat, b: nat, p: int) {
    x != 0 && y != 0 && x != y && b != x && b != y && p != SENTINEL && p != x && p != y && p != b
  }

  lemma SpliceSymbols(s: seq<Symbol>, root: nat, c: Ctx, t: Tree)
    requires Rep(s, root, Plug(c, t)) && t.Node?
    ensures 0 < t.id < |s| && s[t.id].left == RootId(t.l) < |s| && s[t.id].right == RootId(t.r) < |s|
    ensures s[t.id].parent == ParentId(c)
    ensures !c.Top? ==>
      0 < c.id < |s| && c.id !in {t.id, RootId(t.l), RootId(t.r)} && (s[c.id].left == t.id <==> c.InLeft?)
    ensures forall i :: i in CtxIds(c) ==> 0 < i < |s| && i !in {t.id, RootId(t.l), RootId(t.r)}
    ensures forall i :: i in Ids(t.l) ==> 0 < i < |s| && i != t.id && (!c.Top? ==> i != c.id)
    ensures forall i :: i in Ids(t.r) ==> 0 < i < |s| && i != t.id && (!c.Top? ==> i != c.id)
    ensures t.l.Node? || t.r.Node? ==> RootId(t.l) != RootId(t.r)
  {
    LookAround(s, root, c, t);
    Focus(s, root, c, t);
    TreeIds(s, t.id, ParentId(c), t);
    TreeIds(s, s[t.id].left, t.id, t.l);
    TreeIds(s, s[t.id].right, t.id, t.r);
    CtxIdsValid(s, root, t.id, c);
    assert t.l.Node? ==> t.l.id in Ids(t.l);
    assert t.r.Node? ==> t.r.id in Ids(t.r);
  }

  lemma SwapSymbols(s: seq<Symbol>, root: nat, c: Ctx, t: Tree, y: nat)
    requires Rep(s, root, Plug(c, t)) && t.Node? && t.l.Node? && 0 < y < |s| && y !in Ids(Plug(c, t))
    ensures 0 < t.id < |s| && s[t.id].left == RootId(t.l) < |s| && s[t.id].right == RootId(t.r) < |s|
    ensures s[t.id].parent == ParentId(c) && s[t.id].color == t.color
    ensures PairwiseApart(y, t.id, RootId(t.l), ParentId(c)) && PairwiseApart(y, t.id, RootId(t.r), ParentId(c))
    ensures RootId(t.l) != RootId(t.r)
    ensures !c.Top? ==> 0 < c.id < |s| && (s[c.id].left == t.id <==> c.InLeft?)
    ensures forall i :: i in CtxIds(c) ==> 0 < i < |s| && i !in {y, t.id, RootId(t.l), RootId(t.r)}
    ensures forall i :: i in Ids(t.l) ==> 0 < i < |s| && i != t.id && i != y && (!c.Top? ==> i != c.id)
    ensures forall i :: i in Ids(t.r) ==> 0 < i < |s| && i != t.id && i != y && (!c.Top? ==> i != c.id)
    ensures RootId(t.l) !in Ids(t.r) && RootId(t.r) !in Ids(t.l)
  {
    SpliceSymbols(s, root, c, t);
    LookAt(s, root, c, t);
    DistinctPlug(c, t);
    assert t.l.id in Ids(t.l);
    assert t.r.Node? ==> t.r.id in Ids(t.r);
  }

  lemma CtxInside(s: seq<Symbol>, root: nat, c: Ctx, t: Tree)
    requires Rep(s, root, Plug(c, t))
    ensures forall i :: i in CtxIds(c) ==> 0 < i < |s|
  {
    Focus(s, root, c, t);
    CtxIdsValid(s, root, RootId(t), c);
  }

  lemma ParentNamed(s: seq<Symbol>, c: Ctx)
    requires Sorted(s, InOrder(Plug(c, Leaf))) && !c.Top?
    ensures c.id < |s| && s[c.id].name != []
  {
    InOrderPlug(c, Leaf);
    var q := InOrder(Plug(c, Leaf));
    if c.InLeft? {
      assert q[|Before(c)|] == After(c)[0] == c.id;
    } else {
      assert q[|Before(c)| - 1] == Before(c)[|Before(c)| - 1] == c.id;
    }
  }

  lemma RootIsNode(s: seq<Symbol>, root: nat, c: Ctx, t: Tree)
    requires Rep(s, root, Plug(c, t)) && t.Node?
    ensures root != SENTINEL
  {
    PlugNode(c, t);
  }

  lemma LeafOrder(c: Ctx, x: nat)
    ensures InOrder(Plug(c, Leaf)) == Before(c) + After(c)
    ensures InOrder(Plug(c, Node(Leaf, x, Red, Leaf))) == Before(c) + [x] + After(c)
  {
    InOrderPlug(c, Leaf);
    InOrderPlug(c, Node(Leaf, x, Red, Leaf));
  }

  lemma RemovedOrder(c: Ctx, t: Tree)
    requires t.Node? && (t.l.Leaf? || t.r.Leaf?)
    ensures InOrder(Plug(c, t)) == (Before(c) + InOrder(t.l)) + [t.id] + (InOrder(t.r) + After(c))
    ensures InOrder(Plug(c, OnlyChild(t))) == (Before(c) + InOrder(t.l)) + (InOrder(t.r) + After(c))
  {
    InOrderPlug(c, t);
    InOrderPlug(c, OnlyChild(t));
    Regroup(Before(c), InOrder(t.l), t.id, InOrder(t.r), After(c));
    Shorten(Before(c), InOrder(t.l), InOrder(t.r), After(c));
  }

  lemma Shorten(a: seq<nat>, b: seq<nat>, d: seq<nat>, e: seq<nat>)
    ensures b == [] ==> a + d + e == (a + b) + (d + e)
    ensures d == [] ==> a + b + e == (a + b) + (d + e)
  {
  }

  // The symbol of the occupant occurs nowhere else.
  lemma OccursOnce(c: Ctx, t: Tree)
    requires Distinct(Plug(c, t)) && t.Node?
    ensures t.id !in Ids(Plug(c, t.l)) && t.id !in Ids(Plug(c, t.r))
  {
    DistinctPlug(c, t);
    DistinctPlug(c, t.l);
    DistinctPlug(c, t.r);
  }

  lemma RotateLeftSymbols(s: seq<Symbol>, root: nat, c: Ctx, t: Tree)
    requires Rep(s, root, Plug(c, t)) && t.Node? && t.r.Node?
    ensures 0 < t.id < |s| && 0 < t.r.id < |s| && t.id != t.r.id
    ensures s[t.id].right == t.r.id && s[t.id].parent == ParentId(c) && s[t.r.id].left == RootId(t.r.l)
    ensures t.r.l.Node? ==> 0 < t.r.l.id < |s| && t.r.l.id !in {t.id, t.r.id}
    ensures !c.Top? ==>
      && 0 < c.id < |s| && c.id !in {t.id, t.r.id, RootId(t.r.l)}
      && (s[c.id].left == t.id <==> c.InLeft?)
    ensures forall i :: i in CtxIds(c) ==> i < |s| && i !in {t.id, t.r.id, RootId(t.r.l)}
    ensures forall i :: i in Ids(t.l) + Ids(t.r.l) + Ids(t.r.r) ==> i < |s| && (!c.Top? ==> i != c.id)
  {
    LookAt(s, root, c, t);
    LookAt(s, root, InRight(t.l, t.id, t.color, c), t.r);
    LookAt(s, root, InLeft(InRight(t.l, t.id, t.color, c), t.r.id, t.r.color, t.r.r), t.r.l);
    if !c.Top? { LookUp(s, root, c, t); }
    Focus(s, root, c, t);
    TreeIds(s, t.id, ParentId(c), t);
    CtxIdsValid(s, root, t.id, c);
    assert t.r.id in Ids(t);
    assert t.r.l.Node? ==> t.r.l.id in Ids(t.r) && t.r.l.id != t.r.id;
  }

  lemma RotateRightSymbols(s: seq<Symbol>, root: nat, c: Ctx, t: Tree)
    requires Rep(s, root, Plug(c, t)) && t.Node? && t.l.Node?
    ensures 0 < t.id < |s| && 0 < t.l.id < |s| && t.id != t.l.id
    ensures s[t.id].left == t.l.id && s[t.id].parent == ParentId(c) && s[t.l.id].right == RootId(t.l.r)
    ensures t.l.r.Node? ==> 0 < t.l.r.id < |s| && t.l.r.id !in {t.id, t.l.id}
    ensures !c.Top? ==>
      && 0 < c.id < |s| && c.id !in {t.id, t.l.id, RootId(t.l.r)}
      && (s[c.id].right == t.id <==> c.InRight?)
    ensures forall i :: i in CtxIds(c) ==> i < |s| && i !in {t.id, t.l.id, RootId(t.l.r)}
    ensures forall i :: i in Ids(t.l.l) + Ids(t.l.r) + Ids(t.r) ==> i < |s| && (!c.Top? ==> i != c.id)
  {
    LookAt(s, root, c, t);
    LookAt(s, root, InLeft(c, t.id, t.color, t.r), t.l);
    LookAt(s, root, InRight(t.l.l, t.l.id, t.l.color, InLeft(c, t.id, t.color, t.r)), t.l.r);
    if !c.Top? { LookUp(s, root, c, t); }
    Focus(s, root, c, t);
    TreeIds(s, t.id, ParentId(c), t);
    CtxIdsValid(s, root, t.id, c);
    assert t.l.id in Ids(t);
    assert t.l.r.Node? ==> t.l.r.id in Ids(t.l) && t.l.r.id != t.l.id;
  }
}
