// The shape of a symbol tree: red-black trees as values, the path from the root to a
// position as a context, and what it means for an arena of symbol records to hold a tree.
module SymbolTree {
  import opened Names

  datatype Color = Black | Red

  // A node carries the arena id of its symbol; the leaves are the shared sentinel.
  datatype Tree = Leaf | Node(l: Tree, id: nat, color: Color, r: Tree)

  // A tree with a hole: the frames from the hole up to the root.
  datatype Ctx =
    | Top
    | InLeft(up: Ctx, id: nat, color: Color, r: Tree)
    | InRight(l: Tree, id: nat, color: Color, up: Ctx)

  // The SYMBOL record; the parent is NULL at the root.
  datatype Symbol = Symbol(name: Name, color: Color, parent: int, left: nat, right: nat)

  const SENTINEL: nat := 0
  const NULL: int := -1

  function Plug(c: Ctx, t: Tree): Tree {
    match c
    case Top => t
    case InLeft(up, id, col, r) => Plug(up, Node(t, id, col, r))
    case InRight(l, id, col, up) => Plug(up, Node(l, id, col, t))
  }

  function InOrder(t: Tree): seq<nat> {
    match t
    case Leaf => []
    case Node(l, id, _, r) => InOrder(l) + [id] + InOrder(r)
  }

  // What the context lists before and after the hole.
  function Before(c: Ctx): seq<nat> {
    match c
    case Top => []
    case InLeft(up, _, _, _) => Before(up)
    case InRight(l, id, _, up) => Before(up) + InOrder(l) + [id]
  }

  function After(c: Ctx): seq<nat> {
    match c
    case Top => []
    case InLeft(up, id, _, r) => [id] + InOrder(r) + After(up)
    case InRight(_, _, _, up) => After(up)
  }

  lemma InOrderPlug(c: Ctx, t: Tree)
    ensures InOrder(Plug(c, t)) == Before(c) + InOrder(t) + After(c)
  {
    match c
    case Top =>
    case InLeft(up, id, col, r) =>
      InOrderPlug(up, Node(t, id, col, r));
      Associate(Before(up), InOrder(t), id, InOrder(r), After(up));
    case InRight(l, id, col, up) =>
      InOrderPlug(up, Node(l, id, col, t));
      Associate(Before(up), InOrder(l), id, InOrder(t), After(up));
  }

  lemma Associate(a: seq<nat>, b: seq<nat>, x: nat, d: seq<nat>, e: seq<nat>)
    ensures a + (b + [x] + d) + e == a + b + ([x] + d + e) == (a + b + [x]) + d + e
  {
  }

  function Ids(t: Tree): set<nat> {
    match t
    case Leaf => {}
    case Node(l, id, _, r) => Ids(l) + {id} + Ids(r)
  }

  function CtxIds(c: Ctx): set<nat> {
    match c
    case Top => {}
    case InLeft(up, id, _, r) => CtxIds(up) + {id} + Ids(r)
    case InRight(l, id, _, up) => CtxIds(up) + {id} + Ids(l)
  }

  // No symbol sits at two places of the tree.
  ghost predicate Distinct(t: Tree) {
    match t
    case Leaf => true
    case Node(l, id, _, r) => Distinct(l) && Distinct(r) && Ids(l) !! Ids(r) && id !in Ids(l) && id !in Ids(r)
  }

  ghost predicate CtxDistinct(c: Ctx) {
    match c
    case Top => true
    case InLeft(up, id, _, r) =>
      CtxDistinct(up) && Distinct(r) && CtxIds(up) !! Ids(r) && id !in CtxIds(up) && id !in Ids(r)
    case InRight(l, id, _, up) =>
      CtxDistinct(up) && Distinct(l) && CtxIds(up) !! Ids(l) && id !in CtxIds(up) && id !in Ids(l)
  }

  lemma DistinctPlug(c: Ctx, t: Tree)
    ensures Distinct(Plug(c, t)) <==> Distinct(t) && CtxDistinct(c) && Ids(t) !! CtxIds(c)
    ensures Ids(Plug(c, t)) == Ids(t) + CtxIds(c)
  {
    match c
    case Top =>
    case InLeft(up, id, col, r) =>
      DistinctPlug(up, Node(t, id, col, r));
    case InRight(l, id, col, up) =>
      DistinctPlug(up, Node(l, id, col, t));
  }

  function RootId(t: Tree): nat {
    if t.Leaf? then SENTINEL else t.id
  }

  function RootColor(t: Tree): Color {
    if t.Leaf? then Black else t.color
  }

  function ParentId(c: Ctx): int {
    if c.Top? then NULL else c.id
  }

  function ParentColor(c: Ctx): Color {
    if c.Top? then Black else c.color
  }

  function Depth(c: Ctx): nat {
    match c
    case Top => 0
    case InLeft(up, _, _, _) => 1 + Depth(up)
    case InRight(_, _, _, up) => 1 + Depth(up)
  }

  // ---------- the arena holds a tree ----------

  // Position x, reached from parent p, is the root of tree t.
  ghost predicate IsTree(s: seq<Symbol>, x: nat, p: int, t: Tree)
    decreases t
  {
    match t
    case Leaf => x == SENTINEL
    case Node(l, id, col, r) =>
      && x == id && 0 < id < |s|
      && s[id].parent == p && s[id].color == col
      && IsTree(s, s[id].left, id, l)
      && IsTree(s, s[id].right, id, r)
  }

  // The frames of c are in the arena and link down to x and up to the root.
  ghost predicate IsCtx(s: seq<Symbol>, root: nat, x: nat, c: Ctx)
    decreases c
  {
    match c
    case Top => x == root
    case InLeft(up, id, col, r) =>
      && 0 < id < |s|
      && s[id].parent == ParentId(up) && s[id].color == col
      && s[id].left == x && IsTree(s, s[id].right, id, r)
      && IsCtx(s, root, id, up)
    case InRight(l, id, col, up) =>
      && 0 < id < |s|
      && s[id].parent == ParentId(up) && s[id].color == col
      && s[id].right == x && IsTree(s, s[id].left, id, l)
      && IsCtx(s, root, id, up)
  }

  // The sentinel is black and its own child; its parent field is scratch space.
  ghost predicate SentinelOk(s: seq<Symbol>) {
    |s| > 0 && s[SENTINEL].color == Black && s[SENTINEL].left == SENTINEL && s[SENTINEL].right == SENTINEL
  }

  ghost predicate Rep(s: seq<Symbol>, root: nat, t: Tree) {
    SentinelOk(s) && IsTree(s, root, NULL, t) && Distinct(t)
  }

  // The same, seen from a position inside the tree.
  ghost predicate At(s: seq<Symbol>, root: nat, c: Ctx, t: Tree) {
    && SentinelOk(s)
    && IsCtx(s, root, RootId(t), c) && IsTree(s, RootId(t), ParentId(c), t)
    && Distinct(t) && CtxDistinct(c) && Ids(t) !! CtxIds(c)
  }

  lemma Focus(s: seq<Symbol>, root: nat, c: Ctx, t: Tree)
    ensures Rep(s, root, Plug(c, t)) <==> At(s, root, c, t)
  {
    PlugIsTree(s, root, c, t);
    DistinctPlug(c, t);
  }

  lemma PlugIsTree(s: seq<Symbol>, root: nat, c: Ctx, t: Tree)
    ensures IsTree(s, root, NULL, Plug(c, t)) <==>
            IsCtx(s, root, RootId(t), c) && IsTree(s, RootId(t), ParentId(c), t)
    decreases c
  {
    match c
    case Top =>
      if t.Leaf? { }
    case InLeft(up, id, col, r) =>
      PlugIsTree(s, root, up, Node(t, id, col, r));
      ChildRoot(s, t);
    case InRight(l, id, col, up) =>
      PlugIsTree(s, root, up, Node(l, id, col, t));
      ChildRoot(s, t);
  }

  // A position holds a tree only if it is that tree's root.
  lemma ChildRoot(s: seq<Symbol>, t: Tree)
    ensures forall x: nat, p {:trigger IsTree(s, x, p, t)} :: IsTree(s, x, p, t) ==> x == RootId(t)
  {
  }

  lemma TreeIds(s: seq<Symbol>, x: nat, p: int, t: Tree)
    requires IsTree(s, x, p, t)
    ensures x == RootId(t)
    ensures forall i :: i in Ids(t) ==> 0 < i < |s|
    decreases t
  {
    if t.Node? {
      TreeIds(s, s[x].left, x, t.l);
      TreeIds(s, s[x].right, x, t.r);
    }
  }

  lemma CtxIdsValid(s: seq<Symbol>, root: nat, x: nat, c: Ctx)
    requires IsCtx(s, root, x, c)
    ensures forall i :: i in CtxIds(c) ==> 0 < i < |s|
    decreases c
  {
    match c
    case Top =>
    case InLeft(up, id, col, r) =>
      TreeIds(s, s[id].right, id, r);
      CtxIdsValid(s, root, id, up);
    case InRight(l, id, col, up) =>
      TreeIds(s, s[id].left, id, l);
      CtxIdsValid(s, root, id, up);
  }

  // ---------- frames ----------

  // The two arenas agree on the symbols in q.
  ghost predicate Same(s: seq<Symbol>, s': seq<Symbol>, q: set<nat>) {
    forall i :: i in q ==> i < |s| && i < |s'| && s'[i] == s[i]
  }

  lemma TreeFrame(s: seq<Symbol>, s': seq<Symbol>, x: nat, p: int, t: Tree)
    requires IsTree(s, x, p, t) && Same(s, s', Ids(t))
    ensures IsTree(s', x, p, t)
    decreases t
  {
    match t
    case Leaf =>
    case Node(l, id, col, r) =>
      TreeFrame(s, s', s[id].left, id, l);
      TreeFrame(s, s', s[id].right, id, r);
  }

  // A subtree moves under a new parent: only the parent field of its root changes.
  lemma TreeMoved(s: seq<Symbol>, s': seq<Symbol>, x: nat, p: int, p': int, t: Tree)
    requires IsTree(s, x, p, t) && Distinct(t) && |s| <= |s'|
    requires Same(s, s', Ids(t) - {x})
    requires t.Node? ==> s'[x] == s[x].(parent := p')
    ensures IsTree(s', x, p', t)
  {
    if t.Node? {
      TreeFrame(s, s', s[x].left, x, t.l);
      TreeFrame(s, s', s[x].right, x, t.r);
    }
  }

  lemma CtxFrame(s: seq<Symbol>, s': seq<Symbol>, root: nat, x: nat, c: Ctx)
    requires IsCtx(s, root, x, c) && Same(s, s', CtxIds(c))
    ensures IsCtx(s', root, x, c)
    decreases c
  {
    match c
    case Top =>
    case InLeft(up, id, col, r) =>
      TreeFrame(s, s', s[id].right, id, r);
      CtxFrame(s, s', root, id, up);
    case InRight(l, id, col, up) =>
      TreeFrame(s, s', s[id].left, id, l);
      CtxFrame(s, s', root, id, up);
  }

  // The hole gets a new occupant: in the context only the link of the parent frame changes.
  ghost predicate Relinked(s: seq<Symbol>, s': seq<Symbol>, root: nat, root': nat, x': nat, c: Ctx) {
    && |s| <= |s'|
    && Same(s, s', CtxIds(c) - (if c.Top? then {} else {c.id}))
    && match c
       case Top => root' == x'
       case InLeft(_, id, _, _) => root' == root && id < |s| && s'[id] == s[id].(left := x')
       case InRight(_, id, _, _) => root' == root && id < |s| && s'[id] == s[id].(right := x')
  }

  lemma CtxRelinked(s: seq<Symbol>, s': seq<Symbol>, root: nat, root': nat, x: nat, x': nat, c: Ctx)
    requires IsCtx(s, root, x, c) && CtxDistinct(c)
    requires Relinked(s, s', root, root', x', c)
    ensures IsCtx(s', root', x', c)
  {
    match c
    case Top =>
    case InLeft(up, id, col, r) =>
      TreeFrame(s, s', s[id].right, id, r);
      CtxFrame(s, s', root, id, up);
    case InRight(l, id, col, up) =>
      TreeFrame(s, s', s[id].left, id, l);
      CtxFrame(s, s', root, id, up);
  }
}
