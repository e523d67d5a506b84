// Unification with a worklist: equations are popped one at a time; a variable that can be
// solved for is eliminated from the worklist and from the bindings found so far.
module Unification {
  import opened Terms

  // ---------- what a step does to solutions, variables and size ----------

  function SubstEq(q: Equation, x: Name, e: Term): Equation {
    Equation(Subst(q.left, x, e), Subst(q.right, x, e))
  }

  // Every equation of the set with x replaced by e.
  ghost predicate Eliminated(eqs: seq<Equation>, eqs': seq<Equation>, x: Name, e: Term) {
    |eqs'| == |eqs| && forall i :: 0 <= i < |eqs| ==> eqs'[i] == SubstEq(eqs[i], x, e)
  }

  lemma EliminatedSolutions(s: Substitution, eqs: seq<Equation>, eqs': seq<Equation>, x: Name, e: Term)
    requires Eliminated(eqs, eqs', x, e) && Apply(s, Var(x)) == Apply(s, e)
    ensures Unifies(s, eqs') <==> Unifies(s, eqs)
  {
    forall i | 0 <= i < |eqs|
      ensures Apply(s, eqs'[i].left) == Apply(s, eqs[i].left) && Apply(s, eqs'[i].right) == Apply(s, eqs[i].right)
    {
      ApplySubst(s, eqs[i].left, x, e);
      ApplySubst(s, eqs[i].right, x, e);
    }
  }

  lemma {:induction false} EliminatedVars(eqs: seq<Equation>, eqs': seq<Equation>, x: Name, e: Term)
    requires Eliminated(eqs, eqs', x, e)
    ensures EqVars(eqs') <= (EqVars(eqs) - {x}) + Vars(e)
  {
    if eqs != [] {
      EliminatedVars(eqs[1..], eqs'[1..], x, e);
      SubstVars(eqs[0].left, x, e);
      SubstVars(eqs[0].right, x, e);
    }
  }

  lemma UnifiesConcat(s: Substitution, a: seq<Equation>, b: seq<Equation>)
    ensures Unifies(s, a + b) <==> Unifies(s, a) && Unifies(s, b)
  {
    var q := a + b;
    if Unifies(s, q) {
      forall i | 0 <= i < |a| ensures Apply(s, a[i].left) == Apply(s, a[i].right) {
        assert q[i] == a[i];
      }
      forall i | 0 <= i < |b| ensures Apply(s, b[i].left) == Apply(s, b[i].right) {
        assert q[|a| + i] == b[i];
      }
    }
  }

  lemma {:induction false} ConcatVars(a: seq<Equation>, b: seq<Equation>)
    ensures EqVars(a + b) == EqVars(a) + EqVars(b)
    ensures EqSize(a + b) == EqSize(a) + EqSize(b)
  {
    if a == [] {
      assert a + b == b;
    } else {
      ConcatVars(a[1..], b);
      assert (a + b)[1..] == a[1..] + b;
    }
  }

  lemma {:induction false} ZipVars(l: Terms, r: Terms)
    requires Length(l) == Length(r)
    ensures EqVars(Zip(l, r)) == VarsAll(l) + VarsAll(r)
    ensures EqSize(Zip(l, r)) == SizeAll(l) + SizeAll(r)
  {
    if l.Cons? {
      var q := [Equation(l.head, r.head)];
      ZipVars(l.tail, r.tail);
      ConcatVars(Zip(l.tail, r.tail), q);
      assert q[1..] == [];
      assert EqVars(q) == Vars(l.head) + Vars(r.head);
    }
  }

  lemma {:induction false} ZipSolutions(s: Substitution, l: Terms, r: Terms)
    requires Length(l) == Length(r)
    ensures Unifies(s, Zip(l, r)) <==> ApplyAll(s, l) == ApplyAll(s, r)
  {
    if l.Cons? {
      var q := [Equation(l.head, r.head)];
      ZipSolutions(s, l.tail, r.tail);
      UnifiesConcat(s, Zip(l.tail, r.tail), q);
      assert q[0] == Equation(l.head, r.head);
      assert Unifies(s, q) <==> Apply(s, l.head) == Apply(s, r.head);
    }
  }

  // ---------- the state of a run ----------

  // Both sets together have the same solutions as the problem.
  ghost predicate Equivalent(problem: seq<Equation>, ws: seq<Equation>, mgu: seq<Equation>) {
    forall s :: Unifies(s, problem) <==> Unifies(s, ws) && Unifies(s, mgu)
  }

  // Bindings in solved form: different variables, none of them in a right-hand side or in ws.
  ghost predicate Solved(mgu: seq<Equation>, ws: seq<Equation>) {
    && (forall i :: 0 <= i < |mgu| ==> mgu[i].left.Var? && mgu[i].left.v !in EqVars(ws))
    && (forall i, j :: 0 <= i < j < |mgu| ==> mgu[i].left != mgu[j].left)
    && (forall i, j :: 0 <= i < |mgu| && 0 <= j < |mgu| ==> mgu[i].left.v !in Vars(mgu[j].right))
  }

  ghost predicate Running(problem: seq<Equation>, ws: seq<Equation>, mgu: seq<Equation>) {
    Equivalent(problem, ws, mgu) && Solved(mgu, ws)
  }

  // An equation that holds anyway is dropped.
  lemma Dropped(problem: seq<Equation>, t: Term, ws: seq<Equation>, mgu: seq<Equation>)
    requires Running(problem, [Equation(t, t)] + ws, mgu)
    ensures Running(problem, ws, mgu)
    ensures EqVars(ws) <= EqVars([Equation(t, t)] + ws) && EqSize(ws) < EqSize([Equation(t, t)] + ws)
  {
    EqVarsCons(Equation(t, t), ws);
    assert Size(t) > 0;
    forall s ensures Unifies(s, [Equation(t, t)] + ws) <==> Unifies(s, ws) {
      UnifiesCons(s, Equation(t, t), ws);
    }
  }

  // Two lists of equal length are taken apart.
  lemma TakenApart(problem: seq<Equation>, l: Terms, r: Terms, ws: seq<Equation>, mgu: seq<Equation>)
    requires Running(problem, [Equation(List(l), List(r))] + ws, mgu) && Length(l) == Length(r)
    ensures Running(problem, Zip(l, r) + ws, mgu)
    ensures EqVars(Zip(l, r) + ws) == EqVars([Equation(List(l), List(r))] + ws)
    ensures EqSize(Zip(l, r) + ws) < EqSize([Equation(List(l), List(r))] + ws)
  {
    var q := Equation(List(l), List(r));
    EqVarsCons(q, ws);
    ConcatVars(Zip(l, r), ws);
    ZipVars(l, r);
    forall s ensures Unifies(s, [q] + ws) <==> Unifies(s, Zip(l, r) + ws) {
      UnifiesCons(s, q, ws);
      UnifiesConcat(s, Zip(l, r), ws);
      ZipSolutions(s, l, r);
    }
  }

  // A popped equation that no substitution solves: neither does the problem have a solution.
  lemma Clash(problem: seq<Equation>, q: Equation, ws: seq<Equation>, mgu: seq<Equation>)
    requires Equivalent(problem, [q] + ws, mgu)
    requires forall s :: Apply(s, q.left) != Apply(s, q.right)
    ensures forall s :: !Unifies(s, problem)
  {
    forall s ensures !Unifies(s, problem) {
      UnifiesCons(s, q, ws);
    }
  }

  // The variable x is eliminated with e.
  lemma Elimination(problem: seq<Equation>, x: Name, e: Term, ws: seq<Equation>, mgu: seq<Equation>,
                    ws': seq<Equation>, mgu': seq<Equation>)
    requires Running(problem, [Equation(Var(x), e)] + ws, mgu) && x !in Vars(e)
    requires Eliminated(ws, ws', x, e) && Eliminated(mgu, mgu', x, e)
    ensures Running(problem, ws', [Equation(Var(x), e)] + mgu')
    ensures EqVars(ws') < EqVars([Equation(Var(x), e)] + ws)
  {
    var q := Equation(Var(x), e);
    EqVarsCons(q, ws);
    EliminatedVars(ws, ws', x, e);
    assert x in EqVars([q] + ws) && x !in EqVars(ws');
    EliminationSolutions(problem, q, ws, mgu, ws', mgu');
    EliminationSolved(x, e, ws, mgu, ws', mgu');
  }

  lemma EliminationSolutions(problem: seq<Equation>, q: Equation, ws: seq<Equation>, mgu: seq<Equation>,
                             ws': seq<Equation>, mgu': seq<Equation>)
    requires Equivalent(problem, [q] + ws, mgu) && q.left.Var?
    requires Eliminated(ws, ws', q.left.v, q.right) && Eliminated(mgu, mgu', q.left.v, q.right)
    ensures Equivalent(problem, ws', [q] + mgu')
  {
    forall s ensures Unifies(s, problem) <==> Unifies(s, ws') && Unifies(s, [q] + mgu') {
      UnifiesCons(s, q, ws);
      UnifiesCons(s, q, mgu');
      if Apply(s, q.left) == Apply(s, q.right) {
        EliminatedSolutions(s, ws, ws', q.left.v, q.right);
        EliminatedSolutions(s, mgu, mgu', q.left.v, q.right);
      }
    }
  }

  // The left-hand sides are variables that elimination leaves alone.
  lemma KeptLeft(x: Name, e: Term, ws: seq<Equation>, mgu: seq<Equation>, mgu': seq<Equation>, i: nat)
    requires Solved(mgu, [Equation(Var(x), e)] + ws) && Eliminated(mgu, mgu', x, e) && i < |mgu|
    ensures mgu[i].left.Var? && mgu'[i].left == mgu[i].left != Var(x)
    ensures mgu[i].left.v !in EqVars(ws) && mgu[i].left.v !in Vars(e)
  {
    EqVarsCons(Equation(Var(x), e), ws);
  }

  lemma KeptRight(x: Name, e: Term, ws: seq<Equation>, mgu: seq<Equation>, mgu': seq<Equation>, y: Name, j: nat)
    requires Eliminated(mgu, mgu', x, e) && j < |mgu|
    requires y !in Vars(mgu[j].right) && y !in Vars(e)
    ensures y !in Vars(mgu'[j].right)
  {
    SubstVars(mgu[j].right, x, e);
  }

  lemma GoneRight(x: Name, e: Term, mgu: seq<Equation>, mgu': seq<Equation>, j: nat)
    requires Eliminated(mgu, mgu', x, e) && j < |mgu| && x !in Vars(e)
    ensures x !in Vars(mgu'[j].right)
  {
    SubstVars(mgu[j].right, x, e);
  }

  // Adding one binding to a set in solved form.
  lemma SolvedCons(q: Equation, mgu: seq<Equation>, ws: seq<Equation>)
    requires Solved(mgu, ws) && q.left.Var? && q.left.v !in EqVars(ws) && q.left.v !in Vars(q.right)
    requires forall i :: 0 <= i < |mgu| ==>
      mgu[i].left != q.left && mgu[i].left.v !in Vars(q.right) && q.left.v !in Vars(mgu[i].right)
    ensures Solved([q] + mgu, ws)
  {
    var g := [q] + mgu;
    assert forall i :: 0 < i < |g| ==> g[i] == mgu[i - 1];
  }

  lemma EliminationSolved(x: Name, e: Term, ws: seq<Equation>, mgu: seq<Equation>, ws': seq<Equation>,
                          mgu': seq<Equation>)
    requires Solved(mgu, [Equation(Var(x), e)] + ws) && x !in Vars(e)
    requires Eliminated(ws, ws', x, e) && Eliminated(mgu, mgu', x, e)
    ensures Solved([Equation(Var(x), e)] + mgu', ws')
  {
    EliminatedVars(ws, ws', x, e);
    forall i | 0 <= i < |mgu|
      ensures mgu[i].left.Var? && mgu'[i].left == mgu[i].left != Var(x) && x !in Vars(mgu'[i].right)
      ensures mgu[i].left.v !in EqVars(ws') && mgu[i].left.v !in Vars(e)
    {
      KeptLeft(x, e, ws, mgu, mgu', i);
      GoneRight(x, e, mgu, mgu', i);
    }
    forall i, j | 0 <= i < |mgu| && 0 <= j < |mgu| ensures mgu'[i].left.v !in Vars(mgu'[j].right) {
      KeptRight(x, e, ws, mgu, mgu', mgu[i].left.v, j);
    }
    SolvedCons(Equation(Var(x), e), mgu', ws');
  }

  // ---------- what an answer means ----------

  datatype Answer = NoUnifier | Bindings(list: seq<Equation>)

  // An association list of bindings as a substitution.
  ghost function Bind(list: seq<Equation>): Substitution {
    map i | 0 <= i < |list| && list[i].left.Var? && FirstBinding(list, i) :: list[i].left.v := list[i].right
  }

  ghost predicate FirstBinding(list: seq<Equation>, i: nat)
    requires i < |list|
  {
    forall j :: 0 <= j < i ==> list[j].left != list[i].left
  }

  // The bindings solve the problem, and every other solution factors through them.
  ghost predicate MostGeneral(list: seq<Equation>, problem: seq<Equation>) {
    && Unifies(Bind(list), problem)
    && forall s :: Unifies(s, problem) ==> forall t :: Apply(s, Apply(Bind(list), t)) == Apply(s, t)
  }

  // What an answer promises: bindings in solved form that are a most general unifier, or
  // no unifier at all.
  ghost predicate Correct(answer: Answer, problem: seq<Equation>) {
    match answer
    case NoUnifier => forall s :: !Unifies(s, problem)
    case Bindings(list) => Solved(list, []) && MostGeneral(list, problem)
  }

  lemma BindAt(list: seq<Equation>, i: nat)
    requires Solved(list, []) && i < |list|
    ensures list[i].left.v in Bind(list) && Bind(list)[list[i].left.v] == list[i].right
  {
    assert FirstBinding(list, i);
  }

  lemma BindKey(list: seq<Equation>, x: Name) returns (i: nat)
    requires x in Bind(list)
    ensures i < |list| && list[i].left == Var(x) && Bind(list)[x] == list[i].right
  {
    i :| 0 <= i < |list| && list[i].left.Var? && FirstBinding(list, i) && list[i].left.v == x;
  }

  // Bindings in solved form solve themselves.
  lemma SolvedIsSolution(list: seq<Equation>)
    requires Solved(list, [])
    ensures Unifies(Bind(list), list)
  {
    var g := Bind(list);
    forall i | 0 <= i < |list| ensures Apply(g, list[i].left) == Apply(g, list[i].right) {
      BindAt(list, i);
      forall x | x in g ensures x !in Vars(list[i].right) {
        var j := BindKey(list, x);
      }
      ApplyAbsent(g, list[i].right);
    }
  }

  lemma SolutionFactors(s: Substitution, list: seq<Equation>, t: Term)
    requires Solved(list, []) && Unifies(s, list)
    ensures Apply(s, Apply(Bind(list), t)) == Apply(s, t)
  {
    var g := Bind(list);
    forall x | x in g ensures Apply(s, Var(x)) == Apply(s, g[x]) {
      var i := BindKey(list, x);
    }
    Factor(s, g, t);
  }

  lemma Finished(problem: seq<Equation>, list: seq<Equation>)
    requires Running(problem, [], list)
    ensures MostGeneral(list, problem)
  {
    SolvedIsSolution(list);
    assert Unifies(Bind(list), []);
    forall s, t | Unifies(s, problem) ensures Apply(s, Apply(Bind(list), t)) == Apply(s, t) {
      SolutionFactors(s, list, t);
    }
  }

  lemma Started(problem: seq<Equation>)
    ensures Running(problem, problem, [])
  {
  }

  // Applying most general bindings twice is applying them once.
  lemma Idempotent(list: seq<Equation>, t: Term)
    requires Solved(list, [])
    ensures Apply(Bind(list), Apply(Bind(list), t)) == Apply(Bind(list), t)
  {
    SolvedIsSolution(list);
    SolutionFactors(Bind(list), list, t);
  }

  // ---------- the occurs check ----------

  predicate OccurCheck(x: Name, expr: Term) {
    match expr
    case List(args) => OccurInCells(x, args)
    case _ => expr == Var(x)
  }

  predicate OccurInCells(x: Name, cells: Terms) {
    cells.Cons? &&
    (cells.head == Var(x) || (cells.head.List? && OccurCheck(x, cells.head)) || OccurInCells(x, cells.tail))
  }

  lemma OccurCheckExact(x: Name, expr: Term)
    ensures OccurCheck(x, expr) <==> x in Vars(expr)
  {
    if expr.List? { OccurInCellsExact(x, expr.args); }
  }

  lemma {:induction false} OccurInCellsExact(x: Name, cells: Terms)
    ensures OccurInCells(x, cells) <==> x in VarsAll(cells)
  {
    if cells.Cons? {
      if cells.head.List? { OccurCheckExact(x, cells.head); }
      OccurInCellsExact(x, cells.tail);
    }
  }

  // ---------- the algorithm ----------

  // A stack of equations.
  class TermSet {
    var items: seq<Equation>

    constructor ()
      ensures items == []
    {
      items := [];
    }

    method Push(left: Term, right: Term)
      modifies this
      ensures items == [Equation(left, right)] + old(items)
    {
      items := [Equation(left, right)] + items;
    }

    method Pop() returns (left: Term, right: Term)
      requires items != []
      modifies this
      ensures old(items) == [Equation(left, right)] + items
    {
      left, right := items[0].left, items[0].right;
      items := items[1..];
    }

    // Replace a variable by an expression, in place, in both sides of every equation.
    method Substitute(expr: Term, x: Name)
      modifies this
      ensures Eliminated(old(items), items, x, expr)
    {
      var i := 0;
      while i < |items|
        invariant 0 <= i <= |items| == |old(items)|
        invariant forall k :: 0 <= k < i ==> items[k] == SubstEq(old(items)[k], x, expr)
        invariant forall k :: i <= k < |items| ==> items[k] == old(items)[k]
      {
        items := items[i := Equation(Subst(items[i].left, x, expr), items[i].right)];
        items := items[i := Equation(items[i].left, Subst(items[i].right, x, expr))];
        i := i + 1;
      }
    }

    method Free()
      modifies this
      ensures items == []
    {
      while items != []
        decreases |items|
      {
        items := items[1..];
      }
    }
  }

  // The two cells hold the same contents: the same atom, the same symbol or two empty lists.
  predicate SameContents(left: Term, right: Term) {
    match left
    case List(l) => l.Nil? && right == List(Nil)
    case _ => left == right
  }

  datatype Step = Go | Stop

  // ---------- the optional environment argument ----------

  datatype Outcome = Answered(answer: Answer) | ListExpected(entry: Term)

  const NIL := Atom(0)

  function First(ts: Terms): Term { if ts.Nil? then NIL else ts.head }
  function Second(ts: Terms): Term { if ts.Nil? then NIL else First(ts.tail) }

  predicate AllLists(env: Terms) {
    env.Nil? || (env.head.List? && AllLists(env.tail))
  }

  // The equations of the entries before the first one that is not a list, last one first.
  function EnvEquations(env: Terms): seq<Equation> {
    if env.Nil? || !env.head.List? then []
    else EnvEquations(env.tail) + [Equation(First(env.head.args), Second(env.head.args))]
  }

  ghost predicate SidesEqual(ws: seq<Equation>) {
    forall i :: 0 <= i < |ws| ==> ws[i].left == ws[i].right
  }

  // Equations left on ws do not matter to any later call exactly when their sides are equal.
  lemma LeftoversHarmless(ws: seq<Equation>)
    ensures (forall q: seq<Equation>, s :: Unifies(s, q + ws) <==> Unifies(s, q)) <==> SidesEqual(ws)
  {
    if forall q: seq<Equation>, s :: Unifies(s, q + ws) <==> Unifies(s, q) {
      assert Unifies(map[], []);
      assert Unifies(map[], [] + ws);
      UnifiesConcat(map[], [], ws);
      forall i | 0 <= i < |ws| ensures ws[i].left == ws[i].right {
        ApplyAbsent(map[], ws[i].left);
        ApplyAbsent(map[], ws[i].right);
      }
    }
    if SidesEqual(ws) {
      forall q: seq<Equation>, s ensures Unifies(s, q + ws) <==> Unifies(s, q) {
        UnifiesConcat(s, q, ws);
      }
    }
  }

  // Every entry before the first one that is not a list has two equal sides.
  predicate EqualSides(env: Terms) {
    env.Nil? || !env.head.List? || (First(env.head.args) == Second(env.head.args) && EqualSides(env.tail))
  }

  lemma SidesEqualMore(ws: seq<Equation>, e: Equation)
    ensures SidesEqual(ws + [e]) <==> SidesEqual(ws) && e.left == e.right
  {
    var all := ws + [e];
    assert all[|ws|] == e;
    assert forall i :: 0 <= i < |ws| ==> all[i] == ws[i];
  }

  lemma {:induction false} EqualEquations(env: Terms)
    ensures SidesEqual(EnvEquations(env)) <==> EqualSides(env)
  {
    if env.Cons? && env.head.List? {
      EqualEquations(env.tail);
      SidesEqualMore(EnvEquations(env.tail), Equation(First(env.head.args), Second(env.head.args)));
    }
  }

  // A call that fails on its environment leaves the unifiers of every later call unchanged
  // exactly when each entry before the failing one has two equal sides.
  lemma FailedCallHarmless(env: Terms)
    ensures (forall q: seq<Equation>, s :: Unifies(s, q + EnvEquations(env)) <==> Unifies(s, q)) <==> EqualSides(env)
  {
    LeftoversHarmless(EnvEquations(env));
    EqualEquations(env);
  }

  // After the environment ((1 2) 3) not even 5 unifies with 5.
  lemma LeftoversSpoilTheNextCall()
    ensures var env := Cons(List(Cons(Atom(1), Cons(Atom(2), Nil))), Cons(Atom(3), Nil));
            !AllLists(env) && !EqualSides(env)
                && forall s :: !Unifies(s, [Equation(Atom(5), Atom(5))] + EnvEquations(env))
  {
    var tail := Cons(Atom(3), Nil);
    var env := Cons(List(Cons(Atom(1), Cons(Atom(2), Nil))), tail);
    assert EnvEquations(tail) == [];
    var q := [Equation(Atom(5), Atom(5))] + EnvEquations(env);
    assert q[1] == Equation(Atom(1), Atom(2));
  }

  // The measure of a run: variables left to solve for, then total size.
  ghost predicate Smaller(ws': seq<Equation>, ws: seq<Equation>) {
    EqVars(ws') < EqVars(ws) || (EqVars(ws') == EqVars(ws) && EqSize(ws') < EqSize(ws))
  }

  lemma OccurCheckBoth(left: Term, right: Term)
    ensures left.Var? ==> (OccurCheck(left.v, right) <==> left.v in Vars(right))
    ensures right.Var? ==> (OccurCheck(right.v, left) <==> right.v in Vars(left))
  {
    if left.Var? { OccurCheckExact(left.v, right); }
    if right.Var? { OccurCheckExact(right.v, left); }
  }

  // Two different atoms, a variable inside a list it is equated with, lists of different
  // lengths, and an atom against a list: there is no unifier.
  ghost predicate Hopeless(left: Term, right: Term) {
    || (left.Atom? && right.Atom? && left != right)
    || (left.Atom? && right.List?)
    || (left.List? && right.Atom?)
    || (left.Var? && right.List? && left.v in Vars(right))
    || (left.List? && right.Var? && right.v in Vars(left))
    || (left.List? && right.List? && Length(left.args) != Length(right.args))
  }

  lemma NeverUnifies(problem: seq<Equation>, left: Term, right: Term, ws: seq<Equation>, mgu: seq<Equation>)
    requires Running(problem, [Equation(left, right)] + ws, mgu) && Hopeless(left, right)
    ensures forall s :: !Unifies(s, problem)
  {
    forall s ensures Apply(s, left) != Apply(s, right) {
      if Apply(s, left) == Apply(s, right) { NoSolution(s, left, right); }
    }
    Clash(problem, Equation(left, right), ws, mgu);
  }

  // The sides of an equation can be exchanged.
  lemma Flipped(problem: seq<Equation>, left: Term, right: Term, ws: seq<Equation>, mgu: seq<Equation>)
    requires Running(problem, [Equation(left, right)] + ws, mgu)
    ensures Running(problem, [Equation(right, left)] + ws, mgu)
    ensures EqVars([Equation(right, left)] + ws) == EqVars([Equation(left, right)] + ws)
  {
    EqVarsCons(Equation(left, right), ws);
    EqVarsCons(Equation(right, left), ws);
    forall s ensures Unifies(s, [Equation(left, right)] + ws) <==> Unifies(s, [Equation(right, left)] + ws) {
      UnifiesCons(s, Equation(left, right), ws);
      UnifiesCons(s, Equation(right, left), ws);
    }
  }

  class Unifier {
    const ws: TermSet
    const mgu: TermSet

    constructor ()
      ensures fresh(ws) && fresh(mgu) && ws != mgu
      ensures ws.items == [] && mgu.items == []
    {
      ws := new TermSet();
      mgu := new TermSet();
    }

    // A variable that the occurs check allows is solved for: eliminated everywhere, then bound.
    method Solve(x: Name, expr: Term, ghost problem: seq<Equation>)
      requires ws != mgu && x !in Vars(expr)
      requires Running(problem, [Equation(Var(x), expr)] + ws.items, mgu.items)
      modifies ws, mgu
      ensures Running(problem, ws.items, mgu.items)
      ensures EqVars(ws.items) < EqVars([Equation(Var(x), expr)] + old(ws.items))
    {
      mgu.Substitute(expr, x);
      ws.Substitute(expr, x);
      Elimination(problem, x, expr, old(ws.items), old(mgu.items), ws.items, mgu.items);
      mgu.Push(Var(x), expr);
    }

    // Two lists of equal length: the pairs of their elements are pushed.
    method PushPairs(left: Terms, right: Terms)
      requires Length(left) == Length(right)
      modifies ws
      ensures ws.items == Zip(left, right) + old(ws.items)
    {
      var l, r := left, right;
      while l.Cons?
        invariant Length(l) == Length(r)
        invariant Zip(l, r) + ws.items == Zip(left, right) + old(ws.items)
        decreases Length(l)
      {
        ws.Push(l.head, r.head);
        l, r := l.tail, r.tail;
      }
      assert Zip(l, r) == [];
    }

    // One equation popped from ws.
    method Reduce(left: Term, right: Term, ghost problem: seq<Equation>) returns (step: Step)
      requires ws != mgu
      requires Running(problem, [Equation(left, right)] + ws.items, mgu.items)
      modifies ws, mgu
      ensures step == Stop ==> forall s :: !Unifies(s, problem)
      ensures step == Go ==> Running(problem, ws.items, mgu.items)
      ensures step == Go ==> Smaller(ws.items, [Equation(left, right)] + old(ws.items))
    {
      if (left.Atom? && right.Atom?) || SameContents(left, right) {
        if left == right {
          Dropped(problem, left, ws.items, mgu.items);
          return Go;
        } else {
          NeverUnifies(problem, left, right, ws.items, mgu.items);
          return Stop;
        }
      }
      OccurCheckBoth(left, right);
      if left.Var? && !OccurCheck(left.v, right) {
        Solve(left.v, right, problem);
        return Go;
      }
      if right.Var? && !OccurCheck(right.v, left) {
        Flipped(problem, left, right, ws.items, mgu.items);
        Solve(right.v, left, problem);
        return Go;
      }
      if left.List? && right.List? {
        if Length(left.args) != Length(right.args) {
          NeverUnifies(problem, left, right, ws.items, mgu.items);
          return Stop;
        }
        TakenApart(problem, left.args, right.args, ws.items, mgu.items);
        PushPairs(left.args, right.args);
        return Go;
      }
      NeverUnifies(problem, left, right, ws.items, mgu.items);
      return Stop;
    }

    // Unify two expressions under the equations already on ws.
    method Unify(left: Term, right: Term) returns (answer: Answer)
      requires ws != mgu && mgu.items == []
      modifies ws, mgu
      ensures Correct(answer, [Equation(left, right)] + old(ws.items))
      ensures ws.items == [] && mgu.items == []
    {
      ws.Push(left, right);
      ghost var problem := ws.items;
      Started(problem);
      while ws.items != []
        invariant Running(problem, ws.items, mgu.items)
        decreases EqVars(ws.items), EqSize(ws.items)
      {
        var l, r := ws.Pop();
        var step := Reduce(l, r, problem);
        if step == Stop {
          answer := FinishUnify(false);
          return;
        }
      }
      Finished(problem, mgu.items);
      answer := FinishUnify(true);
    }

    // The primitive: the environment's equations are pushed first. An entry that is not a list
    // is an error, raised with the equations before it still on ws.
    method PUnify(left: Term, right: Term, env: Terms) returns (outcome: Outcome)
      requires ws != mgu && mgu.items == []
      modifies ws, mgu
      ensures mgu.items == []
      ensures outcome.Answered? <==> AllLists(env)
      ensures outcome.ListExpected? ==> ws.items == EnvEquations(env) + old(ws.items)
      ensures outcome.Answered? ==> ws.items == []
      ensures outcome.Answered? ==>
        Correct(outcome.answer, [Equation(left, right)] + (EnvEquations(env) + old(ws.items)))
    {
      var envHead := env;
      while envHead.Cons?
        invariant EnvEquations(envHead) + ws.items == EnvEquations(env) + old(ws.items)
        invariant AllLists(envHead) <==> AllLists(env)
        invariant mgu.items == []
        decreases Length(envHead)
      {
        if !envHead.head.List? {
          return ListExpected(envHead.head);
        }
        ws.Push(First(envHead.head.args), Second(envHead.head.args));
        envHead := envHead.tail;
      }
      assert ws.items == EnvEquations(env) + old(ws.items);
      var answer := Unify(left, right);
      return Answered(answer);
    }

    // Make the association list of all bound variables.
    method FinishUnify(success: bool) returns (result: Answer)
      requires ws != mgu
      modifies ws, mgu
      ensures ws.items == [] && mgu.items == []
      ensures result == if success then Bindings(old(mgu.items)) else NoUnifier
    {
      if !success {
        mgu.Free();
        ws.Free();
        return NoUnifier;
      }
      var list := [];
      while mgu.items != []
        invariant list + mgu.items == old(mgu.items)
        decreases |mgu.items|
      {
        var left, right := mgu.Pop();
        list := list + [Equation(left, right)];
      }
      ws.Free();
      return Bindings(list);
    }
  }
}
