// Terms of unification, substitutions, and what it means to unify.
module Terms {

  type Name = nat

  // Symbols starting in upper case are variables; all other symbols, numbers and strings are
  // atoms; lists are chains of cells.
  datatype Term = Var(v: Name) | Atom(a: int) | List(args: Terms)
  datatype Terms = Nil | Cons(head: Term, tail: Terms)

  datatype Equation = Equation(left: Term, right: Term)

  type Substitution = map<Name, Term>

  function Apply(s: Substitution, t: Term): Term {
    match t
    case Var(v) => if v in s then s[v] else t
    case Atom(_) => t
    case List(args) => List(ApplyAll(s, args))
  }

  function ApplyAll(s: Substitution, ts: Terms): Terms {
    match ts
    case Nil => Nil
    case Cons(t, rest) => Cons(Apply(s, t), ApplyAll(s, rest))
  }

  // Replace one variable by an expression.
  function Subst(t: Term, x: Name, e: Term): Term {
    match t
    case Var(v) => if v == x then e else t
    case Atom(_) => t
    case List(args) => List(SubstAll(args, x, e))
  }

  function SubstAll(ts: Terms, x: Name, e: Term): Terms {
    match ts
    case Nil => Nil
    case Cons(t, rest) => Cons(Subst(t, x, e), SubstAll(rest, x, e))
  }

  function Vars(t: Term): set<Name> {
    match t
    case Var(v) => {v}
    case Atom(_) => {}
    case List(args) => VarsAll(args)
  }

  function VarsAll(ts: Terms): set<Name> {
    match ts
    case Nil => {}
    case Cons(t, rest) => Vars(t) + VarsAll(rest)
  }

  function Size(t: Term): nat {
    match t
    case Var(_) => 1
    case Atom(_) => 1
    case List(args) => 1 + SizeAll(args)
  }

  function SizeAll(ts: Terms): nat {
    match ts
    case Nil => 0
    case Cons(t, rest) => Size(t) + SizeAll(rest)
  }

  ghost predicate Unifies(s: Substitution, eqs: seq<Equation>) {
    forall i :: 0 <= i < |eqs| ==> Apply(s, eqs[i].left) == Apply(s, eqs[i].right)
  }

  function EqVars(eqs: seq<Equation>): set<Name> {
    if eqs == [] then {} else Vars(eqs[0].left) + Vars(eqs[0].right) + EqVars(eqs[1..])
  }

  function EqSize(eqs: seq<Equation>): nat {
    if eqs == [] then 0 else Size(eqs[0].left) + Size(eqs[0].right) + EqSize(eqs[1..])
  }

  // ---------- eliminating a variable ----------

  // A substitution that solves x = e does not see the elimination of x.
  lemma {:induction false} ApplySubst(s: Substitution, t: Term, x: Name, e: Term)
    requires Apply(s, Var(x)) == Apply(s, e)
    ensures Apply(s, Subst(t, x, e)) == Apply(s, t)
  {
    if t.List? { ApplySubstAll(s, t.args, x, e); }
  }

  lemma {:induction false} ApplySubstAll(s: Substitution, ts: Terms, x: Name, e: Term)
    requires Apply(s, Var(x)) == Apply(s, e)
    ensures ApplyAll(s, SubstAll(ts, x, e)) == ApplyAll(s, ts)
  {
    if ts.Cons? {
      ApplySubst(s, ts.head, x, e);
      ApplySubstAll(s, ts.tail, x, e);
    }
  }

  lemma {:induction false} SubstVars(t: Term, x: Name, e: Term)
    ensures Vars(Subst(t, x, e)) <= (Vars(t) - {x}) + Vars(e)
  {
    if t.List? { SubstVarsAll(t.args, x, e); }
  }

  lemma {:induction false} SubstVarsAll(ts: Terms, x: Name, e: Term)
    ensures VarsAll(SubstAll(ts, x, e)) <= (VarsAll(ts) - {x}) + Vars(e)
  {
    if ts.Cons? {
      SubstVars(ts.head, x, e);
      SubstVarsAll(ts.tail, x, e);
    }
  }

  lemma {:induction false} SubstAbsent(t: Term, x: Name, e: Term)
    requires x !in Vars(t)
    ensures Subst(t, x, e) == t
  {
    if t.List? { SubstAbsentAll(t.args, x, e); }
  }

  lemma {:induction false} SubstAbsentAll(ts: Terms, x: Name, e: Term)
    requires x !in VarsAll(ts)
    ensures SubstAll(ts, x, e) == ts
  {
    if ts.Cons? {
      SubstAbsent(ts.head, x, e);
      SubstAbsentAll(ts.tail, x, e);
    }
  }

  // ---------- applying a substitution ----------

  // Nothing happens to a term without bound variables.
  lemma {:induction false} ApplyAbsent(s: Substitution, t: Term)
    requires Vars(t) !! s.Keys
    ensures Apply(s, t) == t
  {
    if t.List? { ApplyAbsentAll(s, t.args); }
  }

  lemma {:induction false} ApplyAbsentAll(s: Substitution, ts: Terms)
    requires VarsAll(ts) !! s.Keys
    ensures ApplyAll(s, ts) == ts
  {
    if ts.Cons? {
      ApplyAbsent(s, ts.head);
      ApplyAbsentAll(s, ts.tail);
    }
  }

  // s solves the bindings of g, so g can be applied first.
  lemma {:induction false} Factor(s: Substitution, g: Substitution, t: Term)
    requires forall x :: x in g ==> Apply(s, Var(x)) == Apply(s, g[x])
    ensures Apply(s, Apply(g, t)) == Apply(s, t)
  {
    if t.List? { FactorAll(s, g, t.args); }
  }

  lemma {:induction false} FactorAll(s: Substitution, g: Substitution, ts: Terms)
    requires forall x :: x in g ==> Apply(s, Var(x)) == Apply(s, g[x])
    ensures ApplyAll(s, ApplyAll(g, ts)) == ApplyAll(s, ts)
  {
    if ts.Cons? {
      Factor(s, g, ts.head);
      FactorAll(s, g, ts.tail);
    }
  }

  // ---------- clashes ----------

  function Length(ts: Terms): nat {
    if ts.Nil? then 0 else 1 + Length(ts.tail)
  }

  lemma {:induction false} ApplyLength(s: Substitution, ts: Terms)
    ensures Length(ApplyAll(s, ts)) == Length(ts)
  {
    if ts.Cons? { ApplyLength(s, ts.tail); }
  }

  // A term that contains x is at least as large as what x stands for.
  lemma {:induction false} OccurrenceSize(s: Substitution, x: Name, t: Term)
    requires x in Vars(t)
    ensures Size(Apply(s, t)) >= Size(Apply(s, Var(x)))
    ensures t.List? ==> Size(Apply(s, t)) > Size(Apply(s, Var(x)))
  {
    if t.List? { OccurrenceSizeAll(s, x, t.args); }
  }

  lemma {:induction false} OccurrenceSizeAll(s: Substitution, x: Name, ts: Terms)
    requires x in VarsAll(ts)
    ensures SizeAll(ApplyAll(s, ts)) >= Size(Apply(s, Var(x)))
  {
    if x in Vars(ts.head) {
      OccurrenceSize(s, x, ts.head);
    } else {
      OccurrenceSizeAll(s, x, ts.tail);
    }
  }

  // Equations that no substitution solves.
  lemma NoSolution(s: Substitution, l: Term, r: Term)
    requires Apply(s, l) == Apply(s, r)
    ensures l.Atom? && r.Atom? ==> l == r
    ensures !(l.Atom? && r.List?) && !(l.List? && r.Atom?)
    ensures l.Var? && r.List? ==> l.v !in Vars(r)
    ensures l.List? && r.Var? ==> r.v !in Vars(l)
    ensures l.List? && r.List? ==> Length(l.args) == Length(r.args)
  {
    if l.Var? && r.List? && l.v in Vars(r) { OccurrenceSize(s, l.v, r); }
    if l.List? && r.Var? && r.v in Vars(l) { OccurrenceSize(s, r.v, l); }
    if l.List? && r.List? {
      ApplyLength(s, l.args);
      ApplyLength(s, r.args);
    }
  }

  // ---------- sets of equations ----------

  lemma EqVarsCons(e: Equation, eqs: seq<Equation>)
    ensures EqVars([e] + eqs) == Vars(e.left) + Vars(e.right) + EqVars(eqs)
    ensures EqSize([e] + eqs) == Size(e.left) + Size(e.right) + EqSize(eqs)
  {
    assert ([e] + eqs)[1..] == eqs;
  }

  lemma UnifiesCons(s: Substitution, e: Equation, eqs: seq<Equation>)
    ensures Unifies(s, [e] + eqs) <==> Apply(s, e.left) == Apply(s, e.right) && Unifies(s, eqs)
  {
    var q := [e] + eqs;
    if Unifies(s, q) {
      assert q[0] == e;
      forall i | 0 <= i < |eqs| ensures Apply(s, eqs[i].left) == Apply(s, eqs[i].right) {
        assert q[i + 1] == eqs[i];
      }
    }
  }

  // The equations between the elements of two lists.
  function Zip(l: Terms, r: Terms): seq<Equation>
    requires Length(l) == Length(r)
  {
    if l.Nil? then [] else Zip(l.tail, r.tail) + [Equation(l.head, r.head)]
  }
}
