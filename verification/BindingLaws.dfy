// Laws of dynamic scope, for every program: what evaluation can and cannot change.
module BindingLaws {
  import opened DeepBinding
  import opened ShallowBinding

  // The same bindings in the same order, with every binding that is shadowed by another one,
  // and every global value that is shadowed, untouched.
  ghost predicate Kept(w: World, w': World) {
    && |w.env| <= |w'.env|
    && forall j :: 0 <= j < |w.env| ==> KeptAt(w, w', j)
  }

  ghost predicate KeptAt(w: World, w': World, j: nat)
    requires j < |w.env| && j < |w'.env|
  {
    w'.env[j].x == w.env[j].x && LookupAt(w', j, w.env[j].x) == LookupAt(w, j, w.env[j].x)
  }

  ghost predicate KeptAll(w: World, w': World) {
    Kept(w, w') && |w'.env| == |w.env|
  }

  lemma KeptTransitive(w: World, w1: World, w2: World)
    requires Kept(w, w1) && Kept(w1, w2)
    ensures Kept(w, w2)
  {
    forall j | 0 <= j < |w.env| ensures KeptAt(w, w2, j) {
      assert KeptAt(w, w1, j) && KeptAt(w1, w2, j);
    }
  }

  lemma AssignKept(w: World, x: Sym, v: Value)
    ensures KeptAll(w, Assign(w, x, v))
  {
    AssignLookup(w, x, v, 0, x);
    forall j | 0 <= j < |w.env| ensures KeptAt(w, Assign(w, x, v), j) {
      AssignLookup(w, x, v, j, w.env[j].x);
    }
  }

  lemma PushKept(w: World, x: Sym, v: Value)
    ensures Kept(w, Push(w, x, v))
  {
    forall j | 0 <= j < |w.env| ensures KeptAt(w, Push(w, x, v), j) {
      SamePrefix(w, Push(w, x, v), j, w.env[j].x);
    }
  }

  lemma CutKept(w: World, w': World)
    requires Kept(w, w')
    ensures KeptAll(w, Cut(w', |w.env|))
  {
    forall j | 0 <= j < |w.env| ensures KeptAt(w, Cut(w', |w.env|), j) {
      assert KeptAt(w, w', j);
      SamePrefix(w', Cut(w', |w.env|), j, w.env[j].x);
    }
  }

  // No evaluation, however it ends, adds or removes a visible binding or touches a shadowed one.
  lemma {:induction false} EvalKept(protected: set<Sym>, depth: nat, calls: nat, e: Expr, w: World)
    ensures KeptAll(w, Eval(protected, depth, calls, e, w).1)
    decreases calls, 0, 0
  {
    if !e.Const? && !e.Ref? && calls > 0 { FormKept(protected, depth, calls - 1, e, w); }
  }

  lemma {:induction false} FormKept(protected: set<Sym>, depth: nat, calls: nat, e: Expr, w: World)
    requires !e.Const? && !e.Ref?
    ensures KeptAll(w, EvalForm(protected, depth, calls, e, w).1)
    decreases calls, 4, 0
  {
    match e
    case Set(x, e1) =>
      var m := Eval(protected, depth, calls, e1, w);
      EvalKept(protected, depth, calls, e1, w);
      if m.0.Done? { ThenAssigned(w, m.1, x, m.0.v); }
    case Throw(e1) => EvalKept(protected, depth, calls, e1, w);
    case Catch(e1, x) => CatchKept(protected, depth, calls, e1, x, w);
    case Call(f, args) => CallKept(protected, depth, calls, f, args, w);
    case Let(inits, body) => LetKept(protected, depth, calls, inits, body, w);
    case LetNested(inits, body) => LetNestedKept(protected, depth, calls, inits, body, w);
  }

  lemma ThenAssigned(w: World, w1: World, x: Sym, v: Value)
    requires KeptAll(w, w1)
    ensures KeptAll(w, Assign(w1, x, v))
  {
    AssignKept(w1, x, v);
    KeptTransitive(w, w1, Assign(w1, x, v));
  }

  lemma {:induction false} CatchKept(protected: set<Sym>, depth: nat, calls: nat, e: Expr, x: Option<Sym>, w: World)
    ensures KeptAll(w, EvalForm(protected, depth, calls, Catch(e, x), w).1)
    decreases calls, 3, 0
  {
    var w0 := Assign(w, IT, Nil);
    var m := Eval(protected, depth + 1, calls, e, w0);
    AssignKept(w, IT, Nil);
    EvalKept(protected, depth + 1, calls, e, w0);
    KeptTransitive(w, w0, m.1);
    if x.Some? {
      forall v ensures KeptAll(w, Assign(m.1, x.value, v)) {
        ThenAssigned(w, m.1, x.value, v);
      }
    }
  }

  lemma {:induction false} CallKept(protected: set<Sym>, depth: nat, calls: nat, f: Expr, args: seq<Expr>, w: World)
    ensures KeptAll(w, EvalForm(protected, depth, calls, Call(f, args), w).1)
    decreases calls, 3, 0
  {
    var m := Eval(protected, depth, calls, f, w);
    EvalKept(protected, depth, calls, f, w);
    if m.0.Done? && m.0.v.Lambda? {
      var a := EvalArgs(protected, depth, calls, args, 0, m.1);
      ArgsKept(protected, depth, calls, args, 0, m.1);
      KeptTransitive(w, m.1, a.1);
      if a.0.Values? {
        ApplyKept(protected, depth, calls, m.0.v, a.0.vs, a.1);
        KeptTransitive(w, a.1, Apply(protected, depth, calls, m.0.v, a.0.vs, a.1).1);
      }
    }
  }

  lemma {:induction false} ArgsKept(protected: set<Sym>, depth: nat, calls: nat, args: seq<Expr>, i: nat, w: World)
    requires i <= |args|
    ensures KeptAll(w, EvalArgs(protected, depth, calls, args, i, w).1)
    decreases calls, 1, |args| - i
  {
    if i < |args| {
      var m := Eval(protected, depth, calls, args[i], w);
      EvalKept(protected, depth, calls, args[i], w);
      ArgsKept(protected, depth, calls, args, i + 1, m.1);
      KeptTransitive(w, m.1, EvalArgs(protected, depth, calls, args, i + 1, m.1).1);
    }
  }

  lemma {:induction false} InitsKept(protected: set<Sym>, depth: nat, calls: nat, inits: seq<Init>, i: nat, w: World)
    requires i <= |inits|
    ensures KeptAll(w, EvalInits(protected, depth, calls, inits, i, w).1)
    decreases calls, 1, |inits| - i
  {
    if i < |inits| {
      var m := Eval(protected, depth, calls, inits[i].e, w);
      EvalKept(protected, depth, calls, inits[i].e, w);
      InitsKept(protected, depth, calls, inits, i + 1, m.1);
      KeptTransitive(w, m.1, EvalInits(protected, depth, calls, inits, i + 1, m.1).1);
    }
  }

  lemma {:induction false} BodyKept(protected: set<Sym>, depth: nat, calls: nat, body: seq<Expr>, i: nat, v: Value,
                                    w: World)
    requires i <= |body|
    ensures KeptAll(w, EvalBody(protected, depth, calls, body, i, v, w).1)
    decreases calls, 1, |body| - i
  {
    if i < |body| {
      var m := Eval(protected, depth, calls, body[i], w);
      EvalKept(protected, depth, calls, body[i], w);
      if m.0.Done? {
        BodyKept(protected, depth, calls, body, i + 1, m.0.v, m.1);
        KeptTransitive(w, m.1, EvalBody(protected, depth, calls, body, i + 1, m.0.v, m.1).1);
      }
    }
  }

  lemma {:induction false} ParamsKept(protected: set<Sym>, depth: nat, calls: nat, params: seq<Param>, i: nat,
                                      vs: seq<Value>, w: World)
    requires i <= |params|
    ensures Kept(w, BindParams(protected, depth, calls, params, i, vs, w).1)
    decreases calls, 1, |params| - i
  {
    if i < |params| {
      var m :=
        if i < |vs| then (Done(vs[i]), w)
        else if params[i].default.Some? then Eval(protected, depth, calls, params[i].default.value, w)
        else (Done(Nil), w);
      if params[i].default.Some? { EvalKept(protected, depth, calls, params[i].default.value, w); }
      assert Kept(w, m.1);
      if m.0.Done? {
        var w1 := Push(m.1, params[i].x, m.0.v);
        PushKept(m.1, params[i].x, m.0.v);
        KeptTransitive(w, m.1, w1);
        ParamsKept(protected, depth, calls, params, i + 1, vs, w1);
        KeptTransitive(w, w1, BindParams(protected, depth, calls, params, i + 1, vs, w1).1);
      }
    }
  }

  lemma {:induction false} ApplyKept(protected: set<Sym>, depth: nat, calls: nat, f: Value, vs: seq<Value>, w: World)
    requires f.Lambda?
    ensures KeptAll(w, Apply(protected, depth, calls, f, vs, w).1)
    decreases calls, 2, 0
  {
    var m := BindParams(protected, depth, calls, f.params, 0, vs, w);
    ParamsKept(protected, depth, calls, f.params, 0, vs, w);
    CutKept(w, m.1);
    if m.0.Done? {
      var w1 := Push(m.1, ARGS, ListOf(Rest(vs, |f.params|)));
      PushKept(m.1, ARGS, ListOf(Rest(vs, |f.params|)));
      KeptTransitive(w, m.1, w1);
      BodyThenCut(protected, depth, calls, f.body, w, w1);
    }
  }

  lemma {:induction false} BodyThenCut(protected: set<Sym>, depth: nat, calls: nat, body: seq<Expr>, w: World,
                                       w1: World)
    requires Kept(w, w1)
    ensures KeptAll(w, Cut(EvalBody(protected, depth, calls, body, 0, Nil, w1).1, |w.env|))
    decreases calls, 1, |body| + 1
  {
    var m := EvalBody(protected, depth, calls, body, 0, Nil, w1);
    BodyKept(protected, depth, calls, body, 0, Nil, w1);
    KeptTransitive(w, w1, m.1);
    CutKept(w, m.1);
  }

  lemma {:induction false} BindInitsKept(protected: set<Sym>, inits: seq<Init>, i: nat, vs: seq<Value>, w: World)
    requires i <= |inits|
    ensures Kept(w, BindInits(protected, inits, i, vs, w).1)
    decreases |inits| - i
  {
    if i < |inits| {
      var v := if i < |vs| then vs[i] else Nil;
      var w1 := Push(w, inits[i].x, v);
      PushKept(w, inits[i].x, v);
      BindInitsKept(protected, inits, i + 1, vs, w1);
      KeptTransitive(w, w1, BindInits(protected, inits, i + 1, vs, w1).1);
    }
  }

  lemma {:induction false} LetKept(protected: set<Sym>, depth: nat, calls: nat, inits: seq<Init>, body: seq<Expr>,
                                   w: World)
    ensures KeptAll(w, EvalForm(protected, depth, calls, Let(inits, body), w).1)
    decreases calls, 3, 0
  {
    var m := EvalInits(protected, depth, calls, inits, 0, w);
    InitsKept(protected, depth, calls, inits, 0, w);
    if m.0.Values? {
      var b := BindInits(protected, inits, 0, m.0.vs, m.1);
      BindInitsKept(protected, inits, 0, m.0.vs, m.1);
      CutKept(m.1, b.1);
      BodyThenCut(protected, depth, calls, body, m.1, b.1);
      KeptTransitive(w, m.1, Cut(b.1, |m.1.env|));
      KeptTransitive(w, m.1, Cut(EvalBody(protected, depth, calls, body, 0, Nil, b.1).1, |m.1.env|));
    }
  }

  lemma {:induction false} NestedKept(protected: set<Sym>, depth: nat, calls: nat, inits: seq<Init>, i: nat, w: World)
    requires i <= |inits|
    ensures Kept(w, BindNested(protected, depth, calls, inits, i, w).1)
    decreases calls, 1, |inits| - i
  {
    if i < |inits| {
      var m := Eval(protected, depth, calls, inits[i].e, w);
      EvalKept(protected, depth, calls, inits[i].e, w);
      if m.0.Done? {
        var w1 := Push(m.1, inits[i].x, m.0.v);
        PushKept(m.1, inits[i].x, m.0.v);
        KeptTransitive(w, m.1, w1);
        NestedKept(protected, depth, calls, inits, i + 1, w1);
        KeptTransitive(w, w1, BindNested(protected, depth, calls, inits, i + 1, w1).1);
      }
    }
  }

  lemma {:induction false} LetNestedKept(protected: set<Sym>, depth: nat, calls: nat, inits: seq<Init>,
                                         body: seq<Expr>, w: World)
    ensures KeptAll(w, EvalForm(protected, depth, calls, LetNested(inits, body), w).1)
    decreases calls, 3, 0
  {
    var m := BindNested(protected, depth, calls, inits, 0, w);
    NestedKept(protected, depth, calls, inits, 0, w);
    CutKept(w, m.1);
    if m.0.Done? { BodyThenCut(protected, depth, calls, body, w, m.1); }
  }

  // ---------- let gives back what it borrowed ----------

  lemma {:induction false} SkipBindings(w: World, n: nat, j: nat, x: Sym)
    requires n <= j <= |w.env| && forall k :: n <= k < j ==> w.env[k].x != x
    ensures LookupAt(w, j, x) == LookupAt(w, n, x)
    decreases j
  {
    if j > n { SkipBindings(w, n, j - 1, x); }
  }

  // Below a binding of x, the value of x does not change.
  lemma {:induction false} ShadowedBelow(w: World, w': World, n: nat, j: nat, x: Sym)
    requires KeptAll(w, w') && n <= j < |w.env| && w.env[j].x == x
    ensures LookupAt(w', n, x) == LookupAt(w, n, x)
    decreases j
  {
    assert KeptAt(w, w', j);
    var k := Newest(w.env, j, x);
    if k >= n {
      ShadowedBelow(w, w', n, k, x);
    } else {
      forall i | n <= i < j ensures w'.env[i].x != x {
        assert KeptAt(w, w', i);
      }
      SkipBindings(w, n, j, x);
      SkipBindings(w', n, j, x);
    }
  }

  lemma {:induction false} BindInitsPushes(protected: set<Sym>, inits: seq<Init>, i: nat, vs: seq<Value>, w: World)
    requires i <= |inits|
    ensures var m := BindInits(protected, inits, i, vs, w);
            m.1.globals == w.globals && |w.env| <= |m.1.env| && m.1.env[..|w.env|] == w.env
    ensures var m := BindInits(protected, inits, i, vs, w);
            m.0.Done? ==>
              && |m.1.env| == |w.env| + |inits| - i
              && forall k :: i <= k < |inits| ==> m.1.env[|w.env| + k - i].x == inits[k].x
    decreases |inits| - i
  {
    if i < |inits| {
      var v := if i < |vs| then vs[i] else Nil;
      var w1 := Push(w, inits[i].x, v);
      BindInitsPushes(protected, inits, i + 1, vs, w1);
      var m := BindInits(protected, inits, i + 1, vs, w1);
      assert m.1.env[..|w.env|] == m.1.env[..|w1.env|][..|w.env|];
      assert m.1.env[|w.env|] == m.1.env[..|w1.env|][|w.env|];
    } else {
      assert w.env[..|w.env|] == w.env;
    }
  }

  // However a body ends, once the bindings above the first n are gone a symbol bound there has
  // the value it had below them when the body began.
  lemma BodyRestores(protected: set<Sym>, depth: nat, calls: nat, body: seq<Expr>, n: nat, j: nat, w: World)
    requires n <= j < |w.env|
    ensures Lookup(Cut(EvalBody(protected, depth, calls, body, 0, Nil, w).1, n), w.env[j].x)
        == LookupAt(w, n, w.env[j].x)
  {
    var w' := EvalBody(protected, depth, calls, body, 0, Nil, w).1;
    BodyKept(protected, depth, calls, body, 0, Nil, w);
    ShadowedBelow(w, w', n, j, w.env[j].x);
    SamePrefix(w', Cut(w', n), n, w.env[j].x);
  }

  // Whatever the body of a let does, and however it ends, the symbols the let binds have
  // afterwards the values they had when it bound them.
  lemma LetRestores(protected: set<Sym>, depth: nat, calls: nat, inits: seq<Init>, body: seq<Expr>, w: World, k: nat)
    requires EvalInits(protected, depth, calls, inits, 0, w).0.Values? && k < |inits|
    ensures Lookup(EvalForm(protected, depth, calls, Let(inits, body), w).1, inits[k].x)
         == Lookup(EvalInits(protected, depth, calls, inits, 0, w).1, inits[k].x)
  {
    var x := inits[k].x;
    var m := EvalInits(protected, depth, calls, inits, 0, w);
    var n := |m.1.env|;
    var b := BindInits(protected, inits, 0, m.0.vs, m.1);
    BindInitsPushes(protected, inits, 0, m.0.vs, m.1);
    assert forall i :: 0 <= i < n ==> b.1.env[i] == b.1.env[..n][i];
    SamePrefix(m.1, b.1, n, x);
    if b.0.Done? {
      BodyRestores(protected, depth, calls, body, n, n + k, b.1);
    } else {
      SamePrefix(b.1, Cut(b.1, n), n, x);
    }
  }

  // The bindings a letn makes.
  lemma {:induction false} NestedBinds(protected: set<Sym>, depth: nat, calls: nat, inits: seq<Init>, i: nat,
                                       w: World, k: nat)
    requires i <= k < |inits| && BindNested(protected, depth, calls, inits, i, w).0.Done?
    ensures var w' := BindNested(protected, depth, calls, inits, i, w).1;
            |w.env| + k - i < |w'.env| && w'.env[|w.env| + k - i].x == inits[k].x
    decreases |inits| - i
  {
    var m := Eval(protected, depth, calls, inits[i].e, w);
    EvalKept(protected, depth, calls, inits[i].e, w);
    var w1 := Push(m.1, inits[i].x, m.0.v);
    if k == i {
      NestedKept(protected, depth, calls, inits, i + 1, w1);
      assert KeptAt(w1, BindNested(protected, depth, calls, inits, i, w).1, |w.env|);
    } else {
      NestedBinds(protected, depth, calls, inits, i + 1, w1, k);
    }
  }

  // The same for letn: below its bindings the symbols are as they were when its body began.
  lemma LetNestedRestores(protected: set<Sym>, depth: nat, calls: nat, inits: seq<Init>, body: seq<Expr>, w: World,
                          k: nat)
    requires BindNested(protected, depth, calls, inits, 0, w).0.Done? && k < |inits|
    ensures |w.env| <= |BindNested(protected, depth, calls, inits, 0, w).1.env|
    ensures Lookup(EvalForm(protected, depth, calls, LetNested(inits, body), w).1, inits[k].x)
         == LookupAt(BindNested(protected, depth, calls, inits, 0, w).1, |w.env|, inits[k].x)
  {
    NestedBinds(protected, depth, calls, inits, 0, w, k);
    var w1 := BindNested(protected, depth, calls, inits, 0, w).1;
    BodyRestores(protected, depth, calls, body, |w.env|, |w.env| + k, w1);
  }

  // The bindings a call makes for its parameters.
  lemma {:induction false} ParamsBind(protected: set<Sym>, depth: nat, calls: nat, params: seq<Param>, i: nat,
                                      vs: seq<Value>, w: World, k: nat)
    requires i <= k < |params| && BindParams(protected, depth, calls, params, i, vs, w).0.Done?
    ensures var w' := BindParams(protected, depth, calls, params, i, vs, w).1;
            |w.env| + k - i < |w'.env| && w'.env[|w.env| + k - i].x == params[k].x
    decreases |params| - i
  {
    var m :=
      if i < |vs| then (Done(vs[i]), w)
      else if params[i].default.Some? then Eval(protected, depth, calls, params[i].default.value, w)
      else (Done(Nil), w);
    if i >= |vs| && params[i].default.Some? { EvalKept(protected, depth, calls, params[i].default.value, w); }
    var w1 := Push(m.1, params[i].x, m.0.v);
    if k == i {
      ParamsKept(protected, depth, calls, params, i + 1, vs, w1);
      assert KeptAt(w1, BindParams(protected, depth, calls, params, i, vs, w).1, |w.env|);
    } else {
      ParamsBind(protected, depth, calls, params, i + 1, vs, w1, k);
    }
  }

  // The same for the parameters of a call.
  lemma CallRestores(protected: set<Sym>, depth: nat, calls: nat, f: Value, vs: seq<Value>, w: World, k: nat)
    requires f.Lambda? && k < |f.params| && BindParams(protected, depth, calls, f.params, 0, vs, w).0.Done?
    ensures |w.env| <= |BindParams(protected, depth, calls, f.params, 0, vs, w).1.env|
    ensures Lookup(Apply(protected, depth, calls, f, vs, w).1, f.params[k].x)
         == LookupAt(BindParams(protected, depth, calls, f.params, 0, vs, w).1, |w.env|, f.params[k].x)
  {
    ParamsBind(protected, depth, calls, f.params, 0, vs, w, k);
    var w1 := BindParams(protected, depth, calls, f.params, 0, vs, w).1;
    var w2 := Push(w1, ARGS, ListOf(Rest(vs, |f.params|)));
    BodyRestores(protected, depth, calls, f.body, |w.env|, |w.env| + k, w2);
    SamePrefix(w1, w2, |w.env|, f.params[k].x);
  }

  // A symbol bound by a let since the catch has its earlier value after a throw, an error or a
  // normal end; only the symbol that receives the result of the catch is set.
  lemma CatchRestores(protected: set<Sym>, depth: nat, calls: nat, inits: seq<Init>, body: seq<Expr>, x: Option<Sym>,
                      w: World, k: nat)
    requires k < |inits| && calls > 0 && (x.Some? ==> x.value !in protected && x.value != inits[k].x)
    requires EvalInits(protected, depth + 1, calls - 1, inits, 0, Assign(w, IT, Nil)).0.Values?
    ensures Lookup(EvalForm(protected, depth, calls, Catch(Let(inits, body), x), w).1, inits[k].x)
         == Lookup(EvalInits(protected, depth + 1, calls - 1, inits, 0, Assign(w, IT, Nil)).1, inits[k].x)
  {
    var w0 := Assign(w, IT, Nil);
    LetRestores(protected, depth + 1, calls - 1, inits, body, w0, k);
    var m := Eval(protected, depth + 1, calls, Let(inits, body), w0);
    if x.Some? {
      var v := match m.0 case Done(v) => v case Thrown(v) => v case Failed(error) => Message(error) case Fatal => Nil;
      AssignLookup(m.1, x.value, v, |m.1.env|, inits[k].x);
    }
  }

  // ---------- a deeper call stack ----------

  // An evaluation that does not run out of call stack is the same with more of it.
  lemma {:induction false} MoreCalls(protected: set<Sym>, depth: nat, calls: nat, e: Expr, w: World)
    requires !Eval(protected, depth, calls, e, w).0.Fatal?
    ensures Eval(protected, depth, calls + 1, e, w) == Eval(protected, depth, calls, e, w)
    decreases calls, 0, 0
  {
    if !e.Const? && !e.Ref? { MoreCallsForm(protected, depth, calls - 1, e, w); }
  }

  lemma {:induction false} MoreCallsForm(protected: set<Sym>, depth: nat, calls: nat, e: Expr, w: World)
    requires !e.Const? && !e.Ref? && !EvalForm(protected, depth, calls, e, w).0.Fatal?
    ensures EvalForm(protected, depth, calls + 1, e, w) == EvalForm(protected, depth, calls, e, w)
    decreases calls, 4, 0
  {
    match e
    case Set(x, e1) => if x !in protected { MoreCalls(protected, depth, calls, e1, w); }
    case Throw(e1) => if depth > 0 { MoreCalls(protected, depth, calls, e1, w); }
    case Catch(e1, x) =>
      if !(x.Some? && x.value in protected) { MoreCalls(protected, depth + 1, calls, e1, Assign(w, IT, Nil)); }
    case Call(f, args) => MoreCallsCall(protected, depth, calls, f, args, w);
    case Let(inits, body) => MoreCallsLet(protected, depth, calls, inits, body, w);
    case LetNested(inits, body) =>
      var m := BindNested(protected, depth, calls, inits, 0, w);
      MoreCallsNested(protected, depth, calls, inits, 0, w);
      if m.0.Done? { MoreCallsBody(protected, depth, calls, body, 0, Nil, m.1); }
  }

  lemma {:induction false} MoreCallsCall(protected: set<Sym>, depth: nat, calls: nat, f: Expr, args: seq<Expr>,
                                         w: World)
    requires !EvalForm(protected, depth, calls, Call(f, args), w).0.Fatal?
    ensures EvalForm(protected, depth, calls + 1, Call(f, args), w)
        == EvalForm(protected, depth, calls, Call(f, args), w)
    decreases calls, 3, 0
  {
    var m := Eval(protected, depth, calls, f, w);
    MoreCalls(protected, depth, calls, f, w);
    if m.0.Done? && m.0.v.Lambda? {
      var a := EvalArgs(protected, depth, calls, args, 0, m.1);
      MoreCallsArgs(protected, depth, calls, args, 0, m.1);
      if a.0.Values? { MoreCallsApply(protected, depth, calls, m.0.v, a.0.vs, a.1); }
    }
  }

  lemma {:induction false} MoreCallsLet(protected: set<Sym>, depth: nat, calls: nat, inits: seq<Init>,
                                        body: seq<Expr>, w: World)
    requires !EvalForm(protected, depth, calls, Let(inits, body), w).0.Fatal?
    ensures EvalForm(protected, depth, calls + 1, Let(inits, body), w)
        == EvalForm(protected, depth, calls, Let(inits, body), w)
    decreases calls, 3, 0
  {
    var m := EvalInits(protected, depth, calls, inits, 0, w);
    MoreCallsInits(protected, depth, calls, inits, 0, w);
    if m.0.Values? {
      var b := BindInits(protected, inits, 0, m.0.vs, m.1);
      if b.0.Done? { MoreCallsBody(protected, depth, calls, body, 0, Nil, b.1); }
    }
  }

  lemma {:induction false} MoreCallsApply(protected: set<Sym>, depth: nat, calls: nat, f: Value, vs: seq<Value>,
                                          w: World)
    requires f.Lambda? && !Apply(protected, depth, calls, f, vs, w).0.Fatal?
    ensures Apply(protected, depth, calls + 1, f, vs, w) == Apply(protected, depth, calls, f, vs, w)
    decreases calls, 2, 0
  {
    var m := BindParams(protected, depth, calls, f.params, 0, vs, w);
    MoreCallsParams(protected, depth, calls, f.params, 0, vs, w);
    if m.0.Done? {
      MoreCallsBody(protected, depth, calls, f.body, 0, Nil, Push(m.1, ARGS, ListOf(Rest(vs, |f.params|))));
    }
  }

  lemma {:induction false} MoreCallsArgs(protected: set<Sym>, depth: nat, calls: nat, args: seq<Expr>, i: nat, w: World)
    requires i <= |args| && EvalArgs(protected, depth, calls, args, i, w).0 != Broken(Fatal)
    ensures EvalArgs(protected, depth, calls + 1, args, i, w) == EvalArgs(protected, depth, calls, args, i, w)
    decreases calls, 1, |args| - i
  {
    if i < |args| {
      var m := Eval(protected, depth, calls, args[i], w);
      MoreCalls(protected, depth, calls, args[i], w);
      if m.0.Done? { MoreCallsArgs(protected, depth, calls, args, i + 1, m.1); }
    }
  }

  lemma {:induction false} MoreCallsInits(protected: set<Sym>, depth: nat, calls: nat, inits: seq<Init>, i: nat,
                                          w: World)
    requires i <= |inits| && EvalInits(protected, depth, calls, inits, i, w).0 != Broken(Fatal)
    ensures EvalInits(protected, depth, calls + 1, inits, i, w) == EvalInits(protected, depth, calls, inits, i, w)
    decreases calls, 1, |inits| - i
  {
    if i < |inits| {
      var m := Eval(protected, depth, calls, inits[i].e, w);
      MoreCalls(protected, depth, calls, inits[i].e, w);
      if m.0.Done? { MoreCallsInits(protected, depth, calls, inits, i + 1, m.1); }
    }
  }

  lemma {:induction false} MoreCallsBody(protected: set<Sym>, depth: nat, calls: nat, body: seq<Expr>, i: nat,
                                         v: Value, w: World)
    requires i <= |body| && !EvalBody(protected, depth, calls, body, i, v, w).0.Fatal?
    ensures EvalBody(protected, depth, calls + 1, body, i, v, w) == EvalBody(protected, depth, calls, body, i, v, w)
    decreases calls, 1, |body| - i
  {
    if i < |body| {
      var m := Eval(protected, depth, calls, body[i], w);
      MoreCalls(protected, depth, calls, body[i], w);
      if m.0.Done? { MoreCallsBody(protected, depth, calls, body, i + 1, m.0.v, m.1); }
    }
  }

  lemma {:induction false} MoreCallsParams(protected: set<Sym>, depth: nat, calls: nat, params: seq<Param>, i: nat,
                                           vs: seq<Value>, w: World)
    requires i <= |params| && !BindParams(protected, depth, calls, params, i, vs, w).0.Fatal?
    ensures BindParams(protected, depth, calls + 1, params, i, vs, w)
        == BindParams(protected, depth, calls, params, i, vs, w)
    decreases calls, 1, |params| - i
  {
    if i < |params| {
      if i >= |vs| && params[i].default.Some? { MoreCalls(protected, depth, calls, params[i].default.value, w); }
      var m :=
        if i < |vs| then (Done(vs[i]), w)
        else if params[i].default.Some? then Eval(protected, depth, calls, params[i].default.value, w)
        else (Done(Nil), w);
      if m.0.Done? && params[i].x !in protected {
        MoreCallsParams(protected, depth, calls, params, i + 1, vs, Push(m.1, params[i].x, m.0.v));
      }
    }
  }

  lemma {:induction false} MoreCallsNested(protected: set<Sym>, depth: nat, calls: nat, inits: seq<Init>, i: nat,
                                           w: World)
    requires i <= |inits| && !BindNested(protected, depth, calls, inits, i, w).0.Fatal?
    ensures BindNested(protected, depth, calls + 1, inits, i, w) == BindNested(protected, depth, calls, inits, i, w)
    decreases calls, 1, |inits| - i
  {
    if i < |inits| && inits[i].x !in protected {
      var m := Eval(protected, depth, calls, inits[i].e, w);
      MoreCalls(protected, depth, calls, inits[i].e, w);
      if m.0.Done? {
        MoreCallsNested(protected, depth, calls, inits, i + 1, Push(m.1, inits[i].x, m.0.v));
      }
    }
  }
}
