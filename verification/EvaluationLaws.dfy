// What the forms of the language mean, stated by their results: which values parameters and
// symbols get, what a body returns, and what catch makes of each ending.
module EvaluationLaws {
  import opened DeepBinding
  import opened ShallowBinding
  import opened BindingLaws

  // ---------- worlds ----------

  function Consts(vs: seq<Value>): (es: seq<Expr>)
    ensures |es| == |vs| && forall i :: 0 <= i < |vs| ==> es[i] == Const(vs[i])
  {
    if vs == [] then [] else Consts(vs[..|vs| - 1]) + [Const(vs[|vs| - 1])]
  }

  // More bindings, the last one the newest.
  function With(w: World, bs: seq<Binding>): World {
    World(w.env + bs, w.globals)
  }

  // x has been given the value v, and no other symbol has changed.
  ghost predicate Given(w: World, w': World, x: Sym, v: Value) {
    |w'.env| == |w.env| && forall y :: Lookup(w', y) == if y == x then v else Lookup(w, y)
  }

  lemma AssignGives(w: World, x: Sym, v: Value)
    ensures Given(w, Assign(w, x, v), x, v)
  {
    forall y ensures Lookup(Assign(w, x, v), y) == if y == x then v else Lookup(w, y) {
      AssignLookup(w, x, v, |w.env|, y);
    }
  }

  // The newest binding of a symbol is the one that is seen.
  lemma {:induction false} NewestSeen(w: World, n: nat, j: nat, x: Sym)
    requires j < n <= |w.env| && w.env[j].x == x && forall k :: j < k < n ==> w.env[k].x != x
    ensures LookupAt(w, n, x) == w.env[j].v
    decreases n
  {
    if j < n - 1 { NewestSeen(w, n - 1, j, x); }
  }

  lemma CutAll(w: World, w': World)
    requires |w'.env| == |w.env|
    ensures Cut(w', |w.env|) == w'
  {
    assert w'.env[..|w.env|] == w'.env;
  }

  lemma CutTwice(w: World, n: nat, m: nat)
    requires n <= m <= |w.env|
    ensures Cut(Cut(w, m), n) == Cut(w, n)
  {
    assert w.env[..m][..n] == w.env[..n];
  }

  // ---------- bodies ----------

  lemma EmptyBody(protected: set<Sym>, depth: nat, calls: nat, w: World)
    ensures Eval(protected, depth, calls + 1, Let([], []), w) == (Done(Nil), w)
  {
    BodyResult(protected, depth, calls, [], w);
  }

  lemma {:induction false} BodySnoc(protected: set<Sym>, depth: nat, calls: nat, body: seq<Expr>, e: Expr, i: nat,
                                    v: Value, w: World)
    requires i <= |body|
    ensures var m := EvalBody(protected, depth, calls, body, i, v, w);
      EvalBody(protected, depth, calls, body + [e], i, v, w)
      == if m.0.Done? then Eval(protected, depth, calls, e, m.1) else m
    decreases |body| - i
  {
    if i < |body| {
      assert (body + [e])[i] == body[i];
      var m := Eval(protected, depth, calls, body[i], w);
      if m.0.Done? { BodySnoc(protected, depth, calls, body, e, i + 1, m.0.v, m.1); }
    } else {
      var m := Eval(protected, depth, calls, e, w);
      assert (body + [e])[i] == e;
      assert m.0.Done? ==> EvalBody(protected, depth, calls, body + [e], i + 1, m.0.v, m.1) == m;
    }
  }

  // A body is evaluated in order and returns what its last expression does; it stops at the
  // first expression that does not end normally.
  lemma BodyLast(protected: set<Sym>, depth: nat, calls: nat, body: seq<Expr>, e: Expr, w: World)
    ensures var m := Eval(protected, depth, calls + 1, Let([], body), w);
      Eval(protected, depth, calls + 1, Let([], body + [e]), w)
      == if m.0.Done? then Eval(protected, depth, calls, e, m.1) else m
  {
    BodyResult(protected, depth, calls, body, w);
    BodyResult(protected, depth, calls, body + [e], w);
    BodySnoc(protected, depth, calls, body, e, 0, Nil, w);
  }

  // With nothing to bind, let is its body.
  lemma BodyResult(protected: set<Sym>, depth: nat, calls: nat, body: seq<Expr>, w: World)
    ensures Eval(protected, depth, calls + 1, Let([], body), w) == EvalBody(protected, depth, calls, body, 0, Nil, w)
  {
    assert EvalInits(protected, depth, calls, [], 0, w) == (Values([]), w);
    assert BindInits(protected, [], 0, [], w) == (Done(Nil), w);
    BodyKept(protected, depth, calls, body, 0, Nil, w);
    CutAll(w, EvalBody(protected, depth, calls, body, 0, Nil, w).1);
  }

  // ---------- arguments ----------

  // The first expressions, evaluated one after the other: their values and the worlds between.
  ghost predicate InOrder(protected: set<Sym>, depth: nat, calls: nat, es: seq<Expr>, vs: seq<Value>, ws: seq<World>) {
    |vs| <= |es| && |ws| == |vs| + 1
    && forall i :: 0 <= i < |vs| ==> Eval(protected, depth, calls, es[i], ws[i]) == (Done(vs[i]), ws[i + 1])
  }

  // ... and then they are all evaluated, or the next one does not end normally.
  ghost predicate InOrderUpTo(protected: set<Sym>, depth: nat, calls: nat, es: seq<Expr>, vs: seq<Value>,
                              ws: seq<World>) {
    && InOrder(protected, depth, calls, es, vs, ws)
    && (|vs| < |es| ==> !Eval(protected, depth, calls, es[|vs|], ws[|vs|]).0.Done?)
  }

  lemma {:induction false} OrderExists(protected: set<Sym>, depth: nat, calls: nat, es: seq<Expr>, w: World, n: nat)
    returns (vs: seq<Value>, ws: seq<World>)
    requires n <= |es|
    ensures InOrder(protected, depth, calls, es, vs, ws) && ws[0] == w && |vs| <= n
    ensures |vs| < n ==> !Eval(protected, depth, calls, es[|vs|], ws[|vs|]).0.Done?
  {
    if n == 0 {
      vs, ws := [], [w];
    } else {
      vs, ws := OrderExists(protected, depth, calls, es, w, n - 1);
      if |vs| == n - 1 {
        var m := Eval(protected, depth, calls, es[n - 1], ws[n - 1]);
        if m.0.Done? { vs, ws := vs + [m.0.v], ws + [m.1]; }
      }
    }
  }

  lemma {:induction false} ArgsInOrder(protected: set<Sym>, depth: nat, calls: nat, args: seq<Expr>, vs: seq<Value>,
                                       ws: seq<World>, i: nat)
    requires InOrderUpTo(protected, depth, calls, args, vs, ws) && i <= |vs|
    ensures vs[0..] == vs
    ensures EvalArgs(protected, depth, calls, args, i, ws[i])
         == if |vs| == |args| then (Values(vs[i..]), ws[|vs|])
            else var m := Eval(protected, depth, calls, args[|vs|], ws[|vs|]); (Broken(m.0), m.1)
    decreases |vs| - i
  {
    if i < |vs| {
      ArgsInOrder(protected, depth, calls, args, vs, ws, i + 1);
      assert [vs[i]] + vs[i + 1..] == vs[i..];
    }
    assert vs[0..] == vs;
  }

  lemma {:induction false} ConstArgs(protected: set<Sym>, depth: nat, calls: nat, vs: seq<Value>, i: nat, w: World)
    requires i <= |vs|
    ensures vs[0..] == vs
    ensures EvalArgs(protected, depth, calls, Consts(vs), i, w) == (Values(vs[i..]), w)
    decreases |vs| - i
  {
    assert |Consts(vs)| == |vs|;
    if i < |vs| {
      assert Consts(vs)[i] == Const(vs[i]);
      ConstArgs(protected, depth, calls, vs, i + 1, w);
      assert Eval(protected, depth, calls, Const(vs[i]), w) == (Done(vs[i]), w);
      assert [vs[i]] + vs[i + 1..] == vs[i..];
    }
    assert vs[0..] == vs;
  }

  // A call evaluates its arguments from left to right in the environment of the call, and then
  // is the call with their values; the first that does not end normally ends the call.
  lemma CallEvaluates(protected: set<Sym>, depth: nat, calls: nat, f: Expr, args: seq<Expr>, lambda: Value,
                      vs: seq<Value>, ws: seq<World>, w: World)
    requires InOrderUpTo(protected, depth, calls, args, vs, ws) && lambda.Lambda?
    requires Eval(protected, depth, calls, f, w) == (Done(lambda), ws[0])
    ensures Eval(protected, depth, calls + 1, Call(f, args), w)
         == if |vs| < |args| then Eval(protected, depth, calls, args[|vs|], ws[|vs|])
            else Eval(protected, depth, calls + 1, Call(Const(lambda), Consts(vs)), ws[|vs|])
  {
    ArgsInOrder(protected, depth, calls, args, vs, ws, 0);
    CallForm(protected, depth, calls, f, args, lambda, w, ws[0]);
    if |vs| == |args| {
      ConstArgs(protected, depth, calls, vs, 0, ws[|vs|]);
      CallForm(protected, depth, calls, Const(lambda), Consts(vs), lambda, ws[|vs|], ws[|vs|]);
    }
  }

  lemma CallForm(protected: set<Sym>, depth: nat, calls: nat, f: Expr, args: seq<Expr>, lambda: Value, w: World,
                 w1: World)
    requires lambda.Lambda? && Eval(protected, depth, calls, f, w) == (Done(lambda), w1)
    ensures var a := EvalArgs(protected, depth, calls, args, 0, w1);
      Eval(protected, depth, calls + 1, Call(f, args), w)
      == if a.0.Broken? then (a.0.o, a.1) else Apply(protected, depth, calls, lambda, a.0.vs, a.1)
  {
  }

  // The head of a call must be a lambda.
  lemma CallHead(protected: set<Sym>, depth: nat, calls: nat, f: Expr, args: seq<Expr>, w: World)
    ensures var m := Eval(protected, depth, calls, f, w); var r := Eval(protected, depth, calls + 1, Call(f, args), w);
            && (!m.0.Done? ==> r == m)
            && (m.0.Done? && !m.0.v.Lambda? ==> r == (Failed(InvalidFunction), m.1))
  {
  }

  // ---------- parameters ----------

  // What parameter i is bound to: its argument, else the value of its default expression, else nil.
  function ParameterOutcome(protected: set<Sym>, depth: nat, calls: nat, params: seq<Param>, vs: seq<Value>, i: nat,
                            w: World): (Outcome, World)
    requires i < |params|
  {
    if i < |vs| then (Done(vs[i]), w)
    else match params[i].default
      case Some(e) => Eval(protected, depth, calls, e, w)
      case None => (Done(Nil), w)
  }

  // The first parameters have been bound, one after the other, to us.
  ghost predicate Bound(protected: set<Sym>, depth: nat, calls: nat, params: seq<Param>, vs: seq<Value>,
                        us: seq<Value>, ws: seq<World>) {
    && |us| <= |params| && |ws| == |us| + 1
    && forall i :: 0 <= i < |us| ==>
         var m := ParameterOutcome(protected, depth, calls, params, vs, i, ws[i]);
         && m.0 == Done(us[i]) && params[i].x !in protected
         && ws[i + 1] == With(m.1, [Binding(params[i].x, us[i])])
  }

  lemma {:induction false} ParamsBound(protected: set<Sym>, depth: nat, calls: nat, params: seq<Param>, vs: seq<Value>,
                                       us: seq<Value>, ws: seq<World>, i: nat)
    requires Bound(protected, depth, calls, params, vs, us, ws) && i <= |us|
    ensures BindParams(protected, depth, calls, params, i, vs, ws[i])
         == BindParams(protected, depth, calls, params, |us|, vs, ws[|us|])
    decreases |us| - i
  {
    if i < |us| { ParamsBound(protected, depth, calls, params, vs, us, ws, i + 1); }
  }

  // A lambda applied to values: each parameter is bound with the ones before it in effect, then
  // $args to the arguments that are left, and the body is evaluated; in the end all of these
  // bindings are gone. The first parameter that is protected, or whose default expression does
  // not end normally, ends the call.
  lemma CallMeaning(protected: set<Sym>, depth: nat, calls: nat, params: seq<Param>, body: seq<Expr>, vs: seq<Value>,
                    us: seq<Value>, ws: seq<World>)
    requires Bound(protected, depth, calls, params, vs, us, ws)
    ensures var r := Eval(protected, depth, calls + 1, Call(Const(Lambda(params, body)), Consts(vs)), ws[0]);
      var rest := if |params| <= |vs| then vs[|params|..] else [];
      if |us| == |params| then
        var m := Eval(protected, depth, calls + 1, Let([], body), With(ws[|us|], [Binding(ARGS, ListOf(rest))]));
        r == (m.0, Cut(m.1, |ws[0].env|))
      else
        var m := ParameterOutcome(protected, depth, calls, params, vs, |us|, ws[|us|]);
        if !m.0.Done? then r == (m.0, Cut(m.1, |ws[0].env|))
        else params[|us|].x in protected ==>
          r == (Failed(SymbolProtected(params[|us|].x)), Cut(m.1, |ws[0].env|))
  {
    ConstArgs(protected, depth, calls, vs, 0, ws[0]);
    CallForm(protected, depth, calls, Const(Lambda(params, body)), Consts(vs), Lambda(params, body), ws[0], ws[0]);
    ParamsBound(protected, depth, calls, params, vs, us, ws, 0);
    if |us| == |params| {
      BodyResult(protected, depth, calls, body, Push(ws[|us|], ARGS, ListOf(Rest(vs, |params|))));
    }
  }

  // Every call gets that far or binds all parameters.
  lemma {:induction false} BoundExists(protected: set<Sym>, depth: nat, calls: nat, params: seq<Param>, vs: seq<Value>,
                                       w: World, n: nat)
    returns (us: seq<Value>, ws: seq<World>)
    requires n <= |params|
    ensures Bound(protected, depth, calls, params, vs, us, ws) && ws[0] == w && |us| <= n
    ensures |us| < n ==>
      || !ParameterOutcome(protected, depth, calls, params, vs, |us|, ws[|us|]).0.Done?
      || params[|us|].x in protected
  {
    if n == 0 {
      us, ws := [], [w];
    } else {
      us, ws := BoundExists(protected, depth, calls, params, vs, w, n - 1);
      if |us| == n - 1 {
        var m := ParameterOutcome(protected, depth, calls, params, vs, n - 1, ws[n - 1]);
        if m.0.Done? && params[n - 1].x !in protected {
          var us1, ws1 := us + [m.0.v], ws + [With(m.1, [Binding(params[n - 1].x, m.0.v)])];
          forall i | 0 <= i < n
            ensures var m := ParameterOutcome(protected, depth, calls, params, vs, i, ws1[i]);
              && m.0 == Done(us1[i]) && params[i].x !in protected
              && ws1[i + 1] == With(m.1, [Binding(params[i].x, us1[i])])
          {
            assert ws1[i] == ws[i];
            if i < n - 1 { assert ws1[i + 1] == ws[i + 1] && us1[i] == us[i]; }
          }
          us, ws := us1, ws1;
        }
      }
    }
  }

  // The values of the first k parameters where no default is needed.
  function Supplied(params: seq<Param>, vs: seq<Value>, k: nat): (bs: seq<Binding>)
    requires k <= |params|
    ensures |bs| == k
    ensures forall i :: 0 <= i < k ==> bs[i] == Binding(params[i].x, if i < |vs| then vs[i] else Nil)
  {
    if k == 0 then []
    else Supplied(params, vs, k - 1) + [Binding(params[k - 1].x, if k - 1 < |vs| then vs[k - 1] else Nil)]
  }

  lemma {:induction false} ParamsSupplied(protected: set<Sym>, depth: nat, calls: nat, params: seq<Param>,
                                          vs: seq<Value>, w: World, k: nat)
    requires k <= |params| && forall i :: 0 <= i < k ==> params[i].x !in protected
    requires forall i :: |vs| <= i < k ==> params[i].default.None?
    ensures BindParams(protected, depth, calls, params, 0, vs, w)
         == BindParams(protected, depth, calls, params, k, vs, With(w, Supplied(params, vs, k)))
  {
    if k > 0 {
      ParamsSupplied(protected, depth, calls, params, vs, w, k - 1);
      var w1 := With(w, Supplied(params, vs, k - 1));
      var v := if k - 1 < |vs| then vs[k - 1] else Nil;
      assert Push(w1, params[k - 1].x, v) == With(w, Supplied(params, vs, k));
    } else {
      assert With(w, []) == w;
    }
  }

  ghost predicate Usable(protected: set<Sym>, params: seq<Param>) {
    && (forall i :: 0 <= i < |params| ==> params[i].x !in protected)
    && forall i, j :: 0 <= i < j < |params| ==> params[i].x != params[j].x
  }

  lemma {:induction false} MoreSupplied(protected: set<Sym>, depth: nat, calls: nat, params: seq<Param>,
                                        vs: seq<Value>, w: World, k: nat)
    requires k <= |params| && |w.env| >= k && forall i :: k <= i < |params| ==> params[i].x !in protected
    requires forall i :: k <= i < |params| ==> i < |vs| || params[i].default.None?
    ensures var m := BindParams(protected, depth, calls, params, k, vs, w);
      && m.0 == Done(Nil) && m.1.globals == w.globals && |m.1.env| == |w.env| + |params| - k
      && (forall j :: 0 <= j < |w.env| ==> m.1.env[j] == w.env[j])
      && forall j :: k <= j < |params| ==> m.1.env[|w.env| + j - k].x == params[j].x
    decreases |params| - k
  {
    if k < |params| {
      var v := if k < |vs| then vs[k] else Nil;
      var w1 := Push(w, params[k].x, v);
      MoreSupplied(protected, depth, calls, params, vs, w1, k + 1);
      var m := BindParams(protected, depth, calls, params, k + 1, vs, w1);
      forall j | k <= j < |params| ensures m.1.env[|w.env| + j - k].x == params[j].x {
        if j > k { assert m.1.env[|w1.env| + j - (k + 1)].x == params[j].x; }
      }
    }
  }

  // Reading a parameter: its argument if there is one, else its default expression in the world
  // with the parameters before it, else nil.
  lemma ReadParameter(protected: set<Sym>, depth: nat, calls: nat, params: seq<Param>, vs: seq<Value>, w: World, k: nat)
    requires Usable(protected, params) && k < |params| && params[k].x != ARGS
    requires forall i :: |vs| <= i < |params| && i != k ==> params[i].default.None?
    ensures var o := Eval(protected, depth, calls + 1,
                          Call(Const(Lambda(params, [Ref(params[k].x)])), Consts(vs)), w).0;
      if k < |vs| then o == Done(vs[k])
      else match params[k].default
        case None => o == Done(Nil)
        case Some(e) => o == Eval(protected, depth, calls, e, With(w, Supplied(params, vs, k))).0
  {
    var lambda, x := Lambda(params, [Ref(params[k].x)]), params[k].x;
    ConstArgs(protected, depth, calls, vs, 0, w);
    CallForm(protected, depth, calls, Const(lambda), Consts(vs), lambda, w, w);
    ParamsSupplied(protected, depth, calls, params, vs, w, k);
    var wk := With(w, Supplied(params, vs, k));
    var m := ParameterOutcome(protected, depth, calls, params, vs, k, wk);
    if k >= |vs| && params[k].default.Some? { EvalKept(protected, depth, calls, params[k].default.value, wk); }
    if m.0.Done? {
      StillSeen(protected, depth, calls, params, vs, m.1, k, m.0.v);
      var w2 := BindParams(protected, depth, calls, params, k + 1, vs, Push(m.1, x, m.0.v)).1;
      OneRef(protected, depth, calls, x, Push(w2, ARGS, ListOf(Rest(vs, |params|))));
    }
  }

  // Neither the parameters after it nor $args hide a parameter.
  lemma StillSeen(protected: set<Sym>, depth: nat, calls: nat, params: seq<Param>, vs: seq<Value>, w: World, k: nat,
                  v: Value)
    requires Usable(protected, params) && k < |params| && params[k].x != ARGS && |w.env| >= k
    requires forall i :: k < i < |params| ==> i < |vs| || params[i].default.None?
    ensures var m := BindParams(protected, depth, calls, params, k + 1, vs, Push(w, params[k].x, v));
      m.0 == Done(Nil) && forall u :: Lookup(Push(m.1, ARGS, u), params[k].x) == v
  {
    var x, w1 := params[k].x, Push(w, params[k].x, v);
    MoreSupplied(protected, depth, calls, params, vs, w1, k + 1);
    var w2 := BindParams(protected, depth, calls, params, k + 1, vs, w1).1;
    forall u ensures Lookup(Push(w2, ARGS, u), x) == v {
      var w3 := Push(w2, ARGS, u);
      forall j | |w.env| < j < |w3.env| ensures w3.env[j].x != x {
        if j < |w2.env| {
          var i := j - |w1.env| + k + 1;
          assert w2.env[|w1.env| + i - (k + 1)].x == params[i].x;
        }
      }
      NewestSeen(w3, |w3.env|, |w.env|, x);
    }
  }

  lemma OneRef(protected: set<Sym>, depth: nat, calls: nat, x: Sym, w: World)
    ensures EvalBody(protected, depth, calls, [Ref(x)], 0, Nil, w) == (Done(Lookup(w, x)), w)
  {
    assert Eval(protected, depth, calls, [Ref(x)][0], w) == (Done(Lookup(w, x)), w);
    assert EvalBody(protected, depth, calls, [Ref(x)], 1, Lookup(w, x), w) == (Done(Lookup(w, x)), w);
  }

  // Reading $args: the arguments that no parameter has taken.
  lemma ReadArgs(protected: set<Sym>, depth: nat, calls: nat, params: seq<Param>, vs: seq<Value>, us: seq<Value>,
                 ws: seq<World>)
    requires Bound(protected, depth, calls, params, vs, us, ws) && |us| == |params|
    ensures Eval(protected, depth, calls + 1, Call(Const(Lambda(params, [Ref(ARGS)])), Consts(vs)), ws[0]).0
         == Done(ListOf(if |params| <= |vs| then vs[|params|..] else []))
  {
    CallMeaning(protected, depth, calls, params, [Ref(ARGS)], vs, us, ws);
    var w := With(ws[|us|], [Binding(ARGS, ListOf(if |params| <= |vs| then vs[|params|..] else []))]);
    BodyResult(protected, depth, calls, [Ref(ARGS)], w);
    OneRef(protected, depth, calls, ARGS, w);
    NewestSeen(w, |w.env|, |w.env| - 1, ARGS);
  }

  // ---------- let and letn ----------

  function Exprs(inits: seq<Init>): (es: seq<Expr>)
    ensures |es| == |inits| && forall i :: 0 <= i < |inits| ==> es[i] == inits[i].e
  {
    if inits == [] then [] else Exprs(inits[..|inits| - 1]) + [inits[|inits| - 1].e]
  }

  // The first n symbols with their values.
  function Paired(inits: seq<Init>, vs: seq<Value>, n: nat): (bs: seq<Binding>)
    requires n <= |inits| == |vs|
    ensures |bs| == n && forall i :: 0 <= i < n ==> bs[i] == Binding(inits[i].x, vs[i])
  {
    if n == 0 then [] else Paired(inits, vs, n - 1) + [Binding(inits[n - 1].x, vs[n - 1])]
  }

  lemma {:induction false} InitsAreArgs(protected: set<Sym>, depth: nat, calls: nat, inits: seq<Init>, i: nat, w: World)
    requires i <= |inits|
    ensures EvalInits(protected, depth, calls, inits, i, w)
         == EvalArgs(protected, depth, calls, Exprs(inits), i, w)
    decreases |inits| - i
  {
    if i < |inits| {
      var m := Eval(protected, depth, calls, inits[i].e, w);
      InitsAreArgs(protected, depth, calls, inits, i + 1, m.1);
    }
  }

  lemma {:induction false} InitsPaired(protected: set<Sym>, inits: seq<Init>, vs: seq<Value>, w: World, n: nat)
    requires n <= |inits| == |vs| && forall i :: 0 <= i < n ==> inits[i].x !in protected
    ensures BindInits(protected, inits, 0, vs, w) == BindInits(protected, inits, n, vs, With(w, Paired(inits, vs, n)))
  {
    if n > 0 {
      InitsPaired(protected, inits, vs, w, n - 1);
      var w1 := With(w, Paired(inits, vs, n - 1));
      assert Push(w1, inits[n - 1].x, vs[n - 1]) == With(w, Paired(inits, vs, n));
    } else {
      assert With(w, []) == w;
    }
  }

  // let computes all values in order before it binds any symbol, binds each symbol to its own
  // value for the body, and takes the bindings back.
  lemma LetMeaning(protected: set<Sym>, depth: nat, calls: nat, inits: seq<Init>, body: seq<Expr>, vs: seq<Value>,
                   ws: seq<World>)
    requires InOrderUpTo(protected, depth, calls, Exprs(inits), vs, ws)
    requires forall i :: 0 <= i < |inits| ==> inits[i].x !in protected
    ensures var r := Eval(protected, depth, calls + 1, Let(inits, body), ws[0]); var w := ws[|vs|];
      if |vs| < |inits| then r == Eval(protected, depth, calls, inits[|vs|].e, w)
      else
        var m := Eval(protected, depth, calls + 1, Let([], body), With(w, Paired(inits, vs, |inits|)));
        r == (m.0, Cut(m.1, |w.env|))
  {
    InitsAreArgs(protected, depth, calls, inits, 0, ws[0]);
    ArgsInOrder(protected, depth, calls, Exprs(inits), vs, ws, 0);
    if |vs| == |inits| {
      InitsPaired(protected, inits, vs, ws[|vs|], |inits|);
      BodyResult(protected, depth, calls, body, With(ws[|vs|], Paired(inits, vs, |inits|)));
    }
  }

  // A let that binds a protected symbol fails once the values are known.
  lemma LetProtected(protected: set<Sym>, depth: nat, calls: nat, inits: seq<Init>, body: seq<Expr>, vs: seq<Value>,
                     ws: seq<World>, k: nat)
    requires InOrder(protected, depth, calls, Exprs(inits), vs, ws) && |vs| == |inits| && k < |inits|
    requires inits[k].x in protected && forall i :: 0 <= i < k ==> inits[i].x !in protected
    ensures Eval(protected, depth, calls + 1, Let(inits, body), ws[0])
         == (Failed(SymbolProtected(inits[k].x)), ws[|vs|])
  {
    InitsAreArgs(protected, depth, calls, inits, 0, ws[0]);
    ArgsInOrder(protected, depth, calls, Exprs(inits), vs, ws, 0);
    ProtectedAt(protected, inits, vs, ws[|vs|], k);
  }

  lemma ProtectedAt(protected: set<Sym>, inits: seq<Init>, vs: seq<Value>, w: World, k: nat)
    requires k < |inits| == |vs|
    requires inits[k].x in protected && forall i :: 0 <= i < k ==> inits[i].x !in protected
    ensures var m := BindInits(protected, inits, 0, vs, w);
      m.0 == Failed(SymbolProtected(inits[k].x)) && Cut(m.1, |w.env|) == w
  {
    InitsPaired(protected, inits, vs, w, k);
    assert With(w, Paired(inits, vs, k)).env[..|w.env|] == w.env;
  }

  lemma {:induction false} NestedShift(protected: set<Sym>, depth: nat, calls: nat, init: Init, inits: seq<Init>,
                                       i: nat, w: World)
    requires i <= |inits|
    ensures BindNested(protected, depth, calls, [init] + inits, i + 1, w)
         == BindNested(protected, depth, calls, inits, i, w)
    decreases |inits| - i
  {
    if i < |inits| {
      assert ([init] + inits)[i + 1] == inits[i];
      var m := Eval(protected, depth, calls, inits[i].e, w);
      if m.0.Done? { NestedShift(protected, depth, calls, init, inits, i + 1, Push(m.1, inits[i].x, m.0.v)); }
    }
  }

  // letn binds its first symbol, and in that world is the letn of the others.
  lemma LetNestedMeaning(protected: set<Sym>, depth: nat, calls: nat, init: Init, inits: seq<Init>, body: seq<Expr>,
                         w: World)
    ensures var r := Eval(protected, depth, calls + 1, LetNested([init] + inits, body), w);
      var v := Eval(protected, depth, calls, init.e, w);
      if init.x in protected then r == (Failed(SymbolProtected(init.x)), w)
      else if !v.0.Done? then r == v
      else
        var m := Eval(protected, depth, calls + 1, LetNested(inits, body), With(v.1, [Binding(init.x, v.0.v)]));
        r == (m.0, Cut(m.1, |w.env|))
  {
    var all, v := [init] + inits, Eval(protected, depth, calls, init.e, w);
    assert BindNested(protected, depth, calls, all, 0, w)
        == if init.x in protected then (Failed(SymbolProtected(init.x)), w)
           else if !v.0.Done? then v
           else BindNested(protected, depth, calls, all, 0 + 1, Push(v.1, init.x, v.0.v));
    CutAll(w, w);
    EvalKept(protected, depth, calls, init.e, w);
    CutAll(w, v.1);
    if v.0.Done? {
      var w1 := Push(v.1, init.x, v.0.v);
      NestedShift(protected, depth, calls, init, inits, 0, w1);
      NestedKept(protected, depth, calls, inits, 0, w1);
      var b := BindNested(protected, depth, calls, inits, 0, w1);
      CutTwice(b.1, |w.env|, |w1.env|);
      BodyKept(protected, depth, calls, body, 0, Nil, b.1);
      CutTwice(EvalBody(protected, depth, calls, body, 0, Nil, b.1).1, |w.env|, |w1.env|);
    }
  }

  lemma LetNestedEmpty(protected: set<Sym>, depth: nat, calls: nat, body: seq<Expr>, w: World)
    ensures Eval(protected, depth, calls + 1, LetNested([], body), w)
         == Eval(protected, depth, calls + 1, Let([], body), w)
  {
    assert BindNested(protected, depth, calls, [], 0, w) == (Done(Nil), w);
    assert EvalInits(protected, depth, calls, [], 0, w) == (Values([]), w);
    assert BindInits(protected, [], 0, [], w) == (Done(Nil), w);
  }

  // ---------- set, throw and catch ----------

  // set gives the symbol the value and returns it; a protected symbol is an error before
  // anything is evaluated.
  lemma SetMeaning(protected: set<Sym>, depth: nat, calls: nat, x: Sym, e: Expr, w: World)
    ensures var r := Eval(protected, depth, calls + 1, Set(x, e), w); var m := Eval(protected, depth, calls, e, w);
      if x in protected then r == (Failed(SymbolProtected(x)), w)
      else if m.0.Done? then r.0 == m.0 && Given(m.1, r.1, x, m.0.v)
      else r == m
  {
    var m := Eval(protected, depth, calls, e, w);
    if m.0.Done? { AssignGives(m.1, x, m.0.v); }
  }

  // A throw outside every catch is an error.
  lemma ThrowOutside(protected: set<Sym>, calls: nat, e: Expr, w: World)
    ensures Eval(protected, 0, calls + 1, Throw(e), w) == (Failed(ThrowWithoutCatch), w)
  {
  }

  // A thrown value ends everything up to the catch around it, which returns the value, or with
  // a symbol stores it there and returns true.
  lemma CatchThrow(protected: set<Sym>, depth: nat, calls: nat, e: Expr, w: World, v: Value, w1: World)
    requires Eval(protected, depth + 1, calls, e, Assign(w, IT, Nil)) == (Done(v), w1)
    ensures Eval(protected, depth, calls + 2, Catch(Throw(e), None), w) == (Done(v), w1)
    ensures forall x :: x !in protected ==>
      var r := Eval(protected, depth, calls + 2, Catch(Throw(e), Some(x)), w); r.0 == Done(True) && Given(w1, r.1, x, v)
  {
    assert Eval(protected, depth + 1, calls + 1, Throw(e), Assign(w, IT, Nil)) == (Thrown(v), w1);
    forall x | x !in protected
      ensures var r := Eval(protected, depth, calls + 2, Catch(Throw(e), Some(x)), w);
        r.0 == Done(True) && Given(w1, r.1, x, v)
    {
      AssignGives(w1, x, v);
    }
  }

  // catch by the ending of its expression. Before it, $it is set to nil.
  lemma CatchMeaning(protected: set<Sym>, depth: nat, calls: nat, e: Expr, w: World)
    ensures Given(w, Assign(w, IT, Nil), IT, Nil)
    ensures var m := Eval(protected, depth + 1, calls, e, Assign(w, IT, Nil));
      Eval(protected, depth, calls + 1, Catch(e, None), w)
      == match m.0
         case Done(v) => m
         case Thrown(v) => (Done(v), m.1)
         case Failed(error) => m
         case Fatal => m
    ensures forall x :: x !in protected ==>
      var m := Eval(protected, depth + 1, calls, e, Assign(w, IT, Nil));
      var r := Eval(protected, depth, calls + 1, Catch(e, Some(x)), w);
      match m.0
      case Done(v) => r.0 == Done(True) && Given(m.1, r.1, x, v)
      case Thrown(v) => r.0 == Done(True) && Given(m.1, r.1, x, v)
      case Failed(error) => r.0 == Done(Nil) && Given(m.1, r.1, x, Message(error))
      case Fatal => r == m
    ensures forall x :: x in protected ==>
      Eval(protected, depth, calls + 1, Catch(e, Some(x)), w) == (Failed(SymbolProtected(x)), w)
  {
    AssignGives(w, IT, Nil);
    var m := Eval(protected, depth + 1, calls, e, Assign(w, IT, Nil));
    forall x, v ensures Given(m.1, Assign(m.1, x, v), x, v) {
      AssignGives(m.1, x, v);
    }
  }

  // At the top level an expression that does not end normally leaves $it as nil.
  lemma TopLevelMeaning(protected: set<Sym>, calls: nat, e: Expr, w: World)
    ensures var m := Eval(protected, 0, calls, e, w); var r := Step(protected, calls, e, w);
      r.0 == m.0 && if m.0.Done? then r.1 == m.1 else Given(m.1, r.1, IT, Nil)
  {
    AssignGives(Eval(protected, 0, calls, e, w).1, IT, Nil);
  }
}
