// The evaluator as it runs: every symbol holds its current value, and the values it held
// before it was bound wait on the environment stack.
module ShallowBinding {
  import opened DeepBinding

  datatype Saved = Saved(x: Sym, v: Value)

  // The contents once the stack s has been popped from k entries down to n.
  function Unwind(c: map<Sym, Value>, s: seq<Saved>, k: nat, n: nat): map<Sym, Value>
    requires k <= |s|
    decreases k
  {
    if k <= n then c else Unwind(c[s[k - 1].x := s[k - 1].v], s, k - 1, n)
  }

  // A stack entry holds the value that was visible before its symbol was bound.
  ghost predicate EntryAgrees(s: seq<Saved>, w: World, i: nat)
    requires i < |s| && i < |w.env|
  {
    s[i].x == w.env[i].x && s[i].v == LookupAt(w, i, s[i].x)
  }

  // Contents and the first n stack entries represent the world of the first n bindings: a
  // symbol holds its newest binding.
  ghost predicate AgreesAt(c: map<Sym, Value>, s: seq<Saved>, w: World, n: nat) {
    && n <= |s| && n <= |w.env|
    && (forall i :: 0 <= i < n ==> EntryAgrees(s, w, i) && s[i].x in c)
    && (forall x :: Get(c, x) == LookupAt(w, n, x))
  }

  ghost predicate Agrees(c: map<Sym, Value>, s: seq<Saved>, w: World) {
    |s| == |w.env| && AgreesAt(c, s, w, |s|)
  }

  lemma {:induction false} PrefixNewest(env: seq<Binding>, env': seq<Binding>, n: nat, y: Sym)
    requires n <= |env| && n <= |env'| && forall i :: 0 <= i < n ==> env'[i].x == env[i].x
    ensures Newest(env', n, y) == Newest(env, n, y)
  {
    if n > 0 && env[n - 1].x != y { PrefixNewest(env, env', n - 1, y); }
  }

  // Only the newest binding of a symbol sees an assignment.
  lemma AssignLookup(w: World, x: Sym, v: Value, n: nat, y: Sym)
    requires n <= |w.env|
    ensures |Assign(w, x, v).env| == |w.env|
    ensures LookupAt(Assign(w, x, v), n, y)
         == if y == x && Newest(w.env, |w.env|, x) < n then v else LookupAt(w, n, y)
  {
    PrefixNewest(w.env, Assign(w, x, v).env, n, y);
  }

  lemma AssignEntry(s: seq<Saved>, w: World, x: Sym, v: Value, i: nat)
    requires i < |s| && i < |w.env| && EntryAgrees(s, w, i)
    ensures i < |Assign(w, x, v).env| && EntryAgrees(s, Assign(w, x, v), i)
  {
    AssignLookup(w, x, v, i, s[i].x);
  }

  lemma AssignAgrees(c: map<Sym, Value>, s: seq<Saved>, w: World, x: Sym, v: Value)
    requires Agrees(c, s, w)
    ensures Agrees(c[x := v], s, Assign(w, x, v))
  {
    var w' := Assign(w, x, v);
    forall i | 0 <= i < |s| ensures i < |w'.env| && EntryAgrees(s, w', i) {
      AssignEntry(s, w, x, v, i);
    }
    forall y ensures Get(c[x := v], y) == LookupAt(w', |s|, y) {
      AssignLookup(w, x, v, |s|, y);
    }
  }

  lemma SamePrefix(w: World, w': World, n: nat, y: Sym)
    requires n <= |w.env| && n <= |w'.env| && w'.globals == w.globals
    requires forall i :: 0 <= i < n ==> w'.env[i] == w.env[i]
    ensures LookupAt(w', n, y) == LookupAt(w, n, y)
  {
    PrefixNewest(w.env, w'.env, n, y);
  }

  lemma PushAgrees(c: map<Sym, Value>, s: seq<Saved>, w: World, x: Sym, v: Value)
    requires Agrees(c, s, w)
    ensures Agrees(c[x := v], s + [Saved(x, Get(c, x))], Push(w, x, v))
  {
    var w' := Push(w, x, v);
    var s' := s + [Saved(x, Get(c, x))];
    forall i | 0 <= i < |s'| ensures EntryAgrees(s', w', i) {
      if i < |s| { assert EntryAgrees(s, w, i); }
      SamePrefix(w, w', i, s'[i].x);
    }
    forall y ensures Get(c[x := v], y) == LookupAt(w', |s'|, y) {
      SamePrefix(w, w', |s|, y);
    }
  }

  lemma PopAgrees(c: map<Sym, Value>, s: seq<Saved>, w: World, n: nat)
    requires n > 0 && AgreesAt(c, s, w, n)
    ensures AgreesAt(c[s[n - 1].x := s[n - 1].v], s, w, n - 1)
  {
    assert EntryAgrees(s, w, n - 1);
    var c' := c[s[n - 1].x := s[n - 1].v];
    forall y ensures Get(c', y) == LookupAt(w, n - 1, y) {
      assert Get(c, y) == LookupAt(w, n, y);
    }
  }

  lemma {:induction false} UnwindAgrees(c: map<Sym, Value>, s: seq<Saved>, w: World, k: nat, n: nat)
    requires n <= k && AgreesAt(c, s, w, k)
    ensures AgreesAt(Unwind(c, s, k, n), s, w, n)
    decreases k
  {
    if k > n {
      PopAgrees(c, s, w, k);
      UnwindAgrees(c[s[k - 1].x := s[k - 1].v], s, w, k - 1, n);
    }
  }

  lemma CutAgrees(c: map<Sym, Value>, s: seq<Saved>, w: World, n: nat)
    requires AgreesAt(c, s, w, n)
    ensures Agrees(c, s[..n], Cut(w, n))
  {
    var w' := Cut(w, n);
    forall i | 0 <= i < n ensures EntryAgrees(s[..n], w', i) {
      assert EntryAgrees(s, w, i);
      SamePrefix(w, w', i, s[i].x);
    }
    forall y ensures Get(c, y) == LookupAt(w', n, y) {
      SamePrefix(w, w', n, y);
    }
  }

  lemma {:induction false} UnwindPrefix(c: map<Sym, Value>, s: seq<Saved>, s': seq<Saved>, k: nat, n: nat)
    requires k <= |s| && k <= |s'| && forall i :: 0 <= i < k ==> s'[i] == s[i]
    ensures Unwind(c, s', k, n) == Unwind(c, s, k, n)
    decreases k
  {
    if k > n { UnwindPrefix(c[s[k - 1].x := s[k - 1].v], s, s', k - 1, n); }
  }

  // Unwinding in two stages.
  lemma {:induction false} UnwindTwice(c: map<Sym, Value>, s: seq<Saved>, k: nat, m: nat, n: nat)
    requires n <= m <= k <= |s|
    ensures Unwind(Unwind(c, s, k, m), s, m, n) == Unwind(c, s, k, n)
    decreases k
  {
    if k > m { UnwindTwice(c[s[k - 1].x := s[k - 1].v], s, k - 1, m, n); }
  }

  // The stack has grown from base, and popping it back to base gives the world.
  ghost predicate Restores(c: map<Sym, Value>, s: seq<Saved>, base: seq<Saved>, w: World) {
    && |base| <= |s| && s[..|base|] == base
    && Agrees(Unwind(c, s, |s|, |base|), base, w)
  }

  lemma RestoresAll(c: map<Sym, Value>, s: seq<Saved>, w: World)
    ensures Restores(c, s, s, w) <==> Agrees(c, s, w)
  {
    assert s[..|s|] == s;
  }

  // Popping further down.
  lemma RestoresDown(c: map<Sym, Value>, s: seq<Saved>, mid: seq<Saved>, base: seq<Saved>, w: World)
    requires Restores(c, s, mid, w) && |base| <= |mid| && mid[..|base|] == base
    ensures Restores(c, s, base, Cut(w, |base|))
  {
    var c' := Unwind(c, s, |s|, |mid|);
    UnwindAgrees(c', mid, w, |mid|, |base|);
    CutAgrees(Unwind(c', mid, |mid|, |base|), mid, w, |base|);
    UnwindPrefix(c', s, mid, |mid|, |base|);
    UnwindTwice(c, s, |s|, |mid|, |base|);
    assert s[..|mid|][..|base|] == s[..|base|];
  }

  // Arguments evaluated before, put in front.
  function Prefixed(vs: seq<Value>, m: (Arguments, World)): (Arguments, World) {
    (if m.0.Broken? then m.0 else Values(vs + m.0.vs), m.1)
  }

  lemma SliceSlice<T>(s: seq<T>, k: nat, n: nat)
    requires n <= k <= |s|
    ensures s[..k][..n] == s[..n] && s[..|s|] == s
  {
  }

  lemma PrefixedNone(m: (Arguments, World))
    ensures Prefixed([], m) == m
  {
    if m.0.Values? { assert [] + m.0.vs == m.0.vs; }
  }

  lemma PrefixedOne(vs: seq<Value>, v: Value, m: (Arguments, World))
    ensures Prefixed(vs, (if m.0.Broken? then m.0 else Values([v] + m.0.vs), m.1)) == Prefixed(vs + [v], m)
  {
    if m.0.Values? { assert vs + ([v] + m.0.vs) == vs + [v] + m.0.vs; }
  }

  class Interpreter {
    var contents: map<Sym, Value>
    var envStack: seq<Saved>
    var evalCatchFlag: nat
    const protected: set<Sym>

    // What a run of the evaluator on an expression of meaning m leaves behind.
    ghost predicate Follows(o: Outcome, base: seq<Saved>, m: (Outcome, World))
      reads this
    {
      o == m.0 && Restores(contents, envStack, base, m.1) && (o.Done? ==> envStack == base)
    }

    ghost predicate FollowsArgs(a: Arguments, base: seq<Saved>, m: (Arguments, World))
      reads this
    {
      && a == m.0 && Restores(contents, envStack, base, m.1)
      && (a.Values? ==> envStack == base) && (a.Broken? ==> !a.o.Done?)
    }

    // Bind a symbol: its contents wait on the stack.
    method PushBinding(x: Sym, v: Value, ghost w: World)
      requires Agrees(contents, envStack, w)
      modifies this`contents, this`envStack
      ensures envStack == old(envStack) + [Saved(x, Get(old(contents), x))]
      ensures Agrees(contents, envStack, Push(w, x, v))
    {
      PushAgrees(contents, envStack, w, x, v);
      envStack := envStack + [Saved(x, Get(contents, x))];
      contents := contents[x := v];
    }

    // Restore the symbols used as locals.
    method PopBindings(count: nat, ghost w: World)
      requires Agrees(contents, envStack, w) && count <= |envStack|
      modifies this`contents, this`envStack
      ensures envStack == old(envStack)[..|old(envStack)| - count]
      ensures Agrees(contents, envStack, Cut(w, |old(envStack)| - count))
    {
      ghost var s := envStack;
      ghost var n := |s| - count;
      var localCount := count;
      SliceSlice(s, |s|, |s|);
      assert w == Cut(w, |s|);
      while localCount > 0
        invariant 0 <= localCount <= count && envStack == s[..n + localCount]
        invariant Agrees(contents, envStack, Cut(w, n + localCount))
      {
        PopBinding(Cut(w, n + localCount));
        localCount := localCount - 1;
        SliceSlice(s, n + localCount + 1, n + localCount);
        SliceSlice(w.env, n + localCount + 1, n + localCount);
      }
    }

    method PopBinding(ghost w: World)
      requires Agrees(contents, envStack, w) && |envStack| > 0
      modifies this`contents, this`envStack
      ensures envStack == old(envStack)[..|old(envStack)| - 1]
      ensures Agrees(contents, envStack, Cut(w, |old(envStack)| - 1))
    {
      var saved := envStack[|envStack| - 1];
      PopAgrees(contents, envStack, w, |envStack|);
      CutAgrees(contents[saved.x := saved.v], envStack, w, |envStack| - 1);
      envStack := envStack[..|envStack| - 1];
      contents := contents[saved.x := saved.v];
    }

    // After a throw or an error: pop everything above index.
    method RecoverEnvironment(index: nat, ghost base: seq<Saved>, ghost w: World)
      requires index == |base| && Restores(contents, envStack, base, w)
      modifies this`contents, this`envStack
      ensures envStack == base && Agrees(contents, envStack, w)
    {
      ghost var s := envStack;
      while |envStack| > index
        invariant index <= |envStack| <= |s| && envStack == s[..|envStack|]
        invariant Unwind(contents, s, |envStack|, index) == Unwind(old(contents), s, |s|, index)
        decreases |envStack|
      {
        var saved := envStack[|envStack| - 1];
        envStack := envStack[..|envStack| - 1];
        if Get(contents, saved.x) != saved.v || saved.x !in contents {
          contents := contents[saved.x := saved.v];
        }
        assert contents[saved.x := saved.v] == contents;
      }
    }

    // A new value for the visible binding of a symbol.
    method SetContents(x: Sym, v: Value, ghost w: World)
      requires Agrees(contents, envStack, w)
      modifies this`contents
      ensures Agrees(contents, envStack, Assign(w, x, v))
    {
      AssignAgrees(contents, envStack, w, x, v);
      contents := contents[x := v];
    }

    method EvaluateExpression(e: Expr, calls: nat, ghost w: World) returns (o: Outcome)
      requires Agrees(contents, envStack, w)
      modifies this
      ensures Follows(o, old(envStack), Eval(protected, old(evalCatchFlag), calls, e, w))
      ensures evalCatchFlag == old(evalCatchFlag)
      decreases calls, 0, 0
    {
      RestoresAll(contents, envStack, w);
      if e.Const? {
        o := Done(e.v);
      } else if e.Ref? {
        o := Done(Get(contents, e.x));
      } else if calls == 0 {
        o := Fatal;
      } else {
        o := EvaluateForm(e, calls - 1, w);
      }
    }

    method EvaluateForm(e: Expr, calls: nat, ghost w: World) returns (o: Outcome)
      requires Agrees(contents, envStack, w) && !e.Const? && !e.Ref?
      modifies this
      ensures Follows(o, old(envStack), EvalForm(protected, old(evalCatchFlag), calls, e, w))
      ensures evalCatchFlag == old(evalCatchFlag)
      decreases calls, 4, 0
    {
      match e
      case Set(x, e1) => o := SetDefine(x, e1, calls, w);
      case Throw(e1) => o := PThrow(e1, calls, w);
      case Catch(e1, x) => o := PCatch(e1, x, calls, w);
      case Call(f, args) => o := EvaluateCall(f, args, calls, w);
      case Let(inits, body) => o := LetStd(inits, body, calls, w);
      case LetNested(inits, body) => o := LetNest(inits, body, calls, w);
    }

    method SetDefine(x: Sym, e: Expr, calls: nat, ghost w: World) returns (o: Outcome)
      requires Agrees(contents, envStack, w)
      modifies this
      ensures Follows(o, old(envStack), EvalForm(protected, old(evalCatchFlag), calls, Expr.Set(x, e), w))
      ensures evalCatchFlag == old(evalCatchFlag)
      decreases calls, 3, 0
    {
      RestoresAll(contents, envStack, w);
      if x in protected {
        return Failed(SymbolProtected(x));
      }
      ghost var (o1, w1) := Eval(protected, evalCatchFlag, calls, e, w);
      o := EvaluateExpression(e, calls, w);
      if o.Done? {
        RestoresAll(contents, envStack, w1);
        SetContents(x, o.v, w1);
        RestoresAll(contents, envStack, Assign(w1, x, o.v));
      }
    }

    method PThrow(e: Expr, calls: nat, ghost w: World) returns (o: Outcome)
      requires Agrees(contents, envStack, w)
      modifies this
      ensures Follows(o, old(envStack), EvalForm(protected, old(evalCatchFlag), calls, Throw(e), w))
      ensures evalCatchFlag == old(evalCatchFlag)
      decreases calls, 3, 0
    {
      RestoresAll(contents, envStack, w);
      if evalCatchFlag == 0 {
        return Failed(ThrowWithoutCatch);
      }
      o := EvaluateExpression(e, calls, w);
      if o.Done? {
        o := Thrown(o.v);
      }
    }

    method PCatch(e: Expr, x: Option<Sym>, calls: nat, ghost w: World) returns (o: Outcome)
      requires Agrees(contents, envStack, w)
      modifies this
      ensures Follows(o, old(envStack), EvalForm(protected, old(evalCatchFlag), calls, Catch(e, x), w))
      ensures evalCatchFlag == old(evalCatchFlag)
      decreases calls, 3, 0
    {
      RestoresAll(contents, envStack, w);
      if x.Some? && x.value in protected {
        return Failed(SymbolProtected(x.value));
      }
      var envStackIdxSave := |envStack|;
      ghost var base := envStack;
      ghost var w0 := Assign(w, IT, Nil);
      SetContents(IT, Nil, w);
      evalCatchFlag := evalCatchFlag + 1;
      ghost var m := Eval(protected, evalCatchFlag, calls, e, w0);
      o := EvaluateExpression(e, calls, w0);
      evalCatchFlag := evalCatchFlag - 1;
      if o.Fatal? {
        return;
      }
      if o.Done? {
        RestoresAll(contents, envStack, m.1);
      } else {
        RecoverEnvironment(envStackIdxSave, base, m.1);
      }
      RestoresAll(contents, envStack, m.1);
      o := Deliver(o, x, m.1);
    }

    // The result of a catch, stored in its symbol if there is one.
    method Deliver(o: Outcome, x: Option<Sym>, ghost w: World) returns (r: Outcome)
      requires Agrees(contents, envStack, w) && !o.Fatal?
      modifies this`contents
      ensures Follows(r, old(envStack), Caught(o, x, w))
    {
      RestoresAll(contents, envStack, w);
      if x.None? {
        return if o.Failed? then o else Done(o.v);
      }
      var v := if o.Failed? then Message(o.error) else o.v;
      SetContents(x.value, v, w);
      RestoresAll(contents, envStack, Assign(w, x.value, v));
      r := if o.Failed? then Done(Nil) else Done(True);
    }

    // ---------- lists of expressions ----------

    method EvaluateArgs(args: seq<Expr>, calls: nat, ghost w: World) returns (a: Arguments)
      requires Agrees(contents, envStack, w)
      modifies this
      ensures FollowsArgs(a, old(envStack), EvalArgs(protected, old(evalCatchFlag), calls, args, 0, w))
      ensures evalCatchFlag == old(evalCatchFlag)
      decreases calls, 1, |args|
    {
      ghost var depth := evalCatchFlag;
      ghost var base := envStack;
      ghost var now := w;
      var result := [];
      var i := 0;
      PrefixedNone(EvalArgs(protected, depth, calls, args, 0, w));
      while i < |args|
        invariant 0 <= i <= |args| && evalCatchFlag == depth && envStack == base
        invariant Agrees(contents, envStack, now)
        invariant Prefixed(result, EvalArgs(protected, depth, calls, args, i, now))
               == EvalArgs(protected, depth, calls, args, 0, w)
      {
        ghost var m := Eval(protected, depth, calls, args[i], now);
        var o := EvaluateExpression(args[i], calls, now);
        if !o.Done? {
          return Broken(o);
        }
        RestoresAll(contents, envStack, m.1);
        PrefixedOne(result, o.v, EvalArgs(protected, depth, calls, args, i + 1, m.1));
        result := result + [o.v];
        now := m.1;
        i := i + 1;
      }
      RestoresAll(contents, envStack, now);
      assert result + [] == result;
      a := Values(result);
    }

    method EvaluateInits(inits: seq<Init>, calls: nat, ghost w: World) returns (a: Arguments)
      requires Agrees(contents, envStack, w)
      modifies this
      ensures FollowsArgs(a, old(envStack), EvalInits(protected, old(evalCatchFlag), calls, inits, 0, w))
      ensures a.Values? ==> |a.vs| == |inits|
      ensures evalCatchFlag == old(evalCatchFlag)
      decreases calls, 1, |inits|
    {
      ghost var depth := evalCatchFlag;
      ghost var base := envStack;
      ghost var now := w;
      var list := [];
      var i := 0;
      PrefixedNone(EvalInits(protected, depth, calls, inits, 0, w));
      while i < |inits|
        invariant 0 <= i <= |inits| && evalCatchFlag == depth && envStack == base && |list| == i
        invariant Agrees(contents, envStack, now)
        invariant Prefixed(list, EvalInits(protected, depth, calls, inits, i, now))
               == EvalInits(protected, depth, calls, inits, 0, w)
      {
        ghost var m := Eval(protected, depth, calls, inits[i].e, now);
        var o := EvaluateExpression(inits[i].e, calls, now);
        if !o.Done? {
          return Broken(o);
        }
        RestoresAll(contents, envStack, m.1);
        PrefixedOne(list, o.v, EvalInits(protected, depth, calls, inits, i + 1, m.1));
        list := list + [o.v];
        now := m.1;
        i := i + 1;
      }
      RestoresAll(contents, envStack, now);
      assert list + [] == list;
      a := Values(list);
    }

    method EvaluateBody(body: seq<Expr>, calls: nat, ghost w: World) returns (o: Outcome)
      requires Agrees(contents, envStack, w)
      modifies this
      ensures Follows(o, old(envStack), EvalBody(protected, old(evalCatchFlag), calls, body, 0, Nil, w))
      ensures evalCatchFlag == old(evalCatchFlag)
      decreases calls, 1, |body|
    {
      ghost var depth := evalCatchFlag;
      ghost var base := envStack;
      ghost var now := w;
      var result := Nil;
      var i := 0;
      while i < |body|
        invariant 0 <= i <= |body| && evalCatchFlag == depth && envStack == base
        invariant Agrees(contents, envStack, now)
        invariant EvalBody(protected, depth, calls, body, i, result, now)
               == EvalBody(protected, depth, calls, body, 0, Nil, w)
      {
        ghost var m := Eval(protected, depth, calls, body[i], now);
        o := EvaluateExpression(body[i], calls, now);
        if !o.Done? {
          return;
        }
        RestoresAll(contents, envStack, m.1);
        result := o.v;
        now := m.1;
        i := i + 1;
      }
      RestoresAll(contents, envStack, now);
      o := Done(result);
    }

    // ---------- binding ----------

    // What the methods that bind a list of symbols leave behind.
    ghost predicate Bound(o: Outcome, base: seq<Saved>, count: nat, m: (Outcome, World))
      reads this
    {
      && o == m.0 && Restores(contents, envStack, base, Cut(m.1, |base|))
      && (o.Done? ==> Agrees(contents, envStack, m.1) && |envStack| == |base| + count)
    }

    lemma NotBound(mid: seq<Saved>, base: seq<Saved>, w: World)
      requires Restores(contents, envStack, mid, w) && |base| <= |mid| && mid[..|base|] == base
      ensures Restores(contents, envStack, base, Cut(w, |base|))
    {
      RestoresDown(contents, envStack, mid, base, w);
    }

    lemma AllBound(base: seq<Saved>, w: World)
      requires Agrees(contents, envStack, w) && |base| <= |envStack| && envStack[..|base|] == base
      ensures Restores(contents, envStack, base, Cut(w, |base|))
    {
      RestoresAll(contents, envStack, w);
      RestoresDown(contents, envStack, envStack, base, w);
    }

    method BindParameters(params: seq<Param>, vs: seq<Value>, calls: nat, ghost w: World) returns (o: Outcome)
      requires Agrees(contents, envStack, w)
      modifies this
      ensures Bound(o, old(envStack), |params|, BindParams(protected, old(evalCatchFlag), calls, params, 0, vs, w))
      ensures evalCatchFlag == old(evalCatchFlag)
      decreases calls, 1, |params|
    {
      ghost var depth := evalCatchFlag;
      ghost var base := envStack;
      ghost var now := w;
      var i := 0;
      while i < |params|
        invariant 0 <= i <= |params| && evalCatchFlag == depth
        invariant |envStack| == |base| + i && envStack[..|base|] == base
        invariant Agrees(contents, envStack, now)
        invariant BindParams(protected, depth, calls, params, i, vs, now)
               == BindParams(protected, depth, calls, params, 0, vs, w)
      {
        o := Done(Nil);
        if i < |vs| {
          o := Done(vs[i]);
        } else if params[i].default.Some? {
          ghost var mid := envStack;
          ghost var m := Eval(protected, depth, calls, params[i].default.value, now);
          o := EvaluateExpression(params[i].default.value, calls, now);
          if !o.Done? {
            NotBound(mid, base, m.1);
            return;
          }
          RestoresAll(contents, envStack, m.1);
          now := m.1;
        }
        if params[i].x in protected {
          AllBound(base, now);
          return Failed(SymbolProtected(params[i].x));
        }
        PushBinding(params[i].x, o.v, now);
        now := Push(now, params[i].x, o.v);
        i := i + 1;
      }
      AllBound(base, now);
      o := Done(Nil);
    }

    method BindSymbols(inits: seq<Init>, vs: seq<Value>, ghost w: World) returns (o: Outcome)
      requires Agrees(contents, envStack, w) && |vs| == |inits|
      modifies this`contents, this`envStack
      ensures Bound(o, old(envStack), |inits|, BindInits(protected, inits, 0, vs, w))
    {
      ghost var base := envStack;
      ghost var now := w;
      var i := 0;
      while i < |inits|
        invariant 0 <= i <= |inits|
        invariant |envStack| == |base| + i && envStack[..|base|] == base
        invariant Agrees(contents, envStack, now)
        invariant BindInits(protected, inits, i, vs, now) == BindInits(protected, inits, 0, vs, w)
      {
        if inits[i].x in protected {
          AllBound(base, now);
          return Failed(SymbolProtected(inits[i].x));
        }
        PushBinding(inits[i].x, vs[i], now);
        now := Push(now, inits[i].x, vs[i]);
        i := i + 1;
      }
      AllBound(base, now);
      o := Done(Nil);
    }

    method BindOneByOne(inits: seq<Init>, calls: nat, ghost w: World) returns (o: Outcome)
      requires Agrees(contents, envStack, w)
      modifies this
      ensures Bound(o, old(envStack), |inits|, BindNested(protected, old(evalCatchFlag), calls, inits, 0, w))
      ensures evalCatchFlag == old(evalCatchFlag)
      decreases calls, 1, |inits|
    {
      ghost var depth := evalCatchFlag;
      ghost var base := envStack;
      ghost var now := w;
      var i := 0;
      while i < |inits|
        invariant 0 <= i <= |inits| && evalCatchFlag == depth
        invariant |envStack| == |base| + i && envStack[..|base|] == base
        invariant Agrees(contents, envStack, now)
        invariant BindNested(protected, depth, calls, inits, i, now)
               == BindNested(protected, depth, calls, inits, 0, w)
      {
        if inits[i].x in protected {
          AllBound(base, now);
          return Failed(SymbolProtected(inits[i].x));
        }
        ghost var mid := envStack;
        ghost var m := Eval(protected, depth, calls, inits[i].e, now);
        o := EvaluateExpression(inits[i].e, calls, now);
        if !o.Done? {
          NotBound(mid, base, m.1);
          return;
        }
        RestoresAll(contents, envStack, m.1);
        PushBinding(inits[i].x, o.v, m.1);
        now := Push(m.1, inits[i].x, o.v);
        i := i + 1;
      }
      AllBound(base, now);
      o := Done(Nil);
    }

    // ---------- calls and let ----------

    // Evaluate a body under count bindings, then undo them.
    method RunBody(body: seq<Expr>, count: nat, calls: nat, ghost base: seq<Saved>, ghost w: World) returns (o: Outcome)
      requires Agrees(contents, envStack, w) && |envStack| == |base| + count && envStack[..|base|] == base
      modifies this
      ensures var m := EvalBody(protected, old(evalCatchFlag), calls, body, 0, Nil, w);
              Follows(o, base, (m.0, Cut(m.1, |base|)))
      ensures evalCatchFlag == old(evalCatchFlag)
      decreases calls, 2, |body|
    {
      ghost var m := EvalBody(protected, evalCatchFlag, calls, body, 0, Nil, w);
      ghost var mid := envStack;
      o := EvaluateBody(body, calls, w);
      if !o.Done? {
        NotBound(mid, base, m.1);
        return;
      }
      RestoresAll(contents, envStack, m.1);
      PopBindings(count, m.1);
      RestoresAll(contents, envStack, Cut(m.1, |base|));
    }

    method EvaluateLambda(f: Value, vs: seq<Value>, calls: nat, ghost w: World) returns (o: Outcome)
      requires Agrees(contents, envStack, w) && f.Lambda?
      modifies this
      ensures Follows(o, old(envStack), Apply(protected, old(evalCatchFlag), calls, f, vs, w))
      ensures evalCatchFlag == old(evalCatchFlag)
      decreases calls, 2, |f.body| + 1
    {
      ghost var base := envStack;
      ghost var m := BindParams(protected, evalCatchFlag, calls, f.params, 0, vs, w);
      o := BindParameters(f.params, vs, calls, w);
      if !o.Done? {
        return;
      }
      PushBinding(ARGS, ListOf(Rest(vs, |f.params|)), m.1);
      o := RunBody(f.body, |f.params| + 1, calls, base, Push(m.1, ARGS, ListOf(Rest(vs, |f.params|))));
    }

    method EvaluateCall(f: Expr, args: seq<Expr>, calls: nat, ghost w: World) returns (o: Outcome)
      requires Agrees(contents, envStack, w)
      modifies this
      ensures Follows(o, old(envStack), EvalForm(protected, old(evalCatchFlag), calls, Call(f, args), w))
      ensures evalCatchFlag == old(evalCatchFlag)
      decreases calls, 3, 0
    {
      ghost var m := Eval(protected, evalCatchFlag, calls, f, w);
      o := EvaluateExpression(f, calls, w);
      if !o.Done? {
        return;
      }
      RestoresAll(contents, envStack, m.1);
      if !o.v.Lambda? {
        return Failed(InvalidFunction);
      }
      ghost var m2 := EvalArgs(protected, evalCatchFlag, calls, args, 0, m.1);
      var a := EvaluateArgs(args, calls, m.1);
      if a.Broken? {
        return a.o;
      }
      RestoresAll(contents, envStack, m2.1);
      o := EvaluateLambda(o.v, a.vs, calls, m2.1);
    }

    method LetStd(inits: seq<Init>, body: seq<Expr>, calls: nat, ghost w: World) returns (o: Outcome)
      requires Agrees(contents, envStack, w)
      modifies this
      ensures Follows(o, old(envStack), EvalForm(protected, old(evalCatchFlag), calls, Let(inits, body), w))
      ensures evalCatchFlag == old(evalCatchFlag)
      decreases calls, 3, 0
    {
      ghost var base := envStack;
      ghost var m := EvalInits(protected, evalCatchFlag, calls, inits, 0, w);
      var a := EvaluateInits(inits, calls, w);
      if a.Broken? {
        return a.o;
      }
      RestoresAll(contents, envStack, m.1);
      ghost var m2 := BindInits(protected, inits, 0, a.vs, m.1);
      o := BindSymbols(inits, a.vs, m.1);
      if !o.Done? {
        return;
      }
      o := RunBody(body, |inits|, calls, base, m2.1);
    }

    method LetNest(inits: seq<Init>, body: seq<Expr>, calls: nat, ghost w: World) returns (o: Outcome)
      requires Agrees(contents, envStack, w)
      modifies this
      ensures Follows(o, old(envStack), EvalForm(protected, old(evalCatchFlag), calls, LetNested(inits, body), w))
      ensures evalCatchFlag == old(evalCatchFlag)
      decreases calls, 3, 0
    {
      ghost var base := envStack;
      ghost var m := BindNested(protected, evalCatchFlag, calls, inits, 0, w);
      o := BindOneByOne(inits, calls, w);
      if !o.Done? {
        return;
      }
      o := RunBody(body, |inits|, calls, base, m.1);
    }

    // ---------- the top level ----------

    // One expression at the top level. A throw or an error resets the environment; when the
    // call stack is used up the process ends as it is.
    method TopLevel(e: Expr, calls: nat, ghost w: World) returns (o: Outcome)
      requires envStack == [] && evalCatchFlag == 0 && Agrees(contents, [], w)
      modifies this
      ensures o == Step(protected, calls, e, w).0 && evalCatchFlag == 0
      ensures !o.Fatal? ==> envStack == [] && Agrees(contents, [], Step(protected, calls, e, w).1)
    {
      ghost var m := Eval(protected, 0, calls, e, w);
      o := EvaluateExpression(e, calls, w);
      if o.Done? {
        RestoresAll(contents, envStack, m.1);
      } else if !o.Fatal? {
        RecoverEnvironment(0, [], m.1);
        SetContents(IT, Nil, m.1);
      }
    }

    // A session: as long as the process lives, the contents of every symbol are what the deep
    // semantics says.
    method Session(program: seq<Expr>, calls: nat, ghost w: World) returns (outcomes: seq<Outcome>)
      requires envStack == [] && evalCatchFlag == 0 && Agrees(contents, [], w)
      modifies this
      ensures outcomes == Steps(protected, calls, program, |program|, w).0
      ensures !Ended(outcomes) ==>
        && envStack == []
        && forall x :: Get(contents, x) == Get(Steps(protected, calls, program, |program|, w).1.globals, x)
    {
      outcomes := [];
      ghost var now := w;
      var i := 0;
      while i < |program| && !Ended(outcomes)
        invariant 0 <= i <= |program|
        invariant !Ended(outcomes) ==> envStack == [] && evalCatchFlag == 0 && Agrees(contents, [], now)
        invariant (outcomes, now) == Steps(protected, calls, program, i, w)
      {
        var o := TopLevel(program[i], calls, now);
        now := Step(protected, calls, program[i], now).1;
        outcomes := outcomes + [o];
        i := i + 1;
      }
      StopsThere(protected, calls, program, i, |program|, w);
      assert !Ended(outcomes) ==> forall x :: Get(contents, x) == LookupAt(now, 0, x);
    }
  }

  // After the end of the process nothing more happens.
  lemma {:induction false} StopsThere(protected: set<Sym>, calls: nat, program: seq<Expr>, i: nat, n: nat, w: World)
    requires i <= n <= |program| && (i < n ==> Ended(Steps(protected, calls, program, i, w).0))
    ensures Steps(protected, calls, program, n, w) == Steps(protected, calls, program, i, w)
  {
    if i < n { StopsThere(protected, calls, program, i, n - 1, w); }
  }
}
