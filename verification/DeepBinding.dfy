// The evaluator's language, and what a program means under dynamic scope: an environment of
// bindings, the newest first to be found, over a map of global values.
module DeepBinding {

  type Sym = nat

  const ARGS: Sym := 0
  const IT: Sym := 1

  datatype Option<T> = None | Some(value: T)

  datatype Error = SymbolProtected(x: Sym) | InvalidFunction | ThrowWithoutCatch

  datatype Value =
    | Nil
    | True
    | Number(n: int)
    | Message(error: Error)
    | ListOf(items: seq<Value>)
    | Lambda(params: seq<Param>, body: seq<Expr>)

  // A parameter, perhaps with a default expression.
  datatype Param = Param(x: Sym, default: Option<Expr>)

  datatype Init = Init(x: Sym, e: Expr)

  datatype Expr =
    | Const(v: Value)
    | Ref(x: Sym)
    | Set(x: Sym, e: Expr)
    | Call(f: Expr, args: seq<Expr>)
    | Let(inits: seq<Init>, body: seq<Expr>)
    | LetNested(inits: seq<Init>, body: seq<Expr>)
    | Throw(e: Expr)
    | Catch(e: Expr, result: Option<Sym>)

  // Fatal: the call stack is used up, which ends the interpreter.
  datatype Outcome = Done(v: Value) | Thrown(v: Value) | Failed(error: Error) | Fatal

  // A list of evaluated arguments, or why there is none.
  datatype Arguments = Values(vs: seq<Value>) | Broken(o: Outcome)

  datatype Binding = Binding(x: Sym, v: Value)

  datatype World = World(env: seq<Binding>, globals: map<Sym, Value>)

  // ---------- looking up and assigning ----------

  function Get(contents: map<Sym, Value>, x: Sym): Value {
    if x in contents then contents[x] else Nil
  }

  // The index of the newest binding of x among the first n, or -1.
  function Newest(env: seq<Binding>, n: nat, x: Sym): (j: int)
    requires n <= |env|
    ensures -1 <= j < n && (j >= 0 ==> env[j].x == x)
    ensures forall k :: j < k < n ==> env[k].x != x
  {
    if n == 0 then -1 else if env[n - 1].x == x then n - 1 else Newest(env, n - 1, x)
  }

  // The value of x where only the first n bindings have been made.
  function LookupAt(w: World, n: nat, x: Sym): Value
    requires n <= |w.env|
  {
    var j := Newest(w.env, n, x);
    if j < 0 then Get(w.globals, x) else w.env[j].v
  }

  function Lookup(w: World, x: Sym): Value {
    LookupAt(w, |w.env|, x)
  }

  function Assign(w: World, x: Sym, v: Value): World {
    var j := Newest(w.env, |w.env|, x);
    if j < 0 then World(w.env, w.globals[x := v])
    else World(w.env[j := Binding(x, v)], w.globals)
  }

  function Push(w: World, x: Sym, v: Value): World {
    World(w.env + [Binding(x, v)], w.globals)
  }

  // Only the oldest n bindings are left.
  function Cut(w: World, n: nat): World {
    if n <= |w.env| then World(w.env[..n], w.globals) else w
  }

  // ---------- meaning ----------

  // protected are the symbols that may be neither bound nor set; depth counts the active
  // catches, calls what is left of the call stack.
  function Eval(protected: set<Sym>, depth: nat, calls: nat, e: Expr, w: World): (Outcome, World)
    decreases calls, 0, 0
  {
    match e
    case Const(v) => (Done(v), w)
    case Ref(x) => (Done(Lookup(w, x)), w)
    case _ => if calls == 0 then (Fatal, w) else EvalForm(protected, depth, calls - 1, e, w)
  }

  function EvalForm(protected: set<Sym>, depth: nat, calls: nat, e: Expr, w: World): (Outcome, World)
    requires !e.Const? && !e.Ref?
    decreases calls, 3, 0
  {
    match e
    case Set(x, e1) =>
      if x in protected then (Failed(SymbolProtected(x)), w)
      else
        var (o, w1) := Eval(protected, depth, calls, e1, w);
        if o.Done? then (o, Assign(w1, x, o.v)) else (o, w1)
    case Throw(e1) =>
      if depth == 0 then (Failed(ThrowWithoutCatch), w)
      else
        var (o, w1) := Eval(protected, depth, calls, e1, w);
        (if o.Done? then Thrown(o.v) else o, w1)
    case Catch(e1, x) =>
      if x.Some? && x.value in protected then (Failed(SymbolProtected(x.value)), w)
      else
        var (o, w1) := Eval(protected, depth + 1, calls, e1, Assign(w, IT, Nil));
        Caught(o, x, w1)
    case Call(f, args) =>
      var (o, w1) := Eval(protected, depth, calls, f, w);
      if !o.Done? then (o, w1)
      else if !o.v.Lambda? then (Failed(InvalidFunction), w1)
      else
        var (vs, w2) := EvalArgs(protected, depth, calls, args, 0, w1);
        if vs.Broken? then (vs.o, w2)
        else Apply(protected, depth, calls, o.v, vs.vs, w2)
    case Let(inits, body) =>
      var (vs, w1) := EvalInits(protected, depth, calls, inits, 0, w);
      if vs.Broken? then (vs.o, w1)
      else
        var (o, w2) := BindInits(protected, inits, 0, vs.vs, w1);
        if !o.Done? then (o, Cut(w2, |w1.env|))
        else
          var (o3, w3) := EvalBody(protected, depth, calls, body, 0, Nil, w2);
          (o3, Cut(w3, |w1.env|))
    case LetNested(inits, body) =>
      var (o, w1) := BindNested(protected, depth, calls, inits, 0, w);
      if !o.Done? then (o, Cut(w1, |w.env|))
      else
        var (o2, w2) := EvalBody(protected, depth, calls, body, 0, Nil, w1);
        (o2, Cut(w2, |w.env|))
  }

  // What catch makes of the outcome of its expression.
  function Caught(o: Outcome, x: Option<Sym>, w: World): (Outcome, World) {
    match o
    case Fatal => (o, w)
    case Failed(error) => if x.None? then (o, w) else (Done(Nil), Assign(w, x.value, Message(error)))
    case Done(v) => if x.None? then (Done(v), w) else (Done(True), Assign(w, x.value, v))
    case Thrown(v) => if x.None? then (Done(v), w) else (Done(True), Assign(w, x.value, v))
  }

  // The arguments from index i on, from left to right.
  function EvalArgs(protected: set<Sym>, depth: nat, calls: nat, args: seq<Expr>, i: nat, w: World): (Arguments, World)
    requires i <= |args|
    decreases calls, 1, |args| - i
  {
    if i == |args| then (Values([]), w)
    else
      var (o, w1) := Eval(protected, depth, calls, args[i], w);
      if !o.Done? then (Broken(o), w1)
      else
        var (vs, w2) := EvalArgs(protected, depth, calls, args, i + 1, w1);
        (if vs.Broken? then vs else Values([o.v] + vs.vs), w2)
  }

  function EvalInits(protected: set<Sym>, depth: nat, calls: nat, inits: seq<Init>, i: nat,
                     w: World): (Arguments, World)
    requires i <= |inits|
    decreases calls, 1, |inits| - i
  {
    if i == |inits| then (Values([]), w)
    else
      var (o, w1) := Eval(protected, depth, calls, inits[i].e, w);
      if !o.Done? then (Broken(o), w1)
      else
        var (vs, w2) := EvalInits(protected, depth, calls, inits, i + 1, w1);
        (if vs.Broken? then vs else Values([o.v] + vs.vs), w2)
  }

  // The expressions from index i on; v is the value of the one before.
  function EvalBody(protected: set<Sym>, depth: nat, calls: nat, body: seq<Expr>, i: nat, v: Value,
                    w: World): (Outcome, World)
    requires i <= |body|
    decreases calls, 1, |body| - i
  {
    if i == |body| then (Done(v), w)
    else
      var (o, w1) := Eval(protected, depth, calls, body[i], w);
      if !o.Done? then (o, w1) else EvalBody(protected, depth, calls, body, i + 1, o.v, w1)
  }

  // Bind the parameters from index i on: to an argument, else to the value of a default
  // expression, which sees the parameters before it, else to nil.
  function BindParams(protected: set<Sym>, depth: nat, calls: nat, params: seq<Param>, i: nat, vs: seq<Value>,
                      w: World): (Outcome, World)
    requires i <= |params|
    decreases calls, 1, |params| - i
  {
    if i == |params| then (Done(Nil), w)
    else
      var (o, w1) :=
        if i < |vs| then (Done(vs[i]), w)
        else if params[i].default.Some? then Eval(protected, depth, calls, params[i].default.value, w)
        else (Done(Nil), w);
      if !o.Done? then (o, w1)
      else if params[i].x in protected then (Failed(SymbolProtected(params[i].x)), w1)
      else BindParams(protected, depth, calls, params, i + 1, vs, Push(w1, params[i].x, o.v))
  }

  function Rest(vs: seq<Value>, n: nat): seq<Value> {
    if n <= |vs| then vs[n..] else []
  }

  function Apply(protected: set<Sym>, depth: nat, calls: nat, f: Value, vs: seq<Value>, w: World): (Outcome, World)
    requires f.Lambda?
    decreases calls, 2, 0
  {
    var (o, w1) := BindParams(protected, depth, calls, f.params, 0, vs, w);
    if !o.Done? then (o, Cut(w1, |w.env|))
    else
      var (o2, w2) := EvalBody(protected, depth, calls, f.body, 0, Nil, Push(w1, ARGS, ListOf(Rest(vs, |f.params|))));
      (o2, Cut(w2, |w.env|))
  }

  function BindInits(protected: set<Sym>, inits: seq<Init>, i: nat, vs: seq<Value>, w: World): (Outcome, World)
    requires i <= |inits|
    decreases |inits| - i
  {
    if i == |inits| then (Done(Nil), w)
    else if inits[i].x in protected then (Failed(SymbolProtected(inits[i].x)), w)
    else BindInits(protected, inits, i + 1, vs, Push(w, inits[i].x, if i < |vs| then vs[i] else Nil))
  }

  function BindNested(protected: set<Sym>, depth: nat, calls: nat, inits: seq<Init>, i: nat, w: World): (Outcome, World)
    requires i <= |inits|
    decreases calls, 1, |inits| - i
  {
    if i == |inits| then (Done(Nil), w)
    else if inits[i].x in protected then (Failed(SymbolProtected(inits[i].x)), w)
    else
      var (o, w1) := Eval(protected, depth, calls, inits[i].e, w);
      if !o.Done? then (o, w1)
      else BindNested(protected, depth, calls, inits, i + 1, Push(w1, inits[i].x, o.v))
  }

  // ---------- sessions ----------

  // At the top level an expression that does not end normally also resets $it.
  function AfterTopLevel(m: (Outcome, World)): World {
    if m.0.Done? then m.1 else Assign(m.1, IT, Nil)
  }

  function Step(protected: set<Sym>, calls: nat, e: Expr, w: World): (Outcome, World) {
    var m := Eval(protected, 0, calls, e, w);
    (m.0, AfterTopLevel(m))
  }

  // The call stack was used up, and with it the process has ended.
  predicate Ended(outcomes: seq<Outcome>) {
    outcomes != [] && outcomes[|outcomes| - 1].Fatal?
  }

  // The first n expressions of a program, one after the other, as long as the process lives.
  function Steps(protected: set<Sym>, calls: nat, program: seq<Expr>, n: nat, w: World): (seq<Outcome>, World)
    requires n <= |program|
  {
    if n == 0 then ([], w)
    else
      var (os, w1) := Steps(protected, calls, program, n - 1, w);
      if Ended(os) then (os, w1)
      else
        var (o, w2) := Step(protected, calls, program[n - 1], w1);
        (os + [o], w2)
  }
}
