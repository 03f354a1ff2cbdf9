/** The `meval` engine of the sudo command module: it turns operator source
    text into an `async def tmp(*, <bindings>)`, calls it, awaits one nested
    awaitable and then restores the module's global namespace. Parsing,
    compiling, calling and awaiting belong to the Python interpreter and are
    the fields of a `Runtime`; everything `meval` itself decides is modelled. */
module Meval {

  import opened PyText

  // ---------------------------------------------------------------------------
  // Values, namespaces and keyword bindings

  /** A Python value, as far as `meval` looks at it. */
  datatype Value =
    | NoneValue
    | Str(s: string)
    | Int(i: int)
    | Dict(entries: map<string, Value>)
    | Object(id: nat)       // any other object: the client, the message, the repository
    | Awaitable(id: nat)    // a coroutine or an asyncio Future

  /** A module's global namespace (`globals()`). */
  type Globals = map<string, Value>

  /** A Python dict of keyword arguments: its keys in insertion order and the
      value under each key. */
  datatype Bindings = Bindings(order: seq<string>, values: map<string, Value>)
  {
    ghost predicate Valid()
    {
      && (forall i, j :: 0 <= i < j < |order| ==> order[i] != order[j])
      && (forall k :: k in order <==> k in values)
    }
  }

  /** `d[k] = v`: a new key goes to the end, an existing key keeps its place. */
  function Put(d: Bindings, k: string, v: Value): (r: Bindings)
    ensures r.values == d.values[k := v]
    ensures k in d.order ==> r.order == d.order
    ensures k !in d.order ==> r.order == d.order + [k]
    ensures d.Valid() ==> r.Valid()
  {
    if k in d.order then Bindings(d.order, d.values[k := v])
    else Bindings(d.order + [k], d.values[k := v])
  }

  // ---------------------------------------------------------------------------
  // The abstract syntax `meval` builds

  /** An expression node; `meval` never looks inside one. */
  datatype Expr = Expr(source: string)

  datatype Stmt =
    | ExprStmt(value: Expr)          // ast.Expr
    | Return(value: Expr)            // ast.Return
    | GlobalsUpdate(from: string)    // globals().update(**<from>)
    | Other(source: string)          // every other statement

  /** ast.arg */
  datatype Arg = Arg(name: string, annotation: Option<Expr>)

  /** ast.arguments */
  datatype Params = Params(
    posOnly: seq<Arg>, args: seq<Arg>, varArg: Option<Arg>,
    kwOnly: seq<Arg>, kwDefaults: seq<Option<Expr>>, kwArg: Option<Arg>,
    defaults: seq<Expr>)

  /** ast.AsyncFunctionDef */
  datatype AsyncDef = AsyncDef(
    name: string, params: Params, body: seq<Stmt>,
    decorators: seq<Expr>, annotation: Option<Expr>)

  // ---------------------------------------------------------------------------
  // Errors and the interpreter `meval` calls into

  datatype PyError =
    | KeyError(key: string)
    | IndexError
    | SyntaxError(message: string)
    | Raised(description: string)    // any other Exception raised by the operator's code
    | Escaped(description: string)   // a BaseException that is no Exception: SystemExit, KeyboardInterrupt, CancelledError

  datatype Result<+T> = Ok(value: T) | Err(error: PyError)

  /** `ast.parse(code)`: the module's statements, or a syntax error. */
  datatype Parsed = Statements(body: seq<Stmt>) | ParseFailure(message: string)

  /** How a call or an await ends, with the module namespace it leaves behind. */
  datatype Completion = Returned(value: Value, globals: Globals) | Threw(error: PyError, globals: Globals)

  /** The interpreter steps `meval` delegates: parsing the text, compiling the
      synthesized definition (a message when that fails), calling the function
      with the keyword bindings, and awaiting an awaitable. The last two run
      operator code and may change the module namespace. */
  datatype Runtime = Runtime(
    parse: string -> Parsed,
    compile: AsyncDef -> Option<string>,
    call: (AsyncDef, Bindings, Globals) -> Completion,
    resolve: (Value, Globals) -> Completion)

  // ---------------------------------------------------------------------------
  // The hidden binding's name

  const Seed := "_globs"

  /** The name tried after `k` collisions: `k` underscores before "_globs". */
  function Candidate(k: nat): (name: string)
    ensures |name| == k + |Seed|
  {
    if k == 0 then Seed else "_" + Candidate(k - 1)
  }

  /** The names tried before the `k`-th candidate. */
  function Tried(k: nat): set<string>
  {
    set j | 0 <= j < k :: Candidate(j)
  }

  /** The first `k` candidates are `k` different names. */
  lemma {:induction false} TriedSize(k: nat)
    ensures |Tried(k)| == k
  {
    if k > 0 {
      TriedSize(k - 1);
      var before := Tried(k - 1);
      forall x | x in Tried(k)
        ensures x in before + {Candidate(k - 1)}
      {
        var j :| 0 <= j < k && x == Candidate(j);
        if j < k - 1 {
          assert x in before;
        }
      }
      assert Tried(k) == before + {Candidate(k - 1)};
      forall x | x in before
        ensures |x| < k - 1 + |Seed|
      {
        var j :| 0 <= j < k - 1 && x == Candidate(j);
      }
      assert Candidate(k - 1) !in before;
    }
  }

  /** A namespace can make only as many candidates collide as it has names:
      this is why the renaming loop stops. */
  lemma CollisionsBounded(g: Globals, k: nat)
    requires forall j :: 0 <= j < k ==> Candidate(j) in g
    ensures k <= |g.Keys|
  {
    TriedSize(k);
    assert Tried(k) <= g.Keys;
    SubsetSize(Tried(k), g.Keys);
  }

  lemma SubsetSize<T>(a: set<T>, b: set<T>)
    requires a <= b
    ensures |a| <= |b|
  {
    assert b == a + (b - a);
  }

  /** Counting collisions from the `k`-th candidate on. */
  function CollisionCount(g: Globals, k: nat): (n: nat)
    requires forall j :: 0 <= j < k ==> Candidate(j) in g
    ensures k <= n && Candidate(n) !in g
    ensures forall j :: 0 <= j < n ==> Candidate(j) in g
    decreases |g.Keys| - k
  {
    if Candidate(k) !in g then k
    else
      CollisionsBounded(g, k + 1);
      CollisionCount(g, k + 1)
  }

  /** The hidden binding's name for a snapshot `g`. */
  function HiddenName(g: Globals): (name: string)
    ensures name !in g
    ensures |name| >= |Seed| && name == Candidate(|name| - |Seed|)
    ensures forall k :: 0 <= k < |name| - |Seed| ==> Candidate(k) in g
  {
    Candidate(CollisionCount(g, 0))
  }

  /** The renaming loop: keep prepending `_` to "_globs" while the name is a
      global. The result is the candidate with the fewest underscores that is
      not a global. */
  method PickHiddenName(globs: Globals) returns (name: string)
    ensures name == HiddenName(globs)
    ensures name !in globs
    ensures exists k: nat :: name == Candidate(k) && forall j :: 0 <= j < k ==> Candidate(j) in globs
  {
    name := Seed;
    ghost var k: nat := 0;
    while name in globs
      invariant name == Candidate(k)
      invariant forall j :: 0 <= j < k ==> Candidate(j) in globs
      decreases |globs.Keys| - k
    {
      CollisionsBounded(globs, k + 1);
      name := "_" + name;
      k := k + 1;
    }
  }

  // ---------------------------------------------------------------------------
  // The hidden binding's value

  const Identity := ["__name__", "__package__"]

  /** `{glob: globs[glob] for glob in ["__name__", "__package__"]}`, failing with
      KeyError on the first of the two names the snapshot lacks. */
  function IdentityEntries(g: Globals): (r: Result<map<string, Value>>)
    ensures r.Ok? <==> "__name__" in g && "__package__" in g
    ensures r.Ok? ==> r.value.Keys == {"__name__", "__package__"}
                      && forall n :: n in r.value ==> r.value[n] == g[n]
    ensures r.Err? ==> r.error == KeyError(if "__name__" !in g then "__name__" else "__package__")
  {
    if "__name__" !in g then Err(KeyError("__name__"))
    else if "__package__" !in g then Err(KeyError("__package__"))
    else Ok(map["__name__" := g["__name__"], "__package__" := g["__package__"]])
  }

  /** The caller's bindings with the hidden one, named `hidden`, added (or
      written over a caller binding of the same name, in place). */
  function WithHidden(g: Globals, kwargs: Bindings, hidden: string): (r: Result<Bindings>)
    ensures r.Ok? <==> "__name__" in g && "__package__" in g
    ensures r.Err? ==> r.error == KeyError(if "__name__" !in g then "__name__" else "__package__")
    ensures r.Ok? ==> && hidden in r.value.values
                      && r.value.values[hidden] == Dict(map["__name__" := g["__name__"], "__package__" := g["__package__"]])
                      && (forall k :: k in kwargs.values && k != hidden ==> k in r.value.values && r.value.values[k] == kwargs.values[k])
                      && |kwargs.order| <= |r.value.order| && r.value.order[..|kwargs.order|] == kwargs.order
                      && (kwargs.Valid() ==> r.value.Valid())
  {
    match IdentityEntries(g)
    case Err(e) => Err(e)
    case Ok(entries) => Ok(Put(kwargs, hidden, Dict(entries)))
  }

  // ---------------------------------------------------------------------------
  // The synthesized function

  /** `code[-1]` becomes `return <expr>` when it is an expression statement;
      indexing an empty body raises IndexError. */
  function RewriteTail(body: seq<Stmt>): (r: Result<seq<Stmt>>)
    ensures r.Err? <==> body == []
    ensures r.Err? ==> r.error == IndexError
    ensures r.Ok? ==> |r.value| == |body| && r.value[..|body| - 1] == body[..|body| - 1]
    ensures r.Ok? && body[|body| - 1].ExprStmt? ==> r.value[|body| - 1] == Return(body[|body| - 1].value)
    ensures r.Ok? && !body[|body| - 1].ExprStmt? ==> r.value == body
  {
    if body == [] then Err(IndexError)
    else
      var last := body[|body| - 1];
      if last.ExprStmt? then Ok(body[..|body| - 1] + [Return(last.value)]) else Ok(body)
  }

  /** `ast.arguments(args=[], vararg=None, kwonlyargs=args, kwarg=None,
      defaults=[], kw_defaults=[None, ...])` with `posonlyargs=[]`. */
  function KeywordOnly(args: seq<Arg>): Params
  {
    Params([], [], None, args, seq(|args|, _ => None), None, [])
  }

  /** The parameter list the loop over `kwargs.keys()` builds. */
  function ArgsOf(names: seq<string>): (args: seq<Arg>)
    ensures |args| == |names|
    ensures forall i :: 0 <= i < |names| ==> args[i] == Arg(names[i], None)
  {
    seq(|names|, i requires 0 <= i < |names| => Arg(names[i], None))
  }

  /** The whole synthesized unit for a hidden name, the keyword bindings and the
      parsed body: `async def tmp(*, k1, ..., kn): globals().update(**hidden);
      <body with its trailing expression returned>`. */
  function BuildUnit(hidden: string, kw: Bindings, body: seq<Stmt>): (r: Result<AsyncDef>)
    ensures r.Err? <==> body == []
    ensures r.Err? ==> r.error == IndexError
    ensures r.Ok? ==>
      var f := r.value;
      && f.name == "tmp" && f.decorators == [] && f.annotation == None
      && f.params.posOnly == [] && f.params.args == [] && f.params.defaults == []
      && f.params.varArg == None && f.params.kwArg == None
      && |f.params.kwOnly| == |kw.order| == |f.params.kwDefaults|
      && (forall i :: 0 <= i < |kw.order| ==> f.params.kwOnly[i] == Arg(kw.order[i], None))
      && (forall i :: 0 <= i < |kw.order| ==> f.params.kwDefaults[i] == None)
      && |f.body| == |body| + 1
      && f.body[0] == GlobalsUpdate(hidden)
      && (forall i :: 0 <= i < |body| - 1 ==> f.body[i + 1] == body[i])
      && f.body[|body|] == (if body[|body| - 1].ExprStmt? then Return(body[|body| - 1].value) else body[|body| - 1])
  {
    match RewriteTail(body)
    case Err(e) => Err(e)
    case Ok(code) =>
      assert forall i :: 0 <= i < |body| - 1 ==> code[i] == code[..|body| - 1][i];
      Ok(AsyncDef("tmp", KeywordOnly(ArgsOf(kw.order)), [GlobalsUpdate(hidden)] + code, [], None))
  }

  // ---------------------------------------------------------------------------
  // The whole of meval, as a function of the namespace it starts from

  /** The outcome of `await meval(code, **kwargs)` and the module namespace it
      leaves, from the namespace `g` it starts in. */
  function MevalSpec(g: Globals, code: string, kwargs: Bindings, rt: Runtime): (out: (Result<Value>, Globals))
    ensures "__name__" !in g ==> out == (Err(KeyError("__name__")), g)
    ensures "__name__" in g && "__package__" !in g ==> out == (Err(KeyError("__package__")), g)
    ensures out.0.Ok? ==> out.1 == g
  {
    match WithHidden(g, kwargs, HiddenName(g))
    case Err(e) => (Err(e), g)
    case Ok(kw) =>
      match rt.parse(code)
      case ParseFailure(m) => (Err(SyntaxError(m)), g)
      case Statements(body) =>
        match BuildUnit(HiddenName(g), kw, body)
        case Err(e) => (Err(e), g)
        case Ok(unit) =>
          match rt.compile(unit)
          case Some(m) => (Err(SyntaxError(m)), g)
          case None =>
            match rt.call(unit, kw, g)
            case Threw(e, after) => (Err(e), after)
            case Returned(v, after) =>
              if !v.Awaitable? then (Ok(v), g)
              else
                match rt.resolve(v, after)
                case Threw(e, later) => (Err(e), later)
                case Returned(w, _) => (Ok(w), g)
  }

  /** The unit built for the snapshot `g` and parsed body `body`, when there is one. */
  function UnitFor(g: Globals, kwargs: Bindings, body: seq<Stmt>): Result<AsyncDef>
  {
    match WithHidden(g, kwargs, HiddenName(g))
    case Err(e) => Err(e)
    case Ok(kw) => BuildUnit(HiddenName(g), kw, body)
  }

  // ---------------------------------------------------------------------------
  // What meval promises

  /** The keyword parameters are the caller's names in their order, followed by
      the hidden name when no caller binding already has it. */
  lemma {:induction false} UnitParameters(g: Globals, kwargs: Bindings, body: seq<Stmt>)
    requires "__name__" in g && "__package__" in g && body != []
    requires HiddenName(g) !in kwargs.order
    ensures UnitFor(g, kwargs, body).Ok?
    ensures var ps := UnitFor(g, kwargs, body).value.params.kwOnly;
      |ps| == |kwargs.order| + 1
      && (forall i :: 0 <= i < |kwargs.order| ==> ps[i].name == kwargs.order[i])
      && ps[|kwargs.order|].name == HiddenName(g)
  {
    var kw := Put(kwargs, HiddenName(g), Dict(IdentityEntries(g).value));
    assert kw.order == kwargs.order + [HiddenName(g)];
  }

  /** Freshness is checked against the globals only: a caller binding that
      already has the hidden name keeps its place and loses its value. */
  lemma CallerBindingOverwritten(g: Globals, kwargs: Bindings)
    requires "__name__" in g && "__package__" in g
    requires HiddenName(g) in kwargs.order
    ensures WithHidden(g, kwargs, HiddenName(g)).Ok?
    ensures WithHidden(g, kwargs, HiddenName(g)).value.order == kwargs.order
    ensures WithHidden(g, kwargs, HiddenName(g)).value.values[HiddenName(g)]
            == Dict(map["__name__" := g["__name__"], "__package__" := g["__package__"]])
  {
  }

  /** Runs the unit's first statement in the function's own namespace `frame`
      (the dict `exec(comp, {}, locs)` made, which then holds `__builtins__`):
      `globals().update(**x)` with `x` a keyword binding that holds a dict. */
  function RunPrologue(s: Stmt, kw: Bindings, frame: Globals): Option<Globals>
  {
    match s
    case GlobalsUpdate(x) =>
      if x in kw.values && kw.values[x].Dict? then Some(frame + kw.values[x].entries) else None
    case _ => None
  }

  /** Whatever the function's namespace holds, the prologue sets its
      `__name__` and `__package__` to the caller's and changes nothing else. */
  lemma PrologueRestoresIdentity(g: Globals, kwargs: Bindings, body: seq<Stmt>, frame: Globals)
    requires "__name__" in g && "__package__" in g && body != []
    ensures UnitFor(g, kwargs, body).Ok?
    ensures RunPrologue(UnitFor(g, kwargs, body).value.body[0], WithHidden(g, kwargs, HiddenName(g)).value, frame)
            == Some(frame["__name__" := g["__name__"]]["__package__" := g["__package__"]])
  {
    var entries := IdentityEntries(g).value;
    assert frame + entries == frame["__name__" := g["__name__"]]["__package__" := g["__package__"]];
  }

  /** On normal completion of the call and of the one nested await, the
      namespace ends equal to the snapshot: every change the call made to the
      module namespace is undone. Such changes come through a module object;
      the unit's own `global` statements write into the fresh dict `frame`
      it was executed with, never into the module. */
  lemma RestoredOnSuccess(g: Globals, code: string, kwargs: Bindings, rt: Runtime)
    requires MevalSpec(g, code, kwargs, rt).0.Ok?
    ensures MevalSpec(g, code, kwargs, rt).1 == g
  {
  }

  /** When the call raises, the restore is never reached: the namespace the
      call left behind stays. */
  lemma CallFailureSkipsRestore(g: Globals, code: string, kwargs: Bindings, rt: Runtime, body: seq<Stmt>)
    requires rt.parse(code) == Statements(body)
    requires UnitFor(g, kwargs, body).Ok? && rt.compile(UnitFor(g, kwargs, body).value) == None
    requires rt.call(UnitFor(g, kwargs, body).value, WithHidden(g, kwargs, HiddenName(g)).value, g).Threw?
    ensures MevalSpec(g, code, kwargs, rt)
            == (Err(rt.call(UnitFor(g, kwargs, body).value, WithHidden(g, kwargs, HiddenName(g)).value, g).error),
                rt.call(UnitFor(g, kwargs, body).value, WithHidden(g, kwargs, HiddenName(g)).value, g).globals)
  {
  }

  /** An await of the returned awaitable that raises likewise skips the
      restore: the namespace is the one the await left behind. */
  lemma AwaitFailureSkipsRestore(g: Globals, code: string, kwargs: Bindings, rt: Runtime, body: seq<Stmt>, id: nat)
    requires rt.parse(code) == Statements(body)
    requires UnitFor(g, kwargs, body).Ok? && rt.compile(UnitFor(g, kwargs, body).value) == None
    requires rt.call(UnitFor(g, kwargs, body).value, WithHidden(g, kwargs, HiddenName(g)).value, g).Returned?
    requires rt.call(UnitFor(g, kwargs, body).value, WithHidden(g, kwargs, HiddenName(g)).value, g).value == Awaitable(id)
    requires rt.resolve(Awaitable(id), rt.call(UnitFor(g, kwargs, body).value, WithHidden(g, kwargs, HiddenName(g)).value, g).globals).Threw?
    ensures MevalSpec(g, code, kwargs, rt)
            == (Err(rt.resolve(Awaitable(id), rt.call(UnitFor(g, kwargs, body).value, WithHidden(g, kwargs, HiddenName(g)).value, g).globals).error),
                rt.resolve(Awaitable(id), rt.call(UnitFor(g, kwargs, body).value, WithHidden(g, kwargs, HiddenName(g)).value, g).globals).globals)
  {
  }

  /** A syntax error is reported before any global is touched. */
  lemma ParseFailureLeavesGlobals(g: Globals, code: string, kwargs: Bindings, rt: Runtime)
    requires "__name__" in g && "__package__" in g
    requires rt.parse(code).ParseFailure?
    ensures MevalSpec(g, code, kwargs, rt) == (Err(SyntaxError(rt.parse(code).message)), g)
  {
  }

  /** An empty or comment-only snippet parses to no statements and fails at
      `code[-1]` with IndexError, before any global is touched. */
  lemma EmptyBodyFails(g: Globals, code: string, kwargs: Bindings, rt: Runtime)
    requires "__name__" in g && "__package__" in g
    requires rt.parse(code) == Statements([])
    ensures MevalSpec(g, code, kwargs, rt) == (Err(IndexError), g)
  {
  }

  /** At most one nested awaitable is resolved: an awaitable that the await
      itself produces is the result. */
  lemma OneAwaitOnly(g: Globals, code: string, kwargs: Bindings, rt: Runtime, body: seq<Stmt>, id: nat, inner: nat)
    requires rt.parse(code) == Statements(body)
    requires UnitFor(g, kwargs, body).Ok? && rt.compile(UnitFor(g, kwargs, body).value) == None
    requires rt.call(UnitFor(g, kwargs, body).value, WithHidden(g, kwargs, HiddenName(g)).value, g).Returned?
    requires rt.call(UnitFor(g, kwargs, body).value, WithHidden(g, kwargs, HiddenName(g)).value, g).value == Awaitable(id)
    requires rt.resolve(Awaitable(id), rt.call(UnitFor(g, kwargs, body).value, WithHidden(g, kwargs, HiddenName(g)).value, g).globals).Returned?
    requires rt.resolve(Awaitable(id), rt.call(UnitFor(g, kwargs, body).value, WithHidden(g, kwargs, HiddenName(g)).value, g).globals).value == Awaitable(inner)
    ensures MevalSpec(g, code, kwargs, rt) == (Ok(Awaitable(inner)), g)
  {
  }

  // ---------------------------------------------------------------------------
  // The module namespace and meval run step by step

  /** The loop over `kwargs.keys()` that builds the keyword-only parameters. */
  method KeywordArgs(kw: Bindings) returns (args: seq<Arg>)
    ensures |args| == |kw.order|
    ensures forall i :: 0 <= i < |kw.order| ==> args[i] == Arg(kw.order[i], None)
  {
    args := [];
    for i := 0 to |kw.order|
      invariant |args| == i
      invariant forall j :: 0 <= j < i ==> args[j] == Arg(kw.order[j], None)
    {
      args := args + [Arg(kw.order[i], None)];
    }
  }

  /** `kwargs[hidden] = {}` and then, for `__name__` and `__package__` in
      turn, `kwargs[hidden][glob] = globs[glob]`, which raises KeyError on a
      name the snapshot lacks. */
  method AddHidden(globs: Globals, kwargs: Bindings, hidden: string) returns (r: Result<Bindings>)
    ensures r == WithHidden(globs, kwargs, hidden)
  {
    var kw := Put(kwargs, hidden, Dict(map[]));
    var entries: map<string, Value> := map[];
    for i := 0 to |Identity|
      invariant forall j :: 0 <= j < i ==> Identity[j] in entries
      invariant forall n :: n in entries ==> n in Identity && n in globs && entries[n] == globs[n]
      invariant kw == Put(kwargs, hidden, Dict(entries))
    {
      var glob := Identity[i];
      if glob !in globs {
        assert i == 1 ==> Identity[0] in entries;
        return Err(KeyError(glob));
      }
      entries := entries[glob := globs[glob]];
      PutTwice(kwargs, hidden, kw.values[hidden], Dict(entries));
      kw := Put(kw, hidden, Dict(entries));
    }
    assert Identity[0] in entries && Identity[1] in entries;
    IdentityEntriesAre(globs, entries);
    r := Ok(kw);
  }

  /** A map holding exactly the two identity names, copied from `g`, is the
      one `IdentityEntries` builds. */
  lemma IdentityEntriesAre(g: Globals, entries: map<string, Value>)
    requires forall n :: n in entries ==> n in Identity && n in g && entries[n] == g[n]
    requires Identity[0] in entries && Identity[1] in entries
    ensures IdentityEntries(g) == Ok(entries)
  {
    var m := IdentityEntries(g).value;
    forall n | n in entries
      ensures n in m
    {
      assert n == Identity[0] || n == Identity[1];
    }
    assert entries.Keys == m.Keys;
    assert forall n :: n in m ==> m[n] == entries[n];
    assert m == entries;
  }

  /** Storing twice under one key keeps only the second value and the order
      the first store gave. */
  lemma PutTwice(d: Bindings, k: string, v: Value, w: Value)
    ensures Put(Put(d, k, v), k, w) == Put(d, k, w)
  {
  }

  /** `code[-1] = Return(code[-1].value)` for a trailing expression,
      `code.insert(0, glob_copy)`, the parameter loop and the
      `AsyncFunctionDef` named `tmp`. */
  method Synthesize(hidden: string, kw: Bindings, parsed: seq<Stmt>) returns (r: Result<AsyncDef>)
    ensures r == BuildUnit(hidden, kw, parsed)
  {
    var body := parsed;
    if |body| == 0 {
      return Err(IndexError);
    }
    if body[|body| - 1].ExprStmt? {
      body := body[..|body| - 1] + [Return(body[|body| - 1].value)];
    }
    body := [GlobalsUpdate(hidden)] + body;
    var args := KeywordArgs(kw);
    assert args == ArgsOf(kw.order);
    r := Ok(AsyncDef("tmp", KeywordOnly(args), body, [], None));
  }

  /** The namespace of the sudo command module, which `meval` snapshots and
      restores and which `!exec` writes into. */
  class Namespace {
    var globals: Globals

    constructor (initial: Globals)
      ensures globals == initial
    {
      globals := initial;
    }

    /** `await meval(code, **kwargs)`: the outcome and the new namespace are
        those `MevalSpec` gives for the namespace before the call. */
    method Meval(code: string, kwargs: Bindings, rt: Runtime) returns (r: Result<Value>)
      modifies this
      ensures (r, globals) == MevalSpec(old(globals), code, kwargs, rt)
    {
      // the snapshot the restore goes back to
      var globs := globals;
      var hidden := PickHiddenName(globs);
      var bound := AddHidden(globs, kwargs, hidden);
      if bound.Err? {
        return Err(bound.error);
      }
      var kw := bound.value;
      var parsed := rt.parse(code);
      if parsed.ParseFailure? {
        return Err(SyntaxError(parsed.message));
      }
      var built := Synthesize(hidden, kw, parsed.body);
      if built.Err? {
        return Err(built.error);
      }
      var fun := built.value;
      var failure := rt.compile(fun);
      if failure.Some? {
        return Err(SyntaxError(failure.value));
      }
      var c := rt.call(fun, kw, globals);
      globals := c.globals;
      if c.Threw? {
        return Err(c.error);
      }
      var v := c.value;
      if v.Awaitable? {
        c := rt.resolve(v, globals);
        globals := c.globals;
        if c.Threw? {
          return Err(c.error);
        }
        v := c.value;
      }
      globals := map[];
      // cleared first, then refilled from the snapshot
      globals := globs;
      r := Ok(v);
    }

    /** `globals().update(locals())` in the `!exec` handler, whose only locals
        there are `msg` and `text`: a one-way merge that is never undone. */
    method MergeLocals(msg: Value, text: string)
      modifies this
      ensures globals == old(globals)["msg" := msg]["text" := Str(text)]
    {
      globals := globals["msg" := msg];
      globals := globals["text" := Str(text)];
    }
  }
}
