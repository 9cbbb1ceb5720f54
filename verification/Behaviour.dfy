/** What lowered code does when it runs, and what a body says under flat and under lexical scoping. */
module Behaviour {
  import opened Decoded
  import opened Literals
  import opened Codegen

  /**
    `Opaque` is the value of an argument, or of an expression without code; `Undefined` has no value in the source;
    `Foreign` is read from a slot that belongs to another function.
   */
  datatype Out = Num(value: int) | Any(width: Width) | Opaque | Undefined | Foreign

  /** What can be seen of a run. */
  datatype Act =
    | Begin
    | Enter(kind: Kind)
    | Leave(kind: Kind)
    | Drew(width: Width)
    | Kept(site: nat, out: Out)
    | Got(site: nat, out: Out)
    | Looked(name: string, out: Out)   // a constant of the file, or a name with no meaning
    | Bound(name: string)              // a local variable or an argument
    | Strayed                          // a slot of another function
    | Acted                            // whatever an expression without code does
    | Gave(out: Out)
    | GaveNothing

  // ----- executing a trace -----

  /** A function runs in a memory of its own and until its first return; `live` says that it has not returned yet. */
  datatype Execution = Execution(memory: map<nat, Out>, registers: map<nat, Out>, live: bool, acts: seq<Act>) {
    function Value(o: Operand): Out {
      match o
      case Immediate(w) => Num(Int32(w))
      case Register(at) => if at in registers then registers[at] else Undefined
    }

    function Contents(slot: nat): Out {
      if slot in memory then memory[slot] else Foreign
    }

    function Loaded(slot: nat): Act {
      if slot in memory then Act.Got(slot, memory[slot]) else Strayed
    }

    function Saw(a: Act): Execution {
      this.(acts := acts + [a])
    }
  }

  function Step(x: Execution, at: nat, e: Event): Execution
  {
    if e.Entry? then Execution(map[], map[], true, x.acts + [Begin])
    else if !x.live then x
    else
      match e
      case Start(kind) => x.Saw(Enter(kind))
      case End(kind) => x.Saw(Leave(kind))
      case Draw(w) => x.Saw(Drew(w)).(registers := x.registers[at := Any(w)])
      case Alloca(_) => x
      case Load(slot) => x.Saw(x.Loaded(slot)).(registers := x.registers[at := x.Contents(slot)])
      case Store(slot, w) => x.Saw(Kept(slot, x.Value(w))).(memory := x.memory[slot := x.Value(w)])
      case Ret(w) => x.Saw(Gave(x.Value(w))).(live := false)
      case RetVoid => x.Saw(GaveNothing).(live := false)
  }

  function Execute(t: seq<Event>): Execution
  {
    if t == [] then Execution(map[], map[], true, []) else Step(Execute(t[..|t| - 1]), |t| - 1, t[|t| - 1])
  }

  // ----- the meaning of a body -----

  /** A constant, with the number of its definition, or a local variable or argument; and its value. */
  datatype Def = Def(site: nat, out: Out) | Local(out: Out)

  /** What the names stand for. */
  type Table = map<string, Out>

  /**
    The names the function has defined, the constants of the file, the names left in the table by earlier functions, the
    number of the next definition, and whether the function is still running.
   */
  datatype Env = Env(names: map<string, Def>, globals: Table, earlier: set<string>, next: nat, live: bool) {
    /** Acts happen only while the function runs. */
    function Shown(acts: seq<Act>): seq<Act> {
      if live then acts else []
    }

    function Stands(x: string): Out {
      if x in names then names[x].out
      else if x in globals then globals[x]
      else if x in earlier then Foreign
      else Undefined
    }

    function Look(x: string): Act {
      if x in names then
        match names[x]
        case Def(site, out) => Act.Got(site, out)
        case Local(_) => Bound(x)
      else if x in globals || x !in earlier then Looked(x, Stands(x))
      else Strayed
    }
  }

  /**
    How a body is read: the scoping of names, and whether literals stand for the number written or for the word
    kept.
   */
  datatype Reader = Reader(lexical: bool, exact: bool)

  const LOWERED := Reader(false, false)

  function LiteralOut(text: string, exact: bool): Out
  {
    if !exact then Num(Int32(Word(text)))
    else if Written(text).Some? then Num(Written(text).value)
    else Undefined
  }

  function ExprActs(e: Expr, env: Env): seq<Act>
  {
    match e
    case Identifier(x) => [env.Look(x)]
    case Uzumaki(w) => [if w.Some? then Drew(w.value) else Acted]
    case OtherExpr(effects) => if effects then [Acted] else []
    case _ => []
  }

  function ExprOut(e: Expr, exact: bool, env: Env): Out
  {
    match e
    case Number(text) => LiteralOut(text, exact)
    case Boolean(b) => Num(if b then 1 else 0)
    case Identifier(x) => env.Stands(x)
    case Uzumaki(w) => if w.Some? then Any(w.value) else Opaque
    case OtherExpr(_) => Opaque
  }

  /** After a block: lexical scoping gives the names back as they were. */
  function Left(outer: Env, inner: Env, lexical: bool): Env
  {
    if lexical then inner.(names := outer.names) else inner
  }

  /**
    The acts of a statement in program order up to the first return, and the names it leaves. Local variables have no
    code: lexically they bind their names, and what the source says includes what their initial values do.
   */
  function Meaning(s: Stmt, r: Reader, spills: bool, env: Env): (seq<Act>, Env)
    decreases s
  {
    match s
    case Block(body) =>
      var (acts, inner) := MeaningAll(body, r, spills, env);
      (acts, Left(env, inner, r.lexical))
    case Quantified(kind, body) =>
      var (acts, inner) := MeaningAll(body, r, spills, env);
      (env.Shown([Enter(kind)]) + acts + inner.Shown([Leave(kind)]), Left(env, inner, r.lexical))
    case Expression(e) =>
      var kept := if spills then [Kept(env.next, ExprOut(e, r.exact, env))] else [];
      (env.Shown(ExprActs(e, env) + kept), env.(next := env.next + |kept|))
    case Return(e) =>
      (env.Shown(ExprActs(e, env) + [Gave(ExprOut(e, r.exact, env))]), env.(live := false))
    case Variable(x, init) =>
      if !r.lexical then ([], env)
      else
        var out := if init.Some? then ExprOut(init.value, r.exact, env) else Opaque;
        var acts := if init.Some? && r.exact then ExprActs(init.value, env) else [];
        (env.Shown(acts), env.(names := env.names[x := Local(out)]))
    case Constant(x, v) =>
      if v.None? then ([], env)
      else
        var out := LiteralOut(v.value, r.exact);
        (env.Shown([Kept(env.next, out)]), env.(names := env.names[x := Def(env.next, out)], next := env.next + 1))
    case _ => ([], env)
  }

  function MeaningAll(ss: seq<Stmt>, r: Reader, spills: bool, env: Env): (seq<Act>, Env)
    decreases ss
  {
    if ss == [] then ([], env)
    else
      var (first, env1) := Meaning(ss[0], r, spills, env);
      var (rest, env2) := MeaningAll(ss[1..], r, spills, env1);
      (first + rest, env2)
  }

  // ----- lowered code does what the body says under flat scoping and with the words kept -----

  /** The variable table agrees with the names, and so does the memory while the function runs. */
  ghost predicate Linked(m: Machine, env: Env)
  {
    var x := Execute(m.trace);
    && m.slots == env.next && m.variables.Keys == env.names.Keys + env.earlier && env.globals == map[]
    && x.live == env.live && (forall n <- m.variables :: m.variables[n] < m.slots)
    && (forall n <- env.names :: env.names[n].Def? && m.variables[n] == env.names[n].site)
    && (env.live ==> forall n <- env.names :: && env.names[n].site in x.memory
                                             && x.memory[env.names[n].site] == env.names[n].out)
    && (env.live ==> forall n <- env.earlier :: n !in env.names ==> m.variables[n] !in x.memory)
  }

  lemma ExecuteEmit(m: Machine, e: Event)
    ensures Execute(m.Emit(e).trace) == Step(Execute(m.trace), |m.trace|, e)
  {
    assert (m.trace + [e])[..|m.trace|] == m.trace;
  }

  /** An expression's code leaves its value in its operand. */
  lemma ExprMeaning(e: Expr, m: Machine, env: Env)
    requires Linked(m, env) && LowerExpr(e, m).Some?
    ensures var (m', w) := LowerExpr(e, m).value;
            && Linked(m', env) && Execute(m'.trace).acts == Execute(m.trace).acts + env.Shown(ExprActs(e, env))
            && (env.live ==> Execute(m'.trace).Value(w) == ExprOut(e, false, env))
  {
    hide Execute;
    match e
    case Identifier(x) => ExecuteEmit(m, Load(m.variables[x]));
    case Uzumaki(w) => ExecuteEmit(m, Draw(w.value));
    case _ =>
  }

  /** A new slot holds the operand's value and disturbs no other slot. */
  lemma AllocateMeaning(m: Machine, w: Operand, env: Env)
    requires Linked(m, env)
    ensures var x, x' := Execute(m.trace), Execute(m.Allocate(w).trace);
            && x'.acts == x.acts + env.Shown([Kept(env.next, x.Value(w))])
            && (env.live ==> x'.Contents(m.slots) == x.Value(w))
    ensures m.slots == env.next && Linked(m.Allocate(w), env.(next := env.next + 1))
  {
    hide Execute;
    ExecuteEmit(m, Alloca(m.slots));
    ExecuteEmit(m.Emit(Alloca(m.slots)), Store(m.slots, w));
  }

  /** What lowering from `m` on must have added. */
  ghost predicate Adds(m: Machine, m': Machine, acts: seq<Act>, env: Env)
  {
    Linked(m', env) && Execute(m'.trace).acts == Execute(m.trace).acts + acts
  }

  lemma {:induction false} LoweredMeaning(s: Stmt, spills: bool, m: Machine, env: Env)
    requires Linked(m, env) && Lower(s, spills, m).Some?
    ensures Adds(m, Lower(s, spills, m).value, Meaning(s, LOWERED, spills, env).0, Meaning(s, LOWERED, spills, env).1)
    decreases s
  {
    hide Execute, Linked;
    match s
    case Block(body) => LoweredAllMeaning(body, spills, m, env);
    case Quantified(kind, body) =>
      BracketMeaning(m, Start(kind), env);
      LoweredAllMeaning(body, spills, m.Emit(Start(kind)), env);
      BracketMeaning(LowerAll(body, spills, m.Emit(Start(kind))).value, End(kind),
                     MeaningAll(body, LOWERED, spills, env).1);
    case Expression(e) => ExpressionMeaning(e, spills, m, env);
    case Return(e) => ReturnMeaning(e, spills, m, env);
    case Constant(x, v) => ConstantMeaning(x, v.value, m, env);
    case _ =>
  }

  lemma ExpressionMeaning(e: Expr, spills: bool, m: Machine, env: Env)
    requires Linked(m, env) && Lower(Expression(e), spills, m).Some?
    ensures var (acts, after) := Meaning(Expression(e), LOWERED, spills, env);
            Adds(m, Lower(Expression(e), spills, m).value, acts, after)
  {
    hide Execute, Linked;
    ExprMeaning(e, m, env);
    var r := LowerExpr(e, m).value;
    if spills {
      AllocateMeaning(r.0, r.1, env);
    }
  }

  lemma ReturnMeaning(e: Expr, spills: bool, m: Machine, env: Env)
    requires Linked(m, env) && Lower(Return(e), spills, m).Some?
    ensures var (acts, after) := Meaning(Return(e), LOWERED, spills, env);
            Adds(m, Lower(Return(e), spills, m).value, acts, after)
  {
    hide Execute, Linked;
    ExprMeaning(e, m, env);
    var r := LowerExpr(e, m).value;
    RetMeaning(r.0, r.1, env);
  }

  function ActOf(e: Event): Act
    requires e.Start? || e.End?
  {
    if e.Start? then Enter(e.kind) else Leave(e.kind)
  }

  lemma BracketMeaning(m: Machine, e: Event, env: Env)
    requires Linked(m, env) && (e.Start? || e.End?)
    ensures Adds(m, m.Emit(e), env.Shown([ActOf(e)]), env)
  {
    hide Execute;
    ExecuteEmit(m, e);
  }

  lemma RetMeaning(m: Machine, w: Operand, env: Env)
    requires Linked(m, env)
    ensures Adds(m, m.Emit(Ret(w)), env.Shown([Gave(Execute(m.trace).Value(w))]), env.(live := false))
  {
    hide Execute;
    ExecuteEmit(m, Ret(w));
  }

  lemma ConstantMeaning(x: string, literal: string, m: Machine, env: Env)
    requires Linked(m, env)
    ensures Adds(m, m.Allocate(Immediate(Word(literal))).(variables := m.variables[x := m.slots]),
                 env.Shown([Kept(env.next, Num(Int32(Word(literal))))]),
                 env.(names := env.names[x := Def(env.next, Num(Int32(Word(literal))))], next := env.next + 1))
  {
    hide Execute;
    AllocateMeaning(m, Immediate(Word(literal)), env);
  }

  lemma {:induction false} LoweredAllMeaning(ss: seq<Stmt>, spills: bool, m: Machine, env: Env)
    requires Linked(m, env) && LowerAll(ss, spills, m).Some?
    ensures Adds(m, LowerAll(ss, spills, m).value,
                 MeaningAll(ss, LOWERED, spills, env).0, MeaningAll(ss, LOWERED, spills, env).1)
    decreases ss
  {
    hide Execute, Linked, Lower, Meaning;
    if ss != [] {
      LoweredMeaning(ss[0], spills, m, env);
      LoweredAllMeaning(ss[1..], spills, Lower(ss[0], spills, m).value, Meaning(ss[0], LOWERED, spills, env).1);
    }
  }
}
