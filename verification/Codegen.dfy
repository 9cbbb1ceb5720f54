/** Lowering of function bodies to a straight trace of builder calls. */
module Codegen {
  import opened Decoded
  import opened Literals

  datatype Kind = Forall | Exists | Assume | Unique

  datatype Width = I32 | I64

  /**
    `Uzumaki` carries the width its type asks for, if code can be made for that type at all; `OtherExpr` stands for
    every expression without code, and says whether evaluating it does anything besides giving a value.
   */
  datatype Expr =
    | Number(literal: string)
    | Boolean(value: bool)
    | Identifier(name: string)
    | Uzumaki(width: Option<Width>)
    | OtherExpr(effects: bool)

  /**
    `Constant` carries its number literal when its type is i32; `Unsupported` stands for every statement on
    which lowering gives up.
   */
  datatype Stmt =
    | Block(body: seq<Stmt>)
    | Quantified(kind: Kind, body: seq<Stmt>)
    | Expression(expr: Expr)
    | Return(expr: Expr)
    | Variable(name: string, init: Option<Expr>)
    | Constant(name: string, literal: Option<string>)
    | Unsupported(nonDet: bool)

  /** An operand: a constant, or the result of the instruction at an index of the trace. */
  datatype Operand = Immediate(word: nat) | Register(at: nat)

  /** What a function gives back: nothing, an integer of some bits, or something there is no code for. */
  datatype Result = Nothing | Bits(bits: nat) | NoCode

  datatype Event =
    | Entry(result: Result)
    | Start(kind: Kind)
    | End(kind: Kind)
    | Draw(width: Width)
    | Alloca(slot: nat)
    | Load(slot: nat)
    | Store(slot: nat, word: Operand)
    | Ret(word: Operand)
    | RetVoid

  /** What a lowering step reads and writes; `slots` counts the stack slots handed out so far. */
  datatype Machine = Machine(trace: seq<Event>, variables: map<string, nat>, slots: nat) {
    function Emit(e: Event): Machine {
      this.(trace := trace + [e])
    }

    /** A new slot that holds `word`. */
    function Allocate(word: Operand): Machine {
      Emit(Alloca(slots)).Emit(Store(slots, word)).(slots := slots + 1)
    }
  }

  predicate DrawsAny(e: Expr) {
    e.Uzumaki?
  }

  predicate NonDet(s: Stmt) {
    match s
    case Quantified(_, _) => true
    case Block(_) => false
    case Expression(e) => DrawsAny(e)
    case Return(e) => DrawsAny(e)
    case Variable(_, init) => init.Some? && DrawsAny(init.value)
    case Constant(_, _) => false
    case Unsupported(nonDet) => nonDet
  }

  predicate BlockNonDet(b: Stmt) {
    b.Quantified? || (b.Block? && exists s <- b.body :: NonDet(s))
  }

  /** As the source decides it: a nested block counts as returning when it is itself void. */
  predicate Void(b: Stmt) {
    (b.Block? || b.Quantified?) ==> forall s <- b.body :: !s.Return? && ((s.Block? || s.Quantified?) ==> !Void(s))
  }

  /** Whether expression statements below `outermost` are kept alive by a store. */
  predicate Spills(outermost: Stmt) {
    BlockNonDet(outermost) && Void(outermost)
  }

  /** Without blocks inside, a body spills when nothing in it returns and it, or something in it, is a draw. */
  lemma SpillsFlat(b: Stmt)
    requires (b.Block? || b.Quantified?) && forall s <- b.body :: !s.Block? && !s.Quantified?
    ensures Spills(b) <==>
            && (forall s <- b.body :: !s.Return?)
            && (b.Quantified? ||
                exists s <- b.body ::
                  || (s.Expression? && s.expr.Uzumaki?)
                  || (s.Variable? && s.init.Some? && s.init.value.Uzumaki?)
                  || (s.Unsupported? && s.nonDet))
  {
    assert forall s <- b.body :: NonDet(s) && !s.Return? <==>
      || (s.Expression? && s.expr.Uzumaki?)
      || (s.Variable? && s.init.Some? && s.init.value.Uzumaki?)
      || (s.Unsupported? && s.nonDet);
  }

  /** A block around another is void exactly when the other is not, so what is kept alive depends on the nesting. */
  lemma VoidAlternates(b: Stmt, kind: Kind)
    requires b.Block? || b.Quantified?
    ensures Void(Block([b])) <==> !Void(b)
    ensures Spills(Quantified(kind, [b])) <==> !Void(b)
  {
    assert [b][0] == b;
    assert Block([b]).body == [b] && Quantified(kind, [b]).body == [b];
  }

  // ----- lowering as a function of the machine -----

  function LowerExpr(e: Expr, m: Machine): Option<(Machine, Operand)> {
    match e
    case Number(v) => Some((m, Immediate(Word(v))))
    case Boolean(b) => Some((m, Immediate(if b then 1 else 0)))
    case Identifier(x) =>
      if x in m.variables then Some((m.Emit(Load(m.variables[x])), Register(|m.trace|))) else None
    case Uzumaki(w) =>
      if w.Some? then Some((m.Emit(Draw(w.value)), Register(|m.trace|))) else None
    case OtherExpr(_) => None
  }

  /** The machine after `s`; none where the source panics. */
  function Lower(s: Stmt, spills: bool, m: Machine): Option<Machine>
    decreases s
  {
    match s
    case Block(body) => LowerAll(s.body, spills, m)
    case Quantified(kind, body) =>
      var inner := LowerAll(s.body, spills, m.Emit(Start(kind)));
      if inner.Some? then Some(inner.value.Emit(End(kind))) else None
    case Expression(e) =>
      var r := LowerExpr(e, m);
      if r.None? then None else Some(if spills then r.value.0.Allocate(r.value.1) else r.value.0)
    case Return(e) =>
      var r := LowerExpr(e, m);
      if r.None? then None else Some(r.value.0.Emit(Ret(r.value.1)))
    case Variable(_, _) => Some(m)
    case Constant(x, v) =>
      if v.None? then None
      else Some(m.Allocate(Immediate(Word(v.value))).(variables := m.variables[x := m.slots]))
    case Unsupported(_) => None
  }

  function LowerAll(ss: seq<Stmt>, spills: bool, m: Machine): Option<Machine>
    decreases ss
  {
    if ss == [] then Some(m)
    else
      var r := Lower(ss[0], spills, m);
      if r.None? then None else LowerAll(ss[1..], spills, r.value)
  }

  // ----- the compiler -----

  class Compiler {
    var trace: seq<Event>
    var variables: map<string, nat>
    var slots: nat
    var parents: seq<Stmt>

    ghost function State(): Machine
      reads this
    {
      Machine(trace, variables, slots)
    }

    constructor ()
      ensures State() == Machine([], map[], 0) && parents == []
    {
      trace, variables, slots, parents := [], map[], 0, [];
    }

    method Emit(e: Event)
      modifies this`trace
      ensures State() == old(State()).Emit(e)
    {
      trace := trace + [e];
    }

    method Allocate(word: Operand) returns (slot: nat)
      modifies this`trace, this`slots
      ensures slot == old(slots) && State() == old(State()).Allocate(word)
    {
      slot := slots;
      Emit(Alloca(slot));
      Emit(Store(slot, word));
      slots := slots + 1;
    }

    method LowerExpression(e: Expr) returns (word: Option<Operand>)
      modifies this`trace
      ensures word.Some? <==> LowerExpr(e, old(State())).Some?
      ensures word.Some? ==> LowerExpr(e, old(State())) == Some((State(), word.value))
    {
      match e
      case Number(v) => word := Some(Immediate(Word(v)));
      case Boolean(b) => word := Some(Immediate(if b then 1 else 0));
      case Identifier(x) =>
        if x !in variables {
          return None;
        }
        word := Some(Register(|trace|));
        Emit(Load(variables[x]));
      case Uzumaki(w) =>
        if w.None? {
          return None;
        }
        word := Some(Register(|trace|));
        Emit(Draw(w.value));
      case OtherExpr(_) => word := None;
    }

    method LowerStatement(s: Stmt) returns (ok: bool)
      requires parents != []
      modifies this
      ensures ok <==> Lower(s, Spills(old(parents)[0]), old(State())).Some?
      ensures ok ==> Some(State()) == Lower(s, Spills(old(parents)[0]), old(State())) && parents == old(parents)
      decreases s
    {
      match s
      case Block(body) =>
        parents := parents + [s];
        ok := LowerBody(s.body);
        if ok {
          parents := parents[..|parents| - 1];
        }
      case Quantified(kind, body) =>
        Emit(Start(kind));
        parents := parents + [s];
        ok := LowerBody(s.body);
        if ok {
          Emit(End(kind));
          parents := parents[..|parents| - 1];
        }
      case Expression(e) =>
        var word := LowerExpression(e);
        if word.Some? && Spills(parents[0]) {
          var _ := Allocate(word.value);
        }
        ok := word.Some?;
      case Return(e) =>
        var word := LowerExpression(e);
        if word.Some? {
          Emit(Ret(word.value));
        }
        ok := word.Some?;
      case Variable(_, _) => ok := true;
      case Constant(x, v) =>
        ok := v.Some?;
        if ok {
          var slot := Allocate(Immediate(Word(v.value)));
          variables := variables[x := slot];
        }
      case Unsupported(_) => ok := false;
    }

    method LowerBody(body: seq<Stmt>) returns (ok: bool)
      requires parents != []
      modifies this
      ensures ok <==> LowerAll(body, Spills(old(parents)[0]), old(State())).Some?
      ensures ok ==> Some(State()) == LowerAll(body, Spills(old(parents)[0]), old(State())) && parents == old(parents)
      decreases body
    {
      ghost var spills := Spills(parents[0]);
      assert body[0..] == body;
      for i := 0 to |body|
        invariant parents == old(parents)
        invariant LowerAll(body[i..], spills, State()) == LowerAll(body, spills, old(State()))
      {
        assert body[i..][1..] == body[i + 1..];
        ok := LowerStatement(body[i]);
        if !ok {
          return false;
        }
      }
      ok := true;
    }

    /** Functions one after the other; the variable table is never cleared. */
    method LowerFunctions(fs: seq<Definition>) returns (ok: bool)
      modifies this
      ensures ok <==> LowerDefinitions(fs, old(State())).Some?
      ensures ok ==> Some(State()) == LowerDefinitions(fs, old(State()))
    {
      hide LowerDefinition;
      assert fs[0..] == fs;
      for i := 0 to |fs|
        invariant LowerDefinitions(fs[i..], State()) == LowerDefinitions(fs, old(State()))
      {
        assert fs[i..][0] == fs[i] && fs[i..][1..] == fs[i + 1..];
        ok := LowerFunction(fs[i]);
        if !ok {
          return false;
        }
      }
      ok := true;
    }

    /** A whole body, as a function definition hands it over: the body stands in the stack before it is lowered. */
    method LowerFunction(f: Definition) returns (ok: bool)
      modifies this
      ensures ok <==> LowerDefinition(f, old(State())).Some?
      ensures ok ==> parents == [f.body] && Some(State()) == LowerDefinition(f, old(State()))
    {
      if f.result.NoCode? {
        return false;
      }
      Emit(Entry(f.result));
      parents := [f.body];
      ok := LowerStatement(f.body);
      if ok && f.result.Nothing? {
        Emit(RetVoid);
      }
    }
  }

  /** A function with the names of its arguments. */
  datatype Definition = Definition(args: seq<string>, body: Stmt, result: Result)

  function LowerDefinition(f: Definition, m: Machine): Option<Machine>
  {
    if f.result.NoCode? then None
    else
      var r := Lower(f.body, Spills(f.body), m.Emit(Entry(f.result)));
      if r.Some? && f.result.Nothing? then Some(r.value.Emit(RetVoid)) else r
  }

  function LowerDefinitions(fs: seq<Definition>, m: Machine): Option<Machine>
    decreases |fs|
  {
    if fs == [] then Some(m)
    else
      var r := LowerDefinition(fs[0], m);
      if r.None? then None else LowerDefinitions(fs[1..], r.value)
  }

  /** What a quantified body draws is stored to a slot of its own. */
  lemma DrawIsStored(kind: Kind, w: Width, m: Machine)
    ensures var body := Quantified(kind, [Expression(Uzumaki(Some(w)))]);
            var stored := [Start(kind), Draw(w), Alloca(m.slots), Store(m.slots, Register(|m.trace| + 1)), End(kind)];
            Lower(body, Spills(body), m) == Some(Machine(m.trace + stored, m.variables, m.slots + 1))
  {
    hide Void, NonDet, Lower, LowerAll;
    var body := [Expression(Uzumaki(Some(w)))];
    SpillsFlat(Quantified(kind, body));
    LowerFront(body[0], [], true, m.Emit(Start(kind)));
    LowerSteps(kind, body, true, m, w, true);
    LowerFront(body[0], [], true, m.Emit(Start(kind)).Emit(Draw(w)).Allocate(Register(|m.trace| + 1)));
    assert [body[0]] + [] == body;
    var store := Store(m.slots, Register(|m.trace| + 1));
    assert m.trace + [Start(kind)] + [Draw(w)] + [Alloca(m.slots)] + [store] + [End(kind)]
        == m.trace + [Start(kind), Draw(w), Alloca(m.slots), store, End(kind)];
  }

  /** Unless the body returns. */
  lemma DrawIsNotStored(kind: Kind, w: Width, m: Machine, word: bool)
    ensures var body := Quantified(kind, [Expression(Uzumaki(Some(w))), Return(Boolean(word))]);
            var kept := [Start(kind), Draw(w), Ret(Immediate(if word then 1 else 0)), End(kind)];
            Lower(body, Spills(body), m) == Some(Machine(m.trace + kept, m.variables, m.slots))
  {
    hide Void, NonDet, Lower, LowerAll;
    var body := [Expression(Uzumaki(Some(w))), Return(Boolean(word))];
    var last := Ret(Immediate(if word then 1 else 0));
    assert body[1].Return?;
    SpillsFlat(Quantified(kind, body));
    var m1 := m.Emit(Start(kind));
    LowerFront(body[0], [body[1]], false, m1);
    LowerFront(body[1], [], false, m1.Emit(Draw(w)));
    LowerFront(body[1], [], false, m1.Emit(Draw(w)).Emit(last));
    LowerSteps(kind, body, false, m, w, word);
    assert [body[0]] + [body[1]] == body && [body[1]] + [] == [body[1]];
    assert m.trace + [Start(kind)] + [Draw(w)] + [last] + [End(kind)]
        == m.trace + [Start(kind), Draw(w), last, End(kind)];
  }

  lemma LowerFront(s: Stmt, rest: seq<Stmt>, spills: bool, m: Machine)
    ensures var r := Lower(s, spills, m);
            LowerAll([s] + rest, spills, m) == if r.None? then None else LowerAll(rest, spills, r.value)
    ensures LowerAll([], spills, m) == Some(m)
  {
    hide Lower;
    assert ([s] + rest)[1..] == rest;
  }

  lemma LowerSteps(kind: Kind, body: seq<Stmt>, spills: bool, m: Machine, w: Width, word: bool)
    ensures var inner := LowerAll(body, spills, m.Emit(Start(kind)));
            Lower(Quantified(kind, body), spills, m) == if inner.Some? then Some(inner.value.Emit(End(kind))) else None
    ensures var m1 := m.Emit(Start(kind));
            Lower(Expression(Uzumaki(Some(w))), spills, m1) ==
            Some(if spills then m1.Emit(Draw(w)).Allocate(Register(|m1.trace|)) else m1.Emit(Draw(w)))
    ensures var m2 := m.Emit(Start(kind)).Emit(Draw(w));
            Lower(Return(Boolean(word)), spills, m2) == Some(m2.Emit(Ret(Immediate(if word then 1 else 0))))
  {
    hide LowerAll;
  }

  // ----- where the lowering does not panic -----

  /** Names the constants of a statement leave in the variable table. */
  function Names(s: Stmt): set<string>
    decreases s
  {
    match s
    case Block(_) => NamesAll(s.body)
    case Quantified(_, _) => NamesAll(s.body)
    case Constant(x, _) => {x}
    case _ => {}
  }

  function NamesAll(ss: seq<Stmt>): set<string>
    decreases ss
  {
    if ss == [] then {} else Names(ss[0]) + NamesAll(ss[1..])
  }

  predicate SupportedExpr(e: Expr, names: set<string>)
  {
    e.Number? || e.Boolean? || (e.Identifier? && e.name in names) || (e.Uzumaki? && e.width.Some?)
  }

  predicate Supported(s: Stmt, names: set<string>)
    decreases s
  {
    match s
    case Block(_) => SupportedAll(s.body, names)
    case Quantified(_, _) => SupportedAll(s.body, names)
    case Expression(e) => SupportedExpr(e, names)
    case Return(e) => SupportedExpr(e, names)
    case Variable(_, _) => true
    case Constant(_, literal) => literal.Some?
    case Unsupported(_) => false
  }

  predicate SupportedAll(ss: seq<Stmt>, names: set<string>)
    decreases ss
  {
    ss == [] || (Supported(ss[0], names) && SupportedAll(ss[1..], names + Names(ss[0])))
  }

  lemma {:induction false} LoweredExactly(s: Stmt, spills: bool, m: Machine)
    ensures Lower(s, spills, m).Some? <==> Supported(s, m.variables.Keys)
    ensures Lower(s, spills, m).Some? ==> Lower(s, spills, m).value.variables.Keys == m.variables.Keys + Names(s)
    decreases s
  {
    match s
    case Block(_) => LoweredAllExactly(s.body, spills, m);
    case Quantified(kind, _) => LoweredAllExactly(s.body, spills, m.Emit(Start(kind)));
    case _ =>
  }

  lemma {:induction false} LoweredAllExactly(ss: seq<Stmt>, spills: bool, m: Machine)
    ensures LowerAll(ss, spills, m).Some? <==> SupportedAll(ss, m.variables.Keys)
    ensures LowerAll(ss, spills, m).Some? ==>
              LowerAll(ss, spills, m).value.variables.Keys == m.variables.Keys + NamesAll(ss)
    decreases ss
  {
    if ss != [] {
      LoweredExactly(ss[0], spills, m);
      var r := Lower(ss[0], spills, m);
      if r.Some? {
        LoweredAllExactly(ss[1..], spills, r.value);
      }
    }
  }

  // ----- brackets -----

  /** The quantified blocks of a body, plain blocks dissolved. */
  datatype Nest = Nest(kind: Kind, inside: seq<Nest>)

  function Skeleton(s: Stmt): seq<Nest>
    decreases s
  {
    match s
    case Block(_) => SkeletonAll(s.body)
    case Quantified(kind, _) => [Nest(kind, SkeletonAll(s.body))]
    case _ => []
  }

  function SkeletonAll(ss: seq<Stmt>): seq<Nest>
    decreases ss
  {
    if ss == [] then [] else Skeleton(ss[0]) + SkeletonAll(ss[1..])
  }

  /** A bracket still open, with what was complete before it. */
  datatype Open = Open(kind: Kind, before: seq<Nest>)

  datatype Reading = Reading(stack: seq<Open>, complete: seq<Nest>) | Mismatch

  function Feed(r: Reading, e: Event): Reading
  {
    if r.Mismatch? then r
    else
      match e
      case Start(kind) => Reading(r.stack + [Open(kind, r.complete)], [])
      case End(kind) =>
        if r.stack == [] || r.stack[|r.stack| - 1].kind != kind then Mismatch
        else Reading(r.stack[..|r.stack| - 1], r.stack[|r.stack| - 1].before + [Nest(kind, r.complete)])
      case _ => r
  }

  /** A bracket reader over a whole trace. */
  function Read(t: seq<Event>): Reading
  {
    if t == [] then Reading([], []) else Feed(Read(t[..|t| - 1]), t[|t| - 1])
  }

  lemma ReadNext(t: seq<Event>, e: Event)
    ensures Read(t + [e]) == Feed(Read(t), e)
  {
    assert (t + [e])[..|t|] == t;
  }

  lemma ReadEmit(m: Machine, e: Event)
    ensures Read(m.Emit(e).trace) == Feed(Read(m.trace), e)
  {
    ReadNext(m.trace, e);
  }

  /** A bracket pair around `inside` adds one nest. */
  lemma FeedPair(r: Reading, kind: Kind, inside: seq<Nest>)
    requires r.Reading?
    ensures Feed(r, Start(kind)) == Reading(r.stack + [Open(kind, r.complete)], [])
    ensures Feed(Reading(r.stack + [Open(kind, r.complete)], inside), End(kind))
         == Reading(r.stack, r.complete + [Nest(kind, inside)])
    ensures [] + inside == inside
  {
    assert (r.stack + [Open(kind, r.complete)])[..|r.stack|] == r.stack;
  }

  /**
    Wherever a reader stands, lowering a statement adds exactly the statement's own nesting and leaves nothing open.
   */
  lemma {:induction false} LoweredBrackets(s: Stmt, spills: bool, m: Machine)
    requires Lower(s, spills, m).Some? && Read(m.trace).Reading?
    ensures Read(Lower(s, spills, m).value.trace)
         == Read(m.trace).(complete := Read(m.trace).complete + Skeleton(s))
    decreases s
  {
    hide Read, Feed;
    match s
    case Block(_) => LoweredAllBrackets(s.body, spills, m);
    case Quantified(kind, body) =>
      var r := Read(m.trace);
      var m1 := m.Emit(Start(kind));
      ReadEmit(m, Start(kind));
      FeedPair(r, kind, SkeletonAll(body));
      LoweredAllBrackets(body, spills, m1);
      ReadEmit(LowerAll(body, spills, m1).value, End(kind));
    case Expression(e) =>
      var r1 := LowerExpr(e, m).value;
      ExprSilent(e, m);
      if spills {
        AllocateSilent(r1.0, r1.1);
      }
    case Return(e) =>
      ExprSilent(e, m);
      var r1 := LowerExpr(e, m).value;
      RetSilent(r1.0, Ret(r1.1));
    case Constant(_, v) => AllocateSilent(m, Immediate(Word(v.value)));
    case _ =>
  }

  lemma RetSilent(m: Machine, e: Event)
    requires e.Ret? || e.RetVoid? || e.Entry?
    ensures Read(m.Emit(e).trace) == Read(m.trace)
  {
    ReadEmit(m, e);
  }

  lemma ExprSilent(e: Expr, m: Machine)
    requires LowerExpr(e, m).Some? && Read(m.trace).Reading?
    ensures Read(LowerExpr(e, m).value.0.trace) == Read(m.trace)
  {
    match e
    case Identifier(x) => ReadEmit(m, Load(m.variables[x]));
    case Uzumaki(w) => ReadEmit(m, Draw(w.value));
    case _ =>
  }

  lemma AllocateSilent(m: Machine, w: Operand)
    requires Read(m.trace).Reading?
    ensures Read(m.Allocate(w).trace) == Read(m.trace)
  {
    ReadEmit(m, Alloca(m.slots));
    ReadEmit(m.Emit(Alloca(m.slots)), Store(m.slots, w));
  }

  lemma {:induction false} LoweredAllBrackets(ss: seq<Stmt>, spills: bool, m: Machine)
    requires LowerAll(ss, spills, m).Some? && Read(m.trace).Reading?
    ensures Read(LowerAll(ss, spills, m).value.trace)
         == Read(m.trace).(complete := Read(m.trace).complete + SkeletonAll(ss))
    decreases ss
  {
    hide Read, Feed, Lower, Skeleton;
    if ss != [] {
      var r := Read(m.trace);
      assert r.complete + Skeleton(ss[0]) + SkeletonAll(ss[1..]) == r.complete + SkeletonAll(ss);
      LoweredBrackets(ss[0], spills, m);
      LoweredAllBrackets(ss[1..], spills, Lower(ss[0], spills, m).value);
    }
  }

  /** The bracket calls of a trace, in order. */
  function Brackets(t: seq<Event>): seq<Event>
  {
    if t == [] then []
    else
      var last := t[|t| - 1];
      Brackets(t[..|t| - 1]) + if last.Start? || last.End? then [last] else []
  }

  /** The bracket text of a nesting. */
  function Text(ns: seq<Nest>): seq<Event>
  {
    if ns == [] then []
    else [Start(ns[0].kind)] + Text(ns[0].inside) + [End(ns[0].kind)] + Text(ns[1..])
  }

  /** The text read so far: every open bracket after what came before it. */
  function TextSoFar(stack: seq<Open>, complete: seq<Nest>): seq<Event>
    decreases |stack|
  {
    if stack == [] then Text(complete)
    else
      var o := stack[|stack| - 1];
      TextSoFar(stack[..|stack| - 1], o.before) + [Start(o.kind)] + Text(complete)
  }

  /** The reader accepts a trace as a nesting exactly when its bracket calls are that nesting's text. */
  lemma ReadExactly(t: seq<Event>, ns: seq<Nest>)
    ensures Read(t) == Reading([], ns) <==> Brackets(t) == Text(ns)
  {
    if Read(t) == Reading([], ns) {
      ReadSound(t);
    }
    if Brackets(t) == Text(ns) {
      ReadBrackets(t);
      ReadText([], ns);
      assert [] + Text(ns) == Text(ns);
    }
  }

  lemma {:induction false} ReadBrackets(t: seq<Event>)
    ensures Read(Brackets(t)) == Read(t)
  {
    if t != [] {
      var p := Brackets(t[..|t| - 1]);
      ReadBrackets(t[..|t| - 1]);
      assert (p + [t[|t| - 1]])[..|p|] == p;
      assert p + [] == p;
    }
  }

  lemma {:induction false} ReadText(p: seq<Event>, ns: seq<Nest>)
    requires Read(p).Reading?
    ensures Read(p + Text(ns)) == Read(p).(complete := Read(p).complete + ns)
    decreases ns
  {
    hide Read, Feed;
    if ns == [] {
      assert p + Text(ns) == p;
    } else {
      var r, n := Read(p), ns[0];
      var p1 := p + [Start(n.kind)];
      ReadNext(p, Start(n.kind));
      FeedPair(r, n.kind, n.inside);
      ReadText(p1, n.inside);
      var p2 := p1 + Text(n.inside);
      ReadNext(p2, End(n.kind));
      ReadText(p2 + [End(n.kind)], ns[1..]);
      assert p2 + [End(n.kind)] + Text(ns[1..]) == p + Text(ns);
      assert r.complete + [n] + ns[1..] == r.complete + ns;
    }
  }

  lemma {:induction false} TextAppend(a: seq<Nest>, n: Nest)
    ensures Text(a + [n]) == Text(a) + [Start(n.kind)] + Text(n.inside) + [End(n.kind)]
  {
    if a != [] {
      assert (a + [n])[0] == a[0] && (a + [n])[1..] == a[1..] + [n];
      TextAppend(a[1..], n);
      var first := [Start(a[0].kind)] + Text(a[0].inside) + [End(a[0].kind)];
      assert Text(a) == first + Text(a[1..]) && Text(a + [n]) == first + Text(a[1..] + [n]);
    } else {
      assert a + [n] == [n];
      assert [n][1..] == [];
    }
  }

  lemma {:induction false} ReadSound(t: seq<Event>)
    requires Read(t).Reading?
    ensures Brackets(t) == TextSoFar(Read(t).stack, Read(t).complete)
  {
    if t != [] {
      var p := t[..|t| - 1];
      ReadSound(p);
      var r := Read(p);
      match t[|t| - 1]
      case Start(kind) =>
        assert (r.stack + [Open(kind, r.complete)])[..|r.stack|] == r.stack;
      case End(kind) =>
        var o := r.stack[|r.stack| - 1];
        var rest := r.stack[..|r.stack| - 1];
        TextAppend(o.before, Nest(kind, r.complete));
        TextGrows(rest, o.before, Nest(kind, r.complete));
      case _ =>
    }
  }

  lemma TextGrows(stack: seq<Open>, before: seq<Nest>, n: Nest)
    ensures TextSoFar(stack, before + [n])
            == TextSoFar(stack, before) + [Start(n.kind)] + Text(n.inside) + [End(n.kind)]
  {
    TextAppend(before, n);
  }
}
