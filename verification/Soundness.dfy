/**
  Whether the back end takes the emitted functions as they are meant: loads from own slots, returns of the declared
  width, a return at the very end, and no bracket left open by the first return.
 */
module Soundness {
  import opened Decoded
  import opened Literals
  import opened Codegen
  import opened Scoping

  // ----- inspecting a trace -----

  /** What a pass over the trace knows of the function it is in. */
  datatype Standing = Standing(
    ok: bool,
    result: Result,
    own: set<nat>,
    bits: map<nat, nat>,
    live: bool,
    depth: nat,
    ended: bool)
  {
    function BitsOf(w: Operand): nat {
      match w
      case Immediate(_) => 32
      case Register(at) => if at in bits then bits[at] else 0
    }

    /** A return: of the right width, and the first one outside all brackets. */
    function Leave(fits: bool): Standing {
      this.(ok := ok && fits && (live ==> depth == 0), live := false, ended := true)
    }
  }

  function Look(c: Standing, at: nat, e: Event): Standing
  {
    match e
    case Entry(result) => Standing(c.ok && c.ended, result, {}, map[], true, 0, false)
    case Start(_) => c.(depth := if c.live then c.depth + 1 else c.depth, ended := false)
    case End(_) => c.(depth := if c.live && c.depth > 0 then c.depth - 1 else c.depth, ended := false)
    case Draw(w) => c.(bits := c.bits[at := if w.I32? then 32 else 64], ended := false)
    case Alloca(slot) => c.(own := c.own + {slot}, ended := false)
    case Load(slot) => c.(ok := c.ok && slot in c.own, bits := c.bits[at := 32], ended := false)
    case Store(_, _) => c.(ended := false)
    case Ret(w) => c.Leave(c.result == Bits(c.BitsOf(w)))
    case RetVoid => c.Leave(c.result.Nothing?)
  }

  function Inspect(t: seq<Event>): Standing
  {
    if t == [] then Standing(true, NoCode, {}, map[], true, 0, true)
    else Look(Inspect(t[..|t| - 1]), |t| - 1, t[|t| - 1])
  }

  predicate Sound(t: seq<Event>)
  {
    Inspect(t).ok && Inspect(t).ended
  }

  // ----- the same, told from the source -----

  function ExprBits(e: Expr): nat
  {
    if e.Uzumaki? && e.width.Some? && e.width.value.I64? then 64 else 32
  }

  /** Every return, reachable or not, has the declared width. */
  predicate ReturnsFit(s: Stmt, result: Result)
    decreases s
  {
    match s
    case Block(body) => ReturnsFitAll(body, result)
    case Quantified(_, body) => ReturnsFitAll(body, result)
    case Return(e) => result == Bits(ExprBits(e))
    case _ => true
  }

  predicate ReturnsFitAll(ss: seq<Stmt>, result: Result)
    decreases ss
  {
    ss == [] || (ReturnsFit(ss[0], result) && ReturnsFitAll(ss[1..], result))
  }

  /** The first return stands inside a quantified block. */
  predicate Torn(s: Stmt)
    decreases s
  {
    match s
    case Block(body) => TornAll(body)
    case Quantified(_, body) => ReturnsAll(body)
    case _ => false
  }

  predicate TornAll(ss: seq<Stmt>)
    decreases ss
  {
    ss != [] && (Torn(ss[0]) || (!Returns(ss[0]) && TornAll(ss[1..])))
  }

  /** Whether the code ends in a return after `s`, when it did so before or not. */
  predicate Ended(s: Stmt, spills: bool, before: bool)
    decreases s
  {
    match s
    case Block(body) => EndedAll(body, spills, before)
    case Quantified(_, _) => false
    case Expression(e) => before && !spills && !e.Identifier? && !e.Uzumaki?
    case Return(_) => true
    case Constant(_, _) => false
    case _ => before
  }

  predicate EndedAll(ss: seq<Stmt>, spills: bool, before: bool)
    decreases ss
  {
    if ss == [] then before else EndedAll(ss[1..], spills, Ended(ss[0], spills, before))
  }

  lemma {:induction false} TornReturns(s: Stmt)
    ensures Torn(s) ==> Returns(s)
    decreases s
  {
    match s
    case Block(body) => TornAllReturns(body);
    case _ =>
  }

  lemma {:induction false} TornAllReturns(ss: seq<Stmt>)
    ensures TornAll(ss) ==> ReturnsAll(ss)
    decreases ss
  {
    if ss != [] {
      TornReturns(ss[0]);
      TornAllReturns(ss[1..]);
    }
  }

  /** `names` are the ones whose latest definition lies in the current function. */
  ghost predicate Owned(m: Machine, names: set<string>)
  {
    && names <= m.variables.Keys && (forall slot <- Inspect(m.trace).own :: slot < m.slots)
    && (forall x <- m.variables :: m.variables[x] < m.slots && (m.variables[x] in Inspect(m.trace).own <==> x in names))
  }

  /** What lowering `s` does to the standing. */
  ghost predicate Moves(c: Standing, c': Standing, fine: bool, gone: bool, ended: bool)
  {
    && (c'.ok <==> c.ok && fine) && c'.result == c.result && (c'.live <==> c.live && !gone)
    && (c'.live ==> c'.depth == c.depth) && (c'.ended <==> ended)
  }

  predicate Fine(s: Stmt, names: set<string>, c: Standing)
  {
    && Supported(s, names) && ReturnsFit(s, c.result)
    && (c.live ==> !Torn(s) && (Returns(s) ==> c.depth == 0))
  }

  predicate FineAll(ss: seq<Stmt>, names: set<string>, c: Standing)
  {
    && SupportedAll(ss, names) && ReturnsFitAll(ss, c.result)
    && (c.live ==> !TornAll(ss) && (ReturnsAll(ss) ==> c.depth == 0))
  }

  lemma InspectEmit(m: Machine, e: Event)
    ensures Inspect(m.Emit(e).trace) == Look(Inspect(m.trace), |m.trace|, e)
  {
    assert (m.trace + [e])[..|m.trace|] == m.trace;
  }

  lemma ExprStanding(e: Expr, m: Machine, names: set<string>)
    requires Owned(m, names) && LowerExpr(e, m).Some?
    ensures var (m', w) := LowerExpr(e, m).value;
            var c, c' := Inspect(m.trace), Inspect(m'.trace);
            && Owned(m', names) && c'.BitsOf(w) == ExprBits(e) && c'.depth == c.depth
            && Moves(c, c', SupportedExpr(e, names), false, c.ended && !e.Identifier? && !e.Uzumaki?)
  {
    hide Inspect;
    match e
    case Identifier(x) => InspectEmit(m, Load(m.variables[x]));
    case Uzumaki(w) => InspectEmit(m, Draw(w.value));
    case _ =>
  }

  lemma AllocateStanding(m: Machine, w: Operand, names: set<string>)
    requires Owned(m, names)
    ensures var c, c' := Inspect(m.trace), Inspect(m.Allocate(w).trace);
            && Owned(m.Allocate(w), names) && m.slots in c'.own && Moves(c, c', true, false, false)
  {
    hide Inspect;
    InspectEmit(m, Alloca(m.slots));
    InspectEmit(m.Emit(Alloca(m.slots)), Store(m.slots, w));
  }

  lemma {:induction false} LoweredStanding(s: Stmt, spills: bool, m: Machine, names: set<string>)
    requires Owned(m, names) && Lower(s, spills, m).Some?
    ensures var c, c' := Inspect(m.trace), Inspect(Lower(s, spills, m).value.trace);
            && Owned(Lower(s, spills, m).value, names + Names(s))
            && Moves(c, c', Fine(s, names, c), Returns(s), Ended(s, spills, c.ended))
    decreases s
  {
    hide Inspect, Owned;
    match s
    case Block(body) => LoweredAllStanding(body, spills, m, names);
    case Quantified(kind, body) => QuantifiedStanding(kind, body, spills, m, names);
    case Expression(e) =>
      ExprStanding(e, m, names);
      var r := LowerExpr(e, m).value;
      if spills {
        AllocateStanding(r.0, r.1, names);
      }
      assert names + {} == names;
    case Return(e) =>
      ExprStanding(e, m, names);
      var r := LowerExpr(e, m).value;
      RetStanding(r.0, r.1, names);
      assert names + {} == names;
    case Constant(x, v) => ConstantStanding(x, v.value, m, names);
    case _ => assert names + {} == names;
  }

  lemma RetStanding(m: Machine, w: Operand, names: set<string>)
    requires Owned(m, names)
    ensures var c, c' := Inspect(m.trace), Inspect(m.Emit(Ret(w)).trace);
            Owned(m.Emit(Ret(w)), names) && c' == c.Leave(c.result == Bits(c.BitsOf(w)))
  {
    hide Inspect;
    InspectEmit(m, Ret(w));
  }

  lemma ConstantStanding(x: string, literal: string, m: Machine, names: set<string>)
    requires Owned(m, names)
    ensures var m' := m.Allocate(Immediate(Word(literal))).(variables := m.variables[x := m.slots]);
            && Owned(m', names + {x}) && Moves(Inspect(m.trace), Inspect(m'.trace), true, false, false)
  {
    hide Inspect;
    AllocateStanding(m, Immediate(Word(literal)), names);
  }

  lemma {:induction false} QuantifiedStanding(kind: Kind, body: seq<Stmt>, spills: bool, m: Machine, names: set<string>)
    requires Owned(m, names) && Lower(Quantified(kind, body), spills, m).Some?
    ensures var s := Quantified(kind, body);
            var c, c' := Inspect(m.trace), Inspect(Lower(s, spills, m).value.trace);
            && Owned(Lower(s, spills, m).value, names + Names(s))
            && Moves(c, c', Fine(s, names, c), Returns(s), false)
    decreases body, 1
  {
    hide Inspect;
    InspectEmit(m, Start(kind));
    LoweredAllStanding(body, spills, m.Emit(Start(kind)), names);
    InspectEmit(LowerAll(body, spills, m.Emit(Start(kind))).value, End(kind));
    TornAllReturns(body);
  }

  lemma {:induction false} LoweredAllStanding(ss: seq<Stmt>, spills: bool, m: Machine, names: set<string>)
    requires Owned(m, names) && LowerAll(ss, spills, m).Some?
    ensures var c, c' := Inspect(m.trace), Inspect(LowerAll(ss, spills, m).value.trace);
            && Owned(LowerAll(ss, spills, m).value, names + NamesAll(ss))
            && Moves(c, c', FineAll(ss, names, c), ReturnsAll(ss), EndedAll(ss, spills, c.ended))
    decreases ss, 0
  {
    hide Inspect, Owned, Lower, Supported, ReturnsFit, Torn, Returns, Ended, Names;
    if ss == [] {
      assert names + {} == names;
    } else {
      var m1 := Lower(ss[0], spills, m).value;
      LoweredStanding(ss[0], spills, m, names);
      LoweredAllStanding(ss[1..], spills, m1, names + Names(ss[0]));
      assert names + Names(ss[0]) + NamesAll(ss[1..]) == names + NamesAll(ss);
      TornReturns(ss[0]);
    }
  }

  // ----- functions -----

  predicate SoundBody(f: Definition)
  {
    && Supported(f.body, {}) && ReturnsFit(f.body, f.result) && !Torn(f.body)
    && (f.result.Nothing? || Ended(f.body, Spills(f.body), false))
  }

  /** The slots of the variable table have all been handed out. */
  ghost predicate Slotted(m: Machine)
  {
    && (forall slot <- Inspect(m.trace).own :: slot < m.slots)
    && (forall x <- m.variables :: m.variables[x] < m.slots)
  }

  /** A function keeps a sound trace sound exactly when it is sound by itself. */
  lemma DefinitionSound(f: Definition, m: Machine)
    requires LowerDefinition(f, m).Some? && Slotted(m)
    ensures Slotted(LowerDefinition(f, m).value)
    ensures Sound(LowerDefinition(f, m).value.trace) <==> Sound(m.trace) && SoundBody(f)
  {
    hide Inspect, Supported, ReturnsFit, Torn, Returns, Ended, Lower, Spills, Names;
    var spills, m0 := Spills(f.body), m.Emit(Entry(f.result));
    InspectEmit(m, Entry(f.result));
    assert Owned(m0, {});
    LoweredStanding(f.body, spills, m0, {});
    var m1 := Lower(f.body, spills, m0).value;
    InspectEmit(m1, RetVoid);
  }

  lemma {:induction false} DefinitionsSound(fs: seq<Definition>, m: Machine)
    requires LowerDefinitions(fs, m).Some? && Slotted(m)
    ensures Sound(LowerDefinitions(fs, m).value.trace) <==> Sound(m.trace) && forall f <- fs :: SoundBody(f)
    decreases |fs|
  {
    hide LowerDefinition, Slotted, Sound, SoundBody;
    if fs != [] {
      DefinitionSound(fs[0], m);
      DefinitionsSound(fs[1..], LowerDefinition(fs[0], m).value);
      assert fs == [fs[0]] + fs[1..];
    }
  }
}
