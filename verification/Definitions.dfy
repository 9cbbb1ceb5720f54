/** Functions lowered one after the other by one compiler, whose variable table outlives each of them. */
module Definitions {
  import opened Decoded
  import opened Literals
  import opened Codegen
  import opened Behaviour
  import opened Scoping
  import opened Soundness

  // ----- one function, lowered after others -----

  /** The arguments, bound to values of their own. */
  function Locals(args: seq<string>): map<string, Def>
  {
    if args == [] then map[] else Locals(args[1..])[args[0] := Local(Opaque)]
  }

  /** The constants of the file, where no argument hides them. */
  function Hidden(args: seq<string>, globals: Table): Table
  {
    if args == [] then globals else Hidden(args[1..], globals)[args[0] := Opaque]
  }

  lemma {:induction false} ArgumentsTold(args: seq<string>, x: string, globals: Table)
    ensures x in Locals(args) <==> x in args
    ensures x in args ==> Locals(args)[x] == Local(Opaque)
    ensures Held(Hidden(args, globals), x) == if x in args then Opaque else Held(globals, x)
  {
    if args != [] {
      ArgumentsTold(args[1..], x, globals);
      assert args == [args[0]] + args[1..];
    }
  }

  /** Lexically a function sees its arguments, and behind them the constants of the file. */
  function Globals(args: seq<string>, globals: Table, next: nat): Env
  {
    Env(Locals(args), globals, {}, next, true)
  }

  /** In the table it finds what earlier functions left there. */
  function Borrowed(env: Env): Env
  {
    Env(map[], map[], env.earlier + env.names.Keys, env.next, true)
  }

  /** The void return at the end, when it is reached. */
  function Closing(f: Definition, after: Env): seq<Act>
  {
    if f.result.Nothing? then after.Shown([GaveNothing]) else []
  }

  /** What a function does. */
  function Doing(f: Definition, r: Reader, globals: Table, env: Env): (seq<Act>, Env)
  {
    var start := if r.lexical then Globals(f.args, globals, env.next) else Borrowed(env);
    var (acts, after) := Meaning(f.body, r, Spills(f.body), start);
    ([Begin] + acts + Closing(f, after), if f.result.Nothing? then after.(live := false) else after)
  }

  lemma DefinitionLowered(f: Definition, m: Machine)
    ensures LowerDefinition(f, m).Some? <==> !f.result.NoCode? && Supported(f.body, m.variables.Keys)
    ensures LowerDefinition(f, m).Some? ==>
              LowerDefinition(f, m).value.variables.Keys == m.variables.Keys + Names(f.body)
  {
    hide Supported, Lower, Spills, Names;
    LoweredExactly(f.body, Spills(f.body), m.Emit(Entry(f.result)));
  }

  /** The brackets a function adds and what its code does, whatever was lowered before it. */
  lemma DefinitionMeaning(f: Definition, globals: Table, m: Machine, env: Env)
    requires Linked(m, env) && LowerDefinition(f, m).Some? && Read(m.trace).Reading?
    ensures var (acts, after) := Doing(f, LOWERED, globals, env);
            Adds(m, LowerDefinition(f, m).value, acts, after)
    ensures Read(LowerDefinition(f, m).value.trace)
         == Read(m.trace).(complete := Read(m.trace).complete + Skeleton(f.body))
  {
    hide Lower, Spills, Meaning, Execute, Read, Skeleton, Linked;
    var spills, m0 := Spills(f.body), m.Emit(Entry(f.result));
    Started(m, f.result, env);
    LoweredBrackets(f.body, spills, m0);
    LoweredMeaning(f.body, spills, m0, Borrowed(env));
    var m1 := Lower(f.body, spills, m0).value;
    var (acts, after) := Meaning(f.body, LOWERED, spills, Borrowed(env));
    if f.result.Nothing? {
      VoidReturn(m1, after);
    }
    Together(Execute(m.trace).acts, [Begin], acts, Closing(f, after));
  }

  lemma Together<T>(a: seq<T>, b: seq<T>, c: seq<T>, d: seq<T>)
    ensures a + b + c + d == a + (b + c + d)
    ensures d == [] ==> a + b + c == a + (b + c + d)
  {
  }

  lemma Started(m: Machine, result: Result, env: Env)
    requires Linked(m, env)
    ensures Adds(m, m.Emit(Entry(result)), [Begin], Borrowed(env))
    ensures Read(m.Emit(Entry(result)).trace) == Read(m.trace)
  {
    hide Execute;
    ExecuteEmit(m, Entry(result));
    RetSilent(m, Entry(result));
  }

  lemma VoidReturn(m: Machine, env: Env)
    requires Linked(m, env)
    ensures Adds(m, m.Emit(RetVoid), env.Shown([GaveNothing]), env.(live := false))
    ensures Read(m.Emit(RetVoid).trace) == Read(m.trace)
  {
    hide Execute;
    ExecuteEmit(m, RetVoid);
    RetSilent(m, RetVoid);
  }

  /** The names in the table. */
  function Known(env: Env): set<string>
  {
    env.names.Keys + env.earlier
  }

  /**
    It finds the very definitions it means exactly when it uses no name whose latest constant is out of sight: in an
    ended block, hidden by a local variable or an argument, or in an earlier function.
   */
  lemma FunctionResolves(f: Definition, lex: Env, flat: Env)
    requires Defined(f.body) && lex.next == flat.next
    ensures var (a, lex') := Doing(f, SCOPED, map[], lex);
            var (b, flat') := Doing(f, LOWERED, map[], flat);
            && |a| == |b| && (a == b <==> !UsesLeaked(f.body, Known(flat) + Args(f)))
            && lex'.next == flat'.next && Known(flat') == Known(flat) + Names(f.body)
  {
    hide Spills, Meaning, UsesLeaked, Names, Leaked, Defined, Apart, Locals, Args;
    var spills, start, start' := Spills(f.body), Globals(f.args, map[], lex.next), Borrowed(flat);
    StartsApart(f, lex, flat);
    LexicalExactly(f.body, spills, start, start', Known(flat) + Args(f));
    FlatNames(f.body, spills, start');
    var (a, after) := Meaning(f.body, SCOPED, spills, start);
    var (b, after') := Meaning(f.body, LOWERED, spills, start');
    LiveAlike(after, after', Leaked(f.body, Known(flat) + Args(f)));
    Framed([Begin], a, b, Closing(f, after));
  }

  function Args(f: Definition): set<string>
  {
    set x <- f.args
  }

  lemma StartsApart(f: Definition, lex: Env, flat: Env)
    requires lex.next == flat.next
    ensures Apart(Globals(f.args, map[], lex.next), Borrowed(flat), Known(flat) + Args(f))
  {
    var start, start' := Globals(f.args, map[], lex.next), Borrowed(flat);
    forall x
      ensures x in Known(flat) + Args(f) <==> start.Look(x) != start'.Look(x)
      ensures x in start.names ==> start.names[x].Local?
    {
      ArgumentsTold(f.args, x, map[]);
    }
  }

  lemma FlatNames(s: Stmt, spills: bool, env: Env)
    requires Defined(s) && env.globals == map[]
    ensures Known(Meaning(s, LOWERED, spills, env).1) == Known(env) + Names(s)
  {
    hide Defined, Meaning, Names;
    var after := Meaning(s, LOWERED, spills, env).1;
    OutsideStays(s, LOWERED, spills, env);
    forall x
      ensures x in Known(after) <==> x in Known(env) || x in Names(s)
    {
      FlatEffect(s, false, spills, env, x);
      if x in env.names {
        StillNamed(s, false, spills, env, x);
      }
    }
  }

  /** A function sound by itself does what it says exactly when it misreads no value. */
  lemma FunctionEffects(f: Definition, globals: Table, lex: Env, flat: Env)
    requires SoundBody(f)
    ensures var a, b := Effects(Doing(f, SOURCE, globals, lex).0), Effects(Doing(f, LOWERED, globals, flat).0);
            |a| >= |b| && (a == b <==> Faithful(f, globals))
  {
    hide Spills, Meaning, Misreads, Effects, Supported, ReturnsFit, Torn, Ended;
    var spills, start, start' := Spills(f.body), Globals(f.args, globals, lex.next), Borrowed(flat);
    StartsTold(f, globals, lex, flat);
    EffectsExactly(f.body, spills, start, start', Hidden(f.args, globals), map[], {});
    RunsUntilReturn(f.body, SOURCE, spills, start);
    RunsUntilReturn(f.body, LOWERED, spills, start');
    var (a, after) := Meaning(f.body, SOURCE, spills, start);
    var (b, after') := Meaning(f.body, LOWERED, spills, start');
    assert Closing(f, after) == Closing(f, after');
    Wrapped(a, Closing(f, after));
    Wrapped(b, Closing(f, after));
    FramedMore(Effects([Begin]), Effects(a), Effects(b), Effects(Closing(f, after)));
  }

  lemma StartsTold(f: Definition, globals: Table, lex: Env, flat: Env)
    ensures Told(Globals(f.args, globals, lex.next), Borrowed(flat), Hidden(f.args, globals), map[], {})
  {
    forall x
      ensures Globals(f.args, globals, lex.next).Stands(x) == Held(Hidden(f.args, globals), x)
    {
      ArgumentsTold(f.args, x, globals);
    }
  }

  lemma Wrapped(a: seq<Act>, last: seq<Act>)
    ensures Effects([Begin] + a + last) == Effects([Begin]) + Effects(a) + Effects(last)
  {
    EffectsConcat([Begin] + a, last);
    EffectsConcat([Begin], a);
  }

  // ----- a whole program -----

  predicate SupportedDefinitions(fs: seq<Definition>, names: set<string>)
    decreases |fs|
  {
    fs == [] ||
    (&& !fs[0].result.NoCode? && Supported(fs[0].body, names)
     && SupportedDefinitions(fs[1..], names + Names(fs[0].body)))
  }

  function DoingAll(fs: seq<Definition>, r: Reader, globals: Table, env: Env): (seq<Act>, Env)
    decreases |fs|
  {
    if fs == [] then ([], env)
    else
      var (first, env1) := Doing(fs[0], r, globals, env);
      var (rest, env2) := DoingAll(fs[1..], r, globals, env1);
      (first + rest, env2)
  }

  function SkeletonOf(fs: seq<Definition>): seq<Nest>
  {
    if fs == [] then [] else Skeleton(fs[0].body) + SkeletonOf(fs[1..])
  }

  /** Some function uses a name whose latest constant is out of sight. */
  predicate UsesEarlier(fs: seq<Definition>, names: set<string>)
    decreases |fs|
  {
    fs != [] && (UsesLeaked(fs[0].body, names + Args(fs[0])) || UsesEarlier(fs[1..], names + Names(fs[0].body)))
  }

  /** The back end takes the function, and it returns and stores the values its text says. */
  predicate Faithful(f: Definition, globals: Table)
  {
    SoundBody(f) && !Misreads(f.body, Spills(f.body), Hidden(f.args, globals), map[])
  }

  lemma {:induction false} DefinitionsLowered(fs: seq<Definition>, m: Machine)
    ensures LowerDefinitions(fs, m).Some? <==> SupportedDefinitions(fs, m.variables.Keys)
    decreases |fs|
  {
    hide LowerDefinition, Supported, Names;
    if fs != [] {
      DefinitionLowered(fs[0], m);
      var r := LowerDefinition(fs[0], m);
      if r.Some? {
        DefinitionsLowered(fs[1..], r.value);
      }
    }
  }

  lemma {:induction false} DefinitionsMeaning(fs: seq<Definition>, globals: Table, m: Machine, env: Env)
    requires Linked(m, env) && LowerDefinitions(fs, m).Some? && Read(m.trace).Reading?
    ensures var m' := LowerDefinitions(fs, m).value;
            && Execute(m'.trace).acts == Execute(m.trace).acts + DoingAll(fs, LOWERED, globals, env).0
            && Read(m'.trace) == Read(m.trace).(complete := Read(m.trace).complete + SkeletonOf(fs))
    decreases |fs|
  {
    hide LowerDefinition, Doing, Linked, Execute, Read, Skeleton;
    if fs == [] {
      assert Execute(m.trace).acts + [] == Execute(m.trace).acts;
      assert Read(m.trace).complete + [] == Read(m.trace).complete;
    } else {
      DefinitionMeaning(fs[0], globals, m, env);
      DefinitionsMeaning(fs[1..], globals, LowerDefinition(fs[0], m).value, Doing(fs[0], LOWERED, globals, env).1);
    }
  }

  /** Where every function is sound by itself, the program does what it says exactly when none misreads a value. */
  lemma {:induction false} DefinitionsEffects(fs: seq<Definition>, globals: Table, lex: Env, flat: Env)
    requires forall f <- fs :: SoundBody(f)
    ensures var a, b := Effects(DoingAll(fs, SOURCE, globals, lex).0), Effects(DoingAll(fs, LOWERED, globals, flat).0);
            |a| >= |b| && (a == b <==> forall f <- fs :: Faithful(f, globals))
    decreases |fs|
  {
    hide Effects, Doing, SoundBody, Faithful;
    if fs != [] {
      FunctionEffects(fs[0], globals, lex, flat);
      var (a, lex1) := Doing(fs[0], SOURCE, globals, lex);
      var (b, flat1) := Doing(fs[0], LOWERED, globals, flat);
      DefinitionsEffects(fs[1..], globals, lex1, flat1);
      var a', b' := DoingAll(fs[1..], SOURCE, globals, lex1).0, DoingAll(fs[1..], LOWERED, globals, flat1).0;
      EffectsConcat(a, a');
      EffectsConcat(b, b');
      PairedMore(Effects(a), Effects(b), Effects(a'), Effects(b'));
      assert fs == [fs[0]] + fs[1..];
    }
  }

  lemma {:induction false} DefinitionsResolve(fs: seq<Definition>, lex: Env, flat: Env)
    requires SupportedDefinitions(fs, Known(flat)) && lex.next == flat.next
    ensures var a, b := DoingAll(fs, SCOPED, map[], lex).0, DoingAll(fs, LOWERED, map[], flat).0;
            |a| == |b| && (a == b <==> !UsesEarlier(fs, Known(flat)))
    decreases |fs|
  {
    hide Supported, UsesLeaked, Names, Doing, Known;
    if fs != [] {
      SupportedIsDefined(fs[0].body, Known(flat));
      FunctionResolves(fs[0], lex, flat);
      var (a, lex1) := Doing(fs[0], SCOPED, map[], lex);
      var (b, flat1) := Doing(fs[0], LOWERED, map[], flat);
      DefinitionsResolve(fs[1..], lex1, flat1);
      Paired(a, b, DoingAll(fs[1..], SCOPED, map[], lex1).0, DoingAll(fs[1..], LOWERED, map[], flat1).0);
    }
  }

  const FRESH := Machine([], map[], 0)
  const START := Env(map[], map[], {}, 0, true)

  /** Lowered by a fresh compiler, the program is taken by the back end and does what it says. */
  ghost predicate KeepsMeaning(fs: seq<Definition>, globals: Table)
    requires LowerDefinitions(fs, FRESH).Some?
  {
    var t := LowerDefinitions(fs, FRESH).value.trace;
    Sound(t) && Effects(Execute(t).acts) == Effects(DoingAll(fs, SOURCE, globals, START).0)
  }

  /**
    A program is lowered exactly when every function is supported with the constants of the functions before it; its
    brackets are its nesting; it finds the definitions it means exactly when no function uses a name from an ended
    block or an earlier function; and it keeps its meaning exactly when every function, by itself, is faithful.
   */
  lemma ProgramExactly(fs: seq<Definition>, globals: Table)
    ensures LowerDefinitions(fs, FRESH).Some? <==> SupportedDefinitions(fs, {})
    ensures SupportedDefinitions(fs, {}) ==>
              var t := LowerDefinitions(fs, FRESH).value.trace;
              && Read(t) == Reading([], SkeletonOf(fs))
              && (Execute(t).acts == DoingAll(fs, SCOPED, map[], START).0 <==> !UsesEarlier(fs, {}))
              && (KeepsMeaning(fs, globals) <==> forall f <- fs :: Faithful(f, globals))
  {
    hide LowerDefinitions, SupportedDefinitions, DoingAll, UsesEarlier, SkeletonOf, Effects, SoundBody, Misreads,
         Spills;
    var env := START;
    assert FRESH.variables.Keys == {} && Known(env) == {};
    DefinitionsLowered(fs, FRESH);
    if SupportedDefinitions(fs, {}) {
      DefinitionsMeaning(fs, globals, FRESH, env);
      DefinitionsMeaning(fs, map[], FRESH, env);
      DefinitionsResolve(fs, env, env);
      DefinitionsSound(fs, FRESH);
      assert [] + DoingAll(fs, LOWERED, globals, env).0 == DoingAll(fs, LOWERED, globals, env).0;
      assert [] + DoingAll(fs, LOWERED, map[], env).0 == DoingAll(fs, LOWERED, map[], env).0;
      assert [] + SkeletonOf(fs) == SkeletonOf(fs);
      if forall f <- fs :: SoundBody(f) {
        DefinitionsEffects(fs, globals, env, env);
      }
    }
  }

  // ----- where it fails -----

  lemma OneDefinition(f: Definition, globals: Table)
    requires !f.result.NoCode? && Supported(f.body, {})
    ensures LowerDefinitions([f], FRESH).Some? && (KeepsMeaning([f], globals) <==> Faithful(f, globals))
  {
    hide KeepsMeaning, LowerDefinitions, UsesEarlier, SkeletonOf, Faithful, Supported, Names;
    assert [f][1..] == [];
    ProgramExactly([f], globals);
  }

  lemma SupportedOne(f: Definition, names: set<string>)
    ensures SupportedDefinitions([f], names) <==> !f.result.NoCode? && Supported(f.body, names)
  {
    hide Supported, Names;
    assert [f][1..] == [];
  }

  function Function32(body: seq<Stmt>): Definition
  {
    Definition([], Block(body), Bits(32))
  }

  /** One statement in front of others, for everything that is asked of a body. */
  lemma Front(s: Stmt, rest: seq<Stmt>, names: set<string>, spills: bool, ended: bool, t: Table, u: Table)
    ensures var ss := [s] + rest;
            && (SupportedAll(ss, names) <==> Supported(s, names) && SupportedAll(rest, names + Names(s)))
            && NamesAll(ss) == Names(s) + NamesAll(rest)
            && (ReturnsAll(ss) <==> Returns(s) || ReturnsAll(rest))
            && (TornAll(ss) <==> Torn(s) || (!Returns(s) && TornAll(rest)))
            && EndedAll(ss, spills, ended) == EndedAll(rest, spills, Ended(s, spills, ended))
            && AfterAll(ss, LOWERED, u) == AfterAll(rest, LOWERED, After(s, LOWERED, u))
            && (MisreadsAll(ss, spills, t, u) <==>
                  || Misreads(s, spills, t, u)
                  || (!Returns(s) && MisreadsAll(rest, spills, After(s, SOURCE, t), After(s, LOWERED, u))))
  {
    hide Supported, Names, Returns, Torn, Ended, After, Misreads;
    assert ([s] + rest)[1..] == rest;
  }

  lemma FrontFits(s: Stmt, rest: seq<Stmt>, result: Result)
    ensures ReturnsFitAll([s] + rest, result) <==> ReturnsFit(s, result) && ReturnsFitAll(rest, result)
  {
    assert ([s] + rest)[1..] == rest;
  }

  /** A block of one statement. */
  lemma Single(s: Stmt, names: set<string>, spills: bool, ended: bool, t: Table, u: Table, result: Result)
    ensures var b := Block([s]);
            && (Supported(b, names) <==> Supported(s, names)) && Names(b) == Names(s) && Returns(b) == Returns(s)
            && Torn(b) == Torn(s) && Ended(b, spills, ended) == Ended(s, spills, ended)
            && After(b, SOURCE, t) == t && After(b, LOWERED, u) == After(s, LOWERED, u)
            && Misreads(b, spills, t, u) == Misreads(s, spills, t, u)
            && ReturnsFit(b, result) == ReturnsFit(s, result)
  {
    Front(s, [], names, spills, ended, t, u);
    FrontFits(s, [], result);
    assert [s] + [] == [s];
    assert Names(s) + {} == Names(s);
  }

  /** A constant, the same name redefined in an inner block, and what comes after. */
  function Redefining(x: string, v: string, w: string, rest: seq<Stmt>): seq<Stmt>
  {
    [Constant(x, Some(v))] + ([Block([Constant(x, Some(w))])] + rest)
  }

  lemma RedefiningFacts(x: string, v: string, w: string, rest: seq<Stmt>, spills: bool)
    requires !Lost(v) && !Lost(w)
    ensures var body := Redefining(x, v, w, rest);
            var lex, flat := map[x := LiteralOut(v, true)], map[x := LiteralOut(w, false)];
            && (SupportedAll(body, {}) <==> SupportedAll(rest, {x}))
            && (ReturnsFitAll(body, Bits(32)) <==> ReturnsFitAll(rest, Bits(32)))
            && (TornAll(body) <==> TornAll(rest)) && EndedAll(body, spills, false) == EndedAll(rest, spills, false)
            && MisreadsAll(body, spills, map[], map[]) == MisreadsAll(rest, spills, lex, flat)
  {
    hide LiteralOut;
    var a, b := Constant(x, Some(v)), Block([Constant(x, Some(w))]);
    var lex, flat := map[x := LiteralOut(v, true)], map[x := LiteralOut(v, false)];
    Front(a, [b] + rest, {}, spills, false, map[], map[]);
    FrontFits(a, [b] + rest, Bits(32));
    Front(b, rest, {x}, spills, false, lex, flat);
    FrontFits(b, rest, Bits(32));
    Single(Constant(x, Some(w)), {x}, spills, false, lex, flat, Bits(32));
    assert {} + {x} == {x} && {x} + {x} == {x};
    assert map[][x := LiteralOut(v, true)] == lex && map[][x := LiteralOut(v, false)] == flat;
    assert flat[x := LiteralOut(w, false)] == map[x := LiteralOut(w, false)];
  }

  /** The inner value is given back: the wrong one exactly when the two differ. */
  lemma InnerConstantLeaks(x: string, v: string, w: string)
    requires !Lost(v) && !Lost(w)
    ensures var f := Function32(Redefining(x, v, w, [Return(Identifier(x))]));
            LowerDefinitions([f], FRESH).Some? && (KeepsMeaning([f], map[]) <==> Word(v) == Word(w))
  {
    hide KeepsMeaning, LowerDefinitions, Word, Redefining, Lost, Spills;
    var rest := [Return(Identifier(x))];
    var f := Function32(Redefining(x, v, w, rest));
    var lex, flat := map[x := LiteralOut(v, true)], map[x := LiteralOut(w, false)];
    Front(rest[0], [], {x}, Spills(f.body), false, lex, flat);
    FrontFits(rest[0], [], Bits(32));
    assert [rest[0]] + [] == rest;
    RedefiningFacts(x, v, w, rest, Spills(f.body));
    LostExactly(v);
    LostExactly(w);
    OneDefinition(f, map[]);
  }

  lemma LostExactly(text: string)
    ensures Lost(text) <==> LiteralOut(text, true) != Num(Int32(Word(text)))
    ensures 0 <= Word(text) < 0x1_0000_0000
    ensures forall t, u :: Misread(Number(text), t, u) <==> Lost(text)
  {
  }

  /** The same with a return in between: what stands behind it does no harm. */
  lemma DeadUseIsHarmless(x: string, v: string, w: string, u: string)
    requires !Lost(v) && !Lost(w) && !Lost(u)
    ensures var f := Function32(Redefining(x, v, w, [Return(Number(u)), Return(Identifier(x))]));
            LowerDefinitions([f], FRESH).Some? && KeepsMeaning([f], map[])
  {
    hide KeepsMeaning, LowerDefinitions, Word, Redefining, Lost, Spills;
    var rest := [Return(Number(u)), Return(Identifier(x))];
    var f := Function32(Redefining(x, v, w, rest));
    var lex, flat := map[x := LiteralOut(v, true)], map[x := LiteralOut(w, false)];
    Front(rest[0], [rest[1]], {x}, Spills(f.body), false, lex, flat);
    Front(rest[1], [], {x}, Spills(f.body), true, lex, flat);
    FrontFits(rest[0], [rest[1]], Bits(32));
    FrontFits(rest[1], [], Bits(32));
    assert [rest[0]] + [rest[1]] == rest && [rest[1]] + [] == [rest[1]] && {x} + {} == {x};
    LostExactly(u);
    RedefiningFacts(x, v, w, rest, Spills(f.body));
    OneDefinition(f, map[]);
  }

  /** A function of one statement. */
  lemma Alone(s: Stmt, result: Result, globals: Table)
    requires Supported(s, {}) && !result.NoCode?
    ensures var f := Definition([], Block([s]), result);
            && LowerDefinitions([f], FRESH).Some?
            && (KeepsMeaning([f], globals) ==>
                  && ReturnsFit(s, result) && !Torn(s) && !Misreads(s, Spills(f.body), globals, map[]))
  {
    hide KeepsMeaning, LowerDefinitions, Spills;
    var f := Definition([], Block([s]), result);
    Single(s, {}, Spills(f.body), false, globals, map[], result);
    OneDefinition(f, globals);
  }

  /**
    A local variable that hides a constant: the constant is given back, the wrong value exactly when the two differ.
   */
  lemma VariableIsOverlooked(x: string, v: string, w: string)
    requires !Lost(v) && !Lost(w)
    ensures var inner := Block([Variable(x, Some(Number(w))), Return(Identifier(x))]);
            var f := Function32([Constant(x, Some(v)), inner]);
            LowerDefinitions([f], FRESH).Some? && (KeepsMeaning([f], map[]) <==> Word(v) == Word(w))
  {
    hide KeepsMeaning, LowerDefinitions, Word, Lost, Spills;
    var a, b, c := Constant(x, Some(v)), Variable(x, Some(Number(w))), Return(Identifier(x));
    var inner := Block([b, c]);
    var f := Function32([a, inner]);
    var spills := Spills(f.body);
    var t, u, t' := map[x := LiteralOut(v, true)], map[x := LiteralOut(v, false)], map[x := LiteralOut(w, true)];
    Front(a, [inner], {}, spills, false, map[], map[]);
    Front(inner, [], {x}, spills, false, t, u);
    Front(b, [c], {x}, spills, false, t, u);
    Front(c, [], {x}, spills, false, t', u);
    FrontFits(a, [inner], Bits(32));
    FrontFits(inner, [], Bits(32));
    FrontFits(b, [c], Bits(32));
    FrontFits(c, [], Bits(32));
    assert [a] + [inner] == [a, inner] && [inner] + [] == [inner] && [b] + [c] == [b, c] && [c] + [] == [c];
    assert {} + {x} == {x} && {x} + {} == {x};
    assert map[][x := LiteralOut(v, true)] == t && map[][x := LiteralOut(v, false)] == u;
    assert t[x := LiteralOut(w, true)] == t';
    LostExactly(v);
    LostExactly(w);
    OneDefinition(f, map[]);
  }

  /** A local variable that starts with a non-deterministic value: nothing is drawn. */
  lemma DrawIsDropped(kind: Kind, y: string, width: Option<Width>, globals: Table)
    ensures var f := Definition([], Block([Quantified(kind, [Variable(y, Some(Uzumaki(width)))])]), Nothing);
            LowerDefinitions([f], FRESH).Some? && !KeepsMeaning([f], globals)
  {
    hide KeepsMeaning, LowerDefinitions, Spills;
    var s := Variable(y, Some(Uzumaki(width)));
    var q := Quantified(kind, [s]);
    Front(s, [], {}, Spills(Block([q])), false, globals, map[]);
    assert [s] + [] == [s];
    Alone(q, Nothing, globals);
  }

  /** An argument and a constant of the same name in a block that has ended: the constant is given back. */
  lemma ArgumentIsOverlooked(x: string, v: string, globals: Table)
    ensures var f := Definition([x], Block([Block([Constant(x, Some(v))]), Return(Identifier(x))]), Bits(32));
            LowerDefinitions([f], FRESH).Some? && !KeepsMeaning([f], globals)
  {
    hide KeepsMeaning, LowerDefinitions, Spills, Lost, Word;
    var a, c := Block([Constant(x, Some(v))]), Return(Identifier(x));
    var f := Definition([x], Block([a, c]), Bits(32));
    var spills, t, u := Spills(f.body), Hidden([x], globals), map[x := LiteralOut(v, false)];
    Single(Constant(x, Some(v)), {}, spills, false, t, map[], Bits(32));
    Front(a, [c], {}, spills, false, t, map[]);
    Front(c, [], {x}, spills, false, t, u);
    assert [a] + [c] == [a, c] && [c] + [] == [c] && {} + {x} == {x};
    ArgumentsTold([x], x, globals);
    assert Held(t, x) == Opaque && Held(u, x) != Opaque;
    OneDefinition(f, globals);
  }

  /** A return inside a quantified block leaves the bracket open. */
  lemma ReturnTearsBracket(kind: Kind, text: string, globals: Table)
    ensures var f := Function32([Quantified(kind, [Return(Number(text))])]);
            LowerDefinitions([f], FRESH).Some? && !KeepsMeaning([f], globals)
  {
    hide KeepsMeaning, LowerDefinitions, Spills;
    var inner := [Return(Number(text))];
    assert inner[1..] == [] && SupportedAll(inner, {}) && ReturnsAll(inner);
    Alone(Quantified(kind, inner), Bits(32), globals);
  }

  /** A boolean is returned as 32 bits by a function of one bit. */
  lemma BooleanIsRefused(b: bool, globals: Table)
    ensures var f := Definition([], Block([Return(Boolean(b))]), Bits(1));
            LowerDefinitions([f], FRESH).Some? && !KeepsMeaning([f], globals)
  {
    hide KeepsMeaning, LowerDefinitions, Spills;
    Alone(Return(Boolean(b)), Bits(1), globals);
  }

  /** A negative literal is returned as zero. */
  lemma NegativeIsLost(globals: Table)
    ensures var f := Function32([Return(Number("-42"))]);
            LowerDefinitions([f], FRESH).Some? && !KeepsMeaning([f], globals)
  {
    hide KeepsMeaning, LowerDefinitions, Spills, Word, Written;
    WordsLost();
    Alone(Return(Number("-42")), Bits(32), globals);
  }

  /** A function that defines a constant, and one after it that uses the name without defining it. */
  function Borrowing(x: string, v: string): seq<Definition>
  {
    [Definition([], Block([Constant(x, Some(v))]), Nothing), Function32([Return(Identifier(x))])]
  }

  /** The second function is lowered only because of the first, and loads from the first one's slot. */
  lemma EarlierConstantLeaks(x: string, v: string, globals: Table)
    ensures LowerDefinitions(Borrowing(x, v), FRESH).Some? && LowerDefinitions(Borrowing(x, v)[1..], FRESH).None?
    ensures !KeepsMeaning(Borrowing(x, v), globals)
  {
    hide KeepsMeaning, LowerDefinitions, UsesEarlier, SkeletonOf, Misreads, Spills;
    var fs := Borrowing(x, v);
    var f, g := fs[0], fs[1];
    Single(Constant(x, Some(v)), {}, Spills(f.body), false, map[], map[], Nothing);
    Single(Return(Identifier(x)), {}, Spills(g.body), false, map[], map[], Bits(32));
    Single(Return(Identifier(x)), {x}, Spills(g.body), false, map[], map[], Bits(32));
    assert fs[1..] == [g] && [g][1..] == [] && {} + {x} == {x};
    assert g.body == Block([Return(Identifier(x))]) && !Supported(Return(Identifier(x)), {});
    assert !Supported(g.body, {});
    SupportedOne(g, {x});
    SupportedOne(g, {});
    ProgramExactly(fs, globals);
    ProgramExactly([g], globals);
    assert g in fs && !Faithful(g, globals);
  }
}
