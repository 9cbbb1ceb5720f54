/** Checking functions and whole programs. */
module Programs {
  import opened Types
  import opened ScopeTrees
  import opened SymbolTables
  import opened Typing
  import opened Complaints
  import opened TypeChecker

  /** `Ignored` stands for the two forms that declare no name. */
  datatype Argument = Argument(name: string, ty: TypeInfo) | SelfReference | Ignored(ty: TypeInfo)

  datatype Function = Function(arguments: seq<Argument>, result: TypeInfo, body: seq<Stmt>)

  function ArgumentEffect(env: Env, a: Argument): Env
  {
    if a.Argument? then Declared(env, a.name, a.ty) else env
  }

  predicate ArgumentAllowed(env: Env, a: Argument)
  {
    match a
    case Argument(name, _) => CanDeclare(env, name)
    case SelfReference => false
    case Ignored(_) => true
  }

  /** The arguments, declared one after the other, none twice and none of them `self`. */
  predicate ArgumentsAllowed(env: Env, args: seq<Argument>)
    decreases |args|
  {
    args == [] || (ArgumentAllowed(env, args[0]) && ArgumentsAllowed(ArgumentEffect(env, args[0]), args[1..]))
  }

  function ArgumentsEffect(env: Env, args: seq<Argument>): Env
    decreases |args|
  {
    if args == [] then env else ArgumentsEffect(ArgumentEffect(env, args[0]), args[1..])
  }

  predicate ArgumentKnown(env: Env, a: Argument)
  {
    !a.SelfReference? && KnownType(env, a.ty)
  }

  /** Argument and result types are known outside the function. */
  predicate SignatureKnown(env: Env, f: Function)
  {
    (forall a <- f.arguments :: ArgumentKnown(env, a)) && KnownType(env, f.result)
  }

  predicate AcceptBody(env: Env, f: Function)
  {
    && ArgumentsAllowed(Inner(env), f.arguments)
    && AcceptAll(ArgumentsEffect(Inner(env), f.arguments), f.body, f.result)
  }

  predicate AcceptFunction(env: Env, f: Function)
  {
    SignatureKnown(env, f) && AcceptBody(env, f)
  }

  ghost predicate WellTypedFunction(env: Env, f: Function)
  {
    && SignatureKnown(env, f)
    && ArgumentsAllowed(Inner(env), f.arguments)
    && AllWellTyped(ArgumentsEffect(Inner(env), f.arguments), f.body, f.result)
  }

  /** Nothing in the body is silent, and its declarations deserve trust. */
  predicate Judgeable(env: Env, f: Function)
  {
    NoSilentBody(f.body) && TrustworthyBody(ArgumentsEffect(Inner(env), f.arguments), f.body)
  }

  // ----- complaints -----

  function ArgumentComplaints(env: Env, a: Argument): seq<Error>
  {
    match a
    case Argument(name, _) => DeclarationComplaints(env, name)
    case SelfReference => [SelfReferenceOutsideMethod]
    case Ignored(_) => []
  }

  function ArgumentsComplaints(env: Env, args: seq<Argument>): seq<Error>
    decreases |args|
  {
    if args == [] then []
    else ArgumentComplaints(env, args[0]) + ArgumentsComplaints(ArgumentEffect(env, args[0]), args[1..])
  }

  /** An argument as a part of the signature, where only its type matters. */
  function ParameterComplaints(env: Env, a: Argument): seq<Error>
  {
    if a.SelfReference? then [SelfReferenceInFunction] else TypeComplaints(env, a.ty)
  }

  function ParametersComplaints(env: Env, args: seq<Argument>): seq<Error>
  {
    if args == [] then [] else ParameterComplaints(env, args[0]) + ParametersComplaints(env, args[1..])
  }

  function SignatureComplaints(env: Env, f: Function): seq<Error>
  {
    ParametersComplaints(env, f.arguments) + TypeComplaints(env, f.result)
  }

  function SignaturesComplaints(env: Env, fs: seq<Function>): seq<Error>
  {
    if fs == [] then [] else SignatureComplaints(env, fs[0]) + SignaturesComplaints(env, fs[1..])
  }

  function FunctionComplaints(env: Env, f: Function): seq<Error>
  {
    ArgumentsComplaints(Inner(env), f.arguments) +
    BodyComplaints(ArgumentsEffect(Inner(env), f.arguments), f.body, f.result)
  }

  function FunctionsComplaints(env: Env, fs: seq<Function>): seq<Error>
  {
    if fs == [] then [] else FunctionComplaints(env, fs[0]) + FunctionsComplaints(env, fs[1..])
  }

  /** All signatures have their say before any function has. */
  function ProgramComplaints(env: Env, fs: seq<Function>): seq<Error>
  {
    SignaturesComplaints(env, fs) + FunctionsComplaints(env, fs)
  }

  lemma {:induction false} ArgumentsSayExactly(env: Env, args: seq<Argument>)
    ensures ArgumentsComplaints(env, args) == [] <==> ArgumentsAllowed(env, args)
    decreases |args|
  {
    if args != [] {
      ArgumentsSayExactly(ArgumentEffect(env, args[0]), args[1..]);
    }
  }

  lemma {:induction false} ParametersExactly(env: Env, args: seq<Argument>)
    ensures ParametersComplaints(env, args) == [] <==> forall a <- args :: ArgumentKnown(env, a)
    decreases |args|
  {
    hide TypeComplaints, KnownType;
    if args != [] {
      assert ArgumentKnown(env, args[0]) <==> !args[0].SelfReference? && KnownType(env, args[0].ty);
      if !args[0].SelfReference? {
        TypeComplaintsExactly(env, args[0].ty);
      }
      ParametersExactly(env, args[1..]);
      assert args == [args[0]] + args[1..];
    }
  }

  lemma SignatureExactly(env: Env, f: Function)
    ensures SignatureComplaints(env, f) == [] <==> SignatureKnown(env, f)
  {
    hide TypeComplaints, KnownType, ParametersComplaints, ArgumentKnown;
    ParametersExactly(env, f.arguments);
    TypeComplaintsExactly(env, f.result);
  }

  lemma FunctionSaysExactly(env: Env, f: Function)
    ensures FunctionComplaints(env, f) == [] <==> AcceptBody(env, f)
  {
    hide ArgumentsComplaints, BodyComplaints, ArgumentsAllowed, AcceptAll;
    ArgumentsSayExactly(Inner(env), f.arguments);
    BodySaysExactly(ArgumentsEffect(Inner(env), f.arguments), f.body, f.result);
  }

  /** Nothing is said about a program exactly when all its functions are accepted. */
  lemma {:induction false} ProgramSaysExactly(env: Env, fs: seq<Function>)
    ensures SignaturesComplaints(env, fs) == [] <==> forall f <- fs :: SignatureKnown(env, f)
    ensures FunctionsComplaints(env, fs) == [] <==> forall f <- fs :: AcceptBody(env, f)
    ensures ProgramComplaints(env, fs) == [] <==> forall f <- fs :: AcceptFunction(env, f)
    decreases |fs|
  {
    hide SignatureComplaints, FunctionComplaints, SignatureKnown, AcceptBody;
    if fs != [] {
      SignatureExactly(env, fs[0]);
      FunctionSaysExactly(env, fs[0]);
      ProgramSaysExactly(env, fs[1..]);
      assert fs == [fs[0]] + fs[1..];
    }
  }

  /** Whatever is wrong elsewhere in the program, a complaint about one of its functions is in the final list. */
  lemma FunctionShows(errors: seq<Error>, env: Env, fs: seq<Function>, f: Function, e: Error)
    requires f in fs && (e in SignatureComplaints(env, f) || e in FunctionComplaints(env, f))
    ensures e in Told(errors, ProgramComplaints(env, fs))
  {
    hide Told, SignatureComplaints, FunctionComplaints;
    Contained(env, fs, f, e);
    ToldHolds(errors, ProgramComplaints(env, fs), e);
  }

  lemma {:induction false} Contained(env: Env, fs: seq<Function>, f: Function, e: Error)
    requires f in fs
    ensures e in SignatureComplaints(env, f) ==> e in SignaturesComplaints(env, fs)
    ensures e in FunctionComplaints(env, f) ==> e in FunctionsComplaints(env, fs)
    decreases |fs|
  {
    hide SignatureComplaints, FunctionComplaints;
    if f != fs[0] {
      Contained(env, fs[1..], f, e);
    }
  }

  lemma ArgumentFacts(env: Env, args: seq<Argument>, i: nat)
    requires i <= |args|
    ensures i == |args| ==> ArgumentsComplaints(env, args[i..]) == [] && ArgumentsAllowed(env, args[i..])
    ensures i < |args| ==>
              && ArgumentsComplaints(env, args[i..])
              == ArgumentComplaints(env, args[i]) + ArgumentsComplaints(ArgumentEffect(env, args[i]), args[i + 1..])
              && ArgumentsEffect(env, args[i..]) == ArgumentsEffect(ArgumentEffect(env, args[i]), args[i + 1..])
    ensures i == |args| ==> ArgumentsEffect(env, args[i..]) == env && ParametersComplaints(env, args[i..]) == []
    ensures i < |args| ==>
              ParametersComplaints(env, args[i..]) ==
              ParameterComplaints(env, args[i]) + ParametersComplaints(env, args[i + 1..])
  {
    if i < |args| {
      assert args[i..][0] == args[i] && args[i..][1..] == args[i + 1..];
    }
  }

  lemma FunctionFacts(env: Env, fs: seq<Function>, i: nat)
    requires i <= |fs|
    ensures i == |fs| ==> SignaturesComplaints(env, fs[i..]) == [] && FunctionsComplaints(env, fs[i..]) == []
    ensures i < |fs| ==>
              && SignaturesComplaints(env, fs[i..])
              == SignatureComplaints(env, fs[i]) + SignaturesComplaints(env, fs[i + 1..])
              && FunctionsComplaints(env, fs[i..])
              == FunctionComplaints(env, fs[i]) + FunctionsComplaints(env, fs[i + 1..])
              && (DistinctFunctions(fs[i..]) ==>
                    && DistinctBody(fs[i].body) && BodyIds(fs[i].body) !! FunctionIds(fs[i + 1..])
                    && DistinctFunctions(fs[i + 1..]))
              && FunctionIds(fs[i..]) == BodyIds(fs[i].body) + FunctionIds(fs[i + 1..])
  {
    hide SignatureComplaints, FunctionComplaints;
    if i < |fs| {
      assert fs[i..][0] == fs[i] && fs[i..][1..] == fs[i + 1..];
    }
  }

  // ----- the runs -----

  ghost function FunctionIds(fs: seq<Function>): set<nat>
  {
    if fs == [] then {} else BodyIds(fs[0].body) + FunctionIds(fs[1..])
  }

  ghost predicate DistinctFunctions(fs: seq<Function>)
  {
    fs == [] || (DistinctBody(fs[0].body) && BodyIds(fs[0].body) !! FunctionIds(fs[1..]) && DistinctFunctions(fs[1..]))
  }

  method InferArguments(checker: Checker, args: seq<Argument>)
    requires checker.Valid() && checker.table.Visible() != []
    modifies checker`errors, checker.table
    ensures checker.Valid() && Grows(old(checker.errors), checker.errors)
    ensures checker.table.Chain() == old(checker.table.Chain())
    ensures checker.table.Visible() == ArgumentsEffect(old(checker.table.Visible()), args)
    ensures checker.table.Visible() != [] && checker.table.Visible()[1..] == old(checker.table.Visible())[1..]
    ensures checker.errors == Told(old(checker.errors), ArgumentsComplaints(old(checker.table.Visible()), args))
    ensures checker.errors == [] <==> old(checker.errors) == [] && ArgumentsAllowed(old(checker.table.Visible()), args)
  {
    hide Keys, Told, SymbolTable.Valid, SymbolTable.Visible, SymbolTable.Chain, ArgumentsComplaints, ArgumentsEffect,
         ParametersComplaints;
    var table := checker.table;
    ghost var env0, before := table.Visible(), checker.errors;
    ArgumentsSayExactly(env0, args);
    ToldNothing(before, ArgumentsComplaints(env0, args));
    assert args[0..] == args;
    for i := 0 to |args|
      invariant checker.Valid() && Grows(before, checker.errors)
      invariant table.Chain() == old(table.Chain())
      invariant ArgumentsEffect(table.Visible(), args[i..]) == ArgumentsEffect(env0, args)
      invariant table.Visible() != [] && table.Visible()[1..] == env0[1..]
      invariant Told(checker.errors, ArgumentsComplaints(table.Visible(), args[i..]))
             == Told(before, ArgumentsComplaints(env0, args))
    {
      ghost var env := table.Visible();
      ArgumentFacts(env, args, i);
      ToldJoin(checker.errors, ArgumentComplaints(env, args[i]),
               ArgumentsComplaints(ArgumentEffect(env, args[i]), args[i + 1..]));
      ToldNone(checker.errors);
      match args[i] {
        case Argument(name, ty) =>
          var ok := table.PushVariableToScope(name, ty);
          if !ok {
            checker.Push(RegistrationFailed(OfVariable, name));
          }
        case SelfReference => checker.Push(SelfReferenceOutsideMethod);
        case Ignored(_) =>
      }
    }
    ArgumentFacts(table.Visible(), args, |args|);
    ToldNone(checker.errors);
  }

  /** Checks one function in a scope of its own, which is gone afterwards whatever was wrong in it. */
  method InferVariables(checker: Checker, f: Function)
    requires checker.Valid() && DistinctBody(f.body) && BodyIds(f.body) !! checker.nodeTypes.Keys
    modifies checker`errors, checker`reported, checker`nodeTypes, checker.table
    ensures checker.Valid() && Grows(old(checker.errors), checker.errors)
    ensures checker.table.Chain() == old(checker.table.Chain())
            && checker.table.Visible() == old(checker.table.Visible())
    ensures Extends(old(checker.nodeTypes), checker.nodeTypes)
    ensures checker.nodeTypes.Keys <= old(checker.nodeTypes.Keys) + BodyIds(f.body)
    ensures checker.errors == Told(old(checker.errors), FunctionComplaints(old(checker.table.Visible()), f))
    ensures checker.errors == [] <==> old(checker.errors) == [] && AcceptBody(old(checker.table.Visible()), f)
    ensures checker.errors == [] && NoSilentBody(f.body) ==>
              AnnotatedBody(checker.nodeTypes, ArgumentsEffect(Inner(old(checker.table.Visible())), f.arguments),
                            f.body, f.result)
  {
    hide Keys, Told, SymbolTable.Valid, SymbolTable.Visible, SymbolTable.Chain, AcceptAll, AnnotatedBody;
    hide ArgumentsEffect, ArgumentsAllowed, NoSilentBody, BodyIds, DistinctBody, ArgumentsComplaints, BodyComplaints;
    var table := checker.table;
    ghost var outer, chain, before := table.Visible(), table.Chain(), checker.errors;
    var id := table.PushScope();
    InferArguments(checker, f.arguments);
    ToldJoin(before, ArgumentsComplaints(Inner(outer), f.arguments),
             BodyComplaints(table.Visible(), f.body, f.result));
    checker.InferBody(f.body, f.result);
    assert table.Chain() == [id] + chain;
    table.PopScope();
  }

  /** Looks at the signatures of all functions before any body. */
  method CollectFunctions(checker: Checker, fs: seq<Function>)
    requires checker.Valid()
    modifies checker`errors, checker`reported
    ensures checker.Valid() && Grows(old(checker.errors), checker.errors)
    ensures checker.errors == Told(old(checker.errors), SignaturesComplaints(checker.table.Visible(), fs))
    ensures checker.errors == [] <==>
            old(checker.errors) == [] && forall f <- fs :: SignatureKnown(checker.table.Visible(), f)
  {
    hide Keys, Told, SymbolTable.Valid, SymbolTable.Visible, SymbolTable.Chain, SignatureKnown, SignatureComplaints,
         SignaturesComplaints, FunctionComplaints, FunctionsComplaints;
    ghost var env, before := checker.table.Visible(), checker.errors;
    ProgramSaysExactly(env, fs);
    ToldNothing(before, SignaturesComplaints(env, fs));
    assert fs[0..] == fs;
    for i := 0 to |fs|
      invariant checker.Valid() && Grows(before, checker.errors)
      invariant Told(checker.errors, SignaturesComplaints(env, fs[i..])) == Told(before, SignaturesComplaints(env, fs))
    {
      FunctionFacts(env, fs, i);
      ToldJoin(checker.errors, SignatureComplaints(env, fs[i]), SignaturesComplaints(env, fs[i + 1..]));
      CollectFunction(checker, fs[i]);
    }
    FunctionFacts(env, fs, |fs|);
    ToldNone(checker.errors);
  }

  method CollectFunction(checker: Checker, f: Function)
    requires checker.Valid()
    modifies checker`errors, checker`reported
    ensures checker.Valid() && Grows(old(checker.errors), checker.errors)
    ensures checker.errors == Told(old(checker.errors), SignatureComplaints(checker.table.Visible(), f))
    ensures checker.errors == [] <==> old(checker.errors) == [] && SignatureKnown(checker.table.Visible(), f)
  {
    hide Keys, Told, SymbolTable.Valid, SymbolTable.Visible, SymbolTable.Chain, KnownType, SignatureKnown,
         ArgumentsComplaints, ParametersComplaints, TypeComplaints;
    ghost var env, before, args := checker.table.Visible(), checker.errors, f.arguments;
    SignatureExactly(env, f);
    ToldNothing(before, SignatureComplaints(env, f));
    ToldJoin(before, ParametersComplaints(env, args), TypeComplaints(env, f.result));
    assert args[0..] == args;
    for i := 0 to |f.arguments|
      invariant checker.Valid() && Grows(before, checker.errors)
      invariant Told(checker.errors, ParametersComplaints(env, args[i..]))
             == Told(before, ParametersComplaints(env, args))
    {
      ArgumentFacts(env, args, i);
      ToldJoin(checker.errors, ParameterComplaints(env, args[i]), ParametersComplaints(env, args[i + 1..]));
      match f.arguments[i] {
        case SelfReference => checker.Push(SelfReferenceInFunction);
        case Ignored(ty) => checker.ValidateType(ty);
        case Argument(_, ty) => checker.ValidateType(ty);
      }
    }
    ArgumentFacts(env, args, |args|);
    ToldNone(checker.errors);
    checker.ValidateType(f.result);
  }

  /**
    The whole program. Every complaint about it is told, whatever went wrong before; it passes exactly when every
    function is accepted; and where every function can be judged, exactly when every function is well typed.
   */
  method InferTypes(checker: Checker, fs: seq<Function>) returns (ok: bool)
    requires checker.Valid() && DistinctFunctions(fs) && FunctionIds(fs) !! checker.nodeTypes.Keys
    modifies checker`errors, checker`reported, checker`nodeTypes, checker.table
    ensures checker.Valid()
    ensures checker.table.Chain() == old(checker.table.Chain())
            && checker.table.Visible() == old(checker.table.Visible())
    ensures checker.errors == Told(old(checker.errors), ProgramComplaints(old(checker.table.Visible()), fs))
    ensures ok <==> old(checker.errors) == [] && forall f <- fs :: AcceptFunction(old(checker.table.Visible()), f)
    ensures old(checker.errors) == [] && (forall f <- fs :: Judgeable(old(checker.table.Visible()), f)) ==>
              (ok <==> forall f <- fs :: WellTypedFunction(old(checker.table.Visible()), f))
  {
    hide Keys, Told, SymbolTable.Valid, SymbolTable.Visible, SymbolTable.Chain, SignatureKnown, AcceptBody;
    hide BodyIds, DistinctBody, Judgeable, WellTypedFunction, AcceptFunction, SignaturesComplaints;
    hide FunctionComplaints, FunctionsComplaints, FunctionIds, DistinctFunctions;
    ghost var env, before := checker.table.Visible(), checker.errors;
    ProgramSaysExactly(env, fs);
    ToldNothing(before, ProgramComplaints(env, fs));
    ToldJoin(before, SignaturesComplaints(env, fs), FunctionsComplaints(env, fs));
    CollectFunctions(checker, fs);
    assert fs[0..] == fs;
    for i := 0 to |fs|
      invariant checker.Valid()
      invariant checker.table.Chain() == old(checker.table.Chain()) && checker.table.Visible() == env
      invariant DistinctFunctions(fs[i..]) && FunctionIds(fs[i..]) !! checker.nodeTypes.Keys
      invariant Told(checker.errors, FunctionsComplaints(env, fs[i..])) == Told(before, ProgramComplaints(env, fs))
    {
      FunctionFacts(env, fs, i);
      ToldJoin(checker.errors, FunctionComplaints(env, fs[i]), FunctionsComplaints(env, fs[i + 1..]));
      InferVariables(checker, fs[i]);
    }
    FunctionFacts(env, fs, |fs|);
    ToldNone(checker.errors);
    ok := checker.errors == [];
    if forall f <- fs :: Judgeable(env, f) {
      ProgramExactly(env, fs);
    }
  }

  /** A function is well typed exactly when the checker accepts it and it can be judged. */
  lemma FunctionExactly(env: Env, f: Function)
    ensures WellTypedFunction(env, f) <==> AcceptFunction(env, f) && Judgeable(env, f)
  {
    hide AcceptAll, AllWellTyped, NoSilentBody, TrustworthyBody, ArgumentsAllowed, SignatureKnown;
    BodyExactly(ArgumentsEffect(Inner(env), f.arguments), f.body, f.result);
  }

  /** So programs of functions that can be judged are accepted exactly when all functions are well typed. */
  lemma ProgramExactly(env: Env, fs: seq<Function>)
    ensures (forall f <- fs :: WellTypedFunction(env, f))
       <==> (forall f <- fs :: AcceptFunction(env, f)) && forall f <- fs :: Judgeable(env, f)
  {
    hide AcceptFunction, WellTypedFunction, Judgeable;
    forall f <- fs
      ensures WellTypedFunction(env, f) <==> AcceptFunction(env, f) && Judgeable(env, f)
    {
      FunctionExactly(env, f);
    }
  }
}
