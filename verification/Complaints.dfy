/** What the checker has to say about a piece of syntax, told from the syntax: every complaint, in order. */
module Complaints {
  import opened Decoded
  import opened Types
  import opened ScopeTrees
  import opened SymbolTables
  import opened Typing

  datatype MismatchContext = InAssignment | InReturn | InCondition | InDefinition

  datatype RegistrationKind = OfVariable | OfType

  datatype Error =
    | TypeMismatch(expected: TypeInfo, found: TypeInfo, context: MismatchContext)
    | ArrayIndexNotNumeric(found: TypeInfo)
    | ExpectedArrayType(found: TypeInfo)
    | InvalidUnaryOperand(unary: UnaryOp, found: TypeInfo)
    | BinaryOperandTypeMismatch(op: BinaryOp, left: TypeInfo, right: TypeInfo)
    | InvalidBinaryOperand(op: BinaryOp, left: TypeInfo, right: TypeInfo)
    | ArrayElementTypeMismatch(expected: TypeInfo, found: TypeInfo)
    | CannotInferUzumakiType
    | RegistrationFailed(kind: RegistrationKind, name: string)
    | SelfReferenceOutsideMethod
    | SelfReferenceInFunction
    | UnknownType(name: string)
    | UnknownIdentifier(name: string)

  /** The key under which an error is reported only once. */
  function KeyOf(e: Error): Option<string>
  {
    match e
    case UnknownType(name) => Some("UnknownType:" + name)
    case UnknownIdentifier(name) => Some("UnknownIdentifier:" + name)
    case _ => Option.None
  }

  function KeySet(e: Error): set<string>
  {
    if KeyOf(e).Some? then {KeyOf(e).value} else {}
  }

  function Keys(errors: seq<Error>): set<string>
  {
    if errors == [] then {} else Keys(errors[..|errors| - 1]) + KeySet(errors[|errors| - 1])
  }

  // ----- from complaints to the list of errors -----

  /** The complaints that are recorded when `reported` keys have been: of those with one key, the first. */
  function Fresh(reported: set<string>, complaints: seq<Error>): seq<Error>
    decreases |complaints|
  {
    if complaints == [] then []
    else
      var c := complaints[0];
      if KeyOf(c).Some? && KeyOf(c).value in reported then Fresh(reported, complaints[1..])
      else [c] + Fresh(reported + KeySet(c), complaints[1..])
  }

  /** The list of errors after more complaints. */
  function Told(errors: seq<Error>, complaints: seq<Error>): seq<Error>
  {
    errors + Fresh(Keys(errors), complaints)
  }

  lemma {:induction false} KeysJoin(a: seq<Error>, b: seq<Error>)
    ensures Keys(a + b) == Keys(a) + Keys(b)
    decreases |b|
  {
    if b == [] {
      assert a + b == a;
    } else {
      var front, last := b[..|b| - 1], b[|b| - 1];
      assert (a + b)[..|a + b| - 1] == a + front && (a + b)[|a + b| - 1] == last;
      KeysJoin(a, front);
    }
  }

  lemma KeysOne(e: Error)
    ensures Keys([e]) == KeySet(e)
  {
    assert [e][..0] == [];
  }

  lemma {:induction false} FreshJoin(reported: set<string>, a: seq<Error>, b: seq<Error>)
    ensures Fresh(reported, a + b) == Fresh(reported, a) + Fresh(reported + Keys(Fresh(reported, a)), b)
    decreases |a|
  {
    if a == [] {
      assert a + b == b && reported + Keys([]) == reported;
    } else {
      var c := a[0];
      assert (a + b)[0] == c && (a + b)[1..] == a[1..] + b;
      if KeyOf(c).Some? && KeyOf(c).value in reported {
        FreshJoin(reported, a[1..], b);
      } else {
        var rest := Fresh(reported + KeySet(c), a[1..]);
        FreshJoin(reported + KeySet(c), a[1..], b);
        KeysJoin([c], rest);
        KeysOne(c);
        assert reported + Keys([c] + rest) == reported + KeySet(c) + Keys(rest);
      }
    }
  }

  /** Telling two lists of complaints one after the other is telling them as one. */
  lemma ToldJoin(errors: seq<Error>, a: seq<Error>, b: seq<Error>)
    ensures Told(Told(errors, a), b) == Told(errors, a + b)
  {
    FreshJoin(Keys(errors), a, b);
    KeysJoin(errors, Fresh(Keys(errors), a));
  }

  lemma ToldNone(errors: seq<Error>)
    ensures Told(errors, []) == errors
  {
  }

  /** A complaint with a key is recorded once, and only if its key is new; one without a key always is. */
  lemma ToldOne(errors: seq<Error>, e: Error)
    ensures Told(errors, [e]) ==
            if KeyOf(e).Some? && KeyOf(e).value in Keys(errors) then errors else errors + [e]
  {
    var reported := Keys(errors);
    assert [e][1..] == [];
    assert Fresh(reported, []) == [] && Fresh(reported + KeySet(e), []) == [];
    assert errors + [] == errors;
  }

  lemma {:induction false} KeysHold(errors: seq<Error>, e: Error)
    requires KeyOf(e).Some?
    ensures KeyOf(e).value in Keys(errors) <==> e in errors
  {
    if errors != [] {
      var front, last := errors[..|errors| - 1], errors[|errors| - 1];
      KeysHold(front, e);
      assert errors == front + [last];
      if KeyOf(last) == KeyOf(e) {
        KeyInjective(last, e);
      }
    }
  }

  lemma KeyInjective(a: Error, b: Error)
    requires KeyOf(a).Some? && KeyOf(a) == KeyOf(b)
    ensures a == b
  {
    var s, t := KeyOf(a).value, KeyOf(b).value;
    assert s[7] == t[7];
    if a.UnknownType? {
      assert s[12..] == a.name && t[12..] == b.name;
    } else {
      assert s[18..] == a.name && t[18..] == b.name;
    }
  }

  lemma {:induction false} FreshHolds(reported: set<string>, complaints: seq<Error>, e: Error)
    ensures e in Fresh(reported, complaints) <==>
            e in complaints && (KeyOf(e).Some? ==> KeyOf(e).value !in reported)
    ensures KeyOf(e).Some? ==> multiset(Fresh(reported, complaints))[e] <= 1
    ensures KeyOf(e).None? ==> multiset(Fresh(reported, complaints))[e] == multiset(complaints)[e]
    decreases |complaints|
  {
    if complaints != [] {
      var c, rest := complaints[0], complaints[1..];
      assert complaints == [c] + rest;
      if KeyOf(c).Some? && KeyOf(c).value in reported {
        FreshHolds(reported, rest, e);
      } else {
        FreshHolds(reported + KeySet(c), rest, e);
        if KeyOf(c).Some? && KeyOf(c) == KeyOf(e) {
          KeyInjective(c, e);
        }
      }
    }
  }

  /**
    No complaint is lost and none is invented: unknown names are in the list once each, unless they were there
    before; all other complaints as often as they were made.
   */
  lemma ToldHolds(errors: seq<Error>, complaints: seq<Error>, e: Error)
    ensures e in Told(errors, complaints) <==> e in errors || e in complaints
    ensures var before, after := multiset(errors)[e], multiset(Told(errors, complaints))[e];
            if e.UnknownType? || e.UnknownIdentifier? then
              after == if e in errors then before else if e in complaints then 1 else 0
            else after == before + multiset(complaints)[e]
  {
    FreshHolds(Keys(errors), complaints, e);
    if KeyOf(e).Some? {
      KeysHold(errors, e);
    }
  }

  lemma ToldNothing(errors: seq<Error>, complaints: seq<Error>)
    ensures Told(errors, complaints) == [] <==> errors == [] && complaints == []
  {
    if complaints != [] {
      ToldHolds(errors, complaints, complaints[0]);
    }
  }

  /** A complaint that depends on a condition. */
  function When(wrong: bool, e: Error): seq<Error>
  {
    if wrong then [e] else []
  }

  // ----- expressions -----

  /** What is said about an expression, and the type the checker goes on with, if any. */
  datatype Finding = Finding(complaints: seq<Error>, found: Option<TypeInfo>)

  function Examine(env: Env, e: Expr): Finding
    decreases e
  {
    match e
    case Index(_, base, index) =>
      var b := Examine(env, base);
      if b.found.None? then b
      else
        var i, whole := Examine(env, index), b.found.value;
        Finding(b.complaints + i.complaints + IndexComplaints(whole, i.found),
                if whole.kind.Array? then Some(whole.kind.element) else Option.None)
    case Unary(_, op, operand) =>
      var o := Examine(env, operand);
      if o.found.None? || UnaryRule(op, o.found.value) then o
      else Finding(o.complaints + [InvalidUnaryOperand(op, o.found.value)], Option.None)
    case Paren(_, operand) => Examine(env, operand)
    case Binary(_, op, left, right) =>
      var l, r := Examine(env, left), Examine(env, right);
      if l.found.None? || r.found.None? then Finding(l.complaints + r.complaints, Option.None)
      else
        Finding(l.complaints + r.complaints + OperandComplaints(op, l.found.value, r.found.value),
                Combined(op, l.found.value, r.found.value))
    case ArrayLit(_, elements) =>
      if elements == [] then Finding([], Option.None)
      else
        var first := Examine(env, elements[0]);
        if first.found.None? then first
        else
          Finding(first.complaints + ElementComplaints(env, elements[1..], first.found.value),
                  Some(TypeInfo(Array(first.found.value, |elements|), [])))
    case BoolLit(_) => Finding([], Some(TypeInfo(Bool, [])))
    case StringLit(_) => Finding([], Some(TypeInfo(String, [])))
    case NumberLit(_) => Finding([], Some(TypeInfo(Number(I32), [])))
    case UnitLit(_) => Finding([], Some(TypeInfo(Unit, [])))
    case Ident(_, name) =>
      Finding(When(Lookup(env, name).None?, UnknownIdentifier(name)), Lookup(env, name))
    case Uzumaki(_) => Finding([], Option.None)
  }

  /** The elements after the first, against its type `t`. */
  function ElementComplaints(env: Env, es: seq<Expr>, t: TypeInfo): seq<Error>
    decreases es
  {
    if es == [] then []
    else
      var f := Examine(env, es[0]);
      f.complaints + MismatchComplaints(f.found, t) + ElementComplaints(env, es[1..], t)
  }

  function MismatchComplaints(found: Option<TypeInfo>, t: TypeInfo): seq<Error>
  {
    if found.Some? then When(found.value != t, ArrayElementTypeMismatch(t, found.value)) else []
  }

  /** A bad index is reported before a base that is no array. */
  function IndexComplaints(whole: TypeInfo, index: Option<TypeInfo>): seq<Error>
  {
    (if index.Some? then When(!index.value.kind.Number?, ArrayIndexNotNumeric(index.value)) else []) +
    When(!whole.kind.Array?, ExpectedArrayType(whole))
  }

  /** Unequal operand types are reported before operands of the wrong kind; for arithmetic, after them once more. */
  function OperandComplaints(op: BinaryOp, l: TypeInfo, r: TypeInfo): seq<Error>
  {
    var unequal := When(l != r, BinaryOperandTypeMismatch(op, l, r));
    match op
    case And => unequal + When(l.kind != Bool || r.kind != Bool, InvalidBinaryOperand(op, l, r))
    case Or => unequal + When(l.kind != Bool || r.kind != Bool, InvalidBinaryOperand(op, l, r))
    case Eq => unequal
    case Ne => unequal
    case Lt => unequal
    case Le => unequal
    case Gt => unequal
    case Ge => unequal
    case _ => unequal + When(!l.kind.Number? || !r.kind.Number?, InvalidBinaryOperand(op, l, r)) + unequal
  }

  /** The type the checker goes on with, wrong operands or not. */
  function Combined(op: BinaryOp, l: TypeInfo, r: TypeInfo): Option<TypeInfo>
  {
    match op
    case And => if l.kind == Bool && r.kind == Bool then Some(TypeInfo(Bool, [])) else Option.None
    case Or => if l.kind == Bool && r.kind == Bool then Some(TypeInfo(Bool, [])) else Option.None
    case Eq => Some(TypeInfo(Bool, []))
    case Ne => Some(TypeInfo(Bool, []))
    case Lt => Some(TypeInfo(Bool, []))
    case Le => Some(TypeInfo(Bool, []))
    case Gt => Some(TypeInfo(Bool, []))
    case Ge => Some(TypeInfo(Bool, []))
    case _ => Some(l)
  }

  /** A type name is reported if neither it nor its lower-case form is declared in sight. */
  function TypeComplaints(env: Env, ty: TypeInfo): seq<Error>
    decreases ty
  {
    match ty.kind
    case Array(element, _) => TypeComplaints(env, element)
    case Custom(name) => NameComplaints(env, [name])
    case Generic(name) => NameComplaints(env, [name]) + NameComplaints(env, ty.typeParams)
    case _ => []
  }

  function NameComplaints(env: Env, names: seq<string>): seq<Error>
  {
    if names == [] then []
    else When(!KnownName(env, names[0]), UnknownType(names[0])) + NameComplaints(env, names[1..])
  }

  // ----- statements -----

  function ConditionComplaints(env: Env, e: Expr): seq<Error>
  {
    var f := Examine(env, e);
    var found := if f.found.Some? then f.found.value else TypeInfo(Unit, []);
    f.complaints + When(found.kind != Bool, TypeMismatch(TypeInfo(Bool, []), found, InCondition))
  }

  /** A declaration's initial value; a bare non-deterministic value takes any type. */
  function InitialComplaints(env: Env, e: Expr, ty: TypeInfo): seq<Error>
  {
    if e.Uzumaki? then []
    else
      var f := Examine(env, e);
      f.complaints +
      if f.found.Some? then When(f.found.value != ty, TypeMismatch(ty, f.found.value, InDefinition)) else []
  }

  function DeclarationComplaints(env: Env, name: string): seq<Error>
  {
    When(env == [] || name in env[0].variables, RegistrationFailed(OfVariable, name))
  }

  function StatementComplaints(env: Env, s: Stmt, ret: TypeInfo): seq<Error>
    decreases s
  {
    match s
    case Assign(left, right) =>
      var l := Examine(env, left);
      if right.Uzumaki? then l.complaints + When(l.found.None?, CannotInferUzumakiType)
      else
        var r := Examine(env, right);
        l.complaints + r.complaints +
        if l.found.Some? && r.found.Some? then
          When(l.found.value != r.found.value, TypeMismatch(l.found.value, r.found.value, InAssignment))
        else []
    case Block(body) => BodyComplaints(Inner(env), body, ret)
    case ExprStmt(e) => Examine(env, e).complaints
    case Return(e) =>
      if e.Uzumaki? then []
      else
        var f := Examine(env, e);
        var found := if f.found.Some? then f.found.value else TypeInfo(Unit, []);
        f.complaints + When(ret != found, TypeMismatch(ret, found, InReturn))
    case Loop(guard, body) =>
      (if guard.Some? then ConditionComplaints(env, guard.value) else []) + BodyComplaints(Inner(env), body, ret)
    case Break => []
    case If(condition, thenArm, hasElse, elseArm) =>
      ConditionComplaints(env, condition) + BodyComplaints(Inner(env), thenArm, ret) +
      (if hasElse then BodyComplaints(Inner(env), elseArm, ret) else [])
    case VarDef(_, _, name, ty, init) =>
      (if init.Some? then InitialComplaints(env, init.value, ty) else []) + DeclarationComplaints(env, name)
    case TypeDef(name, _) => When(env == [] || name in env[0].types, RegistrationFailed(OfType, name))
    case Assert(e) => ConditionComplaints(env, e)
    case ConstDef(_, _, name, _) => DeclarationComplaints(env, name)
  }

  /** All statements have their say, each under what the ones before it declared, whatever was wrong with those. */
  function BodyComplaints(env: Env, ss: seq<Stmt>, ret: TypeInfo): seq<Error>
    decreases ss
  {
    if ss == [] then []
    else StatementComplaints(env, ss[0], ret) + BodyComplaints(Effect(env, ss[0]), ss[1..], ret)
  }

  // ----- complaints are rejections -----

  /** The result of an accepted expression. */
  function AsOption(v: Verdict): Option<TypeInfo>
  {
    if v.Typed? then Some(v.ty) else Option.None
  }

  /** An expression is rejected exactly when something is said about it; otherwise its type is the inferred one. */
  lemma {:induction false} ExamineExactly(env: Env, e: Expr)
    ensures Examine(env, e).complaints == [] <==> !Infer(env, e).Reject?
    ensures !Infer(env, e).Reject? ==> Examine(env, e).found == AsOption(Infer(env, e))
    decreases e
  {
    match e
    case Index(_, base, index) =>
      ExamineExactly(env, base);
      ExamineExactly(env, index);
    case Unary(_, op, operand) =>
      ExamineExactly(env, operand);
      if Examine(env, operand).found.Some? {
        OperatorRules(And, op, UNIT, Examine(env, operand).found.value);
      }
    case Paren(_, operand) => ExamineExactly(env, operand);
    case Binary(_, op, left, right) =>
      ExamineExactly(env, left);
      ExamineExactly(env, right);
    case ArrayLit(_, elements) =>
      if elements != [] {
        ExamineExactly(env, elements[0]);
        var first := Infer(env, elements[0]);
        if first.Typed? {
          ElementsExactly(env, elements[1..], first.ty);
        }
      }
    case _ =>
  }

  lemma {:induction false} ElementsExactly(env: Env, es: seq<Expr>, t: TypeInfo)
    ensures ElementComplaints(env, es, t) == [] <==> AllMatch(env, es, t)
    decreases es
  {
    if es != [] {
      ExamineExactly(env, es[0]);
      ElementsExactly(env, es[1..], t);
    }
  }

  lemma {:induction false} TypeComplaintsExactly(env: Env, ty: TypeInfo)
    ensures TypeComplaints(env, ty) == [] <==> KnownType(env, ty)
    decreases ty
  {
    match ty.kind
    case Array(element, _) => TypeComplaintsExactly(env, element);
    case Custom(name) => NameComplaintsExactly(env, [name]);
    case Generic(name) =>
      NameComplaintsExactly(env, [name]);
      NameComplaintsExactly(env, ty.typeParams);
    case _ =>
  }

  lemma {:induction false} NameComplaintsExactly(env: Env, names: seq<string>)
    ensures NameComplaints(env, names) == [] <==> forall n <- names :: KnownName(env, n)
    decreases |names|
  {
    if names != [] {
      NameComplaintsExactly(env, names[1..]);
      assert names == [names[0]] + names[1..];
    }
  }

  lemma ConditionExactly(env: Env, e: Expr)
    ensures ConditionComplaints(env, e) == [] <==> AcceptsCondition(env, e)
  {
    hide Examine, Infer;
    ExamineExactly(env, e);
  }

  /** A statement is rejected exactly when something is said about it. */
  lemma {:induction false} StatementExactly(env: Env, s: Stmt, ret: TypeInfo)
    ensures StatementComplaints(env, s, ret) == [] <==> Accept(env, s, ret)
    decreases s
  {
    hide Examine, Infer, ConditionComplaints, AcceptsCondition;
    match s
    case Assign(left, right) =>
      ExamineExactly(env, left);
      ExamineExactly(env, right);
    case Block(body) => BodySaysExactly(Inner(env), body, ret);
    case ExprStmt(e) => ExamineExactly(env, e);
    case Return(e) => ExamineExactly(env, e);
    case Loop(guard, body) =>
      if guard.Some? {
        ConditionExactly(env, guard.value);
      }
      BodySaysExactly(Inner(env), body, ret);
    case If(condition, thenArm, hasElse, elseArm) =>
      ConditionExactly(env, condition);
      BodySaysExactly(Inner(env), thenArm, ret);
      if hasElse {
        BodySaysExactly(Inner(env), elseArm, ret);
      }
    case VarDef(_, _, _, _, init) =>
      if init.Some? {
        ExamineExactly(env, init.value);
      }
    case Assert(e) => ConditionExactly(env, e);
    case _ =>
  }

  lemma {:induction false} BodySaysExactly(env: Env, ss: seq<Stmt>, ret: TypeInfo)
    ensures BodyComplaints(env, ss, ret) == [] <==> AcceptAll(env, ss, ret)
    decreases ss
  {
    hide StatementComplaints, Accept;
    if ss != [] {
      StatementExactly(env, ss[0], ret);
      BodySaysExactly(Effect(env, ss[0]), ss[1..], ret);
    }
  }

  /** The environment of the statement at position `i` of a body. */
  function EnvAt(env: Env, ss: seq<Stmt>, i: nat): Env
    requires i <= |ss|
    decreases i
  {
    if i == 0 then env else Effect(EnvAt(env, ss, i - 1), ss[i - 1])
  }

  lemma {:induction false} EnvAtTail(env: Env, ss: seq<Stmt>, i: nat)
    requires 0 < i <= |ss|
    ensures EnvAt(env, ss, i) == EnvAt(Effect(env, ss[0]), ss[1..], i - 1)
    decreases i
  {
    if i > 1 {
      EnvAtTail(env, ss, i - 1);
    }
  }

  lemma {:induction false} BodyHolds(env: Env, ss: seq<Stmt>, ret: TypeInfo, i: nat, e: Error)
    requires i < |ss| && e in StatementComplaints(EnvAt(env, ss, i), ss[i], ret)
    ensures e in BodyComplaints(env, ss, ret)
    decreases i
  {
    hide StatementComplaints;
    if i > 0 {
      EnvAtTail(env, ss, i);
      BodyHolds(Effect(env, ss[0]), ss[1..], ret, i - 1, e);
    }
  }

  /**
    Whatever was wrong before it, a rejected statement of a body has complaints of its own, and every one of them
    is in the final list.
   */
  lemma RejectedShows(errors: seq<Error>, env: Env, ss: seq<Stmt>, ret: TypeInfo, i: nat)
    requires i < |ss|
    ensures var own := StatementComplaints(EnvAt(env, ss, i), ss[i], ret);
            && (own != [] <==> !Accept(EnvAt(env, ss, i), ss[i], ret))
            && forall e <- own :: e in Told(errors, BodyComplaints(env, ss, ret))
  {
    hide StatementComplaints, BodyComplaints, Accept, Told;
    StatementExactly(EnvAt(env, ss, i), ss[i], ret);
    forall e <- StatementComplaints(EnvAt(env, ss, i), ss[i], ret)
      ensures e in Told(errors, BodyComplaints(env, ss, ret))
    {
      BodyHolds(env, ss, ret, i, e);
      ToldHolds(errors, BodyComplaints(env, ss, ret), e);
    }
  }

  lemma BodyOfTwo(env: Env, x: Stmt, y: Stmt, ret: TypeInfo)
    ensures BodyComplaints(env, [x, y], ret) ==
            StatementComplaints(env, x, ret) + StatementComplaints(Effect(env, x), y, ret)
  {
    hide StatementComplaints, Effect;
    assert [x, y][1..] == [y] && [y][1..] == [];
    assert BodyComplaints(Effect(Effect(env, x), y), [], ret) == [];
    assert BodyComplaints(Effect(env, x), [y], ret) == StatementComplaints(Effect(env, x), y, ret);
  }

  /** `let x: bool = 5; let y: bool = 5;`: the second mismatch is told although the first was. */
  lemma BothAreTold()
    ensures var x := VarDef(1, 2, "x", BOOLEAN, Some(NumberLit(3)));
            var y := VarDef(4, 5, "y", BOOLEAN, Some(NumberLit(6)));
            var mismatch := TypeMismatch(BOOLEAN, INT32, InDefinition);
            Told([], BodyComplaints(GLOBALS, [x, y], UNIT)) == [mismatch, mismatch]
  {
    hide Told, BodyComplaints;
    var x, y := VarDef(1, 2, "x", BOOLEAN, Some(NumberLit(3))), VarDef(4, 5, "y", BOOLEAN, Some(NumberLit(6)));
    var mismatch := TypeMismatch(BOOLEAN, INT32, InDefinition);
    BodyOfTwo(GLOBALS, x, y, UNIT);
    assert "y" != "x";
    assert InitialComplaints(GLOBALS, NumberLit(3), BOOLEAN) == [mismatch];
    assert StatementComplaints(GLOBALS, x, UNIT) == [mismatch];
    assert StatementComplaints(Effect(GLOBALS, x), y, UNIT) == [mismatch];
    ToldOne([], mismatch);
    ToldOne([mismatch], mismatch);
    ToldJoin([], [mismatch], [mismatch]);
  }

  // ----- complaints are true -----

  /** The fields of a complaint show what it complains about. */
  predicate Honest(e: Error)
  {
    match e
    case TypeMismatch(expected, found, _) => expected != found
    case ArrayIndexNotNumeric(found) => !found.IsNumber()
    case ExpectedArrayType(found) => !found.kind.Array?
    case InvalidUnaryOperand(op, found) => !UnaryAllows(op, found)
    case BinaryOperandTypeMismatch(_, left, right) => left != right
    case InvalidBinaryOperand(op, left, right) => !BinaryAllows(op, left) || !BinaryAllows(op, right)
    case ArrayElementTypeMismatch(expected, found) => expected != found
    case _ => true
  }

  ghost predicate AllHonest(es: seq<Error>)
  {
    forall e <- es :: Honest(e)
  }

  lemma PartsHonest(whole: TypeInfo, index: Option<TypeInfo>, op: BinaryOp, l: TypeInfo, r: TypeInfo)
    ensures AllHonest(IndexComplaints(whole, index)) && AllHonest(OperandComplaints(op, l, r))
  {
  }

  lemma {:induction false} ExamineHonest(env: Env, e: Expr)
    ensures AllHonest(Examine(env, e).complaints)
    decreases e
  {
    hide IndexComplaints, OperandComplaints, Combined, Lookup;
    match e
    case Index(_, base, index) =>
      ExamineHonest(env, base);
      ExamineHonest(env, index);
      var b := Examine(env, base).found;
      if b.Some? {
        PartsHonest(b.value, Examine(env, index).found, And, UNIT, UNIT);
      }
    case Unary(_, op, operand) =>
      ExamineHonest(env, operand);
      if Examine(env, operand).found.Some? {
        OperatorRules(And, op, UNIT, Examine(env, operand).found.value);
      }
    case Paren(_, operand) => ExamineHonest(env, operand);
    case Binary(_, op, left, right) =>
      ExamineHonest(env, left);
      ExamineHonest(env, right);
      var l, r := Examine(env, left).found, Examine(env, right).found;
      if l.Some? && r.Some? {
        PartsHonest(UNIT, l, op, l.value, r.value);
      }
    case ArrayLit(_, elements) =>
      if elements != [] {
        ExamineHonest(env, elements[0]);
        if Examine(env, elements[0]).found.Some? {
          ElementsHonest(env, elements[1..], Examine(env, elements[0]).found.value);
        }
      }
    case _ =>
  }

  lemma {:induction false} ElementsHonest(env: Env, es: seq<Expr>, t: TypeInfo)
    ensures AllHonest(ElementComplaints(env, es, t))
    decreases es
  {
    if es != [] {
      ExamineHonest(env, es[0]);
      ElementsHonest(env, es[1..], t);
    }
  }

  /** No complaint about a statement is groundless: its own fields bear it out. */
  lemma {:induction false} StatementHonest(env: Env, s: Stmt, ret: TypeInfo)
    ensures AllHonest(StatementComplaints(env, s, ret))
    decreases s
  {
    hide Examine;
    match s
    case Assign(left, right) =>
      ExamineHonest(env, left);
      ExamineHonest(env, right);
    case Block(body) => BodyHonest(Inner(env), body, ret);
    case ExprStmt(e) => ExamineHonest(env, e);
    case Return(e) => ExamineHonest(env, e);
    case Loop(guard, body) =>
      if guard.Some? {
        ExamineHonest(env, guard.value);
      }
      BodyHonest(Inner(env), body, ret);
    case If(condition, thenArm, hasElse, elseArm) =>
      ExamineHonest(env, condition);
      BodyHonest(Inner(env), thenArm, ret);
      if hasElse {
        BodyHonest(Inner(env), elseArm, ret);
      }
    case VarDef(_, _, _, _, init) =>
      if init.Some? {
        ExamineHonest(env, init.value);
      }
    case Assert(e) => ExamineHonest(env, e);
    case _ =>
  }

  lemma {:induction false} BodyHonest(env: Env, ss: seq<Stmt>, ret: TypeInfo)
    ensures AllHonest(BodyComplaints(env, ss, ret))
    decreases ss
  {
    hide StatementComplaints;
    if ss != [] {
      StatementHonest(env, ss[0], ret);
      BodyHonest(Effect(env, ss[0]), ss[1..], ret);
    }
  }
}
