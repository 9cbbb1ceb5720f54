/** The call-free fragment of the language: what the checker accepts, and a declarative type system. */
module Typing {
  import opened Decoded
  import opened Types
  import opened ScopeTrees
  import opened SymbolTables

  datatype UnaryOp = Not | Neg | BitNot

  datatype BinaryOp =
    | And | Or
    | Eq | Ne | Lt | Le | Gt | Ge
    | Pow | Add | Sub | Mul | Div | Mod | BitAnd | BitOr | BitXor | BitNotOp | Shl | Shr

  datatype Expr =
    | Index(id: nat, base: Expr, index: Expr)
    | Unary(id: nat, unary: UnaryOp, operand: Expr)
    | Paren(id: nat, operand: Expr)
    | Binary(id: nat, op: BinaryOp, left: Expr, right: Expr)
    | ArrayLit(id: nat, elements: seq<Expr>)
    | BoolLit(id: nat)
    | StringLit(id: nat)
    | NumberLit(id: nat)
    | UnitLit(id: nat)
    | Ident(id: nat, name: string)
    | Uzumaki(id: nat)

  datatype Stmt =
    | Assign(left: Expr, right: Expr)
    | Block(body: seq<Stmt>)
    | ExprStmt(e: Expr)
    | Return(e: Expr)
    | Loop(guard: Option<Expr>, body: seq<Stmt>)
    | Break
    | If(condition: Expr, thenArm: seq<Stmt>, hasElse: bool, elseArm: seq<Stmt>)
    | VarDef(id: nat, nameId: nat, name: string, ty: TypeInfo, init: Option<Expr>)
    | TypeDef(name: string, ty: TypeInfo)
    | Assert(e: Expr)
    | ConstDef(id: nat, value: Expr, name: string, ty: TypeInfo)  // the value is a literal

  predicate Logical(op: BinaryOp)
  {
    op.And? || op.Or?
  }

  predicate Comparison(op: BinaryOp)
  {
    op.Eq? || op.Ne? || op.Lt? || op.Le? || op.Gt? || op.Ge?
  }

  predicate UnaryAllows(op: UnaryOp, t: TypeInfo)
  {
    match op
    case Not => t.IsBool()
    case Neg => t.IsSignedInteger()
    case BitNot => t.IsNumber()
  }

  predicate BinaryAllows(op: BinaryOp, t: TypeInfo)
  {
    if Logical(op) then t.IsBool() else if Comparison(op) then true else t.IsNumber()
  }

  function BinaryType(op: BinaryOp, t: TypeInfo): TypeInfo
  {
    if Logical(op) || Comparison(op) then BOOLEAN else t
  }

  // ----- a declarative type system -----

  /** Negation is logical, minus is for signed numbers, complement for all numbers. */
  predicate UnaryRule(op: UnaryOp, t: TypeInfo)
  {
    match op
    case Not => t.kind == Bool
    case Neg => t.kind in {Number(I8), Number(I16), Number(I32), Number(I64)}
    case BitNot => t.kind.Number?
  }

  /** What an operator makes of two operands of one type `u`. */
  predicate BinaryRule(op: BinaryOp, u: TypeInfo, t: TypeInfo)
  {
    match op
    case And => u.kind == Bool && t == TypeInfo(Bool, [])
    case Or => u.kind == Bool && t == TypeInfo(Bool, [])
    case Eq => t == TypeInfo(Bool, [])
    case Ne => t == TypeInfo(Bool, [])
    case Lt => t == TypeInfo(Bool, [])
    case Le => t == TypeInfo(Bool, [])
    case Gt => t == TypeInfo(Bool, [])
    case Ge => t == TypeInfo(Bool, [])
    case _ => u.kind.Number? && t == u
  }

  /** The rules are the ones the checker computes with. */
  lemma OperatorRules(op: BinaryOp, unary: UnaryOp, u: TypeInfo, t: TypeInfo)
    ensures BinaryRule(op, u, t) <==> BinaryAllows(op, u) && t == BinaryType(op, u)
    ensures UnaryRule(unary, t) <==> UnaryAllows(unary, t)
  {
  }

  ghost predicate HasType(env: Env, e: Expr, t: TypeInfo)
    decreases e
  {
    match e
    case Index(_, base, index) =>
      exists whole, u :: HasType(env, base, whole) && whole.kind.Array? && whole.kind.element == t
                         && HasType(env, index, u) && u.kind.Number?
    case Unary(_, op, operand) => HasType(env, operand, t) && UnaryRule(op, t)
    case Paren(_, operand) => HasType(env, operand, t)
    case Binary(_, op, left, right) =>
      exists u :: HasType(env, left, u) && HasType(env, right, u) && BinaryRule(op, u, t)
    case ArrayLit(_, elements) =>
      elements != [] && t.kind.Array? && t == TypeInfo(Array(t.kind.element, |elements|), []) &&
      AllHaveType(env, elements, t.kind.element)
    case BoolLit(_) => t == TypeInfo(Bool, [])
    case StringLit(_) => t == TypeInfo(String, [])
    case NumberLit(_) => t == TypeInfo(Number(I32), [])
    case UnitLit(_) => t == TypeInfo(Unit, [])
    case Ident(_, name) => Lookup(env, name) == Some(t)
    case Uzumaki(_) => false
  }

  ghost predicate AllHaveType(env: Env, es: seq<Expr>, t: TypeInfo)
    decreases es
  {
    es == [] || (HasType(env, es[0], t) && AllHaveType(env, es[1..], t))
  }

  /** A value position that may also hold a bare non-deterministic value. */
  ghost predicate Fits(env: Env, e: Expr, t: TypeInfo)
  {
    e.Uzumaki? || HasType(env, e, t)
  }

  /**
    A constant's literal takes the declared type: a number literal any number type, an array literal element by
    element.
   */
  ghost predicate FitsConstant(env: Env, e: Expr, t: TypeInfo)
    decreases e
  {
    match e
    case NumberLit(_) => t.kind.Number?
    case BoolLit(_) => t.kind == Bool
    case StringLit(_) => t.kind == String
    case UnitLit(_) => t.kind == Unit
    case ArrayLit(_, elements) =>
      t.kind.Array? && t.kind.size == |elements| && forall x <- elements :: FitsConstant(env, x, t.kind.element)
    case _ => HasType(env, e, t)
  }

  ghost predicate IsCondition(env: Env, e: Expr)
  {
    exists t :: HasType(env, e, t) && t.kind == Bool
  }

  function Inner(env: Env): Env
  {
    [Bindings(map[], {})] + env
  }

  ghost predicate WellTyped(env: Env, s: Stmt, ret: TypeInfo)
    decreases s
  {
    match s
    case Assign(left, right) => exists t :: HasType(env, left, t) && Fits(env, right, t)
    case Block(body) => AllWellTyped(Inner(env), body, ret)
    case ExprStmt(e) => exists t :: HasType(env, e, t)
    case Return(e) => Fits(env, e, ret)
    case Loop(guard, body) =>
      (guard.Some? ==> IsCondition(env, guard.value)) && AllWellTyped(Inner(env), body, ret)
    case Break => true
    case If(condition, thenArm, hasElse, elseArm) =>
      IsCondition(env, condition) && AllWellTyped(Inner(env), thenArm, ret) &&
      (hasElse ==> AllWellTyped(Inner(env), elseArm, ret))
    case VarDef(_, _, name, ty, init) =>
      KnownType(env, ty) && (init.Some? ==> Fits(env, init.value, ty)) && CanDeclare(env, name)
    case TypeDef(name, ty) => KnownType(env, ty) && env != [] && name !in env[0].types
    case Assert(e) => IsCondition(env, e)
    case ConstDef(_, value, name, ty) => KnownType(env, ty) && FitsConstant(env, value, ty) && CanDeclare(env, name)
  }

  ghost predicate AllWellTyped(env: Env, ss: seq<Stmt>, ret: TypeInfo)
    decreases ss
  {
    ss == [] || (WellTyped(env, ss[0], ret) && AllWellTyped(Effect(env, ss[0]), ss[1..], ret))
  }

  predicate CanDeclare(env: Env, name: string)
  {
    env != [] && name !in env[0].variables
  }

  /** What a statement, accepted or not, does to the environment of the ones after it. */
  function Effect(env: Env, s: Stmt): Env
  {
    match s
    case VarDef(_, _, name, ty, _) => Declared(env, name, ty)
    case ConstDef(_, _, name, ty) => Declared(env, name, ty)
    case TypeDef(name, _) => Named(env, name)
    case _ => env
  }

  // ----- what the checker accepts -----

  /** The checker's view of an expression: an error, a type, or neither. */
  datatype Verdict = Reject | Silent | Typed(ty: TypeInfo)

  function Infer(env: Env, e: Expr): Verdict
    decreases e
  {
    match e
    case Index(_, base, index) =>
      (match Infer(env, base)
       case Reject => Reject
       case Silent => Silent
       case Typed(whole) =>
         var i := Infer(env, index);
         if i.Reject? || (i.Typed? && !i.ty.IsNumber()) || !whole.kind.Array? then Reject
         else Typed(whole.kind.element))
    case Unary(_, op, operand) =>
      var v := Infer(env, operand);
      if v.Typed? && !UnaryAllows(op, v.ty) then Reject else v
    case Paren(_, operand) => Infer(env, operand)
    case Binary(_, op, left, right) =>
      var l, r := Infer(env, left), Infer(env, right);
      if l.Reject? || r.Reject? then Reject
      else if l.Silent? || r.Silent? then Silent
      else if l.ty != r.ty || !BinaryAllows(op, l.ty) then Reject
      else Typed(BinaryType(op, l.ty))
    case ArrayLit(_, elements) =>
      if elements == [] then Silent
      else
        var first := Infer(env, elements[0]);
        if !first.Typed? then first
        else if AllMatch(env, elements, first.ty) then Typed(TypeInfo(Array(first.ty, |elements|), []))
        else Reject
    case BoolLit(_) => Typed(BOOLEAN)
    case StringLit(_) => Typed(STRING)
    case NumberLit(_) => Typed(INT32)
    case UnitLit(_) => Typed(UNIT)
    case Ident(_, name) => if Lookup(env, name).Some? then Typed(Lookup(env, name).value) else Reject
    case Uzumaki(_) => Silent
  }

  function AllMatch(env: Env, es: seq<Expr>, t: TypeInfo): bool
    decreases es
  {
    es == [] || (Matches(Infer(env, es[0]), t) && AllMatch(env, es[1..], t))
  }

  predicate Matches(v: Verdict, t: TypeInfo)
  {
    v.Silent? || v == Typed(t)
  }

  predicate AcceptsCondition(env: Env, e: Expr)
  {
    var v := Infer(env, e);
    v.Typed? && v.ty.IsBool()
  }

  function Accept(env: Env, s: Stmt, ret: TypeInfo): bool
    decreases s
  {
    match s
    case Assign(left, right) =>
      var l := Infer(env, left);
      if right.Uzumaki? then l.Typed?
      else
        var r := Infer(env, right);
        !l.Reject? && !r.Reject? && (l.Typed? && r.Typed? ==> l.ty == r.ty)
    case Block(body) => AcceptAll(Inner(env), body, ret)
    case ExprStmt(e) => !Infer(env, e).Reject?
    case Return(e) =>
      e.Uzumaki? ||
      (match Infer(env, e)
       case Reject => false
       case Silent => ret == UNIT
       case Typed(t) => ret == t)
    case Loop(guard, body) =>
      (guard.Some? ==> AcceptsCondition(env, guard.value)) && AcceptAll(Inner(env), body, ret)
    case Break => true
    case If(condition, thenArm, hasElse, elseArm) =>
      AcceptsCondition(env, condition) && AcceptAll(Inner(env), thenArm, ret) &&
      (hasElse ==> AcceptAll(Inner(env), elseArm, ret))
    case VarDef(_, _, name, ty, init) =>
      (init.Some? && !init.value.Uzumaki? ==> Matches(Infer(env, init.value), ty)) && CanDeclare(env, name)
    case TypeDef(name, _) => env != [] && name !in env[0].types
    case Assert(e) => AcceptsCondition(env, e)
    case ConstDef(_, _, name, _) => CanDeclare(env, name)
  }

  function AcceptAll(env: Env, ss: seq<Stmt>, ret: TypeInfo): bool
    decreases ss
  {
    ss == [] || (Accept(env, ss[0], ret) && AcceptAll(Effect(env, ss[0]), ss[1..], ret))
  }

  // ----- expressions the checker passes over in silence -----

  /** No empty array literal, and no non-deterministic value inside a larger expression. */
  predicate NoSilent(e: Expr)
    decreases e
  {
    match e
    case Index(_, base, index) => NoSilent(base) && NoSilent(index)
    case Unary(_, _, operand) => NoSilent(operand)
    case Paren(_, operand) => NoSilent(operand)
    case Binary(_, _, left, right) => NoSilent(left) && NoSilent(right)
    case ArrayLit(_, elements) => elements != [] && NoneSilent(elements)
    case Uzumaki(_) => false
    case _ => true
  }

  predicate NoneSilent(es: seq<Expr>)
    decreases es
  {
    es == [] || (NoSilent(es[0]) && NoneSilent(es[1..]))
  }

  predicate NoSilentValue(e: Expr)
  {
    e.Uzumaki? || NoSilent(e)
  }

  predicate NoSilentStmt(s: Stmt)
    decreases s
  {
    match s
    case Assign(left, right) => NoSilent(left) && NoSilentValue(right)
    case Block(body) => NoSilentBody(body)
    case ExprStmt(e) => NoSilent(e)
    case Return(e) => NoSilentValue(e)
    case Loop(guard, body) => (guard.Some? ==> NoSilent(guard.value)) && NoSilentBody(body)
    case If(condition, thenArm, hasElse, elseArm) =>
      NoSilent(condition) && NoSilentBody(thenArm) && (hasElse ==> NoSilentBody(elseArm))
    case VarDef(_, _, _, _, init) => init.Some? ==> NoSilentValue(init.value)
    case Assert(e) => NoSilent(e)
    case _ => true
  }

  predicate NoSilentBody(ss: seq<Stmt>)
    decreases ss
  {
    ss == [] || (NoSilentStmt(ss[0]) && NoSilentBody(ss[1..]))
  }

  // ----- declarations the checker takes on trust -----

  /** The literal of a constant suits the declared type, as inference sees it. */
  predicate ConstantFits(env: Env, e: Expr, t: TypeInfo)
    decreases e
  {
    match e
    case NumberLit(_) => t.IsNumber()
    case BoolLit(_) => t.IsBool()
    case StringLit(_) => t.kind.String?
    case UnitLit(_) => t.kind.Unit?
    case ArrayLit(_, elements) =>
      t.kind.Array? && t.kind.size == |elements| && forall x <- elements :: ConstantFits(env, x, t.kind.element)
    case _ => NoSilent(e) && Infer(env, e) == Typed(t)
  }

  /** Every type a statement declares something with is known there, and every constant's literal fits its type. */
  predicate Trustworthy(env: Env, s: Stmt)
    decreases s
  {
    match s
    case Block(body) => TrustworthyBody(Inner(env), body)
    case Loop(_, body) => TrustworthyBody(Inner(env), body)
    case If(_, thenArm, hasElse, elseArm) =>
      TrustworthyBody(Inner(env), thenArm) && (hasElse ==> TrustworthyBody(Inner(env), elseArm))
    case VarDef(_, _, _, ty, _) => KnownType(env, ty)
    case TypeDef(_, ty) => KnownType(env, ty)
    case ConstDef(_, value, _, ty) => KnownType(env, ty) && ConstantFits(env, value, ty)
    case _ => true
  }

  predicate TrustworthyBody(env: Env, ss: seq<Stmt>)
    decreases ss
  {
    ss == [] || (Trustworthy(env, ss[0]) && TrustworthyBody(Effect(env, ss[0]), ss[1..]))
  }

  lemma {:induction false} ConstantExactly(env: Env, e: Expr, t: TypeInfo)
    ensures FitsConstant(env, e, t) <==> ConstantFits(env, e, t)
    decreases e
  {
    hide HasType, Infer, NoSilent;
    match e
    case ArrayLit(_, elements) =>
      if t.kind.Array? {
        forall x <- elements
          ensures FitsConstant(env, x, t.kind.element) <==> ConstantFits(env, x, t.kind.element)
        {
          ConstantExactly(env, x, t.kind.element);
        }
      }
    case _ => TypableExactly(env, e, t);
  }

  // ----- the two systems agree exactly on what is neither silent nor trusted -----

  /** An expression is typable exactly when the checker infers its type and nothing in it is silent. */
  lemma {:induction false} TypableExactly(env: Env, e: Expr, t: TypeInfo)
    ensures HasType(env, e, t) <==> NoSilent(e) && Infer(env, e) == Typed(t)
    decreases e, 1
  {
    match e
    case Index(_, _, _) => IndexTypable(env, e, t);
    case Unary(_, op, operand) =>
      TypableExactly(env, operand, t);
      OperatorRules(And, op, t, t);
    case Paren(_, operand) => TypableExactly(env, operand, t);
    case Binary(_, _, _, _) => BinaryTypable(env, e, t);
    case ArrayLit(_, _) => ArrayTypable(env, e, t);
    case _ =>
  }

  lemma {:induction false} IndexTypable(env: Env, e: Expr, t: TypeInfo)
    requires e.Index?
    ensures HasType(env, e, t) <==> NoSilent(e) && Infer(env, e) == Typed(t)
    decreases e, 0
  {
    hide HasType, Infer, NoSilent;
    IndexRules(env, e, t);
    IndexInferred(env, e, t);
    if HasType(env, e, t) {
      var whole, u :| HasType(env, e.base, whole) && whole.kind.Array? && whole.kind.element == t
                      && HasType(env, e.index, u) && u.kind.Number?;
      TypableExactly(env, e.base, whole);
      TypableExactly(env, e.index, u);
    }
    if NoSilent(e) && Infer(env, e) == Typed(t) {
      NotSilent(env, e.index);
      TypableExactly(env, e.base, Infer(env, e.base).ty);
      TypableExactly(env, e.index, Infer(env, e.index).ty);
    }
  }

  lemma IndexRules(env: Env, e: Expr, t: TypeInfo)
    requires e.Index?
    ensures HasType(env, e, t) <==> exists whole, u :: HasType(env, e.base, whole) && whole.kind.Array?
                                                      && whole.kind.element == t
                                                      && HasType(env, e.index, u) && u.kind.Number?
    ensures NoSilent(e) <==> NoSilent(e.base) && NoSilent(e.index)
  {
  }

  lemma IndexInferred(env: Env, e: Expr, t: TypeInfo)
    requires e.Index?
    ensures var b, i := Infer(env, e.base), Infer(env, e.index);
            Infer(env, e) == Typed(t) <==>
            b.Typed? && b.ty.kind.Array? && b.ty.kind.element == t && !i.Reject? && (i.Typed? ==> i.ty.IsNumber())
  {
  }

  lemma BinaryRules(env: Env, e: Expr, t: TypeInfo)
    requires e.Binary?
    ensures HasType(env, e, t) <==>
            exists u :: HasType(env, e.left, u) && HasType(env, e.right, u) && BinaryRule(e.op, u, t)
    ensures NoSilent(e) <==> NoSilent(e.left) && NoSilent(e.right)
    ensures var l, r := Infer(env, e.left), Infer(env, e.right);
            Infer(env, e) == Typed(t) <==> l.Typed? && l == r && BinaryAllows(e.op, l.ty) && t == BinaryType(e.op, l.ty)
  {
    hide BinaryRule, BinaryAllows, BinaryType;
  }

  lemma {:induction false} BinaryTypable(env: Env, e: Expr, t: TypeInfo)
    requires e.Binary?
    ensures HasType(env, e, t) <==> NoSilent(e) && Infer(env, e) == Typed(t)
    decreases e, 0
  {
    hide HasType, Infer, NoSilent, BinaryRule, BinaryAllows, BinaryType;
    BinaryRules(env, e, t);
    if HasType(env, e, t) {
      var u :| HasType(env, e.left, u) && HasType(env, e.right, u) && BinaryRule(e.op, u, t);
      OperatorRules(e.op, Not, u, t);
      TypableExactly(env, e.left, u);
      TypableExactly(env, e.right, u);
    }
    if NoSilent(e) && Infer(env, e) == Typed(t) {
      var u := Infer(env, e.left).ty;
      OperatorRules(e.op, Not, u, t);
      TypableExactly(env, e.left, u);
      TypableExactly(env, e.right, u);
    }
  }

  lemma {:induction false} ArrayTypable(env: Env, e: Expr, t: TypeInfo)
    requires e.ArrayLit?
    ensures HasType(env, e, t) <==> NoSilent(e) && Infer(env, e) == Typed(t)
    decreases e, 0
  {
    if HasType(env, e, t) {
      AllTypableExactly(env, e.elements, t.kind.element);
      TypableExactly(env, e.elements[0], t.kind.element);
    }
    if NoSilent(e) && Infer(env, e) == Typed(t) {
      AllTypableExactly(env, e.elements, t.kind.element);
    }
  }

  lemma {:induction false} AllTypableExactly(env: Env, es: seq<Expr>, t: TypeInfo)
    ensures AllHaveType(env, es, t) <==> NoneSilent(es) && AllMatch(env, es, t)
    decreases es, 2
  {
    if es != [] {
      TypableExactly(env, es[0], t);
      AllTypableExactly(env, es[1..], t);
      if NoSilent(es[0]) {
        NotSilent(env, es[0]);
      }
    }
  }

  lemma {:induction false} NotSilent(env: Env, e: Expr)
    requires NoSilent(e)
    ensures !Infer(env, e).Silent?
    decreases e
  {
    match e
    case Index(_, base, index) => NotSilent(env, base);
    case Unary(_, op, operand) => NotSilent(env, operand);
    case Paren(_, operand) => NotSilent(env, operand);
    case Binary(_, op, left, right) =>
      NotSilent(env, left);
      NotSilent(env, right);
    case ArrayLit(_, elements) => NotSilent(env, elements[0]);
    case _ =>
  }

  lemma Determined(env: Env, e: Expr)
    ensures (exists t :: HasType(env, e, t)) <==> NoSilent(e) && Infer(env, e).Typed?
    ensures Infer(env, e).Typed? && NoSilent(e) ==> HasType(env, e, Infer(env, e).ty)
    ensures NoSilent(e) ==> !Infer(env, e).Silent?
    ensures IsCondition(env, e) <==> NoSilent(e) && AcceptsCondition(env, e)
    ensures forall t :: HasType(env, e, t) ==> NoSilent(e) && Infer(env, e) == Typed(t)
  {
    hide HasType, Infer, NoSilent;
    forall t
      ensures HasType(env, e, t) <==> NoSilent(e) && Infer(env, e) == Typed(t)
    {
      TypableExactly(env, e, t);
    }
    if NoSilent(e) {
      NotSilent(env, e);
      if Infer(env, e).Typed? {
        assert HasType(env, e, Infer(env, e).ty);
      }
    }
  }

  /**
    A statement is well typed exactly when the checker accepts it, nothing in it is silent and its declarations
    deserve trust.
   */
  lemma {:induction false} WellTypedExactly(env: Env, s: Stmt, ret: TypeInfo)
    ensures WellTyped(env, s, ret) <==> Accept(env, s, ret) && NoSilentStmt(s) && Trustworthy(env, s)
    decreases s
  {
    hide HasType, Infer, NoSilent, IsCondition, AcceptsCondition, KnownType, FitsConstant, ConstantFits;
    match s
    case Assign(left, right) =>
      Determined(env, left);
      Determined(env, right);
      if WellTyped(env, s, ret) {
        var t :| HasType(env, left, t) && Fits(env, right, t);
        assert Infer(env, left) == Typed(t) && (right.Uzumaki? || Infer(env, right) == Typed(t));
      }
      if Accept(env, s, ret) && NoSilentStmt(s) {
        assert HasType(env, left, Infer(env, left).ty) && Fits(env, right, Infer(env, left).ty);
      }
    case Block(body) => BodyExactly(Inner(env), body, ret);
    case ExprStmt(e) => Determined(env, e);
    case Return(e) => Determined(env, e);
    case Loop(guard, body) =>
      if guard.Some? {
        Determined(env, guard.value);
      }
      BodyExactly(Inner(env), body, ret);
    case If(condition, thenArm, hasElse, elseArm) =>
      Determined(env, condition);
      BodyExactly(Inner(env), thenArm, ret);
      if hasElse {
        BodyExactly(Inner(env), elseArm, ret);
      }
    case VarDef(_, _, name, ty, init) =>
      if init.Some? {
        Determined(env, init.value);
      }
    case Assert(e) => Determined(env, e);
    case ConstDef(_, value, _, ty) => ConstantExactly(env, value, ty);
    case _ =>
  }

  lemma {:induction false} BodyExactly(env: Env, ss: seq<Stmt>, ret: TypeInfo)
    ensures AllWellTyped(env, ss, ret) <==> AcceptAll(env, ss, ret) && NoSilentBody(ss) && TrustworthyBody(env, ss)
    decreases ss
  {
    if ss != [] {
      WellTypedExactly(env, ss[0], ret);
      BodyExactly(Effect(env, ss[0]), ss[1..], ret);
    }
  }

  // ----- accepted, but not well typed -----

  /** The environment of a body in which nothing has been declared. */
  const GLOBALS: Env := [Bindings(map[], {})]

  /** `let x: bool = [];`: no type fits the literal. */
  lemma SilentLiteralIsAccepted()
    ensures var s := VarDef(1, 2, "x", BOOLEAN, Some(ArrayLit(3, [])));
            Accept(GLOBALS, s, UNIT) && Trustworthy(GLOBALS, s) && !WellTyped(GLOBALS, s, UNIT)
  {
  }

  /** `let x: bool = -@;`: a non-deterministic value below an operator has no type. */
  lemma NestedUzumakiIsAccepted()
    ensures var s := VarDef(1, 2, "x", BOOLEAN, Some(Unary(3, Neg, Uzumaki(4))));
            Accept(GLOBALS, s, UNIT) && Trustworthy(GLOBALS, s) && !WellTyped(GLOBALS, s, UNIT)
  {
  }

  /** `const x: bool = 5;`: the literal is not compared with the declared type. */
  lemma MisfitConstantIsAccepted()
    ensures var s := ConstDef(1, NumberLit(2), "x", BOOLEAN);
            Accept(GLOBALS, s, UNIT) && NoSilentStmt(s) && !WellTyped(GLOBALS, s, UNIT)
  {
  }

  /** `let x: T;`: the declared type is not looked up. */
  lemma UnknownTypeIsAccepted()
    ensures var s := VarDef(1, 2, "x", TypeInfo(Custom("T"), []), Option.None);
            Accept(GLOBALS, s, UNIT) && NoSilentStmt(s) && !WellTyped(GLOBALS, s, UNIT)
  {
    assert !NamedIn(GLOBALS[1..], "T") && !NamedIn(GLOBALS[1..], LowerCase("T"));
  }
}
