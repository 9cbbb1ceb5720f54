/** The checker as it runs: errors accumulate, repeated unknown names are reported once, node types are recorded. */
module TypeChecker {
  import opened Decoded
  import opened Types
  import opened ScopeTrees
  import opened SymbolTables
  import opened Typing
  import opened Complaints

  type NodeTypes = map<nat, TypeInfo>

  ghost predicate Extends(a: NodeTypes, b: NodeTypes)
  {
    forall k <- a :: k in b && b[k] == a[k]
  }

  // ----- node ids -----

  ghost function Ids(e: Expr): set<nat>
    decreases e
  {
    {e.id} +
    match e
    case Index(_, base, index) => Ids(base) + Ids(index)
    case Unary(_, _, operand) => Ids(operand)
    case Paren(_, operand) => Ids(operand)
    case Binary(_, _, left, right) => Ids(left) + Ids(right)
    case ArrayLit(_, elements) => AllIds(elements)
    case _ => {}
  }

  ghost function AllIds(es: seq<Expr>): set<nat>
    decreases es
  {
    if es == [] then {} else Ids(es[0]) + AllIds(es[1..])
  }

  /** Every node of the expression has an id of its own. */
  ghost predicate Distinct(e: Expr)
    decreases e
  {
    match e
    case Index(id, base, index) =>
      id !in Ids(base) + Ids(index) && Ids(base) !! Ids(index) && Distinct(base) && Distinct(index)
    case Unary(id, _, operand) => id !in Ids(operand) && Distinct(operand)
    case Paren(id, operand) => id !in Ids(operand) && Distinct(operand)
    case Binary(id, _, left, right) =>
      id !in Ids(left) + Ids(right) && Ids(left) !! Ids(right) && Distinct(left) && Distinct(right)
    case ArrayLit(id, elements) => id !in AllIds(elements) && AllDistinct(elements)
    case _ => true
  }

  ghost predicate AllDistinct(es: seq<Expr>)
    decreases es
  {
    es == [] || (Distinct(es[0]) && Ids(es[0]) !! AllIds(es[1..]) && AllDistinct(es[1..]))
  }

  /** Every node of an expression carries the type the type system gives it. */
  ghost predicate Annotated(types: NodeTypes, env: Env, e: Expr)
    decreases e, 1
  {
    e.id in types && HasType(env, e, types[e.id]) && PartsAnnotated(types, env, e)
  }

  ghost predicate PartsAnnotated(types: NodeTypes, env: Env, e: Expr)
    decreases e, 0
  {
    match e
    case Index(_, base, index) => Annotated(types, env, base) && Annotated(types, env, index)
    case Unary(_, _, operand) => Annotated(types, env, operand)
    case Paren(_, operand) => Annotated(types, env, operand)
    case Binary(_, _, left, right) => Annotated(types, env, left) && Annotated(types, env, right)
    case ArrayLit(_, elements) => AllAnnotated(types, env, elements)
    case _ => true
  }

  /** Recording the inferred type of a node completes its annotation. */
  lemma Annotate(types: NodeTypes, env: Env, e: Expr)
    requires NoSilent(e) && e.id in types && Infer(env, e) == Typed(types[e.id]) && PartsAnnotated(types, env, e)
    ensures Annotated(types, env, e)
  {
    TypableExactly(env, e, types[e.id]);
  }

  ghost predicate AllAnnotated(types: NodeTypes, env: Env, es: seq<Expr>)
    decreases es
  {
    es == [] || (Annotated(types, env, es[0]) && AllAnnotated(types, env, es[1..]))
  }

  lemma {:induction false} StillAnnotated(a: NodeTypes, b: NodeTypes, env: Env, e: Expr)
    requires Annotated(a, env, e) && Extends(a, b)
    ensures Annotated(b, env, e)
    decreases e
  {
    hide HasType;
    match e
    case Index(_, base, index) =>
      StillAnnotated(a, b, env, base);
      StillAnnotated(a, b, env, index);
    case Unary(_, _, operand) => StillAnnotated(a, b, env, operand);
    case Paren(_, operand) => StillAnnotated(a, b, env, operand);
    case Binary(_, _, left, right) =>
      StillAnnotated(a, b, env, left);
      StillAnnotated(a, b, env, right);
    case ArrayLit(_, elements) => AllStillAnnotated(a, b, env, elements);
    case _ =>
  }

  lemma {:induction false} AllStillAnnotated(a: NodeTypes, b: NodeTypes, env: Env, es: seq<Expr>)
    requires AllAnnotated(a, env, es) && Extends(a, b)
    ensures AllAnnotated(b, env, es)
    decreases es
  {
    hide Annotated;
    if es != [] {
      StillAnnotated(a, b, env, es[0]);
      AllStillAnnotated(a, b, env, es[1..]);
    }
  }

  /** `b` has the errors of `a`, and perhaps more after them. */
  ghost predicate Grows(a: seq<Error>, b: seq<Error>)
  {
    |a| <= |b| && forall i :: 0 <= i < |a| ==> b[i] == a[i]
  }

  lemma ToldSplit(errors: seq<Error>, whole: TypeInfo, index: Option<TypeInfo>)
    ensures var bad := index.Some? && !index.value.kind.Number?;
            var after := if bad then Told(errors, [ArrayIndexNotNumeric(index.value)]) else errors;
            Told(errors, IndexComplaints(whole, index)) ==
            if whole.kind.Array? then after else Told(after, [ExpectedArrayType(whole)])
  {
    hide Told;
    ToldNone(errors);
    var first := if index.Some? then When(!index.value.kind.Number?, ArrayIndexNotNumeric(index.value)) else [];
    ToldJoin(errors, first, When(!whole.kind.Array?, ExpectedArrayType(whole)));
    ToldNone(Told(errors, first));
  }

  lemma ToldOperands(errors: seq<Error>, op: BinaryOp, l: TypeInfo, r: TypeInfo)
    ensures var unequal, invalid := BinaryOperandTypeMismatch(op, l, r), InvalidBinaryOperand(op, l, r);
            var once := if l != r then Told(errors, [unequal]) else errors;
            Told(errors, OperandComplaints(op, l, r)) ==
            if Logical(op) then
              if l.IsBool() && r.IsBool() then once else Told(once, [invalid])
            else if Comparison(op) then once
            else
              var then' := if !l.IsNumber() || !r.IsNumber() then Told(once, [invalid]) else once;
              if l != r then Told(then', [unequal]) else then'
  {
    hide Told;
    var unequal, invalid := BinaryOperandTypeMismatch(op, l, r), InvalidBinaryOperand(op, l, r);
    var first := When(l != r, unequal);
    var wrong := if Logical(op) then !l.IsBool() || !r.IsBool() else !l.IsNumber() || !r.IsNumber();
    var second := When(wrong, invalid);
    ToldNone(errors);
    ToldNone(Told(errors, first));
    ToldNone(Told(Told(errors, first), second));
    ToldJoin(errors, first, second);
    ToldJoin(errors, first + second, first);
    assert op.And? || op.Or? ==> OperandComplaints(op, l, r) == first + second;
    assert !Logical(op) && !Comparison(op) ==> OperandComplaints(op, l, r) == first + second + first;
  }

  lemma HeardElements(before: seq<Error>, env: Env, es: seq<Expr>, t: TypeInfo)
    ensures var after := Told(before, ElementComplaints(env, es, t));
            Grows(before, after) && (after == [] <==> before == [] && AllMatch(env, es, t))
  {
    hide ElementComplaints, AllMatch;
    ElementsExactly(env, es, t);
    ToldNothing(before, ElementComplaints(env, es, t));
  }

  lemma ElementFacts(env: Env, e: Expr, t: TypeInfo)
    ensures var f := Examine(env, e);
            ElementComplaints(env, [e], t) == f.complaints + MismatchComplaints(f.found, t)
  {
    hide Examine;
    assert [e][1..] == [] && ElementComplaints(env, [], t) == [];
  }

  lemma HeardType(before: seq<Error>, env: Env, ty: TypeInfo)
    ensures var after := Told(before, TypeComplaints(env, ty));
            Grows(before, after) && (after == [] <==> before == [] && KnownType(env, ty))
  {
    hide TypeComplaints, KnownType;
    TypeComplaintsExactly(env, ty);
    ToldNothing(before, TypeComplaints(env, ty));
  }

  lemma NameFact(env: Env, name: string)
    ensures NameComplaints(env, [name]) == When(!KnownName(env, name), UnknownType(name))
  {
    hide KnownName;
    assert [name][1..] == [] && NameComplaints(env, []) == [];
  }

  lemma NameFacts(env: Env, names: seq<string>, i: nat)
    requires i <= |names|
    ensures i == |names| ==> NameComplaints(env, names[i..]) == []
    ensures i < |names| ==>
              NameComplaints(env, names[i..]) == NameComplaints(env, [names[i]]) + NameComplaints(env, names[i + 1..])
  {
    hide KnownName;
    if i < |names| {
      assert names[i..][0] == names[i] && names[i..][1..] == names[i + 1..] && [names[i]][1..] == [];
    }
  }

  /** What a list of errors shows after an expression has had its say. */
  lemma Heard(before: seq<Error>, env: Env, e: Expr)
    ensures var after := Told(before, Examine(env, e).complaints);
            && Grows(before, after)
            && (after == [] <==> before == [] && !Infer(env, e).Reject?)
            && (after == [] ==> Examine(env, e).found == AsOption(Infer(env, e)))
    ensures NoSilent(e) ==> !Infer(env, e).Silent?
  {
    hide Infer, Examine, NoSilent;
    ExamineExactly(env, e);
    ToldNothing(before, Examine(env, e).complaints);
    NotSilentIf(env, e);
  }

  lemma HeardStatement(before: seq<Error>, env: Env, s: Stmt, ret: TypeInfo)
    ensures var after := Told(before, StatementComplaints(env, s, ret));
            Grows(before, after) && (after == [] <==> before == [] && Accept(env, s, ret))
  {
    hide StatementComplaints, Accept;
    StatementExactly(env, s, ret);
    ToldNothing(before, StatementComplaints(env, s, ret));
  }

  lemma HeardBody(before: seq<Error>, env: Env, ss: seq<Stmt>, ret: TypeInfo)
    ensures var after := Told(before, BodyComplaints(env, ss, ret));
            Grows(before, after) && (after == [] <==> before == [] && AcceptAll(env, ss, ret))
  {
    hide BodyComplaints, AcceptAll;
    BodySaysExactly(env, ss, ret);
    ToldNothing(before, BodyComplaints(env, ss, ret));
  }

  class Checker {
    const table: SymbolTable
    var errors: seq<Error>
    var reported: set<string>
    var nodeTypes: NodeTypes

    constructor (table: SymbolTable)
      ensures this.table == table && errors == [] && nodeTypes == map[] && Consistent()
    {
      this.table, errors, reported, nodeTypes := table, [], {}, map[];
    }

    /** Exactly the keys of the recorded errors have been reported, so silence never hides a first failure. */
    ghost predicate Consistent()
      reads this
    {
      reported == Keys(errors)
    }

    ghost predicate Valid()
      reads this, table
    {
      Consistent() && table.Valid()
    }

    /** What an inference of `e` under `env`, started with `before` errors and `types`, ends in. */
    ghost predicate Judged(before: seq<Error>, types: NodeTypes, env: Env, e: Expr, r: Option<TypeInfo>)
      reads this
    {
      && errors == Told(before, Examine(env, e).complaints) && r == Examine(env, e).found
      && Consistent() && Grows(before, errors) && Extends(types, nodeTypes) && nodeTypes.Keys <= types.Keys + Ids(e)
      && (errors == [] <==> before == [] && !Infer(env, e).Reject?)
      && (errors == [] ==> r == AsOption(Infer(env, e)))
      && (errors == [] && NoSilent(e) ==> Annotated(nodeTypes, env, e))
    }

    method Push(error: Error)
      requires Consistent() && KeyOf(error).None?
      modifies this`errors
      ensures Consistent() && errors != [] && Grows(old(errors), errors) && errors == old(errors) + [error]
      ensures errors == Told(old(errors), [error])
    {
      ToldOne(errors, error);
      errors := errors + [error];
      assert errors[..|errors| - 1] == old(errors);
    }

    method PushErrorDedup(error: Error)
      requires Consistent()
      modifies this`errors, this`reported
      ensures Consistent() && errors != [] && Grows(old(errors), errors)
      ensures KeyOf(error).Some? && KeyOf(error).value in old(reported) ==> errors == old(errors)
      ensures KeyOf(error).None? || KeyOf(error).value !in old(reported) ==> errors == old(errors) + [error]
      ensures errors == Told(old(errors), [error])
    {
      ToldOne(errors, error);
      var key := KeyOf(error);
      if key.Some? {
        if key.value in reported {
          return;
        }
        reported := reported + {key.value};
      }
      errors := errors + [error];
      assert errors[..|errors| - 1] == old(errors);
    }

    function GetNodeType(id: nat): Option<TypeInfo>
      reads this
    {
      if id in nodeTypes then Some(nodeTypes[id]) else Option.None
    }

    method SetNodeType(id: nat, ty: TypeInfo)
      requires id !in nodeTypes
      modifies this`nodeTypes
      ensures nodeTypes == old(nodeTypes)[id := ty] && Extends(old(nodeTypes), nodeTypes)
    {
      nodeTypes := nodeTypes[id := ty];
    }

    method InferExpression(e: Expr) returns (r: Option<TypeInfo>)
      requires Valid() && Distinct(e) && Ids(e) !! nodeTypes.Keys
      modifies this`errors, this`reported, this`nodeTypes
      ensures Judged(old(errors), old(nodeTypes), table.Visible(), e, r)
      decreases e, 1
    {
      match e {
        case Index(_, _, _) => r := InferIndex(e);
        case Unary(_, _, _) => r := InferUnary(e);
        case Paren(_, _) => r := InferParen(e);
        case Binary(_, _, _, _) => r := InferBinary(e);
        case ArrayLit(_, _) => r := InferArrayLit(e);
        case _ => r := InferAtom(e);
      }
    }

    method InferAtom(e: Expr) returns (r: Option<TypeInfo>)
      requires e.BoolLit? || e.StringLit? || e.NumberLit? || e.UnitLit? || e.Ident? || e.Uzumaki?
      requires Valid() && Distinct(e) && Ids(e) !! nodeTypes.Keys
      modifies this`errors, this`reported, this`nodeTypes
      ensures Judged(old(errors), old(nodeTypes), table.Visible(), e, r)
      decreases e, 0
    {
      hide Annotated, HasType, Keys, Told, SymbolTable.Valid, SymbolTable.Visible, SymbolTable.Chain, Lookup;
      ghost var env := table.Visible();
      ToldNone(errors);
      Heard(errors, env, e);
      match e {
        case BoolLit(_) => r := Some(BOOLEAN);
        case StringLit(_) => r := Some(STRING);
        case NumberLit(id) =>
          r := GetNodeType(id);
          if r.Some? {
            return;
          }
          r := Some(INT32);
        case UnitLit(_) => r := Some(UNIT);
        case Ident(_, name) =>
          r := table.LookupVariable(name);
          if r.None? {
            PushErrorDedup(UnknownIdentifier(name));
            return;
          }
        case Uzumaki(id) =>
          r := GetNodeType(id);
          return;
      }
      SetNodeType(e.id, r.value);
      Annotate(nodeTypes, env, e);
    }

    method InferIndex(e: Expr) returns (r: Option<TypeInfo>)
      requires e.Index? && Valid() && Distinct(e) && Ids(e) !! nodeTypes.Keys
      modifies this`errors, this`reported, this`nodeTypes
      ensures Judged(old(errors), old(nodeTypes), table.Visible(), e, r)
      decreases e, 0
    {
      hide Annotated, HasType, Keys, Told, SymbolTable.Valid, SymbolTable.Visible, SymbolTable.Chain, Lookup, Ids,
           Distinct, Infer, NoSilent, Examine;
      ghost var env, before := table.Visible(), errors;
      Heard(before, env, e);
      IndexFacts(env, e);
      r := GetNodeType(e.id);
      if r.Some? {
        return;
      }
      var base := InferExpression(e.base);
      ghost var types1 := nodeTypes;
      if base.None? {
        return Option.None;
      }
      var index := InferExpression(e.index);
      ghost var types2, said := nodeTypes, Examine(env, e.base).complaints + Examine(env, e.index).complaints;
      ToldJoin(before, Examine(env, e.base).complaints, Examine(env, e.index).complaints);
      ToldJoin(before, said, IndexComplaints(base.value, index));
      ToldSplit(errors, base.value, index);
      if index.Some? && !index.value.IsNumber() {
        Push(ArrayIndexNotNumeric(index.value));
      }
      if base.value.kind.Array? {
        SetNodeType(e.id, base.value.kind.element);
        r := Some(base.value.kind.element);
        if errors == [] && NoSilent(e) {
          StillAnnotated(types1, nodeTypes, env, e.base);
          StillAnnotated(types2, nodeTypes, env, e.index);
          Annotate(nodeTypes, env, e);
        }
      } else {
        Push(ExpectedArrayType(base.value));
        r := Option.None;
      }
    }

    method InferUnary(e: Expr) returns (r: Option<TypeInfo>)
      requires e.Unary? && Valid() && Distinct(e) && Ids(e) !! nodeTypes.Keys
      modifies this`errors, this`reported, this`nodeTypes
      ensures Judged(old(errors), old(nodeTypes), table.Visible(), e, r)
      decreases e, 0
    {
      hide Annotated, HasType, Keys, Told, SymbolTable.Valid, SymbolTable.Visible, SymbolTable.Chain, Lookup;
      hide Infer, UnaryRule, UnaryAllows;
      ghost var env, before := table.Visible(), errors;
      Heard(before, env, e);
      r := InferExpression(e.operand);
      ghost var types := nodeTypes;
      if r.Some? {
        OperatorRules(And, e.unary, r.value, r.value);
        ToldJoin(before, Examine(env, e.operand).complaints, [InvalidUnaryOperand(e.unary, r.value)]);
        if UnaryAllows(e.unary, r.value) {
          SetNodeType(e.id, r.value);
          if errors == [] && NoSilent(e) {
            StillAnnotated(types, nodeTypes, env, e.operand);
            Annotate(nodeTypes, env, e);
          }
          return;
        }
        Push(InvalidUnaryOperand(e.unary, r.value));
      }
      r := Option.None;
    }

    method InferParen(e: Expr) returns (r: Option<TypeInfo>)
      requires e.Paren? && Valid() && Distinct(e) && Ids(e) !! nodeTypes.Keys
      modifies this`errors, this`reported, this`nodeTypes
      ensures Judged(old(errors), old(nodeTypes), table.Visible(), e, r)
      decreases e, 0
    {
      hide Annotated, HasType, Keys, Told, SymbolTable.Valid, SymbolTable.Visible, SymbolTable.Chain, Lookup, Infer;
      ghost var env := table.Visible();
      Heard(errors, env, e);
      r := InferExpression(e.operand);
      ghost var types := nodeTypes;
      if r.Some? {
        SetNodeType(e.id, r.value);
        if errors == [] && NoSilent(e) {
          StillAnnotated(types, nodeTypes, env, e.operand);
          Annotate(nodeTypes, env, e);
        }
      }
    }

    method InferBinary(e: Expr) returns (r: Option<TypeInfo>)
      requires e.Binary? && Valid() && Distinct(e) && Ids(e) !! nodeTypes.Keys
      modifies this`errors, this`reported, this`nodeTypes
      ensures Judged(old(errors), old(nodeTypes), table.Visible(), e, r)
      decreases e, 0
    {
      hide Annotated, HasType, Keys, Told, SymbolTable.Valid, SymbolTable.Visible, SymbolTable.Chain, Lookup, Ids,
           Distinct, Infer, NoSilent, BinaryAllows, BinaryType, Examine, OperandComplaints, Combined;
      ghost var env, before := table.Visible(), errors;
      Heard(before, env, e);
      BinaryFacts(env, e);
      r := GetNodeType(e.id);
      if r.Some? {
        return;
      }
      var left := InferExpression(e.left);
      ghost var types1 := nodeTypes;
      var right := InferExpression(e.right);
      ghost var types2, said := nodeTypes, Examine(env, e.left).complaints + Examine(env, e.right).complaints;
      ToldJoin(before, Examine(env, e.left).complaints, Examine(env, e.right).complaints);
      if left.None? || right.None? {
        return Option.None;
      }
      ToldJoin(before, said, OperandComplaints(e.op, left.value, right.value));
      r := Combine(e.op, left.value, right.value);
      if r.None? {
        return;
      }
      SetNodeType(e.id, r.value);
      if errors == [] && NoSilent(e) {
        StillAnnotated(types1, nodeTypes, env, e.left);
        StillAnnotated(types2, nodeTypes, env, e.right);
        Annotate(nodeTypes, env, e);
      }
    }

    /** The type of a binary expression whose operands have types; mismatches are reported and recovered from. */
    method Combine(op: BinaryOp, left: TypeInfo, right: TypeInfo) returns (r: Option<TypeInfo>)
      requires Consistent()
      modifies this`errors
      ensures Consistent() && Grows(old(errors), errors)
      ensures left == right && BinaryAllows(op, left) ==> errors == old(errors) && r == Some(BinaryType(op, left))
      ensures !(left == right && BinaryAllows(op, left)) ==> errors != []
      ensures errors == Told(old(errors), OperandComplaints(op, left, right)) && r == Combined(op, left, right)
    {
      hide Keys, Told;
      ToldOperands(errors, op, left, right);
      if left != right {
        Push(BinaryOperandTypeMismatch(op, left, right));
      }
      if Logical(op) {
        if left.IsBool() && right.IsBool() {
          return Some(BOOLEAN);
        }
        Push(InvalidBinaryOperand(op, left, right));
        return Option.None;
      } else if Comparison(op) {
        return Some(BOOLEAN);
      }
      if !left.IsNumber() || !right.IsNumber() {
        Push(InvalidBinaryOperand(op, left, right));
      }
      if left != right {
        Push(BinaryOperandTypeMismatch(op, left, right));
      }
      r := Some(left);
    }

    method InferArrayLit(e: Expr) returns (r: Option<TypeInfo>)
      requires e.ArrayLit? && Valid() && Distinct(e) && Ids(e) !! nodeTypes.Keys
      modifies this`errors, this`reported, this`nodeTypes
      ensures Judged(old(errors), old(nodeTypes), table.Visible(), e, r)
      decreases e, 0
    {
      hide Annotated, HasType, Keys, Told, SymbolTable.Valid, SymbolTable.Visible, SymbolTable.Chain, Lookup, Ids,
           Distinct, Infer, NoSilent, AllMatch, AllIds, AllDistinct, NoneSilent, Examine, ElementComplaints;
      ghost var env, before := table.Visible(), errors;
      Heard(before, env, e);
      ArrayFacts(env, e);
      ToldNone(errors);
      r := GetNodeType(e.id);
      if r.Some? {
        return;
      }
      var es := e.elements;
      if es == [] {
        return Option.None;
      }
      assert es[0..] == es;
      AllFacts(env, es, 0, INT32);
      var first := InferExpression(es[0]);
      ghost var types1 := nodeTypes;
      if first.None? {
        return Option.None;
      }
      AllFacts(env, es, 0, first.value);
      ToldJoin(before, Examine(env, es[0]).complaints, ElementComplaints(env, es[1..], first.value));
      InferElements(es[1..], first.value);
      ghost var types2 := nodeTypes;
      r := Some(TypeInfo(Array(first.value, |es|), []));
      SetNodeType(e.id, r.value);
      if errors == [] && NoSilent(e) {
        StillAnnotated(types1, nodeTypes, env, es[0]);
        AllStillAnnotated(types2, nodeTypes, env, es[1..]);
        Annotate(nodeTypes, env, e);
      }
    }

    /** The elements after the first, each compared with its type `t`. */
    method InferElements(es: seq<Expr>, t: TypeInfo)
      requires Valid() && AllDistinct(es) && AllIds(es) !! nodeTypes.Keys
      modifies this`errors, this`reported, this`nodeTypes
      ensures Consistent() && Grows(old(errors), errors) && Extends(old(nodeTypes), nodeTypes)
      ensures nodeTypes.Keys <= old(nodeTypes.Keys) + AllIds(es)
      ensures errors == Told(old(errors), ElementComplaints(table.Visible(), es, t))
      ensures errors == [] <==> old(errors) == [] && AllMatch(table.Visible(), es, t)
      ensures errors == [] && NoneSilent(es) ==> AllAnnotated(nodeTypes, table.Visible(), es)
      decreases es, 0
    {
      hide Annotated, HasType, Keys, Told, SymbolTable.Valid, SymbolTable.Visible, SymbolTable.Chain, Lookup, Ids;
      hide Distinct, Infer, NoSilent, AllMatch, AllIds, AllDistinct, NoneSilent, AllAnnotated;
      hide Examine, ElementComplaints, Grows;
      ghost var env := table.Visible();
      assert es[0..] == es;
      HeardElements(errors, env, es, t);
      for i := 0 to |es|
        invariant Consistent()
        invariant Told(errors, ElementComplaints(env, es[i..], t)) == Told(old(errors), ElementComplaints(env, es, t))
        invariant Extends(old(nodeTypes), nodeTypes) && nodeTypes.Keys <= old(nodeTypes.Keys) + AllIds(es)
        invariant AllDistinct(es[i..]) && AllIds(es[i..]) <= AllIds(es) && AllIds(es[i..]) !! nodeTypes.Keys
        invariant NoneSilent(es) ==> NoneSilent(es[i..])
        invariant errors == [] && AllMatch(env, es[i..], t) <==> old(errors) == [] && AllMatch(env, es, t)
        invariant errors == [] && NoneSilent(es) ==> forall j :: 0 <= j < i ==> Annotated(nodeTypes, env, es[j])
      {
        ghost var types := nodeTypes;
        AllFacts(env, es, i, t);
        NotSilentIf(env, es[i]);
        ToldJoin(errors, ElementComplaints(env, [es[i]], t), ElementComplaints(env, es[i + 1..], t));
        InferElement(es[i], t);
        if errors == [] && NoneSilent(es) {
          forall j | 0 <= j < i
            ensures Annotated(nodeTypes, env, es[j])
          {
            StillAnnotated(types, nodeTypes, env, es[j]);
          }
        }
      }
      AllFacts(env, es, |es|, t);
      ToldNone(errors);
      if errors == [] && NoneSilent(es) {
        Collect(nodeTypes, env, es);
      }
    }

    method InferElement(e: Expr, t: TypeInfo)
      requires Valid() && Distinct(e) && Ids(e) !! nodeTypes.Keys
      modifies this`errors, this`reported, this`nodeTypes
      ensures Consistent() && Grows(old(errors), errors) && Extends(old(nodeTypes), nodeTypes)
      ensures nodeTypes.Keys <= old(nodeTypes.Keys) + Ids(e)
      ensures errors == Told(old(errors), ElementComplaints(table.Visible(), [e], t))
      ensures errors == [] <==> old(errors) == [] && Matches(Infer(table.Visible(), e), t)
      ensures errors == [] && NoSilent(e) ==> Annotated(nodeTypes, table.Visible(), e)
      decreases e, 2
    {
      hide Annotated, HasType, Keys, Told, SymbolTable.Valid, SymbolTable.Visible, SymbolTable.Chain, Lookup, Ids;
      hide Distinct, Infer, NoSilent, Examine;
      ghost var before, f := errors, Examine(table.Visible(), e);
      ElementFacts(table.Visible(), e, t);
      ToldJoin(before, f.complaints, MismatchComplaints(f.found, t));
      var element := InferExpression(e);
      ToldNone(errors);
      if element.Some? && element.value != t {
        Push(ArrayElementTypeMismatch(t, element.value));
      }
    }

    /** Reports the names in a type that no scope in sight declares. */
    method ValidateType(ty: TypeInfo)
      requires Valid()
      modifies this`errors, this`reported
      ensures errors == Told(old(errors), TypeComplaints(table.Visible(), ty))
      ensures Consistent() && Grows(old(errors), errors)
      ensures errors == [] <==> old(errors) == [] && KnownType(table.Visible(), ty)
      decreases ty
    {
      hide Keys, Told, SymbolTable.Valid, SymbolTable.Visible, NameComplaints;
      ghost var env, before := table.Visible(), errors;
      HeardType(before, env, ty);
      ToldNone(errors);
      match ty.kind {
        case Array(element, _) => ValidateType(element);
        case Custom(name) => ValidateName(name);
        case Generic(name) =>
          var names := ty.typeParams;
          ToldJoin(before, NameComplaints(env, [name]), NameComplaints(env, names));
          ValidateName(name);
          assert names[0..] == names;
          for i := 0 to |names|
            invariant Consistent()
            invariant Told(errors, NameComplaints(env, names[i..])) == Told(before, TypeComplaints(env, ty))
          {
            NameFacts(env, names, i);
            ToldJoin(errors, NameComplaints(env, [names[i]]), NameComplaints(env, names[i + 1..]));
            ValidateName(names[i]);
          }
          NameFacts(env, names, |names|);
          ToldNone(errors);
        case _ =>
      }
    }

    method ValidateName(name: string)
      requires Valid()
      modifies this`errors, this`reported
      ensures errors == Told(old(errors), NameComplaints(table.Visible(), [name]))
      ensures Consistent() && Grows(old(errors), errors)
      ensures errors == [] <==> old(errors) == [] && KnownName(table.Visible(), name)
    {
      hide Keys, Told, SymbolTable.Valid, SymbolTable.Visible, KnownName;
      NameFact(table.Visible(), name);
      ToldNone(errors);
      var known := table.LookupType(name);
      if !known {
        PushErrorDedup(UnknownType(name));
      }
    }

    /** What checking a statement, started under `env`, ends in. */
    ghost predicate JudgedStmt(before: seq<Error>, types: NodeTypes, env: Env, s: Stmt, ret: TypeInfo)
      reads this
    {
      && errors == Told(before, StatementComplaints(env, s, ret))
      && Consistent() && Grows(before, errors) && Extends(types, nodeTypes) && nodeTypes.Keys <= types.Keys + StmtIds(s)
      && (errors == [] <==> before == [] && Accept(env, s, ret))
      && (errors == [] && NoSilentStmt(s) ==> AnnotatedStmt(nodeTypes, env, s, ret))
    }

    ghost predicate JudgedBody(before: seq<Error>, types: NodeTypes, env: Env, ss: seq<Stmt>, ret: TypeInfo)
      reads this
    {
      && errors == Told(before, BodyComplaints(env, ss, ret))
      && Consistent() && Grows(before, errors) && Extends(types, nodeTypes)
      && nodeTypes.Keys <= types.Keys + BodyIds(ss)
      && (errors == [] <==> before == [] && AcceptAll(env, ss, ret))
      && (errors == [] && NoSilentBody(ss) ==> AnnotatedBody(nodeTypes, env, ss, ret))
    }

    /**
      Whatever a statement is and however it fails, the cursor comes back and only the innermost scope can have
      grown.
     */
    method InferStatement(s: Stmt, ret: TypeInfo)
      requires Valid() && DistinctStmt(s) && StmtIds(s) !! nodeTypes.Keys
      modifies this`errors, this`reported, this`nodeTypes, table
      ensures table.Valid() && table.Chain() == old(table.Chain()) && table.Visible() == Effect(old(table.Visible()), s)
      ensures JudgedStmt(old(errors), old(nodeTypes), old(table.Visible()), s, ret)
      decreases s, 1
    {
      hide Annotated, HasType, Keys, Told, SymbolTable.Valid, SymbolTable.Visible, SymbolTable.Chain, Infer, Ids;
      hide Distinct, NoSilent, Declared, Named, AcceptAll, AnnotatedBody, Examine, BodyComplaints;
      HeardStatement(errors, table.Visible(), s, ret);
      ToldNone(errors);
      match s {
        case Assign(_, _) => InferAssign(s, ret);
        case Block(body) => InferBlock(body, ret);
        case ExprStmt(e) =>
          NotSilentIf(table.Visible(), e);
          var _ := InferExpression(e);
        case Return(e) => InferReturn(s, ret);
        case Loop(guard, body) => InferLoop(s, ret);
        case Break =>
        case If(_, _, _, _) => InferIf(s, ret);
        case VarDef(_, _, _, _, _) => InferVarDef(s, ret);
        case TypeDef(name, ty) =>
          var ok := table.RegisterType(name, ty);
          if !ok {
            Push(RegistrationFailed(OfType, name));
          }
        case Assert(e) => InferCondition(e);
        case ConstDef(id, value, name, ty) =>
          var ok := table.PushVariableToScope(name, ty);
          if !ok {
            Push(RegistrationFailed(OfVariable, name));
          }
          SetNodeType(value.id, ty);
          SetNodeType(id, ty);
      }
    }

    method InferAssign(s: Stmt, ret: TypeInfo)
      requires s.Assign? && Valid() && DistinctStmt(s) && StmtIds(s) !! nodeTypes.Keys
      modifies this`errors, this`reported, this`nodeTypes
      ensures JudgedStmt(old(errors), old(nodeTypes), table.Visible(), s, ret)
      decreases s, 0
    {
      hide Annotated, HasType, Keys, Told, SymbolTable.Valid, SymbolTable.Visible, SymbolTable.Chain, Infer, Distinct;
      hide NoSilent, Lookup, Examine;
      ghost var env, before := table.Visible(), errors;
      ghost var l, r := Examine(env, s.left), Examine(env, s.right);
      HeardStatement(before, env, s, ret);
      NotSilentIf(env, s.left);
      NotSilentIf(env, s.right);
      var target := InferExpression(s.left);
      ghost var types := nodeTypes;
      ToldNone(errors);
      if s.right.Uzumaki? {
        UzumakiIds(s.right);
        ToldJoin(before, l.complaints, When(l.found.None?, CannotInferUzumakiType));
        if target.Some? {
          SetNodeType(s.right.id, target.value);
        } else {
          Push(CannotInferUzumakiType);
        }
      } else {
        var value := InferExpression(s.right);
        ToldJoin(before, l.complaints, r.complaints);
        ToldNone(errors);
        assert l.complaints + r.complaints + [] == l.complaints + r.complaints;
        if target.Some? && value.Some? {
          ToldJoin(before, l.complaints + r.complaints,
                   When(target.value != value.value, TypeMismatch(target.value, value.value, InAssignment)));
        }
        if target.Some? && value.Some? && target.value != value.value {
          Push(TypeMismatch(target.value, value.value, InAssignment));
        }
      }
      if errors == [] && NoSilentStmt(s) {
        StillAnnotated(types, nodeTypes, env, s.left);
      }
    }

    method InferReturn(s: Stmt, ret: TypeInfo)
      requires s.Return? && Valid() && DistinctStmt(s) && StmtIds(s) !! nodeTypes.Keys
      modifies this`errors, this`reported, this`nodeTypes
      ensures JudgedStmt(old(errors), old(nodeTypes), table.Visible(), s, ret)
      decreases s, 0
    {
      hide Annotated, HasType, Keys, Told, SymbolTable.Valid, SymbolTable.Visible, SymbolTable.Chain, Infer, Distinct;
      hide NoSilent, Lookup, Examine;
      ghost var env, before := table.Visible(), errors;
      HeardStatement(before, env, s, ret);
      NotSilentIf(env, s.e);
      ToldNone(errors);
      if s.e.Uzumaki? {
        UzumakiIds(s.e);
        SetNodeType(s.e.id, ret);
      } else {
        var value := InferExpression(s.e);
        var found := if value.Some? then value.value else UNIT;
        ToldJoin(before, Examine(env, s.e).complaints, When(ret != found, TypeMismatch(ret, found, InReturn)));
        ToldNone(errors);
        if ret != found {
          Push(TypeMismatch(ret, found, InReturn));
        }
      }
    }

    method InferCondition(e: Expr)
      requires Valid() && Distinct(e) && Ids(e) !! nodeTypes.Keys
      modifies this`errors, this`reported, this`nodeTypes
      ensures Consistent() && Grows(old(errors), errors) && Extends(old(nodeTypes), nodeTypes)
      ensures nodeTypes.Keys <= old(nodeTypes.Keys) + Ids(e)
      ensures errors == Told(old(errors), ConditionComplaints(table.Visible(), e))
      ensures errors == [] <==> old(errors) == [] && AcceptsCondition(table.Visible(), e)
      ensures errors == [] && NoSilent(e) ==> Annotated(nodeTypes, table.Visible(), e)
    {
      hide Annotated, HasType, Keys, Told, SymbolTable.Valid, SymbolTable.Visible, SymbolTable.Chain, Infer, Distinct;
      hide NoSilent, Lookup, Examine;
      ghost var env, before := table.Visible(), errors;
      var t := InferExpression(e);
      ghost var found := if t.Some? then t.value else UNIT;
      ToldJoin(before, Examine(env, e).complaints, When(found.kind != Bool, TypeMismatch(BOOLEAN, found, InCondition)));
      ToldNone(errors);
      if t.None? || !t.value.kind.Bool? {
        Push(TypeMismatch(BOOLEAN, if t.Some? then t.value else UNIT, InCondition));
      }
    }

    /** Statements in a scope of their own; afterwards the scope stack is what it was. */
    method InferBlock(ss: seq<Stmt>, ret: TypeInfo)
      requires Valid() && DistinctBody(ss) && BodyIds(ss) !! nodeTypes.Keys
      modifies this`errors, this`reported, this`nodeTypes, table
      ensures table.Valid() && table.Chain() == old(table.Chain()) && table.Visible() == old(table.Visible())
      ensures JudgedBody(old(errors), old(nodeTypes), Inner(old(table.Visible())), ss, ret)
      decreases ss, 1
    {
      hide Keys, Told, SymbolTable.Valid, SymbolTable.Visible, SymbolTable.Chain;
      ghost var outer, chain := table.Visible(), table.Chain();
      var id := table.PushScope();
      InferBody(ss, ret);
      assert table.Chain() == [id] + chain;
      table.PopScope();
    }

    method InferBody(ss: seq<Stmt>, ret: TypeInfo)
      requires Valid() && DistinctBody(ss) && BodyIds(ss) !! nodeTypes.Keys && table.Visible() != []
      modifies this`errors, this`reported, this`nodeTypes, table
      ensures table.Valid() && table.Chain() == old(table.Chain())
      ensures table.Visible() != [] && table.Visible()[1..] == old(table.Visible())[1..]
      ensures JudgedBody(old(errors), old(nodeTypes), old(table.Visible()), ss, ret)
      decreases ss, 0
    {
      hide Keys, SymbolTable.Valid, SymbolTable.Visible, SymbolTable.Chain, Accept, Effect, AcceptAll, StmtIds, BodyIds,
           DistinctStmt, DistinctBody,
           NoSilentStmt, NoSilentBody, AnnotatedStmt, AnnotatedBody;
      hide Told, StatementComplaints, BodyComplaints, Grows;
      ghost var env0, before := table.Visible(), errors;
      HeardBody(before, env0, ss, ret);
      ghost var envs := [env0];
      assert ss[0..] == ss;
      for i := 0 to |ss|
        invariant table.Valid() && table.Chain() == old(table.Chain())
        invariant |envs| == i + 1 && envs[0] == env0 && envs[i] == table.Visible()
        invariant forall j :: 0 <= j < i ==> envs[j + 1] == Effect(envs[j], ss[j])
        invariant table.Visible() != [] && table.Visible()[1..] == env0[1..]
        invariant Consistent()
        invariant Told(errors, BodyComplaints(table.Visible(), ss[i..], ret))
               == Told(before, BodyComplaints(env0, ss, ret))
        invariant Extends(old(nodeTypes), nodeTypes) && nodeTypes.Keys <= old(nodeTypes.Keys) + BodyIds(ss)
        invariant DistinctBody(ss[i..]) && BodyIds(ss[i..]) <= BodyIds(ss) && BodyIds(ss[i..]) !! nodeTypes.Keys
        invariant NoSilentBody(ss) ==> NoSilentBody(ss[i..])
        invariant errors == [] && AcceptAll(table.Visible(), ss[i..], ret)
                  <==> old(errors) == [] && AcceptAll(env0, ss, ret)
        invariant errors == [] && NoSilentBody(ss) ==>
                    forall j :: 0 <= j < i ==> AnnotatedStmt(nodeTypes, envs[j], ss[j], ret)
      {
        ghost var types, env := nodeTypes, table.Visible();
        BodyFacts(env, ss, i, ret);
        EffectTail(env, ss[i]);
        ToldJoin(errors, StatementComplaints(env, ss[i], ret), BodyComplaints(Effect(env, ss[i]), ss[i + 1..], ret));
        InferStatement(ss[i], ret);
        envs := envs + [table.Visible()];
        if errors == [] && NoSilentBody(ss) {
          forall j | 0 <= j < i
            ensures AnnotatedStmt(nodeTypes, envs[j], ss[j], ret)
          {
            StillAnnotatedStmt(types, nodeTypes, envs[j], ss[j], ret);
          }
        }
      }
      BodyFacts(table.Visible(), ss, |ss|, ret);
      ToldNone(errors);
      if errors == [] && NoSilentBody(ss) {
        CollectBody(nodeTypes, envs, ss, ret);
      }
    }

    method InferLoop(s: Stmt, ret: TypeInfo)
      requires s.Loop? && Valid() && DistinctStmt(s) && StmtIds(s) !! nodeTypes.Keys
      modifies this`errors, this`reported, this`nodeTypes, table
      ensures table.Valid() && table.Chain() == old(table.Chain()) && table.Visible() == old(table.Visible())
      ensures JudgedStmt(old(errors), old(nodeTypes), old(table.Visible()), s, ret)
      decreases s, 0
    {
      hide Annotated, HasType, Keys, Told, SymbolTable.Valid, SymbolTable.Visible, SymbolTable.Chain, Infer, Distinct,
           NoSilent, AcceptAll, AnnotatedBody, NoSilentBody, DistinctBody, BodyIds;
      hide ConditionComplaints, BodyComplaints, Examine, AcceptsCondition;
      ghost var env, before := table.Visible(), errors;
      HeardStatement(before, env, s, ret);
      ToldNone(errors);
      if s.guard.Some? {
        InferCondition(s.guard.value);
      }
      ghost var types := nodeTypes;
      ToldJoin(before, if s.guard.Some? then ConditionComplaints(env, s.guard.value) else [],
               BodyComplaints(Inner(env), s.body, ret));
      InferBlock(s.body, ret);
      if errors == [] && NoSilentStmt(s) && s.guard.Some? {
        StillAnnotated(types, nodeTypes, env, s.guard.value);
      }
    }

    method InferIf(s: Stmt, ret: TypeInfo)
      requires s.If? && Valid() && DistinctStmt(s) && StmtIds(s) !! nodeTypes.Keys
      modifies this`errors, this`reported, this`nodeTypes, table
      ensures table.Valid() && table.Chain() == old(table.Chain()) && table.Visible() == old(table.Visible())
      ensures JudgedStmt(old(errors), old(nodeTypes), old(table.Visible()), s, ret)
      decreases s, 0
    {
      hide Annotated, HasType, Keys, Told, SymbolTable.Valid, SymbolTable.Visible, SymbolTable.Chain, Infer, Distinct,
           NoSilent, AcceptAll, AnnotatedBody, NoSilentBody, DistinctBody, BodyIds;
      hide ConditionComplaints, BodyComplaints, Examine, AcceptsCondition;
      ghost var env, before := table.Visible(), errors;
      HeardStatement(before, env, s, ret);
      ToldNone(errors);
      InferCondition(s.condition);
      ghost var types1 := nodeTypes;
      InferBlock(s.thenArm, ret);
      ghost var types2, said := nodeTypes, ConditionComplaints(env, s.condition);
      ToldJoin(before, said, BodyComplaints(Inner(env), s.thenArm, ret));
      ToldJoin(before, said + BodyComplaints(Inner(env), s.thenArm, ret),
               if s.hasElse then BodyComplaints(Inner(env), s.elseArm, ret) else []);
      ToldNone(errors);
      if s.hasElse {
        InferBlock(s.elseArm, ret);
      }
      if errors == [] && NoSilentStmt(s) {
        StillAnnotated(types1, nodeTypes, env, s.condition);
        StillAnnotatedBody(types2, nodeTypes, Inner(env), s.thenArm, ret);
      }
    }

    method InferVarDef(s: Stmt, ret: TypeInfo)
      requires s.VarDef? && Valid() && DistinctStmt(s) && StmtIds(s) !! nodeTypes.Keys
      modifies this`errors, this`reported, this`nodeTypes, table
      ensures table.Valid() && table.Chain() == old(table.Chain()) && table.Visible() == Effect(old(table.Visible()), s)
      ensures JudgedStmt(old(errors), old(nodeTypes), old(table.Visible()), s, ret)
      decreases s, 0
    {
      hide AnnotatedValue, HasType, Keys, SymbolTable.Valid, SymbolTable.Visible, SymbolTable.Chain, Infer, Ids,
           Distinct;
      hide NoSilent, Declared, Matches, Accept, Effect, StmtIds, DistinctStmt, NoSilentStmt, AnnotatedStmt,
           NoSilentValue;
      hide Told, StatementComplaints, InitialComplaints;
      VarDefFacts(table.Visible(), s, ret);
      ghost var env, before := table.Visible(), errors;
      HeardStatement(before, env, s, ret);
      ToldNone(errors);
      ToldJoin(before, if s.init.Some? then InitialComplaints(env, s.init.value, s.ty) else [],
               DeclarationComplaints(env, s.name));
      if s.init.Some? {
        InferInitial(s.init.value, s.ty);
      }
      ghost var types := nodeTypes;
      ToldNone(errors);
      var ok := table.PushVariableToScope(s.name, s.ty);
      if !ok {
        Push(RegistrationFailed(OfVariable, s.name));
      }
      SetNodeType(s.nameId, s.ty);
      SetNodeType(s.id, s.ty);
      if errors == [] && NoSilentStmt(s) {
        if s.init.Some? {
          StillAnnotatedValue(types, nodeTypes, env, s.init.value, s.ty);
        }
        AnnotateVarDef(nodeTypes, env, s, ret);
      }
    }

    method InferInitial(e: Expr, ty: TypeInfo)
      requires Valid() && Distinct(e) && Ids(e) !! nodeTypes.Keys
      modifies this`errors, this`reported, this`nodeTypes
      ensures Consistent() && Grows(old(errors), errors) && Extends(old(nodeTypes), nodeTypes)
      ensures nodeTypes.Keys <= old(nodeTypes.Keys) + Ids(e)
      ensures errors == Told(old(errors), InitialComplaints(table.Visible(), e, ty))
      ensures errors == [] <==> old(errors) == [] && (e.Uzumaki? || Matches(Infer(table.Visible(), e), ty))
      ensures errors == [] && NoSilentValue(e) ==> AnnotatedValue(nodeTypes, table.Visible(), e, ty)
    {
      hide Annotated, HasType, Keys, Told, SymbolTable.Valid, SymbolTable.Visible, SymbolTable.Chain, Infer, Distinct;
      hide NoSilent, Examine;
      NotSilentIf(table.Visible(), e);
      ghost var before, f := errors, Examine(table.Visible(), e);
      ToldNone(errors);
      if e.Uzumaki? {
        UzumakiIds(e);
        SetNodeType(e.id, ty);
      } else {
        var t := InferExpression(e);
        ToldNone(errors);
        assert f.complaints + [] == f.complaints;
        if t.Some? {
          ToldJoin(before, f.complaints, When(t.value != ty, TypeMismatch(ty, t.value, InDefinition)));
        }
        if t.Some? && t.value != ty {
          Push(TypeMismatch(ty, t.value, InDefinition));
        }
      }
    }
  }

  // ----- statements: ids and annotations -----

  ghost function StmtIds(s: Stmt): set<nat>
    decreases s
  {
    match s
    case Assign(left, right) => Ids(left) + Ids(right)
    case Block(body) => BodyIds(body)
    case ExprStmt(e) => Ids(e)
    case Return(e) => Ids(e)
    case Loop(guard, body) => (if guard.Some? then Ids(guard.value) else {}) + BodyIds(body)
    case If(condition, thenArm, hasElse, elseArm) =>
      Ids(condition) + BodyIds(thenArm) + (if hasElse then BodyIds(elseArm) else {})
    case VarDef(id, nameId, _, _, init) => {id, nameId} + (if init.Some? then Ids(init.value) else {})
    case Assert(e) => Ids(e)
    case ConstDef(id, value, _, _) => {id, value.id}
    case _ => {}
  }

  ghost function BodyIds(ss: seq<Stmt>): set<nat>
    decreases ss
  {
    if ss == [] then {} else StmtIds(ss[0]) + BodyIds(ss[1..])
  }

  ghost predicate DistinctStmt(s: Stmt)
    decreases s
  {
    match s
    case Assign(left, right) => Distinct(left) && Distinct(right) && Ids(left) !! Ids(right)
    case Block(body) => DistinctBody(body)
    case ExprStmt(e) => Distinct(e)
    case Return(e) => Distinct(e)
    case Loop(guard, body) =>
      (guard.Some? ==> Distinct(guard.value) && Ids(guard.value) !! BodyIds(body)) && DistinctBody(body)
    case If(condition, thenArm, hasElse, elseArm) =>
      && Distinct(condition) && DistinctBody(thenArm) && Ids(condition) !! BodyIds(thenArm)
      && (hasElse ==> DistinctBody(elseArm) && BodyIds(elseArm) !! Ids(condition) + BodyIds(thenArm))
    case VarDef(id, nameId, _, _, init) =>
      id != nameId && (init.Some? ==> Distinct(init.value) && Ids(init.value) !! {id, nameId})
    case Assert(e) => Distinct(e)
    case ConstDef(id, value, _, _) => id != value.id
    case _ => true
  }

  ghost predicate DistinctBody(ss: seq<Stmt>)
    decreases ss
  {
    ss == [] || (DistinctStmt(ss[0]) && StmtIds(ss[0]) !! BodyIds(ss[1..]) && DistinctBody(ss[1..]))
  }

  /** A bare non-deterministic value carries the type of the place it goes to. */
  ghost predicate AnnotatedValue(types: NodeTypes, env: Env, e: Expr, t: TypeInfo)
  {
    if e.Uzumaki? then e.id in types && types[e.id] == t else Annotated(types, env, e)
  }

  ghost predicate AnnotatedStmt(types: NodeTypes, env: Env, s: Stmt, ret: TypeInfo)
    decreases s
  {
    match s
    case Assign(left, right) =>
      Annotated(types, env, left) && Infer(env, left).Typed? && AnnotatedValue(types, env, right, Infer(env, left).ty)
    case Block(body) => AnnotatedBody(types, Inner(env), body, ret)
    case ExprStmt(e) => Annotated(types, env, e)
    case Return(e) => AnnotatedValue(types, env, e, ret)
    case Loop(guard, body) =>
      (guard.Some? ==> Annotated(types, env, guard.value)) && AnnotatedBody(types, Inner(env), body, ret)
    case If(condition, thenArm, hasElse, elseArm) =>
      && Annotated(types, env, condition) && AnnotatedBody(types, Inner(env), thenArm, ret)
      && (hasElse ==> AnnotatedBody(types, Inner(env), elseArm, ret))
    case VarDef(id, nameId, _, ty, init) =>
      && id in types && types[id] == ty && nameId in types && types[nameId] == ty
      && (init.Some? ==> AnnotatedValue(types, env, init.value, ty))
    case Assert(e) => Annotated(types, env, e)
    case ConstDef(id, value, _, ty) => id in types && types[id] == ty && value.id in types && types[value.id] == ty
    case _ => true
  }

  ghost predicate AnnotatedBody(types: NodeTypes, env: Env, ss: seq<Stmt>, ret: TypeInfo)
    decreases ss
  {
    ss == [] || (AnnotatedStmt(types, env, ss[0], ret) && AnnotatedBody(types, Effect(env, ss[0]), ss[1..], ret))
  }

  lemma StillAnnotatedValue(a: NodeTypes, b: NodeTypes, env: Env, e: Expr, t: TypeInfo)
    requires AnnotatedValue(a, env, e, t) && Extends(a, b)
    ensures AnnotatedValue(b, env, e, t)
  {
    hide Annotated;
    if !e.Uzumaki? {
      StillAnnotated(a, b, env, e);
    }
  }

  lemma {:induction false} StillAnnotatedStmt(a: NodeTypes, b: NodeTypes, env: Env, s: Stmt, ret: TypeInfo)
    requires AnnotatedStmt(a, env, s, ret) && Extends(a, b)
    ensures AnnotatedStmt(b, env, s, ret)
    decreases s
  {
    hide Annotated, Infer, AnnotatedValue;
    match s
    case Assign(left, right) =>
      StillAnnotated(a, b, env, left);
      StillAnnotatedValue(a, b, env, right, Infer(env, left).ty);
    case Block(body) => StillAnnotatedBody(a, b, Inner(env), body, ret);
    case ExprStmt(e) => StillAnnotated(a, b, env, e);
    case Return(e) => StillAnnotatedValue(a, b, env, e, ret);
    case Loop(guard, body) =>
      if guard.Some? {
        StillAnnotated(a, b, env, guard.value);
      }
      StillAnnotatedBody(a, b, Inner(env), body, ret);
    case If(condition, thenArm, hasElse, elseArm) =>
      StillAnnotated(a, b, env, condition);
      StillAnnotatedBody(a, b, Inner(env), thenArm, ret);
      if hasElse {
        StillAnnotatedBody(a, b, Inner(env), elseArm, ret);
      }
    case VarDef(_, _, _, ty, init) =>
      if init.Some? {
        StillAnnotatedValue(a, b, env, init.value, ty);
      }
    case Assert(e) => StillAnnotated(a, b, env, e);
    case _ =>
  }

  lemma {:induction false} StillAnnotatedBody(a: NodeTypes, b: NodeTypes, env: Env, ss: seq<Stmt>, ret: TypeInfo)
    requires AnnotatedBody(a, env, ss, ret) && Extends(a, b)
    ensures AnnotatedBody(b, env, ss, ret)
    decreases ss
  {
    hide AnnotatedStmt;
    if ss != [] {
      StillAnnotatedStmt(a, b, env, ss[0], ret);
      StillAnnotatedBody(a, b, Effect(env, ss[0]), ss[1..], ret);
    }
  }

  lemma {:induction false} CollectBody(types: NodeTypes, envs: seq<Env>, ss: seq<Stmt>, ret: TypeInfo)
    requires |envs| == |ss| + 1
    requires forall j :: 0 <= j < |ss| ==> envs[j + 1] == Effect(envs[j], ss[j])
    requires forall j :: 0 <= j < |ss| ==> AnnotatedStmt(types, envs[j], ss[j], ret)
    ensures AnnotatedBody(types, envs[0], ss, ret)
    decreases |ss|
  {
    hide AnnotatedStmt, Effect;
    if ss != [] {
      var envs', ss' := envs[1..], ss[1..];
      forall j | 0 <= j < |ss'|
        ensures envs'[j + 1] == Effect(envs'[j], ss'[j]) && AnnotatedStmt(types, envs'[j], ss'[j], ret)
      {
        var k := j + 1;
        assert envs[k + 1] == Effect(envs[k], ss[k]) && AnnotatedStmt(types, envs[k], ss[k], ret);
      }
      CollectBody(types, envs', ss', ret);
      assert envs[0 + 1] == Effect(envs[0], ss[0]);
    }
  }

  lemma EffectTail(env: Env, s: Stmt)
    requires env != []
    ensures Effect(env, s) != [] && Effect(env, s)[1..] == env[1..]
  {
  }

  lemma UzumakiIds(e: Expr)
    requires e.Uzumaki?
    ensures Ids(e) == {e.id}
  {
  }

  lemma VarDefFacts(env: Env, s: Stmt, ret: TypeInfo)
    requires s.VarDef?
    ensures StmtIds(s) == {s.id, s.nameId} + (if s.init.Some? then Ids(s.init.value) else {})
    ensures DistinctStmt(s) ==>
              s.id != s.nameId && (s.init.Some? ==> Distinct(s.init.value) && Ids(s.init.value) !! {s.id, s.nameId})
    ensures NoSilentStmt(s) <==> (s.init.Some? ==> NoSilentValue(s.init.value))
    ensures Accept(env, s, ret) <==>
            && (s.init.Some? && !s.init.value.Uzumaki? ==> Matches(Infer(env, s.init.value), s.ty))
            && CanDeclare(env, s.name)
    ensures Effect(env, s) == Declared(env, s.name, s.ty)
    ensures StatementComplaints(env, s, ret) ==
            (if s.init.Some? then InitialComplaints(env, s.init.value, s.ty) else []) +
            DeclarationComplaints(env, s.name)
  {
  }

  lemma AnnotateVarDef(types: NodeTypes, env: Env, s: Stmt, ret: TypeInfo)
    requires s.VarDef? && s.id in types && types[s.id] == s.ty && s.nameId in types && types[s.nameId] == s.ty
    requires s.init.Some? ==> AnnotatedValue(types, env, s.init.value, s.ty)
    ensures AnnotatedStmt(types, env, s, ret)
  {
  }

  lemma BodyFacts(env: Env, ss: seq<Stmt>, i: nat, ret: TypeInfo)
    requires i <= |ss|
    ensures i == |ss| ==> AcceptAll(env, ss[i..], ret) && BodyComplaints(env, ss[i..], ret) == []
    ensures i < |ss| ==>
              && BodyComplaints(env, ss[i..], ret)
              == StatementComplaints(env, ss[i], ret) + BodyComplaints(Effect(env, ss[i]), ss[i + 1..], ret)
              && BodyIds(ss[i..]) == StmtIds(ss[i]) + BodyIds(ss[i + 1..])
              && (DistinctBody(ss[i..]) ==>
                    DistinctStmt(ss[i]) && StmtIds(ss[i]) !! BodyIds(ss[i + 1..]) && DistinctBody(ss[i + 1..]))
              && (NoSilentBody(ss[i..]) <==> NoSilentStmt(ss[i]) && NoSilentBody(ss[i + 1..]))
              && (AcceptAll(env, ss[i..], ret)
                  <==> Accept(env, ss[i], ret) && AcceptAll(Effect(env, ss[i]), ss[i + 1..], ret))
  {
    if i < |ss| {
      assert ss[i..][0] == ss[i] && ss[i..][1..] == ss[i + 1..];
    }
  }

  // ----- one level of the definitions, for the two binary forms -----

  lemma IndexFacts(env: Env, e: Expr)
    requires e.Index?
    ensures Ids(e) == {e.id} + Ids(e.base) + Ids(e.index)
    ensures Distinct(e) ==>
              e.id !in Ids(e.base) && e.id !in Ids(e.index) && Ids(e.base) !! Ids(e.index) &&
              Distinct(e.base) && Distinct(e.index)
    ensures NoSilent(e) <==> NoSilent(e.base) && NoSilent(e.index)
    ensures var b, i := Infer(env, e.base), Infer(env, e.index);
            Infer(env, e) ==
            if !b.Typed? then b
            else if i.Reject? || (i.Typed? && !i.ty.IsNumber()) || !b.ty.kind.Array? then Reject
            else Typed(b.ty.kind.element)
    ensures var b, i := Examine(env, e.base), Examine(env, e.index);
            Examine(env, e) ==
            if b.found.None? then b
            else
              var whole := b.found.value;
              Finding(b.complaints + i.complaints + IndexComplaints(whole, i.found),
                      if whole.kind.Array? then Some(whole.kind.element) else Option.None)
  {
  }

  lemma BinaryFacts(env: Env, e: Expr)
    requires e.Binary?
    ensures Ids(e) == {e.id} + Ids(e.left) + Ids(e.right)
    ensures Distinct(e) ==>
              e.id !in Ids(e.left) && e.id !in Ids(e.right) && Ids(e.left) !! Ids(e.right) &&
              Distinct(e.left) && Distinct(e.right)
    ensures NoSilent(e) <==> NoSilent(e.left) && NoSilent(e.right)
    ensures var l, r := Infer(env, e.left), Infer(env, e.right);
            Infer(env, e) ==
            if l.Reject? || r.Reject? then Reject
            else if l.Silent? || r.Silent? then Silent
            else if l.ty != r.ty || !BinaryAllows(e.op, l.ty) then Reject
            else Typed(BinaryType(e.op, l.ty))
    ensures var l, r := Examine(env, e.left), Examine(env, e.right);
            Examine(env, e) ==
            if l.found.None? || r.found.None? then Finding(l.complaints + r.complaints, Option.None)
            else
              Finding(l.complaints + r.complaints + OperandComplaints(e.op, l.found.value, r.found.value),
                      Combined(e.op, l.found.value, r.found.value))
  {
  }

  lemma ArrayFacts(env: Env, e: Expr)
    requires e.ArrayLit?
    ensures Ids(e) == {e.id} + AllIds(e.elements)
    ensures Distinct(e) ==> e.id !in AllIds(e.elements) && AllDistinct(e.elements)
    ensures NoSilent(e) <==> e.elements != [] && NoneSilent(e.elements)
    ensures Infer(env, e) ==
            if e.elements == [] then Silent
            else
              var first := Infer(env, e.elements[0]);
              if !first.Typed? then first
              else if AllMatch(env, e.elements, first.ty) then Typed(TypeInfo(Array(first.ty, |e.elements|), []))
              else Reject
    ensures Examine(env, e) ==
            if e.elements == [] then Finding([], Option.None)
            else
              var first := Examine(env, e.elements[0]);
              if first.found.None? then first
              else
                Finding(first.complaints + ElementComplaints(env, e.elements[1..], first.found.value),
                        Some(TypeInfo(Array(first.found.value, |e.elements|), [])))
  {
  }

  lemma AllFacts(env: Env, es: seq<Expr>, i: nat, t: TypeInfo)
    requires i <= |es|
    ensures i == |es| ==> AllMatch(env, es[i..], t) && ElementComplaints(env, es[i..], t) == []
    ensures i < |es| ==>
              && ElementComplaints(env, es[i..], t)
              == ElementComplaints(env, [es[i]], t) + ElementComplaints(env, es[i + 1..], t)
              && AllIds(es[i..]) == Ids(es[i]) + AllIds(es[i + 1..])
              && (AllDistinct(es[i..]) ==>
                    Distinct(es[i]) && Ids(es[i]) !! AllIds(es[i + 1..]) && AllDistinct(es[i + 1..]))
              && (NoneSilent(es[i..]) <==> NoSilent(es[i]) && NoneSilent(es[i + 1..]))
              && (AllMatch(env, es[i..], t) <==> Matches(Infer(env, es[i]), t) && AllMatch(env, es[i + 1..], t))
  {
    hide Examine;
    if i < |es| {
      ElementFacts(env, es[i], t);
      assert es[i..][0] == es[i] && es[i..][1..] == es[i + 1..];
    }
  }

  lemma NotSilentIf(env: Env, e: Expr)
    ensures NoSilent(e) ==> !Infer(env, e).Silent?
  {
    if NoSilent(e) {
      NotSilent(env, e);
    }
  }

  lemma {:induction false} Collect(types: NodeTypes, env: Env, es: seq<Expr>)
    requires forall j :: 0 <= j < |es| ==> Annotated(types, env, es[j])
    ensures AllAnnotated(types, env, es)
  {
    hide Annotated;
    if es != [] {
      assert forall j :: 0 <= j < |es[1..]| ==> es[1..][j] == es[j + 1];
      Collect(types, env, es[1..]);
    }
  }
}
