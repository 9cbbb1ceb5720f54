/** Stack arities of operators, summed over flat streams and over rebuilt trees. */
module Arity {
  import opened Decoded
  import opened Operators
  import opened Expressions
  import opened ControlStack

  /** Parameter and result counts. */
  datatype Counts = Counts(params: int, results: int) {
    function Flip(): Counts {
      Counts(results, params)
    }
  }

  /** Arities of the module's types (absent for array types) and the type index of each function. */
  datatype Module = Module(types: seq<Option<Counts>>, functions: seq<nat>)

  datatype Category = BlockC | FuncC | TypeC | BrC | BrTableC | RetC | EndC | ImplicitElseC

  datatype Ann = Lit(n: nat) | Cat(c: Category) | Tilde(c: Category) | Arrow

  function TypeArity(m: Module, t: int): Option<Counts>
  {
    if 0 <= t < |m.types| then m.types[t] else Option.None
  }

  function BlockArity(m: Module, ty: BlockType): Option<Counts>
  {
    match ty
    case Empty => Some(Counts(0, 0))
    case Value(_) => Some(Counts(0, 1))
    case FuncType(t) => TypeArity(m, t)
  }

  function FrameType(f: Frame): BlockType
  {
    if f.opener.Block? || f.opener.If? then f.opener.ty else Empty
  }

  function LabelArity(m: Module, stack: Stack, depth: int): Option<Counts>
  {
    if 0 <= depth < |stack| then BlockArity(m, FrameType(stack[depth])) else Option.None
  }

  /**
    A branch carries the parameters of a loop and the results of everything else, non-deterministic blocks included.
   */
  function BranchArity(m: Module, stack: Stack, depth: int): Option<Counts>
  {
    match LabelArity(m, stack, depth)
    case None => Option.None
    case Some(c) =>
      var op := stack[depth].opener;
      var n := if op.Block? && op.kind == Loop then c.params else c.results;
      Some(Counts(n, n))
  }

  /** The counts an annotation category stands for at an operator. */
  function Count(m: Module, stack: Stack, op: Operator, c: Category): Option<Counts>
  {
    match c
    case BlockC => if op.Block? || op.If? then BlockArity(m, op.ty) else Option.None
    case FuncC =>
      if op.Plain? && op.imm.U32? && 0 <= op.imm.a < |m.functions| then TypeArity(m, m.functions[op.imm.a])
      else Option.None
    case TypeC => if op.Plain? && op.imm.Pair? then TypeArity(m, op.imm.a) else Option.None
    case BrC => if op.Br? || op.BrIf? then BranchArity(m, stack, op.depth) else Option.None
    case BrTableC => if op.BrTable? then BranchArity(m, stack, op.default) else Option.None
    case RetC => LabelArity(m, stack, |stack| - 1)
    case EndC => LabelArity(m, stack, 0)
    case ImplicitElseC =>
      match LabelArity(m, stack, 0)
      case None => Option.None
      case Some(c) => Some(if AwaitsElse(stack) then c.Flip() else Counts(0, 0))
  }

  function Plus(a: Option<Counts>, b: Option<Counts>): Option<Counts>
  {
    if a.Some? && b.Some? then Some(Counts(a.value.params + b.value.params, a.value.results + b.value.results))
    else Option.None
  }

  function Flipped(a: Option<Counts>): Option<Counts>
  {
    if a.Some? then Some(a.value.Flip()) else Option.None
  }

  /** The left half of an annotation. */
  function Left(m: Module, stack: Stack, op: Operator, ann: seq<Ann>): Option<Counts>
  {
    if ann == [] then Some(Counts(0, 0))
    else
      match ann[0]
      case Arrow => Some(Counts(0, 0))
      case Lit(n) => Plus(Some(Counts(n, n)), Left(m, stack, op, ann[1..]))
      case Cat(c) => Plus(Count(m, stack, op, c), Left(m, stack, op, ann[1..]))
      case Tilde(c) => Plus(Flipped(Count(m, stack, op, c)), Left(m, stack, op, ann[1..]))
  }

  /** The right half of an annotation. */
  function Right(m: Module, stack: Stack, op: Operator, ann: seq<Ann>): Option<Counts>
  {
    if ann == [] then Option.None
    else if ann[0] == Arrow then Left(m, stack, op, ann[1..])
    else Right(m, stack, op, ann[1..])
  }

  function Annotation(op: Operator): seq<Ann>
  {
    match op
    case Block(_, _) => [Cat(BlockC), Arrow, Tilde(BlockC)]
    case If(_) => [Lit(1), Cat(BlockC), Arrow, Tilde(BlockC)]
    case Else => [Tilde(EndC), Arrow, Tilde(EndC)]
    case End => [Cat(ImplicitElseC), Tilde(EndC), Arrow, Cat(ImplicitElseC), Cat(EndC)]
    case Br(_) => [Cat(BrC), Arrow, Lit(0)]
    case BrIf(_) => [Lit(1), Cat(BrC), Arrow, Cat(BrC)]
    case BrTable(_, _) => [Lit(1), Cat(BrTableC), Arrow, Lit(0)]
    case Return => [Tilde(RetC), Arrow, Lit(0)]
    case Plain(Byte(0x10), _) => [Cat(FuncC), Arrow, Cat(FuncC)]
    case Plain(Byte(0x11), _) => [Lit(1), Cat(TypeC), Arrow, Cat(TypeC)]
    case Plain(code, _) => var (p, r) := FixedArity(code); [Lit(p), Arrow, Lit(r)]
  }

  function FixedArity(code: Opcode): (nat, nat)
  {
    match code
    case Byte(b) =>
      if b == 0x1a || b == 0x21 || b == 0x24 then (1, 0)
      else if b == 0x1b then (3, 1)
      else if b in {0x20, 0x23, 0x3f, 0xd2} || 0x41 <= b <= 0x44 then (0, 1)
      else if b == 0x26 || 0x36 <= b <= 0x3e then (2, 0)
      else if b in {0x22, 0x25, 0x40, 0x45, 0x50, 0xd1, 0xd4} || 0x28 <= b <= 0x35 then (1, 1)
      else if 0x46 <= b <= 0x66 || 0x6a <= b <= 0x78 || 0x7c <= b <= 0x8a || 0x92 <= b <= 0x98 || 0xa0 <= b <= 0xa6
              || b == 0xd3
      then (2, 1)
      else if 0x67 <= b <= 0xc4 then (1, 1)
      else (0, 0)
    case Fc(s) =>
      if 0 <= s <= 0x07 then (1, 1)
      else if s in {0x08, 0x0a, 0x0b, 0x0c, 0x0e, 0x11} then (3, 0)
      else if s == 0x0f then (2, 1)
      else if s in {0x10, 0x31, 0x32} then (0, 1)
      else if s == 0x12 then (2, 0)
      else if s == 0x13 || s == 0x14 then (4, 2)
      else if s == 0x15 || s == 0x16 then (2, 2)
      else (0, 0)
  }

  function OperatorArity(m: Module, stack: Stack, op: Operator): Option<Counts>
  {
    match (Left(m, stack, op, Annotation(op)), Right(m, stack, op, Annotation(op)))
    case (Some(l), Some(r)) =>
      if l.params >= 0 && r.results >= 0 then Some(Counts(l.params, r.results)) else Option.None
    case (_, _) => Option.None
  }

  // ----- what the annotations of the control operators amount to -----

  ghost predicate NonNegative(m: Module)
  {
    forall t :: 0 <= t < |m.types| && m.types[t].Some? ==> m.types[t].value.params >= 0 && m.types[t].value.results >= 0
  }

  /** The sum of annotation terms with no arrow among them. */
  function Sum(m: Module, stack: Stack, op: Operator, terms: seq<Ann>): Option<Counts>
  {
    if terms == [] then Some(Counts(0, 0)) else Plus(Term(m, stack, op, terms[0]), Sum(m, stack, op, terms[1..]))
  }

  function Term(m: Module, stack: Stack, op: Operator, a: Ann): Option<Counts>
  {
    match a
    case Arrow => Some(Counts(0, 0))
    case Lit(n) => Some(Counts(n, n))
    case Cat(c) => Count(m, stack, op, c)
    case Tilde(c) => Flipped(Count(m, stack, op, c))
  }

  /** An annotation `l -> r` pops what `l` adds up to and pushes what `r` adds up to. */
  lemma {:induction false} Halves(m: Module, stack: Stack, op: Operator, l: seq<Ann>, r: seq<Ann>)
    requires Arrow !in l && Arrow !in r
    ensures Left(m, stack, op, l + [Arrow] + r) == Sum(m, stack, op, l)
    ensures Right(m, stack, op, l + [Arrow] + r) == Sum(m, stack, op, r)
  {
    var ann := l + [Arrow] + r;
    if l == [] {
      assert ann[1..] == r;
      LeftIsSum(m, stack, op, r);
    } else {
      assert ann[1..] == l[1..] + [Arrow] + r;
      Halves(m, stack, op, l[1..], r);
    }
  }

  lemma {:induction false} LeftIsSum(m: Module, stack: Stack, op: Operator, terms: seq<Ann>)
    requires Arrow !in terms
    ensures Left(m, stack, op, terms) == Sum(m, stack, op, terms)
  {
    if terms != [] {
      LeftIsSum(m, stack, op, terms[1..]);
    }
  }

  lemma SumSmall(m: Module, stack: Stack, op: Operator, a: Ann, b: Ann)
    ensures Sum(m, stack, op, [a]) == Plus(Term(m, stack, op, a), Some(Counts(0, 0)))
    ensures Sum(m, stack, op, [a, b]) == Plus(Term(m, stack, op, a), Plus(Term(m, stack, op, b), Some(Counts(0, 0))))
  {
    assert [a, b][1..] == [b] && [a][1..] == [] && [b][1..] == [];
  }

  lemma OpenArity(m: Module, stack: Stack, op: Operator)
    requires NonNegative(m) && (op.Block? || op.If?)
    ensures OperatorArity(m, stack, op) ==
            match BlockArity(m, op.ty)
            case None => Option.None
            case Some(c) => Some(Counts(c.params + (if op.If? then 1 else 0), c.params))
  {
    var l := if op.Block? then [Cat(BlockC)] else [Lit(1), Cat(BlockC)];
    assert Annotation(op) == l + [Arrow] + [Tilde(BlockC)];
    Halves(m, stack, op, l, [Tilde(BlockC)]);
    SumSmall(m, stack, op, l[0], Cat(BlockC));
    SumSmall(m, stack, op, Tilde(BlockC), Arrow);
  }

  lemma ElseArity(m: Module, stack: Stack)
    requires NonNegative(m)
    ensures OperatorArity(m, stack, Else) == Flipped(LabelArity(m, stack, 0))
  {
    assert Annotation(Else) == [Tilde(EndC)] + [Arrow] + [Tilde(EndC)];
    Halves(m, stack, Else, [Tilde(EndC)], [Tilde(EndC)]);
    SumSmall(m, stack, Else, Tilde(EndC), Arrow);
  }

  /** `End` of an `If` that has had no `Else` counts as an `Else` followed by an `End`. */
  lemma EndArity(m: Module, stack: Stack)
    requires NonNegative(m)
    ensures OperatorArity(m, stack, End) ==
            match LabelArity(m, stack, 0)
            case None => Option.None
            case Some(c) =>
              Some(if AwaitsElse(stack) then Counts(2 * c.results, c.params + c.results)
                   else Counts(c.results, c.results))
  {
    var l, r := [Cat(ImplicitElseC), Tilde(EndC)], [Cat(ImplicitElseC), Cat(EndC)];
    assert Annotation(End) == l + [Arrow] + r;
    Halves(m, stack, End, l, r);
    SumSmall(m, stack, End, l[0], l[1]);
    SumSmall(m, stack, End, r[0], r[1]);
  }

  /** Branching out of a `forall`, `exists`, `assume` or `unique` block takes its results, like any block but a loop. */
  lemma BrArity(m: Module, stack: Stack, depth: int)
    requires NonNegative(m)
    ensures OperatorArity(m, stack, Br(depth)) ==
            match LabelArity(m, stack, depth)
            case None => Option.None
            case Some(c) =>
              var op := stack[depth].opener;
              Some(Counts(if op.Block? && op.kind == Loop then c.params else c.results, 0))
  {
    assert Annotation(Br(depth)) == [Cat(BrC)] + [Arrow] + [Lit(0)];
    Halves(m, stack, Br(depth), [Cat(BrC)], [Lit(0)]);
    SumSmall(m, stack, Br(depth), Cat(BrC), Arrow);
    SumSmall(m, stack, Br(depth), Lit(0), Arrow);
  }

  /** What a branch to a label carries, told from the type of its block: parameters for a loop, else results. */
  function Carried(m: Module, stack: Stack, depth: int): Option<int>
  {
    match LabelArity(m, stack, depth)
    case None => Option.None
    case Some(c) => Some(if stack[depth].opener.Block? && stack[depth].opener.kind.Loop? then c.params else c.results)
  }

  /** A conditional branch takes the condition besides, and leaves what the branch would have taken. */
  lemma BrIfArity(m: Module, stack: Stack, depth: int)
    requires NonNegative(m)
    ensures OperatorArity(m, stack, BrIf(depth)) ==
            match Carried(m, stack, depth)
            case None => Option.None
            case Some(n) => Some(Counts(1 + n, n))
  {
    var op := BrIf(depth);
    assert Annotation(op) == [Lit(1), Cat(BrC)] + [Arrow] + [Cat(BrC)];
    Halves(m, stack, op, [Lit(1), Cat(BrC)], [Cat(BrC)]);
    SumSmall(m, stack, op, Lit(1), Cat(BrC));
    SumSmall(m, stack, op, Cat(BrC), Arrow);
  }

  /** A branch table takes its index besides what its default carries, whatever its other targets carry. */
  lemma BrTableArity(m: Module, stack: Stack, targets: seq<int>, default: int)
    requires NonNegative(m)
    ensures OperatorArity(m, stack, BrTable(targets, default)) ==
            match Carried(m, stack, default)
            case None => Option.None
            case Some(n) => Some(Counts(1 + n, 0))
  {
    var op := BrTable(targets, default);
    assert Annotation(op) == [Lit(1), Cat(BrTableC)] + [Arrow] + [Lit(0)];
    Halves(m, stack, op, [Lit(1), Cat(BrTableC)], [Lit(0)]);
    SumSmall(m, stack, op, Lit(1), Cat(BrTableC));
    SumSmall(m, stack, op, Lit(0), Arrow);
  }

  /** A return takes the results of the outermost frame, loop or not, and leaves nothing. */
  lemma ReturnArity(m: Module, stack: Stack)
    requires NonNegative(m)
    ensures OperatorArity(m, stack, Return) ==
            match LabelArity(m, stack, |stack| - 1)
            case None => Option.None
            case Some(c) => Some(Counts(c.results, 0))
  {
    assert Annotation(Return) == [Tilde(RetC)] + [Arrow] + [Lit(0)];
    Halves(m, stack, Return, [Tilde(RetC)], [Lit(0)]);
    SumSmall(m, stack, Return, Tilde(RetC), Arrow);
    SumSmall(m, stack, Return, Lit(0), Arrow);
  }

  /** A call follows the type of its function; an indirect one takes the table index besides. */
  lemma CallArity(m: Module, stack: Stack, index: int, table: int)
    requires NonNegative(m)
    ensures OperatorArity(m, stack, Plain(Byte(0x10), U32(index))) ==
            if 0 <= index < |m.functions| && m.functions[index] < |m.types| then m.types[m.functions[index]]
            else Option.None
    ensures OperatorArity(m, stack, Plain(Byte(0x11), Pair(index, table))) ==
            if 0 <= index < |m.types| && m.types[index].Some? then
              Some(Counts(1 + m.types[index].value.params, m.types[index].value.results))
            else Option.None
  {
    var call, indirect := Plain(Byte(0x10), U32(index)), Plain(Byte(0x11), Pair(index, table));
    assert Annotation(call) == [Cat(FuncC)] + [Arrow] + [Cat(FuncC)];
    Halves(m, stack, call, [Cat(FuncC)], [Cat(FuncC)]);
    SumSmall(m, stack, call, Cat(FuncC), Arrow);
    assert Annotation(indirect) == [Lit(1), Cat(TypeC)] + [Arrow] + [Cat(TypeC)];
    Halves(m, stack, indirect, [Lit(1), Cat(TypeC)], [Cat(TypeC)]);
    SumSmall(m, stack, indirect, Lit(1), Cat(TypeC));
    SumSmall(m, stack, indirect, Cat(TypeC), Arrow);
  }

  /** Nothing, one result, or what the function type says; and a label has the type of the operator that opened it. */
  lemma LabelArityExactly(m: Module, stack: Stack, depth: int, ty: BlockType, c: Counts)
    ensures BlockArity(m, ty) == Some(c) <==>
            || (ty.Empty? && c.params == 0 && c.results == 0)
            || (ty.Value? && c.params == 0 && c.results == 1)
            || (ty.FuncType? && 0 <= ty.index < |m.types| && m.types[ty.index] == Some(c))
    ensures 0 <= depth < |stack| &&
            (stack[depth].opener == If(ty) || exists kind :: stack[depth].opener == Block(kind, ty)) ==>
              LabelArity(m, stack, depth) == BlockArity(m, ty)
    ensures !(0 <= depth < |stack|) ==> LabelArity(m, stack, depth) == Option.None
  {
  }

  // ----- all other operators, by what kind of operator they are -----

  datatype Role =
    | Load | Store | Test | Comparison | Unary | Binary | Conversion | Push
    | Explicit(params: nat, results: nat)

  /** Section 5.4 of the WebAssembly Core Specification, read from the side of the operators. */
  predicate Plays(role: Role, code: Opcode)
  {
    match role
    case Load => code.Byte? && 0x28 <= code.b <= 0x35
    case Store => code.Byte? && 0x36 <= code.b <= 0x3e
    case Test => code in {Byte(0x45), Byte(0x50)}
    case Comparison =>  // i32, i64, f32, f64
      code.Byte? && (0x46 <= code.b <= 0x4f || 0x51 <= code.b <= 0x5a || 0x5b <= code.b <= 0x60 ||
                     0x61 <= code.b <= 0x66)
    case Unary =>
      code.Byte? && (0x67 <= code.b <= 0x69 || 0x79 <= code.b <= 0x7b || 0x8b <= code.b <= 0x91 ||
                     0x99 <= code.b <= 0x9f || 0xc0 <= code.b <= 0xc4)
    case Binary =>
      code.Byte? && (0x6a <= code.b <= 0x78 || 0x7c <= code.b <= 0x8a || 0x92 <= code.b <= 0x98 ||
                     0xa0 <= code.b <= 0xa6)
    case Conversion => (code.Byte? && 0xa7 <= code.b <= 0xbf) || (code.Fc? && 0x00 <= code.sub <= 0x07)
    case Push => (code.Byte? && 0x41 <= code.b <= 0x44) || code in {Fc(0x31), Fc(0x32)}
    case Explicit(params, results) => Listed(code, params, results)
  }

  predicate Listed(code: Opcode, params: nat, results: nat)
  {
    match (params, results)
    case (0, 0) => code in {Byte(0x00), Byte(0x01), Fc(0x09), Fc(0x0d)}
    case (0, 1) => code in {Byte(0x20), Byte(0x23), Byte(0x3f), Byte(0xd2), Fc(0x10)}
    case (1, 0) => code in {Byte(0x1a), Byte(0x21), Byte(0x24)}
    case (1, 1) => code in {Byte(0x22), Byte(0x25), Byte(0x40), Byte(0xd1), Byte(0xd4)}
    case (2, 0) => code in {Byte(0x26), Fc(0x12)}
    case (2, 1) => code in {Byte(0xd3), Fc(0x0f)}
    case (2, 2) => code in {Fc(0x15), Fc(0x16)}
    case (3, 0) => code in {Fc(0x08), Fc(0x0a), Fc(0x0b), Fc(0x0c), Fc(0x0e), Fc(0x11)}
    case (3, 1) => code == Byte(0x1b)
    case (4, 2) => code in {Fc(0x13), Fc(0x14)}
    case _ => false
  }

  function RoleCounts(role: Role): Counts
  {
    match role
    case Load => Counts(1, 1)
    case Store => Counts(2, 0)
    case Test => Counts(1, 1)
    case Comparison => Counts(2, 1)
    case Unary => Counts(1, 1)
    case Binary => Counts(2, 1)
    case Conversion => Counts(1, 1)
    case Push => Counts(0, 1)
    case Explicit(params, results) => Counts(params, results)
  }

  function RoleOf(code: Opcode): Role
  {
    var (p, r) := FixedArity(code);
    if Plays(Load, code) then Load
    else if Plays(Store, code) then Store
    else if Plays(Test, code) then Test
    else if Plays(Comparison, code) then Comparison
    else if Plays(Unary, code) then Unary
    else if Plays(Binary, code) then Binary
    else if Plays(Conversion, code) then Conversion
    else if Plays(Push, code) then Push
    else Explicit(p, r)
  }

  /** An operator without a rule of its own takes and leaves what its kind does, under any control stack. */
  lemma RoleArity(m: Module, stack: Stack, code: Opcode, imm: Imm, role: Role)
    requires Plays(role, code)
    ensures OperatorArity(m, stack, Plain(code, imm)) == Some(RoleCounts(role))
  {
    var op := Plain(code, imm);
    var (p, r) := FixedArity(code);
    RoleCount(code, role);
    assert Annotation(op) == [Lit(p)] + [Arrow] + [Lit(r)];
    Halves(m, stack, op, [Lit(p)], [Lit(r)]);
    SumSmall(m, stack, op, Lit(p), Arrow);
    SumSmall(m, stack, op, Lit(r), Arrow);
  }

  lemma RoleCount(code: Opcode, role: Role)
    requires Plays(role, code)
    ensures Counts(FixedArity(code).0, FixedArity(code).1) == RoleCounts(role)
    ensures code != Byte(0x10) && code != Byte(0x11)
  {
  }

  /** Every modelled operator but the calls and those of control flow is of some kind. */
  lemma EveryRole(code: Opcode)
    requires ShapeOf(code) !in {Illegal, OutOfModel, BlockTy, Table}
    requires code !in {Byte(0x05), Byte(0x0b), Byte(0x0c), Byte(0x0d), Byte(0x0f), Byte(0x10), Byte(0x11)}
    ensures Plays(RoleOf(code), code)
  {
  }

  // ----- summing over a stream and over a tree -----

  /** What an operator adds to the height of the value stack, when that is known. */
  function Net(m: Module, stack: Stack, op: Operator): Option<int>
  {
    match OperatorArity(m, stack, op)
    case None => Option.None
    case Some(c) => Some(c.results - c.params)
  }

  function Add(a: Option<int>, b: Option<int>): Option<int>
  {
    if a.Some? && b.Some? then Some(a.value + b.value) else Option.None
  }

  /** The net effect of a flat stream, each operator taken under its control stack. */
  function FlatNet(m: Module, ops: seq<Operator>, labels: seq<Stack>): Option<int>
    requires |labels| == |ops|
  {
    if ops == [] then Some(0) else Add(Net(m, labels[0], ops[0]), FlatNet(m, ops[1..], labels[1..]))
  }

  /** The net effect of a tree, by structural recursion. */
  function TreeNet(m: Module, parts: seq<Part>, stack: Stack, i: nat): Option<int>
    decreases parts
  {
    if parts == [] then Some(0)
    else Add(PartNet(m, parts[0], stack, i), TreeNet(m, parts[1..], stack, i + |FlattenPart(parts[0])|))
  }

  function PartNet(m: Module, p: Part, stack: Stack, i: nat): Option<int>
    decreases p
  {
    match p
    case Leaf(op) => Net(m, stack, op)
    case Nested(opener, inner) =>
      Add(Net(m, stack, opener), TreeNet(m, inner, [Frame(opener, i, false)] + stack, i + 1))
    case Condition(opener, thenArm, elseArm) =>
      Add(Net(m, stack, opener),
          Add(TreeNet(m, thenArm, [Frame(opener, i, false)] + stack, i + 1),
              TreeNet(m, elseArm, [Frame(opener, i, true)] + stack, i + 1 + |Flatten(thenArm)|)))
  }

  lemma {:induction false} FlatNetConcat(m: Module, a: seq<Operator>, la: seq<Stack>, b: seq<Operator>, lb: seq<Stack>)
    requires |a| == |la| && |b| == |lb|
    ensures FlatNet(m, a + b, la + lb) == Add(FlatNet(m, a, la), FlatNet(m, b, lb))
  {
    hide Net;
    if a == [] {
      assert a + b == b && la + lb == lb;
    } else {
      assert (a + b)[1..] == a[1..] + b && (la + lb)[1..] == la[1..] + lb;
      FlatNetConcat(m, a[1..], la[1..], b, lb);
    }
  }

  lemma {:induction false} TreeLabelsLength(parts: seq<Part>, stack: Stack, i: nat)
    ensures |TreeLabels(parts, stack, i)| == |Flatten(parts)|
    decreases parts
  {
    hide TreeLabels, Flatten, FlattenPart;
    NothingToDo();
    if parts == [] {
      TreeFront(Leaf(End), [], stack, i);
    } else {
      var p, tail := parts[0], parts[1..];
      assert parts == [p] + tail;
      TreeFront(p, tail, stack, i);
      Front(p, tail, []);
      TreeLabelsLength(tail, stack, i + |FlattenPart(p)|);
      if !p.Leaf? {
        TreeLabelsLength(FirstArmOf(p), [Frame(Head(p), i, false)] + stack, i + 1);
      }
      if p.Condition? {
        TreeLabelsLength(p.elseArm, [Frame(Head(p), i, true)] + stack, i + 1 + |Flatten(FirstArmOf(p))|);
      }
    }
  }

  /** Under the labels of the tree, summing over the flattened operators is structural recursion. */
  lemma {:induction false} FlatNetIsTreeNet(m: Module, parts: seq<Part>, stack: Stack, i: nat)
    ensures |TreeLabels(parts, stack, i)| == |Flatten(parts)|
    ensures FlatNet(m, Flatten(parts), TreeLabels(parts, stack, i)) == TreeNet(m, parts, stack, i)
    decreases parts
  {
    hide TreeLabels, Flatten, FlattenPart, Net, FlatNet;
    NothingToDo();
    TreeLabelsLength(parts, stack, i);
    if parts == [] {
      TreeFront(Leaf(End), [], stack, i);
      FlatNetSmall(m, stack, End);
    } else {
      var p, tail, next := parts[0], parts[1..], i + |FlattenPart(parts[0])|;
      assert parts == [p] + tail;
      TreeFront(p, tail, stack, i);
      FlattenPrepend(p, tail);
      FlatNetSmall(m, stack, Head(p));
      var inner, inner' := [Frame(Head(p), i, false)] + stack, [Frame(Head(p), i, true)] + stack;
      var a, b, c := Flatten(FirstArmOf(p)), Flatten(SecondArmOf(p)), Flatten(tail);
      var la, lb := TreeLabels(FirstArmOf(p), inner, i + 1), TreeLabels(SecondArmOf(p), inner', i + 1 + |a|);
      var lc := TreeLabels(tail, stack, next);
      FlatNetIsTreeNet(m, tail, stack, next);
      if !p.Leaf? {
        FlatNetIsTreeNet(m, FirstArmOf(p), inner, i + 1);
      }
      if p.Condition? {
        FlatNetIsTreeNet(m, p.elseArm, inner', i + 1 + |a|);
      }
      Regrouped([stack], la, lb);
      FlatNetConcat(m, [Head(p)], [stack], a, la);
      FlatNetConcat(m, [Head(p)] + a, [stack] + la, b, lb);
      FlatNetConcat(m, [Head(p)] + a + b, [stack] + la + lb, c, lc);
    }
  }

  lemma FlatNetSmall(m: Module, stack: Stack, op: Operator)
    ensures FlatNet(m, [], []) == Some(0)
    ensures FlatNet(m, [op], [stack]) == Net(m, stack, op)
  {
    hide Net;
    assert [op][1..] == [] && [stack][1..] == [];
    assert FlatNet(m, [op][1..], [stack][1..]) == Some(0);
  }

  /**
    Summing arities along a well-nested stream with an explicit control stack is structural recursion over its tree.
   */
  lemma FlatSumIsTreeSum(m: Module, tree: seq<Part>, stack: Stack)
    requires Body(tree, End) && stack != []
    ensures |FlatLabels(Flatten(tree), stack, 0)| == |Flatten(tree)|
    ensures FlatNet(m, Flatten(tree), FlatLabels(Flatten(tree), stack, 0)) == TreeNet(m, tree, stack, 0)
  {
    hide Flatten, FlatLabels, TreeLabels, TreeNet, FlatNet, Body;
    BodyLabels(tree, End, stack, 0, []);
    NoLabels(Closed(stack, End), |Flatten(tree)|);
    assert Flatten(tree) + [] == Flatten(tree);
    assert TreeLabels(tree, stack, 0) + [] == TreeLabels(tree, stack, 0);
    FlatNetIsTreeNet(m, tree, stack, 0);
  }

  lemma NoLabels(stack: Stack, i: nat)
    ensures FlatLabels([], stack, i) == []
  {
  }

  // ----- balanced arms make balanced constructs -----

  /** An arm without its closing marker. */
  function Content(arm: seq<Part>): seq<Part>
  {
    if arm == [] then [] else arm[..|arm| - 1]
  }

  lemma {:induction false} ArmNet(m: Module, arm: seq<Part>, closer: Operator, stack: Stack, i: nat)
    requires Body(arm, closer)
    ensures TreeNet(m, arm, stack, i) == Add(TreeNet(m, Content(arm), stack, i), Net(m, stack, closer))
    decreases arm
  {
    hide Net, FlattenPart;
    if |arm| == 1 {
      assert Content(arm) == [] && TreeNet(m, arm[1..], stack, i + |FlattenPart(arm[0])|) == Some(0);
    } else {
      ArmNet(m, arm[1..], closer, stack, i + |FlattenPart(arm[0])|);
      assert Content(arm)[1..] == Content(arm[1..]) && Content(arm)[0] == arm[0];
    }
  }

  /** Every arm of a construct turns the parameters of its block type into its results. */
  ghost predicate ArmsBalanced(m: Module, p: Part, stack: Stack, i: nat, c: Counts)
    requires Complete(p) && !p.Leaf?
  {
    var delta := Some(c.results - c.params);
    var arm := FirstArmOf(p);
    && TreeNet(m, Content(arm), [Frame(p.opener, i, false)] + stack, i + 1) == delta
    && (p.Condition? && p.elseArm != [] ==>
          TreeNet(m, Content(p.elseArm), [Frame(p.opener, i, true)] + stack, i + 1 + |Flatten(arm)|) == delta)
  }

  /**
    A construct with balanced arms nets its results minus its parameters, and minus the condition an `If`
    takes. The one exception is an `If` without `Else` whose block type has unequal parameters and results.
   */
  lemma ConstructNet(m: Module, p: Part, stack: Stack, i: nat, c: Counts)
    requires NonNegative(m) && Complete(p) && !p.Leaf?
    requires BlockArity(m, p.opener.ty) == Some(c) && ArmsBalanced(m, p, stack, i, c)
    ensures var condition := if p.Condition? then 1 else 0;
            PartNet(m, p, stack, i) == Some(c.results - c.params - condition)
            <==> p.Nested? || p.elseArm != [] || c.params == c.results
  {
    hide OperatorArity, TreeNet, Body, Flatten;
    var inner, inner' := [Frame(p.opener, i, false)] + stack, [Frame(p.opener, i, true)] + stack;
    OpenArity(m, stack, p.opener);
    ElseArity(m, inner);
    EndArity(m, inner);
    EndArity(m, inner');
    NoNet(m, inner', i + 1 + |Flatten(FirstArmOf(p))|);
    if p.Nested? {
      ArmNet(m, p.parts, End, inner, i + 1);
    } else if p.elseArm == [] {
      CompleteCondition(p);
      ArmNet(m, p.thenArm, End, inner, i + 1);
    } else {
      CompleteCondition(p);
      ArmNet(m, p.thenArm, Else, inner, i + 1);
      ArmNet(m, p.elseArm, End, inner', i + 1 + |Flatten(p.thenArm)|);
    }
  }

  lemma NoNet(m: Module, stack: Stack, i: nat)
    ensures TreeNet(m, [], stack, i) == Some(0)
  {
  }
}
