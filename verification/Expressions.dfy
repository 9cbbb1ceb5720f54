/** Rebuilding nested blocks and conditions from a flat operator stream, and flattening them again. */
module Expressions {
  import opened Decoded
  import opened Operators

  /** One element of an expression; `Else` and `End` markers stay in the tree as leaves. */
  datatype Part =
    | Leaf(op: Operator)
    | Nested(opener: Operator, parts: seq<Part>)
    | Condition(opener: Operator, thenArm: seq<Part>, elseArm: seq<Part>)

  /** What the operator iterator hands out. */
  datatype Item = Next(op: Operator) | Fail(fault: Fault)

  datatype Outcome = Done(parts: seq<Part>, rest: seq<Item>) | Panic {
    function Prepend(p: Part): Outcome {
      match this
      case Done(parts, rest) => Done([p] + parts, rest)
      case Panic => Panic
    }
  }

  predicate Closes(op: Operator)
  {
    op.Else? || op.End?
  }

  predicate ControlFree(op: Operator)
  {
    !op.Block? && !op.If? && !Closes(op)
  }

  predicate EndsWith(parts: seq<Part>, op: Operator)
  {
    parts != [] && parts[|parts| - 1] == Leaf(op)
  }

  /** What reading an expression off the stream yields, and what it leaves for the caller. */
  function Translate(s: seq<Item>): (o: Outcome)
    ensures o.Done? ==> |o.rest| <= |s|
    decreases |s|
  {
    if s == [] then Done([], [])
    else if s[0].Fail? then Panic
    else
      var op := s[0].op;
      if Closes(op) then Done([Leaf(op)], s[1..])
      else if op.Block? then
        match Translate(s[1..])
        case Panic => Panic
        case Done(inner, rest) => Translate(rest).Prepend(Nested(op, inner))
      else if op.If? then
        match Translate(s[1..])
        case Panic => Panic
        case Done(thenArm, rest) =>
          if thenArm == [] then Panic
          else if EndsWith(thenArm, End) then Translate(rest).Prepend(Condition(op, thenArm, []))
          else
            match Translate(rest)
            case Panic => Panic
            case Done(elseArm, rest') => Translate(rest').Prepend(Condition(op, thenArm, elseArm))
      else Translate(s[1..]).Prepend(Leaf(op))
  }

  function Flatten(parts: seq<Part>): seq<Operator>
    decreases parts, 1
  {
    if parts == [] then [] else FlattenPart(parts[0]) + Flatten(parts[1..])
  }

  function FlattenPart(p: Part): seq<Operator>
    decreases p, 0
  {
    match p
    case Leaf(op) => [op]
    case Nested(opener, parts) => [opener] + Flatten(parts)
    case Condition(opener, thenArm, elseArm) => [opener] + Flatten(thenArm) + Flatten(elseArm)
  }

  function Items(ops: seq<Operator>): seq<Item>
  {
    if ops == [] then [] else [Next(ops[0])] + Items(ops[1..])
  }

  lemma {:induction false} ItemsConcat(a: seq<Operator>, b: seq<Operator>)
    ensures Items(a + b) == Items(a) + Items(b)
  {
    if a == [] {
      assert a + b == b;
    } else {
      ItemsConcat(a[1..], b);
      assert (a + b)[1..] == a[1..] + b;
    }
  }

  lemma ItemsCons(op: Operator, ops: seq<Operator>)
    ensures Items([op] + ops) == [Next(op)] + Items(ops)
  {
    assert ([op] + ops)[1..] == ops;
  }

  // ----- one step of translation, by the kind of the first operator -----

  lemma StepClose(s: seq<Item>)
    requires s != [] && s[0].Next? && Closes(s[0].op)
    ensures Translate(s) == Done([Leaf(s[0].op)], s[1..])
  {
  }

  lemma StepLeaf(s: seq<Item>)
    requires s != [] && s[0].Next? && ControlFree(s[0].op)
    ensures Translate(s) == Translate(s[1..]).Prepend(Leaf(s[0].op))
  {
  }

  lemma StepBlock(s: seq<Item>)
    requires s != [] && s[0].Next? && s[0].op.Block?
    ensures var d := Translate(s[1..]);
            Translate(s) == if d.Panic? then Panic else Translate(d.rest).Prepend(Nested(s[0].op, d.parts))
  {
  }

  lemma StepIf(s: seq<Item>)
    requires s != [] && s[0].Next? && s[0].op.If?
    ensures var op, d := s[0].op, Translate(s[1..]);
            Translate(s) ==
            if d.Panic? || d.parts == [] then Panic
            else if EndsWith(d.parts, End) then Translate(d.rest).Prepend(Condition(op, d.parts, []))
            else
              var e := Translate(d.rest);
              if e.Panic? then Panic else Translate(e.rest).Prepend(Condition(op, d.parts, e.parts))
  {
  }

  // ----- nothing is lost -----

  /** Whenever translation does not panic, flattening its tree gives back exactly the operators it took. */
  lemma {:induction false} NothingLost(s: seq<Item>)
    requires Translate(s).Done?
    ensures Items(Flatten(Translate(s).parts)) + Translate(s).rest == s
    decreases |s|
  {
    hide Items, Flatten, Translate;
    NothingToDo();
    if s != [] {
      assert s == [s[0]] + s[1..];
      var op := FirstOperator(s);
      if Closes(op) {
        StepClose(s);
        FlattenPrepend(Leaf(op), []);
        assert [Leaf(op)] + [] == [Leaf(op)];
        Splice(op, [], [], [], s[1..]);
      } else if op.Block? {
        StepBlock(s);
        var d := Translate(s[1..]);
        NothingLost(s[1..]);
        NothingLost(d.rest);
        var tail := Translate(d.rest);
        FlattenPrepend(Nested(op, d.parts), tail.parts);
        Splice(op, Flatten(d.parts), [], Flatten(tail.parts), tail.rest);
      } else if op.If? {
        StepIf(s);
        var d := Translate(s[1..]);
        NothingLost(s[1..]);
        var elseArm, rest := [], d.rest;
        if !EndsWith(d.parts, End) {
          NothingLost(d.rest);
          elseArm, rest := Translate(d.rest).parts, Translate(d.rest).rest;
        }
        NothingLost(rest);
        var tail := Translate(rest);
        FlattenPrepend(Condition(op, d.parts, elseArm), tail.parts);
        Splice(op, Flatten(d.parts), Flatten(elseArm), Flatten(tail.parts), tail.rest);
      } else {
        StepLeaf(s);
        NothingLost(s[1..]);
        var tail := Translate(s[1..]);
        FlattenPrepend(Leaf(op), tail.parts);
        Splice(op, [], [], Flatten(tail.parts), tail.rest);
      }
    }
  }

  lemma NothingToDo()
    ensures Flatten([]) == [] && Items([]) == [] && Translate([]) == Done([], [])
  {
  }

  lemma FirstOperator(s: seq<Item>) returns (op: Operator)
    requires s != [] && Translate(s).Done?
    ensures s[0] == Next(op)
  {
    op := s[0].op;
  }

  function Head(p: Part): Operator
  {
    if p.Leaf? then p.op else p.opener
  }

  function FirstArmOf(p: Part): seq<Part>
  {
    match p
    case Leaf(_) => []
    case Nested(_, parts) => parts
    case Condition(_, thenArm, _) => thenArm
  }

  function SecondArmOf(p: Part): seq<Part>
  {
    if p.Condition? then p.elseArm else []
  }

  lemma FlattenPrepend(p: Part, parts: seq<Part>)
    ensures Flatten([p] + parts) == [Head(p)] + Flatten(FirstArmOf(p)) + Flatten(SecondArmOf(p)) + Flatten(parts)
  {
    assert ([p] + parts)[1..] == parts;
    assert Flatten([]) == [];
  }

  /** The stream `op, a, b, c, rest` put together from its pieces. */
  lemma Splice(op: Operator, a: seq<Operator>, b: seq<Operator>, c: seq<Operator>, rest: seq<Item>)
    ensures Items([op] + a + b + c) + rest == [Next(op)] + (Items(a) + (Items(b) + (Items(c) + rest)))
  {
    hide Items;
    ItemsConcat(b, c);
    ItemsConcat(a, b + c);
    ItemsCons(op, a + (b + c));
    assert [op] + a + b + c == [op] + (a + (b + c));
  }

  // ----- well-nested trees -----

  /** A run of complete parts closed by `closer`. */
  ghost predicate Body(parts: seq<Part>, closer: Operator)
    decreases parts, 1
  {
    parts != [] &&
    if |parts| == 1 then parts[0] == Leaf(closer) else Complete(parts[0]) && Body(parts[1..], closer)
  }

  ghost predicate Complete(p: Part)
    decreases p, 0
  {
    match p
    case Leaf(op) => ControlFree(op)
    case Nested(opener, parts) => opener.Block? && Body(parts, End)
    case Condition(opener, thenArm, elseArm) =>
      opener.If? &&
      ((Body(thenArm, End) && elseArm == []) || (Body(thenArm, Else) && Body(elseArm, End)))
  }

  /** What closes the first arm of a complete condition. */
  function CloserOf(p: Part): Operator
    requires p.Condition?
  {
    if p.elseArm == [] then End else Else
  }

  lemma CompleteCondition(p: Part)
    requires Complete(p) && p.Condition?
    ensures p.opener.If? && Body(p.thenArm, CloserOf(p)) && (p.elseArm == [] || Body(p.elseArm, End))
  {
  }

  lemma {:induction false} BodyLast(parts: seq<Part>, closer: Operator)
    requires Body(parts, closer)
    ensures parts[|parts| - 1] == Leaf(closer)
  {
    if |parts| > 1 {
      BodyLast(parts[1..], closer);
    }
  }

  /** On well-nested trees translation undoes flattening, whatever follows in the stream. */
  lemma {:induction false} TranslateFlatten(parts: seq<Part>, closer: Operator, t: seq<Item>)
    requires Body(parts, closer) && Closes(closer)
    ensures Translate(Items(Flatten(parts)) + t) == Done(parts, t)
    decreases parts, 1
  {
    hide Items, Flatten, Translate;
    NothingToDo();
    var p, tail := parts[0], parts[1..];
    assert parts == [p] + tail;
    FlattenPrepend(p, tail);
    var rest := Items(Flatten(tail)) + t;
    Splice(Head(p), Flatten(FirstArmOf(p)), Flatten(SecondArmOf(p)), Flatten(tail), t);
    var s := Items(Flatten(parts)) + t;
    assert s[0] == Next(Head(p)) && s[1..] == Items(Flatten(FirstArmOf(p))) + (Items(Flatten(SecondArmOf(p))) + rest);
    if |parts| == 1 {
      assert s[1..] == t;
      StepClose(s);
    } else {
      TranslateFlatten(tail, closer, t);
      match p
      case Leaf(op) =>
        assert s[1..] == rest;
        StepLeaf(s);
      case Nested(opener, inner) =>
        assert s[1..] == Items(Flatten(inner)) + rest;
        TranslateFlatten(inner, End, rest);
        StepBlock(s);
      case Condition(opener, thenArm, elseArm) =>
        StepIf(s);
        if Body(thenArm, End) && elseArm == [] {
          BodyLast(thenArm, End);
          assert s[1..] == Items(Flatten(thenArm)) + rest;
          TranslateFlatten(thenArm, End, rest);
        } else {
          BodyLast(thenArm, Else);
          TranslateFlatten(thenArm, Else, Items(Flatten(elseArm)) + rest);
          TranslateFlatten(elseArm, End, rest);
        }
    }
  }

  // ----- when it panics -----

  /** Whether an open construct is the first arm of a condition, in which an `Else` does not close it. */
  datatype Open = FirstArm | Other

  /**
    One pass over the stream that decides whether translating it panics: it meets a decoding error, or
    a condition is the very last operator, before the constructs in `open` are all closed.
   */
  predicate Panics(s: seq<Item>, open: seq<Open>)
  {
    open != [] && s != [] &&
    (s[0].Fail? ||
     match s[0].op
     case If(_) => |s| == 1 || Panics(s[1..], [FirstArm] + open)
     case Block(_, _) => Panics(s[1..], [Other] + open)
     case Else => Panics(s[1..], if open[0].FirstArm? then [Other] + open[1..] else open[1..])
     case End => Panics(s[1..], open[1..])
     case _ => Panics(s[1..], open))
  }

  /** What is still open once an expression has been read inside `open[0]`. */
  function OpenAfter(parts: seq<Part>, open: seq<Open>): seq<Open>
    requires open != []
  {
    if EndsWith(parts, Else) && open[0].FirstArm? then [Other] + open[1..] else open[1..]
  }

  /** One step of the scan. */
  lemma PanicsStep(s: seq<Item>, open: seq<Open>)
    requires open != [] && s != [] && s[0].Next?
    ensures Panics(s, open) <==>
            match s[0].op
            case If(_) => |s| == 1 || Panics(s[1..], [FirstArm] + open)
            case Block(_, _) => Panics(s[1..], [Other] + open)
            case Else => Panics(s[1..], if open[0].FirstArm? then [Other] + open[1..] else open[1..])
            case End => Panics(s[1..], open[1..])
            case _ => Panics(s[1..], open)
  {
  }

  /** The scan is over at the end of the stream and when nothing is open. */
  lemma PanicsOver(s: seq<Item>, open: seq<Open>)
    ensures s == [] || open == [] ==> !Panics(s, open)
    ensures s != [] && open != [] && s[0].Fail? ==> Panics(s, open)
  {
  }

  lemma {:induction false} PanicsScan(s: seq<Item>, open: seq<Open>)
    requires open != []
    ensures Panics(s, open) <==> PanicsVia(Translate(s), open)
    ensures Translate(s).Done? && !EndsWith(Translate(s).parts, End) && !EndsWith(Translate(s).parts, Else) ==>
              Translate(s).rest == []
    ensures Translate(s).Done? && Translate(s).parts == [] ==> s == []
    decreases |s|
  {
    hide Translate, Panics;
    NothingToDo();
    PanicsOver(s, open);
    forall o
      ensures !Panics([], o)
    {
      PanicsOver([], o);
    }
    if s == [] {
    } else if s[0].Fail? {
      StepFail(s);
    } else {
      var op := s[0].op;
      PanicsStep(s, open);
      if Closes(op) {
        StepClose(s);
      } else if ControlFree(op) {
        StepLeaf(s);
        PanicsScan(s[1..], open);
      } else {
        var inner := [if op.If? then FirstArm else Other] + open;
        PanicsScan(s[1..], inner);
        var d := Translate(s[1..]);
        assert inner[1..] == open && ([Other] + open)[1..] == open;
        if op.Block? {
          StepBlock(s);
          if d.Done? {
            PanicsScan(d.rest, open);
          }
        } else {
          StepIf(s);
          if d.Done? && d.parts != [] {
            if EndsWith(d.parts, End) {
              PanicsScan(d.rest, open);
            } else {
              PanicsScan(d.rest, [Other] + open);
              var e := Translate(d.rest);
              if e.Done? {
                PanicsScan(e.rest, open);
              }
            }
          }
        }
      }
    }
  }

  ghost predicate PanicsVia(o: Outcome, open: seq<Open>)
    requires open != []
  {
    match o
    case Panic => true
    case Done(parts, rest) => Panics(rest, OpenAfter(parts, open))
  }

  lemma StepFail(s: seq<Item>)
    requires s != [] && s[0].Fail?
    ensures Translate(s) == Panic
  {
  }

  /** Translation panics exactly on the streams singled out by the one-pass scan. */
  lemma PanicsExactly(s: seq<Item>)
    ensures Translate(s).Panic? <==> Panics(s, [Other])
  {
    PanicsScan(s, [Other]);
  }
}
