/** The flat control stack of an operator stream against the nesting of the rebuilt tree. */
module ControlStack {
  import opened Operators
  import opened Expressions

  /** An enclosing construct: the operator that opened it, where in the stream, and whether its `Else` has passed. */
  datatype Frame = Frame(opener: Operator, at: nat, inElse: bool)

  /** Constructs around an operator, innermost first: label `d` names element `d`. */
  type Stack = seq<Frame>

  predicate AwaitsElse(stack: Stack)
  {
    stack != [] && stack[0].opener.If? && !stack[0].inElse
  }

  predicate CanStep(stack: Stack, op: Operator)
  {
    (op.Else? ==> AwaitsElse(stack)) && (op.End? ==> stack != [])
  }

  /** The stack after `op`, which stands at index `i` of the stream. */
  function Step(stack: Stack, op: Operator, i: nat): Stack
    requires CanStep(stack, op)
  {
    match op
    case Block(_, _) => [Frame(op, i, false)] + stack
    case If(_) => [Frame(op, i, false)] + stack
    case Else => [stack[0].(inElse := true)] + stack[1..]
    case End => stack[1..]
    case _ => stack
  }

  /** The operators from index `i` on can be run from `stack` and close everything in it with the last one. */
  predicate Closing(ops: seq<Operator>, stack: Stack, i: nat)
  {
    if stack == [] then ops == []
    else ops != [] && CanStep(stack, ops[0]) && Closing(ops[1..], Step(stack, ops[0], i), i + 1)
  }

  /** The stack in front of each operator of a flat stream. */
  function FlatLabels(ops: seq<Operator>, stack: Stack, i: nat): seq<Stack>
  {
    if ops == [] then []
    else if CanStep(stack, ops[0]) then [stack] + FlatLabels(ops[1..], Step(stack, ops[0], i), i + 1)
    else [stack]
  }

  /** The constructs around each operator of a tree, by structural recursion. */
  function TreeLabels(parts: seq<Part>, stack: Stack, i: nat): seq<Stack>
    decreases parts
  {
    if parts == [] then []
    else
      var p, next := parts[0], i + |FlattenPart(parts[0])|;
      match p
      case Leaf(_) => [stack] + TreeLabels(parts[1..], stack, next)
      case Nested(opener, inner) =>
        [stack] + TreeLabels(inner, [Frame(opener, i, false)] + stack, i + 1) + TreeLabels(parts[1..], stack, next)
      case Condition(opener, thenArm, elseArm) =>
        [stack] + TreeLabels(thenArm, [Frame(opener, i, false)] + stack, i + 1)
        + TreeLabels(elseArm, [Frame(opener, i, true)] + stack, i + 1 + |Flatten(thenArm)|)
        + TreeLabels(parts[1..], stack, next)
  }

  // ----- running a tree -----

  /** What a body closed by `closer` leaves of the stack it runs in. */
  function Closed(stack: Stack, closer: Operator): Stack
    requires Closes(closer) && CanStep(stack, closer)
  {
    Step(stack, closer, 0)
  }

  /**
    Flattening a body and running it on the control stack visits the operators under the very
    constructs that enclose them in the tree, and then goes on with what follows the body.
   */
  lemma {:induction false} BodyLabels(parts: seq<Part>, closer: Operator, stack: Stack, i: nat, more: seq<Operator>)
    requires Body(parts, closer) && Closes(closer) && CanStep(stack, closer)
    ensures FlatLabels(Flatten(parts) + more, stack, i)
            == TreeLabels(parts, stack, i) + FlatLabels(more, Closed(stack, closer), i + |Flatten(parts)|)
    decreases parts
  {
    hide Flatten, FlattenPart, FlatLabels, TreeLabels, ArmLabels;
    var p, tail := parts[0], parts[1..];
    assert parts == [p] + tail;
    if |parts| == 1 {
      assert parts == [Leaf(closer)];
      CloserLabels(closer, stack, i, more);
    } else {
      var c, j := Flatten(tail) + more, i + |FlattenPart(p)|;
      Front(p, tail, more);
      PartLabels(p, stack, i, c);
      TreeFront(p, tail, stack, i);
      BodyLabels(tail, closer, stack, j, more);
      Regrouped([stack] + ArmLabels(p, stack, i), TreeLabels(tail, stack, j),
                FlatLabels(more, Closed(stack, closer), i + |Flatten(parts)|));
    }
  }

  lemma CloserLabels(closer: Operator, stack: Stack, i: nat, more: seq<Operator>)
    requires Closes(closer) && CanStep(stack, closer)
    ensures FlatLabels(Flatten([Leaf(closer)]) + more, stack, i)
            == TreeLabels([Leaf(closer)], stack, i)
                + FlatLabels(more, Closed(stack, closer), i + |Flatten([Leaf(closer)])|)
  {
    hide FlatLabels;
    assert [Leaf(closer)][1..] == [] && Flatten([]) == [];
    assert Flatten([Leaf(closer)]) == [closer];
    assert TreeLabels([], stack, i + 1) == [];
    assert TreeLabels([Leaf(closer)], stack, i) == [stack];
    StepLabels(closer, more, stack, i);
  }

  /** The labels inside a part, arm after arm. */
  function ArmLabels(p: Part, stack: Stack, i: nat): seq<Stack>
  {
    TreeLabels(FirstArmOf(p), [Frame(Head(p), i, false)] + stack, i + 1)
    + TreeLabels(SecondArmOf(p), [Frame(Head(p), i, true)] + stack, i + 1 + |Flatten(FirstArmOf(p))|)
  }

  lemma Regrouped<T>(a: seq<T>, b: seq<T>, c: seq<T>)
    ensures a + (b + c) == a + b + c
  {
  }

  lemma {:induction false} PartLabels(p: Part, stack: Stack, i: nat, c: seq<Operator>)
    requires Complete(p)
    ensures FlatLabels([Head(p)] + (Flatten(FirstArmOf(p)) + (Flatten(SecondArmOf(p)) + c)), stack, i)
            == [stack] + ArmLabels(p, stack, i) + FlatLabels(c, stack, i + |FlattenPart(p)|)
    decreases p, 1
  {
    hide Flatten, FlattenPart, FlatLabels, TreeLabels;
    var a, b := Flatten(FirstArmOf(p)), Flatten(SecondArmOf(p));
    Front(p, [], []);
    TreeFront(p, [], stack, i);
    StepLabels(Head(p), a + (b + c), stack, i);
    if p.Leaf? {
      assert a + (b + c) == c;
    } else if p.Nested? || p.elseArm == [] {
      assert a + (b + c) == a + c;
      OneArmLabels(p, stack, i, c);
    } else {
      TwoArmLabels(p, stack, i, c);
    }
  }

  lemma {:induction false} OneArmLabels(p: Part, stack: Stack, i: nat, c: seq<Operator>)
    requires Complete(p) && (p.Nested? || (p.Condition? && p.elseArm == []))
    ensures FlatLabels(Flatten(FirstArmOf(p)) + c, Step(stack, Head(p), i), i + 1)
            == ArmLabels(p, stack, i) + FlatLabels(c, stack, i + |FlattenPart(p)|)
    decreases p, 0
  {
    hide Flatten, FlattenPart, FlatLabels, TreeLabels;
    var inner := [Frame(Head(p), i, false)] + stack;
    Front(p, [], []);
    TreeFront(p, [], stack, i);
    assert inner[1..] == stack;
    BodyLabels(FirstArmOf(p), End, inner, i + 1, c);
    assert ArmLabels(p, stack, i) == TreeLabels(FirstArmOf(p), inner, i + 1) + [];
  }

  lemma {:induction false} TwoArmLabels(p: Part, stack: Stack, i: nat, c: seq<Operator>)
    requires Complete(p) && p.Condition? && p.elseArm != []
    ensures FlatLabels(Flatten(p.thenArm) + (Flatten(p.elseArm) + c), Step(stack, Head(p), i), i + 1)
            == ArmLabels(p, stack, i) + FlatLabels(c, stack, i + |FlattenPart(p)|)
    decreases p, 0
  {
    hide Flatten, FlattenPart, FlatLabels, TreeLabels;
    var inner, inner' := [Frame(Head(p), i, false)] + stack, [Frame(Head(p), i, true)] + stack;
    var a, b := Flatten(p.thenArm), Flatten(p.elseArm);
    Front(p, [], []);
    assert inner[1..] == stack && inner'[1..] == stack;
    BodyLabels(p.thenArm, Else, inner, i + 1, b + c);
    BodyLabels(p.elseArm, End, inner', i + 1 + |a|, c);
    var ta, tb := TreeLabels(p.thenArm, inner, i + 1), TreeLabels(p.elseArm, inner', i + 1 + |a|);
    var tc := FlatLabels(c, stack, i + |FlattenPart(p)|);
    assert ta + (tb + tc) == ta + tb + tc;
  }

  lemma TreeFront(p: Part, tail: seq<Part>, stack: Stack, i: nat)
    ensures TreeLabels([p] + tail, stack, i)
            == [stack] + ArmLabels(p, stack, i) + TreeLabels(tail, stack, i + |FlattenPart(p)|)
    ensures forall st, j {:trigger TreeLabels([], st, j)} :: TreeLabels([], st, j) == []
  {
    hide Flatten, FlattenPart;
    assert ([p] + tail)[1..] == tail;
    var a := TreeLabels(FirstArmOf(p), [Frame(Head(p), i, false)] + stack, i + 1);
    var b := TreeLabels(SecondArmOf(p), [Frame(Head(p), i, true)] + stack, i + 1 + |Flatten(FirstArmOf(p))|);
    Regrouped([stack], a, b);
    if !p.Condition? {
      assert b == [];
      assert [stack] + a + b == [stack] + a;
    }
  }

  lemma Front(p: Part, tail: seq<Part>, more: seq<Operator>)
    ensures Flatten([p] + tail) + more
            == [Head(p)] + (Flatten(FirstArmOf(p)) + (Flatten(SecondArmOf(p)) + (Flatten(tail) + more)))
    ensures |Flatten([p] + tail)| == |FlattenPart(p)| + |Flatten(tail)|
    ensures |FlattenPart(p)| == 1 + |Flatten(FirstArmOf(p))| + |Flatten(SecondArmOf(p))|
    ensures Flatten([]) == []
  {
    hide Flatten, FlattenPart;
    FlattenPrepend(p, tail);
    PartLength(p);
    var h, a, b, c := [Head(p)], Flatten(FirstArmOf(p)), Flatten(SecondArmOf(p)), Flatten(tail);
    Regrouped(h + a + b, c, more);
    Regrouped(h + a, b, c + more);
    Regrouped(h, a, b + (c + more));
  }

  lemma PartLength(p: Part)
    ensures |FlattenPart(p)| == 1 + |Flatten(FirstArmOf(p))| + |Flatten(SecondArmOf(p))|
    ensures Flatten([]) == []
  {
  }

  lemma StepLabels(op: Operator, more: seq<Operator>, stack: Stack, i: nat)
    requires CanStep(stack, op)
    ensures FlatLabels([op] + more, stack, i) == [stack] + FlatLabels(more, Step(stack, op, i), i + 1)
  {
    assert ([op] + more)[1..] == more;
  }

  /** The same for what closes what. */
  lemma {:induction false} BodyCloses(parts: seq<Part>, closer: Operator, stack: Stack, i: nat, more: seq<Operator>)
    requires Body(parts, closer) && Closes(closer) && CanStep(stack, closer)
    ensures Closing(Flatten(parts) + more, stack, i)
            <==> Closing(more, Closed(stack, closer), i + |Flatten(parts)|)
    decreases parts
  {
    hide Flatten, FlattenPart, Closing;
    var p, tail := parts[0], parts[1..];
    assert parts == [p] + tail;
    Front(p, tail, more);
    var a, b, c := Flatten(FirstArmOf(p)), Flatten(SecondArmOf(p)), Flatten(tail) + more;
    StepCloses(Head(p), a + (b + c), stack, i);
    if |parts| == 1 {
      assert a + (b + c) == more;
    } else {
      BodyCloses(tail, closer, stack, i + |FlattenPart(p)|, more);
      var inner := [Frame(Head(p), i, false)] + stack;
      if p.Leaf? {
        assert a + (b + c) == c;
      } else if p.Nested? || (Body(p.thenArm, End) && p.elseArm == []) {
        assert a + (b + c) == a + c;
        BodyCloses(FirstArmOf(p), End, inner, i + 1, c);
      } else {
        BodyCloses(p.thenArm, Else, inner, i + 1, b + c);
        BodyCloses(p.elseArm, End, [Frame(Head(p), i, true)] + stack, i + 1 + |a|, c);
      }
    }
  }

  lemma StepCloses(op: Operator, more: seq<Operator>, stack: Stack, i: nat)
    requires CanStep(stack, op)
    ensures stack != [] ==> (Closing([op] + more, stack, i) <==> Closing(more, Step(stack, op, i), i + 1))
  {
    assert ([op] + more)[1..] == more;
  }

  // ----- well-nested streams are exactly the flattened bodies -----

  /** Translating a stream that closes its stack reads one body and leaves a stream that closes the rest. */
  lemma {:induction false} TranslateClosing(ops: seq<Operator>, stack: Stack, i: nat)
    returns (parts: seq<Part>, closer: Operator, left: seq<Operator>, j: nat)
    requires stack != [] && Closing(ops, stack, i)
    ensures Translate(Items(ops)) == Done(parts, Items(left)) && |left| < |ops|
    ensures Closes(closer) && Body(parts, closer) && CanStep(stack, closer)
    ensures Closing(left, Closed(stack, closer), j)
    decreases |ops|
  {
    hide Translate;
    var op, s := ops[0], Items(ops);
    assert s[0] == Next(op) && s[1..] == Items(ops[1..]);
    var after := Step(stack, op, i);
    if Closes(op) {
      StepClose(s);
      return [Leaf(op)], op, ops[1..], i + 1;
    }
    var part, mid, m;
    if op.Block? {
      StepBlock(s);
      var inner, c, left1, j1 := TranslateClosing(ops[1..], after, i + 1);
      part, mid, m := Nested(op, inner), left1, j1;
    } else if op.If? {
      StepIf(s);
      var thenArm, c, left1, j1 := TranslateClosing(ops[1..], after, i + 1);
      BodyLast(thenArm, c);
      part, mid, m := Condition(op, thenArm, []), left1, j1;
      if c.Else? {
        var elseArm, c2, left2, j2 := TranslateClosing(left1, Closed(after, c), j1);
        part, mid, m := Condition(op, thenArm, elseArm), left2, j2;
      }
    } else {
      StepLeaf(s);
      part, mid, m := Leaf(op), ops[1..], i + 1;
    }
    var tail, c3, left3, j3 := TranslateClosing(mid, stack, m);
    assert ([part] + tail)[1..] == tail;
    return [part] + tail, c3, left3, j3;
  }

  /**
    A stream is well nested by the control-stack rules exactly when it flattens a well-nested tree; the
    translator finds that tree, and every label names the same construct before and after.
   */
  lemma LabelsPreserved(ops: seq<Operator>, outer: Frame)
    requires !outer.opener.If?
    ensures Closing(ops, [outer], 0) <==> exists tree :: Body(tree, End) && Flatten(tree) == ops
    ensures Closing(ops, [outer], 0) ==>
              exists tree :: Translate(Items(ops)) == Done(tree, []) && Body(tree, End) &&
                             FlatLabels(ops, [outer], 0) == TreeLabels(tree, [outer], 0)
  {
    hide Flatten, Translate, Closing, Body;
    NothingToDo();
    if Closing(ops, [outer], 0) {
      var tree, c, left, j := TranslateClosing(ops, [outer], 0);
      assert c == End && Closed([outer], End) == [];
      ClosedAll(left, j);
      NothingLost(Items(ops));
      assert Items(Flatten(tree)) + [] == Items(Flatten(tree));
      ItemsInjective(Flatten(tree), ops);
      assert Flatten(tree) + [] == ops;
      BodyLabels(tree, End, [outer], 0, []);
      assert TreeLabels(tree, [outer], 0) + [] == TreeLabels(tree, [outer], 0);
    }
    if exists tree :: Body(tree, End) && Flatten(tree) == ops {
      var tree :| Body(tree, End) && Flatten(tree) == ops;
      BodyCloses(tree, End, [outer], 0, []);
      assert Closed([outer], End) == [];
      ClosedAll([], |Flatten(tree)|);
      assert Flatten(tree) + [] == ops;
    }
  }

  lemma ClosedAll(ops: seq<Operator>, i: nat)
    ensures Closing(ops, [], i) <==> ops == []
  {
  }

  lemma {:induction false} ItemsInjective(a: seq<Operator>, b: seq<Operator>)
    requires Items(a) == Items(b)
    ensures a == b
  {
    if a != [] && b != [] {
      assert Items(a)[0] == Items(b)[0] && Items(a)[1..] == Items(b)[1..];
      ItemsInjective(a[1..], b[1..]);
      assert a == [a[0]] + a[1..] && b == [b[0]] + b[1..];
    }
  }
}
