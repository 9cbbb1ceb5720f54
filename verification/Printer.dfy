/** Printing an expression as nested cons lists, at the level of tokens, and reading it back. */
module Printer {
  import opened Operators
  import opened Expressions

  datatype Token = Atom(op: Operator) | Open | Close | Cons | Nil

  /** The tokens of an expression; `Else` and `End` markers leave no trace. */
  function Print(parts: seq<Part>): seq<Token>
    decreases parts
  {
    if parts == [] then [Nil] else PrintPart(parts[0]) + Print(parts[1..])
  }

  function PrintPart(p: Part): seq<Token>
    decreases p
  {
    match p
    case Leaf(op) => if Closes(op) then [] else [Atom(op), Cons]
    case Nested(opener, parts) => [Atom(opener), Open] + Print(parts) + [Close, Cons]
    case Condition(opener, thenArm, elseArm) =>
      [Atom(opener), Open] + Print(thenArm) + [Close, Open] + Print(elseArm) + [Close, Cons]
  }

  /** The printer as it runs: one pass over the parts, appending to the output. */
  method PrintWithOffset(parts: seq<Part>) returns (res: seq<Token>)
    ensures res == Print(parts)
    decreases parts
  {
    hide Print;
    res := [];
    for i := 0 to |parts|
      invariant res + Print(parts[i..]) == Print(parts)
    {
      var part := parts[i];
      assert parts[i..] == [part] + parts[i + 1..];
      PrintPrepend(part, parts[i + 1..]);
      assert res + (PrintPart(part) + Print(parts[i + 1..])) == res + PrintPart(part) + Print(parts[i + 1..]);
      match part {
        case Leaf(op) =>
          if !op.Else? && !op.End? {
            res := res + [Atom(op), Cons];
          }
        case Nested(opener, inner) =>
          var body := PrintWithOffset(inner);
          res := res + ([Atom(opener), Open] + body + [Close, Cons]);
        case Condition(opener, thenArm, elseArm) =>
          var first := PrintWithOffset(thenArm);
          var second := PrintWithOffset(elseArm);
          res := res + ([Atom(opener), Open] + first + [Close, Open] + second + [Close, Cons]);
      }
    }
    PrintNothing();
    assert parts[|parts|..] == [];
    res := res + [Nil];
  }

  lemma PrintPrepend(p: Part, parts: seq<Part>)
    ensures Print([p] + parts) == PrintPart(p) + Print(parts)
  {
    assert ([p] + parts)[1..] == parts;
  }

  lemma PrintNothing()
    ensures Print([]) == [Nil]
  {
  }

  // ----- reading back -----

  datatype Read = Read(parts: seq<Part>, rest: seq<Token>) | Malformed {
    function Prepend(p: Part): Read {
      match this
      case Read(parts, rest) => Read([p] + parts, rest)
      case Malformed => Malformed
    }
  }

  /** Reads one cons list off the front of `ts`. */
  function Parse(ts: seq<Token>): (r: Read)
    ensures r.Read? ==> |r.rest| < |ts|
    decreases |ts|
  {
    if ts == [] then Malformed
    else if ts[0] == Nil then Read([], ts[1..])
    else if |ts| == 1 || !ts[0].Atom? then Malformed
    else if ts[1] == Cons then Parse(ts[2..]).Prepend(Leaf(ts[0].op))
    else if ts[1] != Open then Malformed
    else
      match Parse(ts[2..])
      case Malformed => Malformed
      case Read(first, r) =>
        if [Close, Cons] <= r && !ts[0].op.If? then Parse(r[2..]).Prepend(Nested(ts[0].op, first))
        else if [Close, Open] <= r && ts[0].op.If? then
          match Parse(r[2..])
          case Malformed => Malformed
          case Read(second, r') =>
            if [Close, Cons] <= r' then Parse(r'[2..]).Prepend(Condition(ts[0].op, first, second)) else Malformed
        else Malformed
  }

  /** The tree without its `Else` and `End` markers. */
  function Erase(parts: seq<Part>): seq<Part>
    decreases parts
  {
    if parts == [] then []
    else
      match parts[0]
      case Leaf(op) => (if Closes(op) then [] else [parts[0]]) + Erase(parts[1..])
      case Nested(opener, inner) => [Nested(opener, Erase(inner))] + Erase(parts[1..])
      case Condition(opener, thenArm, elseArm) =>
        [Condition(opener, Erase(thenArm), Erase(elseArm))] + Erase(parts[1..])
  }

  /** Nested parts are opened by blocks and conditions by `If`, as in every translated tree. */
  ghost predicate Shaped(parts: seq<Part>)
    decreases parts
  {
    parts == [] || (ShapedPart(parts[0]) && Shaped(parts[1..]))
  }

  ghost predicate ShapedPart(p: Part)
    decreases p
  {
    match p
    case Leaf(_) => true
    case Nested(opener, inner) => opener.Block? && Shaped(inner)
    case Condition(opener, thenArm, elseArm) => opener.If? && Shaped(thenArm) && Shaped(elseArm)
  }

  lemma ShapedPrepend(p: Part, parts: seq<Part>)
    requires ShapedPart(p) && Shaped(parts)
    ensures Shaped([p] + parts)
  {
    assert ([p] + parts)[1..] == parts;
  }

  lemma {:induction false} TranslatedIsShaped(s: seq<Item>)
    requires Translate(s).Done?
    ensures Shaped(Translate(s).parts)
    decreases |s|
  {
    hide Translate;
    NothingToDo();
    if s != [] {
      var op := FirstOperator(s);
      if Closes(op) {
        StepClose(s);
      } else if op.Block? {
        StepBlock(s);
        TranslatedIsShaped(s[1..]);
        var d := Translate(s[1..]);
        TranslatedIsShaped(d.rest);
        ShapedPrepend(Nested(op, d.parts), Translate(d.rest).parts);
      } else if op.If? {
        StepIf(s);
        var d := Translate(s[1..]);
        TranslatedIsShaped(s[1..]);
        TranslatedIsShaped(d.rest);
        var e := Translate(d.rest);
        if !EndsWith(d.parts, End) {
          TranslatedIsShaped(e.rest);
          ShapedPrepend(Condition(op, d.parts, e.parts), Translate(e.rest).parts);
        } else {
          ShapedPrepend(Condition(op, d.parts, []), e.parts);
        }
      } else {
        StepLeaf(s);
        TranslatedIsShaped(s[1..]);
        ShapedPrepend(Leaf(op), Translate(s[1..]).parts);
      }
    }
  }

  lemma ParseLeaf(op: Operator, t: seq<Token>)
    ensures Parse([Atom(op), Cons] + t) == Parse(t).Prepend(Leaf(op))
  {
    assert ([Atom(op), Cons] + t)[2..] == t;
  }

  /** One level of parsing behind an opener. */
  lemma ParseOpened(op: Operator, r: seq<Token>, first: seq<Part>, rest: seq<Token>)
    requires Parse(r) == Read(first, rest)
    ensures !op.If? && [Close, Cons] <= rest ==>
              Parse([Atom(op), Open] + r) == Parse(rest[2..]).Prepend(Nested(op, first))
    ensures op.If? && [Close, Open] <= rest ==>
              Parse([Atom(op), Open] + r) ==
              match Parse(rest[2..])
              case Malformed => Malformed
              case Read(second, r') =>
                if [Close, Cons] <= r' then Parse(r'[2..]).Prepend(Condition(op, first, second)) else Malformed
  {
    assert ([Atom(op), Open] + r)[2..] == r;
  }

  lemma Behind(x: Token, y: Token, t: seq<Token>)
    ensures [x, y] <= [x, y] + t && ([x, y] + t)[2..] == t
  {
  }

  lemma Assoc<T>(h: seq<T>, a: seq<T>, e: seq<T>, t: seq<T>)
    ensures h + a + e + t == h + (a + (e + t))
  {
  }

  /** Reading what was printed for one part. */
  lemma {:induction false} ParsePart(p: Part, t: seq<Token>)
    requires ShapedPart(p) && !(p.Leaf? && Closes(p.op))
    ensures Parse(PrintPart(p) + t) == Parse(t).Prepend(ErasePart(p))
    decreases p
  {
    hide Parse, Print, Erase;
    match p
    case Leaf(op) => ParseLeaf(op, t);
    case Nested(opener, inner) =>
      ParsePrint(inner, [Close, Cons] + t);
      ParseOpened(opener, Print(inner) + ([Close, Cons] + t), Erase(inner), [Close, Cons] + t);
      Behind(Close, Cons, t);
      Assoc([Atom(opener), Open], Print(inner), [Close, Cons], t);
    case Condition(opener, thenArm, elseArm) =>
      var second := Print(elseArm) + ([Close, Cons] + t);
      ParsePrint(thenArm, [Close, Open] + second);
      ParsePrint(elseArm, [Close, Cons] + t);
      ParseOpened(opener, Print(thenArm) + ([Close, Open] + second), Erase(thenArm), [Close, Open] + second);
      Behind(Close, Open, second);
      Behind(Close, Cons, t);
      Assoc([Atom(opener), Open] + Print(thenArm) + [Close, Open], Print(elseArm), [Close, Cons], t);
      Assoc([Atom(opener), Open], Print(thenArm), [Close, Open], second);
  }

  /** Reading what was printed gives the tree up to its markers, and stops right behind it. */
  lemma {:induction false} ParsePrint(parts: seq<Part>, t: seq<Token>)
    requires Shaped(parts)
    ensures Parse(Print(parts) + t) == Read(Erase(parts), t)
    decreases parts
  {
    hide Parse, Print, Erase, PrintPart, ErasePart;
    if parts == [] {
      EraseNothing();
      PrintNothing();
      ParseNil(t);
    } else {
      var p, tail := parts[0], Print(parts[1..]) + t;
      ParsePrint(parts[1..], t);
      assert parts == [p] + parts[1..];
      PrintPrepend(p, parts[1..]);
      EraseHead(parts);
      assert PrintPart(p) + Print(parts[1..]) + t == PrintPart(p) + tail;
      if p.Leaf? && Closes(p.op) {
        PrintMarker(p);
        assert [] + tail == tail;
      } else {
        ParsePart(p, tail);
      }
    }
  }

  lemma PrintMarker(p: Part)
    requires p.Leaf? && Closes(p.op)
    ensures PrintPart(p) == []
  {
  }

  lemma EraseNothing()
    ensures Erase([]) == []
  {
  }

  lemma EraseHead(parts: seq<Part>)
    requires parts != []
    ensures Erase(parts) ==
            if parts[0].Leaf? && Closes(parts[0].op) then Erase(parts[1..])
            else [ErasePart(parts[0])] + Erase(parts[1..])
  {
    assert [] + Erase(parts[1..]) == Erase(parts[1..]);
  }

  lemma ParseNil(t: seq<Token>)
    ensures Parse([Nil] + t) == Read([], t)
  {
    assert ([Nil] + t)[1..] == t;
  }

  lemma {:induction false} PrintErase(parts: seq<Part>)
    ensures Print(Erase(parts)) == Print(parts)
    decreases parts
  {
    if parts != [] {
      var p := parts[0];
      PrintErase(parts[1..]);
      EraseHead(parts);
      match p
      case Leaf(op) =>
        PrintPrepend(p, Erase(parts[1..]));
      case Nested(opener, inner) =>
        PrintErase(inner);
        PrintPrepend(Nested(opener, Erase(inner)), Erase(parts[1..]));
      case Condition(opener, thenArm, elseArm) =>
        PrintErase(thenArm);
        PrintErase(elseArm);
        PrintPrepend(Condition(opener, Erase(thenArm), Erase(elseArm)), Erase(parts[1..]));
    }
  }

  /** Two trees print alike exactly when they agree up to their markers. */
  lemma PrintInjective(a: seq<Part>, b: seq<Part>)
    requires Shaped(a) && Shaped(b)
    ensures Print(a) == Print(b) <==> Erase(a) == Erase(b)
  {
    hide Print, Erase, Parse;
    ParsePrint(a, []);
    ParsePrint(b, []);
    PrintErase(a);
    PrintErase(b);
  }

  // ----- what printing cannot tell apart -----

  predicate AbsentOrEmpty(arm: seq<Part>)
  {
    arm == [] || arm == [Leaf(End)]
  }

  /** The same body, but for conditions of which one has no else arm and the other an empty one. */
  ghost predicate Alike(a: seq<Part>, b: seq<Part>)
    decreases a
  {
    if |a| <= 1 || |b| <= 1 then |a| == |b| == 1
    else AlikePart(a[0], b[0]) && Alike(a[1..], b[1..])
  }

  ghost predicate AlikePart(p: Part, q: Part)
    decreases p
  {
    match (p, q)
    case (Leaf(x), Leaf(y)) => x == y
    case (Nested(x, a), Nested(y, b)) => x == y && Alike(a, b)
    case (Condition(x, a, c), Condition(y, b, d)) =>
      x == y && Alike(a, b) && ((AbsentOrEmpty(c) && AbsentOrEmpty(d)) || Alike(c, d))
    case (_, _) => false
  }

  /** Erasing markers identifies exactly the trees that differ in absent versus empty else arms. */
  lemma {:induction false} EraseAlike(a: seq<Part>, b: seq<Part>, ca: Operator, cb: Operator)
    requires Body(a, ca) && Body(b, cb) && Closes(ca) && Closes(cb)
    ensures Erase(a) == Erase(b) <==> Alike(a, b)
    decreases a
  {
    hide Erase;
    EraseFront(a, ca);
    EraseFront(b, cb);
    if |a| > 1 && |b| > 1 {
      EraseAlike(a[1..], b[1..], ca, cb);
      EraseAlikePart(a[0], b[0]);
      ConsEqual(ErasePart(a[0]), Erase(a[1..]), ErasePart(b[0]), Erase(b[1..]));
    }
  }

  lemma {:induction false} EraseAlikePart(p: Part, q: Part)
    requires Complete(p) && Complete(q)
    ensures ErasePart(p) == ErasePart(q) <==> AlikePart(p, q)
    decreases p
  {
    hide Erase;
    match (p, q)
    case (Nested(_, a), Nested(_, b)) =>
      EraseAlike(a, b, End, End);
    case (Condition(_, a, c), Condition(_, b, d)) =>
      CompleteCondition(p);
      CompleteCondition(q);
      EraseAlike(a, b, CloserOf(p), CloserOf(q));
      EraseElse(c);
      EraseElse(d);
      if c != [] && d != [] {
        EraseAlike(c, d, End, End);
      }
    case (_, _) =>
  }

  function ErasePart(p: Part): Part
  {
    match p
    case Leaf(_) => p
    case Nested(opener, inner) => Nested(opener, Erase(inner))
    case Condition(opener, thenArm, elseArm) => Condition(opener, Erase(thenArm), Erase(elseArm))
  }

  lemma ConsEqual<T>(x: T, xs: seq<T>, y: T, ys: seq<T>)
    ensures [x] + xs == [y] + ys <==> x == y && xs == ys
  {
    if [x] + xs == [y] + ys {
      assert ([x] + xs)[0] == x && ([x] + xs)[1..] == xs && ([y] + ys)[0] == y && ([y] + ys)[1..] == ys;
    }
  }

  lemma EraseFront(a: seq<Part>, c: Operator)
    requires Body(a, c) && Closes(c)
    ensures Erase(a) == if |a| == 1 then [] else [ErasePart(a[0])] + Erase(a[1..])
  {
    EraseHead(a);
    assert |a| == 1 ==> Erase(a[1..]) == [];
  }

  lemma EraseElse(arm: seq<Part>)
    requires arm == [] || Body(arm, End)
    ensures Erase(arm) == [] <==> AbsentOrEmpty(arm)
  {
    if arm != [] {
      EraseFront(arm, End);
      assert |arm| == 1 ==> arm == [Leaf(End)];
    }
  }

  lemma {:induction false} BodyIsShaped(a: seq<Part>, c: Operator)
    requires Body(a, c)
    ensures Shaped(a)
    decreases a
  {
    if |a| == 1 {
      assert a[1..] == [] && Shaped(a[1..]);
    } else {
      BodyIsShaped(a[1..], c);
      match a[0]
      case Leaf(_) =>
      case Nested(_, inner) => BodyIsShaped(inner, End);
      case Condition(_, thenArm, elseArm) =>
        CompleteCondition(a[0]);
        BodyIsShaped(thenArm, CloserOf(a[0]));
        if elseArm != [] {
          BodyIsShaped(elseArm, End);
        }
    }
  }

  /** The only distinct well-nested trees that print alike differ in absent versus empty else arms. */
  lemma PrintAlike(a: seq<Part>, b: seq<Part>)
    requires Body(a, End) && Body(b, End)
    ensures Print(a) == Print(b) <==> Alike(a, b)
  {
    hide Print, Erase, Alike, Shaped, Body;
    BodyIsShaped(a, End);
    BodyIsShaped(b, End);
    PrintInjective(a, b);
    EraseAlike(a, b, End, End);
  }

  /** No condition spells out an else arm with nothing in it. */
  ghost predicate NoEmptyElse(a: seq<Part>)
    decreases a
  {
    a == [] || (NoEmptyElsePart(a[0]) && NoEmptyElse(a[1..]))
  }

  ghost predicate NoEmptyElsePart(p: Part)
    decreases p
  {
    match p
    case Leaf(_) => true
    case Nested(_, inner) => NoEmptyElse(inner)
    case Condition(_, thenArm, elseArm) => elseArm != [Leaf(End)] && NoEmptyElse(thenArm) && NoEmptyElse(elseArm)
  }

  lemma AlikeAbsent(u: seq<Part>, v: seq<Part>)
    requires u != [Leaf(End)] && v != [Leaf(End)] && ((AbsentOrEmpty(u) && AbsentOrEmpty(v)) || Alike(u, v))
    ensures u == [] <==> v == []
    ensures u != [] ==> Alike(u, v)
  {
  }

  lemma {:induction false} AlikeIsEqual(a: seq<Part>, b: seq<Part>, c: Operator)
    requires Body(a, c) && Body(b, c) && NoEmptyElse(a) && NoEmptyElse(b) && Alike(a, b)
    ensures a == b
    decreases a
  {
    if |a| > 1 {
      AlikeIsEqual(a[1..], b[1..], c);
      match (a[0], b[0])
      case (Nested(_, x), Nested(_, y)) =>
        AlikeIsEqual(x, y, End);
      case (Condition(_, x, u), Condition(_, y, v)) =>
        CompleteCondition(a[0]);
        CompleteCondition(b[0]);
        AlikeAbsent(u, v);
        AlikeIsEqual(x, y, CloserOf(a[0]));
        if u != [] {
          AlikeIsEqual(u, v, End);
        }
      case (_, _) =>
      assert a == [a[0]] + a[1..] && b == [b[0]] + b[1..];
    }
  }

  /** On trees without empty else arms printing is injective. */
  lemma PrintFaithful(a: seq<Part>, b: seq<Part>)
    requires Body(a, End) && Body(b, End) && NoEmptyElse(a) && NoEmptyElse(b)
    requires Print(a) == Print(b)
    ensures a == b
  {
    hide Print, Alike, Body, NoEmptyElse;
    PrintAlike(a, b);
    AlikeIsEqual(a, b, End);
  }

  const ABSENT_ELSE: seq<Part> := [Condition(If(Empty), [Leaf(End)], []), Leaf(End)]
  const EMPTY_ELSE: seq<Part> := [Condition(If(Empty), [Leaf(Else)], [Leaf(End)]), Leaf(End)]

  /** An `if` without `else` and one with an empty `else` give the same text. */
  lemma EmptyElseIsLost()
    ensures Body(ABSENT_ELSE, End) && Body(EMPTY_ELSE, End)
    ensures ABSENT_ELSE != EMPTY_ELSE && Print(ABSENT_ELSE) == Print(EMPTY_ELSE)
  {
    assert ABSENT_ELSE[1..] == [Leaf(End)] && EMPTY_ELSE[1..] == [Leaf(End)];
    assert Alike([Leaf(End)], [Leaf(End)]);
    PrintAlike(ABSENT_ELSE, EMPTY_ELSE);
  }
}
