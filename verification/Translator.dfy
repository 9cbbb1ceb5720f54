/** From bytes to expression trees: the operator iterator and the translator that drains it. */
module Translator {
  import opened Bits
  import opened Decoded
  import opened Operators
  import opened OperatorGrammar
  import opened Readers
  import opened Expressions

  /** Everything the operator iterator yields on `bytes`: operators up to the end, or up to and including an error. */
  function Stream(bytes: seq<byte>): seq<Item>
    decreases |bytes|
  {
    if bytes == [] then []
    else
      match OperatorAt(bytes)
      case Got(op, n) => [Next(op)] + Stream(bytes[n..])
      case Bad(f, _, _) => [Fail(f)]
  }

  /** `bytes` is a concatenation of encodings of `ops`. */
  ghost predicate Encodes(bytes: seq<byte>, ops: seq<Operator>)
    decreases ops
  {
    if ops == [] then bytes == []
    else exists k :: 0 <= k <= |bytes| && IsOperator(bytes[..k], ops[0]) && Encodes(bytes[k..], ops[1..])
  }

  lemma {:induction false} StreamOfEncoding(bytes: seq<byte>, ops: seq<Operator>, t: seq<byte>)
    requires Encodes(bytes, ops)
    ensures Stream(bytes + t) == Items(ops) + Stream(t)
    decreases ops
  {
    hide OperatorAt, IsOperator;
    if ops == [] {
      assert bytes + t == t;
    } else {
      var k :| 0 <= k <= |bytes| && IsOperator(bytes[..k], ops[0]) && Encodes(bytes[k..], ops[1..]);
      OperatorComplete(bytes[..k], ops[0], bytes[k..] + t);
      assert bytes[..k] + (bytes[k..] + t) == bytes + t;
      assert (bytes + t)[k..] == bytes[k..] + t;
      StreamOfEncoding(bytes[k..], ops[1..], t);
    }
  }

  lemma {:induction false} EncodingOfStream(bytes: seq<byte>, ops: seq<Operator>)
    requires Stream(bytes) == Items(ops)
    ensures Encodes(bytes, ops)
    decreases ops
  {
    hide OperatorAt, IsOperator;
    if bytes == [] {
      assert ops == [];
    } else {
      assert ops != [] && Items(ops)[0] == Next(ops[0]) && Items(ops)[1..] == Items(ops[1..]);
      var n := OperatorAt(bytes).used;
      assert OperatorAt(bytes) == Got(ops[0], n);
      assert Stream(bytes)[1..] == Stream(bytes[n..]);
      OperatorSound(bytes);
      EncodingOfStream(bytes[n..], ops[1..]);
    }
  }

  /**
    End to end: a well-nested tree is what the translator makes of `bytes`, with nothing left over,
    exactly when `bytes` is one of the encodings of its operators.
   */
  lemma EndToEnd(bytes: seq<byte>, tree: seq<Part>)
    requires Body(tree, End)
    ensures Translate(Stream(bytes)) == Done(tree, []) <==> Encodes(bytes, Flatten(tree))
  {
    hide Stream, Translate, Flatten, Items, Encodes;
    if Encodes(bytes, Flatten(tree)) {
      StreamOfEncoding(bytes, Flatten(tree), []);
      assert bytes + [] == bytes;
      StreamOfNothing();
      TranslateFlatten(tree, End, []);
    }
    if Translate(Stream(bytes)) == Done(tree, []) {
      NothingLost(Stream(bytes));
      assert Items(Flatten(tree)) + [] == Items(Flatten(tree));
      EncodingOfStream(bytes, Flatten(tree));
    }
  }

  /** Bytes after the encoding of a tree do not disturb it and are left to the caller. */
  lemma EndToEndPrefix(bytes: seq<byte>, tree: seq<Part>, t: seq<byte>)
    requires Body(tree, End) && Encodes(bytes, Flatten(tree))
    ensures Translate(Stream(bytes + t)) == Done(tree, Stream(t))
  {
    hide Stream, Translate, Flatten, Items, Encodes;
    StreamOfEncoding(bytes, Flatten(tree), t);
    TranslateFlatten(tree, End, Stream(t));
  }

  /** A body that is a lone `if` with an empty block type: the condition is opened and nothing follows. */
  lemma LoneConditionPanics()
    ensures Stream([0x04, 0x40]) == [Next(If(Empty))] && Translate(Stream([0x04, 0x40])).Panic?
  {
    hide Translate;
    var bytes: seq<byte> := [0x04, 0x40];
    assert bytes[1..] == [0x40] && bytes[2..] == [];
    assert OperatorAt(bytes) == Got(If(Empty), 2);
    PanicsExactly([Next(If(Empty))]);
  }

  lemma StreamOfNothing()
    ensures Stream([]) == []
  {
  }

  // ----- the iterator and the translator as they run -----

  class OperatorsIterator {
    const reader: BinaryReader
    var err: bool

    constructor (reader: BinaryReader)
      requires reader.Valid()
      ensures this.reader == reader && !err && Remaining() == Stream(reader.Rest())
    {
      this.reader, err := reader, false;
    }

    /** The items still to come. */
    ghost function Remaining(): seq<Item>
      requires reader.Valid()
      reads this, reader
    {
      if err then [] else Stream(reader.Rest())
    }

    method Next() returns (item: Option<Result<Operator>>)
      requires reader.Valid()
      modifies this`err, reader`position
      ensures reader.Valid()
      ensures old(Remaining()) == [] <==> item.None?
      ensures item.None? ==> Remaining() == []
      ensures item.Some? ==>
                Remaining() == old(Remaining())[1..] &&
                old(Remaining())[0] ==
                  if item.value.Ok? then Item.Next(item.value.value) else Fail(item.value.error.fault)
    {
      hide OperatorAt;
      if err || reader.Eof() {
        return Option.None;
      }
      ghost var s, start := reader.Rest(), reader.position;
      var result := reader.ReadOperator();
      assert s[reader.position - start..] == reader.Rest();
      err := result.Err?;
      item := Some(result);
    }
  }

  /** Drains `it` up to the operator that closes this expression; `None` stands for a panic. */
  method TranslateExpression(it: OperatorsIterator) returns (result: Option<seq<Part>>)
    requires it.reader.Valid()
    modifies it`err, it.reader`position
    ensures it.reader.Valid()
    ensures match Translate(old(it.Remaining()))
            case Panic => result.None?
            case Done(parts, rest) => result == Some(parts) && it.Remaining() == rest
    decreases |it.Remaining()|
  {
    hide Translate, Stream;
    NothingToDo();
    ghost var all := it.Remaining();
    var parts: seq<Part> := [];
    ResumeStart(Translate(all));
    var item := it.Next();
    ghost var stream := all;
    while item.Some?
      invariant it.reader.Valid() && |stream| <= |all|
      invariant Translate(all) == Resume(parts, Translate(stream))
      invariant if item.None? then stream == [] && it.Remaining() == []
                else stream != [] && it.Remaining() == stream[1..] &&
                     stream[0] == if item.value.Ok? then Item.Next(item.value.value) else Fail(item.value.error.fault)
      decreases |stream|
    {
      if item.value.Err? {
        StepFail(stream);
        return Option.None;
      }
      var op := item.value.value;
      var part: Part;
      if op.Block? {
        StepBlock(stream);
        var inner := TranslateExpression(it);
        if inner.None? {
          return Option.None;
        }
        part := Nested(op, inner.value);
      } else if op.If? {
        StepIf(stream);
        var thenArm := TranslateExpression(it);
        if thenArm.None? || thenArm.value == [] {
          return Option.None;
        }
        var elseArm := Some([]);
        if thenArm.value[|thenArm.value| - 1] != Leaf(End) {
          elseArm := TranslateExpression(it);
          if elseArm.None? {
            return Option.None;
          }
        }
        part := Condition(op, thenArm.value, elseArm.value);
      } else if op.Else? || op.End? {
        StepClose(stream);
        return Some(parts + [Leaf(op)]);
      } else {
        StepLeaf(stream);
        part := Leaf(op);
      }
      ResumePrepend(parts, part, Translate(it.Remaining()));
      parts := parts + [part];
      stream := it.Remaining();
      item := it.Next();
    }
    assert parts + [] == parts;
    result := Some(parts);
  }

  /** The outcome of a translation that has already pushed `parts`. */
  ghost function Resume(parts: seq<Part>, o: Outcome): Outcome
  {
    match o
    case Panic => Panic
    case Done(more, rest) => Done(parts + more, rest)
  }

  lemma ResumeStart(o: Outcome)
    ensures Resume([], o) == o
  {
    if o.Done? {
      assert [] + o.parts == o.parts;
    }
  }

  lemma ResumePrepend(parts: seq<Part>, p: Part, o: Outcome)
    ensures Resume(parts, o.Prepend(p)) == Resume(parts + [p], o)
  {
    if o.Done? {
      assert parts + ([p] + o.parts) == parts + [p] + o.parts;
    }
  }

  /** Translating a buffer: the entry point of a function body or constant expression. */
  method TranslateBytes(bytes: seq<byte>, offset: nat) returns (result: Option<seq<Part>>)
    ensures match Translate(Stream(bytes))
            case Panic => result.None?
            case Done(parts, _) => result == Some(parts)
  {
    var reader := new BinaryReader(bytes, offset);
    var it := new OperatorsIterator(reader);
    assert reader.Rest() == bytes;
    result := TranslateExpression(it);
  }
}
