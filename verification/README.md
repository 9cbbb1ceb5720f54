# Verified models of the Inference compiler's core

This project models the parts of the Inference compiler that carry state, loops
and cross-cutting guarantees, and proves what each of them keeps.

1. **The wasm byte reader.** The integer grammar of section 5.2.2 and the
   instruction encodings of section 5.4 of the WebAssembly Core Specification 2.0
   are written down as predicates (`Leb128.IsUnsigned`, `Leb128.IsSigned`,
   `Operators.IsOperator`, told from the operator and apart from the reader's opcode
   table). `BinaryReader` is a class whose loops work on `position`, `result` and
   `shift` as the source does; each method is proved equal to a decoding function of the remaining bytes, and each decoding function is
   proved to accept exactly the grammar. The result is `Translator.EndToEnd`: bytes
   encode a tree exactly when reading them operator by operator and nesting the
   operators gives that tree and uses every byte.
2. **Control flow in the translator.** Nesting a flat operator stream, flattening it
   back, the control-stack meaning of labels, the stack-height bookkeeping of the
   arity annotations, and printing as cons lists.
3. **Scopes, module paths and the type checker.** A mutable scope tree seen as a
   stack of maps, its module index against a walk by name, and a checker that
   accumulates and deduplicates errors. Its acceptance is related, in both directions,
   to well-typedness in a declarative system, and its whole list of errors is told from
   the syntax (`Complaints`).
4. **The syntax arena and its builder.** Ids are taken parent first and nodes stored
   children first; a successful build leaves a forest that describes the syntax.
5. **Lowering of function bodies.** The emitted trace, its brackets, and what it does
   when executed, against lexical scoping of constants.

Modules: `Bits`, `Decoded`, `Leb128`, `LebLoops`, `Operators`, `OperatorGrammar`,
`Readers`, `ReaderIterators`, `Locality` (1); `Expressions`, `Translator`, `ControlStack`,
`Printer`, `Arity` (2); `Types`, `ScopeTrees`, `ModulePaths`, `SymbolTables`,
`Typing`, `Complaints`, `TypeChecker`, `Programs` (3); `Ordered`, `Arenas`,
`Builders` (4); `Literals`, `Codegen`, `Behaviour`, `Scoping`, `Soundness`,
`Definitions` (5); `Numerals` (3, 5). `dafny verify dfyconfig.toml` checks the whole project.

## Where the code departs from what it promises

- `read_var_s33` does not sign-extend its five-byte path. `OperatorGrammar.VarS33Value`
  says exactly what comes back, `OperatorGrammar.UnextendedMinusOne` is a case, and
  `OperatorGrammar.FuncTypeExact` says that block types are right all the same.
- `translate_expression` panics on some streams. `Expressions.PanicsExactly` gives the
  condition, a left-to-right scan of the stream; `Translator.LoneConditionPanics` is a
  case of two bytes.
- Printing cannot tell an absent else arm from an empty one (`Printer.EmptyElseIsLost`).
  `Printer.PrintAlike` shows that this is the only loss, `Printer.PrintFaithful` that
  there is none without empty else arms.
- The checker accepts some programs that are not well typed: an empty array literal, and
  a non-deterministic value in a nested position, pass without a type
  (`Typing.SilentLiteralIsAccepted`, `Typing.NestedUzumakiIsAccepted`); the literal of a
  constant is not compared with the declared type (`Typing.MisfitConstantIsAccepted`);
  and types declared inside bodies are not looked up (`Typing.UnknownTypeIsAccepted`),
  while those of arguments and results are. `Typing.WellTypedExactly` and
  `Programs.ProgramExactly` say that well-typedness is acceptance together with the
  absence of these four.
- The module index and the walk by name disagree when sibling modules share a name
  (`ModulePaths.TwinsDisagree`); they agree exactly when every indexed module is the
  eldest of its name all the way up (`ModulePaths.AgreesExactly`). A module called `self`
  is indexed and never resolved by that name (`ModulePaths.SelfIsNotSeen`). No program
  reaches this today: the grammar has no modules (core/ast/src/builder.rs:601-623), and the
  callers that write the index are unused: `enter_module`
  (core/type-checker/src/type_checker.rs:1602-1608) and `load_external_module`
  (core/type-checker/src/symbol_table.rs:837-846).
- The lowering keeps constants in one flat table for all functions. A constant redefined
  in an inner block stays redefined after it (`Definitions.InnerConstantLeaks`); a later
  function that uses the name of an earlier one's constant is lowered to a load from a
  slot of another function, which is no valid code (`Definitions.EarlierConstantLeaks`).
- Local variables and arguments have no code. A use of one finds the latest constant of
  its name, if there is any (`Definitions.VariableIsOverlooked`,
  `Definitions.ArgumentIsOverlooked`), and what a variable's initial value would do, such
  as drawing, does not happen (`Definitions.DrawIsDropped`).
- Lowered code can fail in four more ways. A return inside a quantified block leaves the
  block's end behind the return (`Definitions.ReturnTearsBracket`); a non-void function
  whose code does not end in a return has no terminator; literals are 32 bits wide
  whatever the function returns (`Definitions.BooleanIsRefused`); and a literal that is
  negative, too large for an i32 or not decimal is kept as another number
  (`Literals.WordExactly`, `Definitions.NegativeIsLost`). Code behind a first return does
  no harm to what the function does (`Definitions.DeadUseIsHarmless`).
  `Definitions.ProgramExactly` has the exact condition for all of this, a check on each
  function by itself.
- Only the first of five `br` rules in the arity macro can match, so a branch to a
  forall, exists, assume or unique block counts the block's results, not its
  parameters (`Arity.BrArity`).
- The numbers documented for the non-deterministic opcodes disagree with one another;
  the model follows the decoder.

## Model

| member | source | states |
|---|---|---|
| Leb128.UnsignedComplete | tools/inf-wasmparser/src/binary_reader.rs:506-578 | every uN byte string of section 5.2.2 is decoded to the integer it denotes and consumed exactly, whatever follows it |
| Leb128.UnsignedSound | tools/inf-wasmparser/src/binary_reader.rs:506-578 | whatever is accepted is a uN byte string of the integer returned |
| Leb128.SignedComplete | tools/inf-wasmparser/src/binary_reader.rs:617-723 | the same for sN |
| Leb128.SignedSound | tools/inf-wasmparser/src/binary_reader.rs:617-723 | the same for sN |
| Leb128.UnsignedBounded | tools/inf-wasmparser/src/binary_reader.rs:516-578 | accepted or refused, no more than ceil(N/7) bytes are read |
| Leb128.SignedBounded | tools/inf-wasmparser/src/binary_reader.rs:627-723 | the same for sN |
| Leb128.UnsignedRefused | tools/inf-wasmparser/src/binary_reader.rs:516-578 | which of the three errors is reported, and where: the end of input, one byte too many, or a last byte whose bits do not fit |
| Leb128.SignedRefused | tools/inf-wasmparser/src/binary_reader.rs:627-723 | the same for sN, where the bits that do not fit must repeat the sign |
| LebLoops.UnsignedStep | tools/inf-wasmparser/src/binary_reader.rs:519-538 | one turn of the loop, with its or, shift and unused-bits test, leaves the outcome of the whole read as it was, for 32 and 64 bits |
| LebLoops.SignedStep | tools/inf-wasmparser/src/binary_reader.rs:630-650 | the same for a byte that cannot be the last one allowed |
| LebLoops.SignedTop | tools/inf-wasmparser/src/binary_reader.rs:633-645 | the sign-and-unused-bits test of the last byte accepts exactly the sN endings, and the pattern then needs no sign extension |
| Bits.SignExtends | tools/inf-wasmparser/src/binary_reader.rs:651-652 | shifting left and arithmetically back sign-extends |
| Bits.OrDisjoint | tools/inf-wasmparser/src/binary_reader.rs:521-521 | or-ing in higher bits is addition |
| Readers.BinaryReader.ReadU8 | tools/inf-wasmparser/src/binary_reader.rs:484-492 | the next byte, or end of input at the current position |
| Readers.BinaryReader.ReadVarU32 | tools/inf-wasmparser/src/binary_reader.rs:506-514 | value, position and error of the u32 grammar; the one-byte path agrees with the loop |
| Readers.BinaryReader.ReadVarU32Big | tools/inf-wasmparser/src/binary_reader.rs:516-542 | the loop, started after a continuation byte, finishes the u32 that began one byte earlier |
| Readers.BinaryReader.ReadVarU64 | tools/inf-wasmparser/src/binary_reader.rs:547-555 | the same for u64 |
| Readers.BinaryReader.ReadVarU64Big | tools/inf-wasmparser/src/binary_reader.rs:557-578 | the same for u64 |
| Readers.BinaryReader.ReadVarI32 | tools/inf-wasmparser/src/binary_reader.rs:617-625 | the same for s32 |
| Readers.BinaryReader.ReadVarI32Big | tools/inf-wasmparser/src/binary_reader.rs:627-653 | the same for s32 |
| Readers.BinaryReader.ReadVarS33 | tools/inf-wasmparser/src/binary_reader.rs:660-690 | the s33 grammar, but for negative five-byte integers |
| Readers.BinaryReader.ReadVarI64 | tools/inf-wasmparser/src/binary_reader.rs:697-723 | value, position and error of the s64 grammar |
| Readers.BinaryReader.ReadSize | tools/inf-wasmparser/src/binary_reader.rs:319-328 | a u32 within a limit; above it an error at the position of the size |
| Readers.BinaryReader.ReadFixed | tools/inf-wasmparser/src/binary_reader.rs:453-482 | little-endian integers of four and eight bytes |
| Readers.BinaryReader.ReadBlockType | tools/inf-wasmparser/src/binary_reader.rs:801-839 | the block-type grammar, with the source's error positions |
| Readers.BinaryReader.ReadMemArg | tools/inf-wasmparser/src/binary_reader.rs:351-380 | alignment, optional memory index and offset, alignment checked after the index |
| Readers.BinaryReader.SkipTargets | tools/inf-wasmparser/src/binary_reader.rs:397-402 | moves over exactly the branch targets, or fails where the first bad one does |
| Readers.BinaryReader.ReadBrTable | tools/inf-wasmparser/src/binary_reader.rs:394-408 | a window of the parent's bytes that holds exactly the skipped targets, and the default |
| Readers.BinaryReader.Window | tools/inf-wasmparser/src/binary_reader.rs:582-590 | a reader over the bytes moved over, with original positions kept |
| Readers.BinaryReader.Shrink | tools/inf-wasmparser/src/binary_reader.rs:226-234 | a reader over the remaining bytes, with original positions kept |
| Readers.BinaryReader.ReadReader | tools/inf-wasmparser/src/binary_reader.rs:442-449 | a size-prefixed window inside the parent, the parent moved past it |
| Readers.VectorWindow | tools/inf-wasmparser/src/binary_reader.rs:582-590 | targets decoded inside their window are the targets that were skipped |
| Readers.BrTableTargets.Next | tools/inf-wasmparser/src/binary_reader.rs:1752-1775 | on a table from the reader the next item is the next target, and after the last one none; never a fault |
| Readers.TargetsOf | tools/inf-wasmparser/src/binary_reader.rs:1732-1775 | iterating such a table yields exactly the encoded targets, in order |
| Readers.BinaryReader.ReadImmediate | tools/inf-wasmparser/src/binary_reader.rs:886-1140 | the immediates of an opcode's shape |
| Readers.BinaryReader.ReadOperator | tools/inf-wasmparser/src/binary_reader.rs:1594-1597 | the operator spelled at the cursor by the table of opcodes, the cursor moved by exactly its bytes, or the error; `OperatorGrammar.OperatorExact` says what the table holds |
| OperatorGrammar.VarS33Value | tools/inf-wasmparser/src/binary_reader.rs:660-690 | the s33 reader returns the denoted integer, plus 2^35 exactly when it is negative and spelled in five bytes |
| OperatorGrammar.UnextendedMinusOne | tools/inf-wasmparser/src/binary_reader.rs:672-681 | the five-byte spelling of -1 comes back as 2^35 - 1 |
| OperatorGrammar.FuncTypeExact | tools/inf-wasmparser/src/binary_reader.rs:828-838 | function type i is returned if and only if the bytes consumed are an s33 spelling of i >= 0 |
| OperatorGrammar.BlockTypeComplete | tools/inf-wasmparser/src/binary_reader.rs:801-839 | every spelling of a block type is read back |
| OperatorGrammar.BlockTypeSound | tools/inf-wasmparser/src/binary_reader.rs:801-839 | whatever is read is spelled by the bytes consumed |
| OperatorGrammar.TableComplete | tools/inf-wasmparser/src/binary_reader.rs:394-408 | every spelling of a branch table is read back |
| OperatorGrammar.TableSound | tools/inf-wasmparser/src/binary_reader.rs:394-408 | whatever is read is spelled by the bytes consumed |
| OperatorGrammar.MemComplete | tools/inf-wasmparser/src/binary_reader.rs:351-380 | the same for memory arguments |
| OperatorGrammar.MemSound | tools/inf-wasmparser/src/binary_reader.rs:351-380 | the same for memory arguments |
| OperatorGrammar.OpcodeExact | tools/inf-wasmparser/src/binary_reader.rs:1301-1397 | plain and 0xfc-prefixed opcodes are read off exactly their spellings, the sub-opcode in any u32 spelling |
| OperatorGrammar.OperatorExact | tools/inf-wasmparser/src/binary_reader.rs:886-1140 | an operator is read with n bytes if and only if those n bytes spell it, in a grammar that gives each operator its opcode and immediates and does not use the reader's tables |
| OperatorGrammar.SpellingExactly | tools/inf-wasmparser/src/binary_reader.rs:886-1140 | the spellings of an operator, told from the operator, are those the table of opcodes and immediates gives it |
| OperatorGrammar.LittleEndianExactly | tools/inf-wasmparser/src/binary_reader.rs:453-482 | four and eight bytes stand for the sum of their digits to base 256, the first counting least |
| OperatorGrammar.IllegalExactly | tools/inf-wasmparser/src/binary_reader.rs:1138-1138 | an opcode is refused as illegal, at its own position, if and only if no operator of any proposal starts with it |
| OperatorGrammar.UnknownExactly | tools/inf-wasmparser/src/binary_reader.rs:1301-1397 | behind the 0xfc prefix a number is refused as unknown if and only if it is none of the operators', however it is spelled |
| OperatorGrammar.OperatorPrefixFree | tools/inf-wasmparser/src/binary_reader.rs:886-1140 | no spelling of an operator is a proper prefix of another spelling |
| Locality.OperatorLocal | tools/inf-wasmparser/src/binary_reader.rs:226-234 | a read of an operator inside a window ends as in the parent, error and position included, unless it runs into the end of the window; and an operator that fits the window is read from it |
| Locality.ImmLocal | tools/inf-wasmparser/src/binary_reader.rs:582-590 | the same for every kind of immediate |
| Locality.UnsignedLocal | tools/inf-wasmparser/src/binary_reader.rs:582-590 | the same for unsigned integers |
| Locality.OperatorStays | tools/inf-wasmparser/src/binary_reader.rs:886-1140 | an outcome that did not come from the end of the input stays the same whatever bytes follow |
| ReaderIterators.BinaryReaderIter.Next | tools/inf-wasmparser/src/binary_reader.rs:1847-1859 | one more item; the position at which the iteration will end does not change |
| ReaderIterators.BinaryReaderIter.Drop | tools/inf-wasmparser/src/binary_reader.rs:1866-1876 | drains the rest up to that final position |
| ReaderIterators.ReadIter | tools/inf-wasmparser/src/binary_reader.rs:335-349 | reads the size and hands out an iterator over that many items |
| ReaderIterators.TakeThenDrop | tools/inf-wasmparser/src/binary_reader.rs:1841-1876 | however many items are taken before dropping, the reader ends at the same position |
| ReaderIterators.DrainExactly | tools/inf-wasmparser/src/binary_reader.rs:1866-1876 | for items of any kind that position is after all of them or where the first failing one left the reader, and no other |
| ReaderIterators.DrainIsVector | tools/inf-wasmparser/src/binary_reader.rs:1866-1876 | for u32 items it is where reading a vector of them ends, failures included |
| Expressions.NothingLost | core/wasm-to-v/src/translator.rs:780-832 | on every stream where translating does not panic, flattening the tree gives exactly the operators taken, in order |
| Expressions.TranslateFlatten | core/wasm-to-v/src/translator.rs:780-832 | translating the flattened operators of a well-nested body gives the body back and stops right behind it |
| Expressions.PanicsExactly | core/wasm-to-v/src/translator.rs:780-832 | translating panics if and only if a scan with a stack of open constructs meets, before all of them are closed, a read error or a condition as the very last operator |
| Translator.StreamOfEncoding | tools/inf-wasmparser/src/readers/core/operators.rs:354-365 | reading operators until the end decodes every encoding of an operator list |
| Translator.EncodingOfStream | tools/inf-wasmparser/src/readers/core/operators.rs:354-365 | bytes that are read as a list of operators without error encode that list |
| Translator.EndToEnd | core/wasm-to-v/src/translator.rs:780-842 | for well-nested trees: the bytes encode the tree, operator by operator in the grammar of `Operators.IsOperator`, if and only if reading and translating them gives the tree with nothing left |
| Translator.EndToEndPrefix | core/wasm-to-v/src/translator.rs:780-842 | with further bytes behind, the tree is the same and exactly the further bytes' operators are left |
| Translator.LoneConditionPanics | core/wasm-to-v/src/translator.rs:800-816 | the bytes of a lone if with an empty block type make translating panic |
| Translator.OperatorsIterator.Next | tools/inf-wasmparser/src/readers/core/operators.rs:357-364 | takes the head of the remaining stream; nothing after an error |
| Translator.TranslateExpression | core/wasm-to-v/src/translator.rs:780-832 | the draining loop computes the nested tree of the iterator's stream, or panics where that is undefined |
| Translator.TranslateBytes | core/wasm-to-v/src/translator.rs:834-842 | reader, iterator and translator together |
| ControlStack.BodyLabels | core/wasm-to-v/src/translator.rs:784-829 | running a flattened body on the control stack visits each operator under the very constructs that enclose it in the tree |
| ControlStack.BodyCloses | core/wasm-to-v/src/translator.rs:784-829 | a flattened body is well nested by the control-stack rules |
| ControlStack.TranslateClosing | core/wasm-to-v/src/translator.rs:780-832 | on a stream that closes its control stack the translator reads one well-nested body and leaves a stream that closes the rest |
| ControlStack.LabelsPreserved | core/wasm-to-v/src/translator.rs:784-829 | a stream is well nested if and only if it flattens a well-nested tree; the translator finds it and every relative depth names the same construct before and after |
| Printer.PrintWithOffset | core/wasm-to-v/src/translator.rs:727-766 | the printing loop emits the token text of the tree |
| Printer.TranslatedIsShaped | core/wasm-to-v/src/translator.rs:780-832 | every tree the translator returns can be read back from its text |
| Printer.ParsePrint | core/wasm-to-v/src/translator.rs:727-766 | parsing the text gives the tree without its else and end markers and stops right behind it |
| Printer.PrintErase | core/wasm-to-v/src/translator.rs:727-766 | the markers do not show in the text |
| Printer.PrintInjective | core/wasm-to-v/src/translator.rs:727-766 | two trees print alike if and only if they agree without markers |
| Printer.PrintAlike | core/wasm-to-v/src/translator.rs:804-811 | well-nested trees print alike if and only if they differ at most in absent versus empty else arms |
| Printer.AlikeIsEqual | core/wasm-to-v/src/translator.rs:804-811 | without empty else arms, trees that differ at most in this way are equal |
| Printer.PrintFaithful | core/wasm-to-v/src/translator.rs:727-766 | printing is injective on well-nested trees without empty else arms |
| Printer.EmptyElseIsLost | core/wasm-to-v/src/translator.rs:804-811 | two different well-nested trees, without else and with an empty else, with the same text |
| Arity.Halves | tools/inf-wasmparser/src/arity.rs:102-116 | interpreting an annotation gives the sum of the terms before the arrow and the sum of those after it |
| Arity.OpenArity | tools/inf-wasmparser/src/lib.rs:76-82 | an opening operator takes its block's parameters, and one more for a condition, and leaves the parameters |
| Arity.ElseArity | tools/inf-wasmparser/src/lib.rs:83-83 | else takes the results and leaves the parameters of the innermost block |
| Arity.EndArity | tools/inf-wasmparser/src/lib.rs:84-84 | end on an if frame acts as else followed by end; on any other frame it takes and leaves the results |
| Arity.BrArity | tools/inf-wasmparser/src/arity.rs:159-168 | a branch takes the parameters of a loop and the results of any other construct, the non-deterministic blocks included |
| Arity.BrIfArity | tools/inf-wasmparser/src/lib.rs:86-86 | a conditional branch takes the condition besides, and leaves what the branch would have taken |
| Arity.BrTableArity | tools/inf-wasmparser/src/arity.rs:244-248 | a branch table takes its index besides what its default carries, and leaves nothing |
| Arity.ReturnArity | tools/inf-wasmparser/src/arity.rs:214-218 | a return takes the results of the outermost frame and leaves nothing |
| Arity.CallArity | tools/inf-wasmparser/src/lib.rs:89-90 | a call follows the type of its function, an indirect call the given type with the table index besides |
| Arity.LabelArityExactly | tools/inf-wasmparser/src/arity.rs:62-69 | the arity of a block type, and of a label by the operator that opened it |
| Arity.RoleArity | tools/inf-wasmparser/src/arity.rs:263-279 | every other operator takes and leaves what its kind does: constants, tests, comparisons, unary, binary, conversions, loads, stores, and those with counts of their own |
| Arity.EveryRole | tools/inf-wasmparser/src/lib.rs:72-785 | no modelled operator besides calls and control flow is without a kind |
| Arity.FlatNetIsTreeNet | tools/inf-wasmparser/src/arity.rs:86-116 | summing net arities along the operators equals recursion over the tree, from any control stack |
| Arity.FlatSumIsTreeSum | tools/inf-wasmparser/src/arity.rs:86-116 | the same with the labels of the running control stack, for well-nested trees |
| Arity.ArmNet | tools/inf-wasmparser/src/arity.rs:224-237 | an arm nets its content plus its closing operator |
| Arity.ConstructNet | tools/inf-wasmparser/src/arity.rs:214-237 | if every arm nets results minus parameters, the construct nets results minus parameters (less the condition of an if) if and only if it is no condition without else or the two are equal |
| ScopeTrees.GrownIsTree | core/type-checker/src/symbol_table.rs:458-484 | a new scope keeps ids dense, parents before children, and both directions of links in agreement without duplicates |
| ScopeTrees.VariableFromIsLookup | core/type-checker/src/symbol_table.rs:339-347 | recursion up the parent chain is lookup in a stack of maps, innermost first |
| ScopeTrees.LookupExactly | core/type-checker/src/symbol_table.rs:339-347 | a name is found with the type of the innermost scope that declares it, and not found if and only if none does |
| ScopeTrees.NamedExactly | core/type-checker/src/symbol_table.rs:639-649 | a type is visible if and only if some scope in sight names it |
| ScopeTrees.LowerCaseExactly | core/type-checker/src/symbol_table.rs:644-644 | lower case changes exactly the capital letters, each to its own small letter |
| ScopeTrees.KnownBelow | core/type-checker/src/type_checker.rs:423-475 | below any number of array types a name, and every parameter of a generic one, has to be declared |
| Numerals.ReadWritten | core/type-checker/src/symbol_table.rs:453-456 | reading a decimal numeral gives the number it was written for, so numerals of different ids differ |
| Numerals.DecimalMeaning | core/type-checker/src/symbol_table.rs:453-456 | the ten digits, and what a further digit does to a numeral |
| ScopeTrees.AnonymousApart | core/type-checker/src/symbol_table.rs:453-456 | scopes pushed without a name never share a name |
| ScopeTrees.ChainIsSubtree | core/type-checker/src/type_checker.rs:1996-2012 | a scope lies on the parent chain if and only if child links lead down from it |
| SymbolTables.SymbolTable.constructor | core/type-checker/src/symbol_table.rs:414-450 | one root scope with the builtin types |
| SymbolTables.SymbolTable.PushScopeWithName | core/type-checker/src/symbol_table.rs:458-484 | a new id on top of the chain, an empty frame on top of the environment |
| SymbolTables.SymbolTable.PushScope | core/type-checker/src/symbol_table.rs:453-456 | the same under an anonymous name |
| SymbolTables.SymbolTable.PopScope | core/type-checker/src/symbol_table.rs:486-491 | the innermost frame is gone; without one nothing happens |
| SymbolTables.SymbolTable.PushVariableToScope | core/type-checker/src/symbol_table.rs:320-332 | declares in the innermost frame; a duplicate is refused and changes nothing |
| SymbolTables.SymbolTable.RegisterType | core/type-checker/src/symbol_table.rs:493-509 | names a type in the innermost frame, where the symbol then holds that type; a duplicate is refused and changes nothing |
| SymbolTables.SymbolTable.LookupVariable | core/type-checker/src/symbol_table.rs:652-657 | the innermost declaration in the visible environment |
| SymbolTables.SymbolTable.LookupType | core/type-checker/src/symbol_table.rs:639-649 | whether the name, as it stands or in lower case, is visible as a type |
| SymbolTables.SymbolTable.CheckVisibility | core/type-checker/src/type_checker.rs:1961-1972 | a private item is visible exactly in the subtree of its defining scope |
| SymbolTables.SymbolTable.IsScopeDescendantOf | core/type-checker/src/type_checker.rs:1996-2012 | the climbing loop ends and answers membership in the parent chain |
| SymbolTables.SymbolTable.EnterModule | core/type-checker/src/symbol_table.rs:712-719 | a new scope entered in the index under its full path |
| SymbolTables.SymbolTable.FindModuleScope | core/type-checker/src/symbol_table.rs:722-725 | the indexed module, which is the module a walk by name reaches if siblings differ in name |
| SymbolTables.SymbolTable.ResolveQualifiedName | core/type-checker/src/symbol_table.rs:769-820 | the loop finds the symbol named last in the scope the other names lead to, from the root or from self |
| SymbolTables.Run | core/type-checker/src/symbol_table.rs:414-491 | after any run of pushes, module entries, pops and declarations the table is well formed and shows the stack of maps the run describes |
| SymbolTables.BalancedRestores | core/type-checker/src/symbol_table.rs:453-491 | a balanced run leaves the environment as it was |
| ModulePaths.JoinInjective | core/type-checker/src/symbol_table.rs:722-725 | non-empty colon-free segments can be read off their join |
| ModulePaths.CachedIsJoin | core/type-checker/src/symbol_table.rs:463-473 | the cached full path of a scope is the join of the names from the root down to it |
| ModulePaths.GrownIndexed | core/type-checker/src/symbol_table.rs:712-719 | pushing a scope, indexed or not, keeps the paths cached and the index complete and sound |
| ModulePaths.WalkExactly | core/type-checker/src/symbol_table.rs:795-817 | a walk from the root reaches a scope if and only if it follows the scope's own names and each step leads to the eldest child of its name |
| ModulePaths.AgreesExactly | core/type-checker/src/symbol_table.rs:712-820 | index and resolver find the same module under every path the resolver follows from the root if and only if every module indexed under such a path is the eldest of its name all the way up |
| ModulePaths.ResolvedExactly | core/type-checker/src/symbol_table.rs:769-820 | the resolver looks the last name up in the scope the names before it lead to, from the root, or behind self from the scope of use |
| ModulePaths.SelfIsNotSeen | core/type-checker/src/symbol_table.rs:783-793 | a module called self stands in the index, and the resolver stays in the scope of use instead |
| ModulePaths.DistinctAgrees | core/type-checker/src/symbol_table.rs:712-820 | they agree if siblings differ in name, and then the index finds what a walk from the root finds under every path |
| ModulePaths.TwinsDisagree | core/type-checker/src/symbol_table.rs:712-719 | two sibling modules of one name: the index has the younger, the walk finds the older |
| Typing.TypableExactly | core/type-checker/src/type_checker.rs:779-1542 | an expression has a type by the declarative rules, in which every operator's operands and result are spelled out, if and only if inference gives that type and nothing in it is silent |
| Typing.NotSilent | core/type-checker/src/type_checker.rs:779-1542 | silence comes only from empty array literals and nested non-deterministic values |
| Typing.Determined | core/type-checker/src/type_checker.rs:779-1542 | an expression has at most one type |
| Typing.WellTypedExactly | core/type-checker/src/type_checker.rs:589-776 | a statement is well typed if and only if the checker accepts it, nothing in it is silent, the types it declares with are known and its constants' literals fit theirs |
| Typing.BodyExactly | core/type-checker/src/type_checker.rs:589-776 | the same for statement lists, declarations carried along |
| Typing.ConstantExactly | core/type-checker/src/type_checker.rs:759-774 | a literal fits a declared type in the declarative sense if and only if it does by inference |
| Typing.SilentLiteralIsAccepted | core/type-checker/src/type_checker.rs:1464-1495 | an empty array literal for a bool is accepted and not well typed |
| Typing.NestedUzumakiIsAccepted | core/type-checker/src/type_checker.rs:1540-1540 | a negated non-deterministic value for a bool is accepted and not well typed |
| Typing.MisfitConstantIsAccepted | core/type-checker/src/type_checker.rs:759-774 | a number literal for a bool constant is accepted and not well typed |
| Typing.UnknownTypeIsAccepted | core/type-checker/src/type_checker.rs:700-730 | a variable of a type that is declared nowhere is accepted and not well typed |
| Complaints.ExamineExactly | core/type-checker/src/type_checker.rs:779-1542 | something is said about an expression if and only if inference rejects it; otherwise the type found is the inferred one |
| Complaints.StatementExactly | core/type-checker/src/type_checker.rs:589-776 | something is said about a statement if and only if the checker does not accept it |
| Complaints.RejectedShows | core/type-checker/src/type_checker.rs:623-625 | whatever was wrong before it, a rejected statement of a body has complaints of its own, and every one of them is in the final list |
| Complaints.ToldHolds | core/type-checker/src/type_checker.rs:2080-2100 | the list after some complaints holds all of them and what was there, unknown names once each, every other complaint as often as it was made, and nothing else |
| Complaints.ToldJoin | core/type-checker/src/type_checker.rs:2080-2100 | telling complaints in two portions gives the list that telling them at once gives |
| Complaints.StatementHonest | core/type-checker/src/type_checker.rs:589-776 | every complaint about a statement is borne out by its own fields: types reported as different differ, an operand reported as invalid does not suit the operator |
| Complaints.TypeComplaintsExactly | core/type-checker/src/type_checker.rs:423-475 | something is said about a type if and only if some name in it is not declared in sight |
| Complaints.BothAreTold | core/type-checker/src/type_checker.rs:700-730 | two mismatched variables in a row: both are told |
| TypeChecker.Checker.PushErrorDedup | core/type-checker/src/type_checker.rs:2080-2100 | a key is reported once; the reported keys stay exactly the keys of the recorded errors, so a suppressed error means one is recorded |
| TypeChecker.Checker.InferExpression | core/type-checker/src/type_checker.rs:779-1542 | the errors added are exactly the complaints about the expression told from its syntax, in order, and the result the type found, after errors too; none is added if and only if the expression is not rejected, and then every node of it gets its own type recorded |
| TypeChecker.Checker.InferIndex | core/type-checker/src/type_checker.rs:785-819 | the same for array indexing, which goes on after a bad index |
| TypeChecker.Checker.InferUnary | core/type-checker/src/type_checker.rs:1311-1374 | the same for prefix operators |
| TypeChecker.Checker.InferParen | core/type-checker/src/type_checker.rs:1375-1382 | the same for parentheses |
| TypeChecker.Checker.InferBinary | core/type-checker/src/type_checker.rs:1383-1462 | the same for binary operators: mismatched and unsuitable operands reported in order, the type the source recovers with returned |
| TypeChecker.Checker.Combine | core/type-checker/src/type_checker.rs:1389-1462 | the complaints about two operand types, in order, and the type the checker goes on with; for equal operands that suit the operator none, and the type the rules give |
| TypeChecker.Checker.InferArrayLit | core/type-checker/src/type_checker.rs:1464-1495 | the same for array literals, whose every element is compared with the first |
| TypeChecker.Checker.InferElements | core/type-checker/src/type_checker.rs:1471-1483 | each element is examined and compared with the type of the first, whatever was wrong before; no error is added if and only if every element matches |
| TypeChecker.Checker.ValidateType | core/type-checker/src/type_checker.rs:423-475 | every name in a type that is not declared in sight is reported, once; a type passes if and only if there is none |
| TypeChecker.Checker.InferAtom | core/type-checker/src/type_checker.rs:1496-1540 | the same for literals, identifiers and non-deterministic values |
| TypeChecker.Checker.InferStatement | core/type-checker/src/type_checker.rs:589-776 | however it fails, the scope cursor comes back and only the innermost frame can have grown; the errors added are exactly the complaints about the statement, and none if and only if it is accepted |
| TypeChecker.Checker.InferAssign | core/type-checker/src/type_checker.rs:596-620 | the same for assignments |
| TypeChecker.Checker.InferReturn | core/type-checker/src/type_checker.rs:631-652 | the same for returns |
| TypeChecker.Checker.InferCondition | core/type-checker/src/type_checker.rs:745-758 | what is wrong in a condition, and then that it is not boolean, if it is inferred otherwise or not at all |
| TypeChecker.Checker.InferBlock | core/type-checker/src/type_checker.rs:621-627 | chain and environment are restored exactly |
| TypeChecker.Checker.InferBody | core/type-checker/src/type_checker.rs:623-625 | all statements in order, each under what the earlier ones declared, whatever was wrong in those: the errors added are exactly the complaints of all of them |
| TypeChecker.Checker.InferLoop | core/type-checker/src/type_checker.rs:653-672 | restored exactly, guard and body judged |
| TypeChecker.Checker.InferIf | core/type-checker/src/type_checker.rs:674-699 | restored exactly, condition and both arms judged |
| TypeChecker.Checker.InferVarDef | core/type-checker/src/type_checker.rs:700-730 | the initial value judged before the name is declared |
| Programs.InferArguments | core/type-checker/src/type_checker.rs:478-532 | arguments are declared in order; every repeated name and every self is reported, and nothing else |
| Programs.InferVariables | core/type-checker/src/type_checker.rs:478-532 | one function in its own scope, gone afterwards whatever was wrong in it; its complaints are added to the list |
| Programs.InferTypes | core/type-checker/src/type_checker.rs:71-105 | signatures first, then bodies, all of them: the final list is exactly what the syntax of the program tells; the program passes if and only if every function is accepted, and, where every function can be judged, if and only if every function is well typed |
| Programs.CollectFunctions | core/type-checker/src/type_checker.rs:279-326 | every unknown argument or result type and every self is reported, in order; none if and only if all signatures are known |
| Programs.FunctionExactly | core/type-checker/src/type_checker.rs:478-532 | a function is well typed if and only if it is accepted, nothing in it is silent and its declarations deserve trust |
| Programs.ProgramExactly | core/type-checker/src/type_checker.rs:71-105 | the same for all functions of a program |
| Programs.ProgramSaysExactly | core/type-checker/src/type_checker.rs:71-105 | nothing is said about a program if and only if all its functions are accepted |
| Programs.FunctionShows | core/type-checker/src/type_checker.rs:76-101 | whatever is wrong elsewhere, every complaint about a function's signature or body is in the final list |
| Arenas.Arena.AddNode | core/ast/src/arena.rs:54-69 | the three maps after storing a node |
| Arenas.AddedGrows | core/ast/src/arena.rs:54-69 | storing a node above its parent and its siblings keeps the links a growing forest |
| Arenas.Arena.FindSourceFileForNode | core/ast/src/arena.rs:95-113 | the loop ends and returns the file under which the node was built; none for an unknown node |
| Arenas.Arena.GetChildrenCmp | core/ast/src/arena.rs:156-179 | the worklist ends and returns, each once, exactly the root if wanted and every node below it whose path from the root is wanted throughout; a node before those below it, the last of several siblings first |
| Arenas.MatchingMeaning | core/ast/src/arena.rs:205-215 | the children kept are exactly the stored and wanted ones, in order |
| Arenas.SearchStep | core/ast/src/arena.rs:163-176 | a turn of the worklist sees no node twice and forgets none |
| Builders.Builder.GetNodeId | core/ast/src/builder.rs:1734-1737 | ids are handed out in sequence |
| Builders.Builder.Build | core/ast/src/builder.rs:291-334 | a piece of syntax takes its number of ids, stores its number of nodes, reports its number of errors, appends exactly its top nodes to the parent's children and disturbs no other old node |
| Builders.Builder.BuildAll | core/ast/src/builder.rs:793-811 | the same for pieces in order |
| Builders.Builder.BuildStored | core/ast/src/builder.rs:644-661 | the same for a node whose id is taken before, and which is stored after, its parts |
| Builders.Builder.BuildBroken | core/ast/src/builder.rs:701-791 | an id taken and given up, with one more error than its pieces report |
| Builders.Builder.BuildFile | core/ast/src/builder.rs:133-161 | one more source file, described after the files before it, with exactly its errors |
| Builders.Builder.BuildAst | core/ast/src/builder.rs:132-170 | succeeds if and only if no piece of any file reports an error; then the arena is a forest rooted at the source files, describes every file's syntax in order and holds nothing else |
| Codegen.Compiler.LowerExpression | core/wasm-codegen/src/compiler.rs:651-689 | the loads and draws of an expression and the operand that holds its value, or a panic |
| Codegen.Compiler.LowerStatement | core/wasm-codegen/src/compiler.rs:419-619 | the trace, the variable table and the slots after a statement, or a panic; the stack of parent blocks is restored |
| Codegen.Compiler.LowerFunction | core/wasm-codegen/src/compiler.rs:313-375 | a panic where the result type has no code; else the entry, the body lowered with itself as the outermost parent, and the closing return of a void function |
| Codegen.Compiler.LowerFunctions | core/wasm-codegen/src/lib.rs:118-124 | functions one after the other, with the variable table never cleared |
| Codegen.LoweredExactly | core/wasm-codegen/src/compiler.rs:419-689 | lowering panics if and only if some statement, expression or constant has no code or a name has no earlier constant |
| Codegen.SpillsFlat | core/ast/src/nodes_impl.rs:122-179 | without blocks inside, expression values are kept alive by a store if and only if nothing in the body returns and it is quantified or something in it is a draw |
| Codegen.VoidAlternates | core/ast/src/nodes_impl.rs:133-149 | a block around another counts as void if and only if the other does not |
| Codegen.DrawIsStored | core/wasm-codegen/src/compiler.rs:515-536 | a value drawn in a quantified body is stored to a slot of its own |
| Codegen.DrawIsNotStored | core/wasm-codegen/src/compiler.rs:515-536 | with a return behind it in the body it is not |
| Literals.WordExactly | core/wasm-codegen/src/compiler.rs:579-584 | the word kept of a decimal literal stands, as an i32, for the number written if and only if that is no negative number and fits in 31 bits |
| Literals.NumeralsKept | core/wasm-codegen/src/compiler.rs:713-716 | the numeral of any number, zeros in front or not, is kept as that number modulo 2^32 if it fits in 64 bits, behind a plus too, and as zero behind a minus |
| Numerals.NumeralExactly | core/wasm-codegen/src/compiler.rs:713-716 | a text of digits has value n if and only if it is the numeral of n behind some zeros |
| Literals.WordsLost | core/wasm-codegen/src/compiler.rs:579-584 | the texts -42 and 0xFF become zero |
| Codegen.LoweredBrackets | core/wasm-codegen/src/compiler.rs:426-514 | wherever a bracket reader stands, lowering a statement adds exactly the nesting of its quantified blocks and leaves nothing open |
| Codegen.ReadExactly | core/wasm-codegen/src/compiler.rs:426-514 | the bracket reader accepts a trace as a nesting if and only if the trace's bracket calls are that nesting's text |
| Behaviour.LoweredMeaning | core/wasm-codegen/src/compiler.rs:419-619 | running the trace, in a memory of its own for each function and up to the first return, shows exactly the acts of the statement under flat scoping with the words kept: brackets, draws, loads and stores with their values, the return |
| Scoping.LexicalExactly | core/wasm-codegen/src/compiler.rs:544-605 | up to the first return, every use finds the same definition under flat and under lexical scoping if and only if no identifier is used while its latest constant lies in a block that has ended or is hidden by a local variable |
| Scoping.EffectsExactly | core/wasm-codegen/src/compiler.rs:419-619 | in a function that uses only constants of its own, the source and the lowered code show the same brackets, draws, stored and returned values up to the first return if and only if no value is misread and no local variable starts with an expression that does something: no name with two different values, no literal whose word does not stand for the number written, no dropped draw |
| Definitions.FunctionEffects | core/wasm-codegen/src/compiler.rs:364-371 | a function that is sound by itself does what it says, arguments and local variables included, if and only if it misreads no value, whatever was lowered before it |
| Definitions.FunctionResolves | core/wasm-codegen/src/compiler.rs:364-371 | up to its first return a function finds the very definitions it means if and only if it uses no name whose latest constant is out of sight: in an ended block, hidden by a local variable or an argument, or in an earlier function |
| Definitions.DefinitionMeaning | core/wasm-codegen/src/compiler.rs:364-374 | whatever was lowered before, a function adds exactly its nesting and the acts of its flat reading, in which names of earlier functions are foreign |
| Soundness.LoweredStanding | core/wasm-codegen/src/compiler.rs:419-619 | what lowering a statement does to the standing of a trace, told from the statement: own slots, widths of returns, a return at the end, no return inside a bracket |
| Soundness.DefinitionsSound | core/wasm-codegen/src/compiler.rs:364-374 | the trace of a program loads from own slots only, returns the declared widths, ends every function in a return and has no bracket open at a first return if and only if every function by itself does |
| Definitions.ProgramExactly | core/wasm-codegen/src/lib.rs:118-124 | a program is lowered if and only if every function is supported with the constants of the functions before it; its brackets are its nesting; it finds the definitions it means if and only if no constant it uses is out of sight; and it is taken by the back end and does what it says if and only if every function, by itself, is sound and misreads no value |
| Definitions.InnerConstantLeaks | core/wasm-codegen/src/compiler.rs:588-596 | a constant redefined in an inner block and returned after it: the program keeps its meaning if and only if the two words are equal |
| Definitions.VariableIsOverlooked | core/wasm-codegen/src/compiler.rs:544-557 | a local variable hides a constant and is returned: lowered, and the meaning is kept if and only if the two words are equal |
| Definitions.DrawIsDropped | core/wasm-codegen/src/compiler.rs:544-557 | a local variable that starts with a non-deterministic value: lowered, and the meaning is not kept |
| Definitions.ArgumentIsOverlooked | core/wasm-codegen/src/compiler.rs:659-670 | an argument is returned behind a block that defined a constant of its name: lowered, and the meaning is not kept |
| Definitions.DeadUseIsHarmless | core/wasm-codegen/src/compiler.rs:537-540 | with a return in between, the same use does no harm |
| Definitions.ReturnTearsBracket | core/wasm-codegen/src/compiler.rs:439-456 | a return inside a quantified block: lowered, and the meaning is not kept |
| Definitions.BooleanIsRefused | core/wasm-codegen/src/compiler.rs:318-321 | a boolean returned by a function of one bit: lowered, and the meaning is not kept |
| Definitions.NegativeIsLost | core/wasm-codegen/src/compiler.rs:713-716 | a negative literal returned: lowered as zero, and the meaning is not kept |
| Definitions.EarlierConstantLeaks | core/wasm-codegen/src/lib.rs:118-124 | a function that returns a name defined in an earlier one is lowered only because of that one, and the program never keeps its meaning, whatever the values |

## Left out

- Integer widths: positions, ids and counters are unbounded; the source's `usize` and `u32` overflow is not modelled, except in the integer readers, where shifts and masks are exact.
- Builders.Builder.BuildAst: assumes the id counter stays below `u32::MAX`, the source's mark for "no parent".
- Builders.Builder.Build: concrete syntax is a tree of four kinds of step (store a node, pass through, take an id that is not stored, give up with an error), each with its own number of reported errors; which grammar rule takes which kind, and node contents, are not modelled.
- Wasm features: all switched on, as `BinaryReader::new` does.
- Readers.BinaryReader.ReadOperator: SIMD, atomic, GC, exception and reference operators that the source decodes end in an explicit "outside this model" fault; the 0xfc operators are all there.
- Readers.BinaryReader.ReadBlockType: the value types are i32, i64, f32, f64, v128, funcref and externref; others end in the same fault.
- Readers.BinaryReader.ReadMemArg: without the largest alignment the source stores beside the others, which the opcode fixes.
- OperatorGrammar.OperatorExact: the grammar covers the operators the model decodes.
- Branch tables: an operator holds the target list; the lazy window and its iterator are modelled beside it (`Readers.Branches`, `Readers.BrTableTargets`).
- Printer.PrintWithOffset: emits tokens with operators as atoms; indentation, comments, local names, generated identifiers and the Rocq text of operators are not modelled, so nothing is said about operators that share a rendering.
- Section parsing, imports, exports, data and element segments, and the translator's collected section errors.
- Arity of operators that carry tags, continuations, sizes or exception tables.
- TypeChecker.Checker.InferExpression: covers array indexing, prefix and binary operators, parentheses, literals, identifiers and non-deterministic values; calls, struct literals, member access, type expressions and generics are not modelled. Errors carry types, operators, names and contexts; locations, wording and names of functions are not modelled. Node ids are distinct, as the builder makes them.
- Programs.InferTypes: the errors stay a list instead of being joined into one text. It starts from a table in which types and file-level constants are registered; registration of functions, directives, imports, type parameters and methods are not modelled.
- SymbolTables.SymbolTable.LookupType: lower case is that of ASCII letters, and every symbol of the model names a type (functions are not registered as symbols).
- Symbols: only type aliases, with no distinction of functions, structs, enums and specs; scopes are named by id instead of shared pointers.
- Codegen.Compiler.LowerStatement: LLVM is an append-only trace, one for all functions, with an entry event for each. The optimisation barrier is modelled as the source decides it, with no claim that it covers every non-deterministic value.
- Definitions.ProgramExactly: validity of the emitted code is what `Soundness.Sound` lists; a return in the middle is no fault, since the text form starts a new block behind it. Names the printer gives to values, linking, optimisation and equal names of functions are not modelled. Stores to stack slots count as effects. The emitted functions take no arguments; what that means to a caller is not modelled.
- Scoping.EffectsExactly: in the source reading an argument, a variable without an initial value, and an expression without code have an opaque value, which equals no constant; a flag says whether evaluating such an expression does anything.
- Command line, toolchain, language server, linker and file access.
