/** When flat scoping is lexical scoping: in the definitions that names find, and in what can be told from outside. */
module Scoping {
  import opened Decoded
  import opened Literals
  import opened Codegen
  import opened Behaviour

  /** Running the statement returns from the function. */
  predicate Returns(s: Stmt)
    decreases s
  {
    match s
    case Block(body) => ReturnsAll(body)
    case Quantified(_, body) => ReturnsAll(body)
    case Return(_) => true
    case _ => false
  }

  predicate ReturnsAll(ss: seq<Stmt>)
    decreases ss
  {
    ss != [] && (Returns(ss[0]) || ReturnsAll(ss[1..]))
  }

  /** Nothing a statement does changes what lies outside the function. */
  lemma {:induction false} OutsideStays(s: Stmt, r: Reader, spills: bool, env: Env)
    ensures Meaning(s, r, spills, env).1.globals == env.globals && Meaning(s, r, spills, env).1.earlier == env.earlier
    decreases s
  {
    match s
    case Block(body) => OutsideStaysAll(body, r, spills, env);
    case Quantified(_, body) => OutsideStaysAll(body, r, spills, env);
    case _ =>
  }

  lemma {:induction false} OutsideStaysAll(ss: seq<Stmt>, r: Reader, spills: bool, env: Env)
    ensures var after := MeaningAll(ss, r, spills, env).1;
            after.globals == env.globals && after.earlier == env.earlier
    decreases ss
  {
    if ss != [] {
      OutsideStays(ss[0], r, spills, env);
      OutsideStaysAll(ss[1..], r, spills, Meaning(ss[0], r, spills, env).1);
    }
  }

  lemma {:induction false} RunsUntilReturn(s: Stmt, r: Reader, spills: bool, env: Env)
    ensures Meaning(s, r, spills, env).1.live <==> env.live && !Returns(s)
    ensures !env.live ==> Meaning(s, r, spills, env).0 == []
    decreases s
  {
    match s
    case Block(body) => RunsUntilReturnAll(body, r, spills, env);
    case Quantified(_, body) => RunsUntilReturnAll(body, r, spills, env);
    case _ =>
  }

  lemma {:induction false} RunsUntilReturnAll(ss: seq<Stmt>, r: Reader, spills: bool, env: Env)
    ensures MeaningAll(ss, r, spills, env).1.live <==> env.live && !ReturnsAll(ss)
    ensures !env.live ==> MeaningAll(ss, r, spills, env).0 == []
    decreases ss
  {
    if ss != [] {
      RunsUntilReturn(ss[0], r, spills, env);
      RunsUntilReturnAll(ss[1..], r, spills, Meaning(ss[0], r, spills, env).1);
    }
  }

  // ----- which definition a name finds -----

  /** Names whose latest constant lies in a block that has ended since, or is hidden by a local variable. */
  function Leaked(s: Stmt, leaked: set<string>): set<string>
  {
    match s
    case Block(_) => leaked + Names(s)
    case Quantified(_, _) => leaked + Names(s)
    case Variable(x, _) => leaked + {x}
    case Constant(x, v) => leaked - {x}
    case _ => leaked
  }

  function LeakedAll(ss: seq<Stmt>, leaked: set<string>): set<string>
    decreases ss
  {
    if ss == [] then leaked else LeakedAll(ss[1..], Leaked(ss[0], leaked))
  }

  /** Before the first return, some identifier is used while its latest constant is out of sight. */
  predicate UsesLeaked(s: Stmt, leaked: set<string>)
    decreases s
  {
    match s
    case Block(body) => UsesLeakedAll(body, leaked)
    case Quantified(_, body) => UsesLeakedAll(body, leaked)
    case Expression(e) => e.Identifier? && e.name in leaked
    case Return(e) => e.Identifier? && e.name in leaked
    case _ => false
  }

  predicate UsesLeakedAll(ss: seq<Stmt>, leaked: set<string>)
    decreases ss
  {
    ss != [] &&
    (UsesLeaked(ss[0], leaked) || (!Returns(ss[0]) && UsesLeakedAll(ss[1..], Leaked(ss[0], leaked))))
  }

  /** Two environments that find the same definition for a name exactly when it has not leaked. */
  ghost predicate Apart(lex: Env, flat: Env, leaked: set<string>)
  {
    && lex.next == flat.next && lex.live == flat.live && Numbered(lex) && Numbered(flat)
    && (forall x <- flat.names :: flat.names[x].Def?) && (forall x :: x in leaked <==> lex.Look(x) != flat.Look(x))
  }

  ghost predicate Numbered(env: Env)
  {
    forall x <- env.names :: env.names[x].Def? ==> env.names[x].site < env.next
  }

  /** Constants with code: every constant carries an i32 number. */
  predicate Defined(s: Stmt)
    decreases s
  {
    match s
    case Block(body) => forall t <- body :: Defined(t)
    case Quantified(_, body) => forall t <- body :: Defined(t)
    case Constant(_, v) => v.Some?
    case _ => true
  }

  /** Under flat scoping a statement redefines exactly its own names, at new sites. */
  lemma {:induction false} FlatEffect(s: Stmt, exact: bool, spills: bool, env: Env, x: string)
    requires Defined(s)
    ensures var after := Meaning(s, Reader(false, exact), spills, env).1;
            && env.next <= after.next
            && (x in Names(s) ==> x in after.names && after.names[x].Def? && env.next <= after.names[x].site)
            && (x !in Names(s) ==> after.Look(x) == env.Look(x))
    decreases s
  {
    match s
    case Block(body) => FlatEffectAll(body, exact, spills, env, x);
    case Quantified(_, body) => FlatEffectAll(body, exact, spills, env, x);
    case _ =>
  }

  lemma {:induction false} FlatEffectAll(ss: seq<Stmt>, exact: bool, spills: bool, env: Env, x: string)
    requires forall t <- ss :: Defined(t)
    ensures var after := MeaningAll(ss, Reader(false, exact), spills, env).1;
            && env.next <= after.next
            && (x in NamesAll(ss) ==> x in after.names && after.names[x].Def? && env.next <= after.names[x].site)
            && (x !in NamesAll(ss) ==> after.Look(x) == env.Look(x))
    decreases ss
  {
    if ss != [] {
      FlatEffect(ss[0], exact, spills, env, x);
      FlatEffectAll(ss[1..], exact, spills, Meaning(ss[0], Reader(false, exact), spills, env).1, x);
    }
  }

  /** Lexical scoping, with the words kept. */
  const SCOPED := Reader(true, false)

  /** The two readings of a statement differ in what they find exactly when it uses a leaked name. */
  lemma {:induction false} LexicalExactly(s: Stmt, spills: bool, lex: Env, flat: Env, leaked: set<string>)
    requires Defined(s) && Apart(lex, flat, leaked)
    ensures var (a, lex') := Meaning(s, SCOPED, spills, lex);
            var (b, flat') := Meaning(s, LOWERED, spills, flat);
            && |a| == |b| && (a == b <==> !lex.live || !UsesLeaked(s, leaked))
            && Apart(lex', flat', Leaked(s, leaked))
    decreases s
  {
    hide Apart, Leaked, UsesLeakedAll;
    LiveAlike(lex, flat, leaked);
    match s
    case Block(body) =>
      LexicalAllExactly(body, spills, lex, flat, leaked);
      LeaveBlock(s, body, spills, lex, flat, leaked);
    case Quantified(kind, body) =>
      LexicalAllExactly(body, spills, lex, flat, leaked);
      LeaveBlock(s, body, spills, lex, flat, leaked);
      var (a, inner) := MeaningAll(body, SCOPED, spills, lex);
      var (b, inner') := MeaningAll(body, LOWERED, spills, flat);
      LiveAlike(inner, inner', LeakedAll(body, leaked));
      Framed(lex.Shown([Enter(kind)]), a, b, inner.Shown([Leave(kind)]));
    case Expression(e) => ExpressionExactly(e, spills, lex, flat, leaked);
    case Return(e) => ReturnExactly(e, spills, lex, flat, leaked);
    case Variable(x, init) => VariableApart(x, init, spills, lex, flat, leaked);
    case Constant(x, v) => ConstantApart(x, v.value, lex, flat, leaked);
    case Unsupported(nonDet) => assert Leaked(s, leaked) == leaked by { UnsupportedKeeps(nonDet, leaked); }
  }

  lemma LiveAlike(lex: Env, flat: Env, leaked: set<string>)
    requires Apart(lex, flat, leaked)
    ensures lex.live == flat.live && lex.next == flat.next
  {
  }

  lemma UnsupportedKeeps(nonDet: bool, leaked: set<string>)
    ensures Leaked(Unsupported(nonDet), leaked) == leaked
  {
  }

  lemma VariableApart(x: string, init: Option<Expr>, spills: bool, lex: Env, flat: Env, leaked: set<string>)
    requires Apart(lex, flat, leaked)
    ensures var (a, lex') := Meaning(Variable(x, init), SCOPED, spills, lex);
            var (b, flat') := Meaning(Variable(x, init), LOWERED, spills, flat);
            a == b == [] && Apart(lex', flat', Leaked(Variable(x, init), leaked))
  {
    hide ExprOut;
  }

  lemma ExpressionExactly(e: Expr, spills: bool, lex: Env, flat: Env, leaked: set<string>)
    requires Apart(lex, flat, leaked)
    ensures var (a, lex') := Meaning(Expression(e), SCOPED, spills, lex);
            var (b, flat') := Meaning(Expression(e), LOWERED, spills, flat);
            && |a| == |b| && (a == b <==> !lex.live || !UsesLeaked(Expression(e), leaked))
            && Apart(lex', flat', Leaked(Expression(e), leaked))
  {
    hide Apart, Leaked, ExprActs, ExprOut;
    LiveAlike(lex, flat, leaked);
    UseExactly(e, lex, flat, leaked);
    ExpressionApart(e, spills, lex, flat, leaked);
    var kept := if spills then [Kept(lex.next, ExprOut(e, false, lex))] else [];
    var kept' := if spills then [Kept(flat.next, ExprOut(e, false, flat))] else [];
    Paired(ExprActs(e, lex), ExprActs(e, flat), kept, kept');
  }

  lemma ExpressionApart(e: Expr, spills: bool, lex: Env, flat: Env, leaked: set<string>)
    requires Apart(lex, flat, leaked)
    ensures Apart(Meaning(Expression(e), SCOPED, spills, lex).1, Meaning(Expression(e), LOWERED, spills, flat).1,
                  Leaked(Expression(e), leaked))
  {
    hide ExprActs, ExprOut;
  }

  lemma ReturnExactly(e: Expr, spills: bool, lex: Env, flat: Env, leaked: set<string>)
    requires Apart(lex, flat, leaked)
    ensures var (a, lex') := Meaning(Return(e), SCOPED, spills, lex);
            var (b, flat') := Meaning(Return(e), LOWERED, spills, flat);
            && |a| == |b| && (a == b <==> !lex.live || !UsesLeaked(Return(e), leaked))
            && Apart(lex', flat', Leaked(Return(e), leaked))
  {
    hide Apart, Leaked, ExprActs, ExprOut;
    LiveAlike(lex, flat, leaked);
    UseExactly(e, lex, flat, leaked);
    ReturnApart(e, spills, lex, flat, leaked);
    Paired(ExprActs(e, lex), ExprActs(e, flat), [Gave(ExprOut(e, false, lex))], [Gave(ExprOut(e, false, flat))]);
  }

  lemma ReturnApart(e: Expr, spills: bool, lex: Env, flat: Env, leaked: set<string>)
    requires Apart(lex, flat, leaked)
    ensures Apart(Meaning(Return(e), SCOPED, spills, lex).1, Meaning(Return(e), LOWERED, spills, flat).1,
                  Leaked(Return(e), leaked))
  {
    hide ExprActs, ExprOut;
  }

  lemma ConstantApart(x: string, text: string, lex: Env, flat: Env, leaked: set<string>)
    requires Apart(lex, flat, leaked)
    ensures var d := Def(lex.next, LiteralOut(text, false));
            Apart(lex.(names := lex.names[x := d], next := lex.next + 1),
                  flat.(names := flat.names[x := d], next := flat.next + 1), Leaked(Constant(x, Some(text)), leaked))
  {
  }

  lemma Framed<T>(p: seq<T>, a: seq<T>, b: seq<T>, q: seq<T>)
    requires |a| == |b|
    ensures p + a + q == p + b + q <==> a == b
  {
    if p + a + q == p + b + q {
      assert a == (p + a + q)[|p|..|p| + |a|];
    }
  }

  lemma Paired<T>(a: seq<T>, b: seq<T>, a': seq<T>, b': seq<T>)
    requires |a| == |b|
    ensures a + a' == b + b' <==> a == b && a' == b'
  {
    if a + a' == b + b' {
      assert a == (a + a')[..|a|];
      assert a' == (a + a')[|a|..];
    }
  }

  /** The same where the parts on one side are never shorter than those on the other. */
  lemma PairedMore<T>(a: seq<T>, b: seq<T>, a': seq<T>, b': seq<T>)
    requires |a| >= |b| && |a'| >= |b'|
    ensures |a + a'| >= |b + b'| && (a + a' == b + b' <==> a == b && a' == b')
  {
    if a + a' == b + b' {
      assert |a + a'| == |b + b'|;
      Paired(a, b, a', b');
    }
  }

  lemma FramedMore<T>(p: seq<T>, a: seq<T>, b: seq<T>, q: seq<T>)
    requires |a| >= |b|
    ensures |p + a + q| >= |p + b + q| && (p + a + q == p + b + q <==> a == b)
  {
    PairedMore(p, p, a, b);
    PairedMore(p + a, p + b, q, q);
  }

  lemma UseExactly(e: Expr, lex: Env, flat: Env, leaked: set<string>)
    requires Apart(lex, flat, leaked)
    ensures |ExprActs(e, lex)| == |ExprActs(e, flat)|
    ensures ExprActs(e, lex) == ExprActs(e, flat) <==> !(e.Identifier? && e.name in leaked)
    ensures ExprActs(e, lex) == ExprActs(e, flat) ==> ExprOut(e, false, lex) == ExprOut(e, false, flat)
  {
    if e.Identifier? {
      assert e.name in leaked <==> lex.Look(e.name) != flat.Look(e.name);
      assert ExprActs(e, lex) == ExprActs(e, flat) <==> ExprActs(e, lex)[0] == ExprActs(e, flat)[0];
    }
  }

  lemma LeaveBlock(s: Stmt, body: seq<Stmt>, spills: bool, lex: Env, flat: Env, leaked: set<string>)
    requires (s == Block(body) || (s.Quantified? && s.body == body)) && Defined(s) && Apart(lex, flat, leaked)
    requires Apart(MeaningAll(body, SCOPED, spills, lex).1, MeaningAll(body, LOWERED, spills, flat).1,
                   LeakedAll(body, leaked))
    ensures Apart(Meaning(s, SCOPED, spills, lex).1, Meaning(s, LOWERED, spills, flat).1, Leaked(s, leaked))
  {
    hide MeaningAll, NamesAll;
    OutsideStaysAll(body, SCOPED, spills, lex);
    var after, flat' := Meaning(s, SCOPED, spills, lex).1, Meaning(s, LOWERED, spills, flat).1;
    FlatEffect(s, false, spills, flat, "");
    assert after == lex.(next := flat'.next, live := flat'.live) && flat' == MeaningAll(body, LOWERED, spills, flat).1;
    assert Numbered(after);
    forall x
      ensures x in Leaked(s, leaked) <==> after.Look(x) != flat'.Look(x)
    {
      FlatEffect(s, false, spills, flat, x);
      assert x in leaked <==> lex.Look(x) != flat.Look(x);
      assert after.Look(x) == lex.Look(x);
    }
  }

  lemma {:induction false} LexicalAllExactly(ss: seq<Stmt>, spills: bool, lex: Env, flat: Env, leaked: set<string>)
    requires (forall t <- ss :: Defined(t)) && Apart(lex, flat, leaked)
    ensures var (a, lex') := MeaningAll(ss, SCOPED, spills, lex);
            var (b, flat') := MeaningAll(ss, LOWERED, spills, flat);
            && |a| == |b| && (a == b <==> !lex.live || !UsesLeakedAll(ss, leaked))
            && Apart(lex', flat', LeakedAll(ss, leaked))
    decreases ss
  {
    hide Apart, Meaning, Leaked, UsesLeaked;
    if ss != [] {
      LexicalExactly(ss[0], spills, lex, flat, leaked);
      RunsUntilReturn(ss[0], SCOPED, spills, lex);
      var (a, lex1) := Meaning(ss[0], SCOPED, spills, lex);
      var (b, flat1) := Meaning(ss[0], LOWERED, spills, flat);
      LexicalAllExactly(ss[1..], spills, lex1, flat1, Leaked(ss[0], leaked));
      Paired(a, b, MeaningAll(ss[1..], SCOPED, spills, lex1).0, MeaningAll(ss[1..], LOWERED, spills, flat1).0);
    }
  }

  /** Code with a lowering has all its constants defined. */
  lemma {:induction false} SupportedIsDefined(s: Stmt, names: set<string>)
    requires Supported(s, names)
    ensures Defined(s)
    decreases s
  {
    match s
    case Block(body) => SupportedAllDefined(body, names);
    case Quantified(_, body) => SupportedAllDefined(body, names);
    case _ =>
  }

  lemma {:induction false} SupportedAllDefined(ss: seq<Stmt>, names: set<string>)
    requires SupportedAll(ss, names)
    ensures forall t <- ss :: Defined(t)
    decreases ss
  {
    if ss != [] {
      SupportedIsDefined(ss[0], names);
      SupportedAllDefined(ss[1..], names + Names(ss[0]));
    }
  }

  // ----- what can be told from outside -----

  /** Brackets, draws and the values that are kept or given back; not where a value is kept. */
  datatype Effect =
    | Began
    | Opened(kind: Kind)
    | Closed(kind: Kind)
    | Drawn(width: Width)
    | Stored(out: Out)
    | Returned(out: Out)
    | ReturnedNothing
    | Acting

  function EffectOf(a: Act): seq<Effect>
  {
    match a
    case Begin => [Began]
    case Enter(kind) => [Opened(kind)]
    case Leave(kind) => [Closed(kind)]
    case Drew(w) => [Drawn(w)]
    case Kept(_, out) => [Stored(out)]
    case Got(_, _) => []
    case Looked(_, _) => []
    case Bound(_) => []
    case Strayed => []
    case Acted => [Acting]
    case Gave(out) => [Returned(out)]
    case GaveNothing => [ReturnedNothing]
  }

  function Effects(acts: seq<Act>): seq<Effect>
  {
    if acts == [] then [] else EffectOf(acts[0]) + Effects(acts[1..])
  }

  lemma {:induction false} EffectsConcat(a: seq<Act>, b: seq<Act>)
    ensures Effects(a + b) == Effects(a) + Effects(b)
  {
    if a == [] {
      assert a + b == b;
    } else {
      assert (a + b)[1..] == a[1..] + b;
      EffectsConcat(a[1..], b);
    }
  }

  lemma EffectsOne(a: Act)
    ensures Effects([a]) == EffectOf(a)
    ensures Effects([]) == []
  {
    assert [a][1..] == [];
  }

  function Held(t: Table, x: string): Out
  {
    if x in t then t[x] else Undefined
  }

  function After(s: Stmt, r: Reader, t: Table): Table
    decreases s
  {
    match s
    case Block(body) => if r.lexical then t else AfterAll(body, r, t)
    case Quantified(_, body) => if r.lexical then t else AfterAll(body, r, t)
    case Variable(x, init) =>
      if r.lexical then t[x := if init.Some? then ExprValue(init.value, r.exact, t) else Opaque] else t
    case Constant(x, v) => if v.Some? then t[x := LiteralOut(v.value, r.exact)] else t
    case _ => t
  }

  function AfterAll(ss: seq<Stmt>, r: Reader, t: Table): Table
    decreases ss
  {
    if ss == [] then t else AfterAll(ss[1..], r, After(ss[0], r, t))
  }

  /** What the source says: lexical scoping, and literals are the numbers written. */
  const SOURCE := Reader(true, true)

  /** The value of an expression whose names stand for what the table says. */
  function ExprValue(e: Expr, exact: bool, t: Table): Out
  {
    match e
    case Number(text) => LiteralOut(text, exact)
    case Boolean(b) => Num(if b then 1 else 0)
    case Identifier(x) => Held(t, x)
    case Uzumaki(w) => if w.Some? then Any(w.value) else Opaque
    case OtherExpr(_) => Opaque
  }

  /** An identifier whose two values differ, or a literal whose word does not stand for the number written. */
  predicate Misread(e: Expr, lex: Table, flat: Table)
  {
    ExprValue(e, true, lex) != ExprValue(e, false, flat)
  }

  predicate Lost(text: string)
  {
    LiteralOut(text, true) != LiteralOut(text, false)
  }

  /** Evaluating the expression does something besides giving a value. */
  predicate Acts(e: Expr)
  {
    e.Uzumaki? || (e.OtherExpr? && e.effects)
  }

  /**
    Before the first return, or in it, a value is returned or stored that is not the one the source says, or a local
    variable's initial value does something: it has no code.
   */
  predicate Misreads(s: Stmt, spills: bool, lex: Table, flat: Table)
    decreases s
  {
    match s
    case Block(body) => MisreadsAll(body, spills, lex, flat)
    case Quantified(_, body) => MisreadsAll(body, spills, lex, flat)
    case Expression(e) => spills && Misread(e, lex, flat)
    case Return(e) => Misread(e, lex, flat)
    case Variable(_, init) => init.Some? && Acts(init.value)
    case Constant(_, v) => v.Some? && Lost(v.value)
    case _ => false
  }

  predicate MisreadsAll(ss: seq<Stmt>, spills: bool, lex: Table, flat: Table)
    decreases ss
  {
    ss != [] &&
    (|| Misreads(ss[0], spills, lex, flat)
     || (!Returns(ss[0]) && MisreadsAll(ss[1..], spills, After(ss[0], SOURCE, lex), After(ss[0], LOWERED, flat))))
  }

  /** The table tells what the names stand for, but for those of earlier functions. */
  ghost predicate Tells(env: Env, t: Table)
  {
    forall x :: x in env.names || x !in env.earlier ==> env.Stands(x) == Held(t, x)
  }

  lemma ValueTold(e: Expr, exact: bool, env: Env, t: Table)
    requires Tells(env, t) && (e.Identifier? ==> e.name in env.names || e.name !in env.earlier)
    ensures ExprOut(e, exact, env) == ExprValue(e, exact, t)
  {
  }

  lemma {:induction false} TellsAfter(s: Stmt, r: Reader, spills: bool, env: Env, t: Table)
    requires Tells(env, t) && (r.lexical ==> env.earlier == {})
    ensures Tells(Meaning(s, r, spills, env).1, After(s, r, t))
    decreases s
  {
    match s
    case Block(body) =>
      TellsAfterAll(body, r, spills, env, t);
      OutsideStaysAll(body, r, spills, env);
    case Quantified(_, body) =>
      TellsAfterAll(body, r, spills, env, t);
      OutsideStaysAll(body, r, spills, env);
    case Variable(x, init) =>
      if r.lexical && init.Some? {
        ValueTold(init.value, r.exact, env, t);
      }
    case _ =>
  }

  lemma {:induction false} TellsAfterAll(ss: seq<Stmt>, r: Reader, spills: bool, env: Env, t: Table)
    requires Tells(env, t) && (r.lexical ==> env.earlier == {})
    ensures Tells(MeaningAll(ss, r, spills, env).1, AfterAll(ss, r, t))
    decreases ss
  {
    hide Tells;
    if ss != [] {
      OutsideStays(ss[0], r, spills, env);
      TellsAfter(ss[0], r, spills, env, t);
      TellsAfterAll(ss[1..], r, spills, Meaning(ss[0], r, spills, env).1, After(ss[0], r, t));
    }
  }

  /** The names a function has defined so far, under flat scoping. */
  lemma OwnNames(s: Stmt, exact: bool, spills: bool, env: Env, names: set<string>)
    requires Defined(s) && names <= env.names.Keys
    ensures names + Names(s) <= Meaning(s, Reader(false, exact), spills, env).1.names.Keys
  {
    hide Meaning, Names, Defined;
    var after := Meaning(s, Reader(false, exact), spills, env).1;
    forall x <- names + Names(s)
      ensures x in after.names
    {
      if x in names {
        StillNamed(s, exact, spills, env, x);
      } else {
        FlatEffect(s, exact, spills, env, x);
      }
    }
  }

  lemma {:induction false} StillNamed(s: Stmt, exact: bool, spills: bool, env: Env, x: string)
    requires x in env.names
    ensures x in Meaning(s, Reader(false, exact), spills, env).1.names
    decreases s
  {
    match s
    case Block(body) => StillNamedAll(body, exact, spills, env, x);
    case Quantified(_, body) => StillNamedAll(body, exact, spills, env, x);
    case _ =>
  }

  lemma {:induction false} StillNamedAll(ss: seq<Stmt>, exact: bool, spills: bool, env: Env, x: string)
    requires x in env.names
    ensures x in MeaningAll(ss, Reader(false, exact), spills, env).1.names
    decreases ss
  {
    if ss != [] {
      StillNamed(ss[0], exact, spills, env, x);
      StillNamedAll(ss[1..], exact, spills, Meaning(ss[0], Reader(false, exact), spills, env).1, x);
    }
  }

  /**
    Two runs of the same function at the same place, with tables for what its names stand for and the names it owns.
   */
  ghost predicate Told(lex: Env, flat: Env, t: Table, u: Table, own: set<string>)
  {
    && lex.live == flat.live && lex.earlier == {} && own <= flat.names.Keys
    && Tells(lex, t) && Tells(flat, u)
  }

  lemma ToldAfter(s: Stmt, spills: bool, lex: Env, flat: Env, t: Table, u: Table, own: set<string>)
    requires Told(lex, flat, t, u, own) && Defined(s)
    ensures Told(Meaning(s, SOURCE, spills, lex).1, Meaning(s, LOWERED, spills, flat).1,
                 After(s, SOURCE, t), After(s, LOWERED, u), own + Names(s))
  {
    hide Meaning, After, Tells, Names, Defined;
    TellsAfter(s, SOURCE, spills, lex, t);
    TellsAfter(s, LOWERED, spills, flat, u);
    OutsideStays(s, SOURCE, spills, lex);
    OwnNames(s, false, spills, flat, own);
    RunsUntilReturn(s, SOURCE, spills, lex);
    RunsUntilReturn(s, LOWERED, spills, flat);
  }

  /**
    In a function that uses only names of its own, what the source says and what the lowered code does can be told
    apart from outside exactly when a value is misread.
   */
  lemma {:induction false} EffectsExactly(s: Stmt, spills: bool, lex: Env, flat: Env, t: Table, u: Table,
                                          own: set<string>)
    requires Told(lex, flat, t, u, own) && Supported(s, own)
    ensures var a, b := Effects(Meaning(s, SOURCE, spills, lex).0), Effects(Meaning(s, LOWERED, spills, flat).0);
            |a| >= |b| && (a == b <==> !lex.live || !Misreads(s, spills, t, u))
    decreases s
  {
    hide Effects, Tells;
    match s
    case Block(body) => EffectsAllExactly(body, spills, lex, flat, t, u, own);
    case Quantified(kind, body) =>
      EffectsAllExactly(body, spills, lex, flat, t, u, own);
      RunsUntilReturnAll(body, SOURCE, spills, lex);
      RunsUntilReturnAll(body, LOWERED, spills, flat);
      var (a, inner) := MeaningAll(body, SOURCE, spills, lex);
      var (b, inner') := MeaningAll(body, LOWERED, spills, flat);
      Bracketed(kind, lex, a, inner);
      Bracketed(kind, flat, b, inner');
      FramedMore(Effects(lex.Shown([Enter(kind)])), Effects(a), Effects(b), Effects(inner.Shown([Leave(kind)])));
    case Variable(_, init) =>
      EffectsOne(GaveNothing);
      if init.Some? {
        ExprActsEffects(init.value, lex);
      }
    case Expression(e) =>
      EffectsOne(GaveNothing);
      ExprEffects(e, true, spills, lex);
      ExprEffects(e, false, spills, flat);
      MisreadExactly(e, lex, flat, t, u, own);
      Paired(ExprDrawn(e), ExprDrawn(e), KeptOf(e, true, spills, lex), KeptOf(e, false, spills, flat));
    case Return(e) =>
      EffectsOne(GaveNothing);
      ReturnEffects(e, true, lex);
      ReturnEffects(e, false, flat);
      MisreadExactly(e, lex, flat, t, u, own);
      Paired(ExprDrawn(e), ExprDrawn(e), [Returned(ExprOut(e, true, lex))], [Returned(ExprOut(e, false, flat))]);
    case Constant(x, v) =>
      if v.Some? {
        EffectsOne(Kept(lex.next, LiteralOut(v.value, true)));
        EffectsOne(Kept(flat.next, LiteralOut(v.value, false)));
      }
    case _ =>
  }

  lemma Bracketed(kind: Kind, env: Env, acts: seq<Act>, inner: Env)
    ensures Effects(env.Shown([Enter(kind)]) + acts + inner.Shown([Leave(kind)]))
         == Effects(env.Shown([Enter(kind)])) + Effects(acts) + Effects(inner.Shown([Leave(kind)]))
  {
    hide Effects;
    EffectsConcat(env.Shown([Enter(kind)]) + acts, inner.Shown([Leave(kind)]));
    EffectsConcat(env.Shown([Enter(kind)]), acts);
  }

  /** Draws show, loads do not. */
  function ExprDrawn(e: Expr): seq<Effect>
  {
    if e.Uzumaki? then [if e.width.Some? then Drawn(e.width.value) else Acting]
    else if e.OtherExpr? && e.effects then [Acting]
    else []
  }

  function KeptOf(e: Expr, exact: bool, spills: bool, env: Env): seq<Effect>
  {
    if spills then [Stored(ExprOut(e, exact, env))] else []
  }

  lemma ExprActsEffects(e: Expr, env: Env)
    ensures Effects(ExprActs(e, env)) == ExprDrawn(e)
  {
    if ExprActs(e, env) != [] {
      EffectsOne(ExprActs(e, env)[0]);
    }
  }

  lemma ExprEffects(e: Expr, exact: bool, spills: bool, env: Env)
    ensures var kept := if spills then [Kept(env.next, ExprOut(e, exact, env))] else [];
            Effects(ExprActs(e, env) + kept) == ExprDrawn(e) + KeptOf(e, exact, spills, env)
  {
    hide Effects;
    var last := Kept(env.next, ExprOut(e, exact, env));
    EffectsConcat(ExprActs(e, env), if spills then [last] else []);
    EffectsOne(last);
    ExprActsEffects(e, env);
  }

  lemma ReturnEffects(e: Expr, exact: bool, env: Env)
    ensures Effects(ExprActs(e, env) + [Gave(ExprOut(e, exact, env))])
         == ExprDrawn(e) + [Returned(ExprOut(e, exact, env))]
  {
    hide Effects;
    var last := Gave(ExprOut(e, exact, env));
    EffectsConcat(ExprActs(e, env), [last]);
    EffectsOne(last);
    ExprActsEffects(e, env);
  }

  lemma MisreadExactly(e: Expr, lex: Env, flat: Env, t: Table, u: Table, own: set<string>)
    requires Told(lex, flat, t, u, own) && SupportedExpr(e, own)
    ensures Misread(e, t, u) <==> ExprOut(e, true, lex) != ExprOut(e, false, flat)
  {
    ValueTold(e, true, lex, t);
    ValueTold(e, false, flat, u);
  }

  lemma {:induction false} EffectsAllExactly(ss: seq<Stmt>, spills: bool, lex: Env, flat: Env, t: Table, u: Table,
                                             own: set<string>)
    requires Told(lex, flat, t, u, own) && SupportedAll(ss, own)
    ensures var a := Effects(MeaningAll(ss, SOURCE, spills, lex).0);
            var b := Effects(MeaningAll(ss, LOWERED, spills, flat).0);
            |a| >= |b| && (a == b <==> !lex.live || !MisreadsAll(ss, spills, t, u))
    decreases ss
  {
    hide Effects, Tells, Meaning, Misreads, After, Supported, Names;
    if ss != [] {
      SupportedIsDefined(ss[0], own);
      EffectsExactly(ss[0], spills, lex, flat, t, u, own);
      ToldAfter(ss[0], spills, lex, flat, t, u, own);
      RunsUntilReturn(ss[0], SOURCE, spills, lex);
      var (a, lex1) := Meaning(ss[0], SOURCE, spills, lex);
      var (b, flat1) := Meaning(ss[0], LOWERED, spills, flat);
      EffectsAllExactly(ss[1..], spills, lex1, flat1, After(ss[0], SOURCE, t), After(ss[0], LOWERED, u),
                        own + Names(ss[0]));
      var a', b' := MeaningAll(ss[1..], SOURCE, spills, lex1).0, MeaningAll(ss[1..], LOWERED, spills, flat1).0;
      EffectsConcat(a, a');
      EffectsConcat(b, b');
      PairedMore(Effects(a), Effects(b), Effects(a'), Effects(b'));
    }
  }
}
