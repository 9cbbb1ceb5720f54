/** The protocol by which the syntax tree builder allocates ids and stores nodes. */
module Builders {
  import opened Decoded
  import opened Ordered
  import opened Arenas

  /**
    What building a piece of concrete syntax does with ids, the arena and the error list; `own` errors are reported
    on it.
   */
  datatype Syntax =
    | Stored(own: nat, tag: nat, parts: seq<Syntax>)  // takes an id, builds the parts under it, stores the node
    | Passed(own: nat, parts: seq<Syntax>)            // builds the parts under the same parent
    | Unstored(own: nat)                              // takes an id that never reaches the arena
    | Broken(own: nat, parts: seq<Syntax>)            // takes an id for the parts, stores nothing; one more error

  /** How many ids building it takes. */
  function Size(s: Syntax): nat
    decreases s
  {
    match s
    case Stored(_, _, parts) => 1 + Sizes(parts)
    case Passed(_, parts) => Sizes(parts)
    case Unstored(_) => 1
    case Broken(_, parts) => 1 + Sizes(parts)
  }

  function Sizes(parts: seq<Syntax>): nat
    decreases parts
  {
    if parts == [] then 0 else Size(parts[0]) + Sizes(parts[1..])
  }

  lemma SizesFrom(parts: seq<Syntax>, i: nat)
    requires i < |parts|
    ensures Sizes(parts[i..]) == Size(parts[i]) + Sizes(parts[i + 1..])
  {
    assert parts[i..][0] == parts[i] && parts[i..][1..] == parts[i + 1..];
  }

  /** How many nodes end up in the arena. */
  function StoredCount(s: Syntax): nat
    decreases s
  {
    match s
    case Stored(_, _, parts) => 1 + StoredCounts(parts)
    case Passed(_, parts) => StoredCounts(parts)
    case Unstored(_) => 0
    case Broken(_, parts) => StoredCounts(parts)
  }

  function StoredCounts(parts: seq<Syntax>): nat
    decreases parts
  {
    if parts == [] then 0 else StoredCount(parts[0]) + StoredCounts(parts[1..])
  }

  lemma StoredCountsFrom(parts: seq<Syntax>, i: nat)
    requires i < |parts|
    ensures StoredCounts(parts[i..]) == StoredCount(parts[i]) + StoredCounts(parts[i + 1..])
  {
    assert parts[i..][0] == parts[i] && parts[i..][1..] == parts[i + 1..];
  }

  /** How many errors are reported on it and inside it. */
  function Faults(s: Syntax): nat
    decreases s
  {
    match s
    case Stored(own, _, parts) => own + FaultsAll(parts)
    case Passed(own, parts) => own + FaultsAll(parts)
    case Unstored(own) => own
    case Broken(own, parts) => own + 1 + FaultsAll(parts)
  }

  function FaultsAll(parts: seq<Syntax>): nat
    decreases parts
  {
    if parts == [] then 0 else Faults(parts[0]) + FaultsAll(parts[1..])
  }

  lemma FaultsFrom(parts: seq<Syntax>, i: nat)
    requires i < |parts|
    ensures FaultsAll(parts[i..]) == Faults(parts[i]) + FaultsAll(parts[i + 1..])
  {
    assert parts[i..][0] == parts[i] && parts[i..][1..] == parts[i + 1..];
  }

  // ----- what the arena says about a piece of syntax built from id `c` on -----

  /** The ids that become children of the parent, in order. */
  function Tops(s: Syntax, c: nat): seq<nat>
    decreases s
  {
    match s
    case Stored(_, _, _) => [c]
    case Passed(_, parts) => TopsAll(parts, c)
    case _ => []
  }

  function TopsAll(parts: seq<Syntax>, c: nat): seq<nat>
    decreases parts
  {
    if parts == [] then [] else Tops(parts[0], c) + TopsAll(parts[1..], c + Size(parts[0]))
  }

  /** The arena holds the stored nodes of `s`, each with its stored parts as children, in order. */
  ghost predicate Describes(v: Links, s: Syntax, c: nat)
    decreases s
  {
    match s
    case Stored(_, tag, parts) =>
      && c in v.nodes && v.nodes[c] == AstNode(c, false, tag)
      && Kids(v, c) == TopsAll(parts, c + 1) && DescribesAll(v, parts, c + 1)
    case Passed(_, parts) => DescribesAll(v, parts, c)
    case Unstored(_) => true
    case Broken(_, parts) => DescribesAll(v, parts, c + 1)
  }

  ghost predicate DescribesAll(v: Links, parts: seq<Syntax>, c: nat)
    decreases parts
  {
    parts == [] || (Describes(v, parts[0], c) && DescribesAll(v, parts[1..], c + Size(parts[0])))
  }

  /** File after file, each a source file node with its definitions as children. */
  ghost predicate DescribesFiles(v: Links, roots: seq<seq<Syntax>>, c: nat)
    decreases |roots|
  {
    roots == [] ||
    (&& c in v.nodes && v.nodes[c] == AstNode(c, true, 0)
     && Kids(v, c) == TopsAll(roots[0], c + 1) && DescribesAll(v, roots[0], c + 1)
     && DescribesFiles(v, roots[1..], c + 1 + Sizes(roots[0])))
  }

  lemma {:induction false} TopsSnoc(parts: seq<Syntax>, x: Syntax, c: nat)
    ensures TopsAll(parts + [x], c) == TopsAll(parts, c) + Tops(x, c + Sizes(parts))
    ensures Sizes(parts + [x]) == Sizes(parts) + Size(x)
    decreases |parts|
  {
    hide Tops, Size;
    if parts == [] {
      assert parts + [x] == [x] && [x][1..] == [];
      assert TopsAll([x][1..], c + Size(x)) == [] && Sizes([x][1..]) == 0;
    } else {
      assert (parts + [x])[1..] == parts[1..] + [x];
      TopsSnoc(parts[1..], x, c + Size(parts[0]));
    }
  }

  lemma {:induction false} DescribesSnoc(v: Links, parts: seq<Syntax>, x: Syntax, c: nat)
    requires DescribesAll(v, parts, c) && Describes(v, x, c + Sizes(parts))
    ensures DescribesAll(v, parts + [x], c)
    decreases |parts|
  {
    hide Describes, Size;
    if parts == [] {
      assert parts + [x] == [x] && [x][1..] == [];
      assert DescribesAll(v, [x][1..], c + Size(x));
    } else {
      assert (parts + [x])[1..] == parts[1..] + [x];
      DescribesSnoc(v, parts[1..], x, c + Size(parts[0]));
    }
  }

  /** What the arena says stays said while other constructs are built. */
  lemma {:induction false} StillDescribes(v: Links, w: Links, s: Syntax, c: nat, from: nat, parent: nat)
    requires Describes(v, s, c) && Keeps(v, w, from, parent) && parent < c && c + Size(s) <= from
    ensures Describes(w, s, c)
    decreases s
  {
    hide Kids;
    match s
    case Stored(_, _, parts) =>
      assert Kids(w, c) == Kids(v, c);
      StillDescribesAll(v, w, parts, c + 1, from, parent);
    case Passed(_, parts) => StillDescribesAll(v, w, parts, c, from, parent);
    case Unstored(_) =>
    case Broken(_, parts) => StillDescribesAll(v, w, parts, c + 1, from, parent);
  }

  lemma {:induction false} StillDescribesAll(v: Links, w: Links, parts: seq<Syntax>, c: nat, from: nat, parent: nat)
    requires DescribesAll(v, parts, c) && Keeps(v, w, from, parent) && parent < c && c + Sizes(parts) <= from
    ensures DescribesAll(w, parts, c)
    decreases parts
  {
    hide Describes, Keeps;
    if parts != [] {
      StillDescribes(v, w, parts[0], c, from, parent);
      StillDescribesAll(v, w, parts[1..], c + Size(parts[0]), from, parent);
    }
  }

  /**
    Between steps the arena is a forest but for the ancestors in `open`, and for the nodes given up on with an
    error.
   */
  ghost predicate InOrder(v: Links, counter: nat, open: set<nat>, abandoned: set<nat>, files: set<nat>)
  {
    && 1 <= counter && Growing(v, open + abandoned) && FilesApart(v, files) && open !! abandoned
    && (forall i <- v.nodes :: 0 < i < counter)
    && (forall i: nat :: i in open || i in abandoned ==> 0 < i < counter && i !in v.nodes)
    && (forall f <- files :: 0 < f < counter)
  }

  /** Taking an id opens a node. */
  lemma Opened(v: Links, id: nat, open: set<nat>, abandoned: set<nat>, files: set<nat>)
    requires InOrder(v, id, open, abandoned, files)
    ensures InOrder(v, id + 1, open + {id}, abandoned, files) && forall f <- files :: f <= id
  {
    hide Growing, FilesApart;
    GrowingMore(v, open + abandoned, open + {id} + abandoned);
  }

  /** Storing an open node, after everything below it, closes it. */
  lemma ClosedBy(was: Links, v: Links, counter: nat, open: set<nat>, abandoned: set<nat>, files: set<nat>,
                 node: AstNode, parent: nat, n: nat)
    requires exists gone :: InOrder(was, node.id, open, gone, files)
    requires InOrder(v, counter, open + {node.id}, abandoned, files) && Changed(was, v, node.id + 1, node.id, n)
    requires !node.isSourceFile && node.id < NO_PARENT && parent in open && forall f <- files :: f <= parent
    ensures node.id != 0 && node.id !in v.nodes
    ensures InOrder(Added(v, node, parent), counter, open, abandoned, files)
    ensures Changed(was, Added(v, node, parent), node.id, parent, n + 1)
  {
    hide Growing, FilesApart, Kids, Added;
    var gone :| InOrder(was, node.id, open, gone, files);
    KidsStored(was, open + gone, parent);
    assert open + {node.id} + abandoned == open + abandoned + {node.id};
    AddedGrows(v, open + abandoned, node, parent);
    AddedFiles(v, files, node, parent);
    AddedChanges(v, node, parent);
  }

  /** Storing a node over its parts completes its description and appends it to its parent's children. */
  lemma StoredDescribed(was: Links, v: Links, own: nat, tag: nat, parts: seq<Syntax>, id: nat, parent: nat, n: nat)
    requires Changed(was, v, id + 1, id, n) && parent < id < NO_PARENT && id !in v.nodes
    requires Kids(v, id) == TopsAll(parts, id + 1) && DescribesAll(v, parts, id + 1)
    ensures var w := Added(v, AstNode(id, false, tag), parent);
            Describes(w, Stored(own, tag, parts), id) && Kids(w, parent) == Kids(was, parent) + [id]
  {
    hide TopsAll, DescribesAll;
    var w := Added(v, AstNode(id, false, tag), parent);
    assert Kids(w, id) == Kids(v, id) && Kids(v, parent) == Kids(was, parent);
    StillDescribesAll(v, w, parts, id + 1, id + 1 + Sizes(parts), parent);
  }

  lemma KeepsLess(was: Links, now: Links, id: nat, parent: nat)
    requires Keeps(was, now, id + 1, id) && parent < id
    ensures Keeps(was, now, id, parent) && Kids(now, parent) == Kids(was, parent)
  {
  }

  /** An open node may be given up on. */
  lemma GivenUp(was: Links, v: Links, counter: nat, open: set<nat>, gone: set<nat>, abandoned: set<nat>,
                files: set<nat>, id: nat)
    requires InOrder(was, id, open, gone, files) && InOrder(v, counter, open + {id}, abandoned, files)
    ensures InOrder(v, counter, open, abandoned + {id}, files)
  {
    hide Growing, FilesApart;
    assert open + {id} + abandoned == open + (abandoned + {id});
  }

  /** A new id has no children yet. */
  lemma FreshId(v: Links, id: nat, open: set<nat>, abandoned: set<nat>, files: set<nat>)
    requires InOrder(v, id, open, abandoned, files)
    ensures Kids(v, id) == []
  {
    hide OwnIds, RootsAreFiles, ListedOnce, FilesApart;
    forall k: nat
      ensures k !in Kids(v, id)
    {
      assert k in Kids(v, id) <==> Parent(v, k) == Some(id);
    }
    NoMember(Kids(v, id));
  }

  lemma NoMember(s: seq<nat>)
    requires forall k: nat :: k !in s
    ensures s == []
  {
    assert |s| > 0 ==> exists k: nat :: k in s by {
      FirstMember(s);
    }
  }

  lemma FirstMember(s: seq<nat>)
    ensures |s| > 0 ==> s[0] in s
  {
  }

  lemma KeepsOf(was: Links, now: Links, from: nat, parent: nat, n: nat)
    requires Changed(was, now, from, parent, n)
    ensures Keeps(was, now, from, parent)
  {
  }

  /** What a step under `parent` that stores `n` nodes with ids from `from` on may have changed. */
  ghost predicate Changed(was: Links, now: Links, from: nat, parent: nat, n: nat)
  {
    && |now.nodes| == |was.nodes| + n && Keeps(was, now, from, parent)
    && (forall i <- now.nodes :: i in was.nodes || from <= i)
  }

  /** Stored nodes stay, and among ids below `from` only `parent` gets more children. */
  ghost predicate Keeps(was: Links, now: Links, from: nat, parent: nat)
  {
    && (forall i <- was.nodes :: i in now.nodes && now.nodes[i] == was.nodes[i])
    && (forall p: nat :: p < from && p != parent ==> Kids(now, p) == Kids(was, p))
  }

  lemma CountOf(was: Links, now: Links, from: nat, parent: nat, n: nat)
    requires Changed(was, now, from, parent, n)
    ensures |now.nodes| == |was.nodes| + n
  {
  }

  lemma ChangedTrans(a: Links, b: Links, c: Links, from: nat, from': nat, parent: nat, n: nat, m: nat)
    requires Changed(a, b, from, parent, n) && Changed(b, c, from', parent, m) && from <= from'
    ensures Changed(a, c, from, parent, n + m)
  {
    hide Kids;
  }

  class Builder {
    const arena: Arena
    var counter: nat
    var errors: nat
    ghost var abandoned: set<nat>
    ghost var files: set<nat>

    /** A builder starts with an empty arena, wherever the global counter stands. */
    constructor (counter: nat)
      requires 1 <= counter
      ensures fresh(arena) && this.counter == counter && errors == 0 && files == {}
      ensures Valid({}) && arena.View() == Links(map[], map[], map[])
    {
      arena := new Arena();
      this.counter, errors, abandoned, files := counter, 0, {}, {};
    }

    ghost predicate Valid(open: set<nat>)
      reads this, arena
    {
      InOrder(arena.View(), counter, open, abandoned, files) && (errors == 0 ==> abandoned == {})
    }

    method GetNodeId() returns (id: nat)
      modifies this`counter
      ensures id == old(counter) && counter == id + 1
    {
      id := counter;
      counter := counter + 1;
    }

    method Build(parent: nat, s: Syntax, ghost open: set<nat>)
      requires Valid(open) && parent in open && (forall f <- files :: f <= parent)
      requires counter + Size(s) < NO_PARENT
      modifies this`counter, this`errors, this`abandoned, arena
      ensures Valid(open) && counter == old(counter) + Size(s)
      ensures errors == old(errors) + Faults(s)
      ensures Changed(old(arena.View()), arena.View(), old(counter), parent, StoredCount(s))
      ensures Kids(arena.View(), parent) == Kids(old(arena.View()), parent) + Tops(s, old(counter))
      ensures Describes(arena.View(), s, old(counter))
      decreases s, 0
    {
      hide Growing, FilesApart, Sizes, StoredCounts, FaultsAll, Kids, TopsAll, DescribesAll;
      match s {
        case Stored(own, tag, parts) => BuildStored(parent, own, tag, parts, open);
        case Passed(own, parts) =>
          errors := errors + own;
          BuildAll(parent, parts, open);
        case Unstored(own) =>
          errors := errors + own;
          var _ := GetNodeId();
        case Broken(own, parts) => BuildBroken(parent, own, parts, open);
      }
    }

    method BuildAll(parent: nat, parts: seq<Syntax>, ghost open: set<nat>)
      requires Valid(open) && parent in open && (forall f <- files :: f <= parent)
      requires counter + Sizes(parts) < NO_PARENT
      modifies this`counter, this`errors, this`abandoned, arena
      ensures Valid(open) && counter == old(counter) + Sizes(parts)
      ensures errors == old(errors) + FaultsAll(parts)
      ensures Changed(old(arena.View()), arena.View(), old(counter), parent, StoredCounts(parts))
      ensures Kids(arena.View(), parent) == Kids(old(arena.View()), parent) + TopsAll(parts, old(counter))
      ensures DescribesAll(arena.View(), parts, old(counter))
      decreases parts, 0
    {
      hide InOrder, Changed, Sizes, StoredCounts, Faults, Kids, TopsAll, DescribesAll, Describes, Tops;
      Nothing(arena.View(), parts, counter, parent);
      ghost var was, c0, kids := arena.View(), counter, Kids(arena.View(), parent);
      for i := 0 to |parts|
        invariant Valid(open) && counter == c0 + Sizes(parts[..i])
        invariant Sizes(parts[..i]) + Sizes(parts[i..]) == Sizes(parts)
        invariant StoredCounts(parts[i..]) <= StoredCounts(parts)
        invariant errors + FaultsAll(parts[i..]) == old(errors) + FaultsAll(parts)
        invariant Changed(was, arena.View(), c0, parent, StoredCounts(parts) - StoredCounts(parts[i..]))
        invariant Kids(arena.View(), parent) == kids + TopsAll(parts[..i], c0)
        invariant DescribesAll(arena.View(), parts[..i], c0)
      {
        SizesFrom(parts, i);
        StoredCountsFrom(parts, i);
        FaultsFrom(parts, i);
        assert parts[..i + 1] == parts[..i] + [parts[i]];
        TopsSnoc(parts[..i], parts[i], c0);
        ghost var mid, c := arena.View(), counter;
        Build(parent, parts[i], open);
        ChangedTrans(was, mid, arena.View(), c0, c, parent,
                     StoredCounts(parts) - StoredCounts(parts[i..]), StoredCount(parts[i]));
        OpenBelow(was, c0, open, old(abandoned), files, parent);
        KeepsOf(mid, arena.View(), c, parent, StoredCount(parts[i]));
        StillDescribesAll(mid, arena.View(), parts[..i], c0, c, parent);
        DescribesSnoc(arena.View(), parts[..i], parts[i], c0);
        assert kids + TopsAll(parts[..i], c0) + Tops(parts[i], c)
               == kids + (TopsAll(parts[..i], c0) + Tops(parts[i], c));
      }
      assert parts[..|parts|] == parts;
    }

    method BuildStored(parent: nat, own: nat, tag: nat, parts: seq<Syntax>, ghost open: set<nat>)
      requires Valid(open) && parent in open && (forall f <- files :: f <= parent)
      requires counter + 1 + Sizes(parts) < NO_PARENT
      modifies this`counter, this`errors, this`abandoned, arena
      ensures Valid(open) && counter == old(counter) + 1 + Sizes(parts)
      ensures errors == old(errors) + own + FaultsAll(parts)
      ensures Changed(old(arena.View()), arena.View(), old(counter), parent, 1 + StoredCounts(parts))
      ensures Kids(arena.View(), parent) == Kids(old(arena.View()), parent) + [old(counter)]
      ensures Describes(arena.View(), Stored(own, tag, parts), old(counter))
      decreases parts, 1
    {
      hide InOrder, Changed, Sizes, StoredCounts, FaultsAll, Added, Kids, TopsAll, DescribesAll, Describes;
      ghost var was := arena.View();
      errors := errors + own;
      var id := GetNodeId();
      Opened(was, id, open, abandoned, files);
      FreshId(was, id, open, abandoned, files);
      BuildAll(id, parts, open + {id});
      assert [] + TopsAll(parts, id + 1) == TopsAll(parts, id + 1);
      var node := AstNode(id, false, tag);
      ClosedBy(was, arena.View(), counter, open, abandoned, files, node, parent, StoredCounts(parts));
      OpenBelow(was, id, open, old(abandoned), files, parent);
      StoredDescribed(was, arena.View(), own, tag, parts, id, parent, StoredCounts(parts));
      arena.AddNode(node, parent);
    }

    method BuildBroken(parent: nat, own: nat, parts: seq<Syntax>, ghost open: set<nat>)
      requires Valid(open) && parent in open && (forall f <- files :: f <= parent)
      requires counter + 1 + Sizes(parts) < NO_PARENT
      modifies this`counter, this`errors, this`abandoned, arena
      ensures Valid(open) && counter == old(counter) + 1 + Sizes(parts)
      ensures errors == old(errors) + own + 1 + FaultsAll(parts)
      ensures Changed(old(arena.View()), arena.View(), old(counter), parent, StoredCounts(parts))
      ensures Kids(arena.View(), parent) == Kids(old(arena.View()), parent)
      ensures DescribesAll(arena.View(), parts, old(counter) + 1)
      decreases parts, 1
    {
      hide InOrder, Keeps, Sizes, StoredCounts, FaultsAll, DescribesAll, TopsAll, Kids;
      errors := errors + own + 1;
      ghost var was := arena.View();
      var id := GetNodeId();
      Opened(was, id, open, abandoned, files);
      BuildAll(id, parts, open + {id});
      OpenBelow(was, id, open, old(abandoned), files, parent);
      KeepsLess(was, arena.View(), id, parent);
      GivenUp(was, arena.View(), counter, open, old(abandoned), abandoned, files, id);
      abandoned := abandoned + {id};
    }

    /** Builds one file after the files `done`, whose ids start at `c0`. */
    method BuildFile(parts: seq<Syntax>, ghost done: seq<seq<Syntax>>, ghost c0: nat)
      requires Valid({}) && errors == 0 && counter == c0 + Total(done) && DescribesFiles(arena.View(), done, c0)
      requires counter + 1 + Sizes(parts) < NO_PARENT
      modifies this, arena
      ensures Valid({}) && counter == old(counter) + 1 + Sizes(parts) && counter == c0 + Total(done + [parts])
      ensures |files| == |old(files)| + 1 && |arena.nodes| == |old(arena.nodes)| + 1 + StoredCounts(parts)
      ensures errors == FaultsAll(parts) && DescribesFiles(arena.View(), done + [parts], c0)
    {
      hide Growing, FilesApart, Sizes, StoredCounts, FaultsAll, Added, Changed, InOrder, TopsAll, DescribesAll;
      hide DescribesFiles, Kids, Total, TotalStored;
      var id := GetNodeId();
      ghost var was, from := arena.View(), counter;
      NewFile(was, id, files);
      FreshId(was, id, {}, {}, files);
      files := files + {id};
      BuildAll(id, parts, {id});
      CountOf(was, arena.View(), from, id, StoredCounts(parts));
      var node := AstNode(id, true, 0);
      FileClosed(arena.View(), counter, abandoned, files, node);
      FileDescribed(was, arena.View(), done, parts, c0, StoredCounts(parts));
      arena.AddNode(node, NO_PARENT);
    }

    /**
      Builds every file and succeeds exactly when no error is reported on any piece of them; then the arena is a
      forest rooted at the files, holding exactly the stored nodes.
     */
    method BuildAst(roots: seq<seq<Syntax>>) returns (ok: bool)
      requires Valid({}) && errors == 0 && files == {} && arena.View() == Links(map[], map[], map[])
      requires counter + Total(roots) < NO_PARENT
      modifies this, arena
      ensures ok <==> forall parts <- roots :: FaultsAll(parts) == 0
      ensures ok ==> Forest(arena.View()) && FilesApart(arena.View(), files)
      ensures ok ==> DescribesFiles(arena.View(), roots, old(counter))
      ensures ok ==> |arena.nodes| == TotalStored(roots) && |files| == |roots|
    {
      hide Growing, FilesApart, Sizes, StoredCounts, FaultsAll, InOrder, DescribesFiles, Total, TotalStored;
      NothingYet(roots);
      ghost var c0 := counter;
      for i := 0 to |roots|
        invariant Valid({}) && errors == 0 && |files| == i && (forall j :: 0 <= j < i ==> FaultsAll(roots[j]) == 0)
        invariant counter == c0 + Total(roots[..i]) && DescribesFiles(arena.View(), roots[..i], c0)
        invariant counter + Total(roots[i..]) < NO_PARENT
        invariant |arena.nodes| + TotalStored(roots[i..]) == TotalStored(roots)
      {
        TotalFrom(roots, i);
        BuildFile(roots[i], roots[..i], c0);
        assert roots[..i + 1] == roots[..i] + [roots[i]];
        if errors > 0 {
          return false;
        }
      }
      AllClosed(arena.View(), counter, files);
      assert roots[..|roots|] == roots;
      ok := true;
    }
  }

  function Total(roots: seq<seq<Syntax>>): nat
  {
    if roots == [] then 0 else 1 + Sizes(roots[0]) + Total(roots[1..])
  }

  function TotalStored(roots: seq<seq<Syntax>>): nat
  {
    if roots == [] then 0 else 1 + StoredCounts(roots[0]) + TotalStored(roots[1..])
  }

  lemma TotalFrom(roots: seq<seq<Syntax>>, i: nat)
    requires i < |roots|
    ensures Total(roots[i..]) == 1 + Sizes(roots[i]) + Total(roots[i + 1..])
    ensures TotalStored(roots[i..]) == 1 + StoredCounts(roots[i]) + TotalStored(roots[i + 1..])
  {
    assert roots[i..][0] == roots[i] && roots[i..][1..] == roots[i + 1..];
  }

  lemma NothingYet(roots: seq<seq<Syntax>>)
    ensures roots[0..] == roots && Total(roots[|roots|..]) == 0 && TotalStored(roots[|roots|..]) == 0
    ensures roots[..0] == [] && Total([]) == 0 && forall v, c: nat :: DescribesFiles(v, [], c)
  {
  }

  /** One more file described after the ones before it. */
  lemma FileDescribed(was: Links, v: Links, done: seq<seq<Syntax>>, parts: seq<Syntax>, c: nat, n: nat)
    requires var id := c + Total(done);
             && DescribesFiles(was, done, c) && Changed(was, v, id + 1, id, n) && id !in v.nodes
             && Kids(was, id) == [] && Kids(v, id) == [] + TopsAll(parts, id + 1) && DescribesAll(v, parts, id + 1)
    ensures var w := Added(v, AstNode(c + Total(done), true, 0), NO_PARENT);
            DescribesFiles(w, done + [parts], c)
    ensures Total(done + [parts]) == Total(done) + 1 + Sizes(parts)
  {
    hide TopsAll, DescribesAll, DescribesFiles, Sizes;
    var id := c + Total(done);
    var w := Added(v, AstNode(id, true, 0), NO_PARENT);
    assert forall p: nat :: Kids(w, p) == Kids(v, p);
    assert [] + TopsAll(parts, id + 1) == TopsAll(parts, id + 1);
    StillDescribesAll(v, w, parts, id + 1, id + 1 + Sizes(parts), 0);
    FilesSnoc(was, w, done, parts, c, id);
  }

  lemma {:induction false} FilesSnoc(was: Links, w: Links, done: seq<seq<Syntax>>, parts: seq<Syntax>, c: nat, id: nat)
    requires DescribesFiles(was, done, c) && id == c + Total(done) && Keeps(was, w, id, id)
    requires id in w.nodes && w.nodes[id] == AstNode(id, true, 0) && Kids(w, id) == TopsAll(parts, id + 1)
    requires DescribesAll(w, parts, id + 1)
    ensures DescribesFiles(w, done + [parts], c) && Total(done + [parts]) == Total(done) + 1 + Sizes(parts)
    decreases |done|
  {
    hide TopsAll, DescribesAll, Kids, Sizes;
    if done == [] {
      assert done + [parts] == [parts] && [parts][1..] == [];
      assert DescribesFiles(w, [parts][1..], c + 1 + Sizes(parts)) && Total([parts][1..]) == 0;
    } else {
      assert (done + [parts])[1..] == done[1..] + [parts];
      StillDescribesAll(was, w, done[0], c + 1, id, 0);
      FilesSnoc(was, w, done[1..], parts, c + 1 + Sizes(done[0]), id);
    }
  }

  lemma Nothing(v: Links, parts: seq<Syntax>, c: nat, parent: nat)
    ensures parts[0..] == parts && parts[..0] == [] && Sizes(parts[..0]) == 0
    ensures Sizes(parts[|parts|..]) == 0 && StoredCounts(parts[|parts|..]) == 0
    ensures TopsAll([], c) == [] && DescribesAll(v, [], c) && Changed(v, v, c, parent, 0)
    ensures Kids(v, parent) + [] == Kids(v, parent)
  {
  }

  lemma OpenBelow(v: Links, counter: nat, open: set<nat>, abandoned: set<nat>, files: set<nat>, parent: nat)
    requires InOrder(v, counter, open, abandoned, files) && parent in open
    ensures parent < counter
  {
  }

  lemma GrowingMore(v: Links, open: set<nat>, more: set<nat>)
    requires Growing(v, open) && open <= more
    ensures Growing(v, more)
  {
    hide OwnIds, RootsAreFiles, LinksAgree, ListedOnce;
  }

  lemma KidsStored(v: Links, open: set<nat>, p: nat)
    requires Growing(v, open)
    ensures forall k <- Kids(v, p) :: k in v.nodes
  {
    hide OwnIds, RootsAreFiles, ListedOnce;
    forall k <- Kids(v, p)
      ensures k in v.nodes
    {
      assert Parent(v, k) == Some(p);
    }
  }

  lemma AddedFiles(v: Links, files: set<nat>, node: AstNode, parent: nat)
    requires FilesApart(v, files) && parent < node.id && parent != NO_PARENT && !node.isSourceFile && node.id !in files
    requires forall f <- files :: f <= parent
    ensures FilesApart(Added(v, node, parent), files)
  {
  }

  lemma AddedChanges(v: Links, node: AstNode, parent: nat)
    requires node.id !in v.nodes
    ensures var w := Added(v, node, parent);
            w.nodes == v.nodes[node.id := node] && |w.nodes| == |v.nodes| + 1 &&
            forall p: nat :: p != parent || parent == NO_PARENT ==> Kids(w, p) == Kids(v, p)
  {
    assert v.nodes[node.id := node].Keys == v.nodes.Keys + {node.id};
  }

  /** A file's id lies above everything built so far. */
  lemma StartFile(v: Links, open: set<nat>, files: set<nat>, id: nat)
    requires Growing(v, open) && FilesApart(v, files) && id !in files && (forall i <- v.nodes :: i < id)
    ensures FilesApart(v, files + {id})
  {
    hide OwnIds, RootsAreFiles, LinksAgree, ListedOnce;
  }

  /** Taking the id of a new file, which lies above everything built so far. */
  lemma NewFile(v: Links, id: nat, files: set<nat>)
    requires InOrder(v, id, {}, {}, files)
    ensures InOrder(v, id + 1, {id}, {}, files + {id}) && (forall f <- files + {id} :: f <= id) && id !in files
  {
    hide Growing, FilesApart;
    var none: set<nat> := {};
    assert none + none == none;
    StartFile(v, {}, files, id);
    GrowingMore(v, {}, {id} + {});
  }

  lemma FileClosed(v: Links, counter: nat, abandoned: set<nat>, files: set<nat>, node: AstNode)
    requires InOrder(v, counter, {node.id}, abandoned, files) && node.isSourceFile && node.id in files
    ensures node.id != 0 && node.id !in v.nodes
    ensures InOrder(Added(v, node, NO_PARENT), counter, {}, abandoned, files)
    ensures |Added(v, node, NO_PARENT).nodes| == |v.nodes| + 1
  {
    hide Growing, FilesApart;
    assert {node.id} + abandoned == abandoned + {node.id} && {} + abandoned == abandoned;
    RootGrows(v, abandoned, node);
    RootFiles(v, files, node);
    AddedChanges(v, node, NO_PARENT);
  }

  lemma AllClosed(v: Links, counter: nat, files: set<nat>)
    requires InOrder(v, counter, {}, {}, files)
    ensures Forest(v) && FilesApart(v, files)
  {
    hide Growing, FilesApart;
    var none: set<nat> := {};
    assert none + none == none;
  }

  lemma RootFiles(v: Links, files: set<nat>, node: AstNode)
    requires FilesApart(v, files) && node.isSourceFile && node.id in files
    ensures FilesApart(Added(v, node, NO_PARENT), files)
  {
  }

  lemma RootGrows(v: Links, open: set<nat>, node: AstNode)
    requires Growing(v, open + {node.id}) && node.id !in v.nodes && node.isSourceFile
    ensures Growing(Added(v, node, NO_PARENT), open)
  {
    hide LinksAgree, ListedOnce;
    var w := Added(v, node, NO_PARENT);
    assert w.nodes.Keys == v.nodes.Keys + {node.id};
    SameLinks(v, w);
  }

  lemma SameLinks(v: Links, w: Links)
    requires LinksAgree(v) && ListedOnce(v) && w.parents == v.parents && w.children == v.children
    ensures LinksAgree(w) && ListedOnce(w)
  {
    assert forall p: nat :: Kids(w, p) == Kids(v, p) && Parent(w, p) == Parent(v, p);
    forall p: nat, c: nat
      ensures c in Kids(w, p) <==> Parent(w, c) == Some(p)
    {
      assert c in Kids(v, p) <==> Parent(v, c) == Some(p);
    }
    forall p: nat
      ensures Ascending(Kids(w, p))
    {
      assert Ascending(Kids(v, p));
    }
  }
}
