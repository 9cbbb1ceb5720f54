/** Module paths: the joined-path index against a walk through child links. */
module ModulePaths {
  import opened Decoded
  import opened Ordered
  import opened Types
  import opened ScopeTrees

  // ----- joining and splitting -----

  function Join(path: seq<string>): string
  {
    if path == [] then ""
    else if |path| == 1 then path[0]
    else path[0] + "::" + Join(path[1..])
  }

  predicate CleanName(name: string)
  {
    name != "" && ':' !in name
  }

  predicate Clean(path: seq<string>)
  {
    forall s <- path :: CleanName(s)
  }

  lemma {:induction false} JoinSnoc(path: seq<string>, name: string)
    requires Clean(path) && CleanName(name)
    ensures Join(path + [name]) == PathOf(Join(path), name)
    ensures Join(path) == "" <==> path == []
  {
    if |path| > 1 {
      assert (path + [name])[1..] == path[1..] + [name];
      JoinSnoc(path[1..], name);
      assert path[0] + "::" + (Join(path[1..]) + "::" + name) == path[0] + "::" + Join(path[1..]) + "::" + name;
    } else if |path| == 1 {
      assert CleanName(path[0]) && (path + [name])[1..] == [name];
      assert Join(path + [name]) == path[0] + "::" + name;
    } else {
      assert path + [name] == [name];
    }
  }

  /** Clean paths that join to the same key are equal. */
  lemma {:induction false} JoinInjective(a: seq<string>, b: seq<string>)
    requires Clean(a) && Clean(b) && Join(a) == Join(b)
    ensures a == b
    decreases |a|
  {
    if a == [] || b == [] {
      JoinSnoc(a, "a");
      JoinSnoc(b, "a");
    } else {
      HeadJoin(a);
      HeadJoin(b);
      assert CleanName(a[0]) && CleanName(b[0]);
      HeadIs(a[0], Join(a)[|a[0]|..]);
      HeadIs(b[0], Join(b)[|b[0]|..]);
      assert a == [a[0]] + a[1..] && b == [b[0]] + b[1..];
      if |a| > 1 && |b| > 1 {
        assert Join(a[1..]) == Join(a)[|a[0]| + 2..];
        assert Join(b[1..]) == Join(b)[|b[0]| + 2..];
        JoinInjective(a[1..], b[1..]);
      }
    }
  }

  /** A joined path is its first segment and then nothing, or a separator. */
  lemma HeadJoin(a: seq<string>)
    requires a != []
    ensures |a[0]| <= |Join(a)| && Join(a) == a[0] + Join(a)[|a[0]|..]
    ensures if |a| == 1 then Join(a)[|a[0]|..] == "" else Join(a)[|a[0]|..] == "::" + Join(a[1..])
  {
    if |a| > 1 {
      assert Join(a) == a[0] + ("::" + Join(a[1..]));
    }
  }

  /** The text before the first colon. */
  function Head(s: string): string
  {
    if s == "" || s[0] == ':' then "" else [s[0]] + Head(s[1..])
  }

  lemma {:induction false} HeadIs(x: string, rest: string)
    requires ':' !in x && (rest == "" || rest[0] == ':')
    ensures Head(x + rest) == x
  {
    if x == "" {
      assert x + rest == rest;
    } else {
      assert (x + rest)[1..] == x[1..] + rest;
      HeadIs(x[1..], rest);
    }
  }

  // ----- names from the root -----

  /** The names from the root down to a scope; the root itself, scope 0, has none. */
  function NamesOf(scopes: Scopes, at: nat): seq<string>
    requires ParentsFirst(scopes) && at in scopes
    decreases at
  {
    if at == 0 then []
    else (if scopes[at].parent.Some? then NamesOf(scopes, scopes[at].parent.value) else []) + [scopes[at].name]
  }

  ghost predicate CleanNames(scopes: Scopes)
  {
    forall i <- scopes :: i == 0 || CleanName(scopes[i].name)
  }

  /** Every cached path extends the parent's. */
  ghost predicate Cached(scopes: Scopes)
  {
    && (0 in scopes ==> scopes[0].fullPath == "")
    && (forall i <- scopes :: i != 0 ==> scopes[i].fullPath == PathBelow(scopes, scopes[i].parent, scopes[i].name))
  }

  /** The path of a scope called `name` under `parent`. */
  function PathBelow(scopes: Scopes, parent: Option<nat>, name: string): string
  {
    if parent.Some? && parent.value in scopes then PathOf(scopes[parent.value].fullPath, name) else name
  }

  lemma {:induction false} CachedIsJoin(scopes: Scopes, at: nat)
    requires ParentsFirst(scopes) && Cached(scopes) && CleanNames(scopes) && at in scopes
    ensures Clean(NamesOf(scopes, at)) && scopes[at].fullPath == Join(NamesOf(scopes, at))
    decreases at
  {
    if at != 0 {
      if scopes[at].parent.Some? {
        var p := scopes[at].parent.value;
        CachedIsJoin(scopes, p);
        JoinSnoc(NamesOf(scopes, p), scopes[at].name);
      } else {
        JoinSnoc([], scopes[at].name);
      }
    }
  }

  /** The index holds every module under its cached path, and nothing else. */
  ghost predicate Indexed(scopes: Scopes, modules: set<nat>, index: map<string, nat>)
  {
    && Cached(scopes) && 0 in modules
    && (forall m <- modules :: m in scopes && scopes[m].fullPath in index)
    && (forall k <- index :: index[k] in modules && index[k] in scopes && scopes[index[k]].fullPath == k)
  }

  lemma GrownKeepsPaths(scopes: Scopes, next: nat, at: Option<nat>, name: string, visibility: Visibility)
    requires next !in scopes && (at.Some? ==> at.value in scopes)
    ensures var s := Grown(scopes, next, at, name, visibility);
            && s.Keys == scopes.Keys + {next}
            && (forall i <- scopes :: && s[i].fullPath == scopes[i].fullPath && s[i].parent == scopes[i].parent
                                      && s[i].name == scopes[i].name)
            && s[next].parent == at && s[next].name == name && s[next].fullPath == PathBelow(scopes, at, name)
  {
  }

  lemma GrownCached(scopes: Scopes, next: nat, at: Option<nat>, name: string, visibility: Visibility)
    requires 0 in scopes && next !in scopes && (at.Some? ==> at.value in scopes) && ParentsFirst(scopes)
             && Cached(scopes)
    ensures Cached(Grown(scopes, next, at, name, visibility))
  {
    hide Grown;
    GrownKeepsPaths(scopes, next, at, name, visibility);
  }

  lemma GrownIndexed(scopes: Scopes, next: nat, at: Option<nat>, name: string, visibility: Visibility,
                     modules: set<nat>, index: map<string, nat>)
    requires 0 in scopes && next !in scopes && (at.Some? ==> at.value in scopes) && ParentsFirst(scopes)
    requires Indexed(scopes, modules, index)
    ensures var s := Grown(scopes, next, at, name, visibility);
            && Indexed(s, modules, index) && next in s
            && Indexed(s, modules + {next}, index[s[next].fullPath := next])
  {
    hide Grown, Cached;
    GrownKeepsPaths(scopes, next, at, name, visibility);
    GrownCached(scopes, next, at, name, visibility);
  }

  lemma ReboundIndexed(scopes: Scopes, at: nat, s: Scope, modules: set<nat>, index: map<string, nat>)
    requires at in scopes && Indexed(scopes, modules, index)
    requires s.name == scopes[at].name && s.fullPath == scopes[at].fullPath && s.parent == scopes[at].parent
    ensures Indexed(scopes[at := s], modules, index)
  {
  }

  // ----- walking by name -----

  /** The first of `children` with a name. */
  function ChildNamed(scopes: Scopes, children: seq<nat>, name: string): (r: Option<nat>)
    requires forall c <- children :: c in scopes
    ensures r.Some? ==> r.value in children && scopes[r.value].name == name
    ensures r.None? ==> forall c <- children :: scopes[c].name != name
  {
    if children == [] then None
    else if scopes[children[0]].name == name then Some(children[0])
    else ChildNamed(scopes, children[1..], name)
  }

  /** The scope reached from `from` through children of the given names, the oldest child of a name first. */
  function Walk(scopes: Scopes, from: nat, path: seq<string>): Option<nat>
    requires LinksAgree(scopes) && from in scopes
    decreases |path|
  {
    if path == [] then Some(from)
    else
      var c := ChildNamed(scopes, scopes[from].children, path[0]);
      if c.None? then None else Walk(scopes, c.value, path[1..])
  }

  /** The symbol named last, looked up where the other names lead. */
  function SymbolAt(scopes: Scopes, from: nat, path: seq<string>): Option<(TypeInfo, nat)>
    requires LinksAgree(scopes) && from in scopes && path != []
  {
    var name := path[|path| - 1];
    var at := Walk(scopes, from, path[..|path| - 1]);
    if at.Some? && at.value in scopes && name in scopes[at.value].symbols
    then Some((scopes[at.value].symbols[name], at.value)) else None
  }

  /** A path that starts with `self` is walked from the scope it is used in, any other from the root. */
  function Resolved(scopes: Scopes, path: seq<string>, fromScope: nat): Option<(TypeInfo, nat)>
    requires LinksAgree(scopes) && 0 in scopes
  {
    if path == [] || (path[0] == "self" && (|path| == 1 || fromScope !in scopes)) then None
    else if path[0] == "self" then SymbolAt(scopes, fromScope, path[1..])
    else SymbolAt(scopes, 0, path)
  }

  lemma ChildrenStored(scopes: Scopes, at: nat)
    requires LinksAgree(scopes) && at in scopes
    ensures forall c <- scopes[at].children :: c in scopes
  {
  }

  /** No step is left. */
  lemma SymbolHere(scopes: Scopes, from: nat, path: seq<string>)
    requires LinksAgree(scopes) && from in scopes && |path| == 1
    ensures SymbolAt(scopes, from, path)
         == if path[0] in scopes[from].symbols then Some((scopes[from].symbols[path[0]], from)) else None
  {
  }

  /** One more step of the walk. */
  lemma SymbolBelow(scopes: Scopes, from: nat, path: seq<string>)
    requires LinksAgree(scopes) && from in scopes && |path| > 1
    ensures var c := ChildNamed(scopes, scopes[from].children, path[0]);
            SymbolAt(scopes, from, path) == if c.Some? then SymbolAt(scopes, c.value, path[1..]) else None
  {
    assert path[..|path| - 1][1..] == path[1..][..|path| - 2];
  }

  // ----- which scopes a walk from the root can reach -----

  /** No older sibling has the same name. */
  ghost predicate Eldest(scopes: Scopes, c: nat)
    requires c in scopes
  {
    forall d <- scopes :: d < c && scopes[d].parent == scopes[c].parent ==> scopes[d].name != scopes[c].name
  }

  /** The scope and all scopes around it, up to the root, are the eldest of their names. */
  ghost predicate AllEldest(scopes: Scopes, at: nat)
    requires ParentsFirst(scopes) && at in scopes
    decreases at
  {
    at == 0 || (scopes[at].parent.Some? && Eldest(scopes, at) && AllEldest(scopes, scopes[at].parent.value))
  }

  lemma {:induction false} ChildNamedOldest(scopes: Scopes, children: seq<nat>, name: string, d: nat)
    requires (forall c <- children :: c in scopes) && Ascending(children)
    requires d in children && scopes[d].name == name
    ensures ChildNamed(scopes, children, name).Some? && ChildNamed(scopes, children, name).value <= d
    decreases |children|
  {
    if scopes[children[0]].name != name {
      ChildNamedOldest(scopes, children[1..], name, d);
    }
  }

  /** A step down finds `c` exactly when `c` is the eldest child of its name. */
  lemma StepExactly(scopes: Scopes, next: nat, p: nat, name: string, c: nat)
    requires Tree(scopes, next) && p in scopes
    ensures ChildNamed(scopes, scopes[p].children, name) == Some(c) <==>
            c in scopes && scopes[c].parent == Some(p) && scopes[c].name == name && Eldest(scopes, c)
  {
    var found := ChildNamed(scopes, scopes[p].children, name);
    forall d | d in scopes && scopes[d].parent == Some(p) && scopes[d].name == name
      ensures found.Some? && found.value <= d
    {
      ChildNamedOldest(scopes, scopes[p].children, name, d);
    }
  }

  lemma {:induction false} WalkSnoc(scopes: Scopes, from: nat, path: seq<string>, name: string)
    requires LinksAgree(scopes) && from in scopes
    ensures var p := Walk(scopes, from, path);
            && (p.Some? ==> p.value in scopes)
            && Walk(scopes, from, path + [name])
            == if p.None? then None else ChildNamed(scopes, scopes[p.value].children, name)
    decreases |path|
  {
    if path != [] {
      assert (path + [name])[1..] == path[1..] + [name];
      var c := ChildNamed(scopes, scopes[from].children, path[0]);
      if c.Some? {
        WalkSnoc(scopes, c.value, path[1..], name);
      }
    } else {
      assert path + [name] == [name];
    }
  }

  /** A walk from the root reaches a scope exactly by its own names, and only if those always lead to the eldest. */
  lemma {:induction false} WalkExactly(scopes: Scopes, next: nat, path: seq<string>, at: nat)
    requires Tree(scopes, next) && 0 in scopes
    ensures Walk(scopes, 0, path) == Some(at) <==> at in scopes && AllEldest(scopes, at) && NamesOf(scopes, at) == path
    decreases |path|
  {
    if path != [] {
      var init, name := path[..|path| - 1], path[|path| - 1];
      assert path == init + [name];
      WalkSnoc(scopes, 0, init, name);
      var p := Walk(scopes, 0, init);
      if p.Some? {
        WalkExactly(scopes, next, init, p.value);
        StepExactly(scopes, next, p.value, name, at);
      }
      if at in scopes && AllEldest(scopes, at) && NamesOf(scopes, at) == path {
        var q := scopes[at].parent.value;
        assert NamesOf(scopes, q) == init;
        WalkExactly(scopes, next, init, q);
        StepExactly(scopes, next, q, name, at);
      }
    }
  }

  // ----- the index against the walk -----

  function Indexing(index: map<string, nat>, path: seq<string>): Option<nat>
  {
    if Join(path) in index then Some(index[Join(path)]) else None
  }

  /** The module a walk from the root reaches. */
  function Walked(scopes: Scopes, modules: set<nat>, path: seq<string>): Option<nat>
    requires LinksAgree(scopes) && 0 in scopes
  {
    var r := Walk(scopes, 0, path);
    if r.Some? && r.value in modules then r else None
  }

  /** A leading `self` turns the resolver away from the root. */
  predicate FromRoot(path: seq<string>)
  {
    path == [] || path[0] != "self"
  }

  /** The scope in which the resolver looks up the last name of a path, given the names before it. */
  function Qualified(scopes: Scopes, path: seq<string>, fromScope: nat): Option<nat>
    requires LinksAgree(scopes) && 0 in scopes
  {
    if FromRoot(path) then Walk(scopes, 0, path)
    else if fromScope in scopes then Walk(scopes, fromScope, path[1..])
    else None
  }

  /** The symbol of a name in a scope, if both are there. */
  function SymbolIn(scopes: Scopes, at: Option<nat>, name: string): Option<(TypeInfo, nat)>
  {
    if at.Some? && at.value in scopes && name in scopes[at.value].symbols
    then Some((scopes[at.value].symbols[name], at.value)) else None
  }

  lemma SymbolBehind(scopes: Scopes, from: nat, path: seq<string>, name: string)
    requires LinksAgree(scopes) && from in scopes
    ensures SymbolAt(scopes, from, path + [name]) == SymbolIn(scopes, Walk(scopes, from, path), name)
  {
    hide Walk, LinksAgree;
    assert (path + [name])[..|path|] == path;
  }

  lemma ResolvedExactly(scopes: Scopes, path: seq<string>, name: string, fromScope: nat)
    requires LinksAgree(scopes) && 0 in scopes && (path == [] ==> name != "self")
    ensures Resolved(scopes, path + [name], fromScope)
         == SymbolIn(scopes, Qualified(scopes, path, fromScope), name)
  {
    hide SymbolAt, SymbolIn, Walk, LinksAgree;
    SymbolBehind(scopes, 0, path, name);
    if path != [] {
      assert (path + [name])[1..] == path[1..] + [name];
      if fromScope in scopes {
        SymbolBehind(scopes, fromScope, path[1..], name);
      }
    }
    NowhereIsNothing(scopes, name);
  }

  lemma NowhereIsNothing(scopes: Scopes, name: string)
    ensures SymbolIn(scopes, None, name) == None
  {
  }

  /** The index and the resolver find the same module under every path that the resolver follows from the root. */
  ghost predicate Agrees(scopes: Scopes, modules: set<nat>, index: map<string, nat>)
    requires LinksAgree(scopes) && 0 in scopes
  {
    forall path, fromScope | Clean(path) && FromRoot(path) ::
      Indexing(index, path) == ModuleAt(scopes, modules, path, fromScope)
  }

  /** The module in which the resolver looks up the last name. */
  function ModuleAt(scopes: Scopes, modules: set<nat>, path: seq<string>, fromScope: nat): Option<nat>
    requires LinksAgree(scopes) && 0 in scopes
  {
    var r := Qualified(scopes, path, fromScope);
    if r.Some? && r.value in modules then r else None
  }

  /**
    The index answers every such path as the resolver does exactly when every module it holds under one is the eldest
    of its name all the way up.
   */
  lemma AgreesExactly(scopes: Scopes, next: nat, modules: set<nat>, index: map<string, nat>)
    requires Tree(scopes, next) && 0 in scopes
    requires CleanNames(scopes) && Indexed(scopes, modules, index)
    ensures Agrees(scopes, modules, index) <==>
            forall k <- index :: FromRoot(NamesOf(scopes, index[k])) ==> AllEldest(scopes, index[k])
  {
    if Agrees(scopes, modules, index) {
      forall k | k in index && FromRoot(NamesOf(scopes, index[k]))
        ensures AllEldest(scopes, index[k])
      {
        var path := NamesOf(scopes, index[k]);
        CachedIsJoin(scopes, index[k]);
        assert Indexing(index, path) == ModuleAt(scopes, modules, path, 0);
        WalkExactly(scopes, next, path, index[k]);
      }
    }
    if forall k <- index :: FromRoot(NamesOf(scopes, index[k])) ==> AllEldest(scopes, index[k]) {
      forall path, fromScope: nat | Clean(path) && FromRoot(path)
        ensures Indexing(index, path) == ModuleAt(scopes, modules, path, fromScope)
      {
        if Join(path) in index {
          CachedIsJoin(scopes, index[Join(path)]);
          JoinInjective(path, NamesOf(scopes, index[Join(path)]));
        }
        AgreesOn(scopes, next, modules, index, path);
      }
    }
  }

  /** A module called `self` stands in the index, and the resolver never goes there by that name. */
  lemma SelfIsNotSeen(scopes: Scopes, modules: set<nat>, index: map<string, nat>, fromScope: nat)
    requires LinksAgree(scopes) && 0 in scopes && fromScope in scopes && "self" in index
    ensures Clean(["self"]) && Indexing(index, ["self"]) == Some(index["self"])
    ensures Qualified(scopes, ["self"], fromScope) == Some(fromScope)
  {
    assert ["self"][1..] == [];
  }

  lemma AgreesOn(scopes: Scopes, next: nat, modules: set<nat>, index: map<string, nat>, path: seq<string>)
    requires Tree(scopes, next) && 0 in scopes
    requires CleanNames(scopes) && Indexed(scopes, modules, index) && Clean(path)
    requires Join(path) in index ==> AllEldest(scopes, index[Join(path)])
    ensures Indexing(index, path) == Walked(scopes, modules, path)
  {
    var key := Join(path);
    if key in index {
      CachedIsJoin(scopes, index[key]);
      JoinInjective(path, NamesOf(scopes, index[key]));
      WalkExactly(scopes, next, path, index[key]);
    } else if Walked(scopes, modules, path).Some? {
      var at := Walked(scopes, modules, path).value;
      WalkExactly(scopes, next, path, at);
      CachedIsJoin(scopes, at);
      assert false;
    }
  }

  /** Siblings have different names and there is one root. */
  ghost predicate DistinctSiblings(scopes: Scopes)
  {
    && (forall i <- scopes :: i != 0 ==> scopes[i].parent.Some?)
    && (forall c <- scopes, d <- scopes :: c != d && scopes[c].parent == scopes[d].parent ==>
          scopes[c].name != scopes[d].name)
  }

  lemma DistinctAgrees(scopes: Scopes, next: nat, modules: set<nat>, index: map<string, nat>)
    requires Tree(scopes, next) && 0 in scopes
    requires CleanNames(scopes) && Indexed(scopes, modules, index) && DistinctSiblings(scopes)
    ensures Agrees(scopes, modules, index)
    ensures forall path | Clean(path) :: Indexing(index, path) == Walked(scopes, modules, path)
  {
    forall k | k in index
      ensures AllEldest(scopes, index[k])
    {
      DistinctEldest(scopes, index[k]);
    }
    AgreesExactly(scopes, next, modules, index);
    forall path | Clean(path)
      ensures Indexing(index, path) == Walked(scopes, modules, path)
    {
      AgreesOn(scopes, next, modules, index, path);
    }
  }

  lemma {:induction false} DistinctEldest(scopes: Scopes, at: nat)
    requires ParentsFirst(scopes) && at in scopes && DistinctSiblings(scopes)
    ensures AllEldest(scopes, at)
    decreases at
  {
    if at != 0 {
      DistinctEldest(scopes, scopes[at].parent.value);
    }
  }

  const ROOT := Scope(0, "root", "", Public, None, [], map[], map[])
  const ONE := Grown(map[0 := ROOT], 1, Some(0), "a", Public)
  const TWO := Grown(ONE, 2, Some(0), "a", Public)

  lemma TwinsTree()
    ensures ParentsFirst(ONE) && Tree(TWO, 3) && TWO[0].children == [1, 2] && TWO[1].name == "a"
  {
    hide Grown;
    GrownIsTree(map[0 := ROOT], 1, Some(0), "a", Public);
    GrownIsTree(ONE, 2, Some(0), "a", Public);
    TwinsLinks();
  }

  lemma TwinsLinks()
    ensures ONE.Keys == {0, 1} && TWO.Keys == {0, 1, 2}
    ensures TWO[0].children == [1, 2] && TWO[1].name == "a" && ONE[1].fullPath == "a" && TWO[2].fullPath == "a"
  {
  }

  lemma TwinsIndexed()
    ensures Indexed(TWO, {0, 1, 2}, map["" := 0, "a" := 2])
  {
    hide Grown, ParentsFirst, Indexed, Tree;
    TwinsTree();
    TwinsLinks();
    RootIndexed();
    var before, between := map["" := 0], map["" := 0, "a" := 1];
    GrownIndexed(map[0 := ROOT], 1, Some(0), "a", Public, {0}, before);
    assert {0} + {1} == {0, 1} && before["a" := 1] == between;
    GrownIndexed(ONE, 2, Some(0), "a", Public, {0, 1}, between);
    assert {0, 1} + {2} == {0, 1, 2} && between["a" := 2] == map["" := 0, "a" := 2];
  }

  lemma RootIndexed()
    ensures ParentsFirst(map[0 := ROOT]) && Indexed(map[0 := ROOT], {0}, map["" := 0])
  {
  }

  /** Two sibling modules of one name: the walk stays with the older one, the index moves to the younger. */
  lemma TwinsDisagree()
    ensures Tree(TWO, 3) && Indexed(TWO, {0, 1, 2}, map["" := 0, "a" := 2])
    ensures Indexing(map["" := 0, "a" := 2], ["a"]) == Some(2) && Walk(TWO, 0, ["a"]) == Some(1)
  {
    hide Grown, Indexed;
    TwinsTree();
    TwinsIndexed();
    assert ["a"][1..] == [];
  }
}
