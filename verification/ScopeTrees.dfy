/** The tree of scopes, kept by id. */
module ScopeTrees {
  import opened Decoded
  import opened Ordered
  import opened Types
  import opened Numerals

  datatype Visibility = Public | Private

  datatype Scope = Scope(
    id: nat,
    name: string,
    fullPath: string,
    visibility: Visibility,
    parent: Option<nat>,
    children: seq<nat>,
    symbols: map<string, TypeInfo>,
    variables: map<string, TypeInfo>)

  type Scopes = map<nat, Scope>

  /** What one scope contributes to the visible environment. */
  datatype Bindings = Bindings(variables: map<string, TypeInfo>, types: set<string>)

  type Env = seq<Bindings>

  // ----- the shape of every reachable tree -----

  ghost predicate Dense(scopes: Scopes, next: nat)
  {
    forall i: nat :: i in scopes <==> i < next
  }

  ghost predicate OwnIds(scopes: Scopes)
  {
    forall i <- scopes :: scopes[i].id == i
  }

  ghost predicate ParentsFirst(scopes: Scopes)
  {
    forall i <- scopes :: scopes[i].parent.Some? ==> scopes[i].parent.value < i && scopes[i].parent.value in scopes
  }

  ghost predicate LinksAgree(scopes: Scopes)
  {
    forall p <- scopes, c: nat :: c in scopes[p].children <==> c in scopes && scopes[c].parent == Some(p)
  }

  ghost predicate NoDuplicateChildren(scopes: Scopes)
  {
    forall p <- scopes :: Ascending(scopes[p].children)
  }

  ghost predicate Tree(scopes: Scopes, next: nat)
  {
    && Dense(scopes, next) && OwnIds(scopes) && ParentsFirst(scopes)
    && LinksAgree(scopes) && NoDuplicateChildren(scopes)
  }

  // ----- lookups, by recursion up the parent chain -----

  /** Ids from a scope up to its root. */
  function ChainOf(scopes: Scopes, at: Option<nat>): seq<nat>
    requires ParentsFirst(scopes) && (at.Some? ==> at.value in scopes)
    decreases if at.Some? then at.value + 1 else 0
  {
    if at.None? then [] else [at.value] + ChainOf(scopes, scopes[at.value].parent)
  }

  function BindingsOf(s: Scope): Bindings
  {
    Bindings(s.variables, s.symbols.Keys)
  }

  /** The scopes visible from `at` as a stack of bindings, innermost first. */
  function EnvOf(scopes: Scopes, at: Option<nat>): (env: Env)
    requires ParentsFirst(scopes) && (at.Some? ==> at.value in scopes)
    decreases if at.Some? then at.value + 1 else 0
  {
    if at.None? then [] else [BindingsOf(scopes[at.value])] + EnvOf(scopes, scopes[at.value].parent)
  }

  function VariableFrom(scopes: Scopes, at: nat, name: string): Option<TypeInfo>
    requires ParentsFirst(scopes) && at in scopes
    decreases at
  {
    if name in scopes[at].variables then Some(scopes[at].variables[name])
    else if scopes[at].parent.Some? then VariableFrom(scopes, scopes[at].parent.value, name)
    else Option.None
  }

  /** Lookup in a stack of bindings: the innermost one wins. */
  function Lookup(env: Env, name: string): Option<TypeInfo>
  {
    if env == [] then Option.None
    else if name in env[0].variables then Some(env[0].variables[name])
    else Lookup(env[1..], name)
  }

  /** The innermost scope that declares the name. */
  ghost predicate Innermost(env: Env, name: string, i: nat)
  {
    i < |env| && name in env[i].variables && forall j :: 0 <= j < i ==> name !in env[j].variables
  }

  lemma {:induction false} LookupExactly(env: Env, name: string, t: TypeInfo)
    ensures Lookup(env, name) == Some(t) <==> exists i: nat :: Innermost(env, name, i) && env[i].variables[name] == t
    ensures Lookup(env, name) == Option.None <==> forall i :: 0 <= i < |env| ==> name !in env[i].variables
  {
    if env != [] {
      LookupExactly(env[1..], name, t);
      if name in env[0].variables {
        assert Innermost(env, name, 0);
      } else {
        if i: nat :| Innermost(env[1..], name, i) && env[1..][i].variables[name] == t {
          assert Innermost(env, name, i + 1) && env[i + 1].variables[name] == t;
        }
        if i: nat :| Innermost(env, name, i) && env[i].variables[name] == t {
          assert forall j :: 0 <= j < i - 1 ==> env[1..][j] == env[j + 1];
          assert Innermost(env[1..], name, i - 1);
        }
        assert forall j :: 0 <= j < |env| - 1 ==> env[1..][j] == env[j + 1];
        assert forall j :: 0 < j < |env| ==> env[j] == env[1..][j - 1];
      }
    }
  }

  lemma {:induction false} VariableFromIsLookup(scopes: Scopes, at: nat, name: string)
    requires ParentsFirst(scopes) && at in scopes
    ensures VariableFrom(scopes, at, name) == Lookup(EnvOf(scopes, Some(at)), name)
    decreases at
  {
    var env := EnvOf(scopes, Some(at));
    assert env[1..] == EnvOf(scopes, scopes[at].parent);
    if scopes[at].parent.Some? {
      VariableFromIsLookup(scopes, scopes[at].parent.value, name);
    }
  }

  /** Whether some scope from `at` up names a type. */
  predicate TypeFrom(scopes: Scopes, at: nat, name: string)
    requires ParentsFirst(scopes) && at in scopes
    decreases at
  {
    name in scopes[at].symbols ||
    (scopes[at].parent.Some? && TypeFrom(scopes, scopes[at].parent.value, name))
  }

  /** Whether some binding of the stack names a type. */
  predicate NamedIn(env: Env, name: string)
  {
    env != [] && (name in env[0].types || NamedIn(env[1..], name))
  }

  lemma {:induction false} NamedExactly(env: Env, name: string)
    ensures NamedIn(env, name) <==> exists i :: 0 <= i < |env| && name in env[i].types
  {
    if env != [] {
      NamedExactly(env[1..], name);
      assert forall j :: 0 < j < |env| ==> env[j] == env[1..][j - 1];
      assert forall j :: 0 <= j < |env| - 1 ==> env[1..][j] == env[j + 1];
    }
  }

  lemma {:induction false} TypeFromIsNamedIn(scopes: Scopes, at: nat, name: string)
    requires ParentsFirst(scopes) && at in scopes
    ensures TypeFrom(scopes, at, name) <==> NamedIn(EnvOf(scopes, Some(at)), name)
    decreases at
  {
    var env := EnvOf(scopes, Some(at));
    assert env[1..] == EnvOf(scopes, scopes[at].parent);
    if scopes[at].parent.Some? {
      TypeFromIsNamedIn(scopes, scopes[at].parent.value, name);
    }
  }

  function LowerCase(name: string): string
  {
    if name == "" then ""
    else [if 'A' <= name[0] <= 'Z' then name[0] - 'A' + 'a' else name[0]] + LowerCase(name[1..])
  }

  /** A type name is tried as it stands and then in lower case. */
  predicate KnownName(env: Env, name: string)
  {
    NamedIn(env, name) || NamedIn(env, LowerCase(name))
  }

  predicate KnownType(env: Env, ty: TypeInfo)
  {
    match ty.kind
    case Array(element, _) => KnownType(env, element)
    case Custom(name) => KnownName(env, name)
    case Generic(name) => KnownName(env, name) && forall p <- ty.typeParams :: KnownName(env, p)
    case _ => true
  }

  lemma {:induction false} LowerCaseExactly(name: string, i: nat)
    requires i < |name|
    ensures |LowerCase(name)| == |name|
    ensures LowerCase(name)[i] ==
            if 'A' <= name[i] <= 'Z' then "abcdefghijklmnopqrstuvwxyz"[name[i] as int - 'A' as int] else name[i]
  {
    if |name| > 1 {
      LowerCaseExactly(name[1..], if i > 0 then i - 1 else 0);
    }
  }

  /** The type of arrays of arrays of these sizes. */
  function ArrayOf(sizes: seq<nat>, ty: TypeInfo): TypeInfo
  {
    if sizes == [] then ty else TypeInfo(Array(ArrayOf(sizes[1..], ty), sizes[0]), [])
  }

  /** A name below any number of array types has to be declared, and so has every parameter of a generic one. */
  lemma {:induction false} KnownBelow(env: Env, sizes: seq<nat>, name: string, params: seq<string>, number: NumberType)
    ensures KnownType(env, ArrayOf(sizes, TypeInfo(Custom(name), params))) <==> KnownName(env, name)
    ensures KnownType(env, ArrayOf(sizes, TypeInfo(Generic(name), params))) <==>
            forall n <- [name] + params :: KnownName(env, n)
    ensures KnownType(env, ArrayOf(sizes, TypeInfo(Number(number), params)))
  {
    hide KnownName;
    if sizes != [] {
      KnownBelow(env, sizes[1..], name, params, number);
    } else {
      assert ([name] + params)[0] == name;
    }
  }

  /** The view from `at` depends only on the bindings and parents of the scopes on its chain. */
  lemma {:induction false} SameView(a: Scopes, b: Scopes, at: Option<nat>)
    requires ParentsFirst(a) && ParentsFirst(b)
    requires at.Some? ==> at.value in a && at.value in b
    requires forall i :: i in a && at.Some? && i <= at.value ==>
                           i in b && a[i].parent == b[i].parent && BindingsOf(a[i]) == BindingsOf(b[i])
    ensures ChainOf(a, at) == ChainOf(b, at) && EnvOf(a, at) == EnvOf(b, at)
    decreases if at.Some? then at.value + 1 else 0
  {
    if at.Some? {
      SameView(a, b, a[at.value].parent);
    }
  }

  lemma NoView(scopes: Scopes)
    requires ParentsFirst(scopes)
    ensures ChainOf(scopes, Option.None) == [] && EnvOf(scopes, Option.None) == []
  {
  }

  lemma OwnId(scopes: Scopes, at: nat)
    requires OwnIds(scopes) && at in scopes
    ensures scopes[at].id == at
  {
  }

  /** The name of a scope pushed without one. */
  function Anonymous(id: nat): string
  {
    "anonymous_" + Decimal(id)
  }

  /** Scopes pushed without a name never share one, and their names hold no separator. */
  lemma AnonymousApart(a: nat, b: nat)
    ensures Anonymous(a) == Anonymous(b) <==> a == b
    ensures Anonymous(a) != "" && ':' !in Anonymous(a)
  {
    DecimalDigits(a);
    if Anonymous(a) == Anonymous(b) {
      assert Decimal(a) == Anonymous(a)[10..] && Decimal(b) == Anonymous(b)[10..];
      DecimalInjective(a, b);
    }
  }

  function PathOf(parentPath: string, name: string): string
  {
    if parentPath == "" then name else parentPath + "::" + name
  }

  /** The tree with a new scope `next` under `at`. */
  function Grown(scopes: Scopes, next: nat, at: Option<nat>, name: string, visibility: Visibility): Scopes
    requires at.Some? ==> at.value in scopes
  {
    var path := if at.Some? then PathOf(scopes[at.value].fullPath, name) else name;
    var created := Scope(next, name, path, visibility, at, [], map[], map[]);
    (if at.Some? then scopes[at.value := scopes[at.value].(children := scopes[at.value].children + [next])] else scopes)
    [next := created]
  }

  lemma GrownIsTree(scopes: Scopes, next: nat, at: Option<nat>, name: string, visibility: Visibility)
    requires Tree(scopes, next) && (at.Some? ==> at.value in scopes)
    ensures Tree(Grown(scopes, next, at, name, visibility), next + 1)
  {
    hide LinksAgree, NoDuplicateChildren;
    GrownLinks(scopes, next, at, name, visibility);
    GrownAscending(scopes, next, at, name, visibility);
  }

  lemma GrownLinks(scopes: Scopes, next: nat, at: Option<nat>, name: string, visibility: Visibility)
    requires Tree(scopes, next) && (at.Some? ==> at.value in scopes)
    ensures LinksAgree(Grown(scopes, next, at, name, visibility))
  {
    hide NoDuplicateChildren;
    var s := Grown(scopes, next, at, name, visibility);
    forall p, c: nat | p in s
      ensures c in s[p].children <==> c in s && s[c].parent == Some(p)
    {
      if p == next {
        assert s[p].children == [];
      } else {
        assert c in scopes[p].children <==> c in scopes && scopes[c].parent == Some(p);
        assert c in s[p].children <==> c in scopes[p].children || (Some(p) == at && c == next);
      }
    }
  }

  lemma GrownAscending(scopes: Scopes, next: nat, at: Option<nat>, name: string, visibility: Visibility)
    requires Tree(scopes, next) && (at.Some? ==> at.value in scopes)
    ensures NoDuplicateChildren(Grown(scopes, next, at, name, visibility))
  {
    if at.Some? {
      var children := scopes[at.value].children;
      forall i | 0 <= i < |children|
        ensures children[i] < next
      {
        assert children[i] in scopes[at.value].children;
        assert children[i] in scopes;
      }
    }
  }

  lemma GrownKeys(scopes: Scopes, next: nat, at: Option<nat>, name: string, visibility: Visibility)
    requires at.Some? ==> at.value in scopes
    ensures Grown(scopes, next, at, name, visibility).Keys == scopes.Keys + {next}
  {
  }

  /** The view from a new scope: an empty frame on top of the old view. */
  lemma GrownView(scopes: Scopes, next: nat, at: Option<nat>, name: string, visibility: Visibility)
    requires Tree(scopes, next) && (at.Some? ==> at.value in scopes)
    requires Tree(Grown(scopes, next, at, name, visibility), next + 1)
    ensures var s := Grown(scopes, next, at, name, visibility);
            ChainOf(s, Some(next)) == [next] + ChainOf(scopes, at) &&
            EnvOf(s, Some(next)) == [Bindings(map[], {})] + EnvOf(scopes, at)
  {
    hide LinksAgree, NoDuplicateChildren, OwnIds;
    var s := Grown(scopes, next, at, name, visibility);
    SameView(scopes, s, at);
    assert s[next].parent == at && BindingsOf(s[next]) == Bindings(map[], {});
  }

  lemma ReboundTree(scopes: Scopes, next: nat, at: nat, s: Scope)
    requires Tree(scopes, next) && at in scopes
    requires s.id == at && s.parent == scopes[at].parent && s.children == scopes[at].children
    ensures Tree(scopes[at := s], next)
  {
    var t := scopes[at := s];
    assert t.Keys == scopes.Keys;
    forall p, c: nat | p in t
      ensures c in t[p].children <==> c in t && t[c].parent == Some(p)
    {
      assert c in scopes[p].children <==> c in scopes && scopes[c].parent == Some(p);
    }
  }

  /** Changing the bindings of one scope keeps the tree and shows in the view from that scope only at the top. */
  lemma Rebound(scopes: Scopes, next: nat, at: nat, s: Scope)
    requires Tree(scopes, next) && at in scopes
    requires s.id == at && s.parent == scopes[at].parent && s.children == scopes[at].children
    ensures Tree(scopes[at := s], next)
    ensures ChainOf(scopes[at := s], Some(at)) == ChainOf(scopes, Some(at))
    ensures EnvOf(scopes, Some(at)) == [BindingsOf(scopes[at])] + EnvOf(scopes, s.parent)
    ensures EnvOf(scopes[at := s], Some(at)) == [BindingsOf(s)] + EnvOf(scopes, s.parent)
  {
    hide Dense, OwnIds, LinksAgree, NoDuplicateChildren;
    ReboundTree(scopes, next, at, s);
    SameView(scopes, scopes[at := s], s.parent);
  }

  // ----- visibility is the defining subtree -----

  /** `s` can be reached from `root` through child links. */
  ghost predicate InSubtree(scopes: Scopes, root: nat, s: nat, path: seq<nat>)
  {
    && path != [] && path[0] == root && path[|path| - 1] == s
    && (forall i :: 0 <= i < |path| ==> path[i] in scopes)
    && (forall i :: 0 < i < |path| ==> path[i] in scopes[path[i - 1]].children)
  }

  /** The parent chain of a scope meets exactly the scopes whose subtree, by child links, contains it. */
  lemma ChainIsSubtree(scopes: Scopes, next: nat, root: nat, s: nat)
    requires Tree(scopes, next) && root in scopes && s in scopes
    ensures root in ChainOf(scopes, Some(s)) <==> exists path :: InSubtree(scopes, root, s, path)
  {
    if root in ChainOf(scopes, Some(s)) {
      var path := PathDown(scopes, next, root, s);
    }
    if exists path :: InSubtree(scopes, root, s, path) {
      var path :| InSubtree(scopes, root, s, path);
      ClimbUp(scopes, next, root, s, path);
    }
  }

  lemma {:induction false} PathDown(scopes: Scopes, next: nat, root: nat, s: nat) returns (path: seq<nat>)
    requires Tree(scopes, next) && root in scopes && s in scopes && root in ChainOf(scopes, Some(s))
    ensures InSubtree(scopes, root, s, path)
    decreases s
  {
    if s == root {
      path := [root];
    } else {
      var up := PathDown(scopes, next, root, scopes[s].parent.value);
      path := up + [s];
    }
  }

  lemma {:induction false} ClimbUp(scopes: Scopes, next: nat, root: nat, s: nat, path: seq<nat>)
    requires Tree(scopes, next) && InSubtree(scopes, root, s, path)
    ensures root in ChainOf(scopes, Some(s))
    decreases |path|
  {
    if |path| > 1 {
      var p := path[|path| - 2];
      assert s in scopes[p].children;
      assert InSubtree(scopes, root, p, path[..|path| - 1]);
      ClimbUp(scopes, next, root, p, path[..|path| - 1]);
    }
  }
}
