/** The scope tree with its cursor and its index of modules. */
module SymbolTables {
  import opened Decoded
  import opened Types
  import opened ScopeTrees
  import opened ModulePaths

  class SymbolTable {
    var scopes: Scopes
    var modScopes: map<string, nat>
    var current: Option<nat>
    var nextScopeId: nat

    /** The scopes entered as modules, and the root. */
    ghost var modules: set<nat>

    ghost predicate Valid()
      reads this
    {
      && Tree(scopes, nextScopeId) && nextScopeId > 0
      && (current.Some? ==> current.value in scopes)
      && Indexed(scopes, modules, modScopes)
    }

    /** Ids of the scopes that enclose the cursor, innermost first. */
    ghost function Chain(): seq<nat>
      requires Valid()
      reads this
    {
      ChainOf(scopes, current)
    }

    ghost function Visible(): Env
      requires Valid()
      reads this
    {
      EnvOf(scopes, current)
    }

    constructor (builtins: map<string, TypeInfo>)
      ensures Valid() && Chain() == [0] && Visible() == [Bindings(map[], builtins.Keys)] && nextScopeId == 1
    {
      scopes := map[0 := Scope(0, "root", "", Public, Option.None, [], builtins, map[])];
      modScopes := map["" := 0];
      current := Some(0);
      nextScopeId := 1;
      modules := {0};
    }

    method PushScopeWithName(name: string, visibility: Visibility) returns (id: nat)
      requires Valid()
      modifies this
      ensures Valid() && id == old(nextScopeId) && nextScopeId == id + 1
      ensures modScopes == old(modScopes) && modules == old(modules)
      ensures scopes == Grown(old(scopes), id, old(current), name, visibility)
      ensures Chain() == [id] + old(Chain())
      ensures Visible() == [Bindings(map[], {})] + old(Visible())
    {
      hide OwnIds, ParentsFirst, LinksAgree, NoDuplicateChildren, Grown, ChainOf, EnvOf, Indexed;
      id := nextScopeId;
      GrownIndexed(scopes, id, current, name, visibility, modules, modScopes);
      GrownIsTree(scopes, id, current, name, visibility);
      GrownView(scopes, id, current, name, visibility);
      GrownKeys(scopes, id, current, name, visibility);
      scopes := Grown(scopes, id, current, name, visibility);
      current := Some(id);
      nextScopeId := nextScopeId + 1;
    }

    method PushScope() returns (id: nat)
      requires Valid()
      modifies this
      ensures Valid() && id == old(nextScopeId) && nextScopeId == id + 1
      ensures modScopes == old(modScopes) && modules == old(modules)
      ensures Chain() == [id] + old(Chain())
      ensures Visible() == [Bindings(map[], {})] + old(Visible())
      ensures scopes == Grown(old(scopes), id, old(current), Anonymous(id), Private)
    {
      id := PushScopeWithName(Anonymous(nextScopeId), Private);
    }

    method EnterModule(name: string, visibility: Visibility) returns (id: nat)
      requires Valid()
      modifies this
      ensures Valid() && id == old(nextScopeId) && nextScopeId == id + 1 && modules == old(modules) + {id}
      ensures scopes == Grown(old(scopes), id, old(current), name, visibility)
      ensures modScopes == old(modScopes)[scopes[id].fullPath := id]
      ensures Chain() == [id] + old(Chain())
      ensures Visible() == [Bindings(map[], {})] + old(Visible())
    {
      hide OwnIds, ParentsFirst, LinksAgree, NoDuplicateChildren, Grown, ChainOf, EnvOf, Indexed;
      GrownIndexed(scopes, nextScopeId, current, name, visibility, modules, modScopes);
      id := PushScopeWithName(name, visibility);
      modScopes := modScopes[scopes[id].fullPath := id];
      modules := modules + {id};
    }

    method FindModuleScope(path: seq<string>) returns (id: Option<nat>)
      requires Valid()
      ensures id == Indexing(modScopes, path)
      ensures CleanNames(scopes) && DistinctSiblings(scopes) && Clean(path) ==> id == Walked(scopes, modules, path)
    {
      var key := Join(path);
      id := if key in modScopes then Some(modScopes[key]) else None;
      if CleanNames(scopes) && DistinctSiblings(scopes) && Clean(path) {
        DistinctAgrees(scopes, nextScopeId, modules, modScopes);
      }
    }

    /** The symbol a qualified path names and the scope it stands in. */
    method ResolveQualifiedName(path: seq<string>, fromScope: nat) returns (r: Option<(TypeInfo, nat)>)
      requires Valid()
      ensures r == Resolved(scopes, path, fromScope)
    {
      hide OwnIds, ParentsFirst, NoDuplicateChildren, Indexed, Walk, SymbolAt, LinksAgree;
      if path == [] {
        return None;
      }
      var at, segments := 0, path;
      if path[0] == "self" {
        if fromScope !in scopes {
          return None;
        }
        at, segments := fromScope, path[1..];
      }
      ghost var start := at;
      assert segments[0..] == segments;
      for i := 0 to |segments|
        invariant at in scopes
        invariant segments != [] ==>
                    i < |segments| && SymbolAt(scopes, at, segments[i..]) == SymbolAt(scopes, start, segments)
      {
        if i == |segments| - 1 {
          SymbolHere(scopes, at, segments[i..]);
          if segments[i] in scopes[at].symbols {
            return Some((scopes[at].symbols[segments[i]], at));
          }
          return None;
        }
        SymbolBelow(scopes, at, segments[i..]);
        ChildrenStored(scopes, at);
        assert segments[i..][1..] == segments[i + 1..];
        var child := ChildNamed(scopes, scopes[at].children, segments[i]);
        if child.None? {
          return None;
        }
        at := child.value;
      }
      r := None;
    }

    method PopScope()
      requires Valid()
      modifies this`current
      ensures Valid()
      ensures Chain() == if old(Chain()) == [] then [] else old(Chain())[1..]
      ensures Visible() == if old(Visible()) == [] then [] else old(Visible())[1..]
    {
      if current.Some? {
        current := scopes[current.value].parent;
      }
    }

    method PushVariableToScope(name: string, ty: TypeInfo) returns (ok: bool)
      requires Valid()
      modifies this`scopes
      ensures Valid() && Chain() == old(Chain())
      ensures ok <==> old(Visible()) != [] && name !in old(Visible())[0].variables
      ensures Visible() == Declared(old(Visible()), name, ty)
      ensures !ok ==> scopes == old(scopes)
    {
      hide Dense, OwnIds, LinksAgree, NoDuplicateChildren, ChainOf, EnvOf, Indexed;
      NoView(scopes);
      if current.None? {
        return false;
      }
      var s := scopes[current.value];
      var s' := s.(variables := s.variables[name := ty]);
      OwnId(scopes, current.value);
      Rebound(scopes, nextScopeId, current.value, s');
      ReboundIndexed(scopes, current.value, s', modules, modScopes);
      if name in s.variables {
        return false;
      }
      scopes := scopes[current.value := s'];
      ok := true;
    }

    method RegisterType(name: string, ty: TypeInfo) returns (ok: bool)
      requires Valid()
      modifies this`scopes
      ensures Valid() && Chain() == old(Chain())
      ensures ok <==> old(Visible()) != [] && name !in old(Visible())[0].types
      ensures Visible() == Named(old(Visible()), name)
      ensures ok ==> current.Some? && current.value in old(scopes) &&
                     var s := old(scopes)[current.value];
                     scopes == old(scopes)[current.value := s.(symbols := s.symbols[name := ty])]
      ensures !ok ==> scopes == old(scopes)
    {
      hide Dense, OwnIds, LinksAgree, NoDuplicateChildren, ChainOf, EnvOf, Indexed;
      NoView(scopes);
      if current.None? {
        return false;
      }
      var s := scopes[current.value];
      var s' := s.(symbols := s.symbols[name := ty]);
      assert s'.symbols.Keys == s.symbols.Keys + {name};
      OwnId(scopes, current.value);
      Rebound(scopes, nextScopeId, current.value, s');
      ReboundIndexed(scopes, current.value, s', modules, modScopes);
      if name in s.symbols {
        return false;
      }
      scopes := scopes[current.value := s'];
      ok := true;
    }

    method LookupVariable(name: string) returns (ty: Option<TypeInfo>)
      requires Valid()
      ensures ty == Lookup(Visible(), name)
    {
      if current.None? {
        return Option.None;
      }
      ty := VariableFrom(scopes, current.value, name);
      VariableFromIsLookup(scopes, current.value, name);
    }

    /** Whether a type of this name is visible. */
    method LookupType(name: string) returns (known: bool)
      requires Valid()
      ensures known <==> KnownName(Visible(), name)
    {
      if current.None? {
        return false;
      }
      known := TypeFrom(scopes, current.value, name);
      TypeFromIsNamedIn(scopes, current.value, name);
      TypeFromIsNamedIn(scopes, current.value, LowerCase(name));
      if !known {
        known := TypeFrom(scopes, current.value, LowerCase(name));
      }
    }

    /** A private item is visible from its own scope and every scope inside it. */
    method CheckVisibility(visibility: Visibility, definitionScope: nat, accessScope: nat) returns (visible: bool)
      requires Valid()
      ensures visible <==> visibility.Public? || accessScope == definitionScope ||
                           (accessScope in scopes && definitionScope in ChainOf(scopes, Some(accessScope)))
    {
      match visibility
      case Public => visible := true;
      case Private => visible := IsScopeDescendantOf(accessScope, definitionScope);
    }

    method IsScopeDescendantOf(accessScope: nat, targetScope: nat) returns (r: bool)
      requires Valid()
      ensures r <==> accessScope == targetScope ||
                     (accessScope in scopes && targetScope in ChainOf(scopes, Some(accessScope)))
    {
      var current := accessScope;
      while true
        invariant accessScope in scopes ==> current in scopes
        invariant current == accessScope || accessScope in scopes
        invariant accessScope in scopes && current in scopes ==>
                    (targetScope in ChainOf(scopes, Some(accessScope))
                     <==> targetScope in ChainOf(scopes, Some(current)))
        decreases current
      {
        if current == targetScope {
          return true;
        }
        if current in scopes {
          var parent := scopes[current].parent;
          if parent.Some? {
            current := parent.value;
          } else {
            return false;
          }
        } else {
          return false;
        }
      }
    }
  }

  /** A declaration in the innermost scope; a name already declared there changes nothing. */
  function Declared(env: Env, name: string, ty: TypeInfo): Env
  {
    if env == [] || name in env[0].variables then env
    else [env[0].(variables := env[0].variables[name := ty])] + env[1..]
  }

  function Named(env: Env, name: string): Env
  {
    if env == [] || name in env[0].types then env
    else [env[0].(types := env[0].types + {name})] + env[1..]
  }

  // ----- whole runs -----

  datatype Action =
    | Push
    | Enter(name: string, visibility: Visibility)
    | Pop
    | Declare(name: string, ty: TypeInfo)
    | NameType(name: string, ty: TypeInfo)

  /** What an action does to a plain stack of maps. */
  function Act(env: Env, a: Action): Env
  {
    match a
    case Push => [Bindings(map[], {})] + env
    case Enter(_, _) => [Bindings(map[], {})] + env
    case Pop => if env == [] then [] else env[1..]
    case Declare(name, ty) => Declared(env, name, ty)
    case NameType(name, _) => Named(env, name)
  }

  function ActAll(env: Env, actions: seq<Action>): Env
    decreases |actions|
  {
    if actions == [] then env else ActAll(Act(env, actions[0]), actions[1..])
  }

  /** After any run the scope tree answers like the stack of maps the same run builds. */
  method Run(table: SymbolTable, actions: seq<Action>)
    requires table.Valid()
    modifies table
    ensures table.Valid() && table.Visible() == ActAll(old(table.Visible()), actions)
  {
    assert actions[0..] == actions;
    for i := 0 to |actions|
      invariant table.Valid()
      invariant ActAll(table.Visible(), actions[i..]) == ActAll(old(table.Visible()), actions)
    {
      assert actions[i..][1..] == actions[i + 1..];
      match actions[i] {
        case Push => var _ := table.PushScope();
        case Enter(name, visibility) => var _ := table.EnterModule(name, visibility);
        case Pop => table.PopScope();
        case Declare(name, ty) => var _ := table.PushVariableToScope(name, ty);
        case NameType(name, ty) => var _ := table.RegisterType(name, ty);
      }
    }
  }

  /** Balanced: every push is popped again and nothing outside is popped. */
  predicate Balanced(actions: seq<Action>, depth: nat)
  {
    if actions == [] then depth == 0
    else
      match actions[0]
      case Push => Balanced(actions[1..], depth + 1)
      case Enter(_, _) => Balanced(actions[1..], depth + 1)
      case Pop => depth > 0 && Balanced(actions[1..], depth - 1)
      case _ => depth > 0 && Balanced(actions[1..], depth)
  }

  /** A balanced run, whatever it declares inside, leaves the environment exactly as it found it. */
  lemma {:induction false} BalancedRestores(inner: Env, env: Env, actions: seq<Action>)
    requires Balanced(actions, |inner|)
    ensures ActAll(inner + env, actions) == env
    decreases |actions|
  {
    if actions == [] {
      assert inner + env == env;
    } else {
      var next := Act(inner + env, actions[0]);
      match actions[0]
      case Push =>
        assert next == ([Bindings(map[], {})] + inner) + env;
        BalancedRestores([Bindings(map[], {})] + inner, env, actions[1..]);
      case Enter(_, _) =>
        assert next == ([Bindings(map[], {})] + inner) + env;
        BalancedRestores([Bindings(map[], {})] + inner, env, actions[1..]);
      case Pop =>
        assert next == inner[1..] + env;
        BalancedRestores(inner[1..], env, actions[1..]);
      case Declare(name, ty) =>
        assert next == Declared(inner, name, ty) + env;
        BalancedRestores(Declared(inner, name, ty), env, actions[1..]);
      case NameType(name, _) =>
        assert next == Named(inner, name) + env;
        BalancedRestores(Named(inner, name), env, actions[1..]);
    }
  }
}
