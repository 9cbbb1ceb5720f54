/** The arena of syntax nodes with its parent and child maps. */
module Arenas {
  import opened Decoded
  import opened Ordered

  datatype AstNode = AstNode(id: nat, isSourceFile: bool, tag: nat)

  /** The sentinel parent of a root. */
  const NO_PARENT: nat := 0xffff_ffff

  /** The three maps as one value. */
  datatype Links = Links(nodes: map<nat, AstNode>, parents: map<nat, nat>, children: map<nat, seq<nat>>)

  function Kids(v: Links, id: nat): seq<nat>
  {
    if id in v.children then v.children[id] else []
  }

  function Parent(v: Links, id: nat): Option<nat>
  {
    if id in v.parents then Some(v.parents[id]) else None
  }

  // ----- what makes the maps a forest of source files -----

  ghost predicate OwnIds(v: Links)
  {
    forall i <- v.nodes :: v.nodes[i].id == i
  }

  /** Parents have smaller ids, and are stored or still under construction. */
  ghost predicate ParentsFirst(v: Links, open: set<nat>)
  {
    forall c <- v.parents :: c in v.nodes && v.parents[c] < c && (v.parents[c] in v.nodes || v.parents[c] in open)
  }

  /** Exactly the source files have no parent. */
  ghost predicate RootsAreFiles(v: Links)
  {
    forall i <- v.nodes :: i !in v.parents <==> v.nodes[i].isSourceFile
  }

  ghost predicate LinksAgree(v: Links)
  {
    forall p: nat, c: nat :: c in Kids(v, p) <==> Parent(v, c) == Some(p)
  }

  ghost predicate ListedOnce(v: Links)
  {
    forall p: nat :: Ascending(Kids(v, p))
  }

  /** A forest but for the nodes in `open`, whose children are stored before they are. */
  ghost predicate Growing(v: Links, open: set<nat>)
  {
    OwnIds(v) && ParentsFirst(v, open) && RootsAreFiles(v) && LinksAgree(v) && ListedOnce(v)
  }

  ghost predicate Forest(v: Links)
  {
    Growing(v, {})
  }

  /** Every node at or after file `f` in id order, and no other, hangs below a node at or after `f`. */
  ghost predicate FilesApart(v: Links, files: set<nat>)
  {
    && (forall i <- v.nodes :: v.nodes[i].isSourceFile <==> i in files)
    && (forall f <- files, c <- v.parents :: f <= v.parents[c] <==> f <= c)
  }

  /** `f` is the file that `id` was built under: the last one to have been started before it. */
  ghost predicate IsFileOf(files: set<nat>, id: nat, f: nat)
  {
    f in files && f <= id && forall g <- files :: g <= id ==> g <= f
  }

  function Added(v: Links, node: AstNode, parent: nat): Links
  {
    if parent == NO_PARENT then v.(nodes := v.nodes[node.id := node])
    else Links(v.nodes[node.id := node], v.parents[node.id := parent],
               v.children[parent := Kids(v, parent) + [node.id]])
  }

  /** Storing a node whose id is above its parent and its siblings keeps the forest growing. */
  lemma AddedGrows(v: Links, open: set<nat>, node: AstNode, parent: nat)
    requires Growing(v, open + {node.id}) && node.id !in v.nodes && (parent in v.nodes || parent in open)
    requires parent < node.id && parent != NO_PARENT && !node.isSourceFile
    requires forall k <- Kids(v, parent) :: k < node.id
    ensures Growing(Added(v, node, parent), open)
  {
    var w := Added(v, node, parent);
    AddedLinks(v, open, node, parent);
    AddedOnce(v, node, parent);
  }

  lemma AddedLinks(v: Links, open: set<nat>, node: AstNode, parent: nat)
    requires Growing(v, open + {node.id}) && node.id !in v.nodes && parent != NO_PARENT
    ensures LinksAgree(Added(v, node, parent))
  {
    hide OwnIds, RootsAreFiles, ListedOnce;
    var w := Added(v, node, parent);
    forall p: nat, c: nat
      ensures c in Kids(w, p) <==> Parent(w, c) == Some(p)
    {
      assert c in Kids(v, p) <==> Parent(v, c) == Some(p);
      assert Kids(w, p) == if p == parent then Kids(v, p) + [node.id] else Kids(v, p);
      if c == node.id {
        assert c !in v.parents;
      }
    }
  }

  lemma AddedOnce(v: Links, node: AstNode, parent: nat)
    requires ListedOnce(v) && parent != NO_PARENT && forall k <- Kids(v, parent) :: k < node.id
    ensures ListedOnce(Added(v, node, parent))
  {
    var w := Added(v, node, parent);
    forall p: nat
      ensures Ascending(Kids(w, p))
    {
      assert Ascending(Kids(v, p));
      assert Kids(w, p) == if p == parent then Kids(v, p) + [node.id] else Kids(v, p);
      if p == parent {
        AscendingSnoc(Kids(v, p), node.id);
      }
    }
  }

  class Arena {
    var nodes: map<nat, AstNode>
    var parentMap: map<nat, nat>
    var childrenMap: map<nat, seq<nat>>

    constructor ()
      ensures View() == Links(map[], map[], map[])
    {
      nodes, parentMap, childrenMap := map[], map[], map[];
    }

    ghost function View(): Links
      reads this
    {
      Links(nodes, parentMap, childrenMap)
    }

    /** The preconditions are the two panics of the source. */
    method AddNode(node: AstNode, parentId: nat)
      requires node.id != 0 && node.id !in nodes
      modifies this
      ensures View() == Added(old(View()), node, parentId)
    {
      nodes := nodes[node.id := node];
      if parentId != NO_PARENT {
        parentMap := parentMap[node.id := parentId];
        var siblings := if parentId in childrenMap then childrenMap[parentId] else [];
        childrenMap := childrenMap[parentId := siblings + [node.id]];
      }
    }

    method FindSourceFileForNode(nodeId: nat, ghost files: set<nat>) returns (file: Option<nat>)
      requires Forest(View()) && FilesApart(View(), files)
      ensures nodeId !in nodes ==> file == None
      ensures nodeId in nodes ==> file.Some? && file.value in nodes && IsFileOf(files, nodeId, file.value)
    {
      hide OwnIds, LinksAgree, ListedOnce;
      if nodeId !in nodes {
        return None;
      }
      if nodes[nodeId].isSourceFile {
        return Some(nodeId);
      }
      var current := nodeId;
      while current in parentMap
        invariant current in nodes && current <= nodeId
        invariant forall f <- files :: f <= current <==> f <= nodeId
        decreases current
      {
        current := parentMap[current];
      }
      file := None;
      if nodes[current].isSourceFile {
        file := Some(current);
      }
    }

    /**
      The root if it satisfies `wanted`, and every node below it that is reached through wanted nodes only; each
      once, a node before those below it and the last of several siblings first.
     */
    method GetChildrenCmp(id: nat, wanted: AstNode -> bool) returns (result: seq<AstNode>)
      requires Forest(View())
      ensures forall n <- result :: n.id in nodes && nodes[n.id] == n
      ensures forall i, j :: 0 <= i < j < |result| ==> result[i] != result[j]
      ensures IdsOf(result) == if id in nodes then SearchOrder(View(), wanted, id) else []
      ensures forall d: nat :: d in nodes && nodes[d] in result <==>
                               id in nodes && Chosen(View(), wanted, id, d)
    {
      hide ParentsFirst, RootsAreFiles, LinksAgree, ListedOnce, Leads, Matching, Searching, SearchOrder, OrderOfAll;
      result := [];
      ghost var v := View();
      if id !in nodes {
        return;
      }
      var stack := [id];
      ghost var visited: set<nat> := {};
      SearchStart(v, wanted, id);
      OrderStart(v, wanted, id);
      while stack != []
        invariant AllStored(v, stack, -1)
        invariant IdsOf(result) + OrderOfAll(v, wanted, stack, -1) == SearchOrder(v, wanted, id)
        invariant Searching(v, wanted, id, visited, stack)
        invariant forall n <- result :: n.id in nodes && nodes[n.id] == n && n.id in visited && wanted(n)
        invariant forall d <- visited :: d in nodes && (wanted(nodes[d]) ==> nodes[d] in result)
        invariant forall i, j :: 0 <= i < j < |result| ==> result[i] != result[j]
        decreases nodes.Keys - visited
      {
        var current := stack[|stack| - 1];
        SearchStep(v, wanted, id, visited, stack);
        OrderStep(v, wanted, stack);
        var kids := if current in childrenMap then childrenMap[current] else [];
        stack := stack[..|stack| - 1] + Matching(nodes, kids, wanted);
        visited := visited + {current};
        if wanted(nodes[current]) {
          result := result + [nodes[current]];
        }
      }
      SearchDone(v, wanted, id, visited);
      OrderDone(v, wanted);
    }
  }

  function IdsOf(found: seq<AstNode>): seq<nat>
  {
    seq(|found|, i requires 0 <= i < |found| => found[i].id)
  }

  // ----- the order in which a search finds nodes -----

  ghost function From(v: Links, x: int): set<nat>
  {
    set n | n in v.nodes && n >= x
  }

  ghost predicate AllStored(v: Links, xs: seq<nat>, above: int)
  {
    forall x <- xs :: x in v.nodes && x > above
  }

  lemma KidsStored(v: Links, wanted: AstNode -> bool, x: nat)
    requires Forest(v)
    ensures AllStored(v, Matching(v.nodes, Kids(v, x), wanted), x)
  {
    MatchingMeaning(v.nodes, Kids(v, x), wanted);
    forall c <- Matching(v.nodes, Kids(v, x), wanted)
      ensures c in v.nodes && c > x
    {
      assert Parent(v, c) == Some(x);
    }
  }

  /** A node, if it is wanted, and after it everything found under its last wanted child, then under the one before. */
  ghost function SearchOrder(v: Links, wanted: AstNode -> bool, x: nat): seq<nat>
    requires Forest(v) && x in v.nodes
    decreases From(v, x), 0
  {
    KidsStored(v, wanted, x);
    assert x in From(v, x) && From(v, x + 1) <= From(v, x) - {x};
    (if wanted(v.nodes[x]) then [x] else []) + OrderOfAll(v, wanted, Matching(v.nodes, Kids(v, x), wanted), x)
  }

  ghost function OrderOfAll(v: Links, wanted: AstNode -> bool, xs: seq<nat>, above: int): seq<nat>
    requires Forest(v) && AllStored(v, xs, above)
    decreases From(v, above + 1), 1 + |xs|
  {
    if xs == [] then []
    else
      var last := xs[|xs| - 1];
      assert last in xs && From(v, last) <= From(v, above + 1);
      SearchOrder(v, wanted, last) + OrderOfAll(v, wanted, xs[..|xs| - 1], above)
  }

  lemma {:induction false} OrderJoin(v: Links, wanted: AstNode -> bool, below: seq<nat>, kids: seq<nat>, x: int)
    requires Forest(v) && AllStored(v, below, -1) && AllStored(v, kids, x) && x >= -1
    ensures AllStored(v, below + kids, -1)
    ensures OrderOfAll(v, wanted, below + kids, -1)
         == OrderOfAll(v, wanted, kids, x) + OrderOfAll(v, wanted, below, -1)
    decreases |kids|
  {
    hide Forest, SearchOrder;
    if kids == [] {
      assert below + kids == below;
    } else {
      var front, last := kids[..|kids| - 1], kids[|kids| - 1];
      assert (below + kids)[..|below + kids| - 1] == below + front && (below + kids)[|below + kids| - 1] == last;
      OrderJoin(v, wanted, below, front, x);
    }
  }

  lemma OrderStart(v: Links, wanted: AstNode -> bool, root: nat)
    requires Forest(v) && root in v.nodes
    ensures OrderOfAll(v, wanted, [root], -1) == SearchOrder(v, wanted, root)
  {
    hide SearchOrder;
    assert [root][..0] == [];
    assert OrderOfAll(v, wanted, [], -1) == [];
  }

  lemma OrderStep(v: Links, wanted: AstNode -> bool, stack: seq<nat>)
    requires Forest(v) && AllStored(v, stack, -1) && stack != []
    ensures var current, below := stack[|stack| - 1], stack[..|stack| - 1];
            var next := below + Matching(v.nodes, Kids(v, current), wanted);
            && AllStored(v, next, -1)
            && OrderOfAll(v, wanted, stack, -1) ==
               (if wanted(v.nodes[current]) then [current] else []) + OrderOfAll(v, wanted, next, -1)
  {
    hide Forest, Matching, Kids;
    var current, below := stack[|stack| - 1], stack[..|stack| - 1];
    KidsStored(v, wanted, current);
    OrderJoin(v, wanted, below, Matching(v.nodes, Kids(v, current), wanted), current);
  }

  lemma OrderDone(v: Links, wanted: AstNode -> bool)
    requires Forest(v)
    ensures OrderOfAll(v, wanted, [], -1) == []
  {
  }

  /** The children that are stored and wanted, in order. */
  function Matching(nodes: map<nat, AstNode>, ids: seq<nat>, wanted: AstNode -> bool): seq<nat>
  {
    if ids == [] then []
    else (if ids[0] in nodes && wanted(nodes[ids[0]]) then [ids[0]] else []) + Matching(nodes, ids[1..], wanted)
  }

  lemma {:induction false} MatchingMeaning(nodes: map<nat, AstNode>, ids: seq<nat>, wanted: AstNode -> bool)
    requires Ascending(ids)
    ensures forall c: nat :: c in Matching(nodes, ids, wanted) <==> c in ids && c in nodes && wanted(nodes[c])
    ensures Ascending(Matching(nodes, ids, wanted))
  {
    if ids != [] {
      var x, rest := ids[0], Matching(nodes, ids[1..], wanted);
      assert ids == [x] + ids[1..];
      MatchingMeaning(nodes, ids[1..], wanted);
      forall k <- rest
        ensures x < k
      {
        var i :| 0 <= i < |ids[1..]| && ids[1..][i] == k;
        assert ids[i + 1] == k;
      }
      AscendingCons(x, rest);
      assert [] + rest == rest;
    }
  }

  /** `d` is among the results of a search from `root`. */
  ghost predicate Chosen(v: Links, wanted: AstNode -> bool, root: nat, d: nat)
  {
    (d == root && d in v.nodes && wanted(v.nodes[d])) || exists path :: Leads(v, wanted, root, d, path)
  }

  /** The state of the search: what was visited and what waits are disjoint, sound, and closed but for the waiting. */
  ghost predicate Searching(v: Links, wanted: AstNode -> bool, root: nat, visited: set<nat>, stack: seq<nat>)
  {
    && Forest(v) && root in v.nodes && (root in visited || root in stack)
    && (forall i, j :: 0 <= i < j < |stack| ==> stack[i] != stack[j])
    && (forall x <- stack :: x !in visited)
    && Reached(v, wanted, root, visited, stack) && Followed(v, wanted, visited, stack)
  }

  /** Everything seen is the root or was chosen under a node visited before. */
  ghost predicate Reached(v: Links, wanted: AstNode -> bool, root: nat, visited: set<nat>, stack: seq<nat>)
  {
    forall x: nat :: x in visited || x in stack ==>
      x in v.nodes && (x == root || (Chosen(v, wanted, root, x) && Parent(v, x).Some? && Parent(v, x).value in visited))
  }

  /** Every wanted child of a visited node has been seen. */
  ghost predicate Followed(v: Links, wanted: AstNode -> bool, visited: set<nat>, stack: seq<nat>)
  {
    forall x: nat, c: nat :: x in visited && c in Kids(v, x) && c in v.nodes && wanted(v.nodes[c]) ==>
      c in visited || c in stack
  }

  lemma SearchStart(v: Links, wanted: AstNode -> bool, root: nat)
    requires Forest(v) && root in v.nodes
    ensures Searching(v, wanted, root, {}, [root])
  {
  }

  lemma SearchStep(v: Links, wanted: AstNode -> bool, root: nat, visited: set<nat>, stack: seq<nat>)
    requires Searching(v, wanted, root, visited, stack) && stack != []
    ensures var current := stack[|stack| - 1];
            current in v.nodes && current !in visited &&
            Searching(v, wanted, root, visited + {current},
                      stack[..|stack| - 1] + Matching(v.nodes, Kids(v, current), wanted))
  {
    hide Growing, Kids, Parent, Matching, Chosen, Reached, Followed, Forest;
    var current, below := stack[|stack| - 1], stack[..|stack| - 1];
    assert stack == below + [current];
    KidsAscend(v, current);
    MatchingMeaning(v.nodes, Kids(v, current), wanted);
    var kids := Matching(v.nodes, Kids(v, current), wanted);
    forall c <- kids
      ensures Parent(v, c) == Some(current) && Chosen(v, wanted, root, c) && c !in visited && c !in stack
    {
      FreshKid(v, wanted, root, visited, stack, current, c);
    }
    assert current in stack;
    assert forall x <- below :: x in stack && x != current;
    NoneTwice(below, kids);
    StillReached(v, wanted, root, visited, below, current, kids);
    StillFollowed(v, wanted, visited, below, current, kids);
  }

  lemma StillReached(v: Links, wanted: AstNode -> bool, root: nat, visited: set<nat>, below: seq<nat>, current: nat,
                     kids: seq<nat>)
    requires Reached(v, wanted, root, visited, below + [current])
    requires forall c <- kids :: c in v.nodes && Parent(v, c) == Some(current) && Chosen(v, wanted, root, c)
    ensures current in v.nodes && Reached(v, wanted, root, visited + {current}, below + kids)
  {
    hide Chosen, Parent;
    assert current in below + [current];
    assert forall x <- below :: x in below + [current];
  }

  lemma StillFollowed(v: Links, wanted: AstNode -> bool, visited: set<nat>, below: seq<nat>, current: nat,
                      kids: seq<nat>)
    requires Followed(v, wanted, visited, below + [current])
    requires forall c: nat :: c in Kids(v, current) && c in v.nodes && wanted(v.nodes[c]) ==> c in kids
    ensures Followed(v, wanted, visited + {current}, below + kids)
  {
    hide Kids;
    forall x: nat, c: nat | x in visited + {current} && c in Kids(v, x) && c in v.nodes && wanted(v.nodes[c])
      ensures c in visited + {current} || c in below + kids
    {
      if x in visited {
        assert c in visited || c in below + [current];
      }
    }
  }

  lemma NoneTwice(a: seq<nat>, b: seq<nat>)
    requires (forall i, j :: 0 <= i < j < |a| ==> a[i] != a[j]) && Ascending(b) && (forall x <- b :: x !in a)
    ensures forall i, j :: 0 <= i < j < |a + b| ==> (a + b)[i] != (a + b)[j]
  {
    forall i, j | 0 <= i < j < |a + b|
      ensures (a + b)[i] != (a + b)[j]
    {
      if i < |a| <= j {
        assert (a + b)[i] in a && (a + b)[j] in b;
      }
    }
  }

  lemma KidsAscend(v: Links, x: nat)
    requires Forest(v)
    ensures Ascending(Kids(v, x))
  {
  }

  /** A child of a node still waiting has not been seen. */
  lemma FreshKid(v: Links, wanted: AstNode -> bool, root: nat, visited: set<nat>, stack: seq<nat>, current: nat, c: nat)
    requires Searching(v, wanted, root, visited, stack) && current in stack
    requires c in Kids(v, current) && c in v.nodes && wanted(v.nodes[c])
    ensures Parent(v, c) == Some(current) && Chosen(v, wanted, root, c) && c !in visited && c !in stack
  {
    hide OwnIds, RootsAreFiles, ListedOnce, Leads;
    Below(v, wanted, root, current, c);
    AtOrAfter(v, wanted, root, visited, stack, current);
  }

  lemma AtOrAfter(v: Links, wanted: AstNode -> bool, root: nat, visited: set<nat>, stack: seq<nat>, x: nat)
    requires Searching(v, wanted, root, visited, stack) && (x in visited || x in stack)
    ensures root <= x
    decreases x
  {
    if x != root {
      AtOrAfter(v, wanted, root, visited, stack, Parent(v, x).value);
    }
  }

  /** A wanted child of the root or of a chosen node is chosen. */
  lemma Below(v: Links, wanted: AstNode -> bool, root: nat, x: nat, c: nat)
    requires root in v.nodes && (x == root || Chosen(v, wanted, root, x))
    requires c in Kids(v, x) && c in v.nodes && wanted(v.nodes[c])
    ensures Chosen(v, wanted, root, c)
  {
    if x == root {
      assert Leads(v, wanted, root, c, [root, c]);
    } else {
      var path :| Leads(v, wanted, root, x, path);
      assert Leads(v, wanted, root, c, path + [c]);
    }
  }

  lemma SearchDone(v: Links, wanted: AstNode -> bool, root: nat, visited: set<nat>)
    requires Searching(v, wanted, root, visited, [])
    ensures forall d: nat :: Chosen(v, wanted, root, d) ==> d in visited && d in v.nodes && wanted(v.nodes[d])
    ensures forall d: nat :: d in visited && wanted(v.nodes[d]) ==> Chosen(v, wanted, root, d)
  {
    forall d: nat, path | Leads(v, wanted, root, d, path)
      ensures d in visited
    {
      Follow(v, wanted, root, visited, d, path);
    }
  }

  lemma {:induction false} Follow(v: Links, wanted: AstNode -> bool, root: nat, visited: set<nat>, d: nat,
                                  path: seq<nat>)
    requires Searching(v, wanted, root, visited, []) && Leads(v, wanted, root, d, path)
    ensures d in visited
    decreases |path|
  {
    var x := path[|path| - 2];
    if |path| > 2 {
      assert Leads(v, wanted, root, x, path[..|path| - 1]);
      Follow(v, wanted, root, visited, x, path[..|path| - 1]);
    }
    assert d in Kids(v, x);
  }

  /** A path of child links from `root` down to `d`, at least one link long, through wanted nodes. */
  ghost predicate Leads(v: Links, wanted: AstNode -> bool, root: nat, d: nat, path: seq<nat>)
  {
    && |path| > 1 && path[0] == root && path[|path| - 1] == d && root in v.nodes
    && forall i :: 0 < i < |path| ==> path[i] in Kids(v, path[i - 1]) && path[i] in v.nodes && wanted(v.nodes[path[i]])
  }
}
