/**
 * The tree hierarchy service: a capped tree generated breadth first, kept
 * as a node table in insertion order plus a children index and a parent
 * index, and the queries over it (roots, children, name search, path to
 * the root, single node).
 */
module TreeService {
  import opened Common
  import opened Text

  datatype Node = Node(id: string, parentId: Option<string>, name: string, hasChildren: bool)

  datatype PathEntry = PathEntry(id: string, name: string)

  datatype SearchResult = SearchResult(id: string, name: string, path: seq<PathEntry>)

  /**
   * The service state: `nodes` in insertion order (a JavaScript `Map`
   * iterates that way), `children` (childrenMap) and `parent` (parentMap).
   */
  datatype Tree = Tree(nodes: seq<Node>, children: map<string, seq<string>>, parent: map<string, string>)

  /** The state a new service starts in, before any seeding. */
  const EmptyTree := Tree([], map[], map[])

  /** The hard cap on the number of generated nodes. */
  const NodeCap: nat := 10000

  /** The generated id of the node created k-th, counting from 1. */
  function NodeId(k: nat): string
  {
    "node_" + NatStr(k)
  }

  lemma NodeIdInjective(a: nat, b: nat)
    requires NodeId(a) == NodeId(b)
    ensures a == b
  {
    assert NatStr(a) == NodeId(a)[5..] == NodeId(b)[5..] == NatStr(b);
    NatStrInjective(a, b);
  }

  function RootName(i: nat): string
  {
    "Root Node " + NatStr(i + 1)
  }

  function ChildName(k: nat): string
  {
    "Node " + NatStr(k)
  }

  /** `Math.min(breadth ** depth, 10000)`. */
  function MaxNodes(breadth: nat, depth: nat): nat
  {
    if Pow(breadth, depth) <= NodeCap then Pow(breadth, depth) else NodeCap
  }

  // ---------------------------------------------------------------------
  // Lookups
  // ---------------------------------------------------------------------

  /** Position of the node with this id: the first match, or |nodes| when absent (`nodes.get`). */
  function IndexOf(nodes: seq<Node>, id: string): (i: nat)
    ensures i <= |nodes|
    ensures i < |nodes| ==> nodes[i].id == id
    ensures forall j :: 0 <= j < i ==> nodes[j].id != id
  {
    if |nodes| == 0 then 0
    else if nodes[0].id == id then 0
    else 1 + IndexOf(nodes[1..], id)
  }

  /** The three facts of IndexOf's contract pin the position down. */
  lemma IndexOfUnique(nodes: seq<Node>, id: string, i: nat)
    requires i <= |nodes|
    requires i < |nodes| ==> nodes[i].id == id
    requires forall j :: 0 <= j < i ==> nodes[j].id != id
    ensures IndexOf(nodes, id) == i
  {
  }

  /** `childrenMap.get(id) || []`. */
  function Lookup(children: map<string, seq<string>>, id: string): seq<string>
  {
    if id in children then children[id] else []
  }

  /** The nodes whose parent is `p`, in table order. */
  function ChildNodes(nodes: seq<Node>, p: string): (r: seq<Node>)
    ensures forall n :: n in r <==> n in nodes && n.parentId == Some(p)
    decreases |nodes|
  {
    if |nodes| == 0 then []
    else
      var k := |nodes| - 1;
      assert nodes == nodes[..k] + [nodes[k]];
      ChildNodes(nodes[..k], p) + (if nodes[k].parentId == Some(p) then [nodes[k]] else [])
  }

  /** The ids of the nodes whose parent is `p`, in table order. */
  function ChildIds(nodes: seq<Node>, p: string): (r: seq<string>)
    ensures |r| == |ChildNodes(nodes, p)|
    ensures forall k :: 0 <= k < |r| ==> r[k] == ChildNodes(nodes, p)[k].id
    decreases |nodes|
  {
    if |nodes| == 0 then []
    else
      var k := |nodes| - 1;
      ChildIds(nodes[..k], p) + (if nodes[k].parentId == Some(p) then [nodes[k].id] else [])
  }

  /** The children index lists, for every id, exactly the ids of its children in creation order. */
  ghost predicate ChildrenAgree(children: map<string, seq<string>>, nodes: seq<Node>)
  {
    forall id: string {:trigger Lookup(children, id)} :: Lookup(children, id) == ChildIds(nodes, id)
  }

  /**
   * What every state of the service satisfies: ids are distinct and
   * non-empty, `parentId` and the parent index agree, a parent sits earlier
   * in the table than its child, and the children index matches the
   * parent links.
   */
  ghost predicate Valid(t: Tree)
  {
    && (forall i :: 0 <= i < |t.nodes| ==> t.nodes[i].id != "")
    && (forall i, j :: 0 <= i < j < |t.nodes| ==> t.nodes[i].id != t.nodes[j].id)
    && (forall i :: 0 <= i < |t.nodes| ==>
          t.nodes[i].parentId == if t.nodes[i].id in t.parent then Some(t.parent[t.nodes[i].id]) else None)
    && (forall id :: id in t.parent ==> IndexOf(t.nodes, t.parent[id]) < IndexOf(t.nodes, id) < |t.nodes|)
    && ChildrenAgree(t.children, t.nodes)
  }

  // ---------------------------------------------------------------------
  // Queries
  // ---------------------------------------------------------------------

  /** `getNode`. */
  function GetNode(t: Tree, id: string): (r: Option<Node>)
    ensures r.Some? <==> exists i :: 0 <= i < |t.nodes| && t.nodes[i].id == id
    ensures r.Some? ==> r.value in t.nodes && r.value.id == id
  {
    var i := IndexOf(t.nodes, id);
    if i < |t.nodes| then Some(t.nodes[i]) else None
  }

  /** The nodes without a parent, in table order. */
  function Roots(nodes: seq<Node>): seq<Node>
    decreases |nodes|
  {
    if |nodes| == 0 then []
    else
      var k := |nodes| - 1;
      Roots(nodes[..k]) + (if nodes[k].parentId.None? then [nodes[k]] else [])
  }

  /** The roots are exactly the parentless nodes. */
  lemma {:induction false} RootsMembers(nodes: seq<Node>)
    ensures forall n :: n in Roots(nodes) <==> n in nodes && n.parentId.None?
    decreases |nodes|
  {
    if |nodes| > 0 {
      var k := |nodes| - 1;
      RootsMembers(nodes[..k]);
      assert nodes == nodes[..k] + [nodes[k]];
    }
  }

  /** `getRootNodes`. */
  function GetRootNodes(t: Tree): (r: seq<Node>)
    ensures forall n :: n in r <==> n in t.nodes && n.parentId.None?
  {
    RootsMembers(t.nodes);
    Roots(t.nodes)
  }

  /** When exactly the first `count` nodes are roots, the roots are that prefix. */
  lemma {:induction false} RootsArePrefix(nodes: seq<Node>, count: nat)
    requires count <= |nodes|
    requires forall i :: 0 <= i < |nodes| ==> (nodes[i].parentId.None? <==> i < count)
    ensures Roots(nodes) == nodes[..count]
    decreases |nodes|
  {
    if |nodes| > count {
      var k := |nodes| - 1;
      RootsArePrefix(nodes[..k], count);
      assert nodes[..k][..count] == nodes[..count];
    } else {
      RootsOfRoots(nodes);
      assert nodes[..count] == nodes;
    }
  }

  lemma {:induction false} RootsOfRoots(nodes: seq<Node>)
    requires forall i :: 0 <= i < |nodes| ==> nodes[i].parentId.None?
    ensures Roots(nodes) == nodes
    decreases |nodes|
  {
    if |nodes| > 0 {
      var k := |nodes| - 1;
      RootsOfRoots(nodes[..k]);
      assert nodes == nodes[..k] + [nodes[k]];
    }
  }

  /** The nodes behind a list of ids; ids without a node are skipped. */
  function Resolve(nodes: seq<Node>, ids: seq<string>): (r: seq<Node>)
    ensures |r| <= |ids|
    ensures forall n :: n in r ==> n in nodes && n.id in ids
    decreases |ids|
  {
    if |ids| == 0 then []
    else
      var k := |ids| - 1;
      var i := IndexOf(nodes, ids[k]);
      Resolve(nodes, ids[..k]) + (if i < |nodes| then [nodes[i]] else [])
  }

  /** `getNodeChildren`: the children index entry, resolved to nodes. */
  function GetNodeChildren(t: Tree, id: string): (r: seq<Node>)
    ensures forall n :: n in r ==> n in t.nodes && n.id in Lookup(t.children, id)
    ensures id !in t.children ==> r == []
  {
    Resolve(t.nodes, Lookup(t.children, id))
  }

  /** Resolving the child ids of a prefix of the table gives back the child nodes of that prefix. */
  lemma {:induction false} ResolveChildIds(nodes: seq<Node>, p: string, j: nat)
    requires j <= |nodes|
    requires forall a, b :: 0 <= a < b < |nodes| ==> nodes[a].id != nodes[b].id
    ensures Resolve(nodes, ChildIds(nodes[..j], p)) == ChildNodes(nodes[..j], p)
    decreases j
  {
    if j > 0 {
      var pre := nodes[..j];
      var last := nodes[j - 1];
      assert pre[..j - 1] == nodes[..j - 1];
      assert pre[j - 1] == last;
      ResolveChildIds(nodes, p, j - 1);
      var ids := ChildIds(nodes[..j - 1], p);
      var kids := ChildNodes(nodes[..j - 1], p);
      assert Resolve(nodes, ids) == kids;
      if last.parentId == Some(p) {
        var ext := ids + [last.id];
        assert ChildIds(pre, p) == ext;
        assert ChildNodes(pre, p) == kids + [last];
        assert ext[..|ids|] == ids;
        IndexOfUnique(nodes, last.id, j - 1);
        assert Resolve(nodes, ext) == Resolve(nodes, ids) + [nodes[j - 1]];
      } else {
        assert ChildIds(pre, p) == ids + [] == ids;
        assert ChildNodes(pre, p) == kids + [] == kids;
      }
    } else {
      assert nodes[..j] == [];
    }
  }

  /** In a valid tree `getNodeChildren` returns exactly the children, in creation order. */
  lemma ChildrenQuery(t: Tree, id: string)
    requires Valid(t)
    ensures GetNodeChildren(t, id) == ChildNodes(t.nodes, id)
    ensures (forall i :: 0 <= i < |t.nodes| ==> t.nodes[i].parentId != Some(id)) ==> GetNodeChildren(t, id) == []
  {
    assert Lookup(t.children, id) == ChildIds(t.nodes, id);
    ResolveChildIds(t.nodes, id, |t.nodes|);
    assert t.nodes[..|t.nodes|] == t.nodes;
    if GetNodeChildren(t, id) != [] {
      var n := GetNodeChildren(t, id)[0];
      assert n in ChildNodes(t.nodes, id);
    }
  }

  /**
   * `getNodePath`: the entries from the top of the chain down to `id`,
   * following the parent index. The empty id is falsy and yields no entry.
   */
  function NodePath(t: Tree, id: string): (path: seq<PathEntry>)
    requires Valid(t)
    ensures IndexOf(t.nodes, id) < |t.nodes| && id != "" <==> path != []
    ensures path != [] ==> PathTo(t, id, path)
    decreases IndexOf(t.nodes, id)
  {
    if id == "" then []
    else
      var i := IndexOf(t.nodes, id);
      if i == |t.nodes| then []
      else
        var entry := PathEntry(id, t.nodes[i].name);
        if id in t.parent then
          var up := t.parent[id];
          ParentLink(t, id);
          var prefix := NodePath(t, up);
          PathExtend(t, id, prefix);
          prefix + [entry]
        else [entry]
  }

  /**
   * A root-to-node path: it ends at the node, starts at a node without a
   * parent, each entry is the parent of the next, and every entry carries
   * the id and name of a node of the table.
   */
  ghost predicate PathTo(t: Tree, id: string, path: seq<PathEntry>)
  {
    && path != []
    && IndexOf(t.nodes, id) < |t.nodes|
    && path[|path| - 1] == PathEntry(id, t.nodes[IndexOf(t.nodes, id)].name)
    && path[0].id !in t.parent
    && (forall k :: 1 <= k < |path| ==> path[k].id in t.parent && t.parent[path[k].id] == path[k - 1].id)
    && forall k :: 0 <= k < |path| ==> NamedEntry(t, path[k])
  }

  /** The entry names a node of the table and carries that node's name. */
  ghost predicate NamedEntry(t: Tree, e: PathEntry)
  {
    IndexOf(t.nodes, e.id) < |t.nodes| && e.name == t.nodes[IndexOf(t.nodes, e.id)].name
  }

  /** A path to the parent extends to a path to the child. */
  lemma PathExtend(t: Tree, id: string, prefix: seq<PathEntry>)
    requires id in t.parent && IndexOf(t.nodes, id) < |t.nodes| && PathTo(t, t.parent[id], prefix)
    ensures PathTo(t, id, prefix + [PathEntry(id, t.nodes[IndexOf(t.nodes, id)].name)])
  {
    var path := prefix + [PathEntry(id, t.nodes[IndexOf(t.nodes, id)].name)];
    forall k | 1 <= k < |path| ensures path[k].id in t.parent && t.parent[path[k].id] == path[k - 1].id {
      if k < |prefix| { assert path[k] == prefix[k] && path[k - 1] == prefix[k - 1]; }
    }
    forall k | 0 <= k < |path| ensures NamedEntry(t, path[k]) {
      if k < |prefix| { assert path[k] == prefix[k]; }
    }
  }


  /** In a valid tree a parent is a node, sits earlier than its child, and has a non-empty id. */
  lemma ParentLink(t: Tree, id: string)
    requires Valid(t) && id in t.parent
    ensures IndexOf(t.nodes, t.parent[id]) < IndexOf(t.nodes, id) < |t.nodes|
    ensures t.parent[id] != ""
  {
    var up := t.parent[id];
    assert t.nodes[IndexOf(t.nodes, up)].id == up;
  }

  /** The hits of a name search over a stretch of the table, in table order. */
  function SearchHits(t: Tree, nodes: seq<Node>, needle: string): (r: seq<SearchResult>)
    requires Valid(t)
    ensures forall k :: 0 <= k < |r| ==>
      Contains(Lower(r[k].name), needle) && r[k].path == NodePath(t, r[k].id)
    decreases |nodes|
  {
    if |nodes| == 0 then []
    else
      var k := |nodes| - 1;
      var n := nodes[k];
      SearchHits(t, nodes[..k], needle)
        + (if Contains(Lower(n.name), needle) then [SearchResult(n.id, n.name, NodePath(t, n.id))] else [])
  }

  /** The hits of a table split in two are the hits of each part. */
  lemma {:induction false} SearchHitsAppend(t: Tree, a: seq<Node>, b: seq<Node>, needle: string)
    requires Valid(t)
    ensures SearchHits(t, a + b, needle) == SearchHits(t, a, needle) + SearchHits(t, b, needle)
    decreases |b|
  {
    if |b| == 0 {
      assert a + b == a;
    } else {
      var k := |b| - 1;
      assert (a + b)[..|a| + k] == a + b[..k];
      SearchHitsAppend(t, a, b[..k], needle);
    }
  }

  /** One more node of the table scanned: its hit, if any, goes last. */
  lemma SearchHitsStep(t: Tree, nodes: seq<Node>, i: nat, needle: string)
    requires Valid(t) && i < |nodes|
    ensures SearchHits(t, nodes[..i + 1], needle) == SearchHits(t, nodes[..i], needle)
      + (if Contains(Lower(nodes[i].name), needle) then [SearchResult(nodes[i].id, nodes[i].name, NodePath(t, nodes[i].id))] else [])
  {
    assert nodes[..i + 1][..i] == nodes[..i];
  }

  /** Stopping after the hit that reaches the limit keeps the first max(1, limit) hits. */
  lemma EarlyStop(t: Tree, needle: string, i: nat, items: seq<SearchResult>, limit: int)
    requires Valid(t) && i < |t.nodes| && items == SearchHits(t, t.nodes[..i + 1], needle)
    requires 1 <= |items| <= Max(1, limit) && |items| >= limit
    ensures var hits := SearchHits(t, t.nodes, needle);
      items == hits[..Min(Max(1, limit), |hits|)]
  {
    assert t.nodes == t.nodes[..i + 1] + t.nodes[i + 1..];
    SearchHitsAppend(t, t.nodes[..i + 1], t.nodes[i + 1..], needle);
  }

  /**
   * `searchNodes`: scans the table in order and stops right after the hit
   * that brings the count to `limit`, so it returns the first
   * max(1, limit) hits (at least one hit is kept whatever the limit).
   */
  method SearchNodes(t: Tree, query: string, limit: int) returns (items: seq<SearchResult>)
    requires Valid(t)
    ensures var hits := SearchHits(t, t.nodes, Lower(query));
      items == hits[..Min(Max(1, limit), |hits|)]
    ensures |items| <= Max(1, limit)
    ensures forall k :: 0 <= k < |items| ==>
      Contains(Lower(items[k].name), Lower(query)) && items[k].path == NodePath(t, items[k].id)
  {
    var needle := Lower(query);
    items := [];
    var i := 0;
    while i < |t.nodes|
      invariant 0 <= i <= |t.nodes|
      invariant items == SearchHits(t, t.nodes[..i], needle)
      invariant |items| < Max(1, limit)
    {
      var node := t.nodes[i];
      SearchHitsStep(t, t.nodes, i, needle);
      if Contains(Lower(node.name), needle) {
        items := items + [SearchResult(node.id, node.name, NodePath(t, node.id))];
        if |items| >= limit {
          EarlyStop(t, needle, i, items, limit);
          return;
        }
      }
      i := i + 1;
    }
    assert t.nodes[..i] == t.nodes;
  }

  // ---------------------------------------------------------------------
  // Generation (`seedTree`)
  // ---------------------------------------------------------------------

  /** The ids node_lo .. node_(hi-1), in order. */
  function IdRange(lo: nat, hi: nat): (r: seq<string>)
    requires lo <= hi
    ensures |r| == hi - lo
    ensures forall k :: 0 <= k < |r| ==> r[k] == NodeId(lo + k)
  {
    seq(hi - lo, k requires 0 <= k < hi - lo => NodeId(lo + k))
  }

  lemma IdRangeAppend(a: nat, b: nat, c: nat)
    requires a <= b <= c
    ensures IdRange(a, b) + IdRange(b, c) == IdRange(a, c)
  {
  }

  /** In a table whose k-th node is node_k, node_k sits at position k - 1. */
  lemma IdsIndex(nodes: seq<Node>, k: nat)
    requires forall i :: 0 <= i < |nodes| ==> nodes[i].id == NodeId(i + 1)
    requires 1 <= k
    ensures IndexOf(nodes, NodeId(k)) == if k <= |nodes| then k - 1 else |nodes|
  {
    var r := if k <= |nodes| then k - 1 else |nodes|;
    forall j | 0 <= j < r ensures nodes[j].id != NodeId(k) {
      if nodes[j].id == NodeId(k) {
        NodeIdInjective(j + 1, k);
      }
    }
    IndexOfUnique(nodes, NodeId(k), r);
  }

  lemma IndexOfAppend(nodes: seq<Node>, n: Node, id: string)
    requires IndexOf(nodes, id) < |nodes|
    ensures IndexOf(nodes + [n], id) == IndexOf(nodes, id)
  {
    IndexOfUnique(nodes + [n], id, IndexOf(nodes, id));
  }

  lemma ChildIdsAppend(nodes: seq<Node>, n: Node, p: string)
    ensures ChildIds(nodes + [n], p) == ChildIds(nodes, p) + (if n.parentId == Some(p) then [n.id] else [])
  {
    assert (nodes + [n])[..|nodes|] == nodes;
  }

  /** No node names `p` as its parent, so `p` has no children. */
  lemma NoChildren(nodes: seq<Node>, p: string)
    requires forall i :: 0 <= i < |nodes| ==> nodes[i].parentId != Some(p)
    ensures ChildNodes(nodes, p) == [] && ChildIds(nodes, p) == []
  {
  }

  /** Two tables that differ at most in the `hasChildren` flags. */
  ghost predicate SameShape(a: seq<Node>, b: seq<Node>)
  {
    && |a| == |b|
    && forall i :: 0 <= i < |a| ==> a[i].id == b[i].id && a[i].parentId == b[i].parentId && a[i].name == b[i].name
  }

  lemma SameShapeIndexOf(a: seq<Node>, b: seq<Node>, id: string)
    requires SameShape(a, b)
    ensures IndexOf(a, id) == IndexOf(b, id)
  {
    IndexOfUnique(b, id, IndexOf(a, id));
  }

  lemma {:induction false} SameShapeChildIds(a: seq<Node>, b: seq<Node>, p: string)
    requires SameShape(a, b)
    ensures ChildIds(a, p) == ChildIds(b, p)
    decreases |a|
  {
    if |a| > 0 {
      var k := |a| - 1;
      assert SameShape(a[..k], b[..k]);
      SameShapeChildIds(a[..k], b[..k], p);
      assert a[k].parentId == b[k].parentId && a[k].id == b[k].id;
      assert ChildIds(a, p) == ChildIds(a[..k], p) + (if a[k].parentId == Some(p) then [a[k].id] else []);
    }
  }

  /** Validity does not depend on the `hasChildren` flags. */
  lemma ValidSameShape(t: Tree, nodes: seq<Node>)
    requires Valid(t) && SameShape(t.nodes, nodes)
    ensures Valid(Tree(nodes, t.children, t.parent))
  {
    forall id: string ensures IndexOf(nodes, id) == IndexOf(t.nodes, id) {
      SameShapeIndexOf(t.nodes, nodes, id);
    }
    ChildrenAgreeSameShape(t.children, t.nodes, nodes);
  }

  /** The working state of the generator: the three tables and the `nodeId` counter. */
  datatype Gen = Gen(nodes: seq<Node>, children: map<string, seq<string>>, parent: map<string, string>, next: nat)

  function GenTree(g: Gen): Tree
  {
    Tree(g.nodes, g.children, g.parent)
  }

  /** The counter is one past the table, within the cap, and node k is node_k. */
  ghost predicate Counted(g: Gen, maxNodes: nat)
  {
    && |g.nodes| + 1 == g.next <= maxNodes + 1
    && forall i :: 0 <= i < |g.nodes| ==> g.nodes[i].id == NodeId(i + 1)
  }

  /** The first `roots` nodes are the named roots; the rest are named children with a parent. */
  ghost predicate Layout(nodes: seq<Node>, roots: nat)
  {
    && roots <= |nodes|
    && (forall i :: 0 <= i < |nodes| ==> (nodes[i].parentId.None? <==> i < roots))
    && (forall i :: 0 <= i < roots ==> nodes[i].name == RootName(i))
    && (forall i :: roots <= i < |nodes| ==> nodes[i].name == ChildName(i + 1))
  }

  /**
   * The parent of the child at position i is the node at position pos[i],
   * which is earlier and below `done` (the parents handled so far).
   */
  ghost predicate Links(nodes: seq<Node>, roots: nat, done: nat, pos: seq<nat>)
  {
    && |pos| == |nodes| && done <= |nodes|
    && forall i :: roots <= i < |nodes| ==>
         pos[i] < i && pos[i] < done && nodes[i].parentId == Some(NodeId(pos[i] + 1))
  }

  /** The parent index mirrors the `parentId` fields and holds only nodes. */
  ghost predicate ParentIndex(nodes: seq<Node>, parent: map<string, string>, roots: nat)
  {
    && (forall i :: 0 <= i < |nodes| ==> (nodes[i].id in parent <==> roots <= i))
    && (forall i :: roots <= i < |nodes| ==> nodes[i].id in parent && Some(parent[nodes[i].id]) == nodes[i].parentId)
    && (forall id :: id in parent ==> IndexOf(nodes, id) < |nodes|)
  }

  ghost predicate NonEmptyEntries(children: map<string, seq<string>>)
  {
    forall id :: id in children ==> children[id] != []
  }

  /** The generator's invariant, the children index aside. */
  ghost predicate Core(g: Gen, roots: nat, done: nat, maxNodes: nat, pos: seq<nat>)
  {
    && Counted(g, maxNodes)
    && Layout(g.nodes, roots)
    && Links(g.nodes, roots, done, pos)
    && ParentIndex(g.nodes, g.parent, roots)
    && NonEmptyEntries(g.children)
  }

  /**
   * The shape of a generated table: between min(breadth, cap) and cap
   * nodes, where cap = min(breadth^depth, 10000), and exactly cap nodes
   * whenever breadth is at least 1; the node at position i is
   * node_(i+1); the first min(breadth, cap) nodes are the roots "Root Node
   * 1", "Root Node 2", ... and every later node is a child named after its
   * number.
   */
  ghost predicate Generated(t: Tree, breadth: nat, depth: nat)
  {
    var cap := MaxNodes(breadth, depth);
    var roots := Min(breadth, cap);
    && roots <= |t.nodes| <= cap
    && (breadth >= 1 ==> |t.nodes| == cap)
    && (forall i :: 0 <= i < |t.nodes| ==> t.nodes[i].id == NodeId(i + 1))
    && (forall i :: 0 <= i < |t.nodes| ==> (t.nodes[i].parentId.None? <==> i < roots))
    && (forall i :: 0 <= i < roots ==> t.nodes[i].name == RootName(i))
    && (forall i :: roots <= i < |t.nodes| ==> t.nodes[i].name == ChildName(i + 1))
  }

  lemma GeneratedSameShape(t: Tree, u: Tree, breadth: nat, depth: nat)
    requires Generated(t, breadth, depth) && SameShape(t.nodes, u.nodes)
    ensures Generated(u, breadth, depth)
  {
  }

  /** The state of the root loop: only roots so far, all flagged, no index entries. */
  ghost predicate RootsSoFar(g: Gen, maxNodes: nat, pos: seq<nat>)
  {
    && Core(g, |g.nodes|, 0, maxNodes, pos) && g.children == map[] && g.parent == map[]
    && forall k :: 0 <= k < |g.nodes| ==> g.nodes[k].hasChildren
  }

  /** One pass of the root loop. */
  lemma RootStep(g: Gen, maxNodes: nat, pos: seq<nat>)
    requires RootsSoFar(g, maxNodes, pos) && g.next <= maxNodes
    ensures RootsSoFar(Gen(g.nodes + [Node(NodeId(g.next), None, RootName(|g.nodes|), true)], g.children, g.parent, g.next + 1), maxNodes, pos + [0])
  {
    var nodes := g.nodes + [Node(NodeId(g.next), None, RootName(|g.nodes|), true)];
    assert forall k :: 0 <= k < |g.nodes| ==> nodes[k] == g.nodes[k];
  }

  /** While only roots exist, the empty children index is the right one. */
  lemma RootsHaveNoChildren(nodes: seq<Node>)
    requires forall i :: 0 <= i < |nodes| ==> nodes[i].parentId.None?
    ensures ChildrenAgree(map[], nodes)
  {
    forall id: string ensures Lookup(map[], id) == ChildIds(nodes, id) {
      NoChildren(nodes, id);
    }
  }

  /** Before a parent's inner loop: it has no children yet and no index entry. */
  lemma OpenParent(g: Gen, roots: nat, done: nat, maxNodes: nat, pos: seq<nat>)
    requires Core(g, roots, done, maxNodes, pos) && ChildrenAgree(g.children, g.nodes)
    requires done < |g.nodes|
    ensures Core(g, roots, done + 1, maxNodes, pos)
    ensures ChildrenAgree(g.children[NodeId(done + 1) := []], g.nodes) && NodeId(done + 1) !in g.children
  {
    Unhandled(g.nodes, roots, done, pos);
    OpenEntry(g.children, g.nodes, NodeId(done + 1));
  }

  /** No node has the parent at position `done` yet. */
  lemma Unhandled(nodes: seq<Node>, roots: nat, done: nat, pos: seq<nat>)
    requires Layout(nodes, roots) && Links(nodes, roots, done, pos)
    ensures ChildIds(nodes, NodeId(done + 1)) == []
  {
    var q := NodeId(done + 1);
    forall i | 0 <= i < |nodes| ensures nodes[i].parentId != Some(q) {
      if i >= roots && nodes[i].parentId == Some(q) {
        NodeIdInjective(pos[i] + 1, done + 1);
      }
    }
    NoChildren(nodes, q);
  }

  lemma OpenEntry(children: map<string, seq<string>>, nodes: seq<Node>, q: string)
    requires ChildrenAgree(children, nodes) && NonEmptyEntries(children) && ChildIds(nodes, q) == []
    ensures ChildrenAgree(children[q := []], nodes) && q !in children
  {
    assert Lookup(children, q) == [];
    forall id: string ensures Lookup(children[q := []], id) == ChildIds(nodes, id) {
      if id != q {
        assert Lookup(children, id) == ChildIds(nodes, id);
      }
    }
  }

  lemma LayoutAppend(nodes: seq<Node>, roots: nat, n: Node)
    requires Layout(nodes, roots)
    requires n.parentId.Some? && n.name == ChildName(|nodes| + 1)
    ensures Layout(nodes + [n], roots)
  {
    var nodes' := nodes + [n];
    forall i | 0 <= i < |nodes'| ensures nodes'[i].parentId.None? <==> i < roots {
      if i < |nodes| { assert nodes'[i] == nodes[i]; }
    }
    forall i | roots <= i < |nodes'| ensures nodes'[i].name == ChildName(i + 1) {
      if i < |nodes| { assert nodes'[i] == nodes[i]; }
    }
  }

  lemma ParentIndexAppend(g: Gen, roots: nat, maxNodes: nat, q: string, n: Node)
    requires Counted(g, maxNodes) && ParentIndex(g.nodes, g.parent, roots) && roots <= |g.nodes|
    requires n.id == NodeId(g.next) && n.parentId == Some(q)
    ensures ParentIndex(g.nodes + [n], g.parent[n.id := q], roots)
  {
    var nodes, parent := g.nodes + [n], g.parent[n.id := q];
    assert forall i :: 0 <= i < |g.nodes| ==> g.nodes[i].id != n.id by {
      forall i | 0 <= i < |g.nodes| ensures g.nodes[i].id != n.id {
        if g.nodes[i].id == n.id {
          NodeIdInjective(i + 1, g.next);
        }
      }
    }
    assert forall i :: 0 <= i < |nodes| ==> (nodes[i].id in parent <==> roots <= i) by {
      forall i | 0 <= i < |nodes| ensures nodes[i].id in parent <==> roots <= i {
        if i < |g.nodes| {
          assert nodes[i] == g.nodes[i];
        }
      }
    }
    assert forall i :: roots <= i < |nodes| ==> nodes[i].id in parent && Some(parent[nodes[i].id]) == nodes[i].parentId by {
      forall i | roots <= i < |nodes| ensures nodes[i].id in parent && Some(parent[nodes[i].id]) == nodes[i].parentId {
        if i < |g.nodes| {
          assert nodes[i] == g.nodes[i];
        }
      }
    }
    assert forall k :: k in parent ==> IndexOf(nodes, k) < |nodes| by {
      forall k | k in parent ensures IndexOf(nodes, k) < |nodes| {
        if k != n.id {
          IndexOfAppend(g.nodes, n, k);
        } else {
          assert nodes[|g.nodes|].id == n.id;
        }
      }
    }
  }

  /** The flag a node carries plays no part in the parent index. */
  lemma ParentIndexSameShape(nodes: seq<Node>, nodes': seq<Node>, parent: map<string, string>, roots: nat)
    requires ParentIndex(nodes, parent, roots) && SameShape(nodes, nodes')
    ensures ParentIndex(nodes', parent, roots)
  {
    forall id | id in parent ensures IndexOf(nodes', id) < |nodes'| {
      SameShapeIndexOf(nodes, nodes', id);
    }
  }

  lemma ChildrenAppend(children: map<string, seq<string>>, nodes: seq<Node>, q: string, kids: seq<string>, n: Node)
    requires ChildrenAgree(children[q := kids], nodes) && n.parentId == Some(q)
    ensures ChildrenAgree(children[q := kids + [n.id]], nodes + [n])
  {
    forall id: string ensures Lookup(children[q := kids + [n.id]], id) == ChildIds(nodes + [n], id) {
      ChildIdsAppend(nodes, n, id);
      assert Lookup(children[q := kids], id) == ChildIds(nodes, id);
    }
  }

  /** The state of the inner loop for the parent at position `done`, whose children so far are `kids`. */
  ghost predicate Filling(g: Gen, roots: nat, done: nat, maxNodes: nat, pos: seq<nat>, kids: seq<string>)
  {
    && Core(g, roots, done + 1, maxNodes, pos) && done < |g.nodes|
    && ChildrenAgree(g.children[NodeId(done + 1) := kids], g.nodes)
  }

  /**
   * The body of the inner loop: node_k (k the counter), named "Node k",
   * is stored with parent `q` and recorded in the parent index.
   */
  function AddChild(g: Gen, q: string, hc: bool): Gen
  {
    var id := NodeId(g.next);
    Gen(g.nodes + [Node(id, Some(q), ChildName(g.next), hc)], g.children, g.parent[id := q], g.next + 1)
  }

  /** One pass of the inner loop: a new child of the parent at position `done`. */
  lemma ChildStep(g: Gen, roots: nat, done: nat, maxNodes: nat, pos: seq<nat>, kids: seq<string>, hc: bool)
    requires Filling(g, roots, done, maxNodes, pos, kids)
    requires g.next <= maxNodes
    ensures Filling(AddChild(g, NodeId(done + 1), hc), roots, done, maxNodes, pos + [done], kids + [NodeId(g.next)])
  {
    var q := NodeId(done + 1);
    var n := Node(NodeId(g.next), Some(q), ChildName(g.next), hc);
    var g' := AddChild(g, q, hc);
    assert Counted(g', maxNodes) by {
      forall i | 0 <= i < |g'.nodes| ensures g'.nodes[i].id == NodeId(i + 1) {
        if i < |g.nodes| { assert g'.nodes[i] == g.nodes[i]; }
      }
    }
    assert Layout(g'.nodes, roots) by {
      LayoutAppend(g.nodes, roots, n);
    }
    assert Links(g'.nodes, roots, done + 1, pos + [done]) by {
      LinksAppend(g.nodes, roots, done, pos, n);
    }
    assert ParentIndex(g'.nodes, g'.parent, roots) by {
      ParentIndexAppend(g, roots, maxNodes, q, n);
    }
    ChildrenAppend(g.children, g.nodes, q, kids, n);
  }

  lemma LinksAppend(nodes: seq<Node>, roots: nat, done: nat, pos: seq<nat>, n: Node)
    requires Links(nodes, roots, done + 1, pos) && done < |nodes| && roots <= |nodes|
    requires n.parentId == Some(NodeId(done + 1))
    ensures Links(nodes + [n], roots, done + 1, pos + [done])
  {
    var nodes', pos' := nodes + [n], pos + [done];
    forall i | roots <= i < |nodes'|
      ensures pos'[i] < i && pos'[i] < done + 1 && nodes'[i].parentId == Some(NodeId(pos'[i] + 1))
    {
      if i < |nodes| { assert nodes'[i] == nodes[i] && pos'[i] == pos[i]; }
    }
  }

  /** A parent that received children gets its index entry. */
  lemma RecordChildren(g: Gen, roots: nat, done: nat, maxNodes: nat, pos: seq<nat>, q: string, kids: seq<string>)
    requires Core(g, roots, done, maxNodes, pos)
    requires ChildrenAgree(g.children[q := kids], g.nodes) && kids != []
    ensures Core(g.(children := g.children[q := kids]), roots, done, maxNodes, pos)
  {
  }

  /** A parent that received no child is flagged `hasChildren = false`; nothing else changes. */
  lemma MarkLeaf(g: Gen, roots: nat, done: nat, maxNodes: nat, pos: seq<nat>, q: string, at: nat)
    requires Core(g, roots, done, maxNodes, pos) && at < |g.nodes|
    requires ChildrenAgree(g.children[q := []], g.nodes) && q !in g.children
    ensures var g' := g.(nodes := g.nodes[at := g.nodes[at].(hasChildren := false)]);
      Core(g', roots, done, maxNodes, pos) && ChildrenAgree(g'.children, g'.nodes)
  {
    var nodes := g.nodes[at := g.nodes[at].(hasChildren := false)];
    assert SameShape(g.nodes, nodes);
    CoreSameShape(g, roots, done, maxNodes, pos, nodes);
    DropEmptyEntry(g.children, g.nodes, q);
    ChildrenAgreeSameShape(g.children, g.nodes, nodes);
  }

  /** An empty entry for an id that has none says nothing more. */
  lemma DropEmptyEntry(children: map<string, seq<string>>, nodes: seq<Node>, q: string)
    requires ChildrenAgree(children[q := []], nodes) && q !in children
    ensures ChildrenAgree(children, nodes)
  {
    forall id: string ensures Lookup(children, id) == ChildIds(nodes, id) {
      assert Lookup(children[q := []], id) == ChildIds(nodes, id);
    }
  }

  /** Whether a children index agrees with a table does not depend on the `hasChildren` flags. */
  lemma ChildrenAgreeSameShape(children: map<string, seq<string>>, a: seq<Node>, b: seq<Node>)
    requires ChildrenAgree(children, a) && SameShape(a, b)
    ensures ChildrenAgree(children, b)
  {
    forall id: string ensures Lookup(children, id) == ChildIds(b, id) {
      SameShapeChildIds(a, b, id);
    }
  }

  /** The generator invariant does not depend on the `hasChildren` flags. */
  lemma CoreSameShape(g: Gen, roots: nat, done: nat, maxNodes: nat, pos: seq<nat>, nodes: seq<Node>)
    requires Core(g, roots, done, maxNodes, pos) && SameShape(g.nodes, nodes)
    ensures Core(g.(nodes := nodes), roots, done, maxNodes, pos)
  {
    assert Counted(g.(nodes := nodes), maxNodes);
    assert Layout(nodes, roots);
    assert Links(nodes, roots, done, pos);
    ParentIndexSameShape(g.nodes, nodes, g.parent, roots);
  }

  /** The invariant at the end of generation makes a valid tree. */
  lemma CoreValid(g: Gen, roots: nat, done: nat, maxNodes: nat, pos: seq<nat>)
    requires Core(g, roots, done, maxNodes, pos) && ChildrenAgree(g.children, g.nodes)
    ensures Valid(GenTree(g))
  {
    NumberedIds(g.nodes);
    ParentsEarlier(g.nodes, g.parent, roots, done, pos);
    assert forall i :: 0 <= i < |g.nodes| ==>
      g.nodes[i].parentId == if g.nodes[i].id in g.parent then Some(g.parent[g.nodes[i].id]) else None;
  }

  /** Ids `node_1`, `node_2`, ... are non-empty and distinct. */
  lemma NumberedIds(nodes: seq<Node>)
    requires forall i :: 0 <= i < |nodes| ==> nodes[i].id == NodeId(i + 1)
    ensures forall i :: 0 <= i < |nodes| ==> nodes[i].id != ""
    ensures forall i, j :: 0 <= i < j < |nodes| ==> nodes[i].id != nodes[j].id
  {
    forall i, j | 0 <= i < j < |nodes| ensures nodes[i].id != nodes[j].id {
      if nodes[i].id == nodes[j].id {
        NodeIdInjective(i + 1, j + 1);
      }
    }
  }

  /** Every recorded parent sits earlier in the table than its child. */
  lemma ParentsEarlier(nodes: seq<Node>, parent: map<string, string>, roots: nat, done: nat, pos: seq<nat>)
    requires forall i :: 0 <= i < |nodes| ==> nodes[i].id == NodeId(i + 1)
    requires Links(nodes, roots, done, pos) && ParentIndex(nodes, parent, roots)
    ensures forall id :: id in parent ==> IndexOf(nodes, parent[id]) < IndexOf(nodes, id) < |nodes|
  {
    forall id | id in parent ensures IndexOf(nodes, parent[id]) < IndexOf(nodes, id) < |nodes| {
      ParentEarlier(nodes, parent, roots, done, pos, id);
    }
  }

  lemma ParentEarlier(nodes: seq<Node>, parent: map<string, string>, roots: nat, done: nat, pos: seq<nat>, id: string)
    requires forall i :: 0 <= i < |nodes| ==> nodes[i].id == NodeId(i + 1)
    requires Links(nodes, roots, done, pos) && ParentIndex(nodes, parent, roots)
    requires id in parent
    ensures IndexOf(nodes, parent[id]) < IndexOf(nodes, id) < |nodes|
  {
    var i := IndexOf(nodes, id);
    assert i < |nodes|;
    assert nodes[i].id == id;
    assert roots <= i;
    var up := pos[i];
    assert up < i && nodes[i].parentId == Some(NodeId(up + 1));
    assert nodes[up].id == parent[id];
  }

  /** The root loop: up to `breadth` roots, all flagged `hasChildren`, while the cap allows. */
  method SeedRoots(breadth: nat, maxNodes: nat) returns (g: Gen, rootIds: seq<string>, ghost pos: seq<nat>)
    ensures Core(g, |g.nodes|, 0, maxNodes, pos) && g.children == map[] && g.parent == map[]
    ensures |g.nodes| == Min(breadth, maxNodes)
    ensures rootIds == IdRange(1, g.next)
    ensures forall k :: 0 <= k < |g.nodes| ==> g.nodes[k].hasChildren
  {
    g := Gen([], map[], map[], 1);
    pos := [];
    rootIds := [];
    var i := 0;
    while i < breadth && g.next <= maxNodes
      invariant i == |g.nodes| <= breadth
      invariant RootsSoFar(g, maxNodes, pos)
      invariant rootIds == IdRange(1, g.next)
    {
      var id := NodeId(g.next);
      RootStep(g, maxNodes, pos);
      IdRangeAppend(1, g.next, g.next + 1);
      g := Gen(g.nodes + [Node(id, None, RootName(i), true)], g.children, g.parent, g.next + 1);
      pos := pos + [0];
      rootIds := rootIds + [id];
      i := i + 1;
    }
  }

  /**
   * The inner loop for one parent: up to `count` children, each flagged
   * `hasChildren` when not on the last level and the cap is not yet reached.
   */
  method AddChildren(g: Gen, parentId: string, count: int, currentDepth: nat, depth: nat, maxNodes: nat,
                     ghost roots: nat, ghost done: nat, ghost pos: seq<nat>)
    returns (g': Gen, kids: seq<string>, ghost pos': seq<nat>)
    requires Core(g, roots, done + 1, maxNodes, pos) && done < |g.nodes| && parentId == NodeId(done + 1)
    requires ChildrenAgree(g.children[parentId := []], g.nodes) && parentId !in g.children
    ensures Filling(g', roots, done, maxNodes, pos', kids) && g'.children == g.children
    ensures g.next <= g'.next && kids == IdRange(g.next, g'.next)
    ensures |kids| == Max(0, Min(count, maxNodes - g.next + 1))
  {
    g', kids, pos' := g, [], pos;
    var k := 0;
    while k < count && g'.next <= maxNodes
      invariant g.next <= g'.next && kids == IdRange(g.next, g'.next)
      invariant k == g'.next - g.next <= Max(0, count)
      invariant Filling(g', roots, done, maxNodes, pos', kids) && g'.children == g.children
    {
      var hc := currentDepth < depth - 1 && g'.next + 1 <= maxNodes;
      ChildStep(g', roots, done, maxNodes, pos', kids, hc);
      IdRangeAppend(g.next, g'.next, g'.next + 1);
      kids := kids + [NodeId(g'.next)];
      g' := AddChild(g', parentId, hc);
      pos' := pos' + [done];
      k := k + 1;
    }
  }

  /**
   * After a parent's inner loop: the children it received go into the
   * children index, or, when it received none, the parent at position `at`
   * is flagged `hasChildren = false`.
   */
  function CloseParent(g: Gen, parentId: string, kids: seq<string>, at: nat): (r: Gen)
    requires at < |g.nodes|
    ensures |r.nodes| == |g.nodes| && SameShape(g.nodes, r.nodes) && r.parent == g.parent && r.next == g.next
    ensures |kids| > 0 ==> r.nodes == g.nodes && Lookup(r.children, parentId) == kids
    ensures |kids| == 0 ==> r.children == g.children && !r.nodes[at].hasChildren
  {
    if |kids| > 0 then g.(children := g.children[parentId := kids])
    else g.(nodes := g.nodes[at := g.nodes[at].(hasChildren := false)])
  }

  /** Closing a filled parent restores the generator invariant, one parent further on. */
  lemma CloseParentKeepsCore(g: Gen, roots: nat, done: nat, maxNodes: nat, pos: seq<nat>, kids: seq<string>, at: nat)
    requires Filling(g, roots, done, maxNodes, pos, kids) && NodeId(done + 1) !in g.children && at < |g.nodes|
    ensures var g' := CloseParent(g, NodeId(done + 1), kids, at);
      Core(g', roots, done + 1, maxNodes, pos) && ChildrenAgree(g'.children, g'.nodes)
  {
    if |kids| > 0 {
      RecordChildren(g, roots, done + 1, maxNodes, pos, NodeId(done + 1), kids);
    } else {
      MarkLeaf(g, roots, done + 1, maxNodes, pos, NodeId(done + 1), at);
    }
  }

  /**
   * One parent of the level being expanded: look it up, create its
   * children, then record them in the children index or flag the parent
   * as childless.
   */
  method ExpandParent(g: Gen, parentId: string, breadth: nat, currentDepth: nat, depth: nat, maxNodes: nat,
                      ghost roots: nat, ghost done: nat, ghost pos: seq<nat>)
    returns (g': Gen, kids: seq<string>, ghost pos': seq<nat>)
    requires Core(g, roots, done, maxNodes, pos) && ChildrenAgree(g.children, g.nodes)
    requires done < |g.nodes| && parentId == NodeId(done + 1)
    ensures Core(g', roots, done + 1, maxNodes, pos') && ChildrenAgree(g'.children, g'.nodes)
    ensures g.next <= g'.next && kids == IdRange(g.next, g'.next)
    ensures |kids| == Min(breadth, maxNodes - g.next + 1)
  {
    g', kids, pos' := g, [], pos;
    IdsIndex(g.nodes, done + 1);
    var idx := IndexOf(g.nodes, parentId);
    if idx < |g.nodes| {
      var childrenCount := Min(breadth, maxNodes - g.next + 1);
      OpenParent(g, roots, done, maxNodes, pos);
      g', kids, pos' := AddChildren(g, parentId, childrenCount, currentDepth, depth, maxNodes, roots, done, pos);
      assert |kids| == childrenCount;
      CloseParentKeepsCore(g', roots, done, maxNodes, pos', kids, idx);
      g' := CloseParent(g', parentId, kids, idx);
    }
  }

  /**
   * Filling parents in turn, each with up to `breadth` children from a
   * shared room: after j + 1 parents, min(breadth * (j + 1), room) children.
   */
  lemma FillStep(breadth: nat, j: nat, room: int)
    requires room >= 0
    ensures Min(breadth * j, room) + Min(breadth, room - Min(breadth * j, room)) == Min(breadth * (j + 1), room)
  {
    assert breadth * (j + 1) == breadth * j + breadth;
  }

  /** One pass of the level loop: every parent of the level in turn; their children form the next level. */
  method ExpandLevel(g: Gen, level: seq<string>, breadth: nat, currentDepth: nat, depth: nat, maxNodes: nat,
                     ghost roots: nat, ghost done: nat, ghost pos: seq<nat>)
    returns (g': Gen, nextLevel: seq<string>, ghost done': nat, ghost pos': seq<nat>)
    requires Core(g, roots, done, maxNodes, pos) && ChildrenAgree(g.children, g.nodes)
    requires done + 1 <= g.next && level == IdRange(done + 1, g.next)
    ensures Core(g', roots, done', maxNodes, pos') && ChildrenAgree(g'.children, g'.nodes)
    ensures g.next <= g'.next && done' + 1 == g.next && nextLevel == IdRange(g.next, g'.next)
    ensures |nextLevel| == Min(breadth * |level|, maxNodes + 1 - g.next)
  {
    g', nextLevel, done', pos' := g, [], done, pos;
    var j := 0;
    while j < |level|
      invariant 0 <= j <= |level| && done' == done + j
      invariant g.next <= g'.next && nextLevel == IdRange(g.next, g'.next)
      invariant |nextLevel| == Min(breadth * j, maxNodes + 1 - g.next)
      invariant Core(g', roots, done', maxNodes, pos') && ChildrenAgree(g'.children, g'.nodes)
    {
      var kids;
      ghost var before := g'.next;
      g', kids, pos' := ExpandParent(g', level[j], breadth, currentDepth, depth, maxNodes, roots, done', pos');
      FillStep(breadth, j, maxNodes + 1 - g.next);
      IdRangeAppend(g.next, before, g'.next);
      nextLevel := nextLevel + kids;
      done' := done' + 1;
      j := j + 1;
    }
  }

  /** 1 + ... + breadth^d nodes: every level from the roots down to level d, full. */
  function LevelsTotal(breadth: nat, d: nat): nat
  {
    if d == 0 then 0 else LevelsTotal(breadth, d - 1) + Pow(breadth, d)
  }

  lemma {:induction false} PowPositive(breadth: nat, d: nat)
    requires breadth >= 1
    ensures Pow(breadth, d) >= 1
  {
    if d > 0 {
      PowPositive(breadth, d - 1);
    }
  }

  lemma {:induction false} PowMonotone(breadth: nat, lo: nat, hi: nat)
    requires breadth >= 1 && lo <= hi
    ensures Pow(breadth, lo) <= Pow(breadth, hi)
    decreases hi
  {
    if lo < hi {
      PowMonotone(breadth, lo, hi - 1);
      var p := Pow(breadth, hi - 1);
      assert Pow(breadth, hi) == breadth * p;
      MulAtLeast(breadth, p);
    }
  }

  lemma MulAtLeast(a: nat, p: nat)
    requires a >= 1
    ensures a * p >= p
  {
    assert a * p == p + (a - 1) * p;
  }

  /**
   * The level loop's count: either the cap is reached, or levels 1..d are
   * all full and the last of them, of breadth^d nodes, is the one to expand.
   */
  ghost predicate Filled(breadth: nat, d: nat, count: nat, levelSize: nat, maxNodes: nat)
  {
    count == maxNodes || (count == LevelsTotal(breadth, d) < maxNodes && levelSize == Pow(breadth, d))
  }

  /** The roots alone: the cap, or one full level of `breadth` nodes. */
  lemma RootsFilled(breadth: nat, count: nat, maxNodes: nat)
    requires breadth >= 1 && count == Min(breadth, maxNodes)
    ensures Filled(breadth, 1, count, count, maxNodes)
  {
    assert Pow(breadth, 1) == breadth * Pow(breadth, 0) == breadth;
    assert LevelsTotal(breadth, 1) == LevelsTotal(breadth, 0) + Pow(breadth, 1) == breadth;
  }

  /** Expanding a full level of breadth^d parents fills the next level, or reaches the cap. */
  lemma LevelStep(breadth: nat, d: nat, count: nat, added: nat, maxNodes: nat)
    requires breadth >= 1 && count < maxNodes
    requires Filled(breadth, d, count, Pow(breadth, d), maxNodes)
    requires added == Min(breadth * Pow(breadth, d), maxNodes - count)
    ensures Filled(breadth, d + 1, count + added, added, maxNodes)
  {
    assert Pow(breadth, d + 1) == breadth * Pow(breadth, d);
  }

  /** Once the levels reach the requested depth, they hold at least the cap. */
  lemma LevelsReachCap(breadth: nat, depth: nat, d: nat)
    requires breadth >= 1 && 1 <= d && depth <= d
    ensures LevelsTotal(breadth, d) >= MaxNodes(breadth, depth)
  {
    PowMonotone(breadth, depth, d);
  }

  /**
   * `seedTree` as written: roots first, then level by level, each parent
   * of the current level given up to `breadth` children while the cap
   * allows. A child is flagged `hasChildren` when it is not on the last
   * level and the cap is not yet reached; a parent that receives no child
   * is flagged false. Nodes of the level the loop stops at keep the flag
   * they were created with: with depth 1 every root is flagged though none
   * has a child.
   */
  method SeedTreeAsWritten(breadth: nat, depth: nat) returns (t: Tree)
    ensures Valid(t) && Generated(t, breadth, depth)
    ensures depth == 1 ==> forall i :: 0 <= i < |t.nodes| ==>
      t.nodes[i].hasChildren && ChildIds(t.nodes, t.nodes[i].id) == []
  {
    var maxNodes := MaxNodes(breadth, depth);
    var g, level, pos := SeedRoots(breadth, maxNodes);
    ghost var roots := |g.nodes|;
    RootsHaveNoChildren(g.nodes);
    var grown;
    ghost var done, pos';
    grown, done, pos' := GrowLevels(g, level, breadth, depth, maxNodes, roots, pos);
    t := GenTree(grown);
    CoreValid(grown, roots, done, maxNodes, pos');
    if depth == 1 {
      forall k | 0 <= k < |t.nodes| ensures ChildIds(t.nodes, t.nodes[k].id) == [] {
        NoChildren(t.nodes, t.nodes[k].id);
      }
    }
  }

  /**
   * The level loop of `seedTree`: while the current level is non-empty,
   * the requested depth is not reached and the cap allows, expand the
   * level. For breadth at least 1 it stops exactly at the cap; with depth
   * at most 1 it does nothing.
   */
  method GrowLevels(g: Gen, level: seq<string>, breadth: nat, depth: nat, maxNodes: nat,
                    ghost roots: nat, ghost pos: seq<nat>)
    returns (g': Gen, ghost done: nat, ghost pos': seq<nat>)
    requires Core(g, roots, 0, maxNodes, pos) && ChildrenAgree(g.children, g.nodes)
    requires level == IdRange(1, g.next)
    requires maxNodes == MaxNodes(breadth, depth) && |g.nodes| == Min(breadth, maxNodes)
    ensures Core(g', roots, done, maxNodes, pos') && ChildrenAgree(g'.children, g'.nodes)
    ensures depth <= 1 ==> g' == g
    ensures breadth >= 1 ==> |g'.nodes| == maxNodes
  {
    g', done, pos' := g, 0, pos;
    var currentLevel := level;
    var currentDepth := 1;
    if breadth >= 1 {
      RootsFilled(breadth, |g.nodes|, maxNodes);
    }
    while |currentLevel| > 0 && currentDepth < depth && g'.next <= maxNodes
      invariant Core(g', roots, done, maxNodes, pos') && ChildrenAgree(g'.children, g'.nodes)
      invariant done + 1 <= g'.next && currentLevel == IdRange(done + 1, g'.next)
      invariant 1 <= currentDepth && (currentDepth == 1 || currentDepth <= depth)
      invariant depth <= 1 ==> g' == g
      invariant breadth >= 1 ==> Filled(breadth, currentDepth, |g'.nodes|, |currentLevel|, maxNodes)
      decreases depth - currentDepth
    {
      ghost var before := |g'.nodes|;
      assert before < maxNodes;
      g', currentLevel, done, pos' := ExpandLevel(g', currentLevel, breadth, currentDepth, depth, maxNodes, roots, done, pos');
      assert |g'.nodes| == before + |currentLevel|;
      if breadth >= 1 {
        LevelStep(breadth, currentDepth, before, |currentLevel|, maxNodes);
      }
      currentDepth := currentDepth + 1;
    }
    if breadth >= 1 {
      PowPositive(breadth, currentDepth);
      if currentDepth >= depth {
        LevelsReachCap(breadth, depth, currentDepth);
      }
    }
  }

  /** Sets each node's `hasChildren` to whether the children index lists any child for it. */
  function MarkParents(t: Tree): (r: Tree)
    ensures r.children == t.children && r.parent == t.parent && SameShape(t.nodes, r.nodes)
    ensures forall i :: 0 <= i < |r.nodes| ==>
      (r.nodes[i].hasChildren <==> Lookup(t.children, t.nodes[i].id) != [])
  {
    var nodes := seq(|t.nodes|, i requires 0 <= i < |t.nodes| =>
      t.nodes[i].(hasChildren := Lookup(t.children, t.nodes[i].id) != []));
    Tree(nodes, t.children, t.parent)
  }

  /**
   * `seedTree` with the flag the generator evidently intends: a node is
   * flagged `hasChildren` exactly when `getNodeChildren` returns something
   * for it. Everything else is as generated: cap = min(breadth^depth,
   * 10000) nodes (none when breadth is 0) named node_1, node_2, ..., the
   * first min(breadth, cap) of them the roots, and the count returned is
   * the number of nodes.
   */
  method SeedTree(breadth: nat, depth: nat) returns (t: Tree, count: nat)
    ensures Valid(t) && Generated(t, breadth, depth) && count == |t.nodes|
    ensures breadth >= 1 ==> count == MaxNodes(breadth, depth)
    ensures GetRootNodes(t) == t.nodes[..Min(breadth, MaxNodes(breadth, depth))]
    ensures forall i :: 0 <= i < |t.nodes| ==>
      (t.nodes[i].hasChildren <==> GetNodeChildren(t, t.nodes[i].id) != [])
  {
    var raw := SeedTreeAsWritten(breadth, depth);
    t := MarkParents(raw);
    count := |t.nodes|;
    MarkedFlags(raw);
    GeneratedSameShape(raw, t, breadth, depth);
    RootsArePrefix(t.nodes, Min(breadth, MaxNodes(breadth, depth)));
  }

  /** After marking, a valid tree stays valid and each flag says whether the node has children. */
  lemma MarkedFlags(t: Tree)
    requires Valid(t)
    ensures Valid(MarkParents(t))
    ensures forall i :: 0 <= i < |t.nodes| ==>
      (MarkParents(t).nodes[i].hasChildren <==> GetNodeChildren(MarkParents(t), t.nodes[i].id) != [])
  {
    var u := MarkParents(t);
    ValidSameShape(t, u.nodes);
    assert u == Tree(u.nodes, t.children, t.parent);
    forall i | 0 <= i < |t.nodes|
      ensures u.nodes[i].hasChildren <==> GetNodeChildren(u, t.nodes[i].id) != []
    {
      var id := t.nodes[i].id;
      ChildrenQuery(u, id);
      assert Lookup(u.children, id) == ChildIds(u.nodes, id);
    }
  }
}
