/** The mock file tree of the explorer panel: the `FileNode` forest held in
    component state, and the immutable updates applied to it when a folder is
    clicked, a file or folder is created from the context menu, or a node is
    deleted; plus the rule deciding which nodes are drawn and how far they are
    indented. */
module FileExplorer {
  import opened Wrappers
  import opened Sequences

  datatype Kind = File | Folder

  /** A `FileNode`. The source's `children`, `isExpanded` and `content` fields
      are optional; `None` and `Absent` stand for `undefined`. */
  datatype Node = Node(
    id: string,
    name: string,
    kind: Kind,
    children: Children,
    expanded: Option<bool>,
    content: Option<string>)

  /** The optional `children` array. An empty `Present([])` is still truthy in
      the source, so `if (node.children)` descends into it. */
  datatype Children = Absent | Present(nodes: seq<Node>)

  /** `node.isExpanded` read as a condition: a missing flag counts as false. */
  predicate IsExpanded(n: Node) {
    n.expanded == Some(true)
  }

  /** `node.children || []` */
  function Kids(n: Node): seq<Node> {
    match n.children
    case Absent => []
    case Present(ns) => ns
  }

  // ---------------------------------------------------------------------------
  // Observations of a forest: ids in pre-order, folder membership, lookup

  /** The ids of every node of the forest, in pre-order (a node before its children). */
  function Ids(ns: seq<Node>): seq<string> {
    if ns == [] then [] else NodeIds(ns[0]) + Ids(ns[1..])
  }

  function NodeIds(n: Node): seq<string> {
    [n.id] + match n.children
             case Absent => []
             case Present(cs) => Ids(cs)
  }

  /** The number of nodes in the forest. */
  function Count(ns: seq<Node>): nat {
    |Ids(ns)|
  }

  /** Some folder in the forest has this id. */
  predicate HasFolder(ns: seq<Node>, id: string) {
    ns != [] && (NodeHasFolder(ns[0], id) || HasFolder(ns[1..], id))
  }

  predicate NodeHasFolder(n: Node, id: string) {
    (n.id == id && n.kind == Folder) ||
    match n.children
    case Absent => false
    case Present(cs) => HasFolder(cs, id)
  }

  /** The first node with this id in pre-order. */
  function Find(ns: seq<Node>, id: string): Option<Node> {
    if ns == [] then None
    else match FindIn(ns[0], id)
      case Some(n) => Some(n)
      case None => Find(ns[1..], id)
  }

  function FindIn(n: Node, id: string): Option<Node> {
    if n.id == id then Some(n)
    else match n.children
      case Absent => None
      case Present(cs) => Find(cs, id)
  }

  lemma {:induction false} IdsConcat(a: seq<Node>, b: seq<Node>)
    ensures Ids(a + b) == Ids(a) + Ids(b)
  {
    if a == [] {
      assert a + b == b;
    } else {
      assert (a + b)[0] == a[0];
      assert (a + b)[1..] == a[1..] + b;
      IdsConcat(a[1..], b);
    }
  }

  lemma {:induction false} IdsSingleton(n: Node)
    ensures Ids([n]) == NodeIds(n)
  {
    assert [n][1..] == [];
  }

  lemma {:induction false} HasFolderHasId(ns: seq<Node>, id: string)
    requires HasFolder(ns, id)
    ensures id in Ids(ns)
    decreases ns
  {
    if NodeHasFolder(ns[0], id) {
      NodeHasFolderHasId(ns[0], id);
    } else {
      HasFolderHasId(ns[1..], id);
    }
  }

  lemma {:induction false} NodeHasFolderHasId(n: Node, id: string)
    requires NodeHasFolder(n, id)
    ensures id in NodeIds(n)
    decreases n
  {
    if n.id != id || n.kind != Folder {
      HasFolderHasId(n.children.nodes, id);
    }
  }

  /** Lookup succeeds exactly for the ids in the forest, and returns a node with that id. */
  lemma {:induction false} FindMeansPresent(ns: seq<Node>, id: string)
    ensures Find(ns, id).Some? <==> id in Ids(ns)
    ensures Find(ns, id).Some? ==> Find(ns, id).value.id == id
    decreases ns
  {
    if ns != [] {
      FindInMeansPresent(ns[0], id);
      FindMeansPresent(ns[1..], id);
    }
  }

  lemma {:induction false} FindInMeansPresent(n: Node, id: string)
    ensures FindIn(n, id).Some? <==> id in NodeIds(n)
    ensures FindIn(n, id).Some? ==> FindIn(n, id).value.id == id
    decreases n
  {
    if n.id != id && n.children.Present? {
      FindMeansPresent(n.children.nodes, id);
    }
  }

  // ---------------------------------------------------------------------------
  // toggleFolder / updateNode

  /** `updateNode`: every folder carrying the id has its expansion flag
      inverted. A matching folder is returned without visiting its children;
      any other node with a `children` array has it updated recursively. */
  function Toggle(ns: seq<Node>, id: string): (r: seq<Node>)
    ensures |r| == |ns|
  {
    if ns == [] then [] else [ToggleNode(ns[0], id)] + Toggle(ns[1..], id)
  }

  function ToggleNode(n: Node, id: string): Node {
    if n.id == id && n.kind == Folder then n.(expanded := Some(!IsExpanded(n)))
    else match n.children
      case Absent => n
      case Present(cs) => n.(children := Present(Toggle(cs, id)))
  }

  /** The forest with every expansion flag erased: what a toggle may not change. */
  function Erase(ns: seq<Node>): seq<Node> {
    if ns == [] then [] else [EraseNode(ns[0])] + Erase(ns[1..])
  }

  function EraseNode(n: Node): Node {
    match n.children
    case Absent => n.(expanded := None)
    case Present(cs) => n.(expanded := None, children := Present(Erase(cs)))
  }

  /** One node's own attributes at its depth, without its children. */
  datatype Entry = Entry(id: string, name: string, kind: Kind, content: Option<string>, expanded: bool, depth: nat)

  /** The pre-order listing of every node's attributes, with depth. Together
      the entries fix every id, name, kind, content, flag and the child order. */
  function Outline(ns: seq<Node>, depth: nat): (r: seq<Entry>)
  {
    if ns == [] then [] else NodeOutline(ns[0], depth) + Outline(ns[1..], depth)
  }

  function NodeOutline(n: Node, depth: nat): seq<Entry> {
    [Entry(n.id, n.name, n.kind, n.content, IsExpanded(n), depth)] +
    match n.children
    case Absent => []
    case Present(cs) => Outline(cs, depth + 1)
  }

  lemma {:induction false} OutlineConcat(a: seq<Node>, b: seq<Node>, depth: nat)
    ensures Outline(a + b, depth) == Outline(a, depth) + Outline(b, depth)
  {
    if a == [] {
      assert a + b == b;
    } else {
      assert (a + b)[0] == a[0];
      assert (a + b)[1..] == a[1..] + b;
      OutlineConcat(a[1..], b, depth);
    }
  }

  /** `after` is `before` with the block `a`, found at index `k`, replaced by `b`:
      every entry outside the block is kept, in place and in order. */
  predicate Spliced(before: seq<Entry>, after: seq<Entry>, a: seq<Entry>, b: seq<Entry>, k: nat) {
    k + |a| <= |before| && before[k..k + |a|] == a && after == before[..k] + b + before[k + |a|..]
  }

  lemma SplicedAppend(before: seq<Entry>, after: seq<Entry>, a: seq<Entry>, b: seq<Entry>, k: nat, z: seq<Entry>,
                      before': seq<Entry>, after': seq<Entry>, a': seq<Entry>, b': seq<Entry>, k': nat)
    requires Spliced(before, after, a, b, k)
    requires before' == before + z && after' == after + z && a' == a && b' == b && k' == k
    ensures Spliced(before', after', a', b', k')
  {
    assert (before + z)[k..k + |a|] == before[k..k + |a|];
    assert (before + z)[..k] == before[..k];
    assert (before + z)[k + |a|..] == before[k + |a|..] + z;
  }

  lemma SplicedPrepend(before: seq<Entry>, after: seq<Entry>, a: seq<Entry>, b: seq<Entry>, k: nat, z: seq<Entry>,
                       before': seq<Entry>, after': seq<Entry>, a': seq<Entry>, b': seq<Entry>, k': nat)
    requires Spliced(before, after, a, b, k)
    requires before' == z + before && after' == z + after && a' == a && b' == b && k' == |z| + k
    ensures Spliced(before', after', a', b', k')
  {
    assert (z + before)[|z| + k..|z| + k + |a|] == before[k..k + |a|];
    assert (z + before)[..|z| + k] == z + before[..k];
    assert (z + before)[|z| + k + |a|..] == before[k + |a|..];
  }

  /** The reference effect of a toggle on one entry: a folder with the id flips. */
  function Flip(e: Entry, id: string): Entry {
    if e.id == id && e.kind == Folder then e.(expanded := !e.expanded) else e
  }

  function FlipAll(es: seq<Entry>, id: string): (r: seq<Entry>)
    ensures |r| == |es|
    ensures forall k :: 0 <= k < |es| ==> r[k] == Flip(es[k], id)
  {
    if es == [] then [] else [Flip(es[0], id)] + FlipAll(es[1..], id)
  }

  lemma {:induction false} FlipAllConcat(a: seq<Entry>, b: seq<Entry>, id: string)
    ensures FlipAll(a + b, id) == FlipAll(a, id) + FlipAll(b, id)
  {
  }

  lemma {:induction false} FlipAllAbsent(ns: seq<Node>, id: string, depth: nat)
    requires id !in Ids(ns)
    ensures FlipAll(Outline(ns, depth), id) == Outline(ns, depth)
    decreases ns
  {
    if ns != [] {
      NodeFlipAllAbsent(ns[0], id, depth);
      FlipAllAbsent(ns[1..], id, depth);
      FlipAllConcat(NodeOutline(ns[0], depth), Outline(ns[1..], depth), id);
    }
  }

  lemma {:induction false} NodeFlipAllAbsent(n: Node, id: string, depth: nat)
    requires id !in NodeIds(n)
    ensures FlipAll(NodeOutline(n, depth), id) == NodeOutline(n, depth)
    decreases n
  {
    var head := [Entry(n.id, n.name, n.kind, n.content, IsExpanded(n), depth)];
    match n.children
    case Absent =>
    case Present(cs) =>
      FlipAllAbsent(cs, id, depth + 1);
      FlipAllConcat(head, Outline(cs, depth + 1), id);
  }

  /** A toggle whose id names no folder changes nothing: that covers an absent id
      and an id that belongs only to files. */
  lemma {:induction false} ToggleAbsent(ns: seq<Node>, id: string)
    requires !HasFolder(ns, id)
    ensures Toggle(ns, id) == ns
    decreases ns
  {
    if ns != [] {
      ToggleNodeAbsent(ns[0], id);
      ToggleAbsent(ns[1..], id);
    }
  }

  lemma {:induction false} ToggleNodeAbsent(n: Node, id: string)
    requires !NodeHasFolder(n, id)
    ensures ToggleNode(n, id) == n
    decreases n
  {
    match n.children
    case Absent =>
    case Present(cs) => ToggleAbsent(cs, id);
  }

  /** A toggle keeps the tree's shape: the same nodes with the same ids, names,
      kinds, contents, `children` arrays and child order; only flags may differ. */
  lemma {:induction false} ToggleKeepsShape(ns: seq<Node>, id: string)
    ensures Erase(Toggle(ns, id)) == Erase(ns)
    decreases ns
  {
    if ns != [] {
      ToggleNodeKeepsShape(ns[0], id);
      ToggleKeepsShape(ns[1..], id);
    }
  }

  lemma {:induction false} ToggleNodeKeepsShape(n: Node, id: string)
    ensures EraseNode(ToggleNode(n, id)) == EraseNode(n)
    decreases n
  {
    if !(n.id == id && n.kind == Folder) {
      match n.children
      case Absent =>
      case Present(cs) => ToggleKeepsShape(cs, id);
    }
  }

  /** With distinct ids, a toggle flips exactly the flag of the folder carrying
      the id (a missing flag reads as false) and leaves every other entry of
      the pre-order listing as it was. */
  lemma {:induction false} ToggleFlipsOnlyMatch(ns: seq<Node>, id: string, depth: nat)
    requires NoDuplicates(Ids(ns))
    ensures Outline(Toggle(ns, id), depth) == FlipAll(Outline(ns, depth), id)
    decreases ns
  {
    if ns != [] {
      NoDuplicatesSplit(NodeIds(ns[0]), Ids(ns[1..]));
      ToggleNodeFlipsOnlyMatch(ns[0], id, depth);
      ToggleFlipsOnlyMatch(ns[1..], id, depth);
      FlipAllConcat(NodeOutline(ns[0], depth), Outline(ns[1..], depth), id);
      assert Toggle(ns, id)[0] == ToggleNode(ns[0], id);
      assert Toggle(ns, id)[1..] == Toggle(ns[1..], id);
    }
  }

  lemma {:induction false} ToggleNodeFlipsOnlyMatch(n: Node, id: string, depth: nat)
    requires NoDuplicates(NodeIds(n))
    ensures NodeOutline(ToggleNode(n, id), depth) == FlipAll(NodeOutline(n, depth), id)
    decreases n
  {
    var head := [Entry(n.id, n.name, n.kind, n.content, IsExpanded(n), depth)];
    match n.children
    case Absent =>
    case Present(cs) =>
      NoDuplicatesSplit([n.id], Ids(cs));
      FlipAllConcat(head, Outline(cs, depth + 1), id);
      if n.id == id && n.kind == Folder {
        FlipAllAbsent(cs, id, depth + 1);
      } else {
        ToggleFlipsOnlyMatch(cs, id, depth + 1);
      }
  }

  /** Toggling the same id twice restores every flag and every other attribute. */
  lemma {:induction false} ToggleTwice(ns: seq<Node>, id: string, depth: nat)
    ensures Outline(Toggle(Toggle(ns, id), id), depth) == Outline(ns, depth)
    decreases ns
  {
    if ns != [] {
      ToggleNodeTwice(ns[0], id, depth);
      ToggleTwice(ns[1..], id, depth);
      var once := Toggle(ns, id);
      assert once[0] == ToggleNode(ns[0], id) && once[1..] == Toggle(ns[1..], id);
    }
  }

  lemma {:induction false} ToggleNodeTwice(n: Node, id: string, depth: nat)
    ensures NodeOutline(ToggleNode(ToggleNode(n, id), id), depth) == NodeOutline(n, depth)
    decreases n
  {
    if !(n.id == id && n.kind == Folder) {
      match n.children
      case Absent =>
      case Present(cs) => ToggleTwice(cs, id, depth + 1);
    }
  }

  /** The first node carrying the id, when it is a folder, is found again with
      its flag inverted. */
  lemma {:induction false} ToggleFindsFlipped(ns: seq<Node>, id: string)
    requires Find(ns, id).Some? && Find(ns, id).value.kind == Folder
    ensures Find(Toggle(ns, id), id) == Some(Find(ns, id).value.(expanded := Some(!IsExpanded(Find(ns, id).value))))
    decreases ns
  {
    var t := Toggle(ns, id);
    assert t[0] == ToggleNode(ns[0], id) && t[1..] == Toggle(ns[1..], id);
    if FindIn(ns[0], id).Some? {
      ToggleNodeFindsFlipped(ns[0], id);
    } else {
      FindInMeansPresent(ns[0], id);
      if NodeHasFolder(ns[0], id) {
        NodeHasFolderHasId(ns[0], id);
      }
      ToggleNodeAbsent(ns[0], id);
      ToggleFindsFlipped(ns[1..], id);
    }
  }

  lemma {:induction false} ToggleNodeFindsFlipped(n: Node, id: string)
    requires FindIn(n, id).Some? && FindIn(n, id).value.kind == Folder
    ensures FindIn(ToggleNode(n, id), id) == Some(FindIn(n, id).value.(expanded := Some(!IsExpanded(FindIn(n, id).value))))
    decreases n
  {
    if n.id != id {
      ToggleFindsFlipped(n.children.nodes, id);
    }
  }

  // ---------------------------------------------------------------------------
  // createNewFile / createNewFolder / addToParent

  /** The node `createNewFile` adds, with the caller-supplied id (`Date.now()` in the source). */
  function NewFile(id: string): Node {
    Node(id, "new-file.js", File, Absent, None, Some("// New file\n"))
  }

  /** The node `createNewFolder` adds: empty, collapsed. */
  function NewFolder(id: string): Node {
    Node(id, "new-folder", Folder, Present([]), Some(false), None)
  }

  /** A matching folder after `addToParent`: the new node is its last child and it is expanded. */
  function WithChild(p: Node, child: Node): Node {
    p.(children := Present(Kids(p) + [child]), expanded := Some(true))
  }

  /** `addToParent`: every folder carrying the parent id gets `child` appended
      and is expanded; a matching folder's own children are not visited. */
  function Add(ns: seq<Node>, parentId: string, child: Node): (r: seq<Node>)
    ensures |r| == |ns|
  {
    if ns == [] then [] else [AddNode(ns[0], parentId, child)] + Add(ns[1..], parentId, child)
  }

  function AddNode(n: Node, parentId: string, child: Node): Node {
    if n.id == parentId && n.kind == Folder then WithChild(n, child)
    else match n.children
      case Absent => n
      case Present(cs) => n.(children := Present(Add(cs, parentId, child)))
  }

  /** Adding under an id that names no folder (absent, or a file) changes nothing. */
  lemma {:induction false} AddAbsent(ns: seq<Node>, parentId: string, child: Node)
    requires !HasFolder(ns, parentId)
    ensures Add(ns, parentId, child) == ns
    decreases ns
  {
    if ns != [] {
      AddNodeAbsent(ns[0], parentId, child);
      AddAbsent(ns[1..], parentId, child);
    }
  }

  lemma {:induction false} AddNodeAbsent(n: Node, parentId: string, child: Node)
    requires !NodeHasFolder(n, parentId)
    ensures AddNode(n, parentId, child) == n
    decreases n
  {
    match n.children
    case Absent =>
    case Present(cs) => AddAbsent(cs, parentId, child);
  }

  /** When the first node carrying the parent id is a folder, it is found again
      with the new node appended after its existing children, and expanded. */
  lemma {:induction false} AddAppendsLast(ns: seq<Node>, parentId: string, child: Node)
    requires Find(ns, parentId).Some? && Find(ns, parentId).value.kind == Folder
    ensures Find(Add(ns, parentId, child), parentId) == Some(WithChild(Find(ns, parentId).value, child))
    decreases ns
  {
    var t := Add(ns, parentId, child);
    assert t[0] == AddNode(ns[0], parentId, child) && t[1..] == Add(ns[1..], parentId, child);
    if FindIn(ns[0], parentId).Some? {
      AddNodeAppendsLast(ns[0], parentId, child);
    } else {
      FindInMeansPresent(ns[0], parentId);
      if NodeHasFolder(ns[0], parentId) {
        NodeHasFolderHasId(ns[0], parentId);
      }
      AddNodeAbsent(ns[0], parentId, child);
      AddAppendsLast(ns[1..], parentId, child);
    }
  }

  lemma {:induction false} AddNodeAppendsLast(n: Node, parentId: string, child: Node)
    requires FindIn(n, parentId).Some? && FindIn(n, parentId).value.kind == Folder
    ensures FindIn(AddNode(n, parentId, child), parentId) == Some(WithChild(FindIn(n, parentId).value, child))
    decreases n
  {
    if n.id != parentId {
      AddAppendsLast(n.children.nodes, parentId, child);
    }
  }

  /** With distinct ids and a folder carrying the parent id, the forest gains
      exactly the new subtree's nodes: nothing is lost or duplicated. */
  lemma AddGrowsByChild(ns: seq<Node>, parentId: string, child: Node)
    requires NoDuplicates(Ids(ns)) && HasFolder(ns, parentId)
    ensures multiset(Ids(Add(ns, parentId, child))) == multiset(Ids(ns)) + multiset(NodeIds(child))
    ensures Count(Add(ns, parentId, child)) == Count(ns) + |NodeIds(child)|
  {
    var t := Add(ns, parentId, child);
    AddGrowsIds(ns, parentId, child);
    assert |Ids(t)| == |multiset(Ids(t))|;
  }

  lemma {:induction false} AddGrowsIds(ns: seq<Node>, parentId: string, child: Node)
    requires NoDuplicates(Ids(ns)) && HasFolder(ns, parentId)
    ensures multiset(Ids(Add(ns, parentId, child))) == multiset(Ids(ns)) + multiset(NodeIds(child))
    decreases ns
  {
    var t := Add(ns, parentId, child);
    assert t == [AddNode(ns[0], parentId, child)] + Add(ns[1..], parentId, child);
    NoDuplicatesSplit(NodeIds(ns[0]), Ids(ns[1..]));
    if NodeHasFolder(ns[0], parentId) {
      NodeHasFolderHasId(ns[0], parentId);
      if HasFolder(ns[1..], parentId) {
        HasFolderHasId(ns[1..], parentId);
      }
      AddAbsent(ns[1..], parentId, child);
      AddNodeGrowsByChild(ns[0], parentId, child);
    } else {
      AddNodeAbsent(ns[0], parentId, child);
      AddGrowsIds(ns[1..], parentId, child);
    }
  }

  lemma {:induction false} AddNodeGrowsByChild(n: Node, parentId: string, child: Node)
    requires NoDuplicates(NodeIds(n)) && NodeHasFolder(n, parentId)
    ensures multiset(NodeIds(AddNode(n, parentId, child))) == multiset(NodeIds(n)) + multiset(NodeIds(child))
    decreases n
  {
    NoDuplicatesSplit([n.id], Ids(Kids(n)));
    if n.id == parentId && n.kind == Folder {
      IdsConcat(Kids(n), [child]);
      IdsSingleton(child);
    } else {
      var cs := n.children.nodes;
      if n.id == parentId {
        HasFolderHasId(cs, parentId);
      }
      AddGrowsIds(cs, parentId, child);
    }
  }

  /** The listing block of folder `p` once `child` is added under it: `p`
      itself, now expanded, its old descendants, then the new subtree one
      level deeper. */
  function Grafted(p: Node, child: Node, depth: nat): seq<Entry> {
    [Entry(p.id, p.name, p.kind, p.content, true, depth)] + Outline(Kids(p), depth + 1) + Outline([child], depth + 1)
  }

  lemma WithChildOutline(p: Node, child: Node, depth: nat)
    ensures NodeOutline(WithChild(p, child), depth) == Grafted(p, child, depth)
  {
    OutlineConcat(Kids(p), [child], depth + 1);
  }

  /** With distinct ids and a folder carrying the parent id, that folder is the
      first node with the id, and an add changes the pre-order listing only in
      its block: the folder is now expanded and the new subtree follows its old
      descendants. Every other entry, with its name, kind, content, flag and
      depth, is kept in place. */
  lemma AddChangesOnlyParent(ns: seq<Node>, parentId: string, child: Node, depth: nat)
    requires NoDuplicates(Ids(ns)) && HasFolder(ns, parentId)
    ensures Find(ns, parentId).Some? && Find(ns, parentId).value.kind == Folder
    ensures exists k: nat, dp: nat :: Spliced(Outline(ns, depth), Outline(Add(ns, parentId, child), depth),
      NodeOutline(Find(ns, parentId).value, dp), Grafted(Find(ns, parentId).value, child, dp), k)
  {
    var k, dp := AddSplices(ns, parentId, child, depth);
  }

  lemma {:induction false} AddSplices(ns: seq<Node>, parentId: string, child: Node, depth: nat) returns (k: nat, dp: nat)
    requires NoDuplicates(Ids(ns)) && HasFolder(ns, parentId)
    ensures Find(ns, parentId).Some? && Find(ns, parentId).value.kind == Folder
    ensures Spliced(Outline(ns, depth), Outline(Add(ns, parentId, child), depth),
      NodeOutline(Find(ns, parentId).value, dp), Grafted(Find(ns, parentId).value, child, dp), k)
    decreases ns, 1
  {
    if NodeHasFolder(ns[0], parentId) {
      k, dp := AddSplicesHead(ns, parentId, child, depth);
    } else {
      k, dp := AddSplicesRest(ns, parentId, child, depth);
    }
  }

  /** The parent folder lies in the first top-level node: the other top-level nodes stay. */
  lemma {:induction false} AddSplicesHead(ns: seq<Node>, parentId: string, child: Node, depth: nat) returns (k: nat, dp: nat)
    requires ns != [] && NoDuplicates(Ids(ns)) && NodeHasFolder(ns[0], parentId)
    ensures Find(ns, parentId).Some? && Find(ns, parentId).value.kind == Folder
    ensures Spliced(Outline(ns, depth), Outline(Add(ns, parentId, child), depth),
      NodeOutline(Find(ns, parentId).value, dp), Grafted(Find(ns, parentId).value, child, dp), k)
    decreases ns, 0
  {
    var head, rest := ns[0], ns[1..];
    var t := Add(ns, parentId, child);
    assert t == [AddNode(head, parentId, child)] + Add(rest, parentId, child);
    NoDuplicatesSplit(NodeIds(head), Ids(rest));
    NodeHasFolderHasId(head, parentId);
    FindInMeansPresent(head, parentId);
    if HasFolder(rest, parentId) {
      HasFolderHasId(rest, parentId);
    }
    AddAbsent(rest, parentId, child);
    var p := FindIn(head, parentId).value;
    k, dp := AddNodeSplices(head, parentId, child, depth);
    assert Outline(t, depth) == NodeOutline(AddNode(head, parentId, child), depth) + Outline(rest, depth);
    SplicedAppend(NodeOutline(head, depth), NodeOutline(AddNode(head, parentId, child), depth), NodeOutline(p, dp),
      Grafted(p, child, dp), k, Outline(rest, depth),
      Outline(ns, depth), Outline(t, depth), NodeOutline(Find(ns, parentId).value, dp), Grafted(Find(ns, parentId).value, child, dp), k);
  }

  /** The parent folder lies after the first top-level node, which stays. */
  lemma {:induction false} AddSplicesRest(ns: seq<Node>, parentId: string, child: Node, depth: nat) returns (k: nat, dp: nat)
    requires ns != [] && NoDuplicates(Ids(ns)) && !NodeHasFolder(ns[0], parentId) && HasFolder(ns[1..], parentId)
    ensures Find(ns, parentId).Some? && Find(ns, parentId).value.kind == Folder
    ensures Spliced(Outline(ns, depth), Outline(Add(ns, parentId, child), depth),
      NodeOutline(Find(ns, parentId).value, dp), Grafted(Find(ns, parentId).value, child, dp), k)
    decreases ns, 0
  {
    var head, rest := ns[0], ns[1..];
    AddPassesHead(ns, parentId, child, depth);
    var k0;
    k0, dp := AddSplices(rest, parentId, child, depth);
    var p := Find(rest, parentId).value;
    k := |NodeOutline(head, depth)| + k0;
    SplicedPrepend(Outline(rest, depth), Outline(Add(rest, parentId, child), depth), NodeOutline(p, dp),
      Grafted(p, child, dp), k0, NodeOutline(head, depth),
      Outline(ns, depth), Outline(Add(ns, parentId, child), depth), NodeOutline(Find(ns, parentId).value, dp),
      Grafted(Find(ns, parentId).value, child, dp), k);
  }

  /** A first top-level node without the parent id is passed over by both the
      lookup and the add. */
  lemma AddPassesHead(ns: seq<Node>, parentId: string, child: Node, depth: nat)
    requires ns != [] && NoDuplicates(Ids(ns)) && !NodeHasFolder(ns[0], parentId) && HasFolder(ns[1..], parentId)
    ensures NoDuplicates(Ids(ns[1..]))
    ensures Find(ns, parentId) == Find(ns[1..], parentId)
    ensures Outline(ns, depth) == NodeOutline(ns[0], depth) + Outline(ns[1..], depth)
    ensures Outline(Add(ns, parentId, child), depth) == NodeOutline(ns[0], depth) + Outline(Add(ns[1..], parentId, child), depth)
  {
    var head, rest := ns[0], ns[1..];
    var t := Add(ns, parentId, child);
    assert t == [AddNode(head, parentId, child)] + Add(rest, parentId, child);
    NoDuplicatesSplit(NodeIds(head), Ids(rest));
    AddNodeAbsent(head, parentId, child);
    HasFolderHasId(rest, parentId);
    FindInMeansPresent(head, parentId);
    assert FindIn(head, parentId).None?;
  }

  lemma {:induction false} AddNodeSplices(n: Node, parentId: string, child: Node, depth: nat) returns (k: nat, dp: nat)
    requires NoDuplicates(NodeIds(n)) && NodeHasFolder(n, parentId)
    ensures FindIn(n, parentId).Some? && FindIn(n, parentId).value.kind == Folder
    ensures Spliced(NodeOutline(n, depth), NodeOutline(AddNode(n, parentId, child), depth),
      NodeOutline(FindIn(n, parentId).value, dp), Grafted(FindIn(n, parentId).value, child, dp), k)
    decreases n
  {
    if n.id == parentId && n.kind == Folder {
      WithChildOutline(n, child, depth);
      k, dp := 0, depth;
      var o := NodeOutline(n, depth);
      assert o[0..|o|] == o && o[..0] == [] && o[|o|..] == [];
    } else {
      var cs := n.children.nodes;
      NoDuplicatesSplit([n.id], Ids(cs));
      HasFolderHasId(cs, parentId);
      var k0;
      k0, dp := AddSplices(cs, parentId, child, depth + 1);
      k := 1 + k0;
      var p := FindIn(n, parentId).value;
      SplicedPrepend(Outline(cs, depth + 1), Outline(Add(cs, parentId, child), depth + 1),
        NodeOutline(p, dp), Grafted(p, child, dp), k0, [Entry(n.id, n.name, n.kind, n.content, IsExpanded(n), depth)],
        NodeOutline(n, depth), NodeOutline(AddNode(n, parentId, child), depth), NodeOutline(p, dp), Grafted(p, child, dp), k);
    }
  }

  /** The four facts about `Add` gathered for its two callers. */
  lemma AddLaws(ns: seq<Node>, parentId: string, child: Node)
    ensures !HasFolder(ns, parentId) ==> Add(ns, parentId, child) == ns
    ensures Find(ns, parentId).Some? && Find(ns, parentId).value.kind == Folder ==>
      Find(Add(ns, parentId, child), parentId) == Some(WithChild(Find(ns, parentId).value, child))
    ensures NoDuplicates(Ids(ns)) && HasFolder(ns, parentId) ==>
      Count(Add(ns, parentId, child)) == Count(ns) + |NodeIds(child)|
    ensures NoDuplicates(Ids(ns)) && HasFolder(ns, parentId) ==>
      Find(ns, parentId).Some? &&
      exists k: nat, dp: nat :: Spliced(Outline(ns, 0), Outline(Add(ns, parentId, child), 0),
        NodeOutline(Find(ns, parentId).value, dp), Grafted(Find(ns, parentId).value, child, dp), k)
  {
    if NoDuplicates(Ids(ns)) && HasFolder(ns, parentId) {
      AddChangesOnlyParent(ns, parentId, child, 0);
    }
    if !HasFolder(ns, parentId) {
      AddAbsent(ns, parentId, child);
    }
    if Find(ns, parentId).Some? && Find(ns, parentId).value.kind == Folder {
      AddAppendsLast(ns, parentId, child);
    }
    if NoDuplicates(Ids(ns)) && HasFolder(ns, parentId) {
      AddGrowsByChild(ns, parentId, child);
    }
  }

  /** `createNewFile`: a file `new-file.js` with content `// New file\n` is
      appended to the first folder carrying the parent id, which is expanded;
      an id naming no folder leaves the tree as it was. With distinct ids the
      listing changes only in the parent's block. */
  function CreateNewFile(ns: seq<Node>, parentId: string, newId: string): (r: seq<Node>)
    ensures !HasFolder(ns, parentId) ==> r == ns
    ensures Find(ns, parentId).Some? && Find(ns, parentId).value.kind == Folder ==>
      var p := Find(ns, parentId).value;
      Find(r, parentId) == Some(p.(children := Present(Kids(p) + [Node(newId, "new-file.js", File, Absent, None, Some("// New file\n"))]), expanded := Some(true)))
    ensures NoDuplicates(Ids(ns)) && HasFolder(ns, parentId) ==> Count(r) == Count(ns) + 1
    ensures NoDuplicates(Ids(ns)) && HasFolder(ns, parentId) ==>
      Find(ns, parentId).Some? &&
      exists k: nat, dp: nat :: Spliced(Outline(ns, 0), Outline(r, 0),
        NodeOutline(Find(ns, parentId).value, dp), Grafted(Find(ns, parentId).value, NewFile(newId), dp), k)
  {
    AddLaws(ns, parentId, NewFile(newId));
    Add(ns, parentId, NewFile(newId))
  }

  /** `createNewFolder`: an empty, collapsed folder `new-folder` is appended in
      the same way. */
  function CreateNewFolder(ns: seq<Node>, parentId: string, newId: string): (r: seq<Node>)
    ensures !HasFolder(ns, parentId) ==> r == ns
    ensures Find(ns, parentId).Some? && Find(ns, parentId).value.kind == Folder ==>
      var p := Find(ns, parentId).value;
      Find(r, parentId) == Some(p.(children := Present(Kids(p) + [Node(newId, "new-folder", Folder, Present([]), Some(false), None)]), expanded := Some(true)))
    ensures NoDuplicates(Ids(ns)) && HasFolder(ns, parentId) ==> Count(r) == Count(ns) + 1
    ensures NoDuplicates(Ids(ns)) && HasFolder(ns, parentId) ==>
      Find(ns, parentId).Some? &&
      exists k: nat, dp: nat :: Spliced(Outline(ns, 0), Outline(r, 0),
        NodeOutline(Find(ns, parentId).value, dp), Grafted(Find(ns, parentId).value, NewFolder(newId), dp), k)
  {
    AddLaws(ns, parentId, NewFolder(newId));
    Add(ns, parentId, NewFolder(newId))
  }

  // ---------------------------------------------------------------------------
  // deleteNode / removeNode

  /** `removeNode`: nodes carrying the id are dropped with their subtrees; the
      survivors keep their order and have their `children` filtered the same way. */
  function Remove(ns: seq<Node>, id: string): seq<Node> {
    if ns == [] then []
    else if ns[0].id == id then Remove(ns[1..], id)
    else [RemoveBelow(ns[0], id)] + Remove(ns[1..], id)
  }

  function RemoveBelow(n: Node, id: string): Node {
    match n.children
    case Absent => n
    case Present(cs) => n.(children := Present(Remove(cs, id)))
  }

  /** After a delete no node anywhere carries the id. */
  lemma {:induction false} RemoveLeavesNoMatch(ns: seq<Node>, id: string)
    ensures id !in Ids(Remove(ns, id))
    decreases ns
  {
    if ns != [] {
      RemoveLeavesNoMatch(ns[1..], id);
      if ns[0].id != id {
        RemoveBelowLeavesNoMatch(ns[0], id);
      }
    }
  }

  lemma {:induction false} RemoveBelowLeavesNoMatch(n: Node, id: string)
    requires n.id != id
    ensures id !in NodeIds(RemoveBelow(n, id))
    decreases n
  {
    match n.children
    case Absent =>
    case Present(cs) => RemoveLeavesNoMatch(cs, id);
  }

  /** Deleting an id that is absent leaves the tree as it was. */
  lemma {:induction false} RemoveAbsent(ns: seq<Node>, id: string)
    requires id !in Ids(ns)
    ensures Remove(ns, id) == ns
    decreases ns
  {
    if ns != [] {
      RemoveBelowAbsent(ns[0], id);
      RemoveAbsent(ns[1..], id);
    }
  }

  lemma {:induction false} RemoveBelowAbsent(n: Node, id: string)
    requires id !in NodeIds(n)
    ensures RemoveBelow(n, id) == n
    decreases n
  {
    match n.children
    case Absent =>
    case Present(cs) => RemoveAbsent(cs, id);
  }

  /** The surviving nodes keep their relative pre-order (so siblings keep their
      order), and each keeps its name, kind, content, flag and depth: the new
      listing is a subsequence of the old one. */
  lemma RemoveKeepsOrder(ns: seq<Node>, id: string, depth: nat)
    ensures IsSubsequence(Ids(Remove(ns, id)), Ids(ns))
    ensures IsSubsequence(Outline(Remove(ns, id), depth), Outline(ns, depth))
  {
    RemoveKeepsIdOrder(ns, id);
    RemoveKeepsEntryOrder(ns, id, depth);
  }

  lemma {:induction false} RemoveKeepsIdOrder(ns: seq<Node>, id: string)
    ensures IsSubsequence(Ids(Remove(ns, id)), Ids(ns))
    decreases ns
  {
    if ns != [] {
      RemoveKeepsIdOrder(ns[1..], id);
      if ns[0].id == id {
        SubsequenceDropFront(Ids(Remove(ns[1..], id)), NodeIds(ns[0]), Ids(ns[1..]));
      } else {
        RemoveBelowKeepsIdOrder(ns[0], id);
        SubsequenceConcat(NodeIds(RemoveBelow(ns[0], id)), NodeIds(ns[0]), Ids(Remove(ns[1..], id)), Ids(ns[1..]));
        assert Remove(ns, id) == [RemoveBelow(ns[0], id)] + Remove(ns[1..], id);
      }
    }
  }

  lemma {:induction false} RemoveBelowKeepsIdOrder(n: Node, id: string)
    ensures IsSubsequence(NodeIds(RemoveBelow(n, id)), NodeIds(n))
    decreases n
  {
    match n.children
    case Absent =>
      SubsequenceReflexive(NodeIds(n));
    case Present(cs) =>
      RemoveKeepsIdOrder(cs, id);
      SubsequenceReflexive([n.id]);
      SubsequenceConcat([n.id], [n.id], Ids(Remove(cs, id)), Ids(cs));
  }

  lemma {:induction false} RemoveKeepsEntryOrder(ns: seq<Node>, id: string, depth: nat)
    ensures IsSubsequence(Outline(Remove(ns, id), depth), Outline(ns, depth))
    decreases ns
  {
    if ns != [] {
      RemoveKeepsEntryOrder(ns[1..], id, depth);
      if ns[0].id == id {
        SubsequenceDropFront(Outline(Remove(ns[1..], id), depth), NodeOutline(ns[0], depth), Outline(ns[1..], depth));
      } else {
        RemoveBelowKeepsEntryOrder(ns[0], id, depth);
        SubsequenceConcat(NodeOutline(RemoveBelow(ns[0], id), depth), NodeOutline(ns[0], depth),
          Outline(Remove(ns[1..], id), depth), Outline(ns[1..], depth));
        var r := [RemoveBelow(ns[0], id)] + Remove(ns[1..], id);
        assert Remove(ns, id) == r;
        assert r[0] == RemoveBelow(ns[0], id) && r[1..] == Remove(ns[1..], id);
      }
    }
  }

  lemma {:induction false} RemoveBelowKeepsEntryOrder(n: Node, id: string, depth: nat)
    ensures IsSubsequence(NodeOutline(RemoveBelow(n, id), depth), NodeOutline(n, depth))
    decreases n
  {
    var head := [Entry(n.id, n.name, n.kind, n.content, IsExpanded(n), depth)];
    match n.children
    case Absent =>
      SubsequenceReflexive(NodeOutline(n, depth));
    case Present(cs) =>
      RemoveKeepsEntryOrder(cs, id, depth + 1);
      SubsequenceReflexive(head);
      SubsequenceConcat(head, head, Outline(Remove(cs, id), depth + 1), Outline(cs, depth + 1));
  }

  /** The found node's subtree ids are among the forest's ids. */
  lemma {:induction false} FoundSubtreeIncluded(ns: seq<Node>, id: string)
    requires Find(ns, id).Some?
    ensures multiset(NodeIds(Find(ns, id).value)) <= multiset(Ids(ns))
    decreases ns
  {
    if FindIn(ns[0], id).Some? {
      FoundInSubtreeIncluded(ns[0], id);
    } else {
      FoundSubtreeIncluded(ns[1..], id);
    }
  }

  lemma {:induction false} FoundInSubtreeIncluded(n: Node, id: string)
    requires FindIn(n, id).Some?
    ensures multiset(NodeIds(FindIn(n, id).value)) <= multiset(NodeIds(n))
    decreases n
  {
    if n.id != id {
      FoundSubtreeIncluded(n.children.nodes, id);
    }
  }

  /** With distinct ids, a delete removes exactly the ids of the deleted node's
      subtree: the node and all its descendants go, every other node stays. */
  lemma {:induction false} RemoveDropsSubtree(ns: seq<Node>, id: string)
    requires NoDuplicates(Ids(ns)) && Find(ns, id).Some?
    ensures multiset(Ids(Remove(ns, id))) == multiset(Ids(ns)) - multiset(NodeIds(Find(ns, id).value))
    decreases ns, 1
  {
    var head, rest := ns[0], ns[1..];
    if head.id == id {
      RemoveAtHead(ns, id);
    } else if FindIn(head, id).Some? {
      RemoveInHead(ns, id);
    } else {
      RemoveInRest(ns, id);
    }
  }

  /** Deleting a node found after the first top-level node leaves that one alone. */
  lemma {:induction false} RemoveInRest(ns: seq<Node>, id: string)
    requires ns != [] && NoDuplicates(Ids(ns)) && ns[0].id != id && FindIn(ns[0], id).None?
    requires Find(ns[1..], id).Some?
    ensures multiset(Ids(Remove(ns, id))) == multiset(Ids(ns)) - multiset(NodeIds(Find(ns[1..], id).value))
    decreases ns, 0
  {
    var head, rest := ns[0], ns[1..];
    assert Ids(ns) == NodeIds(head) + Ids(rest);
    NoDuplicatesSplit(NodeIds(head), Ids(rest));
    var found := Find(rest, id).value;
    RemoveCons(ns, id);
    FindInMeansPresent(head, id);
    RemoveBelowAbsent(head, id);
    RemoveDropsSubtree(rest, id);
    FoundSubtreeIncluded(rest, id);
    MultisetSubtractShift(multiset(Ids(rest)), multiset(NodeIds(found)), multiset(NodeIds(head)));
  }

  /** The ids left by a delete that spares the first top-level node. */
  lemma RemoveCons(ns: seq<Node>, id: string)
    requires ns != [] && ns[0].id != id
    ensures Ids(Remove(ns, id)) == NodeIds(RemoveBelow(ns[0], id)) + Ids(Remove(ns[1..], id))
  {
    var r := [RemoveBelow(ns[0], id)] + Remove(ns[1..], id);
    assert Remove(ns, id) == r;
    assert r[0] == RemoveBelow(ns[0], id) && r[1..] == Remove(ns[1..], id);
  }

  /** Deleting a node found under the first top-level node leaves the other
      top-level nodes alone. */
  lemma {:induction false} RemoveInHead(ns: seq<Node>, id: string)
    requires ns != [] && NoDuplicates(Ids(ns)) && ns[0].id != id && FindIn(ns[0], id).Some?
    ensures multiset(Ids(Remove(ns, id))) == multiset(Ids(ns)) - multiset(NodeIds(FindIn(ns[0], id).value))
    decreases ns, 0
  {
    var head, rest := ns[0], ns[1..];
    assert Ids(ns) == NodeIds(head) + Ids(rest);
    NoDuplicatesSplit(NodeIds(head), Ids(rest));
    RemoveCons(ns, id);
    FindInMeansPresent(head, id);
    RemoveAbsent(rest, id);
    RemoveBelowDropsSubtree(head, id);
    FoundInSubtreeIncluded(head, id);
    MultisetSubtractShift(multiset(NodeIds(head)), multiset(NodeIds(FindIn(head, id).value)), multiset(Ids(rest)));
  }

  /** Deleting a top-level node takes its whole subtree and nothing more. */
  lemma RemoveAtHead(ns: seq<Node>, id: string)
    requires ns != [] && NoDuplicates(Ids(ns)) && ns[0].id == id
    ensures multiset(Ids(Remove(ns, id))) == multiset(Ids(ns)) - multiset(NodeIds(ns[0]))
  {
    var head, rest := ns[0], ns[1..];
    assert Ids(ns) == NodeIds(head) + Ids(rest);
    NoDuplicatesSplit(NodeIds(head), Ids(rest));
    assert id in NodeIds(head);
    RemoveAbsent(rest, id);
    MultisetDropFront(NodeIds(head), Ids(rest));
  }

  lemma {:induction false} RemoveBelowDropsSubtree(n: Node, id: string)
    requires NoDuplicates(NodeIds(n)) && n.id != id && FindIn(n, id).Some?
    ensures multiset(NodeIds(RemoveBelow(n, id))) == multiset(NodeIds(n)) - multiset(NodeIds(FindIn(n, id).value))
    decreases n
  {
    var cs := n.children.nodes;
    NoDuplicatesSplit([n.id], Ids(cs));
    RemoveDropsSubtree(cs, id);
    FoundSubtreeIncluded(cs, id);
    MultisetSubtractShift(multiset(Ids(cs)), multiset(NodeIds(Find(cs, id).value)), multiset([n.id]));
  }

  /** With distinct ids, a delete cuts exactly the deleted node's block out of
      the pre-order listing: the node and its descendants go, and every other
      entry, with its name, kind, content, flag and depth, is kept in place. */
  lemma RemoveCutsSubtree(ns: seq<Node>, id: string, depth: nat)
    requires NoDuplicates(Ids(ns)) && Find(ns, id).Some?
    ensures exists k: nat, dp: nat :: Spliced(Outline(ns, depth), Outline(Remove(ns, id), depth),
      NodeOutline(Find(ns, id).value, dp), [], k)
  {
    var k, dp := RemoveSplices(ns, id, depth);
  }

  lemma {:induction false} RemoveSplices(ns: seq<Node>, id: string, depth: nat) returns (k: nat, dp: nat)
    requires NoDuplicates(Ids(ns)) && Find(ns, id).Some?
    ensures Spliced(Outline(ns, depth), Outline(Remove(ns, id), depth), NodeOutline(Find(ns, id).value, dp), [], k)
    decreases ns, 1
  {
    if ns[0].id == id {
      k, dp := RemoveSplicesAtHead(ns, id, depth);
    } else if FindIn(ns[0], id).Some? {
      k, dp := RemoveSplicesInHead(ns, id, depth);
    } else {
      k, dp := RemoveSplicesInRest(ns, id, depth);
    }
  }

  /** The deleted node is the first top-level node: its block opens the listing. */
  lemma RemoveSplicesAtHead(ns: seq<Node>, id: string, depth: nat) returns (k: nat, dp: nat)
    requires ns != [] && NoDuplicates(Ids(ns)) && ns[0].id == id
    ensures Find(ns, id) == Some(ns[0])
    ensures Spliced(Outline(ns, depth), Outline(Remove(ns, id), depth), NodeOutline(Find(ns, id).value, dp), [], k)
  {
    var head, rest := ns[0], ns[1..];
    assert Ids(ns) == NodeIds(head) + Ids(rest);
    NoDuplicatesSplit(NodeIds(head), Ids(rest));
    assert id in NodeIds(head);
    RemoveAbsent(rest, id);
    k, dp := 0, depth;
    var a, o := NodeOutline(head, depth), Outline(ns, depth);
    assert o == a + Outline(rest, depth);
    assert o[0..|a|] == a && o[..0] == [] && o[|a|..] == Outline(rest, depth);
  }

  /** The deleted node lies under the first top-level node: the others stay. */
  lemma {:induction false} RemoveSplicesInHead(ns: seq<Node>, id: string, depth: nat) returns (k: nat, dp: nat)
    requires ns != [] && NoDuplicates(Ids(ns)) && ns[0].id != id && FindIn(ns[0], id).Some?
    ensures Spliced(Outline(ns, depth), Outline(Remove(ns, id), depth), NodeOutline(Find(ns, id).value, dp), [], k)
    decreases ns, 0
  {
    var head, rest := ns[0], ns[1..];
    RemoveInHeadFacts(ns, id, depth);
    var f := FindIn(head, id).value;
    k, dp := RemoveBelowSplices(head, id, depth);
    SplicedAppend(NodeOutline(head, depth), NodeOutline(RemoveBelow(head, id), depth), NodeOutline(f, dp), [], k,
      Outline(rest, depth), Outline(ns, depth), Outline(Remove(ns, id), depth), NodeOutline(Find(ns, id).value, dp), [], k);
  }

  lemma RemoveInHeadFacts(ns: seq<Node>, id: string, depth: nat)
    requires ns != [] && NoDuplicates(Ids(ns)) && ns[0].id != id && FindIn(ns[0], id).Some?
    ensures NoDuplicates(NodeIds(ns[0]))
    ensures Find(ns, id) == FindIn(ns[0], id)
    ensures Outline(ns, depth) == NodeOutline(ns[0], depth) + Outline(ns[1..], depth)
    ensures Outline(Remove(ns, id), depth) == NodeOutline(RemoveBelow(ns[0], id), depth) + Outline(ns[1..], depth)
  {
    var head, rest := ns[0], ns[1..];
    assert Ids(ns) == NodeIds(head) + Ids(rest);
    NoDuplicatesSplit(NodeIds(head), Ids(rest));
    FindInMeansPresent(head, id);
    RemoveAbsent(rest, id);
    var r := [RemoveBelow(head, id)] + rest;
    assert Remove(ns, id) == r;
    assert r[0] == RemoveBelow(head, id) && r[1..] == rest;
  }

  /** The deleted node lies after the first top-level node, which stays. */
  lemma {:induction false} RemoveSplicesInRest(ns: seq<Node>, id: string, depth: nat) returns (k: nat, dp: nat)
    requires ns != [] && NoDuplicates(Ids(ns)) && ns[0].id != id && FindIn(ns[0], id).None? && Find(ns, id).Some?
    ensures Spliced(Outline(ns, depth), Outline(Remove(ns, id), depth), NodeOutline(Find(ns, id).value, dp), [], k)
    decreases ns, 0
  {
    var head, rest := ns[0], ns[1..];
    RemoveInRestFacts(ns, id, depth);
    var k0;
    k0, dp := RemoveSplices(rest, id, depth);
    k := |NodeOutline(head, depth)| + k0;
    SplicedPrepend(Outline(rest, depth), Outline(Remove(rest, id), depth), NodeOutline(Find(rest, id).value, dp), [], k0,
      NodeOutline(head, depth), Outline(ns, depth), Outline(Remove(ns, id), depth), NodeOutline(Find(ns, id).value, dp), [], k);
  }

  lemma RemoveInRestFacts(ns: seq<Node>, id: string, depth: nat)
    requires ns != [] && NoDuplicates(Ids(ns)) && ns[0].id != id && FindIn(ns[0], id).None?
    ensures NoDuplicates(Ids(ns[1..]))
    ensures Find(ns, id) == Find(ns[1..], id)
    ensures Outline(ns, depth) == NodeOutline(ns[0], depth) + Outline(ns[1..], depth)
    ensures Outline(Remove(ns, id), depth) == NodeOutline(ns[0], depth) + Outline(Remove(ns[1..], id), depth)
  {
    var head, rest := ns[0], ns[1..];
    assert Ids(ns) == NodeIds(head) + Ids(rest);
    NoDuplicatesSplit(NodeIds(head), Ids(rest));
    FindInMeansPresent(head, id);
    RemoveBelowAbsent(head, id);
    var r := [RemoveBelow(head, id)] + Remove(rest, id);
    assert Remove(ns, id) == r;
    assert r[0] == head && r[1..] == Remove(rest, id);
  }

  lemma {:induction false} RemoveBelowSplices(n: Node, id: string, depth: nat) returns (k: nat, dp: nat)
    requires NoDuplicates(NodeIds(n)) && n.id != id && FindIn(n, id).Some?
    ensures Spliced(NodeOutline(n, depth), NodeOutline(RemoveBelow(n, id), depth), NodeOutline(FindIn(n, id).value, dp), [], k)
    decreases n
  {
    var cs := n.children.nodes;
    NoDuplicatesSplit([n.id], Ids(cs));
    var k0;
    k0, dp := RemoveSplices(cs, id, depth + 1);
    k := 1 + k0;
    var f := FindIn(n, id).value;
    SplicedPrepend(Outline(cs, depth + 1), Outline(Remove(cs, id), depth + 1), NodeOutline(f, dp), [], k0,
      [Entry(n.id, n.name, n.kind, n.content, IsExpanded(n), depth)],
      NodeOutline(n, depth), NodeOutline(RemoveBelow(n, id), depth), NodeOutline(f, dp), [], k);
  }

  // ---------------------------------------------------------------------------
  // renderNode: which nodes are drawn, and their indentation

  /** One drawn row: `paddingLeft` is 16 pixels per level of depth. */
  datatype Row = Row(id: string, name: string, kind: Kind, expanded: bool, indent: nat)

  function RowOf(n: Node, depth: nat): Row {
    Row(n.id, n.name, n.kind, IsExpanded(n), 16 * depth)
  }

  /** `renderNode`: a node draws its own row, then its children one level
      deeper when it is an expanded folder with a `children` array. */
  function Render(ns: seq<Node>, depth: nat): seq<Row> {
    if ns == [] then [] else RenderNode(ns[0], depth) + Render(ns[1..], depth)
  }

  function RenderNode(n: Node, depth: nat): seq<Row> {
    [RowOf(n, depth)] +
    if n.kind == Folder && IsExpanded(n) then
      match n.children
      case Absent => []
      case Present(cs) => Render(cs, depth + 1)
    else []
  }

  /** A node's row together with whether every one of its ancestors is an expanded folder. */
  datatype Placed = Placed(row: Row, shown: bool)

  /** Every node of the forest in pre-order, at its depth, marked with the
      visibility rule: shown iff all its ancestors are expanded folders. */
  function Listing(ns: seq<Node>, depth: nat, shown: bool): seq<Placed> {
    if ns == [] then [] else NodeListing(ns[0], depth, shown) + Listing(ns[1..], depth, shown)
  }

  function NodeListing(n: Node, depth: nat, shown: bool): seq<Placed> {
    [Placed(RowOf(n, depth), shown)] +
    match n.children
    case Absent => []
    case Present(cs) => Listing(cs, depth + 1, shown && n.kind == Folder && IsExpanded(n))
  }

  /** The rows of the shown entries, in order. */
  function ShownRows(ps: seq<Placed>): seq<Row> {
    if ps == [] then [] else (if ps[0].shown then [ps[0].row] else []) + ShownRows(ps[1..])
  }

  function PlacedIds(ps: seq<Placed>): seq<string> {
    if ps == [] then [] else [ps[0].row.id] + PlacedIds(ps[1..])
  }

  lemma {:induction false} ShownRowsConcat(a: seq<Placed>, b: seq<Placed>)
    ensures ShownRows(a + b) == ShownRows(a) + ShownRows(b)
  {
    if a == [] {
      assert a + b == b;
    } else {
      assert (a + b)[1..] == a[1..] + b;
      ShownRowsConcat(a[1..], b);
    }
  }

  lemma {:induction false} PlacedIdsConcat(a: seq<Placed>, b: seq<Placed>)
    ensures PlacedIds(a + b) == PlacedIds(a) + PlacedIds(b)
  {
    if a == [] {
      assert a + b == b;
    } else {
      assert (a + b)[1..] == a[1..] + b;
      PlacedIdsConcat(a[1..], b);
    }
  }

  /** Below a hidden node nothing is shown. */
  lemma {:induction false} HiddenListing(ns: seq<Node>, depth: nat)
    ensures ShownRows(Listing(ns, depth, false)) == []
    decreases ns
  {
    if ns != [] {
      HiddenNodeListing(ns[0], depth);
      HiddenListing(ns[1..], depth);
      ShownRowsConcat(NodeListing(ns[0], depth, false), Listing(ns[1..], depth, false));
    }
  }

  lemma {:induction false} HiddenNodeListing(n: Node, depth: nat)
    ensures ShownRows(NodeListing(n, depth, false)) == []
    decreases n
  {
    var head := [Placed(RowOf(n, depth), false)];
    match n.children
    case Absent =>
    case Present(cs) =>
      HiddenListing(cs, depth + 1);
      ShownRowsConcat(head, Listing(cs, depth + 1, false));
  }

  /** The listing holds every node of the forest exactly once, in pre-order. */
  lemma {:induction false} ListingCoversTree(ns: seq<Node>, depth: nat, shown: bool)
    ensures PlacedIds(Listing(ns, depth, shown)) == Ids(ns)
    decreases ns
  {
    if ns != [] {
      NodeListingCoversTree(ns[0], depth, shown);
      ListingCoversTree(ns[1..], depth, shown);
      PlacedIdsConcat(NodeListing(ns[0], depth, shown), Listing(ns[1..], depth, shown));
    }
  }

  lemma {:induction false} NodeListingCoversTree(n: Node, depth: nat, shown: bool)
    ensures PlacedIds(NodeListing(n, depth, shown)) == NodeIds(n)
    decreases n
  {
    match n.children
    case Absent =>
    case Present(cs) =>
      ListingCoversTree(cs, depth + 1, shown && n.kind == Folder && IsExpanded(n));
      PlacedIdsConcat([Placed(RowOf(n, depth), shown)], Listing(cs, depth + 1, shown && n.kind == Folder && IsExpanded(n)));
  }

  /** The drawn rows are exactly the listing's shown entries, in order: a node
      is drawn iff every ancestor is an expanded folder, at 16 pixels per level. */
  lemma {:induction false} RenderShowsOpenPaths(ns: seq<Node>, depth: nat)
    ensures Render(ns, depth) == ShownRows(Listing(ns, depth, true))
    decreases ns
  {
    if ns != [] {
      RenderNodeShowsOpenPath(ns[0], depth);
      RenderShowsOpenPaths(ns[1..], depth);
      ShownRowsConcat(NodeListing(ns[0], depth, true), Listing(ns[1..], depth, true));
    }
  }

  lemma {:induction false} RenderNodeShowsOpenPath(n: Node, depth: nat)
    ensures RenderNode(n, depth) == ShownRows(NodeListing(n, depth, true))
    decreases n
  {
    var head := [Placed(RowOf(n, depth), true)];
    assert ShownRows(head) == [RowOf(n, depth)];
    match n.children
    case Absent =>
    case Present(cs) =>
      var open := n.kind == Folder && IsExpanded(n);
      ShownRowsConcat(head, Listing(cs, depth + 1, open));
      if open {
        RenderShowsOpenPaths(cs, depth + 1);
      } else {
        HiddenListing(cs, depth + 1);
      }
  }
}
