/** `buildTree`: the explorer's nesting of its flat list. JavaScript recurses
    without bound, so the model carries a depth budget (`fuel`): a result
    `Some(f)` is what the JavaScript call returns, and a call that yields None
    for every budget is one that recurses until the stack overflows. */
module FolderTree {
  import opened Wrappers
  import opened JsValue
  import opened Seqs
  import opened FolderExplorer

  /** A node with the subtrees `buildTree` attached as its `children`. */
  datatype Tree = Tree(node: TreeNode, children: seq<Tree>)

  /** The parent id `buildTree` works with when called with `p`: the
      default parameter `parentId = 0` also replaces an explicit undefined,
      which is what `buildTree(data, node.id)` passes for a node without an id. */
  function ParentArg(p: JsVal): JsVal {
    if p == Undefined then Num(0) else p
  }

  /** The filter test of `buildTree(data, p)`: strict equality with the
      parent id or with its `String`, and null or undefined count as the
      root 0. */
  predicate Matches(parent: JsVal, p: JsVal) {
    var q := ParentArg(p);
    || parent == q
    || parent == Str(ToJsString(q))
    || (parent == Null && q == Num(0))
    || (parent == Undefined && q == Num(0))
  }

  /** The filter callback of `buildTree(data, p)`. */
  function KeptUnder(p: JsVal): TreeNode -> bool {
    (n: TreeNode) => Matches(n.parent, p)
  }

  /** The nodes `buildTree(data, p)` keeps, in list order. */
  function Children(data: seq<TreeNode>, p: JsVal): (kids: seq<TreeNode>)
    ensures |kids| <= |data|
    ensures forall n :: n in kids <==> n in data && Matches(n.parent, p)
  {
    Filter(data, KeptUnder(p))
  }

  /** The kept nodes stay in list order: the children of a concatenation
      are the children of each part, one after the other. */
  lemma ChildrenKeepOrder(a: seq<TreeNode>, b: seq<TreeNode>, p: JsVal)
    ensures Children(a + b, p) == Children(a, p) + Children(b, p)
  {
    FilterDistributes(a, b, KeptUnder(p));
  }

  /** No node is kept when no listed parent matches. */
  lemma NoChildren(data: seq<TreeNode>, p: JsVal)
    requires forall n :: n in data ==> !Matches(n.parent, p)
    ensures Children(data, p) == []
  {
    FilterNone(data, KeptUnder(p));
  }

  /** `buildTree(data, p)` with at most `fuel` nested calls. */
  function BuildTree(data: seq<TreeNode>, p: JsVal, fuel: nat): (r: Option<seq<Tree>>)
    ensures r.Some? ==> fuel > 0 && |r.value| == |Children(data, p)|
    ensures r.Some? ==> forall i :: 0 <= i < |r.value| ==> r.value[i].node == Children(data, p)[i]
    decreases fuel, 0, 0
  {
    if fuel == 0 then None else BuildForest(data, Children(data, p), fuel - 1)
  }

  /** `kids.map(node => ({...node, children: buildTree(data, node.id)}))`. */
  function BuildForest(data: seq<TreeNode>, kids: seq<TreeNode>, fuel: nat): (r: Option<seq<Tree>>)
    ensures r.Some? ==> |r.value| == |kids|
    ensures r.Some? ==> forall i :: 0 <= i < |kids| ==>
              && r.value[i].node == kids[i]
              && BuildTree(data, kids[i].id, fuel) == Some(r.value[i].children)
    decreases fuel, 1, |kids|
  {
    if kids == [] then Some([])
    else
      match (BuildTree(data, kids[0].id, fuel), BuildForest(data, kids[1..], fuel))
      case (Some(sub), Some(rest)) => Some([Tree(kids[0], sub)] + rest)
      case _ => None
  }

  /** The explorer's view: `buildTree(treeData)` with the default root 0. */
  function Explorer(data: seq<TreeNode>, fuel: nat): Option<seq<Tree>> {
    BuildTree(data, Num(0), fuel)
  }

  /** A larger budget never changes a result that was reached. */
  lemma {:induction false} BuildTreeFuelMonotone(data: seq<TreeNode>, p: JsVal, fuel: nat)
    requires BuildTree(data, p, fuel).Some?
    ensures BuildTree(data, p, fuel + 1) == BuildTree(data, p, fuel)
    decreases fuel, 0, 0
  {
    BuildForestFuelMonotone(data, Children(data, p), fuel - 1);
  }

  lemma {:induction false} BuildForestFuelMonotone(data: seq<TreeNode>, kids: seq<TreeNode>, fuel: nat)
    requires BuildForest(data, kids, fuel).Some?
    ensures BuildForest(data, kids, fuel + 1) == BuildForest(data, kids, fuel)
    decreases fuel, 1, |kids|
  {
    if kids != [] {
      BuildTreeFuelMonotone(data, kids[0].id, fuel);
      BuildForestFuelMonotone(data, kids[1..], fuel);
    }
  }

  /** A non-empty set of listed nodes in which every node `m` has a child
      `next(m)` inside the set: following child links never leaves it (every
      cycle of parent links is one). */
  ghost predicate Cyclic(data: seq<TreeNode>, loop: set<TreeNode>, next: TreeNode -> TreeNode) {
    && loop != {}
    && (forall m :: m in loop ==> m in data)
    && (forall m :: m in loop ==> next(m) in loop && Matches(next(m).parent, m.id))
  }

  /** Every node of a cycle recurses forever, whatever the budget. */
  lemma {:induction false} CycleDiverges(data: seq<TreeNode>, loop: set<TreeNode>, next: TreeNode -> TreeNode, m: TreeNode, fuel: nat)
    requires Cyclic(data, loop, next) && m in loop
    ensures BuildTree(data, m.id, fuel) == None
    decreases fuel
  {
    if fuel > 0 {
      var k := next(m);
      CycleDiverges(data, loop, next, k, fuel - 1);
      ForestNoneWhenSubtreeNone(data, Children(data, m.id), k, fuel - 1);
    }
  }

  /** One diverging subtree makes the whole forest diverge. */
  lemma ForestNoneWhenSubtreeNone(data: seq<TreeNode>, kids: seq<TreeNode>, k: TreeNode, fuel: nat)
    requires k in kids && BuildTree(data, k.id, fuel) == None
    ensures BuildForest(data, kids, fuel) == None
  {
    var i :| 0 <= i < |kids| && kids[i] == k;
  }

  /** A cycle hanging under `p` makes the whole of `buildTree(data, p)` diverge. */
  lemma ReachableCycleDiverges(data: seq<TreeNode>, loop: set<TreeNode>, next: TreeNode -> TreeNode, k: TreeNode, p: JsVal, fuel: nat)
    requires Cyclic(data, loop, next) && k in loop && Matches(k.parent, p)
    ensures BuildTree(data, p, fuel) == None
  {
    if fuel > 0 {
      CycleDiverges(data, loop, next, k, fuel - 1);
      ForestNoneWhenSubtreeNone(data, Children(data, p), k, fuel - 1);
    }
  }

  /** A folder listed as its own parent (reachable from the root) hangs the explorer. */
  lemma SelfParentDiverges(data: seq<TreeNode>, n: TreeNode, fuel: nat)
    requires n in data && Matches(n.parent, n.id) && Matches(n.parent, Num(0))
    ensures Explorer(data, fuel) == None
  {
    ReachableCycleDiverges(data, {n}, _ => n, n, Num(0), fuel);
  }

  /** A root-level node sent without an id hangs the explorer too:
      `buildTree(data, undefined)` falls back to the root 0 and finds the
      node itself again. */
  lemma IdlessRootDiverges(data: seq<TreeNode>, n: TreeNode, fuel: nat)
    requires n in data && n.id == Undefined && Matches(n.parent, Num(0))
    ensures Explorer(data, fuel) == None
  {
    SelfParentDiverges(data, n, fuel);
  }

  /** For instance, a single root folder the API lists without an id. */
  lemma IdlessFolderHangs(name: JsVal, fuel: nat)
    ensures Explorer(FlatList([Folder(Undefined, Null, name, Undefined, Undefined, Undefined)], []), fuel) == None
  {
    var f := Folder(Undefined, Null, name, Undefined, Undefined, Undefined);
    var data := FlatList([f], []);
    assert data[0] == FolderNode(f);
    IdlessRootDiverges(data, FolderNode(f), fuel);
  }

  /** Parent links descend along `rank`: a child always ranks below its parent.
      A finite list has such a rank exactly when it has no cycle. */
  ghost predicate Ranked(data: seq<TreeNode>, rank: TreeNode -> nat) {
    forall m, k :: m in data && k in data && Matches(k.parent, m.id) ==> rank(k) < rank(m)
  }

  /** A forest is built once every one of its subtrees is. */
  lemma {:induction false} ForestFromTrees(data: seq<TreeNode>, kids: seq<TreeNode>, fuel: nat)
    requires forall i :: 0 <= i < |kids| ==> BuildTree(data, kids[i].id, fuel).Some?
    ensures BuildForest(data, kids, fuel).Some?
    decreases |kids|
  {
    if kids != [] {
      ForestFromTrees(data, kids[1..], fuel);
    }
  }

  /** Under a rank, the subtree of a listed node is built with one call
      more than the node's rank. */
  lemma {:induction false} RankedTreeTerminates(data: seq<TreeNode>, rank: TreeNode -> nat, k: TreeNode, fuel: nat)
    requires Ranked(data, rank) && k in data && rank(k) < fuel
    ensures BuildTree(data, k.id, fuel).Some?
    decreases fuel
  {
    var f: nat := fuel - 1;
    var grandkids := Children(data, k.id);
    forall i | 0 <= i < |grandkids|
      ensures BuildTree(data, grandkids[i].id, f).Some?
    {
      assert grandkids[i] in grandkids;
      RankedTreeTerminates(data, rank, grandkids[i], f);
    }
    ForestFromTrees(data, grandkids, f);
  }

  /** On acyclic data `buildTree` returns, for any root, once the budget
      exceeds every rank. */
  lemma RankedTerminates(data: seq<TreeNode>, rank: TreeNode -> nat, p: JsVal, bound: nat)
    requires Ranked(data, rank)
    requires forall n :: n in data ==> rank(n) < bound
    ensures BuildTree(data, p, bound + 1).Some?
  {
    var kids := Children(data, p);
    forall i | 0 <= i < |kids|
      ensures BuildTree(data, kids[i].id, bound).Some?
    {
      assert kids[i] in kids;
      RankedTreeTerminates(data, rank, kids[i], bound);
    }
    ForestFromTrees(data, kids, bound);
  }

  /** Every node appearing anywhere in a tree or forest. */
  function TreeNodes(t: Tree): set<TreeNode>
    decreases t
  {
    {t.node} + ForestNodes(t.children)
  }

  function ForestNodes(f: seq<Tree>): set<TreeNode>
    decreases f
  {
    if f == [] then {} else TreeNodes(f[0]) + ForestNodes(f[1..])
  }

  /** A listed node whose parent matches some listed node's id. */
  ghost predicate Linked(data: seq<TreeNode>, n: TreeNode) {
    n in data && exists m :: m in data && Matches(n.parent, m.id)
  }

  /** Every node `buildTree(data, p)` shows is a listed node hanging either
      directly under `p` or under another listed node. */
  lemma {:induction false} BuiltNodesAreLinked(data: seq<TreeNode>, p: JsVal, fuel: nat)
    requires BuildTree(data, p, fuel).Some?
    ensures forall n :: n in ForestNodes(BuildTree(data, p, fuel).value) ==>
              n in data && (Matches(n.parent, p) || Linked(data, n))
    decreases fuel, 0, 0
  {
    ForestNodesAreLinked(data, Children(data, p), fuel - 1);
  }

  lemma {:induction false} ForestNodesAreLinked(data: seq<TreeNode>, kids: seq<TreeNode>, fuel: nat)
    requires BuildForest(data, kids, fuel).Some?
    requires forall k :: k in kids ==> k in data
    ensures forall n :: n in ForestNodes(BuildForest(data, kids, fuel).value) ==>
              n in kids || Linked(data, n)
    decreases fuel, 1, |kids|
  {
    if kids != [] {
      var f := BuildForest(data, kids, fuel).value;
      var sub := BuildTree(data, kids[0].id, fuel).value;
      var rest := BuildForest(data, kids[1..], fuel).value;
      assert f == [Tree(kids[0], sub)] + rest;
      assert f[1..] == rest;
      BuiltNodesAreLinked(data, kids[0].id, fuel);
      ForestNodesAreLinked(data, kids[1..], fuel);
      forall n | n in ForestNodes(f)
        ensures n in kids || Linked(data, n)
      {
        assert ForestNodes(f) == TreeNodes(f[0]) + ForestNodes(rest);
        assert TreeNodes(f[0]) == {kids[0]} + ForestNodes(sub);
      }
    }
  }

  /** Deleting a folder orphans its children: they stay in the flat list but
      the explorer no longer shows them, since no surviving node carries the
      folder's id and the folder was not the root. */
  lemma DeleteOrphansChildren(data: seq<TreeNode>, folder: TreeNode, child: TreeNode, fuel: nat)
    requires folder.id.Num? && folder.id != Num(0)
    requires child in data && child.id != folder.id && child.parent == folder.id
    requires Explorer(Without(data, folder.id), fuel).Some?
    ensures child in Without(data, folder.id)
    ensures child !in ForestNodes(Explorer(Without(data, folder.id), fuel).value)
  {
    var rest := Without(data, folder.id);
    BuiltNodesAreLinked(rest, Num(0), fuel);
    forall m | m in rest
      ensures !Matches(child.parent, m.id)
    {
    }
  }

  /** With numeric parent links (what normalisation yields from numeric or
      missing API parents), a journal's string id `"j…"` is nobody's parent. */
  lemma JournalsAreLeaves(folders: seq<Folder>, journals: seq<Journal>, k: int)
    requires forall f :: f in folders ==> f.parent.Num? || !Truthy(f.parent)
    requires forall j :: j in journals ==> j.folder.Num? || !Truthy(j.folder)
    requires 0 <= k < |journals|
    ensures Children(FlatList(folders, journals), JournalNode(journals[k]).id) == []
  {
    var data := FlatList(folders, journals);
    var id := JournalNode(journals[k]).id;
    forall n | n in data
      ensures !Matches(n.parent, id)
    {
      var i :| 0 <= i < |data| && data[i] == n;
      if i < |folders| {
        assert folders[i] in folders;
      } else {
        assert journals[i - |folders|] in journals;
      }
    }
    NoChildren(data, id);
  }
}
