/**
 * The client's record store: the record tree being edited, listed in pre-order, and
 * the find-or-create step that hands a form the dependency of a parent record under
 * one of its foreign-key columns, adding an empty one when there is none yet.
 */
module RecordStore {
  import opened Wrappers
  import opened Seqs

  /** A table or column id as the client holds it: a number, or `null`/`undefined`. */
  datatype Id = Undefined | Null | Num(n: int)

  /** JavaScript falsiness of an id: `undefined`, `null` and `0`. */
  predicate Falsy(id: Id) {
    id.Undefined? || id.Null? || (id.Num? && id.n == 0)
  }

  /** A node of the record tree: its table, where it hangs from, its values and its dependencies. */
  datatype RecordNode = RecordNode(
    tableId: Id,
    parentTableId: Id,
    parentColumn: Id,
    columns: map<string, string>,
    dependencies: seq<RecordNode>)

  /** What a node holds besides its dependencies. */
  datatype NodeLabel = NodeLabel(tableId: Id, parentTableId: Id, parentColumn: Id, columns: map<string, string>)

  function Label(node: RecordNode): NodeLabel {
    NodeLabel(node.tableId, node.parentTableId, node.parentColumn, node.columns)
  }

  function Labels(nodes: seq<RecordNode>): (r: seq<NodeLabel>)
    ensures |r| == |nodes| && forall i :: 0 <= i < |nodes| ==> r[i] == Label(nodes[i])
  {
    seq(|nodes|, i requires 0 <= i < |nodes| => Label(nodes[i]))
  }

  /** The number of nodes of a tree. */
  function Size(node: RecordNode): nat
    decreases node, 1
  {
    1 + Sizes(node.dependencies)
  }

  /** The number of nodes of a list of trees. */
  function Sizes(nodes: seq<RecordNode>): nat
    decreases nodes, 0
  {
    if nodes == [] then 0 else Size(nodes[0]) + Sizes(nodes[1..])
  }

  /** The nodes of a tree, each before its dependencies, the dependencies in order. */
  function Flat(node: RecordNode): (r: seq<RecordNode>)
    ensures |r| > 0 && r[0] == node
    decreases node, 1
  {
    [node] + FlatAll(node.dependencies)
  }

  /** The nodes of a list of trees, one tree after the other. */
  function FlatAll(nodes: seq<RecordNode>): seq<RecordNode>
    decreases nodes, 0
  {
    if nodes == [] then [] else Flat(nodes[0]) + FlatAll(nodes[1..])
  }

  /** `flatRecords`: nothing for a falsy record, otherwise its tree in pre-order. */
  function FlatRecords(record: Option<RecordNode>): (r: seq<RecordNode>)
    ensures record.None? <==> r == []
    ensures record.Some? ==> r[0] == record.value
  {
    match record
    case None => []
    case Some(node) => Flat(node)
  }

  lemma {:induction false} FlatSize(node: RecordNode)
    ensures |Flat(node)| == Size(node)
    decreases node, 1
  {
    FlatAllSize(node.dependencies);
  }

  lemma {:induction false} FlatAllSize(nodes: seq<RecordNode>)
    ensures |FlatAll(nodes)| == Sizes(nodes)
    decreases nodes, 0
  {
    if nodes != [] {
      FlatSize(nodes[0]);
      FlatAllSize(nodes[1..]);
    }
  }

  /** The listing of a non-empty record has one entry per node of its tree. */
  lemma FlatRecordsCountsNodes(record: Option<RecordNode>)
    ensures |FlatRecords(record)| == if record.None? then 0 else Size(record.value)
  {
    if record.Some? {
      FlatSize(record.value);
    }
  }

  /**
   * Pre-order: the `i`-th dependency's own listing sits in the parent's listing right
   * after the parent and the listings of the dependencies before it.
   */
  lemma {:induction false} FlatPreOrder(node: RecordNode, i: nat)
    requires i < |node.dependencies|
    ensures var offset := 1 + |FlatAll(node.dependencies[..i])|;
      var child := node.dependencies[i];
      offset + |Flat(child)| <= |Flat(node)| && Flat(node)[offset..offset + |Flat(child)|] == Flat(child)
  {
    var deps := node.dependencies;
    FlatAllSplit(deps, i);
    assert deps[i..][0] == deps[i];
    assert FlatAll(deps[i..]) == Flat(deps[i]) + FlatAll(deps[i..][1..]);
    var before := FlatAll(deps[..i]);
    var child := Flat(deps[i]);
    var after := FlatAll(deps[i..][1..]);
    assert Flat(node) == [node] + before + (child + after);
    SliceAfterPrefix([node] + before, child, after);
  }

  lemma SliceAfterPrefix<T>(prefix: seq<T>, middle: seq<T>, suffix: seq<T>)
    ensures (prefix + (middle + suffix))[|prefix|..|prefix| + |middle|] == middle
  {
    assert (prefix + (middle + suffix))[|prefix|..] == middle + suffix;
  }

  lemma {:induction false} FlatAllSplit(nodes: seq<RecordNode>, i: nat)
    requires i <= |nodes|
    ensures FlatAll(nodes) == FlatAll(nodes[..i]) + FlatAll(nodes[i..])
    decreases i
  {
    if i == 0 {
      assert nodes[..0] == [] && nodes[0..] == nodes;
    } else {
      FlatAllSplit(nodes[1..], i - 1);
      assert nodes[..i][0] == nodes[0] && nodes[..i][1..] == nodes[1..][..i - 1];
      assert nodes[1..][i - 1..] == nodes[i..];
    }
  }

  /** The listing of a tree holds the whole subtree of each of its nodes. */
  lemma {:induction false} SubtreeFits(node: RecordNode, k: nat)
    requires k < |Flat(node)|
    ensures k + |Flat(Flat(node)[k])| <= |Flat(node)|
    decreases node, 1
  {
    if k > 0 {
      SubtreeFitsAll(node.dependencies, k - 1);
    }
  }

  lemma {:induction false} SubtreeFitsAll(nodes: seq<RecordNode>, k: nat)
    requires k < |FlatAll(nodes)|
    ensures k + |Flat(FlatAll(nodes)[k])| <= |FlatAll(nodes)|
    decreases nodes, 0
  {
    var head := Flat(nodes[0]);
    if k < |head| {
      SubtreeFits(nodes[0], k);
    } else {
      SubtreeFitsAll(nodes[1..], k - |head|);
    }
  }

  // ---------------------------------------------------------------------------
  // Adding a dependency under the node at a pre-order position
  // ---------------------------------------------------------------------------

  /** The tree with `item` appended to the dependencies of its `k`-th node in pre-order. */
  function AppendAt(node: RecordNode, k: nat, item: RecordNode): RecordNode
    requires k < |Flat(node)|
    decreases node, 1
  {
    if k == 0 then node.(dependencies := node.dependencies + [item])
    else node.(dependencies := AppendAtAll(node.dependencies, k - 1, item))
  }

  /** `AppendAt` over a list of trees, `k` counting through them one after the other. */
  function AppendAtAll(nodes: seq<RecordNode>, k: nat, item: RecordNode): (r: seq<RecordNode>)
    requires k < |FlatAll(nodes)|
    ensures |r| == |nodes|
    decreases nodes, 0
  {
    if k < |Flat(nodes[0])| then [AppendAt(nodes[0], k, item)] + nodes[1..]
    else [nodes[0]] + AppendAtAll(nodes[1..], k - |Flat(nodes[0])|, item)
  }

  /** `s` with `x` inserted at position `i`. */
  function Insert<T>(s: seq<T>, i: nat, x: T): (r: seq<T>)
    requires i <= |s|
    ensures |r| == |s| + 1 && r[i] == x
    ensures forall j :: 0 <= j < i ==> r[j] == s[j]
    ensures forall j :: i < j <= |s| ==> r[j] == s[j - 1]
  {
    s[..i] + [x] + s[i..]
  }

  lemma InsertAfterPrefix<T>(a: seq<T>, b: seq<T>, i: nat, x: T)
    requires i <= |b|
    ensures Insert(a + b, |a| + i, x) == a + Insert(b, i, x)
  {
  }

  lemma InsertBeforeSuffix<T>(a: seq<T>, b: seq<T>, i: nat, x: T)
    requires i <= |a|
    ensures Insert(a + b, i, x) == Insert(a, i, x) + b
  {
  }

  lemma LabelsConcat(a: seq<RecordNode>, b: seq<RecordNode>)
    ensures Labels(a + b) == Labels(a) + Labels(b)
  {
  }

  /** Appending under a node adds the appended tree's nodes to the listing. */
  lemma {:induction false} AppendAtGrows(node: RecordNode, k: nat, item: RecordNode)
    requires k < |Flat(node)|
    ensures |Flat(AppendAt(node, k, item))| == |Flat(node)| + |Flat(item)|
    decreases node, 1
  {
    var deps := node.dependencies;
    if k == 0 {
      FlatAllSplit(deps + [item], |deps|);
      assert (deps + [item])[..|deps|] == deps && (deps + [item])[|deps|..] == [item];
      assert FlatAll([item]) == Flat(item) + FlatAll([]);
    } else {
      AppendAtAllGrows(deps, k - 1, item);
    }
  }

  lemma {:induction false} AppendAtAllGrows(nodes: seq<RecordNode>, k: nat, item: RecordNode)
    requires k < |FlatAll(nodes)|
    ensures |FlatAll(AppendAtAll(nodes, k, item))| == |FlatAll(nodes)| + |Flat(item)|
    decreases nodes, 0
  {
    var r := AppendAtAll(nodes, k, item);
    if k < |Flat(nodes[0])| {
      AppendAtGrows(nodes[0], k, item);
      assert r[0] == AppendAt(nodes[0], k, item) && r[1..] == nodes[1..];
    } else {
      AppendAtAllGrows(nodes[1..], k - |Flat(nodes[0])|, item);
      assert r[0] == nodes[0] && r[1..] == AppendAtAll(nodes[1..], k - |Flat(nodes[0])|, item);
    }
  }

  /** The `k`-th node of the new tree is the old one with `item` at the end of its dependencies. */
  lemma {:induction false} AppendAtTarget(node: RecordNode, k: nat, item: RecordNode)
    requires k < |Flat(node)|
    ensures AppendAtGrowsFact(node, k, item)
    ensures Flat(AppendAt(node, k, item))[k] == Flat(node)[k].(dependencies := Flat(node)[k].dependencies + [item])
    decreases node, 1
  {
    AppendAtGrows(node, k, item);
    if k > 0 {
      AppendAtAllTarget(node.dependencies, k - 1, item);
    }
  }

  ghost predicate AppendAtGrowsFact(node: RecordNode, k: nat, item: RecordNode)
    requires k < |Flat(node)|
  {
    |Flat(AppendAt(node, k, item))| == |Flat(node)| + |Flat(item)|
  }

  lemma {:induction false} AppendAtAllTarget(nodes: seq<RecordNode>, k: nat, item: RecordNode)
    requires k < |FlatAll(nodes)|
    ensures |FlatAll(AppendAtAll(nodes, k, item))| == |FlatAll(nodes)| + |Flat(item)|
    ensures FlatAll(AppendAtAll(nodes, k, item))[k]
         == FlatAll(nodes)[k].(dependencies := FlatAll(nodes)[k].dependencies + [item])
    decreases nodes, 0
  {
    AppendAtAllGrows(nodes, k, item);
    var r := AppendAtAll(nodes, k, item);
    if k < |Flat(nodes[0])| {
      AppendAtTarget(nodes[0], k, item);
      assert r[0] == AppendAt(nodes[0], k, item) && r[1..] == nodes[1..];
    } else {
      AppendAtAllTarget(nodes[1..], k - |Flat(nodes[0])|, item);
      assert r[0] == nodes[0] && r[1..] == AppendAtAll(nodes[1..], k - |Flat(nodes[0])|, item);
    }
  }

  /**
   * Appending a leaf under the `k`-th node changes the listing in one place: the leaf
   * appears right after that node's subtree and every other node keeps its values and
   * its place.
   */
  lemma {:induction false} AppendAtListing(node: RecordNode, k: nat, item: RecordNode)
    requires k < |Flat(node)| && item.dependencies == []
    ensures SubtreeEnd(node, k) <= |Flat(node)|
    ensures Labels(Flat(AppendAt(node, k, item))) == Labels(Insert(Flat(node), SubtreeEnd(node, k), item))
    decreases node, 2
  {
    SubtreeFits(node, k);
    if k == 0 {
      AppendAtRootListing(node, item);
      assert Insert(Flat(node), |Flat(node)|, item) == Flat(node) + [item];
    } else {
      AppendBelowListing(node, k, item);
    }
  }

  /** Appending under a node below the root: the change happens inside the dependencies' listing. */
  lemma {:induction false} AppendBelowListing(node: RecordNode, k: nat, item: RecordNode)
    requires 0 < k < |Flat(node)| && item.dependencies == []
    ensures SubtreeEnd(node, k) <= |Flat(node)|
    ensures Labels(Flat(AppendAt(node, k, item))) == Labels(Insert(Flat(node), SubtreeEnd(node, k), item))
    decreases node, 1
  {
    var deps := node.dependencies;
    var appended := AppendAt(node, k, item);
    var inner := FlatAll(deps);
    var rest := AppendAtAll(deps, k - 1, item);
    AppendAtAllListing(deps, k - 1, item);
    var e := SubtreeEndAll(deps, k - 1);
    assert SubtreeEnd(node, k) == 1 + e by {
      assert Flat(node)[k] == inner[k - 1];
    }
    assert Labels(Flat(appended)) == Labels([node]) + Labels(FlatAll(rest)) by {
      assert Flat(appended) == [appended] + FlatAll(rest);
      assert Labels([appended]) == Labels([node]);
      LabelsConcat([appended], FlatAll(rest));
    }
    assert Labels([node]) + Labels(Insert(inner, e, item)) == Labels(Insert(Flat(node), 1 + e, item)) by {
      InsertAfterPrefix([node], inner, e, item);
      LabelsConcat([node], Insert(inner, e, item));
    }
  }

  /** Appending a leaf under the root puts it at the end of the listing. */
  lemma AppendAtRootListing(node: RecordNode, item: RecordNode)
    requires item.dependencies == []
    ensures Labels(Flat(AppendAt(node, 0, item))) == Labels(Flat(node) + [item])
  {
    var deps := node.dependencies;
    var appended := AppendAt(node, 0, item);
    FlatAllSplit(deps + [item], |deps|);
    assert (deps + [item])[..|deps|] == deps && (deps + [item])[|deps|..] == [item];
    assert FlatAll([item]) == Flat(item) + FlatAll([]);
    assert Flat(appended) == [appended] + (FlatAll(deps) + [item]);
    assert Flat(node) + [item] == [node] + (FlatAll(deps) + [item]);
    LabelsConcat([appended], FlatAll(deps) + [item]);
    LabelsConcat([node], FlatAll(deps) + [item]);
  }

  /** Where the subtree of the `k`-th node ends in the listing. */
  function SubtreeEnd(node: RecordNode, k: nat): nat
    requires k < |Flat(node)|
  {
    k + |Flat(Flat(node)[k])|
  }

  function SubtreeEndAll(nodes: seq<RecordNode>, k: nat): nat
    requires k < |FlatAll(nodes)|
  {
    k + |Flat(FlatAll(nodes)[k])|
  }

  lemma {:induction false} AppendAtAllListing(nodes: seq<RecordNode>, k: nat, item: RecordNode)
    requires k < |FlatAll(nodes)| && item.dependencies == []
    ensures SubtreeEndAll(nodes, k) <= |FlatAll(nodes)|
    ensures Labels(FlatAll(AppendAtAll(nodes, k, item)))
         == Labels(Insert(FlatAll(nodes), SubtreeEndAll(nodes, k), item))
    decreases nodes, 0
  {
    SubtreeFitsAll(nodes, k);
    var head := Flat(nodes[0]);
    var tail := FlatAll(nodes[1..]);
    var r := AppendAtAll(nodes, k, item);
    if k < |head| {
      var end := SubtreeEnd(nodes[0], k);
      AppendAtListing(nodes[0], k, item);
      assert SubtreeEndAll(nodes, k) == end by {
        assert FlatAll(nodes)[k] == head[k];
      }
      assert Labels(FlatAll(r)) == Labels(Flat(AppendAt(nodes[0], k, item))) + Labels(tail) by {
        assert r[0] == AppendAt(nodes[0], k, item) && r[1..] == nodes[1..];
        LabelsConcat(Flat(AppendAt(nodes[0], k, item)), tail);
      }
      assert Labels(Insert(head, end, item)) + Labels(tail) == Labels(Insert(head + tail, end, item)) by {
        InsertBeforeSuffix(head, tail, end, item);
        LabelsConcat(Insert(head, end, item), tail);
      }
    } else {
      var j := k - |head|;
      var end := SubtreeEndAll(nodes[1..], j);
      AppendAtAllListing(nodes[1..], j, item);
      assert SubtreeEndAll(nodes, k) == |head| + end by {
        assert FlatAll(nodes)[k] == tail[j];
      }
      assert Labels(FlatAll(r)) == Labels(head) + Labels(FlatAll(AppendAtAll(nodes[1..], j, item))) by {
        assert r[0] == nodes[0] && r[1..] == AppendAtAll(nodes[1..], j, item);
        LabelsConcat(head, FlatAll(AppendAtAll(nodes[1..], j, item)));
      }
      assert Labels(head) + Labels(Insert(tail, end, item)) == Labels(Insert(head + tail, |head| + end, item)) by {
        InsertAfterPrefix(head, tail, end, item);
        LabelsConcat(head, Insert(tail, end, item));
      }
    }
  }

  // ---------------------------------------------------------------------------
  // Find or create
  // ---------------------------------------------------------------------------

  /** The root `getRecord` creates when the store holds none. */
  const EmptyRoot := RecordNode(Null, Undefined, Undefined, map[], [])

  /** The empty dependency `getRecord` creates under a parent for a column. */
  function NewItem(parentTableId: Id, parentColumnId: Id): (r: RecordNode)
    ensures r.parentTableId == parentTableId && r.parentColumn == parentColumnId
    ensures r.tableId == Null && r.columns == map[] && r.dependencies == []
  {
    RecordNode(Null, parentTableId, parentColumnId, map[], [])
  }

  /** The store's record after the call, and the dependency handed back (None for `null`/`undefined`). */
  datatype Access = Access(root: Option<RecordNode>, item: Option<RecordNode>)

  /** The root `getRecord` works on: an empty one when none exists and the parent table id is falsy. */
  function StartRoot(root: Option<RecordNode>, parentTableId: Id): Option<RecordNode> {
    if root.None? && Falsy(parentTableId) then Some(EmptyRoot) else root
  }

  /** The first node in pre-order belonging to the parent table. */
  function FindParent(records: seq<RecordNode>, parentTableId: Id): (r: Option<nat>)
    ensures r.Some? ==> r.value < |records| && records[r.value].tableId == parentTableId
    ensures r.None? <==> forall i :: 0 <= i < |records| ==> records[i].tableId != parentTableId
  {
    FindFirst((node: RecordNode) => node.tableId == parentTableId, records)
  }

  /** The first dependency hanging from the column. */
  function FindDependency(parent: RecordNode, parentColumnId: Id): (r: Option<nat>)
    ensures r.Some? ==> r.value < |parent.dependencies| && parent.dependencies[r.value].parentColumn == parentColumnId
    ensures r.None? <==> forall i :: 0 <= i < |parent.dependencies| ==>
      parent.dependencies[i].parentColumn != parentColumnId
  {
    FindFirst((node: RecordNode) => node.parentColumn == parentColumnId, parent.dependencies)
  }

  /**
   * `getRecord` on a store holding `root`. The store ends up without a record only when
   * it had none and the parent table id is truthy; a dependency handed back always hangs
   * from the requested column of a record in the resulting store.
   */
  function FindOrCreate(root: Option<RecordNode>, parentTableId: Id, parentColumnId: Id): (r: Access)
    ensures r.root.None? <==> root.None? && !Falsy(parentTableId)
    ensures r.item.Some? ==> r.root.Some? && r.item.value.parentColumn == parentColumnId
  {
    var start := StartRoot(root, parentTableId);
    var records := FlatRecords(start);
    match FindParent(records, parentTableId)
    case None => Access(start, None)
    case Some(k) =>
      var parent := records[k];
      match FindDependency(parent, parentColumnId)
      case Some(j) => Access(start, Some(parent.dependencies[j]))
      case None =>
        if !Falsy(parentTableId) && !Falsy(parentColumnId) then
          var item := NewItem(parentTableId, parentColumnId);
          Access(Some(AppendAt(start.value, k, item)), Some(item))
        else
          Access(start, None)
  }

  /** A root is created exactly when there was none and the parent table id is falsy; it is the empty one. */
  lemma RootCreatedOnlyWhenMissing(root: Option<RecordNode>, parentTableId: Id, parentColumnId: Id)
    ensures var a := FindOrCreate(root, parentTableId, parentColumnId);
      (root.None? && a.root.Some? <==> root.None? && Falsy(parentTableId))
        && (root.None? && Falsy(parentTableId) ==> a.root == Some(EmptyRoot) && a.item.None?)
  {
    if root.None? && Falsy(parentTableId) {
      assert FlatRecords(Some(EmptyRoot)) == [EmptyRoot];
      if parentTableId == Null {
        assert FindParent([EmptyRoot], parentTableId) == Some(0);
        assert FindDependency(EmptyRoot, parentColumnId).None?;
      }
    }
  }

  /** No node of the parent table: `null`, and the tree is the one started from. */
  lemma NoParentGivesNull(root: Option<RecordNode>, parentTableId: Id, parentColumnId: Id)
    requires forall node :: node in FlatRecords(StartRoot(root, parentTableId)) ==> node.tableId != parentTableId
    ensures FindOrCreate(root, parentTableId, parentColumnId) == Access(StartRoot(root, parentTableId), None)
  {
    var records := FlatRecords(StartRoot(root, parentTableId));
    assert forall i :: 0 <= i < |records| ==> records[i] in records;
  }

  /** An existing dependency under the column is handed back, and the tree does not change. */
  lemma ExistingDependencyReturned(root: Option<RecordNode>, parentTableId: Id, parentColumnId: Id,
                                   k: nat, j: nat)
    requires k < |FlatRecords(StartRoot(root, parentTableId))|
    requires FindParent(FlatRecords(StartRoot(root, parentTableId)), parentTableId) == Some(k)
    requires j < |FlatRecords(StartRoot(root, parentTableId))[k].dependencies|
    requires FindDependency(FlatRecords(StartRoot(root, parentTableId))[k], parentColumnId) == Some(j)
    ensures var parent := FlatRecords(StartRoot(root, parentTableId))[k];
      FindOrCreate(root, parentTableId, parentColumnId)
        == Access(StartRoot(root, parentTableId), Some(parent.dependencies[j]))
      && parent.dependencies[j].parentColumn == parentColumnId
  {
  }

  /**
   * A parent without a dependency under the column gets one when both ids are truthy:
   * the new empty item, added at the end of that parent's dependencies and nowhere
   * else, and handed back; with a falsy id nothing is added and nothing is handed back.
   */
  lemma MissingDependencyCreated(root: Option<RecordNode>, parentTableId: Id, parentColumnId: Id, k: nat)
    requires k < |FlatRecords(StartRoot(root, parentTableId))|
    requires FindParent(FlatRecords(StartRoot(root, parentTableId)), parentTableId) == Some(k)
    requires FindDependency(FlatRecords(StartRoot(root, parentTableId))[k], parentColumnId).None?
    ensures var start := StartRoot(root, parentTableId);
      var before := FlatRecords(start);
      var a := FindOrCreate(root, parentTableId, parentColumnId);
      var item := NewItem(parentTableId, parentColumnId);
      if Falsy(parentTableId) || Falsy(parentColumnId) then a == Access(start, None)
      else
        && a.item == Some(item)
        && a.root.Some?
        && var after := FlatRecords(a.root);
           var end := SubtreeEnd(start.value, k);
           end <= |before| && |after| == |before| + 1
           && Labels(after) == Labels(Insert(before, end, item))
           && after[k] == before[k].(dependencies := before[k].dependencies + [item])
  {
    var start := StartRoot(root, parentTableId);
    if !Falsy(parentTableId) && !Falsy(parentColumnId) {
      var item := NewItem(parentTableId, parentColumnId);
      AppendAtListing(start.value, k, item);
      AppendAtTarget(start.value, k, item);
    }
  }

  /** The store: the record tree being edited, absent until a root is created. */
  class Store {
    var record: Option<RecordNode>

    constructor(initial: Option<RecordNode>)
      ensures record == initial
    {
      record := initial;
    }

    /** The tree being edited. */
    method GetRootRecord() returns (r: Option<RecordNode>)
      ensures r == record
    {
      r := record;
    }

    /**
     * `getRecord`: the dependency of the first node of the parent table hanging from
     * the column, created and added to the tree when missing and both ids are truthy.
     */
    method GetRecord(parentTableId: Id, parentColumnId: Id) returns (r: Option<RecordNode>)
      modifies this
      ensures Access(record, r) == FindOrCreate(old(record), parentTableId, parentColumnId)
    {
      var root := record;
      if root.None? && Falsy(parentTableId) {
        root := Some(EmptyRoot);
        record := root;
      }
      var records := FlatRecords(root);
      var found := FindParent(records, parentTableId);
      if found.None? {
        return None;
      }
      var k := found.value;
      var parent := records[k];
      var existing := FindDependency(parent, parentColumnId);
      if existing.Some? {
        return Some(parent.dependencies[existing.value]);
      }
      if !Falsy(parentTableId) && !Falsy(parentColumnId) {
        var item := NewItem(parentTableId, parentColumnId);
        record := Some(AppendAt(root.value, k, item));
        return Some(item);
      }
      r := None;
    }
  }
}
