/**
 The tree derivations of the skill-tree screen: lookup by id, the depth of a
 node found by following parent links, the grouping of the catalog into depth
 columns, and the visibility rule for a single node.
 */
module Tree {
  import opened Types

  /** The index of the first entry at or after `from` whose id is `id`. */
  function FindFrom(c: seq<Achievement>, id: string, from: nat): (r: Option<nat>)
    requires from <= |c|
    ensures r.Some? ==> from <= r.value < |c| && c[r.value].id == id
    ensures r.Some? ==> forall j :: from <= j < r.value ==> c[j].id != id
    ensures r.None? <==> forall j :: from <= j < |c| ==> c[j].id != id
    decreases |c| - from
  {
    if from == |c| then None
    else if c[from].id == id then Some(from)
    else FindFrom(c, id, from + 1)
  }

  /** The index of the first catalog entry with the given id (the linear search the application does). */
  function FindIndex(c: seq<Achievement>, id: string): (r: Option<nat>)
    ensures r.Some? ==> r.value < |c| && c[r.value].id == id
    ensures r.Some? ==> forall j :: 0 <= j < r.value ==> c[j].id != id
    ensures r.None? <==> forall j :: 0 <= j < |c| ==> c[j].id != id
  {
    FindFrom(c, id, 0)
  }

  /** The first catalog entry with the given id, if any. */
  function Find(c: seq<Achievement>, id: string): (r: Option<Achievement>)
    ensures r.Some? ==> r.value.id == id
    ensures r.Some? ==> FindIndex(c, id).Some? && r.value == c[FindIndex(c, id).value]
    ensures r.None? <==> forall j :: 0 <= j < |c| ==> c[j].id != id
  {
    match FindIndex(c, id)
    case None => None
    case Some(i) => Some(c[i])
  }

  /** Ids that are pairwise distinct. */
  predicate DistinctIds(c: seq<Achievement>)
  {
    forall i, j :: 0 <= i < j < |c| ==> c[i].id != c[j].id
  }

  /** With distinct ids, the search finds each entry at its own index. */
  lemma FindIndexOfDistinct(c: seq<Achievement>, i: nat)
    requires DistinctIds(c)
    requires i < |c|
    ensures FindIndex(c, c[i].id) == Some(i)
  {
    assert FindIndex(c, c[i].id).Some?;
  }

  /** A parent link of entry `i` that resolves at all resolves to an earlier index. */
  predicate ParentPrecedes(c: seq<Achievement>, i: nat)
    requires i < |c|
  {
    match ParentLink(c[i])
    case None => true
    case Some(p) =>
      match FindIndex(c, p)
      case None => true
      case Some(j) => j < i
  }

  /**
   The well-formedness that makes depth a total function: following parent
   links always moves towards the front of the catalog, so there is no cycle.
   */
  predicate ParentsPrecede(c: seq<Achievement>)
  {
    forall i :: 0 <= i < |c| ==> ParentPrecedes(c, i)
  }

  /**
   The depth of entry `i`: 0 without a parent, otherwise one more than the
   depth of the parent id (which is 0 when the parent id names nothing).
   */
  function DepthAt(c: seq<Achievement>, i: nat): (d: nat)
    requires ParentsPrecede(c)
    requires i < |c|
    ensures d <= i + 1
    ensures ParentLink(c[i]).None? <==> d == 0
    decreases i
  {
    match ParentLink(c[i])
    case None => 0
    case Some(p) =>
      match FindIndex(c, p)
      case None => 1
      case Some(j) =>
        assert ParentPrecedes(c, i);
        1 + DepthAt(c, j)
  }

  /** The depth of an id; an id that names no entry has depth 0. */
  function Depth(c: seq<Achievement>, id: string): nat
    requires ParentsPrecede(c)
  {
    match FindIndex(c, id)
    case None => 0
    case Some(i) => DepthAt(c, i)
  }

  /** The recurrence the layout relies on: roots and unknown ids sit at depth 0, every other node one below its parent. */
  lemma DepthRecurrence(c: seq<Achievement>, id: string)
    requires ParentsPrecede(c)
    ensures Find(c, id).None? ==> Depth(c, id) == 0
    ensures Find(c, id).Some? && ParentLink(Find(c, id).value).None? ==> Depth(c, id) == 0
    ensures Find(c, id).Some? && ParentLink(Find(c, id).value).Some? ==>
              Depth(c, id) == 1 + Depth(c, ParentLink(Find(c, id).value).value)
  {
  }

  /**
   The recursive depth walk exactly as the application writes it: an
   accumulator `depth`, no guard against revisiting a node. `fuel` bounds the
   number of calls; `None` means the walk had not bottomed out when it ran out.
   */
  function GetDepth(c: seq<Achievement>, id: string, depth: int, fuel: nat): Option<int>
    decreases fuel
  {
    if fuel == 0 then None
    else
      match Find(c, id)
      case None => Some(depth)
      case Some(item) =>
        match ParentLink(item)
        case None => Some(depth)
        case Some(p) => GetDepth(c, p, depth + 1, fuel - 1)
  }

  /** The number of calls the walk from `id` needs at most. */
  function WalkBudget(c: seq<Achievement>, id: string): nat
  {
    match FindIndex(c, id)
    case None => 1
    case Some(i) => i + 2
  }

  lemma {:induction false} GetDepthWithinBudget(c: seq<Achievement>, id: string, depth: int, fuel: nat)
    requires ParentsPrecede(c)
    requires fuel >= WalkBudget(c, id)
    ensures GetDepth(c, id, depth, fuel) == Some(depth + Depth(c, id))
    decreases fuel
  {
    match FindIndex(c, id)
    case None =>
    case Some(i) =>
      match ParentLink(c[i])
      case None =>
      case Some(p) =>
        assert ParentPrecedes(c, i);
        GetDepthWithinBudget(c, p, depth + 1, fuel - 1);
  }

  /**
   On a catalog whose parents precede their children the application's walk
   always bottoms out within one call per entry plus one, with the reference depth.
   */
  lemma GetDepthTerminates(c: seq<Achievement>, id: string)
    requires ParentsPrecede(c)
    ensures GetDepth(c, id, 0, |c| + 1) == Some(Depth(c, id))
  {
    GetDepthWithinBudget(c, id, 0, |c| + 1);
  }

  /** A two-entry catalog whose parent links form a cycle. */
  const CyclicCatalog: seq<Achievement> := [
    Achievement("a", Some("b"), "", "", "", Task, General, 0, 0),
    Achievement("b", Some("a"), "", "", "", Task, General, 0, 0)
  ]

  /** The cyclic catalog breaks the well-formedness that depth relies on. */
  lemma CyclicCatalogIsIllFormed()
    ensures !ParentsPrecede(CyclicCatalog)
  {
    assert FindIndex(CyclicCatalog, "b") == Some(1);
    assert !ParentPrecedes(CyclicCatalog, 0);
  }

  /** Without a revisit guard the walk on a cycle never bottoms out, however much fuel it gets. */
  lemma {:induction false} CycleNeverBottomsOut(id: string, depth: int, fuel: nat)
    requires id == "a" || id == "b"
    ensures GetDepth(CyclicCatalog, id, depth, fuel) == None
    decreases fuel
  {
    if fuel > 0 {
      assert CyclicCatalog[0].id == "a" && CyclicCatalog[1].id == "b";
      if id == "a" {
        assert Find(CyclicCatalog, id) == Some(CyclicCatalog[0]);
        CycleNeverBottomsOut("b", depth + 1, fuel - 1);
      } else {
        assert CyclicCatalog[0].id != id;
        assert Find(CyclicCatalog, id) == Some(CyclicCatalog[1]);
        CycleNeverBottomsOut("a", depth + 1, fuel - 1);
      }
    }
  }

  /** A catalog entry annotated with its depth. */
  datatype Node = Node(achievement: Achievement, depth: nat)

  /** Every catalog entry paired with its depth. */
  function NodesWithDepth(c: seq<Achievement>): (nodes: seq<Node>)
    requires ParentsPrecede(c)
    ensures |nodes| == |c|
    ensures forall i :: 0 <= i < |c| ==> nodes[i].achievement == c[i]
  {
    seq(|c|, i requires 0 <= i < |c| => Node(c[i], Depth(c, c[i].id)))
  }

  /** The depth paired with each entry is the one the parent walk computes for its id. */
  lemma NodeDepthsAreWalked(c: seq<Achievement>)
    requires ParentsPrecede(c)
    ensures forall i :: 0 <= i < |c| ==> GetDepth(c, c[i].id, 0, |c| + 1) == Some(NodesWithDepth(c)[i].depth)
  {
    forall i | 0 <= i < |c| {
      GetDepthTerminates(c, c[i].id);
    }
  }

  /** The nodes of depth `k`, in their original order. */
  function Column(nodes: seq<Node>, k: int): seq<Node>
  {
    if |nodes| == 0 then []
    else (if nodes[0].depth == k then [nodes[0]] else []) + Column(nodes[1..], k)
  }

  /** A column holds exactly the nodes of its depth. */
  lemma {:induction false} ColumnHoldsDepth(nodes: seq<Node>, k: int)
    ensures forall x :: x in Column(nodes, k) <==> x in nodes && x.depth == k
  {
    if |nodes| > 0 {
      ColumnHoldsDepth(nodes[1..], k);
      assert nodes == [nodes[0]] + nodes[1..];
    }
  }

  /** The largest depth among the nodes. */
  function MaxDepth(nodes: seq<Node>): (m: nat)
    requires |nodes| > 0
    ensures forall i :: 0 <= i < |nodes| ==> nodes[i].depth <= m
    ensures exists i :: 0 <= i < |nodes| && nodes[i].depth == m
  {
    if |nodes| == 1 then nodes[0].depth
    else
      var m := MaxDepth(nodes[1..]);
      assert forall i :: 1 <= i < |nodes| ==> nodes[i] == nodes[1..][i - 1];
      if nodes[0].depth > m then nodes[0].depth else m
  }

  /** A depth reached by some node and bounding all of them is the largest depth. */
  lemma MaxDepthIs(nodes: seq<Node>, k: nat)
    requires k < |nodes|
    requires forall i :: 0 <= i < |nodes| ==> nodes[i].depth <= nodes[k].depth
    ensures MaxDepth(nodes) == nodes[k].depth
  {
  }

  /** The first `count` columns. */
  function ColumnsUpTo(nodes: seq<Node>, count: nat): (cols: seq<seq<Node>>)
    ensures |cols| == count
    ensures forall k :: 0 <= k < count ==> cols[k] == Column(nodes, k)
  {
    seq(count, k => Column(nodes, k))
  }

  /**
   The layout columns: column `k` for every `k` from 0 to the largest depth.
   With no nodes the largest depth is minus infinity and there are no columns.
   */
  function Columns(nodes: seq<Node>): (cols: seq<seq<Node>>)
    ensures |nodes| == 0 ==> cols == []
    ensures |nodes| > 0 ==> |cols| == MaxDepth(nodes) + 1
    ensures forall i :: 0 <= i < |nodes| ==> nodes[i].depth < |cols|
    ensures forall k :: 0 <= k < |cols| ==> cols[k] == Column(nodes, k)
  {
    if |nodes| == 0 then [] else ColumnsUpTo(nodes, MaxDepth(nodes) + 1)
  }

  /** Column `k` of the layout holds exactly the nodes of depth `k`, and every node has a column. */
  lemma ColumnsHoldDepths(nodes: seq<Node>)
    ensures forall x :: x in nodes ==> x.depth < |Columns(nodes)|
    ensures forall k, x :: 0 <= k < |Columns(nodes)| && x in Columns(nodes)[k] ==> x in nodes && x.depth == k
    ensures forall k, x :: 0 <= k < |Columns(nodes)| && x in nodes && x.depth == k ==> x in Columns(nodes)[k]
  {
    forall k | 0 <= k < |Columns(nodes)| {
      ColumnHoldsDepth(nodes, k);
    }
  }

  /** A depth no node has gives an empty column. */
  lemma {:induction false} ColumnOfAbsentDepth(nodes: seq<Node>, k: int)
    requires forall j :: 0 <= j < |nodes| ==> nodes[j].depth != k
    ensures Column(nodes, k) == []
  {
    if |nodes| > 0 {
      ColumnOfAbsentDepth(nodes[1..], k);
    }
  }

  /** A depth only node `i` has gives the column holding node `i` alone. */
  lemma {:induction false} ColumnOfUniqueDepth(nodes: seq<Node>, i: nat)
    requires i < |nodes|
    requires forall j :: 0 <= j < |nodes| && j != i ==> nodes[j].depth != nodes[i].depth
    ensures Column(nodes, nodes[i].depth) == [nodes[i]]
  {
    var k := nodes[i].depth;
    if i == 0 {
      ColumnOfAbsentDepth(nodes[1..], k);
    } else {
      assert nodes[1..][i - 1] == nodes[i];
      ColumnOfUniqueDepth(nodes[1..], i - 1);
    }
  }

  /** `a` can be obtained from `b` by deleting entries. */
  predicate IsSubsequence<T(==)>(a: seq<T>, b: seq<T>)
    decreases |b|
  {
    if |a| == 0 then true
    else if |b| == 0 then false
    else if a[0] == b[0] then IsSubsequence(a[1..], b[1..])
    else IsSubsequence(a, b[1..])
  }

  /** A column keeps the catalog order of its nodes. */
  lemma {:induction false} ColumnKeepsOrder(nodes: seq<Node>, k: int)
    ensures IsSubsequence(Column(nodes, k), nodes)
  {
    if |nodes| > 0 {
      var col := Column(nodes, k);
      ColumnKeepsOrder(nodes[1..], k);
      if nodes[0].depth == k {
        assert col[0] == nodes[0] && col[1..] == Column(nodes[1..], k);
      } else {
        assert col == Column(nodes[1..], k);
        if |col| > 0 {
          ColumnHoldsDepth(nodes[1..], k);
          assert col[0] in col;
          assert col[0] != nodes[0];
        }
      }
    }
  }

  /** Every column of the layout keeps catalog order. */
  lemma ColumnsKeepOrder(nodes: seq<Node>)
    ensures forall k :: 0 <= k < |Columns(nodes)| ==> IsSubsequence(Columns(nodes)[k], nodes)
  {
    forall k | 0 <= k < |Columns(nodes)| {
      ColumnKeepsOrder(nodes, k);
    }
  }

  /** The number of node slots in a sequence of columns. */
  function TotalSize(cols: seq<seq<Node>>): nat
  {
    if |cols| == 0 then 0 else TotalSize(cols[..|cols| - 1]) + |cols[|cols| - 1]|
  }

  /** The number of node slots in the first `count` columns. */
  function SizeUpTo(nodes: seq<Node>, count: nat): nat
  {
    if count == 0 then 0 else SizeUpTo(nodes, count - 1) + |Column(nodes, count - 1)|
  }

  lemma {:induction false} SizeOfColumnsUpTo(nodes: seq<Node>, count: nat)
    ensures TotalSize(ColumnsUpTo(nodes, count)) == SizeUpTo(nodes, count)
  {
    if count > 0 {
      var cols := ColumnsUpTo(nodes, count);
      assert cols[..count - 1] == ColumnsUpTo(nodes, count - 1);
      SizeOfColumnsUpTo(nodes, count - 1);
    }
  }

  lemma {:induction false} SizeOfNoNodes(count: nat)
    ensures SizeUpTo([], count) == 0
  {
    if count > 0 {
      SizeOfNoNodes(count - 1);
    }
  }

  /** The first node takes one slot in the first `count` columns exactly when its depth is below `count`. */
  lemma {:induction false} SizeSplitsFirst(nodes: seq<Node>, count: nat)
    requires |nodes| > 0
    ensures SizeUpTo(nodes, count) == (if nodes[0].depth < count then 1 else 0) + SizeUpTo(nodes[1..], count)
  {
    if count > 0 {
      var k := count - 1;
      var d, rest := nodes[0].depth, nodes[1..];
      calc {
        SizeUpTo(nodes, count);
        SizeUpTo(nodes, k) + |Column(nodes, k)|;
        { SizeSplitsFirst(nodes, k); ColumnSizeSplitsFirst(nodes, k); }
        (if d < k then 1 else 0) + SizeUpTo(rest, k) + (if d == k then 1 else 0) + |Column(rest, k)|;
        (if d < count then 1 else 0) + (SizeUpTo(rest, k) + |Column(rest, k)|);
        (if d < count then 1 else 0) + SizeUpTo(rest, count);
      }
    }
  }

  lemma ColumnSizeSplitsFirst(nodes: seq<Node>, k: int)
    requires |nodes| > 0
    ensures |Column(nodes, k)| == (if nodes[0].depth == k then 1 else 0) + |Column(nodes[1..], k)|
  {
  }

  lemma {:induction false} SizeCoversShallowNodes(nodes: seq<Node>, count: nat)
    requires forall i :: 0 <= i < |nodes| ==> nodes[i].depth < count
    ensures SizeUpTo(nodes, count) == |nodes|
  {
    if |nodes| == 0 {
      SizeOfNoNodes(count);
    } else {
      SizeSplitsFirst(nodes, count);
      assert forall i :: 0 <= i < |nodes[1..]| ==> nodes[1..][i] == nodes[i + 1];
      SizeCoversShallowNodes(nodes[1..], count);
    }
  }

  /**
   The columns partition the nodes: together they hold as many slots as there
   are nodes, and (by `ColumnsHoldDepths`) each node sits in the one column of
   its depth, so every node appears exactly once.
   */
  lemma ColumnsPartition(nodes: seq<Node>)
    ensures TotalSize(Columns(nodes)) == |nodes|
  {
    if |nodes| > 0 {
      SizeOfColumnsUpTo(nodes, MaxDepth(nodes) + 1);
      SizeCoversShallowNodes(nodes, MaxDepth(nodes) + 1);
    }
  }

  /** The node's id is in the unlocked list. */
  predicate IsUnlocked(unlockedIds: seq<string>, a: Achievement)
  {
    a.id in unlockedIds
  }

  /** The node has no parent, or its parent is unlocked. */
  predicate IsParentUnlocked(unlockedIds: seq<string>, a: Achievement)
  {
    match ParentLink(a)
    case None => true
    case Some(p) => p in unlockedIds
  }

  /** Whether the node is shown and clickable rather than dimmed. */
  predicate CanSee(unlockedIds: seq<string>, a: Achievement)
  {
    IsUnlocked(unlockedIds, a) || IsParentUnlocked(unlockedIds, a)
  }

  /** A node without a parent is always visible, and so is every unlocked node. */
  lemma VisibilityFacts(unlockedIds: seq<string>, a: Achievement)
    ensures ParentLink(a).None? ==> CanSee(unlockedIds, a)
    ensures a.id in unlockedIds ==> CanSee(unlockedIds, a)
    ensures !CanSee(unlockedIds, a) <==>
              a.id !in unlockedIds && ParentLink(a).Some? && ParentLink(a).value !in unlockedIds
  {
  }
}
