/** The relation-set bookkeeping of the join-order optimiser: canonical
    relation sets interned in a prefix tree, and the precomputed subsets of a
    neighbour list with their index-based iterator. */
module JoinRelation {
  import opened RelationIds
  import opened SubsetMasks

  datatype Option<T> = None | Some(value: T)

  /** A set of relations used in the join graph: the first `count` entries
      of `relations`, sorted and duplicate-free. Once created it is never
      changed, so both fields are constants and the object's identity stands
      for the set. */
  class JoinRelationSet {
    const relations: seq<nat>
    const count: nat

    constructor (relations: seq<nat>, count: nat)
      ensures this.relations == relations && this.count == count
    {
      this.relations := relations;
      this.count := count;
    }

    /** The ids the set holds. */
    function Ids(): seq<nat>
      requires count <= |relations|
    {
      relations[..count]
    }

    /** Every set the manager hands out holds exactly `count` ids in strictly
        ascending order. */
    ghost predicate Valid() {
      count <= |relations| && StrictlyAscending(relations[..count])
    }

    /** True iff every relation of `subset` is a relation of `superset`. */
    static function IsSubset(superset: JoinRelationSet, subset: JoinRelationSet): (b: bool)
      requires superset.Valid() && subset.Valid()
      ensures b <==> forall x | x in subset.Ids() :: x in superset.Ids()
    {
      SubsetScan(superset.Ids(), subset.Ids())
    }
  }

  /** A node of the prefix tree: the set materialised at this node, if any,
      and the child reached by each next relation id (as a node index). */
  datatype JoinRelationTreeNode = JoinRelationTreeNode(relation: Option<JoinRelationSet>, children: map<nat, nat>)

  ghost function Parent(p: seq<nat>): seq<nat>
    requires |p| > 0
  {
    p[..|p| - 1]
  }

  ghost function Last(p: seq<nat>): nat
    requires |p| > 0
  {
    p[|p| - 1]
  }

  /** `paths` and `nodeOf` are inverse to each other; node 0 is the root. */
  ghost predicate PathsIndexed(nodes: seq<JoinRelationTreeNode>, paths: seq<seq<nat>>, nodeOf: map<seq<nat>, nat>) {
    && |nodes| == |paths| && 0 < |nodes| && paths[0] == []
    && (forall i | 0 <= i < |paths| :: paths[i] in nodeOf && nodeOf[paths[i]] == i)
    && (forall p | p in nodeOf :: nodeOf[p] < |nodes| && paths[nodeOf[p]] == p)
  }

  /** Each child edge extends the path by its id. */
  ghost predicate ChildrenExtendPaths(nodes: seq<JoinRelationTreeNode>, paths: seq<seq<nat>>)
    requires |nodes| == |paths|
  {
    forall i, k | 0 <= i < |nodes| && k in nodes[i].children ::
      nodes[i].children[k] < |nodes| && paths[nodes[i].children[k]] == paths[i] + [k]
  }

  /** Every node but the root hangs below its parent node, under the last id
      of its path. */
  ghost predicate ParentsLinked(nodes: seq<JoinRelationTreeNode>, paths: seq<seq<nat>>, parent: seq<nat>)
    requires |nodes| == |paths|
  {
    && |parent| == |nodes|
    && forall i {:trigger parent[i]} | 0 < i < |nodes| ::
         && parent[i] < |nodes| && |paths[i]| > 0
         && paths[parent[i]] == Parent(paths[i])
         && Last(paths[i]) in nodes[parent[i]].children
  }

  /** A set is materialised exactly at the nodes recorded in `interned`, and
      the set at the end of a path holds that path's ids. */
  ghost predicate SetsMaterialised(nodes: seq<JoinRelationTreeNode>, nodeOf: map<seq<nat>, nat>,
                                   interned: map<seq<nat>, JoinRelationSet>)
    requires forall p | p in nodeOf :: nodeOf[p] < |nodes|
  {
    && (forall p :: p in interned <==> p in nodeOf && nodes[nodeOf[p]].relation.Some?)
    && (forall p | p in interned ::
          nodes[nodeOf[p]].relation.value == interned[p] && interned[p].Valid() && interned[p].Ids() == p)
  }

  ghost predicate TreeValid(nodes: seq<JoinRelationTreeNode>, paths: seq<seq<nat>>, parent: seq<nat>,
                            nodeOf: map<seq<nat>, nat>, interned: map<seq<nat>, JoinRelationSet>) {
    && PathsIndexed(nodes, paths, nodeOf)
    && ChildrenExtendPaths(nodes, paths)
    && ParentsLinked(nodes, paths, parent)
    && SetsMaterialised(nodes, nodeOf, interned)
  }

  /** The tree after node `info` gains a fresh, empty child for id `k`. */
  function WithChild(nodes: seq<JoinRelationTreeNode>, info: nat, k: nat): (r: seq<JoinRelationTreeNode>)
    requires info < |nodes|
    ensures |r| == |nodes| + 1
  {
    nodes[info := nodes[info].(children := nodes[info].children[k := |nodes|])] + [JoinRelationTreeNode(None, map[])]
  }

  /** A path one id longer than the path of node `info` is in the tree only
      if `info` has a child for that id. */
  lemma ChildPathPresent(nodes: seq<JoinRelationTreeNode>, paths: seq<seq<nat>>, parent: seq<nat>,
                         nodeOf: map<seq<nat>, nat>, interned: map<seq<nat>, JoinRelationSet>,
                         info: nat, k: nat, path: seq<nat>)
    requires TreeValid(nodes, paths, parent, nodeOf, interned)
    requires info < |nodes| && path == paths[info] + [k]
    ensures path in nodeOf ==> k in nodes[info].children
  {
    if path in nodeOf {
      var j := nodeOf[path];
      assert j != 0 by { assert paths[j] == path != [] == paths[0]; }
      var q := parent[j];
      assert paths[q] == Parent(path) == paths[info];
      assert q == info by {
        assert nodeOf[paths[q]] == q && nodeOf[paths[info]] == info;
      }
    }
  }

  /** What AddChild needs of the tree before the new child is added. */
  ghost predicate CanAddChild(nodes: seq<JoinRelationTreeNode>, paths: seq<seq<nat>>, parent: seq<nat>,
                              nodeOf: map<seq<nat>, nat>, interned: map<seq<nat>, JoinRelationSet>,
                              info: nat, k: nat, path: seq<nat>)
  {
    && TreeValid(nodes, paths, parent, nodeOf, interned)
    && info < |nodes| && path == paths[info] + [k]
    && k !in nodes[info].children && path !in nodeOf
  }

  lemma AddChildKeepsPaths(nodes: seq<JoinRelationTreeNode>, paths: seq<seq<nat>>, parent: seq<nat>,
                           nodeOf: map<seq<nat>, nat>, interned: map<seq<nat>, JoinRelationSet>,
                           info: nat, k: nat, path: seq<nat>)
    requires CanAddChild(nodes, paths, parent, nodeOf, interned, info, k, path)
    ensures PathsIndexed(WithChild(nodes, info, k), paths + [path], nodeOf[path := |nodes|])
  {
    var nodes', paths', nodeOf' := WithChild(nodes, info, k), paths + [path], nodeOf[path := |nodes|];
    forall i | 0 <= i < |paths'| ensures paths'[i] in nodeOf' && nodeOf'[paths'[i]] == i {
      if i < |nodes| {
        assert paths'[i] == paths[i] && paths[i] in nodeOf;
      }
    }
    forall p | p in nodeOf' ensures nodeOf'[p] < |nodes'| && paths'[nodeOf'[p]] == p {
      if p != path {
        assert p in nodeOf;
      }
    }
  }

  lemma AddChildKeepsChildren(nodes: seq<JoinRelationTreeNode>, paths: seq<seq<nat>>, parent: seq<nat>,
                              nodeOf: map<seq<nat>, nat>, interned: map<seq<nat>, JoinRelationSet>,
                              info: nat, k: nat, path: seq<nat>)
    requires CanAddChild(nodes, paths, parent, nodeOf, interned, info, k, path)
    ensures ChildrenExtendPaths(WithChild(nodes, info, k), paths + [path])
  {
    var nodes', paths' := WithChild(nodes, info, k), paths + [path];
    forall i, c | 0 <= i < |nodes'| && c in nodes'[i].children
      ensures nodes'[i].children[c] < |nodes'| && paths'[nodes'[i].children[c]] == paths'[i] + [c]
    {
      if i != info && i < |nodes| {
        assert c in nodes[i].children;
      } else if i == info && c != k {
        assert c in nodes[i].children;
      }
    }
  }

  lemma AddChildKeepsParents(nodes: seq<JoinRelationTreeNode>, paths: seq<seq<nat>>, parent: seq<nat>,
                             nodeOf: map<seq<nat>, nat>, interned: map<seq<nat>, JoinRelationSet>,
                             info: nat, k: nat, path: seq<nat>)
    requires CanAddChild(nodes, paths, parent, nodeOf, interned, info, k, path)
    ensures ParentsLinked(WithChild(nodes, info, k), paths + [path], parent + [info])
  {
    var nodes', paths', parent' := WithChild(nodes, info, k), paths + [path], parent + [info];
    forall i | 0 < i < |nodes'|
      ensures && parent'[i] < |nodes'| && |paths'[i]| > 0
              && paths'[parent'[i]] == Parent(paths'[i])
              && Last(paths'[i]) in nodes'[parent'[i]].children
    {
      if i == |nodes| {
        assert Parent(path) == paths[info];
      } else {
        assert parent'[i] == parent[i];
        assert Last(paths[i]) in nodes[parent[i]].children;
      }
    }
  }

  lemma AddChildKeepsSets(nodes: seq<JoinRelationTreeNode>, paths: seq<seq<nat>>, parent: seq<nat>,
                          nodeOf: map<seq<nat>, nat>, interned: map<seq<nat>, JoinRelationSet>,
                          info: nat, k: nat, path: seq<nat>)
    requires CanAddChild(nodes, paths, parent, nodeOf, interned, info, k, path)
    ensures SetsMaterialised(WithChild(nodes, info, k), nodeOf[path := |nodes|], interned)
  {
    var nodes', nodeOf' := WithChild(nodes, info, k), nodeOf[path := |nodes|];
    assert forall i | 0 <= i < |nodes| :: nodes'[i].relation == nodes[i].relation;
    forall p ensures p in interned <==> p in nodeOf' && nodes'[nodeOf'[p]].relation.Some? {
      if p in nodeOf {
        assert p != path && nodeOf'[p] == nodeOf[p];
      }
    }
    forall p | p in interned
      ensures nodes'[nodeOf'[p]].relation.value == interned[p] && interned[p].Valid() && interned[p].Ids() == p
    {
      assert p in nodeOf && p != path && nodeOf'[p] == nodeOf[p];
    }
  }

  /** Adding a missing child keeps the tree well formed. */
  lemma AddChildKeepsTree(nodes: seq<JoinRelationTreeNode>, paths: seq<seq<nat>>, parent: seq<nat>,
                          nodeOf: map<seq<nat>, nat>, interned: map<seq<nat>, JoinRelationSet>,
                          info: nat, k: nat, path: seq<nat>)
    requires TreeValid(nodes, paths, parent, nodeOf, interned)
    requires info < |nodes| && path == paths[info] + [k]
    requires k !in nodes[info].children
    ensures path !in nodeOf
    ensures TreeValid(WithChild(nodes, info, k), paths + [path], parent + [info], nodeOf[path := |nodes|], interned)
  {
    ChildPathPresent(nodes, paths, parent, nodeOf, interned, info, k, path);
    AddChildKeepsPaths(nodes, paths, parent, nodeOf, interned, info, k, path);
    AddChildKeepsChildren(nodes, paths, parent, nodeOf, interned, info, k, path);
    AddChildKeepsParents(nodes, paths, parent, nodeOf, interned, info, k, path);
    AddChildKeepsSets(nodes, paths, parent, nodeOf, interned, info, k, path);
  }

  /** The tree after the set `r` is materialised at node `info`. */
  function WithRelation(nodes: seq<JoinRelationTreeNode>, info: nat, r: JoinRelationSet): (t: seq<JoinRelationTreeNode>)
    requires info < |nodes|
    ensures |t| == |nodes|
  {
    nodes[info := nodes[info].(relation := Some(r))]
  }

  /** Materialising a set at an empty node whose path is the set's ids keeps
      the tree well formed, and records the set under those ids. */
  lemma MaterialiseKeepsTree(nodes: seq<JoinRelationTreeNode>, paths: seq<seq<nat>>, parent: seq<nat>,
                             nodeOf: map<seq<nat>, nat>, interned: map<seq<nat>, JoinRelationSet>,
                             info: nat, r: JoinRelationSet)
    requires TreeValid(nodes, paths, parent, nodeOf, interned)
    requires info < |nodes| && nodes[info].relation.None?
    requires r.Valid() && r.Ids() == paths[info]
    ensures TreeValid(WithRelation(nodes, info, r), paths, parent, nodeOf, interned[paths[info] := r])
  {
    var nodes', interned' := WithRelation(nodes, info, r), interned[paths[info] := r];
    assert forall i | 0 <= i < |nodes| :: nodes'[i].children == nodes[i].children;
    assert ChildrenExtendPaths(nodes', paths) by {
      forall i, c | 0 <= i < |nodes'| && c in nodes'[i].children
        ensures nodes'[i].children[c] < |nodes'| && paths[nodes'[i].children[c]] == paths[i] + [c]
      {
        assert c in nodes[i].children;
      }
    }
    assert ParentsLinked(nodes', paths, parent) by {
      forall i | 0 < i < |nodes'|
        ensures && parent[i] < |nodes'| && |paths[i]| > 0
                && paths[parent[i]] == Parent(paths[i])
                && Last(paths[i]) in nodes'[parent[i]].children
      {
        assert Last(paths[i]) in nodes[parent[i]].children;
      }
    }
    assert SetsMaterialised(nodes', nodeOf, interned') by {
      forall p ensures p in interned' <==> p in nodeOf && nodes'[nodeOf[p]].relation.Some? {
        if p in nodeOf && p != paths[info] {
          assert nodeOf[p] != info;
        }
      }
      forall p | p in interned'
        ensures nodes'[nodeOf[p]].relation.value == interned'[p] && interned'[p].Valid() && interned'[p].Ids() == p
      {
        if p != paths[info] {
          assert p in interned && nodeOf[p] != info;
        }
      }
    }
  }

  /** Copy an unordered binding set into a fresh array of its size, in
      whatever order the set yields its members. */
  method CopyBindings(bindings: set<nat>) returns (buffer: array<nat>, count: nat)
    ensures fresh(buffer) && buffer.Length == |bindings| && count == |bindings|
    ensures Distinct(buffer[..count])
    ensures forall x :: x in buffer[..count] <==> x in bindings
  {
    buffer := new nat[|bindings|];
    count := 0;
    var rest := bindings;
    while rest != {}
      invariant rest <= bindings
      invariant count + |rest| == |bindings|
      invariant Distinct(buffer[..count])
      invariant forall x :: x in buffer[..count] <==> x in bindings && x !in rest
      decreases |rest|
    {
      var x :| x in rest;
      buffer[count] := x;
      assert buffer[..count + 1] == buffer[..count] + [x];
      count := count + 1;
      rest := rest - {x};
    }
  }

  /** One step of the merge loop at positions i and j: the id it emits and
      the positions it moves on to. */
  ghost function MergeNext(lhs: seq<nat>, rhs: seq<nat>, i: nat, j: nat): (nat, nat, nat)
    requires i <= |lhs| && j <= |rhs| && (i < |lhs| || j < |rhs|)
  {
    if i == |lhs| then (rhs[j], i, j + 1)
    else if j == |rhs| then (lhs[i], i + 1, j)
    else if lhs[i] == rhs[j] then (lhs[i], i + 1, j + 1)
    else if lhs[i] < rhs[j] then (lhs[i], i + 1, j)
    else (rhs[j], i, j + 1)
  }

  /** A step of the merge loop emits the head of the merge of the two
      remaining suffixes, and leaves the merge of the suffixes after it. */
  lemma MergeStep(lhs: seq<nat>, rhs: seq<nat>, i: nat, j: nat)
    requires i <= |lhs| && j <= |rhs| && (i < |lhs| || j < |rhs|)
    ensures MergeNext(lhs, rhs, i, j).1 <= |lhs| && MergeNext(lhs, rhs, i, j).2 <= |rhs|
    ensures MergeUnion(lhs[i..], rhs[j..])
            == [MergeNext(lhs, rhs, i, j).0] + MergeUnion(lhs[MergeNext(lhs, rhs, i, j).1..], rhs[MergeNext(lhs, rhs, i, j).2..])
  {
    assert i < |lhs| ==> lhs[i..][0] == lhs[i] && lhs[i..][1..] == lhs[i + 1..];
    assert j < |rhs| ==> rhs[j..][0] == rhs[j] && rhs[j..][1..] == rhs[j + 1..];
  }

  lemma AppendStep(done: seq<nat>, e: nat, rest: seq<nat>, tail: seq<nat>)
    requires tail == [e] + rest
    ensures (done + [e]) + rest == done + tail
  {
  }

  /** The merge loop of Union: walk both sorted id arrays front to front into
      a fresh buffer of left.count + right.count entries, emitting the smaller
      id and a common id once. The filled prefix is MergeUnion of the two. */
  method MergeRelations(left: JoinRelationSet, right: JoinRelationSet) returns (relations: array<nat>, count: nat)
    requires left.Valid() && right.Valid()
    ensures fresh(relations) && relations.Length == left.count + right.count
    ensures count <= relations.Length
    ensures relations[..count] == MergeUnion(left.Ids(), right.Ids())
  {
    var lhs, rhs := left.Ids(), right.Ids();
    relations := new nat[left.count + right.count];
    count := 0;
    var i, j := 0, 0;
    ghost var done: seq<nat> := [];
    while i < |lhs| || j < |rhs|
      invariant 0 <= i <= |lhs| && 0 <= j <= |rhs|
      invariant count <= i + j && count == |done|
      invariant relations[..count] == done
      invariant done + MergeUnion(lhs[i..], rhs[j..]) == MergeUnion(lhs, rhs)
      decreases |lhs| + |rhs| - i - j
    {
      ghost var step := MergeNext(lhs, rhs, i, j);
      MergeStep(lhs, rhs, i, j);
      AppendStep(done, step.0, MergeUnion(lhs[step.1..], rhs[step.2..]), MergeUnion(lhs[i..], rhs[j..]));
      var e;
      if i == |lhs| {
        e, j := rhs[j], j + 1;
      } else if j == |rhs| {
        e, i := lhs[i], i + 1;
      } else if lhs[i] == rhs[j] {
        e, i, j := lhs[i], i + 1, j + 1;
      } else if lhs[i] < rhs[j] {
        e, i := lhs[i], i + 1;
      } else {
        e, j := rhs[j], j + 1;
      }
      assert (e, i, j) == step;
      relations[count] := e;
      assert relations[..count + 1] == done + [e];
      done := done + [e];
      count := count + 1;
    }
    assert lhs[i..] == [] && rhs[j..] == [];
  }

  lemma PrefixStep(ids: seq<nat>, i: nat)
    requires i < |ids|
    ensures ids[..i + 1] == ids[..i] + [ids[i]]
  {
  }

  /** The first n + 1 prefixes of `ids`, from the empty one to ids[..n]: the
      paths that a walk along ids[..n] passes through. */
  ghost function PrefixesUpTo(ids: seq<nat>, n: nat): set<seq<nat>>
    requires n <= |ids|
  {
    set j | 0 <= j <= n :: ids[..j]
  }

  /** Every prefix of `ids`, the empty one and `ids` itself included. */
  ghost function Prefixes(ids: seq<nat>): set<seq<nat>> {
    PrefixesUpTo(ids, |ids|)
  }

  lemma PrefixesUpToStep(ids: seq<nat>, i: nat)
    requires i < |ids|
    ensures PrefixesUpTo(ids, i + 1) == PrefixesUpTo(ids, i) + {ids[..i + 1]}
  {
  }

  /** One step of the walk changes only the node it leaves, whose path is a
      prefix of the ids: every node off the walked prefixes keeps its state,
      and existing paths keep their nodes. */
  lemma WalkFrameStep(nodes0: seq<JoinRelationTreeNode>, paths0: seq<seq<nat>>, ids: seq<nat>, i: nat,
                      nodes1: seq<JoinRelationTreeNode>, paths1: seq<seq<nat>>, from: nat,
                      nodes2: seq<JoinRelationTreeNode>, paths2: seq<seq<nat>>)
    requires i < |ids| && |paths0| == |nodes0| <= |nodes1| <= |nodes2| && |nodes1| <= |paths1|
    requires paths1[..|nodes0|] == paths0 && from < |paths1| && paths1[from] == ids[..i]
    requires forall n | 0 <= n < |nodes0| && paths0[n] !in PrefixesUpTo(ids, i) :: nodes1[n] == nodes0[n]
    requires |paths1| <= |paths2| && paths2[..|paths1|] == paths1
    requires forall n | 0 <= n < |nodes1| && n != from :: nodes2[n] == nodes1[n]
    ensures paths2[..|nodes0|] == paths0
    ensures forall n | 0 <= n < |nodes0| && paths0[n] !in PrefixesUpTo(ids, i + 1) :: nodes2[n] == nodes0[n]
  {
    forall n | 0 <= n < |nodes0| && paths0[n] !in PrefixesUpTo(ids, i + 1) ensures nodes2[n] == nodes0[n] {
      assert ids[..i] in PrefixesUpTo(ids, i + 1);
      assert paths1[n] == paths0[n];
    }
  }

  /** One step of the walk adds at most the next prefix to the known paths
      and moves none of them. */
  lemma WalkKeysStep(nodeOf0: map<seq<nat>, nat>, ids: seq<nat>, i: nat,
                     nodeOf1: map<seq<nat>, nat>, child: nat, nodeOf2: map<seq<nat>, nat>)
    requires i < |ids|
    requires nodeOf1.Keys == nodeOf0.Keys + PrefixesUpTo(ids, i)
    requires forall p | p in nodeOf0 :: nodeOf1[p] == nodeOf0[p]
    requires ids[..i + 1] in nodeOf1 ==> nodeOf1[ids[..i + 1]] == child
    requires nodeOf2 == nodeOf1[ids[..i + 1] := child]
    ensures nodeOf2.Keys == nodeOf0.Keys + PrefixesUpTo(ids, i + 1)
    ensures forall p | p in nodeOf0 :: nodeOf2[p] == nodeOf0[p]
  {
    PrefixesUpToStep(ids, i);
  }

  lemma SingletonPrefixes(index: nat)
    ensures Prefixes([index]) == {[], [index]}
  {
    assert [index][..0] == [] && [index][..1] == [index];
  }

  lemma PrefixesHoldWhole(ids: seq<nat>)
    ensures ids in Prefixes(ids)
  {
    assert ids[..|ids|] == ids;
  }

  lemma PrefixesUpToZero(ids: seq<nat>)
    ensures PrefixesUpTo(ids, 0) == {[]}
  {
    assert ids[..0] == [];
  }

  /** Holds every JoinRelationSet created during one optimisation pass, in a
      prefix tree keyed on the sorted id sequence. The tree is kept as an
      arena: `nodes[0]` is the root, and a child map sends an id to the index
      of the child node. */
  class JoinRelationSetManager {
    var nodes: seq<JoinRelationTreeNode>
    /** The id sequence that leads from the root to each node. */
    ghost var paths: seq<seq<nat>>
    /** The node each node hangs below (the root's entry is unused). */
    ghost var parent: seq<nat>
    /** The inverse of `paths`: the node an id sequence leads to. */
    ghost var nodeOf: map<seq<nat>, nat>
    /** The materialised sets, keyed by their ids. */
    ghost var interned: map<seq<nat>, JoinRelationSet>

    ghost predicate Valid()
      reads this
    {
      TreeValid(nodes, paths, parent, nodeOf, interned)
    }

    lemma ValidOfTree()
      requires TreeValid(nodes, paths, parent, nodeOf, interned)
      ensures Valid()
    {
    }

    /** A manager starts with a bare root and no sets. */
    constructor ()
      ensures Valid() && interned == map[] && |nodes| == 1
    {
      nodes := [JoinRelationTreeNode(None, map[])];
      paths := [[]];
      parent := [0];
      nodeOf := map[[] := 0];
      interned := map[];
    }

    /** Add a child for id `k` below node `info`, which has none yet. */
    method AddChild(info: nat, k: nat, ghost path: seq<nat>) returns (next: nat)
      requires Valid()
      requires info < |nodes| && path == paths[info] + [k]
      requires k !in nodes[info].children
      modifies this
      ensures Valid()
      ensures next == old(|nodes|) && nodes == WithChild(old(nodes), info, k)
      ensures paths == old(paths) + [path] && parent == old(parent) + [info]
      ensures path !in old(nodeOf) && nodeOf == old(nodeOf)[path := next]
      ensures interned == old(interned)
    {
      AddChildKeepsTree(nodes, paths, parent, nodeOf, interned, info, k, path);
      next := |nodes|;
      nodes, paths, parent, nodeOf := WithChild(nodes, info, k), paths + [path], parent + [info], nodeOf[path := next];
      ValidOfTree();
    }

    /** Follow the child edge for id `k` out of node `info`, adding the
        child first when there is none. */
    method FindOrAddChild(info: nat, k: nat, ghost path: seq<nat>) returns (child: nat)
      requires Valid()
      requires info < |nodes| && path == paths[info] + [k]
      modifies this
      ensures Valid()
      ensures child < |nodes| && paths[child] == path
      ensures interned == old(interned)
      ensures nodeOf == old(nodeOf)[path := child]
      ensures path in old(nodeOf) ==> old(nodeOf)[path] == child
      ensures |nodes| == old(|nodes|) + (if path in old(nodeOf) then 0 else 1)
      ensures path in old(nodeOf) ==> nodes == old(nodes) && paths == old(paths)
      ensures |paths| == |nodes| && old(|paths|) <= |paths| && paths[..old(|paths|)] == old(paths)
      ensures forall n | 0 <= n < old(|nodes|) && n != info :: nodes[n] == old(nodes)[n]
    {
      if k in nodes[info].children {
        child := nodes[info].children[k];
        assert nodeOf[paths[child]] == child;
      } else {
        child := AddChild(info, k, path);
      }
    }

    /** Walk from the root along `ids`, adding the nodes that are missing,
        and return the node the walk ends at. The tree gains exactly the
        prefixes of `ids` it lacked, and only nodes on those prefixes change. */
    method WalkPath(ids: seq<nat>) returns (info: nat)
      requires Valid()
      modifies this
      ensures Valid()
      ensures info < |nodes| && ids in nodeOf && nodeOf[ids] == info
      ensures interned == old(interned)
      ensures nodeOf.Keys == old(nodeOf).Keys + Prefixes(ids)
      ensures forall p | p in old(nodeOf) :: nodeOf[p] == old(nodeOf)[p]
      ensures |nodes| <= old(|nodes|) + |ids|
      ensures old(|nodes|) <= |nodes| && paths[..old(|nodes|)] == old(paths)
      ensures forall n | 0 <= n < old(|nodes|) && old(paths)[n] !in Prefixes(ids) :: nodes[n] == old(nodes)[n]
    {
      info := 0;
      var i := 0;
      PrefixesUpToZero(ids);
      while i < |ids|
        invariant 0 <= i <= |ids|
        invariant Valid()
        invariant info < |nodes| && info < |paths| && paths[info] == ids[..i]
        invariant interned == old(interned)
        invariant nodeOf.Keys == old(nodeOf).Keys + PrefixesUpTo(ids, i)
        invariant forall p | p in old(nodeOf) :: nodeOf[p] == old(nodeOf)[p]
        invariant |nodes| <= old(|nodes|) + i
        invariant old(|nodes|) <= |nodes| && paths[..old(|nodes|)] == old(paths)
        invariant forall n | 0 <= n < old(|nodes|) && old(paths)[n] !in PrefixesUpTo(ids, i) :: nodes[n] == old(nodes)[n]
      {
        PrefixStep(ids, i);
        ghost var nodesBefore, pathsBefore, nodeOfBefore, from := nodes, paths, nodeOf, info;
        info := FindOrAddChild(info, ids[i], ids[..i + 1]);
        WalkFrameStep(old(nodes), old(paths), ids, i, nodesBefore, pathsBefore, from, nodes, paths);
        WalkKeysStep(old(nodeOf), ids, i, nodeOfBefore, info, nodeOf);
        i := i + 1;
      }
      assert ids[..i] == ids;
    }

    /** Store a new set holding relations[..count] at node `info`, whose path
        is those ids and which holds no set yet. */
    method Materialise(info: nat, relations: seq<nat>, count: nat) returns (r: JoinRelationSet)
      requires Valid()
      requires count <= |relations| && StrictlyAscending(relations[..count])
      requires info < |nodes| && paths[info] == relations[..count] && nodes[info].relation.None?
      modifies this
      ensures Valid()
      ensures fresh(r) && r.relations == relations && r.count == count
      ensures interned == old(interned)[relations[..count] := r]
      ensures nodeOf == old(nodeOf) && paths == old(paths) && |nodes| == old(|nodes|)
      ensures forall n | 0 <= n < |nodes| && n != info :: nodes[n] == old(nodes)[n]
    {
      r := new JoinRelationSet(relations, count);
      MaterialiseKeepsTree(nodes, paths, parent, nodeOf, interned, info, r);
      nodes := WithRelation(nodes, info, r);
      interned := interned[relations[..count] := r];
    }

    /** Create or get the set of the given sorted, duplicate-free ids: walk
        the tree along the ids, then materialise the set at the node the walk
        ends at unless it is there already. Only the nodes on the walked path
        change: the tree gains exactly the prefixes of the ids it lacked. */
    method GetJoinRelation(relations: seq<nat>, count: nat) returns (r: JoinRelationSet)
      requires Valid()
      requires count <= |relations| && StrictlyAscending(relations[..count])
      modifies this
      ensures Valid()
      ensures r.Valid() && r.Ids() == relations[..count]
      ensures interned == old(interned)[relations[..count] := r]
      ensures relations[..count] in old(interned) ==> r == old(interned)[relations[..count]]
      ensures relations[..count] !in old(interned) ==> fresh(r) && r.relations == relations && r.count == count
      ensures nodeOf.Keys == old(nodeOf).Keys + Prefixes(relations[..count])
      ensures forall p | p in old(nodeOf) :: nodeOf[p] == old(nodeOf)[p]
      ensures |nodes| <= old(|nodes|) + count
      ensures forall n | 0 <= n < old(|nodes|) && old(paths)[n] !in Prefixes(relations[..count]) :: nodes[n] == old(nodes)[n]
    {
      ghost var ids := relations[..count];
      var info := WalkPath(relations[..count]);
      match nodes[info].relation
      case Some(existing) =>
        r := existing;
        assert interned[ids] == r;
        assert interned[ids := r] == interned;
      case None =>
        ghost var walked := nodes;
        PrefixesHoldWhole(ids);
        r := Materialise(info, relations, count);
        assert forall n | 0 <= n < old(|nodes|) && old(paths)[n] !in Prefixes(ids) :: n != info && nodes[n] == walked[n];
    }

    /** Create or get the singleton set {index}. */
    method GetJoinRelationOfIndex(index: nat) returns (r: JoinRelationSet)
      requires Valid()
      modifies this
      ensures Valid()
      ensures r.Valid() && r.count == 1 && r.Ids() == [index]
      ensures interned == old(interned)[[index] := r]
      ensures [index] in old(interned) ==> r == old(interned)[[index]]
      ensures nodeOf.Keys == old(nodeOf).Keys + {[index]}
      ensures forall p | p in old(nodeOf) :: nodeOf[p] == old(nodeOf)[p]
      ensures forall n | 0 <= n < old(|nodes|) && old(paths)[n] !in {[], [index]} :: nodes[n] == old(nodes)[n]
    {
      assert [] in nodeOf by { assert paths[0] == []; }
      SingletonPrefixes(index);
      r := GetJoinRelation([index], 1);
    }

    /** Create or get the set of an unordered collection of bindings: copy
        them out in whatever order the collection yields them, sort, and
        look the sorted ids up. */
    method GetJoinRelationOfBindings(bindings: set<nat>) returns (r: JoinRelationSet)
      requires Valid()
      modifies this
      ensures Valid()
      ensures r.Valid() && r.count == |bindings|
      ensures forall x :: x in r.Ids() <==> x in bindings
      ensures interned == old(interned)[r.Ids() := r]
      ensures r.Ids() in old(interned) ==> r == old(interned)[r.Ids()]
      ensures nodeOf.Keys == old(nodeOf).Keys + Prefixes(r.Ids())
      ensures forall p | p in old(nodeOf) :: nodeOf[p] == old(nodeOf)[p]
      ensures forall n | 0 <= n < old(|nodes|) && old(paths)[n] !in Prefixes(r.Ids()) :: nodes[n] == old(nodes)[n]
    {
      var buffer, count := CopyBindings(bindings);
      var copied := buffer[..count];
      var sorted := SortDistinct(copied);
      assert |sorted| == count by {
        assert |multiset(sorted)| == |multiset(copied)|;
      }
      assert forall x :: x in sorted <==> x in copied by {
        forall x ensures x in sorted <==> x in copied {
          assert x in sorted <==> x in multiset(sorted);
          assert x in copied <==> x in multiset(copied);
        }
      }
      assert sorted[..count] == sorted;
      r := GetJoinRelation(sorted, count);
    }

    /** Union two sets: merge the two sorted id arrays into a buffer of
        left.count + right.count entries, keeping a common id once, and look
        the merged ids up. */
    method Union(left: JoinRelationSet, right: JoinRelationSet) returns (r: JoinRelationSet)
      requires Valid() && left.Valid() && right.Valid()
      modifies this
      ensures Valid()
      ensures r.Valid() && r.Ids() == MergeUnion(left.Ids(), right.Ids())
      ensures interned == old(interned)[r.Ids() := r]
      ensures r.Ids() in old(interned) ==> r == old(interned)[r.Ids()]
      ensures nodeOf.Keys == old(nodeOf).Keys + Prefixes(r.Ids())
      ensures forall p | p in old(nodeOf) :: nodeOf[p] == old(nodeOf)[p]
      ensures forall n | 0 <= n < old(|nodes|) && old(paths)[n] !in Prefixes(r.Ids()) :: nodes[n] == old(nodes)[n]
    {
      var relations, count := MergeRelations(left, right);
      MergeUnionAscending(left.Ids(), right.Ids());
      assert relations[..][..count] == relations[..count];
      r := GetJoinRelation(relations[..], count);
    }
  }

  /** "Create or get": asking twice for the same singleton gives the
      identical stored set. */
  method SingletonIsShared(m: JoinRelationSetManager, index: nat) returns (first: JoinRelationSet, second: JoinRelationSet)
    requires m.Valid()
    modifies m
    ensures m.Valid() && first == second
  {
    first := m.GetJoinRelationOfIndex(index);
    second := m.GetJoinRelationOfIndex(index);
  }

  /** An unordered binding set and a sorted array of the same ids resolve to
      the identical stored set, whatever order the bindings are visited in. */
  method BindingsMatchSortedArray(m: JoinRelationSetManager, bindings: set<nat>, relations: seq<nat>, count: nat)
    returns (fromBindings: JoinRelationSet, fromArray: JoinRelationSet)
    requires m.Valid()
    requires count <= |relations| && StrictlyAscending(relations[..count])
    requires forall x :: x in relations[..count] <==> x in bindings
    modifies m
    ensures m.Valid() && fromBindings == fromArray
  {
    fromBindings := m.GetJoinRelationOfBindings(bindings);
    fromArray := m.GetJoinRelation(relations, count);
    AscendingUnique(fromBindings.Ids(), relations[..count]);
  }

  /** Union(A, B) and Union(B, A) are the identical stored set. */
  method UnionIsSymmetric(m: JoinRelationSetManager, a: JoinRelationSet, b: JoinRelationSet)
    returns (ab: JoinRelationSet, ba: JoinRelationSet)
    requires m.Valid() && a.Valid() && b.Valid()
    modifies m
    ensures m.Valid() && ab == ba && ab.Valid()
    ensures forall x :: x in ab.Ids() <==> x in a.Ids() || x in b.Ids()
  {
    ab := m.Union(a, b);
    ba := m.Union(b, a);
    MergeUnionCommutes(a.Ids(), b.Ids());
    MergeUnionMembers(a.Ids(), b.Ids());
  }

  /** The precomputed non-empty subsets of a neighbour list, each with its
      number of members, stored in ascending bitmask order: entry i holds the
      subset that mask i + 1 names. */
  class NeighborSubset {
    ghost const neighbors: seq<nat>
    const allSubsets: seq<(set<nat>, nat)>

    ghost predicate Valid() {
      && |allSubsets| == Pow2(|neighbors|) - 1
      && forall i | 0 <= i < |allSubsets| ::
           allSubsets[i] == (SubsetOfMask(neighbors, i + 1), |SubsetOfMask(neighbors, i + 1)|)
    }

    constructor (neighbors: seq<nat>)
      ensures this.neighbors == neighbors && Valid()
    {
      var subsets: seq<(set<nat>, nat)> := [];
      var total := Pow2(|neighbors|);
      var mask := 1;
      while mask < total
        invariant 1 <= mask <= total
        invariant |subsets| == mask - 1
        invariant forall i | 0 <= i < |subsets| ::
                    subsets[i] == (SubsetOfMask(neighbors, i + 1), |SubsetOfMask(neighbors, i + 1)|)
      {
        var members: set<nat> := {};
        var rest := mask;
        var b := 0;
        while b < |neighbors|
          invariant 0 <= b <= |neighbors|
          invariant members + SubsetOfMask(neighbors[b..], rest) == SubsetOfMask(neighbors, mask)
        {
          assert neighbors[b..][1..] == neighbors[b + 1..];
          if rest % 2 == 1 {
            members := members + {neighbors[b]};
          }
          rest := rest / 2;
          b := b + 1;
        }
        subsets := subsets + [(members, |members|)];
        mask := mask + 1;
      }
      this.neighbors := neighbors;
      allSubsets := subsets;
    }

    /** The number of stored subsets: 2^K - 1 for K neighbours. */
    function Size(): (n: nat)
      ensures n == |allSubsets|
      ensures Valid() ==> n == Pow2(|neighbors|) - 1
    {
      |allSubsets|
    }

    method Begin() returns (it: ConstIterator)
      ensures fresh(it) && it.subset == this && it.index == 0
    {
      it := new ConstIterator(this, 0);
    }

    method End() returns (it: ConstIterator)
      ensures fresh(it) && it.subset == this && it.index == Size()
    {
      it := new ConstIterator(this, |allSubsets|);
    }
  }

  /** Every stored subset is a non-empty set of neighbours. */
  lemma StoredSubsetsAreNeighbourSets(ns: NeighborSubset, i: nat)
    requires ns.Valid() && i < |ns.allSubsets|
    ensures ns.allSubsets[i].0 != {} && ns.allSubsets[i].0 <= Members(ns.neighbors)
  {
    SubsetOfMaskNonEmpty(ns.neighbors, i + 1);
    SubsetOfMaskWithin(ns.neighbors, i + 1);
  }

  /** Every non-empty set of neighbours is stored, at the position its mask
      names. */
  lemma EveryNeighbourSetIsStored(ns: NeighborSubset, s: set<nat>)
    requires ns.Valid() && s != {} && s <= Members(ns.neighbors)
    ensures 0 < MaskOf(ns.neighbors, s) <= |ns.allSubsets|
    ensures ns.allSubsets[MaskOf(ns.neighbors, s) - 1].0 == s
  {
    EveryNonEmptySubsetHasMask(ns.neighbors, s);
  }

  /** With distinct neighbours no subset is stored twice. */
  lemma StoredSubsetsAreDistinct(ns: NeighborSubset, i: nat, j: nat)
    requires ns.Valid() && Distinct(ns.neighbors)
    requires i < j < |ns.allSubsets|
    ensures ns.allSubsets[i].0 != ns.allSubsets[j].0
  {
    MasksNameDistinctSubsets(ns.neighbors, i + 1, j + 1);
  }

  /** A position in a NeighborSubset's list of subsets. */
  class ConstIterator {
    var index: nat
    const subset: NeighborSubset

    constructor (subset: NeighborSubset, index: nat)
      ensures this.subset == subset && this.index == index
    {
      this.index := index;
      this.subset := subset;
    }

    /** Only iterators over the same NeighborSubset may be compared. */
    function Equals(other: ConstIterator): (b: bool)
      reads this, other
      requires subset == other.subset
      ensures b <==> index == other.index
    {
      index == other.index
    }

    function NotEquals(other: ConstIterator): (b: bool)
      reads this, other
      requires subset == other.subset
      ensures b <==> index != other.index
    {
      !Equals(other)
    }

    /** The subset at the current position, which must be before the end. */
    function Deref(): (s: set<nat>)
      reads this
      requires index < subset.Size()
      ensures s == subset.allSubsets[index].0
      ensures subset.Valid() ==> s == SubsetOfMask(subset.neighbors, index + 1)
    {
      subset.allSubsets[index].0
    }

    method Increment() returns (self: ConstIterator)
      modifies this
      ensures self == this && index == old(index) + 1
    {
      index := index + 1;
      self := this;
    }
  }

  /** A loop from Begin() to End() visits every stored subset once, in
      storage order, that is, in ascending bitmask order. */
  method ForEachSubset(ns: NeighborSubset) returns (visited: seq<set<nat>>)
    ensures |visited| == ns.Size()
    ensures forall i | 0 <= i < |visited| :: visited[i] == ns.allSubsets[i].0
    ensures ns.Valid() ==> forall i | 0 <= i < |visited| :: visited[i] == SubsetOfMask(ns.neighbors, i + 1)
  {
    visited := [];
    var it := ns.Begin();
    var end := ns.End();
    while it.NotEquals(end)
      invariant it.subset == ns && end.subset == ns && it != end
      invariant end.index == ns.Size() && it.index <= ns.Size()
      invariant |visited| == it.index
      invariant forall i | 0 <= i < |visited| :: visited[i] == ns.allSubsets[i].0
      decreases ns.Size() - it.index
    {
      visited := visited + [it.Deref()];
      var _ := it.Increment();
    }
  }
}
