# DuckDB join-relation sets and row gather, modelled in Dafny

This project models two pieces of DuckDB's execution core and proves properties of them.

**Relation-set bookkeeping of the join-order optimiser** (`join_relation.dfy`, with the pure parts in `relation_ids.dfy` and `subset_masks.dfy`):

- A `JoinRelationSet` is a sorted, duplicate-free array of relation ids with a count.
- The `JoinRelationSetManager` interns these sets in a prefix tree of `JoinRelationTreeNode`s. Walking the tree from the root along a sorted id sequence reaches the one node that holds the set of those ids, so logically equal sets are one stored instance.
- The manager creates or gets a set from:
  - a single id;
  - an unordered set of bindings, which it copies and sorts;
  - a sorted array;
  - the union of two sets, through a merge of the two sorted arrays.
- `IsSubset` is a two-pointer scan over two sorted arrays.
- A `NeighborSubset` stores the non-empty subsets of a neighbour list. A `ConstIterator` walks them from `Begin()` to `End()`.

The manager is a class:

- Its tree is an arena. `nodes[0]` is the root, and each child map sends an id to a node index.
- Ghost fields record, for each node, the path that leads to it and its parent, plus the map from paths to nodes and the map from paths to materialised sets.
- `Valid()` ties these together.
- Each method that grows the tree is proved to keep `Valid()`, using value-level lemmas about the step it takes.
- Object identity of the returned `JoinRelationSet` stands for the C++ reference identity.

**Row-to-column gather** (`row_gather.dfy`):

- `TemplatedGatherLoop` copies one column out of row records into a column vector's data buffer. Selection vectors drive it: row `row_sel[i]` goes to column position `col_sel[i]`.
- It clears the column's validity bit wherever the row's validity bit for the column is unset.
- `TemplatedFullScanLoop` is the same loop with both selections the identity.
- `Gather` and `FullScanColumn` make the column flat, then dispatch on its physical type: to the scalar loop (with the C++ type it loads), to the nested gather, or to an exception.
- Each loop is a method over the column's `array` buffers. It is proved against a recursive specification of the first n iterations (`GatherData`, `GatherMask`).
- Lemmas about that specification state what each column position ends up holding.

## Model

| member | source | states |
|---|---|---|
| JoinRelation.JoinRelationSet.constructor | src/include/duckdb/optimizer/join_order/join_relation.hpp:30-31 | the set holds the given array and count |
| JoinRelation.JoinRelationSet.IsSubset | src/include/duckdb/optimizer/join_order/join_relation.hpp:38 | true iff every id of `sub` occurs in `super`, for two sorted sets |
| RelationIds.SubsetScan | src/include/duckdb/optimizer/join_order/join_relation.hpp:38 | the two-pointer scan over two ascending sequences answers exactly "every id of sub is in sup" |
| RelationIds.AscendingUnique | src/include/duckdb/optimizer/join_order/join_relation.hpp:57-58 | two strictly ascending id sequences with the same members are equal, so the sorted, duplicate-free form is canonical |
| RelationIds.MergeUnionMembers | src/include/duckdb/optimizer/join_order/join_relation.hpp:59-60 | the merge holds exactly the ids of either operand, and at most their combined count |
| RelationIds.MergeUnionAscending | src/include/duckdb/optimizer/join_order/join_relation.hpp:59-60 | merging two ascending sequences gives an ascending, duplicate-free sequence |
| RelationIds.MergeUnionCommutes | src/include/duckdb/optimizer/join_order/join_relation.hpp:59-60 | the merge does not depend on operand order |
| RelationIds.MergeUnionDisjointSize | src/include/duckdb/optimizer/join_order/join_relation.hpp:59-60 | for disjoint operands the merge keeps every id: left.count + right.count ids |
| RelationIds.Insert | src/include/duckdb/optimizer/join_order/join_relation.hpp:55-56 | inserting a new id keeps the sequence ascending and adds exactly that id |
| RelationIds.SortDistinct | src/include/duckdb/optimizer/join_order/join_relation.hpp:55-56 | sorting a duplicate-free sequence gives an ascending permutation of it |
| JoinRelation.ChildPathPresent | src/include/duckdb/optimizer/join_order/join_relation.hpp:47-50 | a path one id longer than a node's path is in the tree only if that node has a child for the id |
| JoinRelation.AddChildKeepsTree | src/include/duckdb/optimizer/join_order/join_relation.hpp:47-50 | adding a missing child keeps the tree well formed and registers the new path at the new node |
| JoinRelation.MaterialiseKeepsTree | src/include/duckdb/optimizer/join_order/join_relation.hpp:47-50 | storing a set whose ids are a node's path at that empty node keeps the tree well formed, with the set registered under its ids |
| JoinRelation.JoinRelationSetManager.constructor | src/include/duckdb/optimizer/join_order/join_relation.hpp:65 | a manager starts as a bare root with no sets, and is well formed |
| JoinRelation.JoinRelationSetManager.AddChild | src/include/duckdb/optimizer/join_order/join_relation.hpp:49 | a new child node is appended under node `info` for id `k`: the node list changes only at `info` and gains the child, and the new path is the only new key |
| JoinRelation.JoinRelationSetManager.FindOrAddChild | src/include/duckdb/optimizer/join_order/join_relation.hpp:49 | the child edge for `k` is followed, or created first, and leads to the node of the longer path. The only key the tree can gain is that path. When the child exists, nothing changes; otherwise exactly one node is added, and only node `info` changes among the old ones |
| JoinRelation.JoinRelationSetManager.WalkPath | src/include/duckdb/optimizer/join_order/join_relation.hpp:57-58 | walking from the root along the ids ends at the node registered for exactly those ids. The tree's keys become the old keys plus the prefixes of the ids, old paths keep their nodes, and every old node whose path is not a prefix of the ids is unchanged |
| JoinRelation.JoinRelationSetManager.Materialise | src/include/duckdb/optimizer/join_order/join_relation.hpp:47 | a fresh set holding the given ids is stored at the empty node whose path is those ids and registered under them; paths, keys and every other node are unchanged |
| JoinRelation.JoinRelationSetManager.GetJoinRelation | src/include/duckdb/optimizer/join_order/join_relation.hpp:57-58 | for a sorted, duplicate-free array: returns the set holding exactly its first `count` ids. If that set is already stored, it is returned; otherwise a fresh set is stored under those ids. Nothing else is interned, the tree gains exactly the missing prefixes of the ids, and every node off those prefixes is unchanged |
| JoinRelation.JoinRelationSetManager.GetJoinRelationOfIndex | src/include/duckdb/optimizer/join_order/join_relation.hpp:53-54 | returns the stored set {index} of count 1, creating it only if absent; the tree gains at most the path [index], and only the root and that node can change |
| JoinRelation.CopyBindings | src/include/duckdb/optimizer/join_order/join_relation.hpp:55-56 | copies the bindings into a fresh array of their size, each once |
| JoinRelation.JoinRelationSetManager.GetJoinRelationOfBindings | src/include/duckdb/optimizer/join_order/join_relation.hpp:55-56 | returns the stored set whose ids are exactly the bindings, in ascending order, with count = number of bindings; the tree changes only along the prefixes of those ids |
| JoinRelation.MergeStep | src/include/duckdb/optimizer/join_order/join_relation.hpp:59-60 | one step of the merge loop emits the head of the merge of the remaining suffixes |
| JoinRelation.MergeRelations | src/include/duckdb/optimizer/join_order/join_relation.hpp:59-60 | the merge loop fills a fresh buffer of left.count + right.count entries with the merge of the two sorted arrays |
| JoinRelation.JoinRelationSetManager.Union | src/include/duckdb/optimizer/join_order/join_relation.hpp:59-60 | returns the stored set whose ids are the merge of the two sets' ids; it is sorted and duplicate-free; the tree changes only along the prefixes of those ids |
| JoinRelation.SingletonIsShared | src/include/duckdb/optimizer/join_order/join_relation.hpp:53-54 | two requests for the same singleton give the identical instance |
| JoinRelation.BindingsMatchSortedArray | src/include/duckdb/optimizer/join_order/join_relation.hpp:55-58 | an unordered binding set and the sorted array of the same ids give the identical instance |
| JoinRelation.UnionIsSymmetric | src/include/duckdb/optimizer/join_order/join_relation.hpp:59-60 | Union(A, B) and Union(B, A) are the identical instance, whose members are those of A or B |
| SubsetMasks.SubsetOfMaskOf | src/include/duckdb/optimizer/join_order/join_relation.hpp:114 | decoding the mask of a set gives back the set's neighbours |
| SubsetMasks.MaskOfSubsetOfMask | src/include/duckdb/optimizer/join_order/join_relation.hpp:114 | with distinct neighbours, encoding the subset a mask names gives back the mask |
| SubsetMasks.MasksNameDistinctSubsets | src/include/duckdb/optimizer/join_order/join_relation.hpp:114 | different masks below 2^K name different subsets |
| SubsetMasks.EveryNonEmptySubsetHasMask | src/include/duckdb/optimizer/join_order/join_relation.hpp:114 | every non-empty subset of the neighbours has a mask in 1 .. 2^K - 1 |
| SubsetMasks.SubsetOfMaskNonEmpty | src/include/duckdb/optimizer/join_order/join_relation.hpp:114 | a mask in 1 .. 2^K - 1 names at least one neighbour |
| JoinRelation.NeighborSubset.constructor | src/include/duckdb/optimizer/join_order/join_relation.hpp:99 | stores 2^K - 1 entries, entry i being the subset of mask i + 1 with its size |
| JoinRelation.StoredSubsetsAreNeighbourSets | src/include/duckdb/optimizer/join_order/join_relation.hpp:114 | every stored subset is a non-empty set of neighbours |
| JoinRelation.EveryNeighbourSetIsStored | src/include/duckdb/optimizer/join_order/join_relation.hpp:114 | every non-empty set of neighbours is stored, at the position its mask names |
| JoinRelation.StoredSubsetsAreDistinct | src/include/duckdb/optimizer/join_order/join_relation.hpp:114 | with distinct neighbours no subset is stored twice |
| JoinRelation.NeighborSubset.Size | src/include/duckdb/optimizer/join_order/join_relation.hpp:109-111 | the number of stored subsets, which is 2^K - 1 for K neighbours |
| JoinRelation.NeighborSubset.Begin | src/include/duckdb/optimizer/join_order/join_relation.hpp:101-103 | an iterator over this subset list at index 0 |
| JoinRelation.NeighborSubset.End | src/include/duckdb/optimizer/join_order/join_relation.hpp:105-107 | an iterator over this subset list at index Size() |
| JoinRelation.ConstIterator.constructor | src/include/duckdb/optimizer/join_order/join_relation.hpp:76-77 | an iterator holds its subset list and index |
| JoinRelation.ConstIterator.Equals | src/include/duckdb/optimizer/join_order/join_relation.hpp:79-82 | only iterators over the same subset list compare; they are equal iff their indices are |
| JoinRelation.ConstIterator.NotEquals | src/include/duckdb/optimizer/join_order/join_relation.hpp:84-86 | the negation of Equals: the indices differ |
| JoinRelation.ConstIterator.Deref | src/include/duckdb/optimizer/join_order/join_relation.hpp:88-91 | requires index < Size(); yields the stored subset at the index (the subset of mask index + 1) |
| JoinRelation.ConstIterator.Increment | src/include/duckdb/optimizer/join_order/join_relation.hpp:93-96 | raises the index by exactly one and returns the iterator itself |
| JoinRelation.ForEachSubset | src/include/duckdb/optimizer/join_order/join_relation.hpp:101-111 | a loop from Begin() to End() visits each stored subset exactly once, in storage order |
| RowGather.SelectionVector.GetIndex | src/common/row_operations/row_gather.cpp:29-31 | the identity selection maps i to i |
| RowGather.GetEntryIndex | src/common/row_operations/row_gather.cpp:20-22 | column `col_no`'s validity sits at byte entry_idx, bit idx_in_entry < 8, with entry_idx * 8 + idx_in_entry = col_no |
| RowGather.GatherDataUntouched | src/common/row_operations/row_gather.cpp:28-37 | a column position no col_sel[i] names keeps its data |
| RowGather.GatherDataLastWrite | src/common/row_operations/row_gather.cpp:28-32 | the last iteration naming a position leaves there the field at col_offset of the row it selected |
| RowGather.GatherDataSelected | src/common/row_operations/row_gather.cpp:28-32 | for a selection naming no position twice, data[col_sel[i]] is the field of row row_sel[i] for every i < count |
| RowGather.GatherMaskExact | src/common/row_operations/row_gather.cpp:33-36 | a column position ends valid iff it was valid and every iteration naming it read a row whose bit for col_no is set |
| RowGather.GatherMaskOnlyClears | src/common/row_operations/row_gather.cpp:33-36 | the gather only clears validity bits |
| RowGather.TemplatedGatherLoop | src/common/row_operations/row_gather.cpp:16-38 | the data and validity buffers end as the specification of `count` iterations says |
| RowGather.Vector.SetVectorType | src/common/row_operations/row_gather.cpp:62 | the vector takes the new vector type |
| RowGather.GatherRoute | src/common/row_operations/row_gather.cpp:63-111 | LIST, MAP and STRUCT, and only they, go to the nested gather; unsupported types throw InternalException("Unimplemented type for RowOperations::Gather") |
| RowGather.FullScanRoute | src/common/row_operations/row_gather.cpp:138-187 | no type goes to a nested path; unsupported types throw NotImplementedException("Unimplemented type for RowOperations::FullScanColumn") |
| RowGather.RoutesAgree | src/common/row_operations/row_gather.cpp:138-187 | the two tables agree where Gather has a scalar loop; only PTR (the pointer-sized type) and HASH are scalar for FullScanColumn alone; the nested types throw there |
| RowGather.Gather | src/common/row_operations/row_gather.cpp:57-112 | requires flat pointer rows; makes the column flat; on a scalar route the buffers become the gather result; on an unsupported type it throws with the buffers unchanged |
| RowGather.TemplatedFullScanLoop | src/common/row_operations/row_gather.cpp:114-133 | the buffers end as the gather with identity selections over `count` rows |
| RowGather.FullScanContents | src/common/row_operations/row_gather.cpp:125-132 | after a full scan, position i < count holds row i's field and is valid iff it was valid and row i's bit is set; later positions are unchanged |
| RowGather.FullScanColumn | src/common/row_operations/row_gather.cpp:135-188 | uses the layout's offset of column col_no; makes the column flat; on a scalar route the buffers become the full-scan result; on an unsupported type it throws with the buffers unchanged |

## Left out

- The bodies of `JoinRelationSet`, `JoinRelationSetManager` and `NeighborSubset` are declared in `join_relation.hpp` but defined in a `.cpp` file that is not part of this model. The operations are modelled from their declarations and comments:
  - the tree walk of `GetJoinRelation`;
  - the copy-then-sort of the binding overload;
  - the merge of `Union`;
  - the scan of `IsSubset`.
- JoinRelation.JoinRelationSetManager.Union: the header calls it a union, and the join-order search passes disjoint sets. The model's merge keeps an id common to both sets once. `MergeUnionDisjointSize` states that for disjoint sets no id is lost.
- JoinRelation.NeighborSubset.constructor: the body that fills `all_subsets` is not shown. The model stores the non-empty subsets in ascending bitmask order, with each subset's size as the second component of the pair. The three lemmas about stored subsets (non-empty neighbour sets, every one stored, none twice) are proved for this ascending-bitmask order only: `Valid()` fixes entry i to the subset of mask i + 1. Any other iteration order, and any other meaning of the pair's second component, is not modelled.
- `NeighborSubset.Begin` and `NeighborSubset.End` are methods, because they create a new iterator object. C++ returns the iterator by value; the model allocates one.
- Memory ownership is not modelled: `unique_ptr`, moving `unsafe_unique_array` into a set, and the tree nodes' addresses. Tree nodes are arena indices, and the returned reference is the set object.
- `idx_t` is unbounded (`nat`): 64-bit wrap-around of ids and counts is not modelled.
- The sort in the bindings overload is inferred: its body is not shown, and the array overload's comment at `join_relation.hpp:57` demands sorted, duplicate-free input. The model sorts with an insertion sort (`SortDistinct`) and states only the result, an ascending permutation.
- `ToString`, the commented-out `Difference` and `SingleJoinRelation` are not modelled. They are formatting, dead code and operator references.
- The plan enumerator, join graph and cost model are not part of this model.
- `GatherNestedVector` / `RowOperations::HeapGather` (the LIST, MAP and STRUCT route) is not modelled. Its body is not shown. `RowGather.Gather` returns the `Nested` route and states nothing about the column buffers on that route.
- The byte-level `Load<T>(row + col_offset)` and `ValidityBytes` are abstracted:
  - A row is its validity bytes plus a map from column offset to stored value.
  - Bit `b` of an entry is read as `entry & (1 << b)`.
  - Values of the templated C++ types are copied, never interpreted. One generic loop stands for every instantiation, and the route names the C++ type.
- RowGather.Vector.SetVectorType: changes only the vector type. Other effects of the real `SetVectorType` on auxiliary buffers are not modelled.
- A column's validity mask is an explicit `array<bool>`. The lazily allocated "all valid" mask is not modelled.
- `count` is not bounded by `STANDARD_VECTOR_SIZE`.
- The loops require that the rows' storage and the column's two buffers are distinct arrays. The C++ code reads rows through pointers into row storage, apart from the column buffers.
- The `D_ASSERT` checks become preconditions: flat rows of pointer type, the same subset for compared iterators, and dereference before the end.
- Exceptions are the `Throws` route value, not control flow.
- `PhysicalType` lists the types the two dispatch tables name, plus `BIT`, `UNKNOWN` and `INVALID` for the rest. The full enumeration is not part of this model.
