/** Sorted, duplicate-free sequences of relation ids: the value that a
    JoinRelationSet stores, and the pure algorithms over it (the merge behind
    Union, the two-pointer scan behind IsSubset, and the sort applied to an
    unordered binding set). */
module RelationIds {

  /** Strictly ascending, hence duplicate-free. */
  ghost predicate StrictlyAscending(s: seq<nat>) {
    forall i, j | 0 <= i < j < |s| :: s[i] < s[j]
  }

  /** No id occurs twice (the order is arbitrary). */
  ghost predicate Distinct(s: seq<nat>) {
    forall i, j | 0 <= i < j < |s| :: s[i] != s[j]
  }

  /** The ids of `s` as a set. */
  ghost function Members(s: seq<nat>): set<nat> {
    set x | x in s
  }

  lemma AscendingTail(s: seq<nat>)
    requires StrictlyAscending(s) && |s| > 0
    ensures StrictlyAscending(s[1..])
    ensures forall x | x in s[1..] :: s[0] < x
  {
    forall x | x in s[1..] ensures s[0] < x {
      var k :| 0 <= k < |s[1..]| && s[1..][k] == x;
      assert s[k + 1] == x;
    }
  }

  lemma HeadIsMember(s: seq<nat>)
    requires |s| > 0
    ensures s[0] in s
  {
  }

  /** A non-empty id is placed in front of a sorted sequence whose ids all
      exceed it. */
  lemma ConsAscending(h: nat, t: seq<nat>)
    requires StrictlyAscending(t)
    requires forall x | x in t :: h < x
    ensures StrictlyAscending([h] + t)
  {
    var r := [h] + t;
    forall i, j | 0 <= i < j < |r| ensures r[i] < r[j] {
      if i == 0 {
        assert r[j] == t[j - 1] && t[j - 1] in t;
      } else {
        assert r[i] == t[i - 1] && r[j] == t[j - 1];
      }
    }
  }

  /** A strictly ascending sequence is determined by its members: two of them
      with the same members are equal. This is what makes sorting the
      canonical choice of representative. */
  lemma {:induction false} AscendingUnique(a: seq<nat>, b: seq<nat>)
    requires StrictlyAscending(a) && StrictlyAscending(b)
    requires forall x :: x in a <==> x in b
    ensures a == b
  {
    if |a| == 0 && |b| == 0 {
    } else if |a| == 0 {
      HeadIsMember(b);
      assert false;
    } else if |b| == 0 {
      HeadIsMember(a);
      assert false;
    } else {
      AscendingTail(a);
      AscendingTail(b);
      AscendingHeadIsLeast(a);
      AscendingHeadIsLeast(b);
      HeadIsMember(a);
      HeadIsMember(b);
      assert a[0] == b[0];
      forall x ensures x in a[1..] <==> x in b[1..] {
        assert x in a <==> x == a[0] || x in a[1..] by { assert a == [a[0]] + a[1..]; }
        assert x in b <==> x == b[0] || x in b[1..] by { assert b == [b[0]] + b[1..]; }
      }
      AscendingUnique(a[1..], b[1..]);
      assert a == [a[0]] + a[1..] && b == [b[0]] + b[1..];
    }
  }

  /** The merge step of Union: walk both sorted sequences front to front,
      emit the smaller head, and emit an id common to both only once. */
  function MergeUnion(a: seq<nat>, b: seq<nat>): seq<nat>
    decreases |a| + |b|
  {
    if |a| == 0 then b
    else if |b| == 0 then a
    else if a[0] == b[0] then [a[0]] + MergeUnion(a[1..], b[1..])
    else if a[0] < b[0] then [a[0]] + MergeUnion(a[1..], b)
    else [b[0]] + MergeUnion(a, b[1..])
  }

  /** The merge holds exactly the ids of either operand, and no more of
      them than the two operands together. */
  lemma {:induction false} MergeUnionMembers(a: seq<nat>, b: seq<nat>)
    ensures forall x :: x in MergeUnion(a, b) <==> x in a || x in b
    ensures |MergeUnion(a, b)| <= |a| + |b|
    decreases |a| + |b|
  {
    if |a| > 0 && |b| > 0 {
      assert a == [a[0]] + a[1..] && b == [b[0]] + b[1..];
      if a[0] == b[0] {
        MergeUnionMembers(a[1..], b[1..]);
      } else if a[0] < b[0] {
        MergeUnionMembers(a[1..], b);
      } else {
        MergeUnionMembers(a, b[1..]);
      }
    }
  }

  /** Merging two sorted sequences gives a sorted sequence. */
  lemma {:induction false} MergeUnionAscending(a: seq<nat>, b: seq<nat>)
    requires StrictlyAscending(a) && StrictlyAscending(b)
    ensures StrictlyAscending(MergeUnion(a, b))
    decreases |a| + |b|
  {
    if |a| > 0 && |b| > 0 {
      AscendingTail(a);
      AscendingTail(b);
      AscendingHeadIsLeast(a);
      AscendingHeadIsLeast(b);
      if a[0] == b[0] {
        MergeUnionAscending(a[1..], b[1..]);
        MergeUnionMembers(a[1..], b[1..]);
        ConsAscending(a[0], MergeUnion(a[1..], b[1..]));
      } else if a[0] < b[0] {
        MergeUnionAscending(a[1..], b);
        MergeUnionMembers(a[1..], b);
        ConsAscending(a[0], MergeUnion(a[1..], b));
      } else {
        MergeUnionAscending(a, b[1..]);
        MergeUnionMembers(a, b[1..]);
        ConsAscending(b[0], MergeUnion(a, b[1..]));
      }
    }
  }

  /** Union is commutative on values, so both argument orders intern the same
      sequence. */
  lemma MergeUnionCommutes(a: seq<nat>, b: seq<nat>)
    requires StrictlyAscending(a) && StrictlyAscending(b)
    ensures MergeUnion(a, b) == MergeUnion(b, a)
  {
    MergeUnionAscending(a, b);
    MergeUnionAscending(b, a);
    MergeUnionMembers(a, b);
    MergeUnionMembers(b, a);
    AscendingUnique(MergeUnion(a, b), MergeUnion(b, a));
  }

  /** For disjoint operands, as the join-order search always passes them, no
      id is dropped: the union has |a| + |b| ids. */
  lemma {:induction false} MergeUnionDisjointSize(a: seq<nat>, b: seq<nat>)
    requires StrictlyAscending(a) && StrictlyAscending(b)
    requires forall x | x in a :: x !in b
    ensures |MergeUnion(a, b)| == |a| + |b|
    decreases |a| + |b|
  {
    if |a| > 0 && |b| > 0 {
      AscendingTail(a);
      AscendingTail(b);
      assert a[0] != b[0] by { assert a[0] in a; }
      if a[0] < b[0] {
        MergeUnionDisjointSize(a[1..], b);
      } else {
        MergeUnionDisjointSize(a, b[1..]);
      }
    }
  }

  /** The two-pointer subset test over two sorted sequences: true iff every
      id of `sub` occurs in `sup`. */
  function SubsetScan(sup: seq<nat>, sub: seq<nat>): (b: bool)
    requires StrictlyAscending(sup) && StrictlyAscending(sub)
    ensures b <==> forall x | x in sub :: x in sup
    decreases |sup| + |sub|
  {
    if |sub| == 0 then true
    else if |sup| == 0 then
      assert sub[0] in sub;
      false
    else
      AscendingTail(sup);
      AscendingTail(sub);
      if sup[0] == sub[0] then
        assert sub == [sub[0]] + sub[1..];
        assert forall x | x in sub[1..] :: x in sup <==> x in sup[1..] by {
          assert sup == [sup[0]] + sup[1..];
        }
        SubsetScan(sup[1..], sub[1..])
      else if sup[0] < sub[0] then
        assert forall x | x in sub :: x in sup <==> x in sup[1..] by {
          assert sup == [sup[0]] + sup[1..];
          assert forall x | x in sub :: sub[0] <= x by {
            assert sub == [sub[0]] + sub[1..];
          }
        }
        SubsetScan(sup[1..], sub)
      else
        // sub[0] is smaller than every id of sup, so it is missing from sup
        assert sub[0] !in sup by {
          assert sup == [sup[0]] + sup[1..];
        }
        assert sub[0] in sub;
        false
  }

  /** Insert one new id into a sorted sequence (a step of the sort applied
      to an unordered binding set). */
  function Insert(x: nat, s: seq<nat>): (r: seq<nat>)
    requires StrictlyAscending(s) && x !in s
    ensures StrictlyAscending(r)
    ensures multiset(r) == multiset(s) + multiset{x}
    decreases |s|
  {
    if |s| == 0 || x < s[0] then
      AscendingHeadIsLeast(s);
      ConsAscending(x, s);
      [x] + s
    else
      AscendingTail(s);
      assert s == [s[0]] + s[1..];
      var t := Insert(x, s[1..]);
      InsertedAbove(s[0], x, s[1..], t);
      ConsAscending(s[0], t);
      [s[0]] + t
  }

  lemma InsertedAbove(h: nat, x: nat, s: seq<nat>, t: seq<nat>)
    requires h < x && forall y | y in s :: h < y
    requires multiset(t) == multiset(s) + multiset{x}
    ensures forall y | y in t :: h < y
  {
    forall y | y in t ensures h < y {
      assert y in multiset(t);
      assert y == x || y in multiset(s);
      if y != x {
        assert y in s;
      }
    }
  }

  lemma AscendingHeadIsLeast(s: seq<nat>)
    requires StrictlyAscending(s)
    ensures |s| > 0 ==> forall y | y in s :: s[0] <= y
  {
    if |s| > 0 {
      AscendingTail(s);
      assert s == [s[0]] + s[1..];
    }
  }

  /** Sort a duplicate-free sequence into ascending order; the result is a
      permutation of the input. */
  function SortDistinct(xs: seq<nat>): (r: seq<nat>)
    requires Distinct(xs)
    ensures StrictlyAscending(r)
    ensures multiset(r) == multiset(xs)
    decreases |xs|
  {
    if |xs| == 0 then []
    else
      var t := SortDistinct(xs[1..]);
      assert xs[0] !in t by {
        assert xs[0] !in xs[1..];
        assert xs[0] !in multiset(xs[1..]);
      }
      assert xs == [xs[0]] + xs[1..];
      Insert(xs[0], t)
  }
}
