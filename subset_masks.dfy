/** Subsets of a neighbour list named by bitmasks: bit b of a mask picks the
    neighbour at position b. Enumerating the masks 1 .. 2^K - 1 in ascending
    order is the fixed order in which a NeighborSubset stores the non-empty
    subsets of its K neighbours. */
module SubsetMasks {
  import opened RelationIds

  function Pow2(n: nat): (p: nat)
    ensures p >= 1
  {
    if n == 0 then 1 else 2 * Pow2(n - 1)
  }

  /** The neighbours selected by `mask`: the lowest bit decides about ns[0],
      the rest of the mask about ns[1..]. */
  function SubsetOfMask(ns: seq<nat>, mask: nat): set<nat>
    decreases |ns|
  {
    if |ns| == 0 then {}
    else (if mask % 2 == 1 then {ns[0]} else {}) + SubsetOfMask(ns[1..], mask / 2)
  }

  /** The inverse direction: the mask whose bit b is set iff ns[b] is in `s`. */
  ghost function MaskOf(ns: seq<nat>, s: set<nat>): nat
    decreases |ns|
  {
    if |ns| == 0 then 0
    else (if ns[0] in s then 1 else 0) + 2 * MaskOf(ns[1..], s)
  }

  lemma MembersCons(ns: seq<nat>)
    requires |ns| > 0
    ensures Members(ns) == {ns[0]} + Members(ns[1..])
  {
    assert ns == [ns[0]] + ns[1..];
  }

  /** A mask picks neighbours only. */
  lemma {:induction false} SubsetOfMaskWithin(ns: seq<nat>, mask: nat)
    ensures SubsetOfMask(ns, mask) <= Members(ns)
    decreases |ns|
  {
    if |ns| > 0 {
      MembersCons(ns);
      SubsetOfMaskWithin(ns[1..], mask / 2);
    }
  }

  /** Every mask below 2^K names a subset of K neighbours' positions. */
  lemma {:induction false} MaskOfBound(ns: seq<nat>, s: set<nat>)
    ensures MaskOf(ns, s) < Pow2(|ns|)
    decreases |ns|
  {
    if |ns| > 0 {
      MaskOfBound(ns[1..], s);
    }
  }

  /** The mask of a set depends only on which neighbours the set holds. */
  lemma {:induction false} MaskOfAgree(ns: seq<nat>, s1: set<nat>, s2: set<nat>)
    requires s1 * Members(ns) == s2 * Members(ns)
    ensures MaskOf(ns, s1) == MaskOf(ns, s2)
    decreases |ns|
  {
    if |ns| > 0 {
      MembersCons(ns);
      assert ns[0] in s1 <==> ns[0] in s2 by {
        assert ns[0] in s1 <==> ns[0] in s1 * Members(ns);
        assert ns[0] in s2 <==> ns[0] in s2 * Members(ns);
      }
      assert s1 * Members(ns[1..]) == s2 * Members(ns[1..]) by {
        forall x | x in Members(ns[1..]) ensures x in s1 <==> x in s2 {
          assert x in Members(ns);
          assert x in s1 <==> x in s1 * Members(ns);
          assert x in s2 <==> x in s2 * Members(ns);
        }
      }
      MaskOfAgree(ns[1..], s1, s2);
    }
  }

  /** Decoding the mask of a set gives back the set's neighbours. */
  lemma {:induction false} SubsetOfMaskOf(ns: seq<nat>, s: set<nat>)
    ensures SubsetOfMask(ns, MaskOf(ns, s)) == s * Members(ns)
    decreases |ns|
  {
    if |ns| > 0 {
      MembersCons(ns);
      var bit := if ns[0] in s then 1 else 0;
      var rest := MaskOf(ns[1..], s);
      assert MaskOf(ns, s) == bit + 2 * rest;
      assert (bit + 2 * rest) % 2 == bit;
      assert (bit + 2 * rest) / 2 == rest;
      SubsetOfMaskOf(ns[1..], s);
    }
  }

  /** Encoding the subset a mask names gives back the mask, provided the
      neighbours are distinct and the mask has no bit beyond position K - 1. */
  lemma {:induction false} MaskOfSubsetOfMask(ns: seq<nat>, mask: nat)
    requires Distinct(ns)
    requires mask < Pow2(|ns|)
    ensures MaskOf(ns, SubsetOfMask(ns, mask)) == mask
    decreases |ns|
  {
    if |ns| == 0 {
    } else {
      var t := ns[1..];
      var s := SubsetOfMask(ns, mask);
      var s' := SubsetOfMask(t, mask / 2);
      MembersCons(ns);
      assert Distinct(t) by {
        forall i, j | 0 <= i < j < |t| ensures t[i] != t[j] {
          assert t[i] == ns[i + 1] && t[j] == ns[j + 1];
        }
      }
      assert ns[0] !in Members(t) by {
        forall k | 0 <= k < |t| ensures t[k] != ns[0] {
          assert t[k] == ns[k + 1];
        }
      }
      SubsetOfMaskWithin(t, mask / 2);
      assert ns[0] in s <==> mask % 2 == 1;
      assert s * Members(t) == s' * Members(t);
      MaskOfAgree(t, s, s');
      MaskOfSubsetOfMask(t, mask / 2);
      assert MaskOf(ns, s) == mask % 2 + 2 * (mask / 2);
    }
  }

  /** Different masks below 2^K name different subsets (K distinct
      neighbours): no subset is stored twice. */
  lemma MasksNameDistinctSubsets(ns: seq<nat>, m1: nat, m2: nat)
    requires Distinct(ns)
    requires m1 < Pow2(|ns|) && m2 < Pow2(|ns|) && m1 != m2
    ensures SubsetOfMask(ns, m1) != SubsetOfMask(ns, m2)
  {
    MaskOfSubsetOfMask(ns, m1);
    MaskOfSubsetOfMask(ns, m2);
  }

  /** Every non-empty subset of the neighbours is named by some mask in
      1 .. 2^K - 1: no subset is missed. */
  lemma EveryNonEmptySubsetHasMask(ns: seq<nat>, s: set<nat>)
    requires s != {} && s <= Members(ns)
    ensures 0 < MaskOf(ns, s) < Pow2(|ns|)
    ensures SubsetOfMask(ns, MaskOf(ns, s)) == s
  {
    MaskOfBound(ns, s);
    SubsetOfMaskOf(ns, s);
    SubsetOfMaskZero(ns);
    assert s * Members(ns) == s;
  }

  lemma {:induction false} SubsetOfMaskZero(ns: seq<nat>)
    ensures SubsetOfMask(ns, 0) == {}
    decreases |ns|
  {
    if |ns| > 0 {
      SubsetOfMaskZero(ns[1..]);
    }
  }

  /** A mask in 1 .. 2^K - 1 names at least one neighbour. */
  lemma {:induction false} SubsetOfMaskNonEmpty(ns: seq<nat>, mask: nat)
    requires 0 < mask < Pow2(|ns|)
    ensures SubsetOfMask(ns, mask) != {}
    decreases |ns|
  {
    if mask % 2 == 1 {
      assert ns[0] in SubsetOfMask(ns, mask);
    } else {
      SubsetOfMaskNonEmpty(ns[1..], mask / 2);
    }
  }
}
