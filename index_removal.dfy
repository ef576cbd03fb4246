/**
 * Removing a list of positions from a vector, as both `simp_force` passes
 * do: the positions are collected in ascending order and removed one by
 * one starting from the last, so earlier positions stay valid.
 */
module IndexRemoval {

  /** The elements whose `keep` flag is set, in their original order. */
  function Select<A>(s: seq<A>, keep: seq<bool>): seq<A>
    requires |keep| == |s|
  {
    if s == [] then [] else (if keep[0] then [s[0]] else []) + Select(s[1..], keep[1..])
  }

  /** An element survives exactly when it sits at some position whose flag is set. */
  lemma {:induction false} SelectMembership<A>(s: seq<A>, keep: seq<bool>, x: A)
    requires |keep| == |s|
    ensures x in Select(s, keep) <==> exists i :: 0 <= i < |s| && keep[i] && s[i] == x
  {
    if s != [] {
      SelectMembership(s[1..], keep[1..], x);
      if x in Select(s, keep) && !(keep[0] && s[0] == x) {
        var i :| 0 <= i < |s| - 1 && keep[1..][i] && s[1..][i] == x;
        assert keep[i + 1] && s[i + 1] == x;
      }
      if exists i :: 0 <= i < |s| && keep[i] && s[i] == x {
        var i :| 0 <= i < |s| && keep[i] && s[i] == x;
        if i > 0 {
          assert keep[1..][i - 1] && s[1..][i - 1] == x;
        }
      }
    }
  }

  /** The positions whose `keep` flag is clear, in ascending order. */
  function ClearedPositions(keep: seq<bool>): (r: seq<nat>)
    ensures forall k :: 0 <= k < |r| ==> r[k] < |keep|
    decreases |keep|
  {
    if keep == [] then []
    else ClearedPositions(keep[..|keep| - 1]) + (if keep[|keep| - 1] then [] else [|keep| - 1])
  }

  predicate Increasing(r: seq<nat>)
  {
    forall k, m :: 0 <= k < m < |r| ==> r[k] < r[m]
  }

  /** The positions are listed in ascending order, and exactly the cleared flags are listed. */
  lemma {:induction false} ClearedPositionsShape(keep: seq<bool>)
    ensures Increasing(ClearedPositions(keep))
    ensures forall p :: 0 <= p < |keep| ==> (!keep[p] <==> p in ClearedPositions(keep))
    decreases |keep|
  {
    if keep != [] {
      var pre := keep[..|keep| - 1];
      ClearedPositionsShape(pre);
      forall p | 0 <= p < |keep| - 1 ensures keep[p] == pre[p] { }
    }
  }

  lemma {:induction false} SelectAllKept<A>(s: seq<A>, keep: seq<bool>, a: nat, b: nat)
    requires |keep| == |s| && a <= b <= |s|
    requires forall k :: a <= k < b ==> keep[k]
    ensures Select(s[a..], keep[a..]) == s[a..b] + Select(s[b..], keep[b..])
    decreases b - a
  {
    if a < b {
      assert s[a..][1..] == s[a + 1..] && keep[a..][1..] == keep[a + 1..];
      SelectAllKept(s, keep, a + 1, b);
      assert s[a..b] == [s[a]] + s[a + 1..b];
    }
  }

  lemma SelectSkip<A>(s: seq<A>, keep: seq<bool>, p: nat)
    requires |keep| == |s| && p < |s| && !keep[p]
    ensures Select(s[p..], keep[p..]) == Select(s[p + 1..], keep[p + 1..])
  {
    assert s[p..][1..] == s[p + 1..] && keep[p..][1..] == keep[p + 1..];
  }

  /** What is left after the positions `indices[j..]` have been removed. */
  function Removed<A>(s: seq<A>, keep: seq<bool>, indices: seq<nat>, j: nat): seq<A>
    requires |keep| == |s| && j <= |indices|
    requires forall k :: 0 <= k < |indices| ==> indices[k] < |s|
  {
    var c := if j < |indices| then indices[j] else |s|;
    s[..c] + Select(s[c..], keep[c..])
  }

  /** A position strictly between two neighbouring entries of an increasing list is not listed. */
  lemma BetweenNotListed(r: seq<nat>, j: nat, k: nat)
    requires Increasing(r) && j <= |r|
    requires j > 0 ==> r[j - 1] < k
    requires j < |r| ==> k < r[j]
    ensures k !in r
  {
    forall m | 0 <= m < |r| ensures r[m] != k {
      if m < j - 1 {
        assert r[m] < r[j - 1];
      } else if m > j {
        assert r[j] < r[m];
      }
    }
  }

  lemma GapKept(keep: seq<bool>, indices: seq<nat>, j: nat)
    requires indices == ClearedPositions(keep) && j <= |indices|
    ensures var lo := if j == 0 then 0 else indices[j - 1] + 1;
      var c := if j < |indices| then indices[j] else |keep|;
      forall k :: lo <= k < c ==> keep[k]
  {
    ClearedPositionsShape(keep);
    var lo := if j == 0 then 0 else indices[j - 1] + 1;
    var c := if j < |indices| then indices[j] else |keep|;
    forall k | lo <= k < c ensures keep[k] {
      BetweenNotListed(indices, j, k);
    }
  }

  /** Removing position `p` just below the already-processed suffix starting at `c`. */
  lemma RemoveOne<A>(s: seq<A>, keep: seq<bool>, p: nat, c: nat)
    requires |keep| == |s| && p < c <= |s| && !keep[p]
    requires forall k :: p < k < c ==> keep[k]
    ensures var r := s[..c] + Select(s[c..], keep[c..]);
      p < |r| && r[..p] + r[p + 1..] == s[..p] + Select(s[p..], keep[p..])
  {
    SelectAllKept(s, keep, p + 1, c);
    SelectSkip(s, keep, p);
    var r := s[..c] + Select(s[c..], keep[c..]);
    assert r[..p] == s[..p];
    assert r[p + 1..] == s[p + 1..c] + Select(s[c..], keep[c..]);
  }

  lemma RemovalStep<A>(s: seq<A>, keep: seq<bool>, indices: seq<nat>, j: nat)
    requires |keep| == |s| && indices == ClearedPositions(keep) && 0 < j <= |indices|
    ensures indices[j - 1] < |Removed(s, keep, indices, j)|
    ensures var r := Removed(s, keep, indices, j);
      r[..indices[j - 1]] + r[indices[j - 1] + 1..] == Removed(s, keep, indices, j - 1)
  {
    var c := if j < |indices| then indices[j] else |s|;
    var p := indices[j - 1];
    assert p < c && !keep[p] by {
      ClearedPositionsShape(keep);
      assert Increasing(indices);
      if j < |indices| { assert indices[j - 1] < indices[j]; }
    }
    GapKept(keep, indices, j);
    RemoveOne(s, keep, p, c);
  }

  /**
   * `for remove in remove_indecies.iter().rev() { v.remove(*remove) }`
   * where the indices are the cleared positions of `keep`.
   */
  method RemoveInReverse<A>(s: seq<A>, indices: seq<nat>, ghost keep: seq<bool>) returns (r: seq<A>)
    requires |keep| == |s| && indices == ClearedPositions(keep)
    ensures r == Select(s, keep)
  {
    r := s;
    var j := |indices|;
    while j > 0
      invariant 0 <= j <= |indices|
      invariant r == Removed(s, keep, indices, j)
    {
      RemovalStep(s, keep, indices, j);
      r := r[..indices[j - 1]] + r[indices[j - 1] + 1..];
      j := j - 1;
    }
    GapKept(keep, indices, 0);
    SelectAllKept(s, keep, 0, if 0 < |indices| then indices[0] else |s|);
  }
}
