/**
 Cluster chains over one allocation table, held as a sequence of entries.
 Everything here is independent of how the table lies on disk.
 */
module FatTable {
  import opened Seqs

  /** The successor of c, or 0 at the end of a chain or for a bad link. */
  function Next(t: seq<nat>, c: nat): (n: nat)
    ensures n == 0 || 2 <= n < |t|
  {
    if c < 2 || c >= |t| || t[c] < 2 || t[c] >= |t| then 0 else t[c]
  }

  /** s is a terminated chain of allocated clusters. */
  ghost predicate IsChain(t: seq<nat>, s: seq<nat>) {
    && |s| > 0
    && (forall i :: 0 <= i < |s| ==> 2 <= s[i] < |t| && t[s[i]] != 0)
    && (forall i :: 0 <= i < |s| - 1 ==> Next(t, s[i]) == s[i + 1])
    && Next(t, s[|s| - 1]) == 0
  }

  // ----- chains are acyclic, bounded and determined by their head -----

  lemma {:induction false} EqualSuffix(t: seq<nat>, s: seq<nat>, i: nat, j: nat, k: nat)
    requires IsChain(t, s) && i < j && j + k < |s| && s[i] == s[j]
    ensures s[i + k] == s[j + k]
  {
    if k > 0 {
      EqualSuffix(t, s, i, j, k - 1);
      assert Next(t, s[i + (k - 1)]) == s[i + k];
      assert Next(t, s[j + (k - 1)]) == s[j + k];
    }
  }

  /** A chain that ends never visits a cluster twice. */
  lemma ChainDistinct(t: seq<nat>, s: seq<nat>)
    requires IsChain(t, s)
    ensures Distinct(s)
  {
    forall i, j | 0 <= i < j < |s| ensures s[i] != s[j] {
      if s[i] == s[j] {
        var k := |s| - 1 - j;
        assert Next(t, s[i + k]) == s[i + k + 1];
        EqualSuffix(t, s, i, j, k);
      }
    }
  }

  lemma {:induction false} DistinctBounded(s: seq<nat>, n: nat)
    requires Distinct(s) && forall i :: 0 <= i < |s| ==> 2 <= s[i] < n
    ensures |s| == 0 || |s| + 2 <= n
    decreases n
  {
    if |s| > 0 {
      assert 2 <= s[0] < n;
      // drop the value n - 1, wherever it is
      if k :| 0 <= k < |s| && s[k] == n - 1 {
        var r := s[..k] + s[k + 1..];
        assert forall i :: 0 <= i < |r| ==> r[i] == if i < k then s[i] else s[i + 1];
        DistinctBounded(r, n - 1);
      } else {
        DistinctBounded(s, n - 1);
      }
    }
  }

  lemma ChainLength(t: seq<nat>, s: seq<nat>)
    requires IsChain(t, s)
    ensures |s| + 2 <= |t|
  {
    ChainDistinct(t, s);
    DistinctBounded(s, |t|);
  }

  lemma {:induction false} ChainUniqueAt(t: seq<nat>, s: seq<nat>, s': seq<nat>, k: nat)
    requires IsChain(t, s) && IsChain(t, s') && s[0] == s'[0] && k < |s|
    ensures k < |s'| && s[k] == s'[k]
  {
    if k > 0 {
      ChainUniqueAt(t, s, s', k - 1);
      assert Next(t, s[k - 1]) == s[k];
    }
  }

  /** The head of a chain fixes the whole chain. */
  lemma ChainUnique(t: seq<nat>, s: seq<nat>, s': seq<nat>)
    requires IsChain(t, s) && IsChain(t, s') && s[0] == s'[0]
    ensures s == s'
  {
    ChainUniqueAt(t, s, s', |s| - 1);
    ChainUniqueAt(t, s', s, |s'| - 1);
    forall k | 0 <= k < |s| ensures s[k] == s'[k] {
      ChainUniqueAt(t, s, s', k);
    }
  }

  // ----- changing the table -----

  /** A chain only depends on the entries of its own clusters. */
  lemma ChainFrame(t: seq<nat>, t': seq<nat>, s: seq<nat>)
    requires IsChain(t, s) && |t'| == |t|
    requires forall i :: 0 <= i < |s| ==> t'[s[i]] == t[s[i]]
    ensures IsChain(t', s)
  {
  }

  /** Linking a marked free cluster after the last one extends the chain. */
  lemma ChainExtend(t: seq<nat>, s: seq<nat>, c: nat, eoc: nat)
    requires IsChain(t, s) && 2 <= c < |t| && t[c] == 0 && eoc >= |t|
    ensures s[|s| - 1] < |t| && IsChain(t[c := eoc][s[|s| - 1] := c], s + [c])
  {
    ChainDistinct(t, s);
    var t' := t[c := eoc][s[|s| - 1] := c];
    var s' := s + [c];
    assert c !in s;
    forall i | 0 <= i < |s'| - 1 ensures Next(t', s'[i]) == s'[i + 1] {
      if i < |s| - 1 {
        assert s[i] != s[|s| - 1];
        assert Next(t, s[i]) == s[i + 1];
      }
    }
  }

  lemma ChainSingle(t: seq<nat>, c: nat, eoc: nat)
    requires 2 <= c < |t| && eoc >= |t|
    ensures IsChain(t[c := eoc], [c])
  {
  }

  // ----- reachability, on tables of any content -----

  ghost predicate IsPath(t: seq<nat>, p: seq<nat>, a: nat, b: nat) {
    && |p| > 0 && p[0] == a && p[|p| - 1] == b
    && (forall i :: 0 <= i < |p| ==> 2 <= p[i] < |t|)
    && (forall i :: 0 <= i < |p| - 1 ==> Next(t, p[i]) == p[i + 1])
  }

  /** b is a cluster met when following links from a. */
  ghost predicate Reachable(t: seq<nat>, a: nat, b: nat) {
    exists p :: IsPath(t, p, a, b)
  }

  lemma {:induction false} PathStaysIn(t: seq<nat>, v: seq<nat>, p: seq<nat>, a: nat, k: nat)
    requires a in v && (forall x :: x in v ==> Next(t, x) == 0 || Next(t, x) in v)
    requires k < |p| && IsPath(t, p, a, p[|p| - 1])
    ensures p[k] in v
  {
    if k > 0 {
      PathStaysIn(t, v, p, a, k - 1);
      assert Next(t, p[k - 1]) == p[k];
    }
  }

  /** A path that closes on itself or ends has visited everything reachable. */
  lemma ClosedPathIsReach(t: seq<nat>, v: seq<nat>, a: nat)
    requires |v| > 0 && IsPath(t, v, a, v[|v| - 1])
    requires Next(t, v[|v| - 1]) == 0 || Next(t, v[|v| - 1]) in v
    ensures forall x :: Reachable(t, a, x) <==> x in v
  {
    forall x | x in v ensures Next(t, x) == 0 || Next(t, x) in v {
      var i :| 0 <= i < |v| && v[i] == x;
      if i < |v| - 1 {
        assert Next(t, v[i]) == v[i + 1];
      }
    }
    forall x ensures Reachable(t, a, x) <==> x in v {
      if Reachable(t, a, x) {
        var p :| IsPath(t, p, a, x);
        PathStaysIn(t, v, p, a, |p| - 1);
      }
      if x in v {
        var i :| 0 <= i < |v| && v[i] == x;
        assert IsPath(t, v[..i + 1], a, x);
      }
    }
  }

  /** From the head of a chain one reaches exactly the chain. */
  lemma ChainIsReach(t: seq<nat>, s: seq<nat>)
    requires IsChain(t, s)
    ensures forall x :: Reachable(t, s[0], x) <==> x in s
  {
    assert IsPath(t, s, s[0], s[|s| - 1]);
    ClosedPathIsReach(t, s, s[0]);
  }

  /** Number of allocated clusters: the measure of chain freeing. */
  function Allocated(t: seq<nat>): nat {
    if |t| == 0 then 0 else Allocated(t[..|t| - 1]) + if t[|t| - 1] != 0 then 1 else 0
  }

  lemma {:induction false} AllocatedDrops(t: seq<nat>, c: nat)
    requires c < |t| && t[c] != 0
    ensures Allocated(t[c := 0]) + 1 == Allocated(t)
  {
    var n := |t| - 1;
    if c == n {
      assert t[c := 0][..n] == t[..n];
    } else {
      assert t[c := 0][..n] == t[..n][c := 0];
      AllocatedDrops(t[..n], c);
    }
  }

  /** State of a freeing walk: the clusters v were visited in order from start
      and c is where the links of the original table lead next. */
  ghost predicate FreeWalk(t0: seq<nat>, v: seq<nat>, start: nat, c: nat) {
    if |v| == 0 then c == start
    else IsPath(t0, v, start, v[|v| - 1]) && Next(t0, v[|v| - 1]) == c != 0
  }

  /** The table with the visited clusters cleared. */
  ghost predicate Cleared(t0: seq<nat>, t: seq<nat>, v: seq<nat>) {
    |t| == |t0| && forall k :: 0 <= k < |t| ==> t[k] == if k in v then 0 else t0[k]
  }

  /** Reading the half-cleared table either follows the original link or stops
      because the walk came back to a visited cluster. */
  lemma FreeWalkStep(t0: seq<nat>, t: seq<nat>, v: seq<nat>, start: nat, c: nat)
    requires FreeWalk(t0, v, start, c) && Cleared(t0, t, v) && 2 <= c < |t0|
    ensures c in v ==> Next(t, c) == 0
    ensures c !in v ==> IsPath(t0, v + [c], start, c) && Next(t, c) == Next(t0, c)
  {
  }

  /** When the walk stops, what it visited is what was reachable. */
  lemma FreeWalkEnd(t0: seq<nat>, v: seq<nat>, v': seq<nat>, start: nat, c: nat)
    requires FreeWalk(t0, v, start, c) && 2 <= c < |t0|
    requires if c in v then v' == v else v' == v + [c] && IsPath(t0, v', start, c) && Next(t0, c) == 0
    ensures forall x :: Reachable(t0, start, x) <==> x in v'
  {
    ClosedPathIsReach(t0, v', start);
  }

  lemma NextAllocated(t: seq<nat>, c: nat)
    requires Next(t, c) != 0
    ensures c < |t| && t[c] != 0
  {
  }

  lemma NothingReachable(t0: seq<nat>, v: seq<nat>, start: nat, c: nat)
    requires FreeWalk(t0, v, start, c) && !(2 <= c < |t0|)
    ensures v == [] && forall x :: !Reachable(t0, start, x)
  {
  }
}
