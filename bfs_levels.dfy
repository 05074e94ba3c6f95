/** The level bookkeeping behind a depth-bounded breadth-first search: the
    list of discovered ids `vs`, the level `lvl` at which each was discovered,
    and the facts that make those levels the exact distances from the start. */
module BfsLevels {
  import opened GraphSpec

  /** The search depth, with every non-positive depth meaning "start only". */
  function Depth(d: int): nat
  {
    if d > 0 then d else 0
  }

  /** Entry `i` of `vs`. The pairwise facts below are stated on it so that
      they come into play only where a proof names both entries. */
  function At(vs: seq<int>, i: int): int
    requires 0 <= i < |vs|
  {
    vs[i]
  }

  /** `vs` starts at `s`, has no duplicates, holds exactly the ids of `lvl`
      and lists them by non-decreasing level. */
  ghost predicate Listed(s: int, vs: seq<int>, lvl: map<int, int>)
  {
    && |vs| > 0 && vs[0] == s
    && (forall i, j :: 0 <= i < j < |vs| ==> At(vs, i) != At(vs, j))
    && s in lvl && lvl[s] == 0
    && (forall j :: 0 <= j < |vs| ==> vs[j] in lvl)
    && (forall x :: x in lvl ==> x in vs)
    && (forall i, j :: 0 <= i <= j < |vs| ==> lvl[At(vs, i)] <= lvl[At(vs, j)])
  }

  /** A listed discovery sequence is ordered by level. */
  lemma ListedOrder(s: int, vs: seq<int>, lvl: map<int, int>, i: int, j: int)
    requires Listed(s, vs, lvl) && 0 <= i <= j < |vs|
    ensures vs[i] in lvl && vs[j] in lvl && lvl[vs[i]] <= lvl[vs[j]]
  {
    assert lvl[At(vs, i)] <= lvl[At(vs, j)];
  }

  /** A listed discovery sequence has no duplicates. */
  lemma ListedDistinct(s: int, vs: seq<int>, lvl: map<int, int>)
    requires Listed(s, vs, lvl)
    ensures Distinct(vs)
  {
    forall i, j | 0 <= i < j < |vs| ensures vs[i] != vs[j] {
      assert At(vs, i) != At(vs, j);
    }
  }

  /** Each level is the exact distance from `s`, and at most the depth. */
  ghost predicate Distances(edges: seq<Edge>, s: int, d: int, lvl: map<int, int>)
  {
    && (forall x :: x in lvl ==> 0 <= lvl[x] <= Depth(d))
    && (forall x {:trigger Reach(edges, s, lvl[x])} :: x in lvl ==> x in Reach(edges, s, lvl[x]))
    && (forall x {:trigger Reach(edges, s, lvl[x] - 1)} :: x in lvl && lvl[x] > 0 ==> x !in Reach(edges, s, lvl[x] - 1))
  }

  /** The discovery list of a search and the level of each discovered id. */
  ghost predicate Levelled(edges: seq<Edge>, s: int, d: int, vs: seq<int>, lvl: map<int, int>)
  {
    Listed(s, vs, lvl) && Distances(edges, s, d, lvl)
  }

  /** The first `h` ids of `vs` have been dequeued, and each of them below
      depth `d` has had all its out-edges followed. */
  ghost predicate ClosedBefore(edges: seq<Edge>, d: int, vs: seq<int>, lvl: map<int, int>, h: int)
  {
    forall j :: 0 <= j < h && j < |vs| && vs[j] in lvl && lvl[vs[j]] < d ==> Closed(edges, lvl, vs[j])
  }

  /** An id with a level lies exactly that far from the start. */
  lemma LevelIsDistance(edges: seq<Edge>, s: int, d: int, vs: seq<int>, lvl: map<int, int>, x: int, k: nat)
    requires Levelled(edges, s, d, vs, lvl) && x in lvl
    ensures x in Reach(edges, s, k) <==> lvl[x] <= k
  {
    if lvl[x] <= k {
      ReachMonotone(edges, s, lvl[x], k);
    } else {
      ReachMonotone(edges, s, k, lvl[x] - 1);
    }
  }

  /** The search expands a discovered id iff its level is below the depth. */
  lemma ExpandedIffBelow(edges: seq<Edge>, s: int, d: int, vs: seq<int>, lvl: map<int, int>, x: int)
    requires Levelled(edges, s, d, vs, lvl) && x in lvl
    ensures Expanded(edges, s, d, x) <==> lvl[x] < d
  {
    if d > 0 {
      LevelIsDistance(edges, s, d, vs, lvl, x, d - 1);
    }
  }

  /** Every id strictly shallower than the one being expanded is closed. */
  lemma ShallowerClosed(edges: seq<Edge>, s: int, d: int, vs: seq<int>, lvl: map<int, int>, h: int)
    requires Levelled(edges, s, d, vs, lvl)
    requires 1 <= h <= |vs| && lvl[vs[h - 1]] < d
    requires ClosedBefore(edges, d, vs, lvl, h - 1)
    ensures forall x :: x in lvl && lvl[x] < lvl[vs[h - 1]] ==> Closed(edges, lvl, x)
  {
    forall x | x in lvl && lvl[x] < lvl[vs[h - 1]]
      ensures Closed(edges, lvl, x)
    {
      var j :| 0 <= j < |vs| && vs[j] == x;
      if j >= h - 1 {
        ListedOrder(s, vs, lvl, h - 1, j);
      }
    }
  }

  /** Discovering `t` from the id `u` under expansion keeps the levels exact. */
  lemma {:induction false} Discover(edges: seq<Edge>, s: int, d: int, vs: seq<int>, lvl: map<int, int>, h: int, t: int)
    requires Levelled(edges, s, d, vs, lvl)
    requires 1 <= h <= |vs| && lvl[vs[h - 1]] < d
    requires forall x :: x in lvl ==> lvl[x] <= lvl[vs[h - 1]] + 1
    requires ClosedBefore(edges, d, vs, lvl, h - 1)
    requires (vs[h - 1], t) in edges && t !in lvl
    ensures Levelled(edges, s, d, vs + [t], lvl[t := lvl[vs[h - 1]] + 1])
    ensures ClosedBefore(edges, d, vs + [t], lvl[t := lvl[vs[h - 1]] + 1], h - 1)
  {
    var u := vs[h - 1];
    var k: nat := lvl[u];
    ReachStep(edges, s, k, u, t);
    ShallowerClosed(edges, s, d, vs, lvl, h);
    ReachCovered(edges, s, lvl, k);
    DiscoverListed(s, vs, lvl, t, k + 1);
    DiscoverDistances(edges, s, d, lvl, t, k + 1);
    var lvl' := lvl[t := k + 1];
    var vs' := vs + [t];
    forall j | 0 <= j < h - 1 && vs'[j] in lvl' && lvl'[vs'[j]] < d
      ensures Closed(edges, lvl', vs'[j])
    {
      assert vs'[j] == vs[j] && vs[j] != t;
      assert Closed(edges, lvl, vs[j]);
    }
  }

  /** Appending a new id at a level no smaller than any other keeps the list ordered. */
  lemma DiscoverListed(s: int, vs: seq<int>, lvl: map<int, int>, t: int, n: int)
    requires Listed(s, vs, lvl) && t !in lvl
    requires forall x :: x in lvl ==> lvl[x] <= n
    ensures Listed(s, vs + [t], lvl[t := n])
  {
    var lvl' := lvl[t := n];
    var vs' := vs + [t];
    assert t !in vs;
    forall i, j | 0 <= i < j < |vs'| ensures At(vs', i) != At(vs', j) {
      assert vs'[i] == vs[i];
      if j < |vs| {
        assert At(vs, i) != At(vs, j);
      }
    }
    forall x | x in lvl' ensures x in vs' {
      if x != t {
        assert x in vs;
      }
    }
    forall i, j | 0 <= i <= j < |vs'| ensures lvl'[At(vs', i)] <= lvl'[At(vs', j)] {
      if j < |vs| {
        assert vs'[i] == vs[i] && vs'[j] == vs[j] && vs[i] != t && vs[j] != t;
        assert lvl[At(vs, i)] <= lvl[At(vs, j)];
      } else if i < |vs| {
        assert vs'[i] == vs[i] && vs[i] != t;
      }
    }
  }

  /** Giving a new id its exact distance keeps every level exact. */
  lemma DiscoverDistances(edges: seq<Edge>, s: int, d: int, lvl: map<int, int>, t: int, n: int)
    requires Distances(edges, s, d, lvl) && t !in lvl
    requires 0 < n <= Depth(d)
    requires t in Reach(edges, s, n) && t !in Reach(edges, s, n - 1)
    ensures Distances(edges, s, d, lvl[t := n])
  {
    var lvl' := lvl[t := n];
    forall x | x in lvl' ensures x in Reach(edges, s, lvl'[x]) {
      if x != t {
        assert lvl'[x] == lvl[x] && x in Reach(edges, s, lvl[x]);
      }
    }
    forall x | x in lvl' && lvl'[x] > 0 ensures x !in Reach(edges, s, lvl'[x] - 1) {
      if x != t {
        assert lvl'[x] == lvl[x] && x !in Reach(edges, s, lvl[x] - 1);
      }
    }
  }

  /** Once the last out-edge of the id under expansion has been followed, it
      joins the closed prefix. */
  lemma ExpansionDone(edges: seq<Edge>, d: int, vs: seq<int>, lvl: map<int, int>, h: int)
    requires 1 <= h <= |vs| && vs[h - 1] in lvl
    requires ClosedBefore(edges, d, vs, lvl, h - 1)
    requires lvl[vs[h - 1]] < d ==> Closed(edges, lvl, vs[h - 1])
    ensures ClosedBefore(edges, d, vs, lvl, h)
  {
  }

  /** When every discovered id has been dequeued, the discovered ids are
      exactly those within the depth of the start, listed by distance. */
  lemma Complete(edges: seq<Edge>, s: int, d: int, vs: seq<int>, lvl: map<int, int>)
    requires Levelled(edges, s, d, vs, lvl)
    requires ClosedBefore(edges, d, vs, lvl, |vs|)
    ensures forall x :: x in vs <==> x in Reach(edges, s, Depth(d))
    ensures forall i, j, k: nat :: 0 <= i < j < |vs| && vs[j] in Reach(edges, s, k) ==> vs[i] in Reach(edges, s, k)
  {
    forall x | x in lvl && lvl[x] < Depth(d) ensures Closed(edges, lvl, x) {
      var j :| 0 <= j < |vs| && vs[j] == x;
    }
    ReachCovered(edges, s, lvl, Depth(d));
    forall x | x in vs ensures x in Reach(edges, s, Depth(d)) {
      LevelIsDistance(edges, s, d, vs, lvl, x, Depth(d));
    }
    forall i, j, k: nat | 0 <= i < j < |vs| && vs[j] in Reach(edges, s, k)
      ensures vs[i] in Reach(edges, s, k)
    {
      LevelIsDistance(edges, s, d, vs, lvl, vs[j], k);
      LevelIsDistance(edges, s, d, vs, lvl, vs[i], k);
      assert lvl[At(vs, i)] <= lvl[At(vs, j)];
    }
  }

  /** At depth zero or below only the start is discovered and nothing is explored. */
  lemma Shallow(edges: seq<Edge>, s: int, d: int, vs: seq<int>)
    requires d <= 0
    requires |vs| > 0 && vs[0] == s && Distinct(vs)
    requires forall x :: x in vs <==> x in Reach(edges, s, Depth(d))
    ensures vs == [s] && Explored(edges, s, d, vs) == []
  {
    assert forall j :: 0 <= j < |vs| ==> vs[j] in Reach(edges, s, 0);
    ExploredNone(edges, s, d, vs);
  }
}
