/** The directed multigraph that an edge list denotes, independent of any
    storage layout: node set, out-neighbours, out-degree, bounded
    reachability and the edge list a bounded breadth-first search explores. */
module GraphSpec {
  import opened Sorting

  /** A directed edge (source, target) between two node ids. */
  type Edge = (int, int)

  /** Every id that is the source or the target of some edge. */
  function Ids(edges: seq<Edge>): set<int>
  {
    if edges == [] then {}
    else Ids(edges[..|edges| - 1]) + {edges[|edges| - 1].0, edges[|edges| - 1].1}
  }

  lemma {:induction false} IdsMembers(edges: seq<Edge>, x: int)
    ensures x in Ids(edges) <==> exists e :: e in edges && (e.0 == x || e.1 == x)
  {
    if edges != [] {
      var init, last := edges[..|edges| - 1], edges[|edges| - 1];
      assert edges == init + [last];
      IdsMembers(init, x);
      if x in Ids(init) {
        var e :| e in init && (e.0 == x || e.1 == x);
        assert e in edges;
      }
    }
  }

  /** Targets of the edges leaving `n`, in input order, duplicates kept. */
  function Targets(edges: seq<Edge>, n: int): seq<int>
  {
    if edges == [] then []
    else
      var last := edges[|edges| - 1];
      Targets(edges[..|edges| - 1], n) + (if last.0 == n then [last.1] else [])
  }

  /** Number of edges whose source is `n`, self-loops and duplicates included. */
  function OutDegree(edges: seq<Edge>, n: int): nat
  {
    if edges == [] then 0
    else (if edges[0].0 == n then 1 else 0) + OutDegree(edges[1..], n)
  }

  lemma {:induction false} OutDegreeAppend(edges: seq<Edge>, e: Edge, n: int)
    ensures OutDegree(edges + [e], n) == OutDegree(edges, n) + (if e.0 == n then 1 else 0)
  {
    if edges != [] {
      assert (edges + [e])[1..] == edges[1..] + [e];
      OutDegreeAppend(edges[1..], e, n);
    }
  }

  /** The target list of `n` is as long as its out-degree, holds exactly the
      targets of edges leaving `n`, and is empty for an id never seen. */
  lemma {:induction false} TargetsSpec(edges: seq<Edge>, n: int)
    ensures |Targets(edges, n)| == OutDegree(edges, n)
    ensures forall t :: t in Targets(edges, n) <==> (n, t) in edges
    ensures forall t :: t in Targets(edges, n) ==> t in Ids(edges)
    ensures n !in Ids(edges) ==> Targets(edges, n) == []
  {
    if edges != [] {
      var init, last := edges[..|edges| - 1], edges[|edges| - 1];
      assert edges == init + [last];
      TargetsSpec(init, n);
      OutDegreeAppend(init, last, n);
    }
  }

  /** Sum of the out-degrees of the ids listed in `ns`. */
  function SumDegrees(edges: seq<Edge>, ns: seq<int>): nat
  {
    if ns == [] then 0 else SumDegrees(edges, ns[..|ns| - 1]) + OutDegree(edges, ns[|ns| - 1])
  }

  /** Number of occurrences of `x` in `ns`. */
  function Occurrences(ns: seq<int>, x: int): nat
  {
    if ns == [] then 0 else Occurrences(ns[..|ns| - 1], x) + (if ns[|ns| - 1] == x then 1 else 0)
  }

  predicate Distinct(ns: seq<int>) {
    forall i, j :: 0 <= i < j < |ns| ==> ns[i] != ns[j]
  }

  lemma {:induction false} OccurrencesDistinct(ns: seq<int>, x: int)
    requires Distinct(ns)
    ensures Occurrences(ns, x) == if x in ns then 1 else 0
  {
    if ns != [] {
      var init := ns[..|ns| - 1];
      assert ns == init + [ns[|ns| - 1]];
      OccurrencesDistinct(init, x);
    }
  }

  lemma {:induction false} SumDegreesCons(e: Edge, rest: seq<Edge>, ns: seq<int>)
    ensures SumDegrees([e] + rest, ns) == SumDegrees(rest, ns) + Occurrences(ns, e.0)
  {
    if ns != [] {
      SumDegreesCons(e, rest, ns[..|ns| - 1]);
      assert ([e] + rest)[1..] == rest;
    }
  }

  /** Summing the out-degree over a duplicate-free list of ids that contains
      every source counts each edge exactly once. */
  lemma {:induction false} DegreeSum(edges: seq<Edge>, ns: seq<int>)
    requires Distinct(ns)
    requires forall e :: e in edges ==> e.0 in ns
    ensures SumDegrees(edges, ns) == |edges|
  {
    if edges == [] {
      SumDegreesNil(ns);
    } else {
      assert edges == [edges[0]] + edges[1..];
      DegreeSum(edges[1..], ns);
      SumDegreesCons(edges[0], edges[1..], ns);
      OccurrencesDistinct(ns, edges[0].0);
    }
  }

  lemma {:induction false} SumDegreesNil(ns: seq<int>)
    ensures SumDegrees([], ns) == 0
  {
    if ns != [] {
      SumDegreesNil(ns[..|ns| - 1]);
    }
  }

  /** The out-neighbour list of `n`: its targets in ascending id order. */
  function Neighbours(edges: seq<Edge>, n: int): seq<int>
  {
    SortSeq(Targets(edges, n))
  }

  /** The neighbour list is ascending, is a permutation of the targets of the
      edges leaving `n`, has the out-degree as its length, and is empty for an
      id never seen. */
  lemma NeighboursSpec(edges: seq<Edge>, n: int)
    ensures Sorted(Neighbours(edges, n))
    ensures multiset(Neighbours(edges, n)) == multiset(Targets(edges, n))
    ensures |Neighbours(edges, n)| == OutDegree(edges, n)
    ensures forall t :: t in Neighbours(edges, n) <==> (n, t) in edges
    ensures n !in Ids(edges) ==> Neighbours(edges, n) == []
  {
    TargetsSpec(edges, n);
    SortSeqSpec(Targets(edges, n));
    var ns, ts := Neighbours(edges, n), Targets(edges, n);
    forall t ensures t in ns <==> t in ts {
      assert t in ns <==> t in multiset(ns);
      assert t in ts <==> t in multiset(ts);
    }
  }

  /** Every entry of the neighbour list is the target of an edge leaving `n`. */
  lemma NeighbourEdge(edges: seq<Edge>, n: int, j: int)
    requires 0 <= j < |Neighbours(edges, n)|
    ensures (n, Neighbours(edges, n)[j]) in edges
  {
    NeighboursSpec(edges, n);
    assert Neighbours(edges, n)[j] in Neighbours(edges, n);
  }

  /** Ids one edge away from some id in `us`. */
  function Successors(edges: seq<Edge>, us: set<int>): set<int>
  {
    if edges == [] then {}
    else
      var last := edges[|edges| - 1];
      Successors(edges[..|edges| - 1], us) + (if last.0 in us then {last.1} else {})
  }

  /** An id is a successor exactly when some edge leads to it from `us`. */
  lemma {:induction false} SuccessorsSpec(edges: seq<Edge>, us: set<int>, y: int)
    ensures y in Successors(edges, us) <==> exists e :: e in edges && e.0 in us && e.1 == y
  {
    if edges != [] {
      var init, last := edges[..|edges| - 1], edges[|edges| - 1];
      assert edges == init + [last];
      SuccessorsSpec(init, us, y);
      if y in Successors(init, us) {
        var e :| e in init && e.0 in us && e.1 == y;
        assert e in edges;
      }
    }
  }

  /** Ids reachable from `s` along at most `k` edges. */
  function Reach(edges: seq<Edge>, s: int, k: nat): set<int>
  {
    if k == 0 then {s} else Reach(edges, s, k - 1) + Successors(edges, Reach(edges, s, k - 1))
  }

  lemma {:induction false} ReachMonotone(edges: seq<Edge>, s: int, a: nat, b: nat)
    requires a <= b
    ensures Reach(edges, s, a) <= Reach(edges, s, b)
  {
    if a < b {
      ReachMonotone(edges, s, a, b - 1);
    }
  }

  lemma ReachStep(edges: seq<Edge>, s: int, k: nat, u: int, t: int)
    requires u in Reach(edges, s, k) && (u, t) in edges
    ensures t in Reach(edges, s, k + 1)
  {
    SuccessorsSpec(edges, Reach(edges, s, k), t);
  }

  /** All edges leaving `u` reach ids already levelled, at most one level deeper. */
  ghost predicate Closed(edges: seq<Edge>, lvl: map<int, int>, u: int)
    requires u in lvl
  {
    forall t :: (u, t) in edges ==> t in lvl && lvl[t] <= lvl[u] + 1
  }

  /** If the start has level 0 and every id below level `k` is closed, every
      id reachable in `k` steps has a level, and that level is at most `k`. */
  lemma {:induction false} ReachCovered(edges: seq<Edge>, s: int, lvl: map<int, int>, k: nat)
    requires s in lvl && lvl[s] == 0
    requires forall u :: u in lvl && lvl[u] < k ==> Closed(edges, lvl, u)
    ensures forall x :: x in Reach(edges, s, k) ==> x in lvl && lvl[x] <= k
  {
    if k > 0 {
      ReachCovered(edges, s, lvl, k - 1);
      forall x | x in Successors(edges, Reach(edges, s, k - 1))
        ensures x in lvl && lvl[x] <= k
      {
        SuccessorsSpec(edges, Reach(edges, s, k - 1), x);
        var e :| e in edges && e.0 in Reach(edges, s, k - 1) && x == e.1;
        assert (e.0, e.1) == e;
        assert Closed(edges, lvl, e.0);
      }
    }
  }

  /** A breadth-first search to depth `d` expands `u` iff `u` lies strictly
      within depth `d` of the start. */
  predicate Expanded(edges: seq<Edge>, s: int, d: int, u: int)
  {
    d > 0 && u in Reach(edges, s, d - 1)
  }

  /** The edges from `u` to each id of `ns`, in order. */
  function EdgesFrom(u: int, ns: seq<int>): (r: seq<Edge>)
    ensures |r| == |ns|
    ensures forall j :: 0 <= j < |ns| ==> r[j] == (u, ns[j])
  {
    seq(|ns|, j requires 0 <= j < |ns| => (u, ns[j]))
  }

  /** The edge list explored when the ids of `vs` are dequeued in order: for
      each expanded one, all of its out-edges in neighbour order. */
  function Explored(edges: seq<Edge>, s: int, d: int, vs: seq<int>): seq<Edge>
  {
    if vs == [] then []
    else
      var u := vs[|vs| - 1];
      Explored(edges, s, d, vs[..|vs| - 1])
        + (if Expanded(edges, s, d, u) then EdgesFrom(u, Neighbours(edges, u)) else [])
  }

  /** Sum of the out-degrees of the expanded ids of `vs`. */
  function ExpandedDegrees(edges: seq<Edge>, s: int, d: int, vs: seq<int>): nat
  {
    if vs == [] then 0
    else
      var u := vs[|vs| - 1];
      ExpandedDegrees(edges, s, d, vs[..|vs| - 1]) + (if Expanded(edges, s, d, u) then OutDegree(edges, u) else 0)
  }

  /** The explored edge list is as long as the out-degrees of the expanded ids
      add up to, and every edge in it is an edge of the graph leaving an
      expanded id. */
  lemma {:induction false} ExploredSpec(edges: seq<Edge>, s: int, d: int, vs: seq<int>)
    ensures |Explored(edges, s, d, vs)| == ExpandedDegrees(edges, s, d, vs)
    ensures forall e :: e in Explored(edges, s, d, vs) ==> e in edges && e.0 in vs && Expanded(edges, s, d, e.0)
  {
    if vs != [] {
      var u := vs[|vs| - 1];
      ExploredSpec(edges, s, d, vs[..|vs| - 1]);
      NeighboursSpec(edges, u);
      assert vs == vs[..|vs| - 1] + [u];
    }
  }

  /** Nothing is explored at depth zero or below. */
  lemma {:induction false} ExploredNone(edges: seq<Edge>, s: int, d: int, vs: seq<int>)
    requires d <= 0
    ensures Explored(edges, s, d, vs) == []
  {
    if vs != [] {
      ExploredNone(edges, s, d, vs[..|vs| - 1]);
    }
  }
}
