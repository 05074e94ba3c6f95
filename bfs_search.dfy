/** The state of the breadth-first search over the compressed graph: a
    queue of (index, level) pairs, one visited flag per index, and how both
    track the discovered ids and their levels. */
module BfsSearch {
  import opened Sorting
  import opened GraphSpec
  import opened BfsLevels
  import opened Carga

  /** Number of `true` entries. */
  function CountTrue(bs: seq<bool>): (c: nat)
    ensures c <= |bs|
  {
    if bs == [] then 0 else CountTrue(bs[..|bs| - 1]) + (if bs[|bs| - 1] then 1 else 0)
  }

  lemma {:induction false} CountTrueSet(bs: seq<bool>, i: int)
    requires 0 <= i < |bs| && !bs[i]
    ensures CountTrue(bs[i := true]) == CountTrue(bs) + 1
  {
    var n := |bs| - 1;
    if i < n {
      CountTrueSet(bs[..n], i);
      assert bs[i := true][..n] == bs[..n][i := true];
    } else {
      assert bs[i := true][..n] == bs[..n];
    }
  }

  lemma {:induction false} CountTrueNone(n: nat)
    ensures CountTrue(seq(n, _ => false)) == 0
  {
    if n > 0 {
      CountTrueNone(n - 1);
      assert seq(n, _ => false)[..n - 1] == seq(n - 1, _ => false);
    }
  }

  /** Entry `j` of the queue holds the index and level of the discovered id
      `h + j` places into the discovery list. */
  ghost predicate QueueAt(nai: map<int, int>, vs: seq<int>, lvl: map<int, int>, h: int, cola: seq<(int, int)>, j: int)
  {
    && 0 <= j < |cola| && 0 <= h + j < |vs|
    && vs[h + j] in nai && vs[h + j] in lvl && cola[j] == (nai[vs[h + j]], lvl[vs[h + j]])
  }

  /** The queue holds, in order, the index and level of every discovered
      id after the first `h`, the ones already dequeued. */
  ghost predicate Queued(nai: map<int, int>, vs: seq<int>, lvl: map<int, int>, h: int, cola: seq<(int, int)>)
  {
    && 0 <= h <= |vs| && |cola| == |vs| - h
    && forall j :: 0 <= j < |cola| ==> QueueAt(nai, vs, lvl, h, cola, j)
  }

  /** Appending a new id to the discovery list and its entry to the queue
      keeps the two in step. */
  lemma QueuedSnoc(nai: map<int, int>, vs: seq<int>, lvl: map<int, int>, h: int, cola: seq<(int, int)>, t: int, k: int)
    requires Queued(nai, vs, lvl, h, cola) && t in nai && t !in lvl
    ensures Queued(nai, vs + [t], lvl[t := k], h, cola + [(nai[t], k)])
  {
    var vs', lvl', cola' := vs + [t], lvl[t := k], cola + [(nai[t], k)];
    forall j | 0 <= j < |cola'| ensures QueueAt(nai, vs', lvl', h, cola', j) {
      if j < |cola| {
        assert QueueAt(nai, vs, lvl, h, cola, j);
        assert vs'[h + j] == vs[h + j] && cola'[j] == cola[j] && vs[h + j] != t;
      }
    }
  }

  /** The flags mark exactly the indices of the discovered ids, one flag per
      index, and there are as many marks as discovered ids. */
  ghost predicate Marked(nai: map<int, int>, ian: map<int, int>, n: int, vs: seq<int>, lvl: map<int, int>, visitado: seq<bool>)
  {
    && |visitado| == n && CountTrue(visitado) == |vs|
    && (forall x :: x in lvl ==> x in nai)
    && (forall i :: 0 <= i < n ==> i in ian && (visitado[i] <==> ian[i] in lvl))
  }

  /** The loop state of the search from `s` to depth `d`: the numbering is a
      bijection, the discovery list carries exact levels, the first `c`
      discovered ids are closed, `h` have been dequeued, and the queue and
      flags agree with the discovery list. */
  ghost predicate Searching(edges: seq<Edge>, s: int, d: int, nai: map<int, int>, ian: map<int, int>, n: int,
                            vs: seq<int>, lvl: map<int, int>, h: int, c: int, cola: seq<(int, int)>, visitado: seq<bool>)
  {
    && Bijection(Ids(edges), n, nai, ian)
    && Levelled(edges, s, d, vs, lvl)
    && ClosedBefore(edges, d, vs, lvl, c)
    && Queued(nai, vs, lvl, h, cola)
    && Marked(nai, ian, n, vs, lvl, visitado)
  }

  /** The state right after the start has been enqueued and marked. */
  lemma SearchStart(edges: seq<Edge>, s: int, d: int, nai: map<int, int>, ian: map<int, int>, n: int)
    requires Bijection(Ids(edges), n, nai, ian) && s in nai
    ensures 0 <= nai[s] < n
    ensures Searching(edges, s, d, nai, ian, n, [s], map[s := 0], 0, 0, [(nai[s], 0)], seq(n, _ => false)[nai[s] := true])
  {
    var visitado := seq(n, _ => false);
    CountTrueNone(n);
    CountTrueSet(visitado, nai[s]);
    var lvl := map[s := 0];
    assert Distances(edges, s, d, lvl) by {
      assert Reach(edges, s, 0) == {s};
    }
    forall i | 0 <= i < n ensures visitado[nai[s] := true][i] <==> ian[i] in lvl {
      assert ian[i] == s ==> IdOf(ian, i) == IdOf(ian, nai[s]);
    }
  }

  /** Dequeuing the front of a non-empty queue yields the index and level of
      the next discovered id. */
  lemma SearchPop(edges: seq<Edge>, s: int, d: int, nai: map<int, int>, ian: map<int, int>, n: int,
                  vs: seq<int>, lvl: map<int, int>, h: int, cola: seq<(int, int)>, visitado: seq<bool>)
    requires Searching(edges, s, d, nai, ian, n, vs, lvl, h, h, cola, visitado) && cola != []
    ensures h < |vs| && vs[h] in nai && vs[h] in lvl
    ensures cola[0] == (nai[vs[h]], lvl[vs[h]])
    ensures 0 <= nai[vs[h]] < n && ian[nai[vs[h]]] == vs[h]
    ensures Searching(edges, s, d, nai, ian, n, vs, lvl, h + 1, h, cola[1..], visitado)
  {
    assert QueueAt(nai, vs, lvl, h, cola, 0);
    BijectionForward(Ids(edges), n, nai, ian, vs[h]);
    var h', rest := h + 1, cola[1..];
    forall j | 0 <= j < |rest| ensures QueueAt(nai, vs, lvl, h', rest, j) {
      assert QueueAt(nai, vs, lvl, h, cola, j + 1);
      assert rest[j] == cola[j + 1] && vs[h' + j] == vs[h + (j + 1)];
    }
    assert Queued(nai, vs, lvl, h', rest);
  }

  /** Following an edge from the id under expansion to an unmarked index
      discovers its id one level deeper, marks it and enqueues it. */
  lemma SearchDiscover(edges: seq<Edge>, s: int, d: int, nai: map<int, int>, ian: map<int, int>, n: int,
                       vs: seq<int>, lvl: map<int, int>, h: int, cola: seq<(int, int)>, visitado: seq<bool>, idx: int)
    requires Searching(edges, s, d, nai, ian, n, vs, lvl, h, h - 1, cola, visitado)
    requires 1 <= h && lvl[vs[h - 1]] < d
    requires forall x :: x in lvl ==> lvl[x] <= lvl[vs[h - 1]] + 1
    requires 0 <= idx < n && !visitado[idx] && (vs[h - 1], ian[idx]) in edges
    ensures ian[idx] !in lvl && (vs + [ian[idx]])[..h] == vs[..h]
    ensures Searching(edges, s, d, nai, ian, n, vs + [ian[idx]], lvl[ian[idx] := lvl[vs[h - 1]] + 1], h, h - 1,
                      cola + [(idx, lvl[vs[h - 1]] + 1)], visitado[idx := true])
  {
    var t := ian[idx];
    var k := lvl[vs[h - 1]] + 1;
    Discover(edges, s, d, vs, lvl, h, t);
    var vs' := vs + [t];
    var lvl' := lvl[t := k];
    var cola' := cola + [(idx, k)];
    CountTrueSet(visitado, idx);
    BijectionInverse(Ids(edges), n, nai, ian, idx);
    QueuedSnoc(nai, vs, lvl, h, cola, t, k);
    forall i | 0 <= i < n ensures visitado[idx := true][i] <==> ian[i] in lvl' {
      assert ian[i] == t ==> IdOf(ian, i) == IdOf(ian, idx);
    }
    assert vs'[..h] == vs[..h];
  }

  /** The first `m` ids of `ns` are discovered, at level `k` or below. */
  ghost predicate Followed(lvl: map<int, int>, ns: seq<int>, m: int, k: int)
  {
    forall j :: 0 <= j < m && j < |ns| ==> ns[j] in lvl && lvl[ns[j]] <= k
  }

  /** Giving the next neighbour, not yet levelled, level `k` extends the
      followed prefix by one. */
  lemma FollowedDiscover(lvl: map<int, int>, ns: seq<int>, m: int, k: int, t: int)
    requires Followed(lvl, ns, m, k) && 0 <= m < |ns| && ns[m] == t && t !in lvl
    ensures Followed(lvl[t := k], ns, m + 1, k)
  {
    forall j | 0 <= j < m + 1 && j < |ns| ensures ns[j] in lvl[t := k] && lvl[t := k][ns[j]] <= k {
      if j < m {
        assert ns[j] in lvl && lvl[ns[j]] <= k;
      }
    }
  }

  /** The loop state while the id `vs[h - 1]`, at level `k` below the
      depth, is expanded: its first `m` neighbours have been followed. */
  ghost predicate Expanding(edges: seq<Edge>, s: int, d: int, nai: map<int, int>, ian: map<int, int>, n: int,
                            vs: seq<int>, lvl: map<int, int>, h: int, cola: seq<(int, int)>, visitado: seq<bool>, k: int, m: int)
  {
    && Searching(edges, s, d, nai, ian, n, vs, lvl, h, h - 1, cola, visitado)
    && 1 <= h <= |vs| && vs[h - 1] in lvl && lvl[vs[h - 1]] == k < d
    && (forall x :: x in lvl ==> lvl[x] <= k + 1)
    && Followed(lvl, Neighbours(edges, vs[h - 1]), m, k + 1)
  }

  /** Following an edge to an id already marked changes nothing but the count. */
  lemma ExpandingSeen(edges: seq<Edge>, s: int, d: int, nai: map<int, int>, ian: map<int, int>, n: int,
                      vs: seq<int>, lvl: map<int, int>, h: int, cola: seq<(int, int)>, visitado: seq<bool>, k: int, m: int, idx: int)
    requires Expanding(edges, s, d, nai, ian, n, vs, lvl, h, cola, visitado, k, m)
    requires 0 <= m < |Neighbours(edges, vs[h - 1])|
    requires 0 <= idx < n && idx in ian && ian[idx] == Neighbours(edges, vs[h - 1])[m] && visitado[idx]
    ensures Expanding(edges, s, d, nai, ian, n, vs, lvl, h, cola, visitado, k, m + 1)
  {
  }

  /** Following an edge to an unmarked id discovers it one level deeper. */
  lemma ExpandingDiscover(edges: seq<Edge>, s: int, d: int, nai: map<int, int>, ian: map<int, int>, n: int,
                          vs: seq<int>, lvl: map<int, int>, h: int, cola: seq<(int, int)>, visitado: seq<bool>, k: int, m: int, idx: int)
    requires Expanding(edges, s, d, nai, ian, n, vs, lvl, h, cola, visitado, k, m)
    requires 0 <= m < |Neighbours(edges, vs[h - 1])|
    requires 0 <= idx < n && idx in ian && ian[idx] == Neighbours(edges, vs[h - 1])[m] && !visitado[idx]
    ensures (vs + [ian[idx]])[..h] == vs[..h] && (vs + [ian[idx]])[h - 1] == vs[h - 1]
    ensures Expanding(edges, s, d, nai, ian, n, vs + [ian[idx]], lvl[ian[idx] := k + 1], h,
                      cola + [(idx, k + 1)], visitado[idx := true], k, m + 1)
  {
    var u, t := vs[h - 1], ian[idx];
    var ns := Neighbours(edges, u);
    NeighbourEdge(edges, u, m);
    SearchDiscover(edges, s, d, nai, ian, n, vs, lvl, h, cola, visitado, idx);
    FollowedDiscover(lvl, ns, m, k + 1, t);
    assert (vs + [t])[h - 1] == u;
  }

  /** Once every out-edge of the id under expansion has been followed, it
      joins the closed prefix, and the levels still in the queue stay within
      one of the next front. */
  lemma SearchExpanded(edges: seq<Edge>, s: int, d: int, nai: map<int, int>, ian: map<int, int>, n: int,
                       vs: seq<int>, lvl: map<int, int>, h: int, cola: seq<(int, int)>, visitado: seq<bool>)
    requires Searching(edges, s, d, nai, ian, n, vs, lvl, h, h - 1, cola, visitado) && 1 <= h
    requires forall x :: x in lvl ==> lvl[x] <= lvl[vs[h - 1]] + 1
    requires lvl[vs[h - 1]] < d ==>
               Followed(lvl, Neighbours(edges, vs[h - 1]), |Neighbours(edges, vs[h - 1])|, lvl[vs[h - 1]] + 1)
    ensures Searching(edges, s, d, nai, ian, n, vs, lvl, h, h, cola, visitado)
    ensures h < |vs| ==> forall x :: x in lvl ==> lvl[x] <= lvl[vs[h]] + 1
  {
    var u := vs[h - 1];
    if lvl[u] < d {
      var ns := Neighbours(edges, u);
      NeighboursSpec(edges, u);
      forall t | (u, t) in edges ensures t in lvl && lvl[t] <= lvl[u] + 1 {
        var j :| 0 <= j < |ns| && ns[j] == t;
      }
      assert Closed(edges, lvl, u);
    }
    ExpansionDone(edges, d, vs, lvl, h);
    if h < |vs| {
      assert lvl[At(vs, h - 1)] <= lvl[At(vs, h)];
    }
  }

  /** The end of an expansion: every neighbour has been followed. */
  lemma ExpandingDone(edges: seq<Edge>, s: int, d: int, nai: map<int, int>, ian: map<int, int>, n: int,
                      vs: seq<int>, lvl: map<int, int>, h: int, cola: seq<(int, int)>, visitado: seq<bool>, k: int)
    requires 1 <= h <= |vs|
    requires Expanding(edges, s, d, nai, ian, n, vs, lvl, h, cola, visitado, k, |Neighbours(edges, vs[h - 1])|)
    ensures Searching(edges, s, d, nai, ian, n, vs, lvl, h, h, cola, visitado)
    ensures h < |vs| ==> forall x :: x in lvl ==> lvl[x] <= lvl[vs[h]] + 1
  {
    SearchExpanded(edges, s, d, nai, ian, n, vs, lvl, h, cola, visitado);
  }

  /** A dequeued id at or past the depth is not expanded: the round only
      moves it into the closed prefix. */
  lemma SearchSkip(edges: seq<Edge>, s: int, d: int, nai: map<int, int>, ian: map<int, int>, n: int,
                   vs: seq<int>, lvl: map<int, int>, h: int, cola: seq<(int, int)>, visitado: seq<bool>)
    requires Searching(edges, s, d, nai, ian, n, vs, lvl, h, h, cola, visitado) && cola != []
    requires h < |vs| ==> forall x :: x in lvl ==> lvl[x] <= lvl[vs[h]] + 1
    requires cola[0].1 >= d
    ensures Searching(edges, s, d, nai, ian, n, vs, lvl, h + 1, h + 1, cola[1..], visitado)
    ensures h + 1 < |vs| ==> forall x :: x in lvl ==> lvl[x] <= lvl[vs[h + 1]] + 1
    ensures Explored(edges, s, d, vs[..h + 1]) == Explored(edges, s, d, vs[..h])
  {
    SearchPop(edges, s, d, nai, ian, n, vs, lvl, h, cola, visitado);
    ExploredStep(edges, s, d, vs, lvl, h + 1);
    SearchExpanded(edges, s, d, nai, ian, n, vs, lvl, h + 1, cola[1..], visitado);
  }

  /** A dequeued id below the depth, once expanded, joins the closed
      prefix, and its out-edges extend the explored edges. */
  lemma SearchExpand(edges: seq<Edge>, s: int, d: int, nai: map<int, int>, ian: map<int, int>, n: int,
                     vs: seq<int>, lvl: map<int, int>, h: int, aristas: seq<Edge>,
                     vs': seq<int>, lvl': map<int, int>, cola': seq<(int, int)>, visitado': seq<bool>, aristas': seq<Edge>, k: int)
    requires Levelled(edges, s, d, vs, lvl) && 0 <= h < |vs| && vs[h] in lvl && lvl[vs[h]] == k < d
    requires aristas == Explored(edges, s, d, vs[..h])
    requires Expanding(edges, s, d, nai, ian, n, vs', lvl', h + 1, cola', visitado', k, |Neighbours(edges, vs[h])|)
    requires vs'[..h + 1] == vs[..h + 1] && vs'[h] == vs[h]
    requires aristas' == aristas + EdgesFrom(vs[h], Neighbours(edges, vs[h]))
    ensures Searching(edges, s, d, nai, ian, n, vs', lvl', h + 1, h + 1, cola', visitado')
    ensures h + 1 < |vs'| ==> forall x :: x in lvl' ==> lvl'[x] <= lvl'[vs'[h + 1]] + 1
    ensures aristas' == Explored(edges, s, d, vs'[..h + 1])
  {
    ExploredStep(edges, s, d, vs, lvl, h + 1);
    ExpandingDone(edges, s, d, nai, ian, n, vs', lvl', h + 1, cola', visitado', k);
  }

  /** The explored edges of the first `h` discovered ids extend those of the
      first `h - 1` by the out-edges of the last one when it lies below the
      depth. */
  lemma ExploredStep(edges: seq<Edge>, s: int, d: int, vs: seq<int>, lvl: map<int, int>, h: int)
    requires Levelled(edges, s, d, vs, lvl) && 1 <= h <= |vs|
    ensures Explored(edges, s, d, vs[..h]) == Explored(edges, s, d, vs[..h - 1])
      + (if lvl[vs[h - 1]] < d then EdgesFrom(vs[h - 1], Neighbours(edges, vs[h - 1])) else [])
  {
    ExpandedIffBelow(edges, s, d, vs, lvl, vs[h - 1]);
    assert vs[..h][..h - 1] == vs[..h - 1];
  }

  /** The edges to a prefix of `ns` grow by one edge per element. */
  lemma EdgesFromSnoc(u: int, ns: seq<int>, j: int)
    requires 0 <= j < |ns|
    ensures EdgesFrom(u, ns[..j + 1]) == EdgesFrom(u, ns[..j]) + [(u, ns[j])]
  {
    assert EdgesFrom(u, ns[..j + 1])[..j] == EdgesFrom(u, ns[..j]);
  }

  /** When the queue is empty the search has found exactly the ids within the
      depth, by distance; at depth zero or below it found only the start. */
  lemma SearchDone(edges: seq<Edge>, s: int, d: int, nai: map<int, int>, ian: map<int, int>, n: int,
                   vs: seq<int>, lvl: map<int, int>, h: int, visitado: seq<bool>)
    requires Searching(edges, s, d, nai, ian, n, vs, lvl, h, h, [], visitado)
    ensures vs[..h] == vs
    ensures |vs| > 0 && vs[0] == s && Distinct(vs)
    ensures forall x :: x in vs <==> x in Reach(edges, s, Depth(d))
    ensures forall i, j, k: nat :: 0 <= i < j < |vs| && vs[j] in Reach(edges, s, k) ==> vs[i] in Reach(edges, s, k)
    ensures d <= 0 ==> vs == [s] && Explored(edges, s, d, vs) == []
  {
    Complete(edges, s, d, vs, lvl);
    ListedDistinct(s, vs, lvl);
    if d <= 0 {
      Shallow(edges, s, d, vs);
    }
  }
}
