/** The three passes of loading an edge list (grafo_disperso.cpp:13-75):
    reading the accepted lines into edges and the ordered set of ids,
    numbering the ids in ascending order, and distributing the edges over
    per-index adjacency lists. */
module Carga {
  import opened Sorting
  import opened GraphSpec
  import opened Parsing

  lemma IdsSnoc(es: seq<Edge>, e: Edge)
    ensures Ids(es + [e]) == Ids(es) + {e.0, e.1}
  {
    assert (es + [e])[..|es|] == es;
  }

  lemma TargetsSnoc(es: seq<Edge>, e: Edge, x: int)
    ensures Targets(es + [e], x) == Targets(es, x) + (if e.0 == x then [e.1] else [])
  {
    assert (es + [e])[..|es|] == es;
  }

  /** The first pass: every line that is non-empty, does not start with `#`
      and starts with two ints gives one edge, in line order; the ids met
      are gathered into an ordered set of ids. */
  method ReadEdges(lineas: seq<string>) returns (aristas: seq<Edge>, nodos: seq<int>)
    ensures aristas == ParseEdges(lineas)
    ensures StrictlySorted(nodos)
    ensures forall x :: x in nodos <==> x in Ids(aristas)
  {
    aristas, nodos := [], [];
    var k := 0;
    while k < |lineas|
      invariant 0 <= k <= |lineas|
      invariant aristas == ParseEdges(lineas[..k])
      invariant StrictlySorted(nodos)
      invariant forall x :: x in nodos <==> x in Ids(aristas)
    {
      var linea := lineas[k];
      assert lineas[..k + 1][..k] == lineas[..k];
      k := k + 1;
      if linea == [] || linea[0] == '#' {
        continue;
      }
      match ReadPair(linea)
      case Some(e) =>
        nodos := SetInsert(e.0, nodos);
        nodos := SetInsert(e.1, nodos);
        IdsSnoc(aristas, e);
        aristas := aristas + [e];
      case None =>
    }
    assert lineas[..k] == lineas;
  }

  /** `nai` numbers the ids of the ascending, duplicate-free `nodos` by their
      positions, and `ian` maps each position back to its id. */
  ghost predicate Numbering(nodos: seq<int>, nai: map<int, int>, ian: map<int, int>)
  {
    && StrictlySorted(nodos)
    && (forall x :: x in nai <==> x in nodos)
    && (forall i :: i in ian <==> 0 <= i < |nodos|)
    && |ian| == |nodos|
    && (forall i :: 0 <= i < |nodos| ==> nai[nodos[i]] == i && ian[i] == nodos[i])
  }

  /** The second pass: the ids, visited in ascending order, get the
      consecutive indices 0, 1, 2, ... in both directions. */
  method Renumber(nodos: seq<int>) returns (nai: map<int, int>, ian: map<int, int>)
    requires StrictlySorted(nodos)
    ensures Numbering(nodos, nai, ian)
  {
    nai, ian := map[], map[];
    var indice := 0;
    while indice < |nodos|
      invariant 0 <= indice <= |nodos|
      invariant forall x :: x in nai <==> x in nodos[..indice]
      invariant forall i :: i in ian <==> 0 <= i < indice
      invariant |ian| == indice
      invariant forall i :: 0 <= i < indice ==> nodos[i] in nai && nai[nodos[i]] == i && ian[i] == nodos[i]
    {
      var nodo := nodos[indice];
      assert nodos[..indice + 1] == nodos[..indice] + [nodo];
      nai := nai[nodo := indice];
      ian := ian[indice := nodo];
      indice := indice + 1;
    }
    assert nodos[..indice] == nodos;
  }

  /** A numbering in ascending order of ids is strictly monotone, and so
      one-to-one. */
  lemma NumberingMonotone(nodos: seq<int>, nai: map<int, int>, ian: map<int, int>)
    requires Numbering(nodos, nai, ian)
    ensures StrictlyMonotone(nai)
    ensures forall x :: x in nai ==> 0 <= nai[x] < |nodos| && nodos[nai[x]] == x
  {
    forall x | x in nai ensures 0 <= nai[x] < |nodos| && nodos[nai[x]] == x {
      var i :| 0 <= i < |nodos| && nodos[i] == x;
    }
  }

  /** Adjacency list of `x` after the edges `es`: the indices of its
      targets, in input order. */
  ghost predicate ListOf(nai: map<int, int>, es: seq<Edge>, temp: seq<seq<int>>, x: int)
  {
    && x in nai && 0 <= nai[x] < |temp|
    && Covers(nai, Targets(es, x))
    && temp[nai[x]] == Translate(nai, Targets(es, x))
  }

  /** The id of every edge end is numbered, and the numbering is one-to-one
      into `[0, n)`. */
  ghost predicate NumberedEdges(aristas: seq<Edge>, nai: map<int, int>, n: int)
  {
    && (forall e :: e in aristas ==> e.0 in nai && e.1 in nai)
    && (forall x :: x in nai ==> 0 <= nai[x] < n)
    && (forall x, y :: x in nai && y in nai && x != y ==> nai[x] != nai[y])
  }

  lemma FillStep(aristas: seq<Edge>, nai: map<int, int>, a: int, temp: seq<seq<int>>)
    requires 0 <= a < |aristas| && aristas[a].0 in nai && aristas[a].1 in nai
    requires 0 <= nai[aristas[a].0] < |temp|
    requires forall x, y :: x in nai && y in nai && x != y ==> nai[x] != nai[y]
    requires forall x :: x in nai ==> ListOf(nai, aristas[..a], temp, x)
    ensures var temp' := temp[nai[aristas[a].0] := temp[nai[aristas[a].0]] + [nai[aristas[a].1]]];
      forall x :: x in nai ==> ListOf(nai, aristas[..a + 1], temp', x)
  {
    var e := aristas[a];
    var temp' := temp[nai[e.0] := temp[nai[e.0]] + [nai[e.1]]];
    assert aristas[..a + 1] == aristas[..a] + [e];
    forall x | x in nai ensures ListOf(nai, aristas[..a + 1], temp', x) {
      assert ListOf(nai, aristas[..a], temp, x);
      TargetsSnoc(aristas[..a], e, x);
      if x == e.0 {
        TranslateAppend(nai, Targets(aristas[..a], x), e.1);
      }
    }
  }

  lemma EntriesStep(temp: seq<seq<int>>, n: int, i: int, v: int)
    requires EntriesBelow(temp, n) && 0 <= i < |temp| && 0 <= v < n
    ensures EntriesBelow(temp[i := temp[i] + [v]], n)
  {
  }

  /** Every entry of every list is an index below `n`. */
  ghost predicate EntriesBelow(lists: seq<seq<int>>, n: int)
  {
    forall i, k :: 0 <= i < |lists| && 0 <= k < |lists[i]| ==> 0 <= lists[i][k] < n
  }

  /** The third pass: `n` empty lists, then for each edge in input order the
      index of its target is appended to the list of the index of its
      source. */
  method FillLists(aristas: seq<Edge>, nai: map<int, int>, n: nat) returns (temp: seq<seq<int>>)
    requires NumberedEdges(aristas, nai, n)
    ensures |temp| == n && EntriesBelow(temp, n)
    ensures forall x :: x in nai ==> ListOf(nai, aristas, temp, x)
  {
    temp := seq(n, _ => []);
    forall x | x in nai ensures ListOf(nai, aristas[..0], temp, x) {
      assert Targets(aristas[..0], x) == [];
    }
    var a := 0;
    while a < |aristas|
      invariant 0 <= a <= |aristas| && |temp| == n && EntriesBelow(temp, n)
      invariant forall x :: x in nai ==> ListOf(nai, aristas[..a], temp, x)
    {
      var arista := aristas[a];
      assert arista in aristas;
      var idxOrigen := nai[arista.0];
      var idxDestino := nai[arista.1];
      assert ListOf(nai, aristas[..a], temp, arista.0) && ListOf(nai, aristas[..a], temp, arista.1);
      FillStep(aristas, nai, a, temp);
      EntriesStep(temp, n, idxOrigen, idxDestino);
      temp := temp[idxOrigen := temp[idxOrigen] + [idxDestino]];
      a := a + 1;
    }
    assert aristas[..a] == aristas;
  }

  /** The numbering of the ids of `es` covers every edge end and is
      one-to-one into the index range. */
  lemma NumberingCoversEdges(es: seq<Edge>, nodos: seq<int>, nai: map<int, int>, ian: map<int, int>)
    requires Numbering(nodos, nai, ian)
    requires forall x :: x in nodos <==> x in Ids(es)
    ensures NumberedEdges(es, nai, |nodos|)
  {
    NumberingMonotone(nodos, nai, ian);
    forall e | e in es ensures e.0 in nai && e.1 in nai {
      IdsMembers(es, e.0);
      IdsMembers(es, e.1);
      assert e.0 in nodos && e.1 in nodos;
    }
    forall x, y | x in nai && y in nai && x != y ensures nai[x] != nai[y] {
      if x < y { assert nai[x] < nai[y]; } else { assert nai[y] < nai[x]; }
    }
  }

  /** Sorting the list of index `i` and translating it back to ids gives
      the sorted out-neighbours of the id numbered `i`: translation through
      an ascending numbering commutes with sorting. */
  lemma RowMatches(es: seq<Edge>, nodos: seq<int>, nai: map<int, int>, ian: map<int, int>,
                   temp: seq<seq<int>>, i: int)
    requires Numbering(nodos, nai, ian) && 0 <= i < |nodos|
    requires ListOf(nai, es, temp, nodos[i])
    ensures Covers(ian, SortSeq(temp[i]))
    ensures Translate(ian, SortSeq(temp[i])) == Neighbours(es, nodos[i])
  {
    var ts := Targets(es, nodos[i]);
    NumberingMonotone(nodos, nai, ian);
    TranslateSort(nai, ts);
    var sorted := SortSeq(ts);
    forall j | 0 <= j < |sorted| ensures nai[sorted[j]] in ian && ian[nai[sorted[j]]] == sorted[j] {
      var x := sorted[j];
      assert x in nai;
      var k := nai[x];
      assert 0 <= k < |nodos| && nodos[k] == x;
      assert ian[k] == nodos[k];
    }
    TranslateRoundTrip(nai, ian, sorted);
  }

  /** Total number of entries of a list of adjacency lists. */
  function TotalLength(ls: seq<seq<int>>): nat
  {
    if ls == [] then 0 else TotalLength(ls[..|ls| - 1]) + |ls[|ls| - 1]|
  }

  /** When each adjacency list is as long as the out-degree of the matching id,
      the lists hold as many entries as those out-degrees add up to. */
  lemma {:induction false} TotalLengthDegrees(edges: seq<Edge>, ls: seq<seq<int>>, ns: seq<int>)
    requires |ls| == |ns|
    requires forall i :: 0 <= i < |ls| ==> |ls[i]| == OutDegree(edges, ns[i])
    ensures TotalLength(ls) == SumDegrees(edges, ns)
  {
    if ls != [] {
      TotalLengthDegrees(edges, ls[..|ls| - 1], ns[..|ns| - 1]);
    }
  }

  /** The id numbered `i`. */
  function IdOf(ian: map<int, int>, i: int): int
    requires i in ian
  {
    ian[i]
  }

  /** `nai` and `ian` are inverse bijections between `ids` and `[0, n)`,
      and indices follow the ascending order of ids. */
  ghost predicate Bijection(ids: set<int>, n: int, nai: map<int, int>, ian: map<int, int>)
  {
    && nai.Keys == ids
    && n == |ids|
    && (forall i :: i in ian <==> 0 <= i < n)
    && |ian| == n
    && (forall x :: x in nai ==> 0 <= nai[x] < n && ian[nai[x]] == x)
    && (forall i :: 0 <= i < n ==> ian[i] in nai && nai[ian[i]] == i)
    && (forall i, j :: 0 <= i < j < n ==> IdOf(ian, i) < IdOf(ian, j))
  }

  /** Reading an id forward through both maps returns it. */
  lemma BijectionForward(ids: set<int>, n: int, nai: map<int, int>, ian: map<int, int>, x: int)
    requires Bijection(ids, n, nai, ian)
    requires x in nai
    ensures 0 <= nai[x] < n && nai[x] in ian && ian[nai[x]] == x
  {
  }

  /** Reading an index back through both maps returns it. */
  lemma BijectionInverse(ids: set<int>, n: int, nai: map<int, int>, ian: map<int, int>, i: int)
    requires Bijection(ids, n, nai, ian)
    requires 0 <= i < n
    ensures i in ian && ian[i] in nai && nai[ian[i]] == i
  {
  }

  /** Numbering the ascending ids by position is such a bijection. */
  lemma NumberingBijection(nodos: seq<int>, nai: map<int, int>, ian: map<int, int>, ids: set<int>)
    requires Numbering(nodos, nai, ian)
    requires forall x :: x in nodos <==> x in ids
    ensures Bijection(ids, |nodos|, nai, ian)
  {
    NumberingMonotone(nodos, nai, ian);
    StrictlySortedCard(nodos);
    assert (set y | y in nodos) == ids by {
      forall y ensures y in (set y | y in nodos) <==> y in ids {
      }
    }
    assert nai.Keys == ids by {
      forall y ensures y in nai.Keys <==> y in ids {
      }
    }
    forall i, j | 0 <= i < j < |nodos| ensures IdOf(ian, i) < IdOf(ian, j) {
      assert nodos[i] < nodos[j];
    }
  }

  /** The adjacency lists built from `es` hold one entry per edge. */
  lemma LoadedCount(es: seq<Edge>, nodos: seq<int>, nai: map<int, int>, ian: map<int, int>, temp: seq<seq<int>>)
    requires Numbering(nodos, nai, ian) && |temp| == |nodos|
    requires forall x :: x in nodos <==> x in Ids(es)
    requires forall x :: x in nai ==> ListOf(nai, es, temp, x)
    ensures TotalLength(temp) == |es|
  {
    forall i | 0 <= i < |temp| ensures |temp[i]| == OutDegree(es, nodos[i]) {
      assert ListOf(nai, es, temp, nodos[i]);
      TargetsSpec(es, nodos[i]);
    }
    TotalLengthDegrees(es, temp, nodos);
    forall e | e in es ensures e.0 in nodos {
      IdsMembers(es, e.0);
    }
    assert Distinct(nodos) by {
      forall i, j | 0 <= i < j < |nodos| ensures nodos[i] != nodos[j] {
        assert nodos[i] < nodos[j];
      }
    }
    DegreeSum(es, nodos);
  }

  /** List `i`, sorted and translated back to ids, is the out-neighbour
      list of the id numbered `i`. */
  ghost predicate ListMatches(es: seq<Edge>, ian: map<int, int>, temp: seq<seq<int>>, i: int)
  {
    && 0 <= i < |temp| && i in ian
    && Covers(ian, SortSeq(temp[i]))
    && Translate(ian, SortSeq(temp[i])) == Neighbours(es, ian[i])
  }

  /** Both directions of the lists built from `es`: translated back to ids
      and sorted, list `i` is the out-neighbour list of the id numbered `i`;
      all lists together hold one entry per edge, each an index. */
  ghost predicate AdjacencyOf(es: seq<Edge>, ian: map<int, int>, temp: seq<seq<int>>)
  {
    && (forall i :: 0 <= i < |temp| ==> ListMatches(es, ian, temp, i))
    && TotalLength(temp) == |es|
    && EntriesBelow(temp, |temp|)
  }

  /** The three passes over the lines of a file: the edges of the accepted
      lines, the ordered set of ids met, the two maps of the ascending
      numbering, and the per-index adjacency lists. */
  method ScanFile(lineas: seq<string>) returns (aristas: seq<Edge>, nodos: seq<int>, nai: map<int, int>, ian: map<int, int>, temp: seq<seq<int>>)
    ensures aristas == ParseEdges(lineas)
    ensures |nodos| == |temp|
    ensures Bijection(Ids(aristas), |nodos|, nai, ian)
    ensures AdjacencyOf(aristas, ian, temp)
  {
    aristas, nodos := ReadEdges(lineas);
    nai, ian := Renumber(nodos);
    NumberingCoversEdges(aristas, nodos, nai, ian);
    temp := FillLists(aristas, nai, |nodos|);
    NumberingBijection(nodos, nai, ian, Ids(aristas));
    LoadedCount(aristas, nodos, nai, ian, temp);
    forall i | 0 <= i < |temp| ensures ListMatches(aristas, ian, temp, i) {
      assert ListOf(nai, aristas, temp, nodos[i]);
      RowMatches(aristas, nodos, nai, ian, temp, i);
    }
  }
}
