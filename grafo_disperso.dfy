/** The sparse graph engine: a directed graph loaded once from an edge list,
    renumbered to consecutive indices, and stored in compressed sparse row
    (CSR) form, with degree, maximum-degree, neighbour and bounded
    breadth-first queries. */
module Grafo {
  import opened Sorting
  import opened GraphSpec
  import opened Parsing
  import opened BfsLevels
  import opened Carga
  import opened BfsSearch

  lemma TotalLengthStep(ls: seq<seq<int>>, i: int)
    requires 0 <= i < |ls|
    ensures TotalLength(ls[..i + 1]) == TotalLength(ls[..i]) + |ls[i]|
  {
    assert ls[..i + 1][..i] == ls[..i];
  }

  /** Each list of `ls` sorted. */
  function SortEach(ls: seq<seq<int>>): (r: seq<seq<int>>)
    ensures |r| == |ls|
  {
    if ls == [] then [] else SortEach(ls[..|ls| - 1]) + [SortSeq(ls[|ls| - 1])]
  }

  lemma {:induction false} SortEachIndex(ls: seq<seq<int>>)
    ensures forall j :: 0 <= j < |ls| ==> SortEach(ls)[j] == SortSeq(ls[j])
  {
    if ls != [] {
      SortEachIndex(ls[..|ls| - 1]);
    }
  }

  /** Offsets that never decrease from one row to the next never decrease at all. */
  lemma StepsMonotone(rp: seq<int>, n: int)
    requires 0 <= n && |rp| == n + 1
    requires forall j :: 0 <= j < n ==> rp[j] <= rp[j + 1]
    ensures forall a, b :: 0 <= a <= b <= n ==> rp[a] <= rp[b]
  {
    forall a, b | 0 <= a <= b <= n ensures rp[a] <= rp[b] {
      var c := a;
      while c < b
        invariant a <= c <= b && rp[a] <= rp[c]
      {
        c := c + 1;
      }
    }
  }

  /** The first `i` scratch lists have been sorted in place; the rest are untouched. */
  ghost predicate SortedUpTo(lists: seq<seq<int>>, temp: seq<seq<int>>, i: int)
  {
    && 0 <= i <= |lists| && |temp| == |lists|
    && (forall j :: i <= j < |lists| ==> temp[j] == lists[j])
    && temp[..i] == SortEach(lists[..i])
  }

  /** The offsets `rp[0..i]` never decrease and end at the number of stored entries. */
  ghost predicate OffsetsUpTo(lists: seq<seq<int>>, rp: seq<int>, ci: seq<int>, vs: seq<int>, i: int)
  {
    && 0 <= i <= |lists| && |rp| == |lists| + 1
    && rp[0] == 0 && rp[i] == |ci| == |vs| == TotalLength(lists[..i])
    && (forall j :: 0 <= j < i ==> rp[j] <= rp[j + 1])
    && (forall j :: 0 <= j <= i ==> 0 <= rp[j] <= |ci|)
  }

  /** Row `j` is stored between offsets `rp[j]` and `rp[j + 1]`. */
  ghost predicate RowAt(temp: seq<seq<int>>, rp: seq<int>, ci: seq<int>, j: int)
  {
    && 0 <= j < |temp| && j + 1 < |rp|
    && 0 <= rp[j] <= rp[j + 1] <= |ci| && ci[rp[j]..rp[j + 1]] == temp[j]
  }

  /** The first `i` rows are stored between their offsets. */
  ghost predicate RowsStored(temp: seq<seq<int>>, rp: seq<int>, ci: seq<int>, i: int)
  {
    && 0 <= i < |rp| && i <= |temp|
    && (forall j :: 0 <= j < i ==> RowAt(temp, rp, ci, j))
  }

  /** The state of the row-building loop after `i` rows: the first `i`
      scratch lists are sorted and stored, in order, in `ci` with weight 1
      each, delimited by the offsets `rp[0..i]`. */
  ghost predicate Flattened(lists: seq<seq<int>>, temp: seq<seq<int>>, rp: seq<int>, ci: seq<int>, vs: seq<int>, i: int)
  {
    && SortedUpTo(lists, temp, i)
    && OffsetsUpTo(lists, rp, ci, vs, i)
    && RowsStored(temp, rp, ci, i)
    && (forall k :: 0 <= k < |vs| ==> vs[k] == 1)
    && (forall k :: 0 <= k < |ci| ==> 0 <= ci[k] < |lists|)
  }

  lemma SortedStep(lists: seq<seq<int>>, temp: seq<seq<int>>, i: int)
    requires SortedUpTo(lists, temp, i) && i < |lists|
    ensures SortedUpTo(lists, temp[i := SortSeq(temp[i])], i + 1)
  {
    var temp' := temp[i := SortSeq(temp[i])];
    assert lists[..i + 1][..i] == lists[..i];
    assert temp'[..i + 1] == temp[..i] + [SortSeq(lists[i])];
  }

  lemma OffsetsStep(lists: seq<seq<int>>, rp: seq<int>, ci: seq<int>, vs: seq<int>, i: int, fila: seq<int>, vs': seq<int>)
    requires OffsetsUpTo(lists, rp, ci, vs, i) && i < |lists|
    requires |fila| == |lists[i]| && |vs'| == |vs| + |fila|
    ensures OffsetsUpTo(lists, rp[i + 1 := |ci + fila|], ci + fila, vs', i + 1)
  {
    TotalLengthStep(lists, i);
  }

  lemma RowsStep(temp: seq<seq<int>>, rp: seq<int>, ci: seq<int>, i: int, fila: seq<int>)
    requires RowsStored(temp, rp, ci, i) && i < |temp| && i + 1 < |rp| && rp[i] == |ci|
    ensures RowsStored(temp[i := fila], rp[i + 1 := |ci + fila|], ci + fila, i + 1)
  {
    var temp', ci', rp' := temp[i := fila], ci + fila, rp[i + 1 := |ci + fila|];
    forall j | 0 <= j < i + 1 ensures RowAt(temp', rp', ci', j) {
      if j < i {
        assert RowAt(temp, rp, ci, j);
        assert ci'[rp[j]..rp[j + 1]] == ci[rp[j]..rp[j + 1]];
      } else {
        assert ci'[|ci|..] == fila;
      }
    }
  }

  /** Sorting row `i` and appending it keeps the loop state. */
  lemma FlattenStep(lists: seq<seq<int>>, temp: seq<seq<int>>, rp: seq<int>, ci: seq<int>, vs: seq<int>, i: int,
                    ci': seq<int>, vs': seq<int>)
    requires Flattened(lists, temp, rp, ci, vs, i) && i < |lists| && EntriesBelow(lists, |lists|)
    requires ci' == ci + SortSeq(temp[i])
    requires |vs'| == |vs| + |SortSeq(temp[i])| && vs'[..|vs|] == vs
    requires forall t :: |vs| <= t < |vs'| ==> vs'[t] == 1
    ensures Flattened(lists, temp[i := SortSeq(temp[i])], rp[i + 1 := |ci'|], ci', vs', i + 1)
  {
    var fila := SortSeq(temp[i]);
    var temp' := temp[i := fila];
    SortedStep(lists, temp, i);
    OffsetsStep(lists, rp, ci, vs, i, fila, vs');
    RowsStep(temp, rp, ci, i, fila);
    SortSeqSpec(lists[i]);
    forall t | 0 <= t < |fila| ensures 0 <= fila[t] < |lists| {
      assert fila[t] in multiset(lists[i]);
    }
    forall k | 0 <= k < |vs'| ensures vs'[k] == 1 {
      if k < |vs| {
        assert vs'[k] == vs'[..|vs|][k];
      }
    }
  }

  /** The compressed form of the adjacency lists `lists`: offsets `rp` that
      start at 0 and never decrease, one entry per list element in `ci`, each
      with weight 1 in `vs`, and row `i` equal to list `i` sorted. */
  ghost predicate Csr(lists: seq<seq<int>>, rp: seq<int>, ci: seq<int>, vs: seq<int>)
  {
    && |rp| == |lists| + 1 && rp[0] == 0
    && (forall i, j :: 0 <= i <= j <= |lists| ==> rp[i] <= rp[j])
    && rp[|lists|] == |ci| == |vs| == TotalLength(lists)
    && (forall k :: 0 <= k < |vs| ==> vs[k] == 1)
    && (forall k :: 0 <= k < |ci| ==> 0 <= ci[k] < |lists|)
    && (forall i :: 0 <= i < |lists| ==> ci[rp[i]..rp[i + 1]] == SortSeq(lists[i]))
  }

  /** When every row has been stored, the arrays are the compressed form of
      the original lists. */
  lemma FlattenDone(lists: seq<seq<int>>, temp: seq<seq<int>>, rp: seq<int>, ci: seq<int>, vs: seq<int>)
    requires Flattened(lists, temp, rp, ci, vs, |lists|)
    ensures Csr(lists, rp, ci, vs)
  {
    assert lists[..|lists|] == lists && temp[..|lists|] == temp;
    SortEachIndex(lists);
    StepsMonotone(rp, |lists|);
    forall i | 0 <= i < |lists| ensures ci[rp[i]..rp[i + 1]] == SortSeq(lists[i]) {
      assert RowAt(temp, rp, ci, i);
    }
  }

  /** Appends the entries of one row to the column array, each with weight 1. */
  method AppendRow(ci: seq<int>, vs: seq<int>, fila: seq<int>) returns (ci': seq<int>, vs': seq<int>)
    ensures ci' == ci + fila
    ensures |vs'| == |vs| + |fila| && vs'[..|vs|] == vs
    ensures forall t :: |vs| <= t < |vs'| ==> vs'[t] == 1
  {
    ci', vs' := ci, vs;
    var k := 0;
    while k < |fila|
      invariant 0 <= k <= |fila|
      invariant ci' == ci + fila[..k]
      invariant |vs'| == |vs| + k && vs'[..|vs|] == vs
      invariant forall t :: |vs| <= t < |vs'| ==> vs'[t] == 1
    {
      assert fila[..k + 1] == fila[..k] + [fila[k]];
      ci' := ci' + [fila[k]];
      vs' := vs' + [1];
      k := k + 1;
    }
    assert fila[..k] == fila;
  }

  /** Offsets `rp` delimit `n` rows of `ci`: they start at 0, never
      decrease and end at the number of entries, and every entry is an index
      below `n`. */
  ghost predicate Shape(n: int, rp: seq<int>, ci: seq<int>)
  {
    && n >= 0
    && |rp| == n + 1 && rp[0] == 0
    && (forall i, j :: 0 <= i <= j <= n ==> rp[i] <= rp[j])
    && rp[n] == |ci|
    && (forall k :: 0 <= k < |ci| ==> 0 <= ci[k] < n)
  }

  /** Row `i` of a compressed layout. */
  ghost function RowOf(n: int, rp: seq<int>, ci: seq<int>, i: int): seq<int>
    requires Shape(n, rp, ci) && 0 <= i < n
  {
    ci[rp[i]..rp[i + 1]]
  }

  /** The compressed layout of the graph `es` under the numbering `ian`:
      one entry of weight 1 per edge, rows sorted by index, and row `i`,
      translated to ids, the sorted out-neighbours of the id numbered `i`. */
  ghost predicate CompressedForm(es: seq<Edge>, n: int, ian: map<int, int>, rp: seq<int>, ci: seq<int>, vs: seq<int>)
  {
    && Shape(n, rp, ci)
    && |vs| == |ci| == |es|
    && (forall k :: 0 <= k < |vs| ==> vs[k] == 1)
    && (forall i :: 0 <= i < n ==> i in ian)
    && (forall i {:trigger RowOf(n, rp, ci, i)} :: 0 <= i < n ==> Sorted(RowOf(n, rp, ci, i)))
    && (forall i {:trigger RowOf(n, rp, ci, i)} :: 0 <= i < n ==>
          Covers(ian, RowOf(n, rp, ci, i)) && Translate(ian, RowOf(n, rp, ci, i)) == Neighbours(es, ian[i]))
  }

  /** Row `idx` of a compressed layout holds, entry by entry, the indices of
      the sorted out-neighbours of the id numbered `idx`. */
  lemma RowStored(es: seq<Edge>, n: int, ian: map<int, int>, rp: seq<int>, ci: seq<int>, vs: seq<int>, idx: int)
    requires CompressedForm(es, n, ian, rp, ci, vs) && 0 <= idx < n
    ensures idx in ian && |rp| == n + 1 && 0 <= rp[idx] <= rp[idx + 1] <= |ci|
    ensures rp[idx + 1] - rp[idx] == |Neighbours(es, ian[idx])|
    ensures forall k :: rp[idx] <= k < rp[idx + 1] ==>
              0 <= ci[k] < n && ci[k] in ian && ian[ci[k]] == Neighbours(es, ian[idx])[k - rp[idx]]
  {
    var row := RowOf(n, rp, ci, idx);
    var ns := Neighbours(es, ian[idx]);
    assert Covers(ian, row) && Translate(ian, row) == ns;
    forall k | rp[idx] <= k < rp[idx + 1]
      ensures 0 <= ci[k] < n && ci[k] in ian && ian[ci[k]] == ns[k - rp[idx]]
    {
      assert row[k - rp[idx]] == ci[k];
    }
  }

  /** The rows built from the adjacency lists of a load are the compressed
      layout of the loaded graph. */
  lemma CsrCompressed(es: seq<Edge>, ian: map<int, int>, temp: seq<seq<int>>, rp: seq<int>, ci: seq<int>, vs: seq<int>)
    requires AdjacencyOf(es, ian, temp) && Csr(temp, rp, ci, vs)
    ensures CompressedForm(es, |temp|, ian, rp, ci, vs)
  {
    var n := |temp|;
    assert Shape(n, rp, ci);
    forall i | 0 <= i < n
      ensures i in ian && Sorted(RowOf(n, rp, ci, i))
      ensures Covers(ian, RowOf(n, rp, ci, i)) && Translate(ian, RowOf(n, rp, ci, i)) == Neighbours(es, ian[i])
    {
      assert RowOf(n, rp, ci, i) == SortSeq(temp[i]);
      SortSeqSpec(temp[i]);
      assert ListMatches(es, ian, temp, i);
    }
  }

  class GrafoDisperso {
    /** `rowPtr[i]..rowPtr[i + 1]` delimits the out-neighbours of index `i` in `colIndices`. */
    var rowPtr: seq<int>
    /** Target indices of all edges, row after row. */
    var colIndices: seq<int>
    /** One weight per entry of `colIndices`, always 1. */
    var values: seq<int>
    var numNodos: int
    var numAristas: int
    /** Node id to consecutive index, and back. */
    var nodoAIndice: map<int, int>
    var indiceANodo: map<int, int>
    /** Scratch adjacency lists (by index), used only while the rows are built. */
    var listaAdyacenciaTemp: seq<seq<int>>

    /** The edges the graph was loaded from, in input order. */
    ghost var edges: seq<Edge>
    /** Whether a load has completed. */
    ghost var loaded: bool

    /** The two maps are inverse bijections between the node ids and
        `[0, numNodos)`, and indices follow the ascending order of ids. */
    ghost predicate Renumbered()
      reads this`edges, this`numNodos, this`nodoAIndice, this`indiceANodo
    {
      Bijection(Ids(edges), numNodos, nodoAIndice, indiceANodo)
    }

    /** The row offsets are a monotone sequence from 0 to the number of
        stored entries, and every stored entry is an index. */
    ghost predicate Shaped()
      reads this
    {
      Shape(numNodos, rowPtr, colIndices)
    }

    /** The stored row of index `i`. */
    ghost function Row(i: int): seq<int>
      reads this
      requires Shaped() && 0 <= i < numNodos
    {
      RowOf(numNodos, rowPtr, colIndices, i)
    }

    /** The stored row of index `i`, translated back to node ids. */
    ghost function RowIds(i: int): seq<int>
      reads this
      requires Renumbered() && Shaped() && 0 <= i < numNodos
    {
      assert Covers(indiceANodo, Row(i));
      Translate(indiceANodo, Row(i))
    }

    /** The CSR invariant: rows are sorted by index, weights are all 1, there
        are as many entries as edges, and row `i` holds the out-neighbours of
        the id with index `i`. */
    ghost predicate Compressed()
      reads this
    {
      CompressedForm(edges, numNodos, indiceANodo, rowPtr, colIndices, values)
    }

    ghost predicate Valid()
      reads this
    {
      && Renumbered()
      && numAristas == |edges|
      && listaAdyacenciaTemp == []
      && (if loaded then Compressed() else rowPtr == [] && colIndices == [] && values == [] && edges == [])
    }

    /** The state of a newly constructed object. */
    ghost predicate Fresh()
      reads this
    {
      && !loaded && edges == []
      && rowPtr == [] && colIndices == [] && values == []
      && numNodos == 0 && numAristas == 0
      && nodoAIndice == map[] && indiceANodo == map[]
      && listaAdyacenciaTemp == []
    }

    constructor ()
      ensures Valid() && Fresh()
    {
      rowPtr, colIndices, values := [], [], [];
      numNodos, numAristas := 0, 0;
      nodoAIndice, indiceANodo := map[], map[];
      listaAdyacenciaTemp := [];
      edges, loaded := [], false;
    }

    /** Flattens the scratch adjacency lists into the compressed rows: each
        list is sorted, its entries are appended to the column array with
        weight 1, and the row offsets record where each row ends; the scratch
        lists are released afterwards. */
    method ConstruirCSR()
      requires numNodos >= 0 && |listaAdyacenciaTemp| == numNodos
      requires colIndices == [] && values == []
      requires EntriesBelow(listaAdyacenciaTemp, numNodos)
      modifies this`rowPtr, this`colIndices, this`values, this`listaAdyacenciaTemp
      ensures Csr(old(listaAdyacenciaTemp), rowPtr, colIndices, values)
      ensures listaAdyacenciaTemp == []
    {
      var n := numNodos;
      ghost var lists := listaAdyacenciaTemp;
      var temp := listaAdyacenciaTemp;
      var rp: seq<int> := seq(n + 1, _ => 0);
      var ci: seq<int> := [];
      var vs: seq<int> := [];
      var i := 0;
      while i < n
        invariant Flattened(lists, temp, rp, ci, vs, i)
      {
        ghost var temp0, rp0, ci0, vs0 := temp, rp, ci, vs;
        var fila := SortSeq(temp[i]);
        temp := temp[i := fila];
        ci, vs := AppendRow(ci, vs, fila);
        rp := rp[i + 1 := |ci|];
        FlattenStep(lists, temp0, rp0, ci0, vs0, i, ci, vs);
        i := i + 1;
      }
      FlattenDone(lists, temp, rp, ci, vs);
      rowPtr, colIndices, values := rp, ci, vs;
      listaAdyacenciaTemp := [];
    }

    /** Loads the graph from the lines of an edge-list file; `None` stands
        for a file that cannot be opened, which leaves the object as it was.
        Otherwise the accepted lines give the edges, the ids are numbered in
        ascending order, and the compressed rows are built. */
    method CargarDatos(archivo: Option<seq<string>>)
      requires Fresh()
      modifies this
      ensures archivo.None? ==> unchanged(this)
      ensures archivo.Some? ==> Valid() && loaded && edges == ParseEdges(archivo.value)
      ensures archivo.Some? ==> numAristas == AcceptedLines(archivo.value) && numNodos == |Ids(edges)|
    {
      if archivo.None? {
        return;
      }
      var aristas, nodos, nai, ian, temp := ScanFile(archivo.value);
      Install(aristas, nodos, nai, ian, temp);
      CsrCompressed(aristas, ian, temp, rowPtr, colIndices, values);
      ParseEdgesCount(archivo.value);
    }

    /** The second half of a load: stores the numbering and the sizes, hands
        the adjacency lists to the row builder, and records the edges. */
    method Install(aristas: seq<Edge>, nodos: seq<int>, nai: map<int, int>, ian: map<int, int>, temp: seq<seq<int>>)
      requires Fresh()
      requires |nodos| == |temp| && EntriesBelow(temp, |temp|)
      modifies this
      ensures nodoAIndice == nai && indiceANodo == ian
      ensures numNodos == |nodos| && numAristas == |aristas|
      ensures edges == aristas && loaded && listaAdyacenciaTemp == []
      ensures Csr(temp, rowPtr, colIndices, values)
    {
      nodoAIndice, indiceANodo := nai, ian;
      numNodos, numAristas := |nodos|, |aristas|;
      listaAdyacenciaTemp := temp;
      edges, loaded := aristas, true;
      ConstruirCSR();
    }

    function ObtenerNumNodos(): (r: int)
      reads this
      requires Valid()
      ensures r == |Ids(edges)|
    {
      numNodos
    }

    function ObtenerNumAristas(): (r: int)
      reads this
      requires Valid()
      ensures r == |edges|
    {
      numAristas
    }

    /** Index of a node id, or -1 for an id never seen. */
    function ObtenerIndice(nodoOriginal: int): (r: int)
      reads this
      requires Valid()
      ensures nodoOriginal in Ids(edges) ==> 0 <= r < numNodos && indiceANodo[r] == nodoOriginal
      ensures nodoOriginal !in Ids(edges) ==> r == -1
    {
      if nodoOriginal in nodoAIndice then nodoAIndice[nodoOriginal] else -1
    }

    /** Node id of an index, or -1 for an index out of range. */
    function ObtenerNodoOriginal(indice: int): (r: int)
      reads this
      requires Valid()
      ensures 0 <= indice < numNodos ==> r in Ids(edges) && nodoAIndice[r] == indice
      ensures !(0 <= indice < numNodos) ==> r == -1
    {
      if indice in indiceANodo then indiceANodo[indice] else -1
    }

    /** Renumbering is a bijection that keeps the order of ids. */
    lemma RenumberingBijective()
      requires Valid()
      ensures forall x :: x in Ids(edges) ==> ObtenerNodoOriginal(ObtenerIndice(x)) == x
      ensures forall i :: 0 <= i < numNodos ==> ObtenerIndice(ObtenerNodoOriginal(i)) == i
      ensures forall a, b :: a in Ids(edges) && b in Ids(edges) && a < b ==> ObtenerIndice(a) < ObtenerIndice(b)
    {
      forall a, b | a in Ids(edges) && b in Ids(edges) && a < b ensures ObtenerIndice(a) < ObtenerIndice(b) {
        var ia, ib := nodoAIndice[a], nodoAIndice[b];
        assert IdOf(indiceANodo, ia) == a && IdOf(indiceANodo, ib) == b;
      }
    }

    /** The length of the stored row of index `i` is the out-degree of its id. */
    lemma DegreeAt(i: int)
      requires Valid() && loaded && 0 <= i < numNodos
      ensures rowPtr[i + 1] - rowPtr[i] == OutDegree(edges, indiceANodo[i])
    {
      NeighboursSpec(edges, indiceANodo[i]);
      assert |RowIds(i)| == |Row(i)|;
    }

    /** Out-degree of a node: the number of edges leaving it, 0 for an unknown id. */
    function ObtenerGrado(nodo: int): (grado: int)
      reads this
      requires Valid()
      ensures grado == OutDegree(edges, nodo)
      ensures nodo !in Ids(edges) ==> grado == 0
    {
      if nodo !in nodoAIndice then
        TargetsSpec(edges, nodo);
        0
      else
        var idx := nodoAIndice[nodo];
        DegreeAt(idx);
        rowPtr[idx + 1] - rowPtr[idx]
    }

    /** The ids by index. */
    ghost function Order(): (ns: seq<int>)
      reads this
      requires Renumbered()
    {
      var m, n := indiceANodo, numNodos;
      seq(n, i requires 0 <= i < n => m[i])
    }

    /** The degrees of all nodes add up to the number of edges. */
    lemma DegreesSumToEdgeCount()
      requires Valid()
      ensures SumDegrees(edges, Order()) == numAristas
    {
      var ns := Order();
      forall e | e in edges ensures e.0 in ns {
        IdsMembers(edges, e.0);
        assert ns[nodoAIndice[e.0]] == e.0;
      }
      DegreeSum(edges, ns);
    }

    /** Node of greatest positive out-degree, the least id among equals, or -1
        when no node has an outgoing edge. */
    method ObtenerNodoMayorGrado() returns (nodoMax: int)
      requires Valid()
      ensures (forall n :: OutDegree(edges, n) == 0) ==> nodoMax == -1
      ensures (exists n :: OutDegree(edges, n) > 0) ==>
                && nodoMax in Ids(edges)
                && (forall n :: OutDegree(edges, n) <= OutDegree(edges, nodoMax))
                && (forall n :: n < nodoMax ==> OutDegree(edges, n) < OutDegree(edges, nodoMax))
    {
      var maxGrado := 0;
      nodoMax := -1;
      ghost var best := -1;
      var i := 0;
      while i < numNodos
        invariant 0 <= i <= numNodos
        invariant i > 0 ==> loaded
        invariant -1 <= best < i
        invariant best == -1 <==> maxGrado == 0
        invariant best == -1 ==> nodoMax == -1
        invariant best != -1 ==> nodoMax == indiceANodo[best] && maxGrado == rowPtr[best + 1] - rowPtr[best]
        invariant forall j :: 0 <= j < i ==> rowPtr[j + 1] - rowPtr[j] <= maxGrado
        invariant best != -1 ==> forall j :: 0 <= j < best ==> rowPtr[j + 1] - rowPtr[j] < maxGrado
      {
        var grado := rowPtr[i + 1] - rowPtr[i];
        if grado > maxGrado {
          maxGrado := grado;
          nodoMax := indiceANodo[i];
          best := i;
        }
        i := i + 1;
      }
      MaxDegreeConclusion(best, maxGrado);
      if best != -1 {
        DegreeAt(best);
      }
    }

    /** What the scan of the rows in index order establishes about the
        degree of the node it picked. */
    lemma MaxDegreeConclusion(best: int, maxGrado: int)
      requires Valid()
      requires -1 <= best < numNodos && (best == -1 <==> maxGrado == 0)
      requires best != -1 ==> loaded && maxGrado == rowPtr[best + 1] - rowPtr[best]
      requires numNodos > 0 ==> loaded
      requires forall j :: 0 <= j < numNodos ==> rowPtr[j + 1] - rowPtr[j] <= maxGrado
      requires best != -1 ==> forall j :: 0 <= j < best ==> rowPtr[j + 1] - rowPtr[j] < maxGrado
      ensures forall n :: OutDegree(edges, n) <= maxGrado
      ensures best != -1 ==> forall n :: n < indiceANodo[best] ==> OutDegree(edges, n) < maxGrado
    {
      forall n ensures OutDegree(edges, n) <= maxGrado {
        if n in Ids(edges) {
          DegreeAt(nodoAIndice[n]);
        } else {
          TargetsSpec(edges, n);
        }
      }
      if best != -1 {
        forall n | n < indiceANodo[best] ensures OutDegree(edges, n) < maxGrado {
          if n in Ids(edges) {
            var j := nodoAIndice[n];
            DegreeAt(j);
            assert IdOf(indiceANodo, j) == n && IdOf(indiceANodo, best) == indiceANodo[best];
            assert j < best;
          } else {
            TargetsSpec(edges, n);
          }
        }
      }
    }

    /** Out-neighbours of a node as ids, ascending; empty for an unknown id. */
    method GetVecinos(nodo: int) returns (vecinos: seq<int>)
      requires Valid()
      ensures vecinos == Neighbours(edges, nodo)
    {
      vecinos := [];
      if nodo !in nodoAIndice {
        NeighboursSpec(edges, nodo);
        return;
      }
      var idx := nodoAIndice[nodo];
      RowBounds(idx);
      var inicio := rowPtr[idx];
      var fin := rowPtr[idx + 1];
      var i := inicio;
      while i < fin
        invariant inicio <= i <= fin
        invariant |vecinos| == i - inicio
        invariant forall t :: 0 <= t < i - inicio ==> vecinos[t] == indiceANodo[colIndices[inicio + t]]
      {
        vecinos := vecinos + [indiceANodo[colIndices[i]]];
        i := i + 1;
      }
      RowIdsAt(nodo, vecinos);
    }

    /** The stored row of a loaded index lies within the column array and
        holds only indices of known ids. */
    lemma RowBounds(idx: int)
      requires Valid() && 0 <= idx < numNodos
      ensures loaded
      ensures 0 <= rowPtr[idx] <= rowPtr[idx + 1] <= |colIndices|
      ensures forall k :: rowPtr[idx] <= k < rowPtr[idx + 1] ==> colIndices[k] in indiceANodo
    {
    }

    /** Reading the stored row of `idx` entry by entry and translating each
        index back to its id yields the out-neighbour list of that id. */
    lemma RowIdsAt(nodo: int, vs: seq<int>)
      requires Valid() && loaded && nodo in nodoAIndice
      requires |vs| == rowPtr[nodoAIndice[nodo] + 1] - rowPtr[nodoAIndice[nodo]]
      requires forall t :: 0 <= t < |vs| ==> vs[t] == indiceANodo[colIndices[rowPtr[nodoAIndice[nodo]] + t]]
      ensures vs == Neighbours(edges, nodo)
    {
      var idx := nodoAIndice[nodo];
      var row := Row(idx);
      assert forall t :: 0 <= t < |vs| ==> row[t] == colIndices[rowPtr[idx] + t];
      assert vs == RowIds(idx);
    }

    /** The stored row of `idx` lies within the column array, and its entry
        `k` is the index of the `k`-th out-neighbour, in ascending order, of
        the id numbered `idx`. */
    ghost predicate StoredRow(idx: int)
      reads this
    {
      && 0 <= idx < numNodos && |rowPtr| == numNodos + 1 && idx in indiceANodo
      && 0 <= rowPtr[idx] <= rowPtr[idx + 1] <= |colIndices|
      && rowPtr[idx + 1] - rowPtr[idx] == |Neighbours(edges, indiceANodo[idx])|
      && forall k :: rowPtr[idx] <= k < rowPtr[idx + 1] ==>
           0 <= colIndices[k] < numNodos && colIndices[k] in indiceANodo
           && indiceANodo[colIndices[k]] == Neighbours(edges, indiceANodo[idx])[k - rowPtr[idx]]
    }

    /** Every row of a loaded graph is stored that way. */
    lemma RowEntries(idx: int)
      requires Valid() && 0 <= idx < numNodos
      ensures StoredRow(idx)
    {
      if loaded {
        RowStored(edges, numNodos, indiceANodo, rowPtr, colIndices, values, idx);
      } else {
        assert false;
      }
    }

    /** Breadth-first search from `nodoInicio` down to `profundidadMax`
        levels: the ids discovered, in discovery order, and every edge
        followed, in the order followed. An unknown start gives two empty
        lists. */
    method BFS(nodoInicio: int, profundidadMax: int) returns (visitados: seq<int>, aristas: seq<Edge>)
      requires Valid()
      ensures nodoInicio !in Ids(edges) ==> visitados == [] && aristas == []
      ensures nodoInicio in Ids(edges) ==>
                && |visitados| > 0 && visitados[0] == nodoInicio
                && Distinct(visitados)
                && (forall x :: x in visitados <==> x in Reach(edges, nodoInicio, Depth(profundidadMax)))
                && (forall i, j, k: nat :: 0 <= i < j < |visitados| && visitados[j] in Reach(edges, nodoInicio, k) ==>
                      visitados[i] in Reach(edges, nodoInicio, k))
                && aristas == Explored(edges, nodoInicio, profundidadMax, visitados)
      ensures nodoInicio in Ids(edges) && profundidadMax <= 0 ==> visitados == [nodoInicio] && aristas == []
    {
      visitados, aristas := [], [];
      if nodoInicio !in nodoAIndice {
        return;
      }
      ghost var s, d := nodoInicio, profundidadMax;
      var idxInicio := nodoAIndice[nodoInicio];
      SearchStart(edges, s, d, nodoAIndice, indiceANodo, numNodos);
      var cola: seq<(int, int)> := [(idxInicio, 0)];
      var visitado := seq(numNodos, _ => false);
      visitado := visitado[idxInicio := true];
      visitados := [nodoInicio];
      ghost var lvl := map[s := 0];
      ghost var h := 0;
      while cola != []
        invariant Searching(edges, s, d, nodoAIndice, indiceANodo, numNodos, visitados, lvl, h, h, cola, visitado)
        invariant h < |visitados| ==> forall x :: x in lvl ==> lvl[x] <= lvl[visitados[h]] + 1
        invariant aristas == Explored(edges, s, d, visitados[..h])
        decreases numNodos - h
      {
        visitados, aristas, cola, visitado, lvl := PasoBFS(s, profundidadMax, visitados, aristas, cola, visitado, lvl, h);
        h := h + 1;
      }
      SearchDone(edges, s, d, nodoAIndice, indiceANodo, numNodos, visitados, lvl, h, visitado);
    }

    /** One round of the search loop: dequeues the front index and, when its
        level is below the depth, expands its row. */
    method PasoBFS(ghost s: int, d: int, visitados: seq<int>, aristas: seq<Edge>, cola: seq<(int, int)>, visitado: seq<bool>,
                   ghost lvl: map<int, int>, ghost h: int)
      returns (visitados': seq<int>, aristas': seq<Edge>, cola': seq<(int, int)>, visitado': seq<bool>,
               ghost lvl': map<int, int>)
      requires Valid() && cola != []
      requires Searching(edges, s, d, nodoAIndice, indiceANodo, numNodos, visitados, lvl, h, h, cola, visitado)
      requires h < |visitados| ==> forall x :: x in lvl ==> lvl[x] <= lvl[visitados[h]] + 1
      requires aristas == Explored(edges, s, d, visitados[..h])
      ensures Searching(edges, s, d, nodoAIndice, indiceANodo, numNodos, visitados', lvl', h + 1, h + 1, cola', visitado')
      ensures h + 1 < |visitados'| ==> forall x :: x in lvl' ==> lvl'[x] <= lvl'[visitados'[h + 1]] + 1
      ensures aristas' == Explored(edges, s, d, visitados'[..h + 1])
    {
      SearchPop(edges, s, d, nodoAIndice, indiceANodo, numNodos, visitados, lvl, h, cola, visitado);
      var (idxActual, profActual) := cola[0];
      if profActual >= d {
        SearchSkip(edges, s, d, nodoAIndice, indiceANodo, numNodos, visitados, lvl, h, cola, visitado);
        visitados', aristas', cola', visitado', lvl' := visitados, aristas, cola[1..], visitado, lvl;
      } else {
        RowEntries(idxActual);
        visitados', aristas', cola', visitado', lvl' :=
          Expandir(s, d, idxActual, profActual, visitados, aristas, cola[1..], visitado, lvl, h + 1);
        SearchExpand(edges, s, d, nodoAIndice, indiceANodo, numNodos, visitados, lvl, h, aristas,
                     visitados', lvl', cola', visitado', aristas', profActual);
      }
    }

    /** One expansion step of the search: follows the stored row of the
        dequeued id at index `idxActual` and level `profActual`, recording
        every edge and discovering, marking and enqueueing one level deeper
        each target not yet marked. */
    method Expandir(ghost s: int, ghost d: int, idxActual: int, profActual: int,
                    visitados: seq<int>, aristas: seq<Edge>, cola: seq<(int, int)>, visitado: seq<bool>,
                    ghost lvl: map<int, int>, ghost h: int)
      returns (visitados': seq<int>, aristas': seq<Edge>, cola': seq<(int, int)>, visitado': seq<bool>,
               ghost lvl': map<int, int>)
      requires Expanding(edges, s, d, nodoAIndice, indiceANodo, numNodos, visitados, lvl, h, cola, visitado, profActual, 0)
      requires StoredRow(idxActual) && indiceANodo[idxActual] == visitados[h - 1]
      ensures Expanding(edges, s, d, nodoAIndice, indiceANodo, numNodos, visitados', lvl', h, cola', visitado',
                        profActual, |Neighbours(edges, visitados[h - 1])|)
      ensures visitados'[..h] == visitados[..h] && visitados'[h - 1] == visitados[h - 1]
      ensures aristas' == aristas + EdgesFrom(visitados[h - 1], Neighbours(edges, visitados[h - 1]))
    {
      ghost var u := visitados[h - 1];
      ghost var ns := Neighbours(edges, u);
      visitados', aristas', cola', visitado', lvl' := visitados, aristas, cola, visitado, lvl;
      var inicio := rowPtr[idxActual];
      var fin := rowPtr[idxActual + 1];
      var i := inicio;
      while i < fin
        invariant inicio <= i <= fin
        invariant Expanding(edges, s, d, nodoAIndice, indiceANodo, numNodos, visitados', lvl', h, cola', visitado', profActual, i - inicio)
        invariant visitados'[..h] == visitados[..h] && visitados'[h - 1] == u
        invariant aristas' == aristas + EdgesFrom(u, ns[..i - inicio])
      {
        var idxVecino := colIndices[i];
        var nodoActualOriginal := indiceANodo[idxActual];
        var nodoVecinoOriginal := indiceANodo[idxVecino];
        EdgesFromSnoc(u, ns, i - inicio);
        aristas' := aristas' + [(nodoActualOriginal, nodoVecinoOriginal)];
        visitados', cola', visitado', lvl' := Seguir(s, d, idxActual, profActual, i, visitados', cola', visitado', lvl', h);
        i := i + 1;
      }
      assert ns[..i - inicio] == ns;
    }

    /** Follows entry `i` of the row of `idxActual`: a neighbour not yet
        marked is marked, listed and enqueued one level deeper; a marked one
        leaves the search as it is. */
    method Seguir(ghost s: int, ghost d: int, idxActual: int, profActual: int, i: int,
                  visitados: seq<int>, cola: seq<(int, int)>, visitado: seq<bool>, ghost lvl: map<int, int>, ghost h: int)
      returns (visitados': seq<int>, cola': seq<(int, int)>, visitado': seq<bool>, ghost lvl': map<int, int>)
      requires StoredRow(idxActual) && rowPtr[idxActual] <= i < rowPtr[idxActual + 1]
      requires Expanding(edges, s, d, nodoAIndice, indiceANodo, numNodos, visitados, lvl, h, cola, visitado,
                         profActual, i - rowPtr[idxActual])
      requires indiceANodo[idxActual] == visitados[h - 1]
      ensures Expanding(edges, s, d, nodoAIndice, indiceANodo, numNodos, visitados', lvl', h, cola', visitado',
                        profActual, i - rowPtr[idxActual] + 1)
      ensures visitados'[..h] == visitados[..h] && visitados'[h - 1] == visitados[h - 1]
    {
      var idxVecino := colIndices[i];
      if !visitado[idxVecino] {
        ExpandingDiscover(edges, s, d, nodoAIndice, indiceANodo, numNodos, visitados, lvl, h, cola, visitado,
                          profActual, i - rowPtr[idxActual], idxVecino);
        visitado' := visitado[idxVecino := true];
        visitados' := visitados + [indiceANodo[idxVecino]];
        cola' := cola + [(idxVecino, profActual + 1)];
        lvl' := lvl[indiceANodo[idxVecino] := profActual + 1];
      } else {
        ExpandingSeen(edges, s, d, nodoAIndice, indiceANodo, numNodos, visitados, lvl, h, cola, visitado,
                      profActual, i - rowPtr[idxActual], idxVecino);
        visitados', cola', visitado', lvl' := visitados, cola, visitado, lvl;
      }
    }

    /** Memory estimate from the sizes of the stored vectors and maps: four
        bytes per vector entry and forty per map entry. */
    function ObtenerMemoriaUsada(): (bytes: int)
      reads this
      requires Valid()
      ensures loaded ==> bytes == 4 * (numNodos + 1 + 2 * numAristas) + 80 * numNodos
      ensures !loaded ==> bytes == 0
    {
      4 * (|rowPtr| + |colIndices| + |values|) + 40 * (|nodoAIndice| + |indiceANodo|)
    }
  }
}
