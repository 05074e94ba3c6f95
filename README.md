# GrafoDisperso in Dafny

A verified model of `GrafoDisperso`, the C++ core of a sparse directed graph
engine. It loads a graph once from an edge-list file and renumbers the node
ids to consecutive indices in ascending id order. It stores the graph in
compressed sparse row (CSR) form: `row_ptr`, `col_indices` and `values`.
It answers these queries:

- out-degree
- maximum-degree node
- sorted neighbour list
- depth-bounded breadth-first search (BFS) that returns the nodes found and every edge it followed

The project is layered as follows:

- `sorting.dfy` (`Sorting`) holds insertion sort as the model of `std::sort`. It also holds the element-wise translation of a list of indices through a map, and the fact that translating through an ascending numbering commutes with sorting.
- `graph_spec.dfy` (`GraphSpec`) holds the graph an edge list denotes, with no storage layout. That covers ids, targets, out-degree, the ascending neighbour list, reachability within `k` edges, and the edge list a bounded BFS explores. This is the specification the class is proved against.
- `parsing.dfy` (`Parsing`) decides which lines of the file become edges and how the two ints are read from them.
- `carga.dfy` (`Carga`) models the three loading passes of `cargarDatos`:
  - reading the lines
  - numbering the ids
  - filling the per-index adjacency lists
- `bfs_levels.dfy` (`BfsLevels`) and `bfs_search.dfy` (`BfsSearch`) hold the level bookkeeping of the search. They show that the discovered ids, with their discovery levels, are exactly the ids within the depth, listed by distance. They also state the loop state of `BFS` as a predicate, with one lemma per step of the loop.
- `grafo_disperso.dfy` (`Grafo`) holds the class `GrafoDisperso`, with the fields of the C++ class as `seq` and `map` fields:
  - `ConstruirCSR`
  - `CargarDatos`
  - the queries, as methods with loops where the source loops and as functions where it only looks values up
  - `Valid()`, the invariant every query relies on: the two maps are inverse bijections, and row `i` holds the sorted out-neighbours of the id numbered `i`

Two ghost fields, `edges` and `loaded`, record the edges the graph was loaded
from and whether a load happened. Every contract of a query is stated against
`edges`.

## Model

| member | source | states |
|---|---|---|
| Parsing.ParseLine | grafo_disperso.cpp:30-35 | a line yields an edge only if it is non-empty and does not start with `#` |
| Parsing.SkipSpaceSpec | grafo_disperso.cpp:35 | skipping before a token drops only white space, and stops at the end or at the first character that is not white space |
| Parsing.TakeWordSpec | grafo_disperso.cpp:35 | a word and the rest put back together give the input; the word holds no white space; the rest is empty or starts with white space |
| Parsing.NextTokenSpec | grafo_disperso.cpp:35 | the next token is preceded only by white space, holds none, is followed by the end or by white space, and is empty only when nothing but white space is left |
| Parsing.ParseInt | grafo_disperso.cpp:33-35 | a token that reads as an int is non-empty and holds no white space; a negative value needs a leading `-`; a run of digits always reads, as a non-negative value |
| Parsing.ReadPair | grafo_disperso.cpp:35 | an edge read from a line (via `SkipSpace`, `TakeWord` and `NextToken`) is the values of its first and second tokens; if either token does not read as an int, the line gives no edge |
| Parsing.ParseEdges | grafo_disperso.cpp:28-40 | the edges of a file's lines, in line order; there are never more edges than lines |
| Parsing.ParseEdgesFrom | grafo_disperso.cpp:28-40 | every edge read comes from a line that reads as exactly that edge |
| Parsing.ParseEdgesSnoc | grafo_disperso.cpp:28-40 | reading one more line adds that line's edge, if it has one, at the end |
| Parsing.AcceptedLines | grafo_disperso.cpp:53 | the number of lines that give an edge: at most the number of lines, and 0 exactly when no line gives an edge |
| Parsing.ParseLineShow | grafo_disperso.cpp:32-38 | a line made of two ints, a space between them and any tail that starts with white space yields exactly that pair; extra tokens are ignored |
| Parsing.CommentsIgnored | grafo_disperso.cpp:30 | an empty line or a line that starts with `#` adds no edge |
| Parsing.ParseIntShow | grafo_disperso.cpp:33-35 | the decimal text of every int, negative ones included, reads back as that int |
| Parsing.ParseEdgesAppend | grafo_disperso.cpp:28-40 | reading is line by line: the edges of two blocks of lines are those of the first block followed by those of the second |
| Parsing.ParseEdgesCount | grafo_disperso.cpp:35-38 | there is exactly one edge per accepted line, duplicates counted |
| Sorting.SortSeq | grafo_disperso.cpp:83 | the sort applied to each adjacency list keeps its length; `Sorting.SortSeqSpec` proves the result ascending and a permutation |
| Sorting.SortSeqSpec | grafo_disperso.cpp:83 | the sort used for each adjacency list returns an ascending permutation of its input |
| Sorting.SortedUnique | grafo_disperso.cpp:83 | two ascending permutations of the same list are equal, so any correct sort gives the rows the model gives |
| Sorting.TranslateSort | grafo_disperso.cpp:83 | sorting indices and translating them through a strictly monotone numbering is the same as translating and then sorting |
| Sorting.SetInsert | grafo_disperso.cpp:36-37 | inserting into the ordered id set keeps it strictly ascending and adds exactly the new id |
| Carga.ReadEdges | grafo_disperso.cpp:23-40 | the first pass yields the edges of the accepted lines in line order, and an ascending duplicate-free list holding exactly the ids that occur in those edges |
| Carga.Renumber | grafo_disperso.cpp:45-50 | the ids, visited in ascending order, receive the indices 0, 1, 2, …, recorded in both maps |
| Carga.NumberingMonotone | grafo_disperso.cpp:45-50 | the id-to-index map is strictly monotone, and each index points back at its id |
| Carga.NumberingBijection | grafo_disperso.cpp:45-52 | the two maps are inverse bijections between the ids of the edges and `[0, num_nodos)`, with `num_nodos` the number of distinct ids |
| Carga.FillLists | grafo_disperso.cpp:56-62 | list `nai[x]` holds the indices of the targets of `x`'s edges, in input order, and every entry is an index |
| Carga.RowMatches | grafo_disperso.cpp:83 | sorting the list of index `i` and translating it back to ids gives the ascending out-neighbours of the id numbered `i` |
| Carga.LoadedCount | grafo_disperso.cpp:53-62 | together the adjacency lists hold one entry per edge |
| Carga.ScanFile | grafo_disperso.cpp:23-62 | after the three passes: edges = accepted lines, one adjacency list per id, the maps are a bijection, and the lists match the neighbour lists both ways |
| Grafo.AppendRow | grafo_disperso.cpp:85-88 | the sorted row is appended to `col_indices`, with one weight 1 appended to `values` per entry |
| Grafo.GrafoDisperso.ConstruirCSR | grafo_disperso.cpp:77-96 | `row_ptr` has `num_nodos + 1` entries, starts at 0 and never decreases; `row_ptr[num_nodos]`, the length of `col_indices` and the length of `values` all equal the total length of the lists; every weight is 1; each row is its list sorted; the scratch lists are empty afterwards |
| Grafo.CsrCompressed | grafo_disperso.cpp:77-91 | the CSR arrays built from the load's lists are sorted rows, and row `i` translates to the out-neighbours of the id numbered `i` |
| Grafo.RowStored | grafo_disperso.h:18-19 | `row_ptr[i]..row_ptr[i+1]` delimits within `col_indices` exactly the indices of the ascending out-neighbours of the id numbered `i` |
| Grafo.GrafoDisperso.constructor | grafo_disperso.cpp:5-7 | a new object is empty, with zero nodes and edges, and already satisfies the invariant |
| Grafo.GrafoDisperso.CargarDatos | grafo_disperso.cpp:13-75 | an unopenable file changes nothing; otherwise the invariant holds, the edges are those of the accepted lines, `num_aristas` is the number of accepted lines and `num_nodos` is the number of distinct ids |
| Grafo.GrafoDisperso.Install | grafo_disperso.cpp:52-65 | stores the numbering and both counts, builds the rows from the lists, and leaves the scratch lists empty |
| Grafo.GrafoDisperso.ObtenerNumNodos | grafo_disperso.h:37 | returns the number of distinct node ids; reads only |
| Grafo.GrafoDisperso.ObtenerNumAristas | grafo_disperso.h:38 | returns the number of loaded edges; reads only |
| Grafo.GrafoDisperso.ObtenerIndice | grafo_disperso.cpp:215-218 | a known id gets an index in range that maps back to it; an unknown id gets -1 |
| Grafo.GrafoDisperso.ObtenerNodoOriginal | grafo_disperso.cpp:220-223 | an index in range gets a known id that maps back to it; any other int gets -1 |
| Grafo.GrafoDisperso.RenumberingBijective | grafo_disperso.cpp:45-50 | id → index → id and index → id → index are identities, and `a < b` implies `index(a) < index(b)` |
| Grafo.GrafoDisperso.DegreeAt | grafo_disperso.cpp:105 | the width of row `i` is the out-degree of the id numbered `i` |
| Grafo.GrafoDisperso.ObtenerGrado | grafo_disperso.cpp:98-106 | the degree is the number of edges leaving the node, self-loops and duplicates included, and 0 for an unknown id |
| Grafo.GrafoDisperso.DegreesSumToEdgeCount | grafo_disperso.cpp:53 | the degrees of all nodes add up to `num_aristas` |
| Grafo.GrafoDisperso.ObtenerNodoMayorGrado | grafo_disperso.cpp:108-121 | -1 when no node has an outgoing edge, the empty graph included; otherwise a known node whose degree is at least every node's degree, and every smaller id has a strictly smaller degree, so ties go to the smallest id |
| Grafo.GrafoDisperso.MaxDegreeConclusion | grafo_disperso.cpp:112-118 | a scan of the rows in index order, replacing the best only on a strictly greater degree, yields the maximum degree at the least id that attains it |
| Grafo.GrafoDisperso.GetVecinos | grafo_disperso.cpp:123-140 | returns the neighbour list of the node: its targets in ascending id order, and empty for an unknown id |
| GraphSpec.NeighboursSpec | grafo_disperso.cpp:123-140 | the neighbour list is ascending, is a permutation of the targets of the edges leaving the node, has the out-degree as its length, and is empty for an unknown id |
| GraphSpec.TargetsSpec | grafo_disperso.cpp:58-62 | the targets of `n` number `OutDegree(n)`, are exactly the `t` with an edge `(n, t)`, and are known ids |
| GraphSpec.DegreeSum | grafo_disperso.cpp:53 | over a duplicate-free list that covers every source, the out-degrees add up to the number of edges |
| Grafo.GrafoDisperso.RowBounds | grafo_disperso.cpp:129-133 | the row of a known index lies inside `col_indices` and holds only indices that map back to ids |
| Grafo.GrafoDisperso.RowIdsAt | grafo_disperso.cpp:132-137 | reading the row entry by entry and mapping each index back to its id yields the neighbour list |
| Grafo.GrafoDisperso.RowEntries | grafo_disperso.cpp:173-180 | in a loaded graph, entry `k` of the row of `idx` is the index of the `k`-th ascending out-neighbour of the id numbered `idx` |
| Grafo.GrafoDisperso.BFS | grafo_disperso.cpp:142-199 | an unknown start gives two empty lists; otherwise the visited list starts with the start node, has no duplicates, holds exactly the ids reachable within `profundidadMax` edges, and lists them by non-decreasing distance; the edge list is every out-edge, in neighbour order, of every expanded node in dequeue order, visited target or not; a depth ≤ 0 gives `[s]` and no edges |
| Grafo.GrafoDisperso.PasoBFS | grafo_disperso.cpp:167-190 | one round of the queue loop keeps the search invariant, with one more id dequeued, and extends the edge list to the explored edges of the dequeued ids |
| Grafo.GrafoDisperso.Expandir | grafo_disperso.cpp:173-189 | expanding a dequeued id follows all its neighbours, keeps the dequeued prefix of the visited list, and appends exactly its out-edges in neighbour order |
| Grafo.GrafoDisperso.Seguir | grafo_disperso.cpp:177-188 | following one row entry marks, lists and enqueues one level deeper a neighbour not yet marked, and leaves the search unchanged for a marked one |
| BfsSearch.SearchStart | grafo_disperso.cpp:159-165 | marking, listing and enqueueing the start at level 0 establishes the search invariant |
| BfsSearch.SearchPop | grafo_disperso.cpp:168-169 | the queue front is the index and level of the next listed id |
| BfsSearch.QueuedSnoc | grafo_disperso.cpp:186-187 | appending a new id to the visited list and its entry to the queue keeps the two in step |
| BfsSearch.SearchDiscover | grafo_disperso.cpp:184-188 | discovering an unmarked neighbour of the expanded id keeps the search invariant, with the neighbour one level deeper |
| BfsSearch.ExpandingSeen | grafo_disperso.cpp:184 | a neighbour that is already marked changes nothing but the number of neighbours followed |
| BfsSearch.ExpandingDiscover | grafo_disperso.cpp:184-188 | an unmarked neighbour is discovered one level deeper, and one more neighbour is followed |
| BfsSearch.SearchSkip | grafo_disperso.cpp:171 | a dequeued id at or past the depth is not expanded and adds no edge |
| BfsSearch.SearchExpand | grafo_disperso.cpp:173-189 | once its row has been followed, a dequeued id below the depth is closed, and its out-edges extend the explored edges |
| BfsSearch.SearchDone | grafo_disperso.cpp:167-190 | when the queue is empty, the visited ids are exactly those within the depth, without duplicates and by distance; at depth ≤ 0, only the start |
| BfsLevels.LevelIsDistance | grafo_disperso.cpp:184-187 | the level at which an id was discovered is its distance from the start |
| BfsLevels.Discover | grafo_disperso.cpp:184-187 | discovering a new neighbour of the id under expansion, one level deeper, keeps the levels exact and the visited list ordered by level |
| BfsLevels.Complete | grafo_disperso.cpp:167-190 | once every listed id below the depth is closed, the listed ids are exactly those within the depth, ordered by distance |
| GraphSpec.ExploredSpec | grafo_disperso.cpp:176-189 | the explored edge list is as long as the out-degrees of the expanded nodes add up to, and holds only edges of the graph leaving an expanded visited node |
| GraphSpec.ExploredNone | grafo_disperso.cpp:171 | at depth ≤ 0 no node is expanded and no edge is explored |
| Grafo.GrafoDisperso.ObtenerMemoriaUsada | grafo_disperso.cpp:201-213 | after a load the estimate is 4 bytes per vector entry, `num_nodos + 1 + 2·num_aristas` entries, plus 40 bytes per entry of each map; before a load it is 0 |

The queries `ObtenerGrado`, `ObtenerIndice`, `ObtenerNodoOriginal`,
`ObtenerNumNodos`, `ObtenerNumAristas` and `ObtenerMemoriaUsada` are functions
that only read the object. `ObtenerNodoMayorGrado`, `GetVecinos` and `BFS` are
methods without a `modifies` clause. So every query leaves every field
unchanged, as the `const` methods of the source do.

## Left out

- Files, timing, logging and the destructor are not modelled. A file is given as `Option<seq<string>>` holding its lines, and `None` stands for a file that cannot be opened. The `std::chrono` measurements and the console messages have no counterpart.
- Grafo.GrafoDisperso.CargarDatos: requires a freshly constructed object. The source never clears `col_indices`, `values` or the maps, so loading twice into one object is not modelled; the caller always builds a new object before a load (gui_neuronet.py:138).
- Parsing.ParseInt: reads a token as an int only if the whole token is an optional sign followed by digits. The stream extraction `iss >> origen >> destino` behaves differently in three ways the model does not follow:
  - it accepts a second token with trailing characters (`1 2x`)
  - it rejects values beyond 32 bits
  - it needs no white space before a signed second number: `1-2` reads as (1, -2) and `1+2` as (1, 2), and the model rejects both lines
- Ids, degrees and counts are unbounded integers. The source's 32-bit `int` could overflow only past 2^31 edges or ids.
- Sorting.SortSeqSpec: `std::sort` is modelled by insertion sort. By `Sorting.SortedUnique`, every correct sort produces the same rows, so the choice does not change any stored row.
- Grafo.GrafoDisperso.ObtenerMemoriaUsada: uses vector sizes where the source uses `capacity()`. Capacity is allocator-dependent. The MB conversion done by the callers is out of scope.
- The range check `idx < 0 || idx >= num_nodos` (grafo_disperso.cpp:103, 130) can never fire under the invariant, so it has no branch in the model. `indice_a_nodo.at` likewise can never throw.
- Grafo.GrafoDisperso.BFS: states the visited list by its set of ids, its freedom from duplicates and its non-decreasing distance from the start. Among ids at the same distance it does not pin down the discovery order, which the source fixes by neighbour order. The edge list, however, is tied exactly to the visited list through `Explored`.
- The requirement of the GUI that the BFS depth be at least 1 is not imposed; `BFS` accepts any depth.
- The abstract interface in grafo_base.h and the Python binding and GUI are not part of this model.
