/** Sorting of neighbour lists and translation of node numbers through a map.
    `SortSeq` stands for the library sort applied to each temporary adjacency
    list before it is flattened into the compressed rows. */
module Sorting {

  predicate Sorted(s: seq<int>) {
    forall i, j :: 0 <= i < j < |s| ==> s[i] <= s[j]
  }

  /** Inserts `x` in front of the first element not smaller than it. */
  function Insert(x: int, s: seq<int>): (r: seq<int>)
    ensures |r| == |s| + 1
  {
    if s == [] || x <= s[0] then [x] + s else [s[0]] + Insert(x, s[1..])
  }

  /** Insertion adds `x` once, puts either `x` or the old head in front,
      and keeps an ascending sequence ascending. */
  lemma {:induction false} InsertSpec(x: int, s: seq<int>)
    ensures multiset(Insert(x, s)) == multiset(s) + multiset{x}
    ensures Insert(x, s)[0] == x || (s != [] && Insert(x, s)[0] == s[0])
    ensures Sorted(s) ==> Sorted(Insert(x, s))
  {
    if s != [] && x > s[0] {
      InsertSpec(x, s[1..]);
      var t := Insert(x, s[1..]);
      assert s == [s[0]] + s[1..];
      assert Insert(x, s) == [s[0]] + t;
      if Sorted(s) {
        assert s[0] <= t[0];
      }
    }
  }

  /** Insertion sort, standing for the library sort. */
  function SortSeq(s: seq<int>): (r: seq<int>)
    ensures |r| == |s|
  {
    if s == [] then [] else Insert(s[0], SortSeq(s[1..]))
  }

  /** The sort yields an ascending permutation of its input. */
  lemma {:induction false} SortSeqSpec(s: seq<int>)
    ensures Sorted(SortSeq(s))
    ensures multiset(SortSeq(s)) == multiset(s)
  {
    if s != [] {
      SortSeqSpec(s[1..]);
      InsertSpec(s[0], SortSeq(s[1..]));
      assert s == [s[0]] + s[1..];
    }
  }

  lemma SortedHead(a: seq<int>, y: int)
    requires Sorted(a) && y in multiset(a)
    ensures a[0] <= y
  {
    var k :| 0 <= k < |a| && a[k] == y;
  }

  lemma SortedTail(a: seq<int>)
    requires Sorted(a) && a != []
    ensures Sorted(a[1..])
  {
  }

  lemma MultisetTail(a: seq<int>)
    requires a != []
    ensures multiset(a[1..]) == multiset(a) - multiset{a[0]}
  {
    assert a == [a[0]] + a[1..];
  }

  /** Two ascending arrangements of the same multiset are the same sequence. */
  lemma {:induction false} SortedUnique(a: seq<int>, b: seq<int>)
    requires Sorted(a) && Sorted(b) && multiset(a) == multiset(b)
    ensures a == b
  {
    SameLength(a, b);
    if a != [] {
      SortedHead(a, b[0]);
      SortedHead(b, a[0]);
      MultisetTail(a);
      MultisetTail(b);
      SortedTail(a);
      SortedTail(b);
      SortedUnique(a[1..], b[1..]);
      HeadTail(a, b);
    }
  }

  lemma SameLength(a: seq<int>, b: seq<int>)
    requires multiset(a) == multiset(b)
    ensures |a| == |b|
  {
    assert |a| == |multiset(a)|;
  }

  lemma HeadTail(a: seq<int>, b: seq<int>)
    requires a != [] && b != [] && a[0] == b[0] && a[1..] == b[1..]
    ensures a == b
  {
    assert a == [a[0]] + a[1..];
    assert b == [b[0]] + b[1..];
  }

  /** Every element of `s` is a key of `m`. */
  predicate Covers(m: map<int, int>, s: seq<int>) {
    forall j :: 0 <= j < |s| ==> s[j] in m
  }

  /** The element-wise image of `s` under `m`. */
  function Translate(m: map<int, int>, s: seq<int>): (r: seq<int>)
    requires Covers(m, s)
    ensures |r| == |s|
    ensures forall j :: 0 <= j < |s| ==> r[j] == m[s[j]]
  {
    if s == [] then [] else [m[s[0]]] + Translate(m, s[1..])
  }

  /** `m` preserves the strict order of its keys. */
  predicate StrictlyMonotone(m: map<int, int>) {
    forall a, b :: a in m && b in m && a < b ==> m[a] < m[b]
  }

  lemma InsertCovers(m: map<int, int>, x: int, s: seq<int>)
    requires x in m && Covers(m, s)
    ensures Covers(m, Insert(x, s))
  {
    InsertSpec(x, s);
    var r := Insert(x, s);
    forall j | 0 <= j < |r| ensures r[j] in m {
      assert r[j] in multiset(r);
    }
  }

  lemma {:induction false} TranslateInsert(m: map<int, int>, x: int, s: seq<int>)
    requires StrictlyMonotone(m) && x in m && Covers(m, s)
    ensures Covers(m, Insert(x, s))
    ensures Translate(m, Insert(x, s)) == Insert(m[x], Translate(m, s))
  {
    InsertCovers(m, x, s);
    var ts := Translate(m, s);
    if s == [] || x <= s[0] {
      assert s != [] ==> ts[0] == m[s[0]] && m[x] <= ts[0];
      assert Translate(m, [x] + s) == [m[x]] + ts;
    } else {
      assert Covers(m, s[1..]);
      TranslateInsert(m, x, s[1..]);
      assert ts[0] == m[s[0]] && m[s[0]] < m[x];
      assert ts[1..] == Translate(m, s[1..]);
      assert Insert(m[x], ts) == [ts[0]] + Insert(m[x], ts[1..]);
      assert Translate(m, [s[0]] + Insert(x, s[1..])) == [m[s[0]]] + Translate(m, Insert(x, s[1..]));
    }
  }

  /** Sorting and translating through an order-preserving map commute. */
  lemma {:induction false} TranslateSort(m: map<int, int>, s: seq<int>)
    requires StrictlyMonotone(m) && Covers(m, s)
    ensures Covers(m, SortSeq(s))
    ensures Translate(m, SortSeq(s)) == SortSeq(Translate(m, s))
  {
    var r := SortSeq(s);
    SortSeqSpec(s);
    forall y | y in r ensures y in m {
      assert y in multiset(r);
    }
    if s != [] {
      TranslateSort(m, s[1..]);
      TranslateInsert(m, s[0], SortSeq(s[1..]));
      assert Translate(m, s) == [m[s[0]]] + Translate(m, s[1..]);
    }
  }

  /** Translating through `fwd` and then through `inv` gives back the input
      when `inv` undoes `fwd` on its elements. */
  lemma {:induction false} TranslateRoundTrip(fwd: map<int, int>, inv: map<int, int>, s: seq<int>)
    requires Covers(fwd, s)
    requires forall j :: 0 <= j < |s| ==> fwd[s[j]] in inv && inv[fwd[s[j]]] == s[j]
    ensures Covers(inv, Translate(fwd, s))
    ensures Translate(inv, Translate(fwd, s)) == s
  {
    if s != [] {
      TranslateRoundTrip(fwd, inv, s[1..]);
    }
  }

  lemma TranslateAppend(m: map<int, int>, s: seq<int>, x: int)
    requires Covers(m, s) && x in m
    ensures Covers(m, s + [x])
    ensures Translate(m, s + [x]) == Translate(m, s) + [m[x]]
  {
  }

  predicate StrictlySorted(s: seq<int>) {
    forall i, j :: 0 <= i < j < |s| ==> s[i] < s[j]
  }

  /** Insertion into an ordered set of ids, seen as its ascending contents:
      `x` is added unless already present. */
  function SetInsert(x: int, s: seq<int>): (r: seq<int>)
    requires StrictlySorted(s)
    ensures StrictlySorted(r)
    ensures forall y :: y in r <==> y == x || y in s
  {
    if s == [] then [x]
    else if x < s[0] then [x] + s
    else if x == s[0] then s
    else
      var tail := SetInsert(x, s[1..]);
      assert forall y :: y in s <==> y == s[0] || y in s[1..];
      assert forall k :: 0 <= k < |tail| ==> s[0] < tail[k] by {
        forall k | 0 <= k < |tail| ensures s[0] < tail[k] {
          assert tail[k] in tail;
        }
      }
      [s[0]] + tail
  }

  /** The ascending contents of an ordered set list each element once, so
      they are as long as the set is large. */
  lemma {:induction false} StrictlySortedCard(s: seq<int>)
    requires StrictlySorted(s)
    ensures |set y | y in s| == |s|
  {
    if s != [] {
      StrictlySortedCard(s[1..]);
      assert (set y | y in s) == {s[0]} + (set y | y in s[1..]);
      assert s[0] !in (set y | y in s[1..]);
    }
  }
}
