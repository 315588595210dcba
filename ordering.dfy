/**
 * The order sortItems uses: Comparator.comparing(getPath), i.e. String.compareTo on the
 * paths, and the in-place sort of a directory listing by that order.
 */
module PathOrder {
  import opened Items

  /** String.compareTo(a, b) <= 0: the first differing character decides; a proper prefix comes first. */
  predicate PathLe(a: string, b: string)
    decreases |a|
  {
    a == [] || (b != [] && (a[0] < b[0] || (a[0] == b[0] && PathLe(a[1..], b[1..]))))
  }

  /** Items in non-decreasing order of their paths. */
  predicate SortedByPath(s: seq<Item>) {
    forall p, q :: 0 <= p < q < |s| ==> PathLe(s[p].path, s[q].path)
  }

  lemma {:induction false} PathLeReflexive(a: string)
    ensures PathLe(a, a)
    decreases |a|
  {
    if a != [] {
      PathLeReflexive(a[1..]);
    }
  }

  /** Any two paths are comparable. */
  lemma {:induction false} PathLeTotal(a: string, b: string)
    ensures PathLe(a, b) || PathLe(b, a)
    decreases |a|
  {
    if a != [] && b != [] && a[0] == b[0] {
      PathLeTotal(a[1..], b[1..]);
    }
  }

  lemma {:induction false} PathLeTransitive(a: string, b: string, c: string)
    requires PathLe(a, b) && PathLe(b, c)
    ensures PathLe(a, c)
    decreases |a|
  {
    if a != [] && a[0] == b[0] && b[0] == c[0] {
      PathLeTransitive(a[1..], b[1..], c[1..]);
    }
  }

  /** Two paths that are each at most the other are the same path. */
  lemma {:induction false} PathLeAntisymmetric(a: string, b: string)
    requires PathLe(a, b) && PathLe(b, a)
    ensures a == b
    decreases |a|
  {
    if a != [] {
      PathLeAntisymmetric(a[1..], b[1..]);
      assert a == [a[0]] + a[1..] && b == [b[0]] + b[1..];
    }
  }

  /** A directory's path sorts before every path that extends it. */
  lemma {:induction false} PrefixSortsFirst(a: string, rest: string)
    ensures PathLe(a, a + rest)
    decreases |a|
  {
    if a != [] {
      assert (a + rest)[1..] == a[1..] + rest;
      PrefixSortsFirst(a[1..], rest);
    }
  }

  /** The order of the recursive listing example: "X/Dir1/Dir2/File1" precedes "X/File1". */
  lemma OrderExample()
    ensures PathLe("X/Dir1/Dir2/File1", "X/File1") && !PathLe("X/File1", "X/Dir1/Dir2/File1")
  {
    assert "X/Dir1/Dir2/File1"[1..] == "/Dir1/Dir2/File1";
    assert "X/File1"[1..] == "/File1";
    assert "/Dir1/Dir2/File1"[1..] == "Dir1/Dir2/File1";
    assert "/File1"[1..] == "File1";
  }

  /**
   * sortItems: sorts the list in place by path (a stable insertion sort stands in for
   * List.sort; only the result order matters for the model).
   */
  method SortItems(a: array<Item>)
    modifies a
    ensures SortedByPath(a[..])
    ensures multiset(a[..]) == multiset(old(a[..]))
  {
    var i := 0;
    while i < a.Length
      invariant 0 <= i <= a.Length
      invariant SortedByPath(a[..i])
      invariant multiset(a[..]) == multiset(old(a[..]))
    {
      InsertLast(a, i);
      i := i + 1;
    }
    assert a[..] == a[..a.Length];
  }

  /** The prefix s[..i + 1] is ordered except possibly around position j. */
  predicate OrderedExcept(s: seq<Item>, i: int, j: int)
    requires 0 <= j <= i < |s|
  {
    forall p, q :: 0 <= p < q <= i && p != j && q != j ==> PathLe(s[p].path, s[q].path)
  }

  /** s[j] is at most every element after it up to position i. */
  predicate AtMostFollowers(s: seq<Item>, i: int, j: int)
    requires 0 <= j <= i < |s|
  {
    forall q :: j < q <= i ==> PathLe(s[j].path, s[q].path)
  }

  /** Swapping two neighbours keeps the elements. */
  function SwapDown(s: seq<Item>, j: int): (t: seq<Item>)
    requires 0 < j < |s|
    ensures |t| == |s| && multiset(t) == multiset(s)
    ensures t[j - 1] == s[j] && t[j] == s[j - 1]
    ensures forall k :: 0 <= k < |s| && k != j - 1 && k != j ==> t[k] == s[k]
  {
    s[j - 1 := s[j]][j := s[j - 1]]
  }

  /** Before the first swap: a sorted prefix with one new element at i. */
  lemma InsertionStarts(s: seq<Item>, i: int)
    requires 0 <= i < |s| && SortedByPath(s[..i])
    ensures OrderedExcept(s, i, i) && AtMostFollowers(s, i, i)
  {
    forall p, q | 0 <= p < q <= i && p != i && q != i
      ensures PathLe(s[p].path, s[q].path)
    {
      assert s[p] == s[..i][p] && s[q] == s[..i][q];
    }
  }

  /** Swapping the new element below an out-of-order neighbour moves the gap down by one. */
  lemma {:induction false} InsertionSteps(s: seq<Item>, i: int, j: int)
    requires 0 < j <= i < |s|
    requires OrderedExcept(s, i, j) && AtMostFollowers(s, i, j)
    requires !PathLe(s[j - 1].path, s[j].path)
    ensures OrderedExcept(SwapDown(s, j), i, j - 1) && AtMostFollowers(SwapDown(s, j), i, j - 1)
  {
    var t := SwapDown(s, j);
    PathLeTotal(s[j - 1].path, s[j].path);
    forall p, q | 0 <= p < q <= i && p != j - 1 && q != j - 1
      ensures PathLe(t[p].path, t[q].path)
    {
      if q == j {
        assert t[q] == s[j - 1];
      }
    }
    forall q | j - 1 < q <= i
      ensures PathLe(t[j - 1].path, t[q].path)
    {
      if q != j {
        assert t[q] == s[q];
      }
    }
  }

  /** When the new element rests at j, the whole prefix s[..i + 1] is sorted. */
  lemma InsertionEnds(s: seq<Item>, i: int, j: int)
    requires 0 <= j <= i < |s|
    requires OrderedExcept(s, i, j) && AtMostFollowers(s, i, j)
    requires j == 0 || PathLe(s[j - 1].path, s[j].path)
    ensures SortedByPath(s[..i + 1])
  {
    forall p | 0 <= p < j
      ensures PathLe(s[p].path, s[j].path)
    {
      if p < j - 1 {
        PathLeTransitive(s[p].path, s[j - 1].path, s[j].path);
      }
    }
    var prefix := s[..i + 1];
    forall p, q | 0 <= p < q < |prefix|
      ensures PathLe(prefix[p].path, prefix[q].path)
    {
      assert prefix[p] == s[p] && prefix[q] == s[q];
    }
  }

  /** One insertion step: moves a[i] down into the sorted prefix a[..i]. */
  method InsertLast(a: array<Item>, i: int)
    requires 0 <= i < a.Length && SortedByPath(a[..i])
    modifies a
    ensures SortedByPath(a[..i + 1])
    ensures multiset(a[..]) == multiset(old(a[..]))
  {
    InsertionStarts(a[..], i);
    var j := i;
    while j > 0 && !PathLe(a[j - 1].path, a[j].path)
      invariant 0 <= j <= i
      invariant OrderedExcept(a[..], i, j) && AtMostFollowers(a[..], i, j)
      invariant multiset(a[..]) == multiset(old(a[..]))
    {
      InsertionSteps(a[..], i, j);
      ghost var after := SwapDown(a[..], j);
      a[j - 1], a[j] := a[j], a[j - 1];
      assert a[..] == after;
      j := j - 1;
    }
    InsertionEnds(a[..], i, j);
  }

  /** No two items share a path. */
  predicate DistinctPaths(s: seq<Item>) {
    forall p, q :: 0 <= p < q < |s| ==> s[p].path != s[q].path
  }

  lemma MultisetTail(s: seq<Item>, t: seq<Item>)
    requires s != [] && t != [] && s[0] == t[0] && multiset(s) == multiset(t)
    ensures multiset(s[1..]) == multiset(t[1..])
  {
    assert s == [s[0]] + s[1..] && t == [t[0]] + t[1..];
    assert multiset(s) == multiset{s[0]} + multiset(s[1..]);
    assert multiset(t) == multiset{t[0]} + multiset(t[1..]);
    calc {
      multiset(s[1..]);
      multiset(s) - multiset{s[0]};
      multiset(t) - multiset{t[0]};
      multiset(t[1..]);
    }
  }

  /** The first element of a sorted sequence is at most every element. */
  lemma FirstIsLeast(s: seq<Item>, i: int)
    requires SortedByPath(s) && 0 <= i < |s|
    ensures PathLe(s[0].path, s[i].path)
  {
    if i == 0 {
      PathLeReflexive(s[0].path);
    }
  }

  /**
   * A sorted listing is determined by its elements when no two of them share a path:
   * whatever order the server returned the entries in, the sorted result is the same.
   */
  lemma {:induction false} SortedListingIsUnique(s: seq<Item>, t: seq<Item>)
    requires SortedByPath(s) && SortedByPath(t) && DistinctPaths(s)
    requires multiset(s) == multiset(t)
    ensures s == t
    decreases |s|
  {
    if s != [] {
      assert s[0] in multiset(t) && t[0] in multiset(s);
      var i :| 0 <= i < |t| && t[i] == s[0];
      var k :| 0 <= k < |s| && s[k] == t[0];
      FirstIsLeast(t, i);
      FirstIsLeast(s, k);
      PathLeAntisymmetric(s[0].path, t[0].path);
      assert k == 0;
      MultisetTail(s, t);
      SortedListingIsUnique(s[1..], t[1..]);
    }
  }
}
