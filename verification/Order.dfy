/** Three-way comparisons, sorted sequences and the heap the FlatBuffers sort builds. */
module Order {

  /** A C-style comparison: negative, zero or positive. */
  type Comparison<!T> = (T, T) -> int

  predicate Le<T>(c: Comparison<T>, x: T, y: T) {
    !(c(y, x) < 0)
  }

  ghost predicate TotalPreorder<T(!new)>(c: Comparison<T>) {
    && (forall x, y :: Le(c, x, y) || Le(c, y, x))
    && (forall x, y, z :: Le(c, x, y) && Le(c, y, z) ==> Le(c, x, z))
  }

  ghost predicate SortedFrom<T>(c: Comparison<T>, s: seq<T>, from: nat) {
    forall i, j :: from <= i < j < |s| ==> Le(c, s[i], s[j])
  }

  function Exchanged<T>(s: seq<T>, a: nat, b: nat): (s': seq<T>)
    requires a < |s| && b < |s|
    ensures |s'| == |s|
  {
    s[a := s[b]][b := s[a]]
  }

  /** Exchanging two elements inside a prefix permutes the prefix. */
  lemma ExchangedPermutes<T>(s: seq<T>, a: nat, b: nat, n: nat)
    requires a < n <= |s| && b < n
    ensures multiset(Exchanged(s, a, b)[..n]) == multiset(s[..n])
    ensures Exchanged(s, a, b)[n..] == s[n..]
  {
    var p := s[..n];
    assert Exchanged(s, a, b)[..n] == p[a := s[b]][b := s[a]];
    assert multiset(p[a := s[b]]) == multiset(p) - multiset{s[a]} + multiset{s[b]};
  }

  /** Node `j >= 1` hangs below node `j / 2`; node 0 is its own child, so only `j >= 1` says anything. */
  ghost predicate Heap<T>(c: Comparison<T>, s: seq<T>, start: nat, end: nat) {
    forall j :: 1 <= j <= end && j < |s| && start <= j / 2 ==> Le(c, s[j], s[j / 2])
  }

  /** A heap on `[start, end]` but for the node `root`, whose children are still below its parent. */
  ghost predicate HeapBut<T>(c: Comparison<T>, s: seq<T>, start: nat, end: nat, root: nat) {
    && start <= root
    && (forall j :: 1 <= j <= end && j < |s| && start <= j / 2 && j / 2 != root ==> Le(c, s[j], s[j / 2]))
    && (start < root ==>
          start <= root / 2 &&
          forall j :: 1 <= j <= end && j < |s| && root < |s| && j / 2 == root ==> Le(c, s[j], s[root / 2]))
  }

  lemma HeapIsHeapBut<T>(c: Comparison<T>, s: seq<T>, start: nat, end: nat)
    requires Heap(c, s, start + 1, end)
    ensures HeapBut(c, s, start, end, start)
  {
  }

  lemma LeavesAreHeap<T>(c: Comparison<T>, s: seq<T>, start: nat, end: nat)
    requires end < 2 * start
    ensures Heap(c, s, start, end)
  {
  }

  /** The child the sift-down compares its root with: the larger one, the left one on ties. */
  function LargerChild<T>(c: Comparison<T>, s: seq<T>, root: nat, end: nat): (child: nat)
    requires 2 * root <= end < |s|
    ensures root <= child <= end && (child == 2 * root || child == 2 * root + 1)
  {
    if 2 * root < end && c(s[2 * root], s[2 * root + 1]) < 0 then 2 * root + 1 else 2 * root
  }

  /** A sift-down step that exchanges root and child moves the hole one level down. */
  lemma SiftStep<T(!new)>(c: Comparison<T>, s: seq<T>, start: nat, end: nat, root: nat)
    requires TotalPreorder(c) && 2 * root <= end < |s| && HeapBut(c, s, start, end, root)
    requires var child := LargerChild(c, s, root, end); c(s[root], s[child]) < 0
    ensures var child := LargerChild(c, s, root, end);
      root < child && HeapBut(c, Exchanged(s, root, child), start, end, child)
  {
    var child := LargerChild(c, s, root, end);
    assert Le(c, s[root], s[root]);
    assert root != child;
    var t := Exchanged(s, root, child);
    assert child / 2 == root;
    assert Le(c, s[root], s[child]);
    forall j | 1 <= j <= end && start <= j / 2 && j / 2 != child
      ensures Le(c, t[j], t[j / 2])
    {
      if j == child {
      } else if j == root {
        assert Le(c, s[child], s[root / 2]);
      } else if j / 2 == root {
        assert j == 2 * root || j == 2 * root + 1;
        assert Le(c, s[j], s[child]);
      } else {
        assert Le(c, s[j], s[j / 2]);
      }
    }
    forall j | 1 <= j <= end && j / 2 == child
      ensures Le(c, t[j], t[child / 2])
    {
      assert Le(c, s[j], s[j / 2]);
      assert j != root && j != child;
    }
  }

  /** A sift-down that stops leaves a heap behind. */
  lemma SiftDone<T(!new)>(c: Comparison<T>, s: seq<T>, start: nat, end: nat, root: nat)
    requires TotalPreorder(c) && end < |s| && HeapBut(c, s, start, end, root)
    requires end < 2 * root || c(s[root], s[LargerChild(c, s, root, end)]) >= 0
    ensures Heap(c, s, start, end)
  {
    forall j | 1 <= j <= end && start <= j / 2
      ensures Le(c, s[j], s[j / 2])
    {
      if j / 2 == root {
        var child := LargerChild(c, s, root, end);
        assert Le(c, s[child], s[root]);
        assert j == 2 * root || j == 2 * root + 1;
        assert Le(c, s[j], s[child]);
      }
    }
  }

  /** The root of a complete heap is a greatest element. */
  lemma HeapTop<T(!new)>(c: Comparison<T>, s: seq<T>, end: nat, j: nat)
    requires TotalPreorder(c) && end < |s| && Heap(c, s, 0, end) && j <= end
    ensures Le(c, s[j], s[0])
  {
    if j == 0 {
      assert Le(c, s[j], s[j]);
    } else {
      HeapTop(c, s, end, j / 2);
      assert Le(c, s[j], s[j / 2]);
    }
  }

  /** A bound on a prefix survives permuting the prefix. */
  lemma BoundSurvives<T>(c: Comparison<T>, s: seq<T>, s': seq<T>, n: nat, x: T)
    requires n <= |s| == |s'| && multiset(s[..n]) == multiset(s'[..n])
    requires forall i :: 0 <= i < n ==> Le(c, s[i], x)
    ensures forall i :: 0 <= i < n ==> Le(c, s'[i], x)
  {
    forall i | 0 <= i < n
      ensures Le(c, s'[i], x)
    {
      assert s'[..n][i] in multiset(s'[..n]);
      assert s'[i] in s[..n];
    }
  }

  /** The suffix from `n` on is sorted and bounds the prefix before it. */
  ghost predicate SplitSorted<T>(c: Comparison<T>, s: seq<T>, n: nat) {
    SortedFrom(c, s, n) && forall i, j :: 0 <= i < n <= j < |s| ==> Le(c, s[i], s[j])
  }

  lemma NothingSplit<T>(c: Comparison<T>, s: seq<T>)
    ensures SplitSorted(c, s, |s|)
  {
  }

  lemma SplitAtOne<T>(c: Comparison<T>, s: seq<T>)
    requires SplitSorted(c, s, 1)
    ensures SortedFrom(c, s, 0)
  {
  }

  /** Moving the top of the heap to its end grows the sorted suffix and leaves a heap but for the new root. */
  lemma ExtractTop<T(!new)>(c: Comparison<T>, s: seq<T>, end: nat)
    requires TotalPreorder(c) && 0 < end < |s| && Heap(c, s, 0, end) && SplitSorted(c, s, end + 1)
    ensures Heap(c, Exchanged(s, 0, end), 1, end - 1) && SplitSorted(c, Exchanged(s, 0, end), end)
  {
    var t := Exchanged(s, 0, end);
    forall i, j | 0 <= i < j < |s| && end <= j
      ensures Le(c, t[i], t[j])
    {
      if j == end { HeapTop(c, s, end, if i == 0 then end else i); }
    }
    assert SortedFrom(c, t, end);
    forall j | 1 <= j <= end - 1 && 1 <= j / 2
      ensures Le(c, t[j], t[j / 2])
    {
      assert Le(c, s[j], s[j / 2]);
    }
  }

  /** Permuting the prefix keeps the split. */
  lemma SplitSortedKept<T>(c: Comparison<T>, s: seq<T>, s': seq<T>, n: nat)
    requires SplitSorted(c, s, n) && n <= |s| == |s'| && multiset(s'[..n]) == multiset(s[..n]) && s'[n..] == s[n..]
    ensures SplitSorted(c, s', n)
  {
    forall j | n <= j < |s|
      ensures s'[j] == s[j] && forall i :: 0 <= i < n ==> Le(c, s'[i], s'[j])
    {
      assert s'[j] == s'[n..][j - n] && s[j] == s[n..][j - n];
      BoundSurvives(c, s, s', n, s[j]);
    }
  }
}
