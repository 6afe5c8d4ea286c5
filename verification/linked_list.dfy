/** `LinkedList<T>`: a singly linked list that keeps head, tail and a size counter,
    appends at the tail, and sorts by swapping node data. The nodes are modelled as
    the sequence of their values in head-to-tail order; a node pointer is the index
    of its node, and nullptr is None (or the index one past the end). */
module LinkedList {
  import opened Wrappers

  datatype List<T> = List(nodes: seq<T>, head: Option<nat>, tail: Option<nat>, size: int)
  {
    /** The class invariant: head is null iff tail is null iff size is 0, size counts
        the nodes reachable from head, head is the first and tail the last node. */
    predicate Valid() {
      && (head.None? <==> tail.None?)
      && (head.None? <==> size == 0)
      && size == |nodes|
      && (size > 0 ==> head == Some(0) && tail == Some(size - 1))
    }
  }

  /** `LinkedList()`: head and tail null, size 0. */
  function Empty<T>(): (l: List<T>)
    ensures l.Valid()
    ensures l.head.None? && l.tail.None? && l.size == 0 && |l.nodes| == 0
  {
    List([], None, None, 0)
  }

  /** `insertAtEnd(value)`: a fresh node becomes the tail (and the head too when the
      list was empty), and the size counter grows by one. */
  function InsertAtEnd<T>(l: List<T>, value: T): (r: List<T>)
    requires l.Valid()
    ensures r.Valid()
    ensures r.size == l.size + 1
    ensures |r.nodes| == |l.nodes| + 1
    ensures r.nodes[..|l.nodes|] == l.nodes
    ensures r.nodes[|l.nodes|] == value
    ensures r.tail == Some(|l.nodes|)
  {
    var newNode := |l.nodes|;
    if l.tail.None? then List(l.nodes + [value], Some(newNode), Some(newNode), l.size + 1)
    else List(l.nodes + [value], l.head, Some(newNode), l.size + 1)
  }

  /** `getHead()->data`, or None for a null head. */
  function HeadValue<T>(l: List<T>): (r: Option<T>)
    requires l.Valid()
    ensures r.None? <==> |l.nodes| == 0
    ensures r.Some? ==> r.value == l.nodes[0]
  {
    match l.head
    case None => None
    case Some(i) => Some(l.nodes[i])
  }

  /** `getSize()`. */
  function Size<T>(l: List<T>): (n: int)
    requires l.Valid()
    ensures n == |l.nodes|
  {
    l.size
  }

  /** A list filled by calling `insertAtEnd` on each value of `s` in turn, starting
      from an empty list: what every fetch of the data provider does. */
  function FromSeq<T>(s: seq<T>): (l: List<T>)
    ensures l.Valid()
    ensures l.nodes == s
    decreases |s|
  {
    if |s| == 0 then Empty()
    else
      var l := InsertAtEnd(FromSeq(s[..|s| - 1]), s[|s| - 1]);
      assert l.nodes == s[..|s| - 1] + [s[|s| - 1]];
      l
  }

  // ---------------------------------------------------------------------------
  // Sorting by swapping node data

  /** `swap(a, b)`: exchange the data of two nodes. */
  function Swap<T>(a: seq<T>, i: nat, j: nat): (b: seq<T>)
    requires i < |a| && j < |a|
    ensures |b| == |a| && multiset(b) == multiset(a)
    ensures b[i] == a[j] && b[j] == a[i]
    ensures forall k | 0 <= k < |a| && k != i && k != j :: b[k] == a[k]
  {
    a[i := a[j]][j := a[i]]
  }

  predicate SortedRange(a: seq<int>, lo: int, hi: int)
    requires 0 <= lo && hi <= |a|
  {
    forall i, j | lo <= i < j < hi :: a[i] <= a[j]
  }

  predicate Sorted(a: seq<int>) {
    SortedRange(a, 0, |a|)
  }

  /** The `while (i != high->next)` loop of `partition`: `i` walks from the node after
      `low` to `high`, `j` starts at `low`, and a value below the pivot is swapped into
      the node after `j`. The value at `low` itself is never compared. */
  function PartitionLoop(a: seq<int>, pivot: int, i: nat, j: nat, hi: nat): (r: (seq<int>, nat))
    requires j < i <= hi + 1 <= |a|
    ensures |r.0| == |a| && multiset(r.0) == multiset(a)
    ensures j <= r.1 <= hi
    ensures forall k | 0 <= k < |a| && (k <= j || k > hi) :: r.0[k] == a[k]
    ensures a[hi] == pivot ==> r.0[hi] == pivot
    decreases hi + 1 - i
  {
    if i == hi + 1 then (a, j)
    else if a[i] < pivot then PartitionLoop(Swap(a, i, j + 1), pivot, i + 1, j + 1, hi)
    else PartitionLoop(a, pivot, i + 1, j, hi)
  }

  /** `partition(low, high)`: the pivot is the value at `high`; after the loop it is
      swapped into node `j`, which is returned. */
  function Partition(a: seq<int>, lo: nat, hi: nat): (r: (seq<int>, nat))
    requires lo <= hi < |a|
    ensures |r.0| == |a| && multiset(r.0) == multiset(a)
    ensures lo <= r.1 <= hi
    ensures r.0[r.1] == a[hi]
    ensures forall k | 0 <= k < |a| && (k < lo || k > hi) :: r.0[k] == a[k]
  {
    if lo == hi then (a, lo)
    else
      var (b, j) := PartitionLoop(a, a[hi], lo + 1, lo, hi);
      (Swap(b, j, hi), j)
  }

  /** `quickSortRecursive(low, high)` on the segment `[lo, hi]`. `lo == |a|` is a null
      `low`, and `lo == hi + 1` is `low == high->next`. The left call goes to the node
      before the pivot, found by walking from head; when the pivot is the head there
      is no such node and the left call is skipped. */
  function QuickSortRec(a: seq<int>, lo: int, hi: int): (b: seq<int>)
    requires 0 <= lo <= |a| && -1 <= hi < |a| && lo <= hi + 1
    ensures |b| == |a| && multiset(b) == multiset(a)
    ensures forall k | 0 <= k < |a| && (k < lo || k > hi) :: b[k] == a[k]
    decreases hi - lo + 1
  {
    if lo < |a| && 0 <= hi && lo != hi && lo != hi + 1 then
      var (b, p) := Partition(a, lo, hi);
      var c := if p > 0 then QuickSortRec(b, lo, p - 1) else b;
      QuickSortRec(c, p + 1, hi)
    else a
  }

  /** `quickSort()` on the node values: lists of zero or one node are left alone,
      otherwise the whole list from head to the last node is sorted. */
  function QuickSortValues(a: seq<int>): (b: seq<int>)
    ensures |b| == |a| && multiset(b) == multiset(a)
    ensures |a| <= 1 ==> b == a
  {
    if |a| <= 1 then a else QuickSortRec(a, 0, |a| - 1)
  }

  /** `quickSort()` on a list: only node data moves, so head, tail and size stay. */
  function QuickSort(l: List<int>): (r: List<int>)
    requires l.Valid()
    ensures r.Valid()
    ensures r.size == l.size && r.head == l.head && r.tail == l.tail
    ensures multiset(r.nodes) == multiset(l.nodes)
    ensures l.size <= 1 ==> r == l
  {
    l.(nodes := QuickSortValues(l.nodes))
  }


  /** Sorting `[3, 1, 2]` gives `[3, 2, 1]`: the first value is never compared with the
      pivot, so it stays in front. */
  lemma QuickSortCounterexample()
    ensures QuickSortValues([3, 1, 2]) == [3, 2, 1]
    ensures !Sorted(QuickSortValues([3, 1, 2]))
  {
    var a := [3, 1, 2];
    assert Swap(a, 1, 1) == a;
    assert PartitionLoop(a, 2, 3, 1, 2) == (a, 1);
    assert PartitionLoop(a, 2, 2, 1, 2) == (a, 1);
    assert PartitionLoop(a, 2, 1, 0, 2) == (a, 1);
    var b := [3, 2, 1];
    assert Swap(a, 1, 2) == b;
    assert Partition(a, 0, 2) == (b, 1);
    assert QuickSortRec(b, 0, 0) == b;
    assert QuickSortRec(b, 2, 2) == b;
    assert QuickSortRec(a, 0, 2) == b;
    assert b[0] > b[1];
  }

  /** Even an already sorted list is disturbed: `[1, 2, 3]` becomes `[1, 3, 2]`. */
  lemma QuickSortUnsortsSortedInput()
    ensures Sorted([1, 2, 3])
    ensures QuickSortValues([1, 2, 3]) == [1, 3, 2]
  {
    var a := [1, 2, 3];
    assert Swap(a, 1, 1) == a;
    assert PartitionLoop(a, 3, 3, 1, 2) == (a, 1);
    assert PartitionLoop(a, 3, 2, 1, 2) == (a, 1);
    assert PartitionLoop(a, 3, 1, 0, 2) == (a, 1);
    var b := [1, 3, 2];
    assert Swap(a, 1, 2) == b;
    assert Partition(a, 0, 2) == (b, 1);
    assert QuickSortRec(b, 0, 0) == b;
    assert QuickSortRec(b, 2, 2) == b;
    assert QuickSortRec(a, 0, 2) == b;
  }

  // ---------------------------------------------------------------------------
  // The evidently intended partition (Lomuto): every value of the segment except the
  // pivot is compared, the boundary starts at `low`, and the pivot ends up between
  // the smaller and the not-smaller values.

  predicate AllBelow(s: seq<int>, bound: int) {
    forall k | 0 <= k < |s| :: s[k] < bound
  }

  predicate AllAtLeast(s: seq<int>, bound: int) {
    forall k | 0 <= k < |s| :: s[k] >= bound
  }

  /** Outside `[lo, hi)` the two sequences agree. */
  predicate SameOutside(a: seq<int>, b: seq<int>, lo: int, hi: int) {
    |a| == |b| && forall k | 0 <= k < |a| && (k < lo || k >= hi) :: b[k] == a[k]
  }

  /** A bound on every element survives any permutation. */
  lemma PermutationKeepsBounds(s: seq<int>, t: seq<int>, bound: int)
    requires multiset(s) == multiset(t)
    ensures AllBelow(t, bound) ==> AllBelow(s, bound)
    ensures AllAtLeast(t, bound) ==> AllAtLeast(s, bound)
  {
    forall k | 0 <= k < |s| ensures s[k] in t {
      assert s[k] in multiset(s);
    }
  }

  /** Exchanging two positions inside a segment permutes that segment. */
  lemma SwapPermutesRange(a: seq<int>, i: nat, j: nat, lo: nat, hi: nat)
    requires lo <= i < hi && lo <= j < hi && hi <= |a|
    ensures multiset(Swap(a, i, j)[lo..hi]) == multiset(a[lo..hi])
    ensures SameOutside(a, Swap(a, i, j), lo, hi)
  {
    var b := Swap(a, i, j);
    assert b[lo..hi] == a[lo..hi][i - lo := a[j]][j - lo := a[i]];
  }

  /** The corrected partition loop: `i` walks `[lo, hi)`, the values in `[lo, j)` are
      below the pivot and those in `[j, i)` are not. */
  function FixedPartitionLoop(a: seq<int>, lo: nat, pivot: int, i: nat, j: nat, hi: nat): (r: (seq<int>, nat))
    requires lo <= j <= i <= hi < |a|
    ensures |r.0| == |a|
    ensures j <= r.1 <= hi
    decreases hi - i
  {
    if i == hi then (a, j)
    else if a[i] < pivot then FixedPartitionLoop(Swap(a, i, j), lo, pivot, i + 1, j + 1, hi)
    else FixedPartitionLoop(a, lo, pivot, i + 1, j, hi)
  }

  /** Sequences that agree outside a segment compose. */
  lemma SameOutsideTrans(a: seq<int>, b: seq<int>, c: seq<int>, lo: int, hi: int)
    requires SameOutside(a, b, lo, hi) && SameOutside(b, c, lo, hi)
    ensures SameOutside(a, c, lo, hi)
  {
  }

  /** One step of the corrected loop on a value below the pivot: swapping it to the
      boundary moves the boundary up by one and keeps the invariant. */
  lemma FixedPartitionStep(a: seq<int>, lo: nat, pivot: int, i: nat, j: nat)
    requires lo <= j <= i < |a| && a[i] < pivot
    requires AllBelow(a[lo..j], pivot) && AllAtLeast(a[j..i], pivot)
    ensures AllBelow(Swap(a, i, j)[lo..j + 1], pivot)
    ensures AllAtLeast(Swap(a, i, j)[j + 1..i + 1], pivot)
  {
    var a' := Swap(a, i, j);
    var below := a'[lo..j + 1];
    forall k | 0 <= k < |below| ensures below[k] < pivot {
      if lo + k < j {
        assert below[k] == a[lo..j][k];
      }
    }
    var atLeast := a'[j + 1..i + 1];
    forall k | 0 <= k < |atLeast| ensures atLeast[k] >= pivot {
      if j + 1 + k < i {
        assert atLeast[k] == a[j..i][k + 1];
      } else {
        assert atLeast[k] == a[j..i][0];
      }
    }
  }

  /** `b` is `a` with the segment `[lo, hi)` rearranged into the values below `pivot`
      (up to `p`) followed by the values that are not. */
  predicate SplitAt(a: seq<int>, b: seq<int>, lo: nat, p: nat, hi: nat, pivot: int)
    requires lo <= p <= hi <= |a| && |b| == |a|
  {
    && AllBelow(b[lo..p], pivot)
    && AllAtLeast(b[p..hi], pivot)
    && SameOutside(a, b, lo, hi)
    && multiset(b[lo..hi]) == multiset(a[lo..hi])
  }

  /** A rearrangement of a rearrangement of `a` is a rearrangement of `a`. */
  lemma SplitAtFrom(a: seq<int>, a': seq<int>, b: seq<int>, lo: nat, p: nat, hi: nat, pivot: int)
    requires lo <= p <= hi <= |a| && |a'| == |a| && |b| == |a|
    requires SameOutside(a, a', lo, hi) && multiset(a'[lo..hi]) == multiset(a[lo..hi])
    requires SplitAt(a', b, lo, p, hi, pivot)
    ensures SplitAt(a, b, lo, p, hi, pivot)
  {
    SameOutsideTrans(a, a', b, lo, hi);
  }

  /** The loop keeps its invariant to the end: the segment `[lo, hi)` is permuted into
      the values below the pivot followed by the values that are not. */
  lemma {:induction false} FixedPartitionLoopSplits(a: seq<int>, lo: nat, pivot: int, i: nat, j: nat, hi: nat)
    requires lo <= j <= i <= hi < |a|
    requires AllBelow(a[lo..j], pivot) && AllAtLeast(a[j..i], pivot)
    ensures SplitAt(a, FixedPartitionLoop(a, lo, pivot, i, j, hi).0, lo, FixedPartitionLoop(a, lo, pivot, i, j, hi).1, hi, pivot)
    decreases hi - i, 1
  {
    if i == hi {
      assert FixedPartitionLoop(a, lo, pivot, i, j, hi) == (a, j);
      assert SplitAt(a, a, lo, j, hi, pivot);
    } else if a[i] < pivot {
      FixedPartitionLoopSwaps(a, lo, pivot, i, j, hi);
    } else {
      FixedPartitionLoopSkips(a, lo, pivot, i, j, hi);
    }
  }

  /** The step of the loop past a value that is not below the pivot, continued to the
      end. */
  lemma {:induction false} FixedPartitionLoopSkips(a: seq<int>, lo: nat, pivot: int, i: nat, j: nat, hi: nat)
    requires lo <= j <= i < hi < |a| && a[i] >= pivot
    requires AllBelow(a[lo..j], pivot) && AllAtLeast(a[j..i], pivot)
    ensures SplitAt(a, FixedPartitionLoop(a, lo, pivot, i, j, hi).0, lo, FixedPartitionLoop(a, lo, pivot, i, j, hi).1, hi, pivot)
    decreases hi - i, 0
  {
    assert a[j..i + 1] == a[j..i] + [a[i]];
    assert AllAtLeast(a[j..i + 1], pivot);
    FixedPartitionLoopSplits(a, lo, pivot, i + 1, j, hi);
    var r := FixedPartitionLoop(a, lo, pivot, i + 1, j, hi);
    assert SplitAt(a, r.0, lo, r.1, hi, pivot);
    assert FixedPartitionLoop(a, lo, pivot, i, j, hi) == r;
  }

  /** The swapping step of the loop, continued to the end. */
  lemma {:induction false} FixedPartitionLoopSwaps(a: seq<int>, lo: nat, pivot: int, i: nat, j: nat, hi: nat)
    requires lo <= j <= i < hi < |a| && a[i] < pivot
    requires AllBelow(a[lo..j], pivot) && AllAtLeast(a[j..i], pivot)
    ensures SplitAt(a, FixedPartitionLoop(a, lo, pivot, i, j, hi).0, lo, FixedPartitionLoop(a, lo, pivot, i, j, hi).1, hi, pivot)
    decreases hi - i, 0
  {
    var a' := Swap(a, i, j);
    SwapPermutesRange(a, i, j, lo, hi);
    FixedPartitionStep(a, lo, pivot, i, j);
    FixedPartitionLoopSplits(a', lo, pivot, i + 1, j + 1, hi);
    var r := FixedPartitionLoop(a', lo, pivot, i + 1, j + 1, hi);
    assert SplitAt(a', r.0, lo, r.1, hi, pivot);
    SplitAtFrom(a, a', r.0, lo, r.1, hi, pivot);
    assert FixedPartitionLoop(a, lo, pivot, i, j, hi) == r;
  }

  /** The corrected `partition`: the last value of the segment is the pivot; after the
      loop it is swapped to the boundary, whose index is returned. */
  function FixedPartition(a: seq<int>, lo: nat, hi: nat): (r: (seq<int>, nat))
    requires lo <= hi < |a|
    ensures |r.0| == |a|
    ensures lo <= r.1 <= hi
  {
    var (b, j) := FixedPartitionLoop(a, lo, a[hi], lo, lo, hi);
    (Swap(b, j, hi), j)
  }

  /** Swapping the pivot from the end of the segment to the boundary puts it between
      the two sides. */
  lemma SwapPivotSplits(c: seq<int>, lo: nat, j: nat, hi: nat)
    requires lo <= j <= hi < |c|
    requires AllBelow(c[lo..j], c[hi]) && AllAtLeast(c[j..hi], c[hi])
    ensures Swap(c, j, hi)[j] == c[hi]
    ensures AllBelow(Swap(c, j, hi)[lo..j], c[hi])
    ensures AllAtLeast(Swap(c, j, hi)[j + 1..hi + 1], c[hi])
  {
    var b := Swap(c, j, hi);
    assert b[lo..j] == c[lo..j];
    var right := b[j + 1..hi + 1];
    forall k | 0 <= k < |right| ensures right[k] >= c[hi] {
      if j + 1 + k < hi {
        assert right[k] == c[j..hi][k + 1];
      } else {
        assert right[k] == c[j..hi][0];
      }
    }
  }

  /** After the corrected partition the pivot sits at the returned index, the values
      before it in the segment are smaller, those after it are not, and the segment is
      a permutation of what it was. */
  lemma FixedPartitionSplits(a: seq<int>, lo: nat, hi: nat)
    requires lo <= hi < |a|
    ensures FixedPartition(a, lo, hi).0[FixedPartition(a, lo, hi).1] == a[hi]
    ensures AllBelow(FixedPartition(a, lo, hi).0[lo..FixedPartition(a, lo, hi).1], a[hi])
    ensures AllAtLeast(FixedPartition(a, lo, hi).0[FixedPartition(a, lo, hi).1 + 1..hi + 1], a[hi])
    ensures SameOutside(a, FixedPartition(a, lo, hi).0, lo, hi + 1)
    ensures multiset(FixedPartition(a, lo, hi).0[lo..hi + 1]) == multiset(a[lo..hi + 1])
  {
    var r := FixedPartitionLoop(a, lo, a[hi], lo, lo, hi);
    var c, j := r.0, r.1;
    FixedPartitionLoopSplits(a, lo, a[hi], lo, lo, hi);
    assert FixedPartition(a, lo, hi) == (Swap(c, j, hi), j);
    assert c[hi] == a[hi];
    SwapPivotSplits(c, lo, j, hi);
    assert c[lo..hi + 1] == c[lo..hi] + [c[hi]];
    assert a[lo..hi + 1] == a[lo..hi] + [a[hi]];
    SwapPermutesRange(c, j, hi, lo, hi + 1);
  }

  /** The corrected recursive sort on the segment `[lo, hi]`. */
  function FixedQuickSortRec(a: seq<int>, lo: int, hi: int): (b: seq<int>)
    requires 0 <= lo <= |a| && -1 <= hi < |a| && lo <= hi + 1
    ensures |b| == |a|
    decreases hi - lo + 1
  {
    if lo < hi then
      var (b, p) := FixedPartition(a, lo, hi);
      var c := FixedQuickSortRec(b, lo, p - 1);
      FixedQuickSortRec(c, p + 1, hi)
    else a
  }

  /** Sortedness of a segment depends only on its contents. */
  lemma SortedRangeOfSlice(a: seq<int>, b: seq<int>, lo: nat, hi: nat)
    requires lo <= hi <= |a| && hi <= |b| && a[lo..hi] == b[lo..hi]
    requires SortedRange(a, lo, hi)
    ensures SortedRange(b, lo, hi)
  {
    forall i, j | lo <= i < j < hi ensures b[i] <= b[j] {
      assert b[i] == a[lo..hi][i - lo] && b[j] == a[lo..hi][j - lo];
    }
  }

  /** Two sorted runs separated by a pivot that is above the left run and not above
      the right run form one sorted segment. */
  lemma SortedAroundPivot(d: seq<int>, lo: nat, p: nat, hi: nat)
    requires lo <= p <= hi < |d|
    requires SortedRange(d, lo, p) && SortedRange(d, p + 1, hi + 1)
    requires AllBelow(d[lo..p], d[p]) && AllAtLeast(d[p + 1..hi + 1], d[p])
    ensures SortedRange(d, lo, hi + 1)
  {
    forall i, j | lo <= i < j < hi + 1 ensures d[i] <= d[j] {
      if i < p {
        assert d[i] == d[lo..p][i - lo];
        if j > p { assert d[j] == d[p + 1..hi + 1][j - p - 1]; }
      } else if i == p {
        assert d[j] == d[p + 1..hi + 1][j - p - 1];
      }
    }
  }

  /** The multiset of a segment, cut at `p`. */
  lemma MultisetAround(a: seq<int>, lo: nat, p: nat, hi: nat)
    requires lo <= p <= hi < |a|
    ensures multiset(a[lo..hi + 1]) == multiset(a[lo..p]) + multiset{a[p]} + multiset(a[p + 1..hi + 1])
  {
    assert a[lo..hi + 1] == a[lo..p] + [a[p]] + a[p + 1..hi + 1];
  }

  /** `b` is `a` with the segment `[lo, hi]` sorted and nothing else changed. */
  predicate SortsSegment(a: seq<int>, b: seq<int>, lo: int, hi: int)
    requires 0 <= lo <= hi + 1 <= |a| && |b| == |a|
  {
    && SortedRange(b, lo, hi + 1)
    && multiset(b[lo..hi + 1]) == multiset(a[lo..hi + 1])
    && SameOutside(a, b, lo, hi + 1)
  }

  /** Sorting the two sides of a partitioned segment sorts the segment. */
  lemma SortedSidesSortSegment(a: seq<int>, b: seq<int>, c: seq<int>, d: seq<int>, lo: nat, p: nat, hi: nat)
    requires lo <= p <= hi < |a| && |b| == |a| && |c| == |a| && |d| == |a|
    requires AllBelow(b[lo..p], b[p]) && AllAtLeast(b[p + 1..hi + 1], b[p])
    requires SameOutside(a, b, lo, hi + 1) && multiset(b[lo..hi + 1]) == multiset(a[lo..hi + 1])
    requires SortsSegment(b, c, lo, p - 1)
    requires SortsSegment(c, d, p + 1, hi)
    ensures SortsSegment(a, d, lo, hi)
  {
    assert d[lo..p] == c[lo..p];
    assert c[p + 1..hi + 1] == b[p + 1..hi + 1];
    assert d[p] == b[p];
    PermutationKeepsBounds(c[lo..p], b[lo..p], b[p]);
    PermutationKeepsBounds(d[p + 1..hi + 1], c[p + 1..hi + 1], b[p]);
    SortedRangeOfSlice(c, d, lo, p);
    SortedAroundPivot(d, lo, p, hi);
    MultisetAround(b, lo, p, hi);
    MultisetAround(d, lo, p, hi);
  }

  /** The corrected recursion sorts its segment, permutes it, and leaves the rest alone. */
  lemma {:induction false} FixedQuickSortRecSorts(a: seq<int>, lo: int, hi: int)
    requires 0 <= lo <= |a| && -1 <= hi < |a| && lo <= hi + 1
    ensures SortsSegment(a, FixedQuickSortRec(a, lo, hi), lo, hi)
    decreases hi - lo + 1
  {
    if lo < hi {
      var r := FixedPartition(a, lo, hi);
      var b, p: int := r.0, r.1;
      FixedPartitionSplits(a, lo, hi);
      var c := FixedQuickSortRec(b, lo, p - 1);
      FixedQuickSortRecSorts(b, lo, p - 1);
      var d := FixedQuickSortRec(c, p + 1, hi);
      FixedQuickSortRecSorts(c, p + 1, hi);
      assert d == FixedQuickSortRec(a, lo, hi);
      SortedSidesSortSegment(a, b, c, d, lo, p, hi);
    }
  }

  /** The corrected `quickSort()` on node values. */
  function FixedQuickSortValues(a: seq<int>): (b: seq<int>)
    ensures |b| == |a|
  {
    if |a| <= 1 then a else FixedQuickSortRec(a, 0, |a| - 1)
  }

  /** With the intended partition, quick sort sorts: the result is an ordered
      permutation of the input. */
  lemma FixedQuickSortCorrect(a: seq<int>)
    ensures Sorted(FixedQuickSortValues(a))
    ensures multiset(FixedQuickSortValues(a)) == multiset(a)
  {
    if |a| > 1 {
      var b := FixedQuickSortRec(a, 0, |a| - 1);
      FixedQuickSortRecSorts(a, 0, |a| - 1);
      assert SortsSegment(a, b, 0, |a| - 1);
      assert a[0..|a|] == a;
      assert b[0..|a|] == b;
    }
  }

  /** The corrected `quickSort()` on a list: the nodes end up in order and hold the
      same values; head, tail and size are untouched. */
  function FixedQuickSort(l: List<int>): (r: List<int>)
    requires l.Valid()
    ensures r.Valid()
    ensures r.size == l.size && r.head == l.head && r.tail == l.tail
    ensures Sorted(r.nodes) && multiset(r.nodes) == multiset(l.nodes)
  {
    FixedQuickSortCorrect(l.nodes);
    l.(nodes := FixedQuickSortValues(l.nodes))
  }
}
