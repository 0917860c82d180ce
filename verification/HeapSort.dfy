/** In-place heapsort and binary search over an array of fixed-size byte records
    (lib/stdlib.c). Element indexes are 1-based in the heap code, as in the source. */
module HeapSort {
  import opened Options
  import opened Bytes
  import opened NonLinear

  /** A strcmp()-style comparison function. */
  type Compare = (seq<byte>, seq<byte>) -> int

  /** What sort() and binary_search() ask of a comparison of size-byte records. */
  ghost predicate TotalPreorder(cmp: Compare, size: nat) {
    && (forall a, b {:trigger cmp(a, b)} | |a| == |b| == size :: cmp(a, b) > 0 <==> cmp(b, a) < 0)
    && (forall a, b, c {:trigger cmp(a, b), cmp(b, c)} | |a| == |b| == |c| == size && cmp(a, b) <= 0
       && cmp(b, c) <= 0 :: cmp(a, c) <= 0)
  }

  lemma PreorderReflexive(cmp: Compare, size: nat, a: seq<byte>)
    requires TotalPreorder(cmp, size) && |a| == size
    ensures cmp(a, a) == 0
  {
  }

  lemma PreorderTransitive(cmp: Compare, size: nat, a: seq<byte>, b: seq<byte>, c: seq<byte>)
    requires TotalPreorder(cmp, size) && |a| == |b| == |c| == size
    requires cmp(a, b) <= 0 && cmp(b, c) <= 0
    ensures cmp(a, c) <= 0
    ensures cmp(a, b) < 0 || cmp(b, c) < 0 ==> cmp(a, c) < 0
  {
    if cmp(a, c) == 0 {
      // c <= a, so both b <= a and c <= b
      assert cmp(c, a) <= 0;
      assert cmp(c, b) <= 0 && cmp(b, a) <= 0;
    }
  }

  // ---------------------------------------------------------------
  // Records in a byte array
  // ---------------------------------------------------------------

  /** k * x by repeated addition: the offset of record k when x is the record size. */
  ghost function Times(k: nat, x: nat): nat {
    if k == 0 then 0 else Times(k - 1, x) + x
  }

  lemma {:induction false} TimesIsProduct(k: nat, x: nat)
    ensures Times(k, x) == k * x
    decreases k
  {
    if k > 0 { TimesIsProduct(k - 1, x); }
  }

  lemma TimesZero(x: nat)
    ensures Times(0, x) == 0
  {
  }

  lemma TimesStep(k: nat, x: nat)
    ensures Times(k + 1, x) == Times(k, x) + x
  {
  }

  lemma {:induction false} TimesMonotone(j: nat, k: nat, x: nat)
    requires j <= k
    ensures Times(j, x) <= Times(k, x)
    decreases k
  {
    if j < k { TimesMonotone(j, k - 1, x); }
  }

  /** The cnt records of size bytes at the start of s. */
  ghost function Rows(s: seq<byte>, cnt: nat, size: nat): (rows: seq<seq<byte>>)
    requires Times(cnt, size) <= |s|
    ensures |rows| == cnt
    ensures forall k | 0 <= k < cnt :: |rows[k]| == size
    decreases cnt
  {
    if cnt == 0 then [] else
      RowInside(cnt - 1, cnt, size);
      Rows(s, cnt - 1, size) + [Row(s, cnt - 1, cnt, size)]
  }

  ghost function Row(s: seq<byte>, k: nat, cnt: nat, size: nat): (row: seq<byte>)
    requires k < cnt && Times(cnt, size) <= |s|
    ensures |row| == size
  {
    RowInside(k, cnt, size);
    s[Times(k, size)..Times(k, size) + size]
  }

  lemma {:induction false} RowAt(s: seq<byte>, k: nat, cnt: nat, size: nat)
    requires k < cnt && Times(cnt, size) <= |s|
    ensures Times(k, size) + size <= |s|
    ensures Rows(s, cnt, size)[k] == s[Times(k, size)..Times(k, size) + size]
    decreases cnt
  {
    RowInside(k, cnt, size);
    RowInside(cnt - 1, cnt, size);
    if k < cnt - 1 { RowAt(s, k, cnt - 1, size); }
  }

  lemma RowInside(k: nat, cnt: nat, size: nat)
    requires k < cnt
    ensures Times(k, size) + size <= Times(cnt, size)
  {
    TimesMonotone(k + 1, cnt, size);
  }

  /** Equal bytes mean equal records. */
  lemma RowUnchanged(s: seq<byte>, t: seq<byte>, k: nat, cnt: nat, size: nat)
    requires k < cnt && Times(cnt, size) <= |s| && |s| == |t| && Times(k, size) + size <= |s|
    requires forall j | Times(k, size) <= j < Times(k, size) + size :: s[j] == t[j]
    ensures Rows(s, cnt, size)[k] == Rows(t, cnt, size)[k]
  {
    RowAt(s, k, cnt, size);
    RowAt(t, k, cnt, size);
    var lo := Times(k, size);
    assert s[lo..lo + size] == t[lo..lo + size];
  }

  lemma {:induction false} RowsPrefix(s: seq<byte>, cnt: nat, total: nat, size: nat)
    requires cnt <= total && Times(total, size) <= |s|
    ensures Times(cnt, size) <= |s|
    ensures Rows(s, cnt, size) == Rows(s, total, size)[..cnt]
    decreases total
  {
    if cnt < total {
      RowInside(total - 1, total, size);
      RowsPrefix(s, cnt, total - 1, size);
    }
  }

  /** Elements x and y exchanged. */
  ghost function Swapped(rows: seq<seq<byte>>, x: nat, y: nat): (r: seq<seq<byte>>)
    requires 1 <= x <= |rows| && 1 <= y <= |rows|
    ensures |r| == |rows|
  {
    rows[x - 1 := rows[y - 1]][y - 1 := rows[x - 1]]
  }

  /** t is s with the first n bytes at p and at q exchanged. */
  ghost predicate BytesSwapped(s: seq<byte>, t: seq<byte>, p: nat, q: nat, n: nat)
    requires |s| == |t| && p + n <= |s| && q + n <= |s|
  {
    && (forall j | 0 <= j < |s| && !(p <= j < p + n) && !(q <= j < q + n) :: t[j] == s[j])
    && t[p..p + n] == s[q..q + n]
    && t[q..q + n] == s[p..p + n]
  }

  lemma SwapOneMore(s: seq<byte>, t: seq<byte>, u: seq<byte>, p: nat, q: nat, n: nat)
    requires |s| == |t| == |u| && p + n < |s| && q + n < |s|
    requires p == q || p + n < q || q + n < p
    requires BytesSwapped(s, t, p, q, n)
    requires u == t[p + n := t[q + n]][q + n := t[p + n]]
    ensures BytesSwapped(s, u, p, q, n + 1)
  {
    assert u[p..p + n] == t[p..p + n] && u[q..q + n] == t[q..q + n];
    assert u[p..p + n + 1] == u[p..p + n] + [u[p + n]];
    assert u[q..q + n + 1] == u[q..q + n] + [u[q + n]];
    assert s[p..p + n + 1] == s[p..p + n] + [s[p + n]];
    assert s[q..q + n + 1] == s[q..q + n] + [s[q + n]];
  }

  /** do_swap exchanges two of the cnt records, byte by byte, and touches nothing else. */
  method DoSwap(a: array<byte>, aIdx: nat, bIdx: nat, size: nat, ghost cnt: nat)
    requires 1 <= aIdx <= cnt && 1 <= bIdx <= cnt && Times(cnt, size) <= a.Length
    modifies a
    ensures Rows(a[..], cnt, size) == Swapped(Rows(old(a[..]), cnt, size), aIdx, bIdx)
    ensures a[Times(cnt, size)..] == old(a[Times(cnt, size)..])
  {
    var p, q := (aIdx - 1) * size, (bIdx - 1) * size;
    RecordPlaces(aIdx - 1, bIdx - 1, cnt, size);
    ghost var was := a[..];
    var i := 0;
    while i < size
      invariant 0 <= i <= size && BytesSwapped(was, a[..], p, q, i)
    {
      ghost var before := a[..];
      var t := a[p + i];
      a[p + i] := a[q + i];
      a[q + i] := t;
      SwapOneMore(was, before, a[..], p, q, i);
      i := i + 1;
    }
    SwappedRows(was, a[..], aIdx - 1, bIdx - 1, cnt, size);
  }

  /** Where two records lie: inside the array, and apart unless they are the same. */
  lemma RecordPlaces(x: nat, y: nat, cnt: nat, size: nat)
    requires x < cnt && y < cnt
    ensures Times(x, size) == x * size && Times(y, size) == y * size
    ensures 0 <= x * size && x * size + size <= Times(cnt, size)
    ensures 0 <= y * size && y * size + size <= Times(cnt, size)
    ensures x == y || x * size + size <= y * size || y * size + size <= x * size
  {
    TimesIsProduct(x, size);
    TimesIsProduct(y, size);
    RowInside(x, cnt, size);
    RowInside(y, cnt, size);
    if x < y { RowInside(x, y, size); }
    if y < x { RowInside(y, x, size); }
  }

  lemma SwappedRows(s: seq<byte>, t: seq<byte>, x: nat, y: nat, cnt: nat, size: nat)
    requires x < cnt && y < cnt && Times(cnt, size) <= |s| == |t|
    requires Times(x, size) + size <= Times(cnt, size) && Times(y, size) + size <= Times(cnt, size)
    requires BytesSwapped(s, t, Times(x, size), Times(y, size), size)
    ensures Rows(t, cnt, size) == Swapped(Rows(s, cnt, size), x + 1, y + 1)
    ensures t[Times(cnt, size)..] == s[Times(cnt, size)..]
  {
    hide Times, Rows, Row;
    RowAt(s, x, cnt, size);
    RowAt(s, y, cnt, size);
    RowAt(t, x, cnt, size);
    RowAt(t, y, cnt, size);
    forall k | 0 <= k < cnt && k != x && k != y
      ensures Rows(t, cnt, size)[k] == Rows(s, cnt, size)[k]
    {
      OtherRow(s, t, k, x, y, cnt, size);
    }
  }

  lemma OtherRow(s: seq<byte>, t: seq<byte>, k: nat, x: nat, y: nat, cnt: nat, size: nat)
    requires x < cnt && y < cnt && Times(cnt, size) <= |s| && |s| == |t|
    requires k < cnt && k != x && k != y
    requires forall j | 0 <= j < |s| && !(Times(x, size) <= j < Times(x, size) + size)
             && !(Times(y, size) <= j < Times(y, size) + size) :: t[j] == s[j]
    ensures Rows(t, cnt, size)[k] == Rows(s, cnt, size)[k]
  {
    RowInside(k, cnt, size);
    if k < x { RowInside(k, x, size); } else { RowInside(x, k, size); }
    if k < y { RowInside(k, y, size); } else { RowInside(y, k, size); }
    RowUnchanged(s, t, k, cnt, size);
  }

  /** do_compare; rows names the records of a, of which there are cnt. */
  method DoCompare(a: array<byte>, aIdx: nat, bIdx: nat, size: nat, cmp: Compare,
                   ghost cnt: nat, ghost rows: seq<seq<byte>>) returns (r: int)
    requires 1 <= aIdx <= cnt && 1 <= bIdx <= cnt && Times(cnt, size) <= a.Length
    requires rows == Rows(a[..], cnt, size)
    ensures r == cmp(rows[aIdx - 1], rows[bIdx - 1])
  {
    RowAt(a[..], aIdx - 1, cnt, size);
    RowAt(a[..], bIdx - 1, cnt, size);
    TimesIsProduct(aIdx - 1, size);
    TimesIsProduct(bIdx - 1, size);
    r := cmp(a[(aIdx - 1) * size..(aIdx - 1) * size + size], a[(bIdx - 1) * size..(bIdx - 1) * size + size]);
  }

  // ---------------------------------------------------------------
  // Heaps
  // ---------------------------------------------------------------

  ghost predicate Records(rows: seq<seq<byte>>, size: nat) {
    forall k | 0 <= k < |rows| :: |rows[k]| == size
  }

  lemma RowsAreRecords(s: seq<byte>, cnt: nat, size: nat)
    requires Times(cnt, size) <= |s|
    ensures Records(Rows(s, cnt, size), size)
  {
  }

  /** Element c (1-based) is not above its parent. */
  ghost predicate BelowParent(rows: seq<seq<byte>>, cmp: Compare, c: nat)
    requires 2 <= c <= |rows|
  {
    cmp(rows[c - 1], rows[c / 2 - 1]) <= 0
  }

  /** Every element whose parent has index lo or more is not above its parent. */
  ghost predicate HeapFrom(rows: seq<seq<byte>>, cmp: Compare, lo: nat)
    requires lo >= 1
  {
    forall c | 2 * lo <= c <= |rows| :: BelowParent(rows, cmp, c)
  }

  /** Neither child of element i is above e. */
  ghost predicate ChildrenBelow(rows: seq<seq<byte>>, cmp: Compare, i: nat, e: seq<byte>)
    requires i >= 1
  {
    && (2 * i <= |rows| ==> cmp(rows[2 * i - 1], e) <= 0)
    && (2 * i + 1 <= |rows| ==> cmp(rows[2 * i], e) <= 0)
  }

  /** The same, except between element i and its children, which are in turn not above
      i's own parent. */
  ghost predicate HeapExceptAt(rows: seq<seq<byte>>, cmp: Compare, lo: nat, i: nat)
    requires 1 <= lo <= i <= |rows|
  {
    && (forall c | 2 * lo <= c <= |rows| && c / 2 != i :: BelowParent(rows, cmp, c))
    && (2 * lo <= i ==> ChildrenBelow(rows, cmp, i, rows[i / 2 - 1]))
  }

  lemma SwapPermutes(rows: seq<seq<byte>>, x: nat, y: nat)
    requires 1 <= x <= |rows| && 1 <= y <= |rows|
    ensures multiset(Swapped(rows, x, y)) == multiset(rows)
  {
  }

  /** The largest of element i and its children, as heapify picks it. */
  ghost function LargestAt(rows: seq<seq<byte>>, cmp: Compare, i: nat): (m: nat)
    requires 1 <= i <= |rows|
    ensures i <= m <= |rows| && (m == i || m == 2 * i || m == 2 * i + 1)
  {
    var m := if 2 * i <= |rows| && cmp(rows[2 * i - 1], rows[i - 1]) > 0 then 2 * i else i;
    if 2 * i + 1 <= |rows| && cmp(rows[2 * i], rows[m - 1]) > 0 then 2 * i + 1 else m
  }

  lemma LargestAtIsLargest(rows: seq<seq<byte>>, cmp: Compare, size: nat, i: nat)
    requires TotalPreorder(cmp, size) && Records(rows, size) && 1 <= i <= |rows|
    ensures ChildrenBelow(rows, cmp, i, rows[LargestAt(rows, cmp, i) - 1])
    ensures cmp(rows[i - 1], rows[LargestAt(rows, cmp, i) - 1]) <= 0
  {
    var e := rows[i - 1];
    PreorderReflexive(cmp, size, e);
    if 2 * i <= |rows| {
      var l := rows[2 * i - 1];
      PreorderReflexive(cmp, size, l);
      if 2 * i + 1 <= |rows| {
        var r := rows[2 * i];
        PreorderReflexive(cmp, size, r);
        if cmp(l, e) > 0 {
          if cmp(r, l) > 0 { PreorderTransitive(cmp, size, e, l, r); }
        } else if cmp(r, e) > 0 {
          PreorderTransitive(cmp, size, l, e, r);
        }
      }
    }
  }

  /** One float-down step: exchanging i with its largest child m moves the only
      possible violation down to m. */
  lemma FloatDownStep(rows: seq<seq<byte>>, cmp: Compare, lo: nat, i: nat, m: nat)
    requires 1 <= lo <= i && (m == 2 * i || m == 2 * i + 1) && m <= |rows|
    requires HeapExceptAt(rows, cmp, lo, i)
    requires ChildrenBelow(rows, cmp, i, rows[m - 1])
    requires cmp(rows[i - 1], rows[m - 1]) <= 0
    ensures HeapExceptAt(Swapped(rows, i, m), cmp, lo, m)
  {
    var after := Swapped(rows, i, m);
    forall c | 2 * lo <= c <= |after| && c / 2 != m
      ensures BelowParent(after, cmp, c)
    {
      if c != i && c / 2 != i {
        assert BelowParent(rows, cmp, c);
      }
    }
    assert ChildrenBelow(after, cmp, m, after[m / 2 - 1]) by {
      if 2 * m <= |rows| { assert BelowParent(rows, cmp, 2 * m); }
      if 2 * m + 1 <= |rows| { assert BelowParent(rows, cmp, 2 * m + 1); }
    }
  }

  /** When neither child of i is above i, the exception at i is no exception. */
  lemma FloatDownDone(rows: seq<seq<byte>>, cmp: Compare, lo: nat, i: nat)
    requires 1 <= lo <= i <= |rows| && HeapExceptAt(rows, cmp, lo, i)
    requires ChildrenBelow(rows, cmp, i, rows[i - 1])
    ensures HeapFrom(rows, cmp, lo)
  {
    forall c | 2 * lo <= c <= |rows|
      ensures BelowParent(rows, cmp, c)
    {
      if c / 2 == i { assert c == 2 * i || c == 2 * i + 1; }
    }
  }

  /** No element of a heap is above the root. */
  lemma {:induction false} RootIsLargest(rows: seq<seq<byte>>, cmp: Compare, size: nat, c: nat)
    requires TotalPreorder(cmp, size) && Records(rows, size) && HeapFrom(rows, cmp, 1)
    requires 1 <= c <= |rows|
    ensures cmp(rows[c - 1], rows[0]) <= 0
    decreases c
  {
    if c == 1 {
      PreorderReflexive(cmp, size, rows[0]);
    } else {
      assert BelowParent(rows, cmp, c);
      RootIsLargest(rows, cmp, size, c / 2);
      PreorderTransitive(cmp, size, rows[c - 1], rows[c / 2 - 1], rows[0]);
    }
  }

  // ---------------------------------------------------------------
  // Comparisons made
  // ---------------------------------------------------------------

  ghost function Log2(n: nat): nat {
    if n <= 1 then 0 else 1 + Log2(n / 2)
  }

  /** The number of times i can be doubled without passing cnt. */
  ghost function Levels(i: nat, cnt: nat): nat
    requires i >= 1
    decreases cnt - i
  {
    if 2 * i <= cnt then 1 + Levels(2 * i, cnt) else 0
  }

  lemma {:induction false} LevelsAntitone(i: nat, j: nat, cnt: nat)
    requires 1 <= i <= j
    ensures Levels(j, cnt) <= Levels(i, cnt)
    decreases cnt - i
  {
    if 2 * j <= cnt { LevelsAntitone(2 * i, 2 * j, cnt); }
  }

  lemma LevelsAboveLeaf(i: nat, cnt: nat)
    requires i >= 1
    ensures (if 2 * i <= cnt then 1 else 0) <= Levels(i, cnt)
  {
  }

  lemma LevelsStep(i: nat, m: nat, cnt: nat)
    requires i >= 1 && 2 * i <= m <= cnt
    ensures Levels(m, cnt) + 1 <= Levels(i, cnt)
  {
    LevelsAntitone(2 * i, m, cnt);
  }

  lemma {:induction false} LevelsHalved(i: nat, cnt: nat)
    requires i >= 1
    ensures Levels(2 * i, cnt) == Levels(i, cnt / 2)
    decreases cnt - i
  {
    if 4 * i <= cnt { LevelsHalved(2 * i, cnt); }
  }

  lemma {:induction false} LevelsAtMostLog2(i: nat, cnt: nat)
    requires i >= 1
    ensures Levels(i, cnt) <= Log2(cnt)
    ensures Levels(1, cnt) == Log2(cnt)
    decreases cnt
  {
    LevelsAntitone(1, i, cnt);
    if cnt >= 2 {
      LevelsHalved(1, cnt);
      LevelsAtMostLog2(1, cnt / 2);
    }
  }

  lemma {:induction false} Log2Monotone(m: nat, n: nat)
    requires m <= n
    ensures Log2(m) <= Log2(n)
    decreases n
  {
    if m >= 2 { Log2Monotone(m / 2, n / 2); }
  }

  // ---------------------------------------------------------------
  // heapify, sort
  // ---------------------------------------------------------------

  /** The index of the largest element among i and its children, if any. */
  method LargestIndex(a: array<byte>, i: nat, cnt: nat, size: nat, cmp: Compare, ghost rows: seq<seq<byte>>)
    returns (max: nat, ghost comparisons: nat)
    requires 1 <= i <= cnt && Times(cnt, size) <= a.Length
    requires rows == Rows(a[..], cnt, size)
    ensures max == LargestAt(rows, cmp, i)
    ensures comparisons <= if 2 * i <= cnt then 2 else 0
  {
    var left := 2 * i;
    var right := 2 * i + 1;
    max := i;
    comparisons := 0;
    if left <= cnt {
      var c := DoCompare(a, left, max, size, cmp, cnt, rows);
      comparisons := comparisons + 1;
      if c > 0 { max := left; }
    }
    if right <= cnt {
      var c := DoCompare(a, right, max, size, cmp, cnt, rows);
      comparisons := comparisons + 1;
      if c > 0 { max := right; }
    }
  }

  /** t holds the same cnt records as s in some order, and the same bytes after them. */
  ghost predicate Rearranged(s: seq<byte>, t: seq<byte>, cnt: nat, size: nat) {
    && Times(cnt, size) <= |s| == |t|
    && multiset(Rows(s, cnt, size)) == multiset(Rows(t, cnt, size))
    && s[Times(cnt, size)..] == t[Times(cnt, size)..]
  }

  lemma SwapRearranges(s: seq<byte>, t: seq<byte>, cnt: nat, size: nat, x: nat, y: nat)
    requires Times(cnt, size) <= |s| == |t|
    requires 1 <= x <= cnt && 1 <= y <= cnt && Rows(t, cnt, size) == Swapped(Rows(s, cnt, size), x, y)
    requires s[Times(cnt, size)..] == t[Times(cnt, size)..]
    ensures Rearranged(s, t, cnt, size)
  {
    SwapPermutes(Rows(s, cnt, size), x, y);
  }

  lemma RearrangedTransitive(s: seq<byte>, t: seq<byte>, u: seq<byte>, cnt: nat, size: nat)
    requires Rearranged(s, t, cnt, size) && Rearranged(t, u, cnt, size)
    ensures Rearranged(s, u, cnt, size)
  {
  }

  lemma RearrangedReflexive(s: seq<byte>, cnt: nat, size: nat)
    requires Times(cnt, size) <= |s|
    ensures Rearranged(s, s, cnt, size)
  {
  }

  /** heapify floats element i0 down; comparisons counts the calls of cmp. */
  method Heapify(a: array<byte>, i0: nat, cnt: nat, size: nat, cmp: Compare) returns (ghost comparisons: nat)
    requires TotalPreorder(cmp, size)
    requires 1 <= i0 <= cnt && Times(cnt, size) <= a.Length
    requires HeapExceptAt(Rows(a[..], cnt, size), cmp, i0, i0)
    modifies a
    ensures Rearranged(old(a[..]), a[..], cnt, size)
    ensures HeapFrom(Rows(a[..], cnt, size), cmp, i0)
    ensures comparisons <= 2 * Levels(i0, cnt)
  {
    hide *;
    var i := i0;
    comparisons := 0;
    RearrangedReflexive(a[..], cnt, size);
    while true
      invariant i0 <= i <= cnt
      invariant Rearranged(old(a[..]), a[..], cnt, size)
      invariant HeapExceptAt(Rows(a[..], cnt, size), cmp, i0, i)
      invariant comparisons + 2 * Levels(i, cnt) <= 2 * Levels(i0, cnt)
      decreases cnt - i
    {
      ghost var s := a[..];
      ghost var rows := Rows(s, cnt, size);
      RowsAreRecords(s, cnt, size);
      LargestAtIsLargest(rows, cmp, size, i);
      LevelsAboveLeaf(i, cnt);
      var max, made := LargestIndex(a, i, cnt, size, cmp, rows);
      comparisons := comparisons + made;
      if max == i {
        FloatDownDone(rows, cmp, i0, i);
        break;
      }
      FloatDownStep(rows, cmp, i0, i, max);
      LevelsStep(i, max, cnt);
      DoSwap(a, i, max, size, cnt);
      SwapRearranges(s, a[..], cnt, size, i, max);
      RearrangedTransitive(old(a[..]), s, a[..], cnt, size);
      i := max;
    }
  }

  ghost predicate SortedFrom(rows: seq<seq<byte>>, cmp: Compare, lo: nat) {
    forall i, j | lo <= i < j < |rows| :: cmp(rows[i], rows[j]) <= 0
  }

  ghost predicate Sorted(rows: seq<seq<byte>>, cmp: Compare) {
    SortedFrom(rows, cmp, 0)
  }

  /** Between extractions: a heap of i elements, none above the sorted elements after them. */
  ghost predicate PartlySorted(rows: seq<seq<byte>>, cmp: Compare, i: nat) {
    && i <= |rows|
    && HeapFrom(rows[..i], cmp, 1)
    && SortedFrom(rows, cmp, i)
    && (forall x, y | 0 <= x < i <= y < |rows| :: cmp(rows[x], rows[y]) <= 0)
  }

  lemma HeapToPartlySorted(rows: seq<seq<byte>>, cmp: Compare)
    requires HeapFrom(rows, cmp, 1)
    ensures PartlySorted(rows, cmp, |rows|)
  {
    assert rows[..|rows|] == rows;
  }

  /** Exchanging root and last heap element extends the sorted part; the heap is then
      broken at the root only. */
  lemma ExtractStep(rows: seq<seq<byte>>, cmp: Compare, size: nat, i: nat)
    requires TotalPreorder(cmp, size) && Records(rows, size)
    requires 2 <= i <= |rows| && PartlySorted(rows, cmp, i)
    ensures HeapExceptAt(Swapped(rows, 1, i)[..i - 1], cmp, 1, 1)
    ensures SortedFrom(Swapped(rows, 1, i), cmp, i - 1)
    ensures forall x, y | 0 <= x < i - 1 <= y < |rows| :: cmp(Swapped(rows, 1, i)[x], Swapped(rows, 1, i)[y]) <= 0
  {
    hide TotalPreorder;
    var heap := rows[..i];
    var after := Swapped(rows, 1, i);
    forall c | 2 <= c <= i - 1 && c / 2 != 1
      ensures BelowParent(after[..i - 1], cmp, c)
    {
      assert BelowParent(heap, cmp, c);
    }
    forall x | 0 <= x < i
      ensures cmp(rows[x], rows[0]) <= 0
    {
      RootIsLargest(heap, cmp, size, x + 1);
    }
  }

  /** Re-heaping the first i records keeps them, as a bag, below the sorted part. */
  lemma ReheapKeepsSorted(before: seq<seq<byte>>, after: seq<seq<byte>>, cmp: Compare, i: nat)
    requires i <= |before| == |after| && before[i..] == after[i..]
    requires multiset(before[..i]) == multiset(after[..i])
    requires HeapFrom(after[..i], cmp, 1)
    requires SortedFrom(before, cmp, i)
    requires forall x, y | 0 <= x < i <= y < |before| :: cmp(before[x], before[y]) <= 0
    ensures PartlySorted(after, cmp, i)
  {
    forall x, y | i <= x < y < |after|
      ensures cmp(after[x], after[y]) <= 0
    {
      assert after[x] == after[i..][x - i] == before[x];
      assert after[y] == after[i..][y - i] == before[y];
    }
    forall x, y | 0 <= x < i <= y < |after|
      ensures cmp(after[x], after[y]) <= 0
    {
      assert after[..i][x] in multiset(before[..i]);
      var z :| 0 <= z < i && before[..i][z] == after[x];
      assert after[y] == after[i..][y - i] == before[y];
    }
  }

  lemma PartlySortedToSorted(rows: seq<seq<byte>>, cmp: Compare, i: nat)
    requires i <= 1 && PartlySorted(rows, cmp, i)
    ensures Sorted(rows, cmp)
  {
  }

  lemma PermutedPrefix(before: seq<seq<byte>>, after: seq<seq<byte>>, i: nat)
    requires i <= |before| == |after| && before[i..] == after[i..]
    requires multiset(before[..i]) == multiset(after[..i])
    ensures multiset(before) == multiset(after)
  {
    assert before == before[..i] + before[i..] && after == after[..i] + after[i..];
  }

  /** Bytes beyond the first i records hold the later records. */
  lemma RowsBeyond(s: seq<byte>, t: seq<byte>, i: nat, cnt: nat, size: nat)
    requires i <= cnt && Times(cnt, size) <= |s| && |s| == |t| && Times(i, size) <= |s|
    requires s[Times(i, size)..] == t[Times(i, size)..]
    ensures Rows(s, cnt, size)[i..] == Rows(t, cnt, size)[i..]
    ensures s[Times(cnt, size)..] == t[Times(cnt, size)..]
  {
    forall j | Times(i, size) <= j < |s|
      ensures s[j] == t[j]
    {
      assert s[Times(i, size)..][j - Times(i, size)] == t[Times(i, size)..][j - Times(i, size)];
    }
    forall k | i <= k < cnt
      ensures Rows(s, cnt, size)[k] == Rows(t, cnt, size)[k]
    {
      RowInside(k, cnt, size);
      TimesMonotone(i, k, size);
      RowUnchanged(s, t, k, cnt, size);
    }
    TimesMonotone(i, cnt, size);
  }

  /** sort: a sorted permutation of the records, the bytes after them untouched, within
      3 * cnt * floor(log2 cnt) comparisons. */
  method Sort(a: array<byte>, cnt: nat, size: nat, cmp: Compare) returns (ghost comparisons: nat)
    requires size > 0 && Times(cnt, size) <= a.Length && TotalPreorder(cmp, size)
    modifies a
    ensures Rearranged(old(a[..]), a[..], cnt, size)
    ensures Sorted(Rows(a[..], cnt, size), cmp)
    ensures comparisons <= 3 * cnt * Log2(cnt)
  {
    hide *;
    comparisons := BuildHeap(a, cnt, size, cmp);
    HeapToPartlySorted(Rows(a[..], cnt, size), cmp);
    var i := cnt;
    TimesZero(2 * Log2(cnt));
    while i > 1
      invariant 0 <= i <= cnt
      invariant Rearranged(old(a[..]), a[..], cnt, size)
      invariant PartlySorted(Rows(a[..], cnt, size), cmp, i)
      invariant comparisons <= Times(cnt / 2, 2 * Log2(cnt)) + Times(cnt - i, 2 * Log2(cnt))
    {
      ghost var s := a[..];
      var made := ExtractMax(a, i, cnt, size, cmp);
      RearrangedTransitive(old(a[..]), s, a[..], cnt, size);
      Log2Monotone(i - 1, cnt);
      TimesStep(cnt - i, 2 * Log2(cnt));
      comparisons := comparisons + made;
      i := i - 1;
    }
    PartlySortedToSorted(Rows(a[..], cnt, size), cmp, i);
    ComparisonBound(cnt, cnt - i, Log2(cnt));
  }

  lemma ComparisonBound(cnt: nat, rounds: nat, log: nat)
    requires rounds <= cnt
    ensures Times(cnt / 2, 2 * log) + Times(rounds, 2 * log) <= 3 * cnt * log
  {
    hide Times;
    TimesMonotone(rounds, cnt, 2 * log);
    TimesDoubled(cnt / 2, log);
    TimesMonotone(2 * (cnt / 2), cnt, log);
    TimesDoubled(cnt, log);
    TimesAdd(cnt, cnt, log);
    TimesIsProduct(cnt, log);
    Associate(3, cnt, log);
  }

  lemma {:induction false} TimesDoubled(k: nat, x: nat)
    ensures Times(k, 2 * x) == Times(2 * k, x)
    decreases k
  {
    if k > 0 { TimesDoubled(k - 1, x); }
  }

  /** First loop of sort. */
  method BuildHeap(a: array<byte>, cnt: nat, size: nat, cmp: Compare) returns (ghost comparisons: nat)
    requires Times(cnt, size) <= a.Length && TotalPreorder(cmp, size)
    modifies a
    ensures Rearranged(old(a[..]), a[..], cnt, size)
    ensures HeapFrom(Rows(a[..], cnt, size), cmp, 1)
    ensures comparisons <= Times(cnt / 2, 2 * Log2(cnt))
  {
    hide *;
    comparisons := 0;
    var i := cnt / 2;
    RearrangedReflexive(a[..], cnt, size);
    EmptyHeap(Rows(a[..], cnt, size), cmp);
    TimesZero(2 * Log2(cnt));
    while i > 0
      invariant 0 <= i <= cnt / 2
      invariant Rearranged(old(a[..]), a[..], cnt, size)
      invariant HeapFrom(Rows(a[..], cnt, size), cmp, i + 1)
      invariant comparisons <= Times(cnt / 2 - i, 2 * Log2(cnt))
    {
      ghost var s := a[..];
      HeapFromToExcept(Rows(s, cnt, size), cmp, i);
      var made := Heapify(a, i, cnt, size, cmp);
      RearrangedTransitive(old(a[..]), s, a[..], cnt, size);
      TimesStep(cnt / 2 - i, 2 * Log2(cnt));
      LevelsAtMostLog2(i, cnt);
      comparisons := comparisons + made;
      i := i - 1;
    }
  }

  lemma EmptyHeap(rows: seq<seq<byte>>, cmp: Compare)
    ensures HeapFrom(rows, cmp, |rows| / 2 + 1)
  {
  }

  lemma HeapFromToExcept(rows: seq<seq<byte>>, cmp: Compare, i: nat)
    requires 1 <= i <= |rows| && HeapFrom(rows, cmp, i + 1)
    ensures HeapExceptAt(rows, cmp, i, i)
  {
  }

  /** One round of the second loop of sort. */
  method ExtractMax(a: array<byte>, i: nat, cnt: nat, size: nat, cmp: Compare) returns (ghost comparisons: nat)
    requires Times(cnt, size) <= a.Length && TotalPreorder(cmp, size)
    requires 2 <= i <= cnt && PartlySorted(Rows(a[..], cnt, size), cmp, i)
    modifies a
    ensures Rearranged(old(a[..]), a[..], cnt, size)
    ensures PartlySorted(Rows(a[..], cnt, size), cmp, i - 1)
    ensures comparisons <= 2 * Log2(i - 1)
  {
    hide *;
    ghost var s := a[..];
    DoSwap(a, 1, i, size, cnt);
    ghost var t := a[..];
    SwapRearranges(s, t, cnt, size, 1, i);
    RowsPrefix(t, i - 1, cnt, size);
    RowsAreRecords(s, cnt, size);
    ExtractStep(Rows(s, cnt, size), cmp, size, i);
    comparisons := Heapify(a, 1, i - 1, size, cmp);
    LevelsAtMostLog2(1, i - 1);
    ExtractDone(t, a[..], i - 1, cnt, size, cmp);
    RearrangedTransitive(s, t, a[..], cnt, size);
  }

  lemma ExtractDone(t: seq<byte>, u: seq<byte>, i: nat, cnt: nat, size: nat, cmp: Compare)
    requires i <= cnt && Times(cnt, size) <= |t| && Rearranged(t, u, i, size)
    requires HeapFrom(Rows(u, i, size), cmp, 1) && SortedFrom(Rows(t, cnt, size), cmp, i)
    requires forall x, y | 0 <= x < i <= y < cnt :: cmp(Rows(t, cnt, size)[x], Rows(t, cnt, size)[y]) <= 0
    ensures Rearranged(t, u, cnt, size)
    ensures PartlySorted(Rows(u, cnt, size), cmp, i)
  {
    RowsPrefix(t, i, cnt, size);
    RowsPrefix(u, i, cnt, size);
    RowsBeyond(t, u, i, cnt, size);
    ReheapKeepsSorted(Rows(t, cnt, size), Rows(u, cnt, size), cmp, i);
    PermutedPrefix(Rows(t, cnt, size), Rows(u, cnt, size), i);
  }

  // ---------------------------------------------------------------
  // binary_search
  // ---------------------------------------------------------------

  /** Returns the index of a record matching key, exactly when there is one. */
  method BinarySearch(key: seq<byte>, a: array<byte>, cnt: nat, size: nat, cmp: Compare) returns (r: Option<nat>)
    requires size > 0 && Times(cnt, size) <= a.Length && |key| == size
    requires TotalPreorder(cmp, size) && Sorted(Rows(a[..], cnt, size), cmp)
    ensures r.Some? ==> r.value < cnt && cmp(key, Rows(a[..], cnt, size)[r.value]) == 0
    ensures r.None? ==> forall k | 0 <= k < cnt :: cmp(key, Rows(a[..], cnt, size)[k]) != 0
  {
    ghost var rows := Rows(a[..], cnt, size);
    ghost var lo, hi := 0, cnt;
    TimesIsProduct(cnt, size);
    var first, last := 0, size * cnt;
    while first < last
      invariant 0 <= lo <= hi <= cnt && first == Times(lo, size) && last == Times(hi, size)
      invariant forall k | 0 <= k < lo :: cmp(key, rows[k]) > 0
      invariant forall k | hi <= k < cnt :: cmp(key, rows[k]) < 0
      decreases hi - lo
    {
      if lo >= hi { TimesMonotone(hi, lo, size); assert false; }
      RangeInRecords(lo, hi, size);
      var range := (last - first) / size;
      var middle := first + range / 2 * size;
      ghost var m := lo + range / 2;
      RowAt(a[..], m, cnt, size);
      var c := cmp(key, a[middle..middle + size]);
      assert a[middle..middle + size] == rows[m];
      if c < 0 {
        SearchLeft(key, rows, cmp, size, m);
        last := middle;
        hi := m;
      } else if c > 0 {
        SearchRight(key, rows, cmp, size, m);
        first := middle + size;
        lo := m + 1;
      } else {
        return Some(middle / size);
      }
    }
    if lo < hi { RowInside(lo, hi, size); }
    return None;
  }

  /** The pointer arithmetic of the search, in records. */
  lemma RangeInRecords(lo: nat, hi: nat, size: nat)
    requires size > 0 && lo < hi
    ensures (Times(hi, size) - Times(lo, size)) / size == hi - lo
    ensures Times(lo, size) + (hi - lo) / 2 * size == Times(lo + (hi - lo) / 2, size)
    ensures Times(lo + (hi - lo) / 2, size) / size == lo + (hi - lo) / 2
  {
    TimesAdd(lo, hi - lo, size);
    TimesAdd(lo, (hi - lo) / 2, size);
    TimesIsProduct((hi - lo) / 2, size);
    TimesQuotient(hi - lo, size);
    TimesQuotient(lo + (hi - lo) / 2, size);
  }

  lemma {:induction false} TimesAdd(j: nat, k: nat, x: nat)
    ensures Times(j + k, x) == Times(j, x) + Times(k, x)
    decreases k
  {
    if k > 0 { TimesAdd(j, k - 1, x); }
  }

  lemma TimesQuotient(k: nat, x: nat)
    requires x > 0
    ensures Times(k, x) / x == k
  {
    TimesIsProduct(k, x);
    QuotientUnique(k * x, x, k);
  }

  lemma SearchLeft(key: seq<byte>, rows: seq<seq<byte>>, cmp: Compare, size: nat, m: nat)
    requires TotalPreorder(cmp, size) && Records(rows, size) && |key| == size
    requires m < |rows| && Sorted(rows, cmp) && cmp(key, rows[m]) < 0
    ensures forall k | m <= k < |rows| :: cmp(key, rows[k]) < 0
  {
    forall k | m < k < |rows|
      ensures cmp(key, rows[k]) < 0
    {
      PreorderTransitive(cmp, size, key, rows[m], rows[k]);
    }
  }

  lemma SearchRight(key: seq<byte>, rows: seq<seq<byte>>, cmp: Compare, size: nat, m: nat)
    requires TotalPreorder(cmp, size) && Records(rows, size) && |key| == size
    requires m < |rows| && Sorted(rows, cmp) && cmp(key, rows[m]) > 0
    ensures forall k | 0 <= k <= m :: cmp(key, rows[k]) > 0
  {
    forall k | 0 <= k < m
      ensures cmp(key, rows[k]) > 0
    {
      assert cmp(rows[m], key) < 0;
      PreorderTransitive(cmp, size, rows[k], rows[m], key);
    }
  }
}
