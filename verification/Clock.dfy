/** The second-chance search over the list of user pages (vm/frame.c). Pages are named by their
    frames. The list head is the page at index 0, which the clock hand passes over. */
module Clock {
  import opened Lists

  /** lru_clock: null, the list's end, or a listed page. */
  datatype Hand = Null | End | At(page: nat)

  ghost predicate HandOk(list: seq<nat>, hand: Hand) {
    hand.At? ==> hand.page in list
  }

  function IndexOf(list: seq<nat>, p: nat): (i: nat)
    requires p in list
    ensures i < |list| && list[i] == p
  {
    if list[0] == p then 0 else 1 + IndexOf(list[1..], p)
  }

  lemma IndexUnique(list: seq<nat>, i: nat)
    requires NoRepeats(list) && i < |list|
    ensures IndexOf(list, list[i]) == i
  {
  }

  /** list_next: the page after p, or the end. */
  function After(list: seq<nat>, p: nat): (h: Hand)
    requires p in list
    ensures HandOk(list, h)
  {
    var i := IndexOf(list, p);
    if i + 1 < |list| then At(list[i + 1]) else End
  }

  /** One activation of get_next_lru_clock on a list that is not empty: the hand it leaves, and
      whether it returns there rather than calls itself. */
  function Activation(list: seq<nat>, hand: Hand): (Hand, bool)
    requires list != [] && HandOk(list, hand)
  {
    var from := if hand.At? then hand.page else list[0];
    var to := After(list, from);
    (to, to.At?)
  }

  // ---------------------------------------------------------------
  // The order in which the hand visits pages
  // ---------------------------------------------------------------

  /** The index the hand starts from. */
  function HandIndex(list: seq<nat>, hand: Hand): (i: nat)
    requires list != [] && HandOk(list, hand)
    ensures i < |list|
  {
    if hand.At? then IndexOf(list, hand.page) else 0
  }

  function NextIndex(n: nat, i: nat): (j: nat)
    requires n >= 2
    ensures 1 <= j < n
  {
    if i + 1 < n then i + 1 else 1
  }

  /** The index of the k-th page visited (from 0) when the hand starts at index c. */
  ghost function Visit(n: nat, c: nat, k: nat): (i: nat)
    requires n >= 2 && c < n
    ensures 1 <= i < n
  {
    if k == 0 then NextIndex(n, c) else NextIndex(n, Visit(n, c, k - 1))
  }

  /** A sweep visits n - 1 pages in circular order. */
  lemma {:induction false} FirstSweep(n: nat, c: nat, k: nat)
    requires n >= 2 && c < n && k < n - 1
    ensures Visit(n, c, k) == if c + 1 + k < n then c + 1 + k else c + 1 + k - (n - 1)
  {
    if k > 0 { FirstSweep(n, c, k - 1); }
  }

  /** The second sweep repeats the first. */
  lemma {:induction false} SecondSweep(n: nat, c: nat, k: nat)
    requires n >= 2 && c < n
    ensures Visit(n, c, k + (n - 1)) == Visit(n, c, k)
  {
    if k == 0 {
      FirstSweep(n, c, n - 2);
      assert Visit(n, c, n - 1) == NextIndex(n, Visit(n, c, n - 2));
    } else {
      SecondSweep(n, c, k - 1);
    }
  }

  /** Each sweep visits every page but the head. */
  lemma SweepVisits(n: nat, c: nat, i: nat) returns (k: nat)
    requires n >= 2 && c < n && 1 <= i < n
    ensures k < n - 1 && Visit(n, c, k) == i
  {
    k := if i >= c + 1 then i - (c + 1) else i + (n - 1) - (c + 1);
    FirstSweep(n, c, k);
  }

  lemma VisitsDiffer(n: nat, c: nat, j: nat, k: nat)
    requires n >= 2 && c < n && j < k < n - 1
    ensures Visit(n, c, j) != Visit(n, c, k)
  {
    FirstSweep(n, c, j);
    FirstSweep(n, c, k);
  }

  // ---------------------------------------------------------------
  // Where the search stops
  // ---------------------------------------------------------------

  /** The pages visited before the k-th: their accessed bits have been cleared by then. */
  ghost function Visited(list: seq<nat>, c: nat, k: nat): (r: set<nat>)
    requires |list| >= 2 && c < |list|
    ensures r <= set p | p in list
  {
    if k == 0 then {} else Visited(list, c, k - 1) + {list[Visit(|list|, c, k - 1)]}
  }

  /** The k-th page visited is taken: not pinned, and its bit is clear when the hand gets there. */
  ghost predicate Stops(list: seq<nat>, c: nat, accessed: set<nat>, pinned: set<nat>, k: nat)
    requires |list| >= 2 && c < |list|
  {
    var p := list[Visit(|list|, c, k)];
    p !in pinned && p !in accessed - Visited(list, c, k)
  }

  /** The search ends at its k-th page. */
  ghost predicate EndsAt(list: seq<nat>, c: nat, accessed: set<nat>, pinned: set<nat>, k: nat)
    requires |list| >= 2 && c < |list|
  {
    Stops(list, c, accessed, pinned, k) && forall j: nat | j < k :: !Stops(list, c, accessed, pinned, j)
  }

  /** Some page past the head is not pinned. */
  ghost predicate HasCandidate(list: seq<nat>, pinned: set<nat>) {
    exists i :: 1 <= i < |list| && list[i] !in pinned
  }

  lemma {:induction false} VisitedIs(list: seq<nat>, c: nat, k: nat, p: nat)
    requires |list| >= 2 && c < |list|
    ensures p in Visited(list, c, k) <==> exists j: nat :: j < k && p == list[Visit(|list|, c, j)]
  {
    if k > 0 {
      VisitedIs(list, c, k - 1, p);
      if p in Visited(list, c, k - 1) {
        var j: nat :| j < k - 1 && p == list[Visit(|list|, c, j)];
        assert j < k && p == list[Visit(|list|, c, j)];
      } else if p in Visited(list, c, k) {
        assert p == list[Visit(|list|, c, k - 1)];
      } else {
        forall j: nat | j < k
          ensures p != list[Visit(|list|, c, j)]
        {
          if j < k - 1 { assert !(j < k - 1 && p == list[Visit(|list|, c, j)]); }
        }
      }
    }
  }

  /** A page that is not pinned stops the search in the second sweep at the latest. */
  lemma StopsInTwoSweeps(list: seq<nat>, c: nat, accessed: set<nat>, pinned: set<nat>) returns (k: nat)
    requires |list| >= 2 && c < |list| && HasCandidate(list, pinned)
    ensures k < 2 * (|list| - 1) && Stops(list, c, accessed, pinned, k)
  {
    var n := |list|;
    var i :| 1 <= i < n && list[i] !in pinned;
    var j := SweepVisits(n, c, i);
    k := j + (n - 1);
    SecondSweep(n, c, j);
    VisitedIs(list, c, k, list[i]);
    assert j < k && list[i] == list[Visit(n, c, j)];
  }

  lemma {:induction false} LeastStop(list: seq<nat>, c: nat, accessed: set<nat>, pinned: set<nat>,
                                     k: nat) returns (t: nat)
    requires |list| >= 2 && c < |list| && Stops(list, c, accessed, pinned, k)
    ensures t <= k && EndsAt(list, c, accessed, pinned, t)
  {
    t := 0;
    while !Stops(list, c, accessed, pinned, t)
      invariant t <= k && forall j: nat | j < t :: !Stops(list, c, accessed, pinned, j)
      decreases k - t
    {
      t := t + 1;
    }
  }

  /** The search over two pages or more ends, and then within two sweeps, if and only if some page
      past the head is not pinned. */
  lemma SearchEnds(list: seq<nat>, c: nat, accessed: set<nat>, pinned: set<nat>)
    requires |list| >= 2 && c < |list|
    ensures (exists k: nat :: EndsAt(list, c, accessed, pinned, k)) <==> HasCandidate(list, pinned)
    ensures forall k: nat | EndsAt(list, c, accessed, pinned, k) :: k < 2 * (|list| - 1)
  {
    if HasCandidate(list, pinned) {
      var k := StopsInTwoSweeps(list, c, accessed, pinned);
      var t := LeastStop(list, c, accessed, pinned, k);
      assert EndsAt(list, c, accessed, pinned, t);
      forall k': nat | EndsAt(list, c, accessed, pinned, k')
        ensures k' < 2 * (|list| - 1)
      {
        assert k' <= k;
      }
    } else {
      forall k: nat
        ensures !Stops(list, c, accessed, pinned, k)
      {
        assert list[Visit(|list|, c, k)] in pinned;
      }
    }
  }

  /** With only the head unpinned the search goes round for ever: here two pages, the second pinned. */
  lemma HeadUnpinnedExample()
    ensures 7 !in {8} && forall k: nat :: !EndsAt([7, 8], 0, {}, {8}, k)
  {
    forall k: nat
      ensures !Stops([7, 8], 0, {}, {8}, k)
    {
      assert [7, 8][Visit(2, 0, k)] == 8;
    }
  }

  // ---------------------------------------------------------------
  // get_next_lru_clock calls itself
  // ---------------------------------------------------------------

  /** The hand that n activations of get_next_lru_clock leave, each called by the one before. */
  ghost function HandAfter(list: seq<nat>, hand: Hand, n: nat): (h: Hand)
    requires list != [] && HandOk(list, hand)
    ensures HandOk(list, h)
  {
    if n == 0 then hand else Activation(list, HandAfter(list, hand, n - 1)).0
  }

  /** The (n+1)-th activation is the first that returns. */
  ghost predicate ReturnsAt(list: seq<nat>, hand: Hand, n: nat)
    requires list != [] && HandOk(list, hand)
  {
    && Activation(list, HandAfter(list, hand, n)).1
    && forall m: nat | m < n :: !Activation(list, HandAfter(list, hand, m)).1
  }

  /** A call of get_next_lru_clock returns, and then in its first or second activation, if and
      only if more than one page is listed. With a single page no activation returns, however deep
      the calls have gone: the stack overflows. */
  lemma ReturnsIff(list: seq<nat>, hand: Hand)
    requires list != [] && HandOk(list, hand)
    ensures |list| == 1 ==> forall n: nat :: !Activation(list, HandAfter(list, hand, n)).1
    ensures |list| >= 2 ==> ReturnsAt(list, hand, 0) || ReturnsAt(list, hand, 1)
    ensures (exists n: nat :: ReturnsAt(list, hand, n)) <==> |list| >= 2
  {
    if |list| >= 2 {
      assert HandAfter(list, hand, 1) == Activation(list, HandAfter(list, hand, 0)).0;
      assert IndexOf(list, list[0]) == 0;
    }
  }

  /** Second chance: a page is taken in the first sweep if it is neither pinned nor accessed, and
      then it is the first such page in clock order; only when every unpinned page was accessed is
      the first unpinned page in clock order taken, after all the bits have been cleared. */
  lemma SecondChance(list: seq<nat>, c: nat, accessed: set<nat>, pinned: set<nat>, k: nat)
    requires |list| >= 2 && c < |list| && NoRepeats(list) && EndsAt(list, c, accessed, pinned, k)
    ensures var n, p := |list|, list[Visit(|list|, c, k)];
            && p !in pinned && p in list[1..]
            && (k < n - 1 ==> p !in accessed && forall j: nat | j < k :: list[Visit(n, c, j)] in accessed + pinned)
            && (k >= n - 1 ==>
                 && (forall i | 1 <= i < n :: list[i] in accessed + pinned && list[i] in Visited(list, c, k))
                 && forall j: nat | j < k - (n - 1) :: list[Visit(n, c, j)] in pinned)
  {
    hide Visit, Visited;
    assert list[Visit(|list|, c, k)] == list[1..][Visit(|list|, c, k) - 1];
    if k < |list| - 1 {
      FreshInFirstSweep(list, c, k);
      FirstSweepSkips(list, c, accessed, pinned, k, k);
    } else {
      FirstSweepSkips(list, c, accessed, pinned, k, |list| - 1);
      forall i | 1 <= i < |list|
        ensures list[i] in accessed + pinned && list[i] in Visited(list, c, k)
      {
        var j := SweepVisits(|list|, c, i);
        VisitedIs(list, c, k, list[i]);
      }
      SecondSweepSkips(list, c, accessed, pinned, k);
    }
  }

  /** What the first sweep passes over is pinned or was accessed. */
  lemma FirstSweepSkips(list: seq<nat>, c: nat, accessed: set<nat>, pinned: set<nat>, k: nat, m: nat)
    requires |list| >= 2 && c < |list| && NoRepeats(list) && EndsAt(list, c, accessed, pinned, k)
    requires m <= k && m <= |list| - 1
    ensures forall j: nat | j < m :: list[Visit(|list|, c, j)] in accessed + pinned
  {
    hide Visit, Visited;
    forall j: nat | j < m
      ensures list[Visit(|list|, c, j)] in accessed + pinned
    {
      FreshInFirstSweep(list, c, j);
      assert !Stops(list, c, accessed, pinned, j);
    }
  }

  /** What the second sweep passes over is pinned. */
  lemma SecondSweepSkips(list: seq<nat>, c: nat, accessed: set<nat>, pinned: set<nat>, k: nat)
    requires |list| >= 2 && c < |list| && EndsAt(list, c, accessed, pinned, k)
    ensures forall j: nat | j < k - (|list| - 1) :: list[Visit(|list|, c, j)] in pinned
  {
    hide Visit, Visited;
    forall j: nat | j < k - (|list| - 1)
      ensures list[Visit(|list|, c, j)] in pinned
    {
      SecondSweep(|list|, c, j);
      VisitedIs(list, c, j + (|list| - 1), list[Visit(|list|, c, j)]);
      assert !Stops(list, c, accessed, pinned, j + (|list| - 1));
    }
  }

  lemma FreshInFirstSweep(list: seq<nat>, c: nat, k: nat)
    requires |list| >= 2 && c < |list| && NoRepeats(list) && k < |list| - 1
    ensures list[Visit(|list|, c, k)] !in Visited(list, c, k)
  {
    VisitedIs(list, c, k, list[Visit(|list|, c, k)]);
    forall j: nat | j < k
      ensures list[Visit(|list|, c, j)] != list[Visit(|list|, c, k)]
    {
      VisitsDiffer(|list|, c, j, k);
    }
  }
}
