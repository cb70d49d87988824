/** The ordering step of `NeutralinoStorage.list` (src/typescript/history.ts:164-171):
    a copy of the stored entries is sorted in place with the comparator
    `b.date - a.date` (newest first) or, for `order === 'older'`,
    `a.date - b.date`. `Array.prototype.sort` is stable, so entries with
    equal dates keep their map order.

    The in-place algorithm is an insertion sort; its result is specified by
    the function `SortByDate`, of which the lemmas below prove that it is
    ordered, a permutation and stable. */
module HistorySort {
  import opened HistoryQuery

  /** `a` may stand before `b`: the comparator does not put `a` after `b`. */
  predicate InOrder(order: Order, a: HistoryEntry, b: HistoryEntry) {
    if order == Older then a.date <= b.date else a.date >= b.date
  }

  ghost predicate Sorted(order: Order, s: seq<HistoryEntry>) {
    forall i, j :: 0 <= i < j < |s| ==> InOrder(order, s[i], s[j])
  }

  /** Insert `x` after every element of `s` that the comparator does not place after it. */
  function Insert(order: Order, s: seq<HistoryEntry>, x: HistoryEntry): seq<HistoryEntry>
    decreases |s|
  {
    if |s| == 0 || InOrder(order, s[|s| - 1], x) then s + [x]
    else Insert(order, s[..|s| - 1], x) + [s[|s| - 1]]
  }

  function SortByDate(order: Order, s: seq<HistoryEntry>): seq<HistoryEntry>
    decreases |s|
  {
    if |s| == 0 then [] else Insert(order, SortByDate(order, s[..|s| - 1]), s[|s| - 1])
  }

  /** The entries of `s` dated `d`, in their order in `s`. */
  function DatedOn(s: seq<HistoryEntry>, d: int): seq<HistoryEntry>
    decreases |s|
  {
    if |s| == 0 then []
    else DatedOn(s[..|s| - 1], d) + (if s[|s| - 1].date == d then [s[|s| - 1]] else [])
  }

  lemma {:induction false} InsertPermutes(order: Order, s: seq<HistoryEntry>, x: HistoryEntry)
    ensures multiset(Insert(order, s, x)) == multiset(s) + multiset{x}
    decreases |s|
  {
    if |s| > 0 && !InOrder(order, s[|s| - 1], x) {
      var init, last := s[..|s| - 1], s[|s| - 1];
      InsertPermutes(order, init, x);
      assert s == init + [last];
    }
  }

  lemma {:induction false} InsertLength(order: Order, s: seq<HistoryEntry>, x: HistoryEntry)
    ensures |Insert(order, s, x)| == |s| + 1
    decreases |s|
  {
    if |s| > 0 && !InOrder(order, s[|s| - 1], x) {
      InsertLength(order, s[..|s| - 1], x);
    }
  }

  /** Sorting only rearranges the entries. */
  lemma {:induction false} SortPermutes(order: Order, s: seq<HistoryEntry>)
    ensures multiset(SortByDate(order, s)) == multiset(s)
    ensures |SortByDate(order, s)| == |s|
    decreases |s|
  {
    if |s| > 0 {
      var init, last := s[..|s| - 1], s[|s| - 1];
      var sortedInit := SortByDate(order, init);
      assert SortByDate(order, s) == Insert(order, sortedInit, last);
      SortPermutes(order, init);
      InsertPermutes(order, sortedInit, last);
      InsertLength(order, sortedInit, last);
      assert s == init + [last];
      assert multiset(s) == multiset(init) + multiset{last};
    }
  }

  lemma {:induction false} InsertSorted(order: Order, s: seq<HistoryEntry>, x: HistoryEntry)
    requires Sorted(order, s)
    ensures Sorted(order, Insert(order, s, x))
    ensures multiset(Insert(order, s, x)) == multiset(s) + multiset{x}
    decreases |s|
  {
    InsertPermutes(order, s, x);
    if |s| > 0 && !InOrder(order, s[|s| - 1], x) {
      var init, last := s[..|s| - 1], s[|s| - 1];
      InsertSorted(order, init, x);
      var r := Insert(order, init, x);
      forall y | y in r ensures InOrder(order, y, last) {
        assert y in multiset(r);
        if y != x {
          assert y in multiset(init);
          var k :| 0 <= k < |init| && init[k] == y;
          assert s[k] == y;
        }
      }
      forall i, j | 0 <= i < j < |r + [last]| ensures InOrder(order, (r + [last])[i], (r + [last])[j]) {
        if j == |r| {
          assert (r + [last])[i] == r[i];
          assert r[i] in r;
        }
      }
    }
  }

  /** The sorted copy is ordered by date, descending for `Newer` and ascending for `Older`. */
  lemma {:induction false} SortSorted(order: Order, s: seq<HistoryEntry>)
    ensures Sorted(order, SortByDate(order, s))
    decreases |s|
  {
    if |s| > 0 {
      SortSorted(order, s[..|s| - 1]);
      InsertSorted(order, SortByDate(order, s[..|s| - 1]), s[|s| - 1]);
    }
  }

  lemma DatedOnAppend(s: seq<HistoryEntry>, y: HistoryEntry, d: int)
    ensures DatedOn(s + [y], d) == DatedOn(s, d) + (if y.date == d then [y] else [])
  {
  }

  lemma {:induction false} InsertKeepsDated(order: Order, s: seq<HistoryEntry>, x: HistoryEntry, d: int)
    ensures DatedOn(Insert(order, s, x), d) == DatedOn(s, d) + (if x.date == d then [x] else [])
    decreases |s|
  {
    if |s| == 0 || InOrder(order, s[|s| - 1], x) {
      DatedOnAppend(s, x, d);
    } else {
      var init, last := s[..|s| - 1], s[|s| - 1];
      var r' := Insert(order, init, x);
      assert Insert(order, s, x) == r' + [last];
      assert s == init + [last];
      InsertKeepsDated(order, init, x, d);
      DatedOnAppend(r', last, d);
      DatedOnAppend(init, last, d);
      assert last.date != x.date;
      if x.date == d {
        assert DatedOn(s, d) == DatedOn(init, d);
      } else {
        assert DatedOn(r', d) == DatedOn(init, d);
      }
    }
  }

  /** Stability: for every date, the entries carrying it appear in the sorted
      copy in the same relative order as in the input. */
  lemma {:induction false} SortStable(order: Order, s: seq<HistoryEntry>, d: int)
    ensures DatedOn(SortByDate(order, s), d) == DatedOn(s, d)
    decreases |s|
  {
    if |s| > 0 {
      SortStable(order, s[..|s| - 1], d);
      InsertKeepsDated(order, SortByDate(order, s[..|s| - 1]), s[|s| - 1], d);
    }
  }

  /** Moving `x` left past the last element of `p[..j]` that the comparator
      places after it. */
  lemma InsertStep(order: Order, p: seq<HistoryEntry>, j: nat, x: HistoryEntry)
    requires 0 < j <= |p| && !InOrder(order, p[j - 1], x)
    ensures Insert(order, p, x) == Insert(order, p[..j], x) + p[j..] ==>
            Insert(order, p, x) == Insert(order, p[..j - 1], x) + p[j - 1..]
  {
    assert p[..j][..j - 1] == p[..j - 1];
    assert p[j - 1..] == [p[j - 1]] + p[j..];
  }

  /** The array after the shift: `x` at `j`, the elements before it where
      they were, the elements from `j` to `i - 1` one place to the right. */
  lemma Shifted(cur: seq<HistoryEntry>, before: seq<HistoryEntry>, i: nat, j: nat, x: HistoryEntry)
    requires j <= i < |cur| == |before|
    requires forall k :: 0 <= k < j ==> cur[k] == before[k]
    requires cur[j] == x
    requires forall k :: j < k <= i ==> cur[k] == before[k - 1]
    requires forall k :: i < k < |cur| ==> cur[k] == before[k]
    ensures cur[..i + 1] == before[..j] + [x] + before[j..i]
    ensures cur[i + 1..] == before[i + 1..]
  {
  }

  /** One step of the insertion sort: `a[..i]` is sorted already and `a[i]`
      moves left past every element the comparator places after it. */
  method InsertInPlace(order: Order, a: array<HistoryEntry>, i: nat)
    requires i < a.Length
    modifies a
    ensures a[..i + 1] == Insert(order, old(a[..i]), old(a[i]))
    ensures a[i + 1..] == old(a[i + 1..])
  {
    var x := a[i];
    ghost var before := a[..];
    ghost var prefix := a[..i];
    var j := i;
    assert prefix[..j] == prefix;
    while j > 0 && !InOrder(order, a[j - 1], x)
      invariant 0 <= j <= i
      invariant forall k :: 0 <= k < j ==> a[k] == before[k]
      invariant forall k :: j < k <= i ==> a[k] == before[k - 1]
      invariant forall k :: i < k < a.Length ==> a[k] == before[k]
      invariant Insert(order, prefix, x) == Insert(order, prefix[..j], x) + prefix[j..]
    {
      InsertStep(order, prefix, j, x);
      a[j] := a[j - 1];
      j := j - 1;
    }
    a[j] := x;
    Shifted(a[..], before, i, j, x);
    assert prefix[..j] == before[..j] && prefix[j..] == before[j..i];
  }

  /** The in-place sort of `list`: afterwards `a` holds `SortByDate` of its old contents. */
  method SortInPlace(order: Order, a: array<HistoryEntry>)
    modifies a
    ensures a[..] == SortByDate(order, old(a[..]))
  {
    ghost var input := a[..];
    var i := 0;
    while i < a.Length
      invariant 0 <= i <= a.Length
      invariant a[..i] == SortByDate(order, input[..i])
      invariant a[i..] == input[i..]
    {
      assert a[i] == input[i];
      InsertInPlace(order, a, i);
      assert input[..i + 1][..i] == input[..i];
      assert a[i + 1..] == input[i + 1..];
      i := i + 1;
    }
    assert input[..a.Length] == input;
  }
}
