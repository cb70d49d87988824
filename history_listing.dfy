/** `NeutralinoStorage.list` as a function of the stored values
    (src/typescript/history.ts:164-179) and the lookup `History.findByPath`
    builds on it (src/typescript/history.ts:280-290). */
module HistoryListing {
  import opened Outcomes
  import opened HistoryQuery
  import opened HistorySort

  /** `entries.filter(pred)` for the predicate of `optionsToPredicate`. */
  function KeepAccepted(host: Host, checks: seq<Check>, s: seq<HistoryEntry>): seq<HistoryEntry>
    decreases |s|
  {
    if |s| == 0 then []
    else
      KeepAccepted(host, checks, s[..|s| - 1])
      + (if Accepts(host, checks, s[|s| - 1]) then [s[|s| - 1]] else [])
  }

  /** The number of times `e` occurs in the filtered sequence. */
  lemma {:induction false} KeepCounts(host: Host, checks: seq<Check>, s: seq<HistoryEntry>, e: HistoryEntry)
    ensures multiset(KeepAccepted(host, checks, s))[e]
         == if Accepts(host, checks, e) then multiset(s)[e] else 0
    decreases |s|
  {
    if |s| > 0 {
      KeepCounts(host, checks, s[..|s| - 1], e);
      assert s == s[..|s| - 1] + [s[|s| - 1]];
    }
  }

  lemma {:induction false} KeepSorted(order: Order, host: Host, checks: seq<Check>, s: seq<HistoryEntry>)
    requires Sorted(order, s)
    ensures Sorted(order, KeepAccepted(host, checks, s))
    decreases |s|
  {
    if |s| > 0 {
      var init, last := s[..|s| - 1], s[|s| - 1];
      KeepSorted(order, host, checks, init);
      var k := KeepAccepted(host, checks, init);
      if Accepts(host, checks, last) {
        forall i | 0 <= i < |k| ensures InOrder(order, k[i], last) {
          KeepCounts(host, checks, init, k[i]);
          assert k[i] in multiset(k);
          assert k[i] in multiset(init);
          var m :| 0 <= m < |init| && init[m] == k[i];
          assert s[m] == k[i];
        }
        forall i, j | 0 <= i < j < |k + [last]| ensures InOrder(order, (k + [last])[i], (k + [last])[j]) {
          if j == |k| {
            assert (k + [last])[i] == k[i];
          }
        }
      }
    }
  }

  lemma KeepAppend(host: Host, checks: seq<Check>, s: seq<HistoryEntry>, y: HistoryEntry)
    ensures KeepAccepted(host, checks, s + [y])
         == KeepAccepted(host, checks, s) + (if Accepts(host, checks, y) then [y] else [])
  {
    assert (s + [y])[..|s|] == s;
  }

  /** Filtering keeps the relative order of the entries of each date. */
  lemma {:induction false} KeepDated(host: Host, checks: seq<Check>, s: seq<HistoryEntry>, d: int)
    ensures DatedOn(KeepAccepted(host, checks, s), d) == KeepAccepted(host, checks, DatedOn(s, d))
    decreases |s|
  {
    if |s| > 0 {
      var init, last := s[..|s| - 1], s[|s| - 1];
      assert s == init + [last];
      KeepDated(host, checks, init, d);
      var k := KeepAccepted(host, checks, init);
      var dated := DatedOn(init, d);
      var kept := if Accepts(host, checks, last) then [last] else [];
      KeepAppend(host, checks, init, last);
      DatedOnAppend(init, last, d);
      if Accepts(host, checks, last) {
        DatedOnAppend(k, last, d);
      } else {
        assert k + kept == k;
      }
      if last.date == d {
        KeepAppend(host, checks, dated, last);
      } else {
        assert dated + [] == dated;
      }
    }
  }

  /** The order `list` sorts by: `newer` unless `order === 'older'`. */
  function OrderOf(options: Option<ListOptions>): Order {
    if options.Some? && options.value.order == Some(Older) then Older else Newer
  }

  /** `list(options)` over the stored values in map order: sort, then, when
      options are given, keep the entries accepted by every check. */
  function Listed(host: Host, values: seq<HistoryEntry>, options: Option<ListOptions>): (r: Result<seq<HistoryEntry>, Thrown>)
    ensures r.Failure? <==> options.Some? && AnyMisused(options.value)
  {
    var sorted := SortByDate(OrderOf(options), values);
    if options.None? then Success(sorted)
    else
      var checks :- CompileOptions(host, options.value);
      Success(KeepAccepted(host, checks, sorted))
  }

  /** Without options, `list` returns every stored entry exactly as often as
      it is stored, newest first, equal dates in map order. */
  lemma ListedAll(host: Host, values: seq<HistoryEntry>)
    ensures Listed(host, values, None).Success?
    ensures var t := Listed(host, values, None).value;
      && multiset(t) == multiset(values)
      && Sorted(Newer, t)
      && forall d :: DatedOn(t, d) == DatedOn(values, d)
  {
    SortPermutes(Newer, values);
    SortSorted(Newer, values);
    forall d ensures DatedOn(SortByDate(Newer, values), d) == DatedOn(values, d) {
      SortStable(Newer, values, d);
    }
  }

  /** With options, `list` fails exactly when a text filter cannot be compiled;
      otherwise it returns, in the requested date order, exactly the stored
      entries the query wants, each as often as it is stored. */
  lemma ListedFiltered(host: Host, values: seq<HistoryEntry>, o: ListOptions)
    ensures Listed(host, values, Some(o)).Failure? <==> AnyMisused(o)
    ensures !AnyMisused(o) ==>
      var t := Listed(host, values, Some(o)).value;
      && Sorted(OrderOf(Some(o)), t)
      && (forall e :: e in t <==> e in values && Wanted(host, o, e))
      && (forall e :: multiset(t)[e] == if Wanted(host, o, e) then multiset(values)[e] else 0)
      && (forall d :: DatedOn(t, d) == KeepAccepted(host, CompileOptions(host, o).value, DatedOn(values, d)))
  {
    if !AnyMisused(o) {
      var order := OrderOf(Some(o));
      var checks := CompileOptions(host, o).value;
      var sorted := SortByDate(order, values);
      var t := KeepAccepted(host, checks, sorted);
      SortSorted(order, values);
      SortPermutes(order, values);
      KeepSorted(order, host, checks, sorted);
      forall e ensures multiset(t)[e] == if Wanted(host, o, e) then multiset(values)[e] else 0 {
        KeepCounts(host, checks, sorted, e);
        CompiledOptionsMeaning(host, o, e);
      }
      forall e ensures e in t <==> e in values && Wanted(host, o, e) {
        assert e in t <==> multiset(t)[e] > 0;
        assert e in values <==> multiset(values)[e] > 0;
      }
      forall d ensures DatedOn(t, d) == KeepAccepted(host, checks, DatedOn(values, d)) {
        KeepDated(host, checks, sorted, d);
        SortStable(order, values, d);
      }
    }
  }

  /** The query of `findByPath`: an exact, case-sensitive match on `path`. */
  function ExactPath(path: string): ListOptions {
    ListOptions(None, None, None, None, Some(TextFilter(Literal(path), Equals, true)), None)
  }

  /** The exact-path listing succeeds, is newest first and holds exactly
      the stored entries with that path. */
  lemma ExactListing(host: Host, values: seq<HistoryEntry>, path: string)
    ensures Listed(host, values, Some(ExactPath(path))).Success?
    ensures var t := Listed(host, values, Some(ExactPath(path))).value;
      && Sorted(Newer, t)
      && forall e :: e in t <==> e in values && e.path == path
  {
    ListedFiltered(host, values, ExactPath(path));
    assert forall e :: Wanted(host, ExactPath(path), e) <==> e.path == path;
  }

  /** `findByPath(path)`: `hists[0]` of the exact-path listing. It finds an
      entry exactly when some stored entry has that path, and then one of
      them with the latest date. */
  function FindIn(host: Host, values: seq<HistoryEntry>, path: string): (r: Option<HistoryEntry>)
    ensures r.Some? <==> exists e :: e in values && e.path == path
    ensures r.Some? ==> r.value in values && r.value.path == path
    ensures r.Some? ==> forall e :: e in values && e.path == path ==> e.date <= r.value.date
  {
    ExactListing(host, values, path);
    var t := Listed(host, values, Some(ExactPath(path))).value;
    if |t| > 0 then
      assert t[0] in t;
      assert forall e :: e in t ==> InOrder(Newer, t[0], e) by {
        forall e | e in t ensures InOrder(Newer, t[0], e) {
          var k :| 0 <= k < |t| && t[k] == e;
          if k > 0 { assert Sorted(Newer, t); }
        }
      }
      Some(t[0])
    else
      None
  }
}
