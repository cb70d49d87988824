/** History entries and the filters of a history query: the text predicates
    built by `textOperationToPredicate` and the conjunction built by
    `optionsToPredicate` (src/typescript/history.ts:1-110).

    A predicate closure is represented by a first-order description of it
    (`Matcher`, `Check`) together with the function that applies it. */
module HistoryQuery {
  import opened Outcomes
  import Text

  /** One reading position. `page` and `thumbnail` are optional because the
      metadata handler stores `pages[0]`, which is `undefined` for an archive
      without pages. `date` is epoch milliseconds. */
  datatype HistoryEntry = HistoryEntry(
    path: string,
    page: Option<string>,
    date: int,
    thumbnail: Option<string>,
    title: Option<string>,
    author: Option<string>)

  datatype TextOperation = StartsWith | Contains | EndsWith | Equals | Regex

  /** `string | RegExp`; a `RegExp` object is seen through its source text. */
  datatype FilterValue = Literal(text: string) | RegExpObject(source: string)

  /** A `TextFilter`; an absent `sensitive` flag is `false`. */
  datatype TextFilter = TextFilter(value: FilterValue, operation: TextOperation, sensitive: bool)

  datatype Order = Newer | Older

  /** `IHistoryListOptions` with `period` flattened into `from` and `to`
      (a `Date` bound is given by its `getTime()`). */
  datatype ListOptions = ListOptions(
    order: Option<Order>,
    from: Option<int>,
    to: Option<int>,
    title: Option<TextFilter>,
    path: Option<TextFilter>,
    author: Option<TextFilter>)

  /** The host functions the filters call but whose semantics lie outside the
      model: `String.prototype.toLocaleLowerCase`, and `RegExp.prototype.test`
      for a pattern source compiled with or without the `i` flag. */
  datatype Host = Host(lowerCase: string -> string, regexTest: (string, bool, string) -> bool)

  /** The closure `textOperationToPredicate` returns. For `MatchText`, `needle`
      is the pattern after the optional case folding. */
  datatype Matcher =
    | MatchRegex(source: string, ignoreCase: bool)
    | MatchText(operation: TextOperation, needle: string, sensitive: bool)

  function SourceOf(v: FilterValue): string {
    match v
    case Literal(text) => text
    case RegExpObject(source) => source
  }

  /** A filter that `textOperationToPredicate` rejects: a `RegExp` value with
      an operation other than `regex`. */
  predicate Misused(f: TextFilter) {
    f.operation != Regex && f.value.RegExpObject?
  }

  /** Case folding as the filter applies it to both pattern and candidate. */
  function Fold(host: Host, sensitive: bool, s: string): string {
    if sensitive then s else host.lowerCase(s)
  }

  /** `textOperationToPredicate` (history.ts:43-75). */
  function CompileText(host: Host, f: TextFilter): (r: Result<Matcher, Thrown>)
    ensures r.Failure? <==> Misused(f)
    ensures r.Failure? ==> r.error == PlainError
    ensures r.Success? && r.value.MatchText? ==>
      r.value.operation == f.operation != Regex && r.value.sensitive == f.sensitive
  {
    if f.operation == Regex then
      Success(MatchRegex(SourceOf(f.value), !f.sensitive))
    else if f.value.RegExpObject? then
      Failure(PlainError)
    else
      Success(MatchText(f.operation, Fold(host, f.sensitive, f.value.text), f.sensitive))
  }

  /** Applying the closure to a candidate string. */
  predicate Test(host: Host, m: Matcher, v: string) {
    match m
    case MatchRegex(source, ignoreCase) => host.regexTest(source, ignoreCase, v)
    case MatchText(op, needle, sensitive) =>
      var candidate := Fold(host, sensitive, v);
      match op
      case Contains => Text.Includes(candidate, needle)
      case StartsWith => Text.StartsWith(candidate, needle)
      case EndsWith => Text.EndsWith(candidate, needle)
      case Equals => candidate == needle
      case Regex => false
  }

  /** What a well-formed text filter means, stated independently of the
      string search: comparisons on the folded pattern and candidate. */
  ghost predicate FilterHolds(host: Host, f: TextFilter, v: string)
    requires !Misused(f)
  {
    var pattern := Fold(host, f.sensitive, SourceOf(f.value));
    var candidate := Fold(host, f.sensitive, v);
    match f.operation
    case Regex => host.regexTest(SourceOf(f.value), !f.sensitive, v)
    case Contains => exists i :: Text.OccursAt(candidate, pattern, i)
    case StartsWith => Text.IsPrefix(pattern, candidate)
    case EndsWith => Text.IsSuffix(pattern, candidate)
    case Equals => candidate == pattern
  }

  /** The compiled predicate accepts exactly what the filter means. */
  lemma CompiledTextMeaning(host: Host, f: TextFilter, v: string)
    requires !Misused(f)
    ensures CompileText(host, f).Success?
    ensures Test(host, CompileText(host, f).value, v) <==> FilterHolds(host, f, v)
  {
    var pattern := Fold(host, f.sensitive, SourceOf(f.value));
    var candidate := Fold(host, f.sensitive, v);
    match f.operation
    case Regex =>
    case Contains => Text.IncludesIffOccurs(candidate, pattern);
    case StartsWith => Text.StartsWithIsPrefix(candidate, pattern);
    case EndsWith => Text.EndsWithIsSuffix(candidate, pattern);
    case Equals =>
  }

  /** One element of the `predicates` array of `optionsToPredicate`. */
  datatype Check =
    | NotBefore(from: int)
    | NotAfter(to: int)
    | AuthorMatches(m: Matcher)
    | TitleMatches(m: Matcher)
    | PathMatches(m: Matcher)

  predicate Holds(host: Host, c: Check, e: HistoryEntry) {
    match c
    case NotBefore(from) => e.date >= from
    case NotAfter(to) => e.date <= to
    case AuthorMatches(m) => Test(host, m, e.author.GetOr(""))
    case TitleMatches(m) => Test(host, m, e.title.GetOr(""))
    case PathMatches(m) => Test(host, m, e.path)
  }

  /** `predicates.every(p => p(entry))`. */
  predicate Accepts(host: Host, checks: seq<Check>, e: HistoryEntry) {
    forall i :: 0 <= i < |checks| ==> Holds(host, checks[i], e)
  }

  function CompileField(host: Host, f: Option<TextFilter>): (r: Result<Option<Matcher>, Thrown>)
    ensures r.Failure? <==> f.Some? && Misused(f.value)
    ensures r.Success? ==> (r.value.Some? <==> f.Some?)
    ensures r.Success? && f.Some? ==> r.value.value == CompileText(host, f.value).value
  {
    if f.None? then Success(None)
    else
      var m :- CompileText(host, f.value);
      Success(Some(m))
  }

  predicate AnyMisused(o: ListOptions) {
    || (o.author.Some? && Misused(o.author.value))
    || (o.title.Some? && Misused(o.title.value))
    || (o.path.Some? && Misused(o.path.value))
  }

  /** `optionsToPredicate` (history.ts:77-110): the checks in the order they
      are pushed (from, to, author, title, path), or the error of the first
      text filter that cannot be compiled. */
  function CompileOptions(host: Host, o: ListOptions): (r: Result<seq<Check>, Thrown>)
    ensures r.Failure? <==> AnyMisused(o)
    ensures r.Failure? ==> r.error == PlainError
  {
    var author :- CompileField(host, o.author);
    var title :- CompileField(host, o.title);
    var path :- CompileField(host, o.path);
    Success(
      (if o.from.Some? then [NotBefore(o.from.value)] else [])
      + (if o.to.Some? then [NotAfter(o.to.value)] else [])
      + (if author.Some? then [AuthorMatches(author.value)] else [])
      + (if title.Some? then [TitleMatches(title.value)] else [])
      + (if path.Some? then [PathMatches(path.value)] else []))
  }

  /** What a query asks of an entry: every bound and filter that is present,
      with both date bounds inclusive and a missing title or author read as
      the empty string. */
  ghost predicate Wanted(host: Host, o: ListOptions, e: HistoryEntry)
    requires !AnyMisused(o)
  {
    && (o.from.Some? ==> e.date >= o.from.value)
    && (o.to.Some? ==> e.date <= o.to.value)
    && (o.author.Some? ==> FilterHolds(host, o.author.value, e.author.GetOr("")))
    && (o.title.Some? ==> FilterHolds(host, o.title.value, e.title.GetOr("")))
    && (o.path.Some? ==> FilterHolds(host, o.path.value, e.path))
  }

  lemma AcceptsAppend(host: Host, a: seq<Check>, b: seq<Check>, e: HistoryEntry)
    ensures Accepts(host, a + b, e) <==> Accepts(host, a, e) && Accepts(host, b, e)
  {
    if Accepts(host, a, e) && Accepts(host, b, e) {
      forall i | 0 <= i < |a + b| ensures Holds(host, (a + b)[i], e) {
        if i >= |a| {
          assert (a + b)[i] == b[i - |a|];
        }
      }
    }
    if Accepts(host, a + b, e) {
      forall i | 0 <= i < |a| ensures Holds(host, a[i], e) {
        assert (a + b)[i] == a[i];
      }
      forall i | 0 <= i < |b| ensures Holds(host, b[i], e) {
        assert (a + b)[|a| + i] == b[i];
      }
    }
  }

  lemma AcceptsSingle(host: Host, c: Check, e: HistoryEntry)
    ensures Accepts(host, [c], e) <==> Holds(host, c, e)
  {
    assert [c][0] == c;
  }

  /** The conjunction: an entry passes the compiled query exactly when it
      independently satisfies each bound and filter the query holds. */
  lemma CompiledOptionsMeaning(host: Host, o: ListOptions, e: HistoryEntry)
    requires !AnyMisused(o)
    ensures CompileOptions(host, o).Success?
    ensures Accepts(host, CompileOptions(host, o).value, e) <==> Wanted(host, o, e)
  {
    var checks := CompileOptions(host, o).value;
    var c1 := if o.from.Some? then [NotBefore(o.from.value)] else [];
    var c2 := if o.to.Some? then [NotAfter(o.to.value)] else [];
    var c3 := if o.author.Some? then [AuthorMatches(CompileText(host, o.author.value).value)] else [];
    var c4 := if o.title.Some? then [TitleMatches(CompileText(host, o.title.value).value)] else [];
    var c5 := if o.path.Some? then [PathMatches(CompileText(host, o.path.value).value)] else [];
    assert checks == c1 + c2 + c3 + c4 + c5;
    AcceptsAppend(host, c1 + c2 + c3 + c4, c5, e);
    AcceptsAppend(host, c1 + c2 + c3, c4, e);
    AcceptsAppend(host, c1 + c2, c3, e);
    AcceptsAppend(host, c1, c2, e);
    if o.from.Some? {
      AcceptsSingle(host, NotBefore(o.from.value), e);
    }
    if o.to.Some? {
      AcceptsSingle(host, NotAfter(o.to.value), e);
    }
    if o.author.Some? {
      CompiledTextMeaning(host, o.author.value, e.author.GetOr(""));
      AcceptsSingle(host, c3[0], e);
    }
    if o.title.Some? {
      CompiledTextMeaning(host, o.title.value, e.title.GetOr(""));
      AcceptsSingle(host, c4[0], e);
    }
    if o.path.Some? {
      CompiledTextMeaning(host, o.path.value, e.path);
      AcceptsSingle(host, c5[0], e);
    }
  }
}
