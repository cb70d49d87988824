/** The request handlers of src/typescript/main.ts that carry logic: start-up
    argument selection (`processFlags`, lines 23-43), batch page extraction
    (`requestPagesPort`, lines 78-133) and the metadata request with its
    history upsert (`requestMetadataPort`, lines 135-192).

    Each handler returns the response messages it sends, in order. Reading
    the archive file and loading it as a zip is one `open` outcome; the clock
    is the `now` parameter; base64 encoding is the `base64` parameter. */
module Bridge {
  import opened Outcomes
  import opened HistoryQuery
  import HistoryListing
  import opened HistoryTable
  import opened HistoryStore
  import opened Archive

  /** A settled `getStats` promise. */
  datatype Stat = Rejected | Fulfilled(isDirectory: bool)

  /** The `flags` handed to the front end. */
  datatype Flags = HomeScreen | ReadScreen(payload: string)

  predicate Readable(s: Stat) {
    s.Fulfilled? && !s.isDirectory
  }

  /** `processFlags` (main.ts:23-43). `args` is `NL_ARGS`; `stats[i]` is the
      settled stat of `args[i + 1]`. The first argument that is an existing
      non-directory is opened, otherwise the home screen is shown. */
  method ProcessFlags(args: seq<string>, stats: seq<Stat>) returns (flags: Flags)
    requires |args| == 0 ==> |stats| == 0
    requires |args| > 0 ==> |stats| == |args| - 1
    ensures flags.ReadScreen? <==> exists i :: 0 <= i < |stats| && Readable(stats[i])
    ensures flags.ReadScreen? ==> exists i :: (0 <= i < |stats| && Readable(stats[i])
      && flags.payload == args[i + 1] && forall j :: 0 <= j < i ==> !Readable(stats[j]))
  {
    for i := 0 to |stats|
      invariant forall j :: 0 <= j < i ==> !Readable(stats[j])
    {
      if stats[i].Rejected? || stats[i].isDirectory {
        continue;
      }
      return ReadScreen(args[i + 1]);
    }
    return HomeScreen;
  }

  /** One message on `onPageResultPort`. */
  datatype PageResult =
    | PageLoaded(page: string, data: string)
    | PageFailed(code: string, message: string, page: string)

  /** The message of a page missing from the archive, as written (main.ts:96). */
  function NotFoundMessage(page: string, path: string): string {
    "Page \"" + page + "\" was not found the the archive. Archive path: " + path
  }

  /** `requestPagesPort` (main.ts:78-133). One result per requested page, in
      request order. With an open container: a missing page fails with
      `PAGE_NOT_FOUND`, a page whose bytes fail to decode fails with that
      error, any other page is served as a data URI, and the loop goes on
      after every failure. When the container cannot be opened, every page
      from index 0 on fails with the opening error. */
  method RequestPages(path: string, pages: seq<string>, open: Result<Container, Thrown>, base64: seq<byte> -> string)
    returns (results: seq<PageResult>)
    ensures |results| == |pages|
    ensures forall i :: 0 <= i < |pages| ==> results[i].page == pages[i]
    ensures open.Failure? ==> forall i :: 0 <= i < |pages| ==>
      results[i] == PageFailed(Report(open.error).code, Report(open.error).message, pages[i])
    ensures open.Success? ==> forall i :: 0 <= i < |pages| ==>
      var file := FileAt(open.value, pages[i]);
      && (file.None? ==> results[i] == PageFailed("PAGE_NOT_FOUND", NotFoundMessage(pages[i], path), pages[i]))
      && (file.Some? && file.value.Failure? ==>
            results[i] == PageFailed(Report(file.value.error).code, Report(file.value.error).message, pages[i]))
      && (file.Some? && file.value.Success? ==>
            results[i] == PageLoaded(pages[i], DataUri(pages[i], base64(file.value.value))))
  {
    results := [];
    var pageIndex := 0;
    if open.Success? {
      var reader := open.value;
      while pageIndex < |pages|
        invariant 0 <= pageIndex <= |pages|
        invariant |results| == pageIndex
        invariant forall i :: 0 <= i < pageIndex ==>
          var file := FileAt(reader, pages[i]);
          && (file.None? ==> results[i] == PageFailed("PAGE_NOT_FOUND", NotFoundMessage(pages[i], path), pages[i]))
          && (file.Some? && file.value.Failure? ==>
                results[i] == PageFailed(Report(file.value.error).code, Report(file.value.error).message, pages[i]))
          && (file.Some? && file.value.Success? ==>
                results[i] == PageLoaded(pages[i], DataUri(pages[i], base64(file.value.value))))
      {
        var page := pages[pageIndex];
        var ext := PageExtension(page);
        var entry := FileAt(reader, page);
        if entry.None? {
          results := results + [PageFailed("PAGE_NOT_FOUND", NotFoundMessage(page, path), page)];
        } else if entry.value.Failure? {
          var body := Report(entry.value.error);
          results := results + [PageFailed(body.code, body.message, page)];
        } else {
          results := results + [PageLoaded(page, "data:image/" + MimeText(ext) + ";base64," + base64(entry.value.value))];
        }
        pageIndex := pageIndex + 1;
      }
    } else {
      var body := Report(open.error);
      while pageIndex < |pages|
        invariant 0 <= pageIndex <= |pages|
        invariant |results| == pageIndex
        invariant forall i :: 0 <= i < pageIndex ==> results[i] == PageFailed(body.code, body.message, pages[i])
      {
        results := results + [PageFailed(body.code, body.message, pages[pageIndex])];
        pageIndex := pageIndex + 1;
      }
    }
  }

  /** `meta.author` of `metadata.json`: a list of names, a single string, or absent. */
  datatype Author = NoAuthor | AuthorList(names: seq<string>) | AuthorText(text: string)

  /** The part of `metadata.json` the handler reads. */
  datatype Metadata = Metadata(title: Option<string>, author: Author)

  /** `names.join(separator)`. */
  function Join(names: seq<string>, separator: string): string
    decreases |names|
  {
    if |names| == 0 then ""
    else if |names| == 1 then names[0]
    else Join(names[..|names| - 1], separator) + separator + names[|names| - 1]
  }

  /** `meta?.author?.join?.(', ') ?? meta?.author`. */
  function AuthorOf(meta: Option<Metadata>): Option<string> {
    if meta.None? then None
    else
      match meta.value.author
      case NoAuthor => None
      case AuthorList(names) => Some(Join(names, ", "))
      case AuthorText(text) => Some(text)
  }

  /** `pages[0]`. */
  function First(pages: seq<string>): Option<string> {
    if |pages| > 0 then Some(pages[0]) else None
  }

  /** The payload of a successful metadata response. */
  datatype MetadataPayload = MetadataPayload(
    pages: seq<string>,
    path: string,
    lastPageRead: Option<string>,
    thumbnail: Option<string>,
    info: Option<Metadata>)

  /** One message on `onMetadataResultPort`. */
  datatype MetadataResponse = MetadataLoaded(payload: MetadataPayload) | MetadataFailed(error: ErrorBody)

  /** The entry the handler adds for an archive read for the first time
      (main.ts:174-181): its first page doubles as the thumbnail. */
  function FirstVisit(path: string, pages: seq<string>, meta: Option<Metadata>, now: int): HistoryEntry {
    HistoryEntry(path, First(pages), now, First(pages), if meta.Some? then meta.value.title else None, AuthorOf(meta))
  }

  /** The upsert after a successful metadata response (main.ts:171-182):
      the entry found by path gets the current date, otherwise a first-visit
      entry is added. */
  function Upsert(t: Table, hist: Option<HistoryEntry>, path: string, pages: seq<string>,
                  meta: Option<Metadata>, now: int): Result<Table, Thrown>
    requires t.Valid()
  {
    if hist.Some? then HistoryTable.Update(t, WholeEntry(hist.value.(date := now)), None)
    else HistoryTable.Add(t, FirstVisit(path, pages, meta, now))
  }

  /** On a store whose entries sit under their own paths, the upsert the
      metadata handler performs never fails: a known archive keeps its place
      and everything but its date, an unknown one is appended as a first
      visit, and no other entry changes. */
  lemma {:induction false} UpsertKeyed(host: Host, t: Table, path: string, pages: seq<string>,
                                       meta: Option<Metadata>, now: int)
    requires t.Valid() && Keyed(t)
    ensures var r := Upsert(t, HistoryListing.FindIn(host, t.Values(), path), path, pages, meta, now);
      && r.Success?
      && Keyed(r.value)
      && (path in t.byPath ==> r.value.keys == t.keys
                                && r.value.byPath == t.byPath[path := t.byPath[path].(date := now)])
      && (path !in t.byPath ==> r.value.keys == t.keys + [path]
                                 && r.value.byPath == t.byPath[path := FirstVisit(path, pages, meta, now)])
  {
  }

  /** The success payload (main.ts:160-169): the last page read comes from
      the history entry, and a missing thumbnail falls back to the first page. */
  function Payload(pages: seq<string>, thumbnail: Option<string>, path: string,
                   hist: Option<HistoryEntry>, info: Option<Metadata>): MetadataPayload {
    MetadataPayload(pages, path, if hist.Some? then hist.value.page else None,
                    if thumbnail.Some? then thumbnail else First(pages), info)
  }

  /** The upsert as the handler performs it (main.ts:171-182): through
      `History`, so anonymous mode drops it. */
  method RecordVisit(history: History, hist: Option<HistoryEntry>, path: string, pages: seq<string>,
                     meta: Option<Metadata>, now: int)
    returns (r: Outcome)
    requires history.Valid()
    modifies history.Base()
    ensures history.Valid()
    ensures history.storage.Anonymous? ==> r == Done && unchanged(history.Base())
    ensures history.storage.Plain? ==>
      var res := Upsert(old(history.Base().Contents()), hist, path, pages, meta, now);
      && (r.Threw? <==> res.Failure?)
      && (res.Failure? ==> r.error == res.error && history.Base().Contents() == old(history.Base().Contents()))
      && (res.Success? ==> history.Base().Contents() == res.value)
      && history.Base().persisted == (if res.Success? then res.value.Values() else old(history.Base().persisted))
  {
    if hist.Some? {
      r := history.Update(WholeEntry(hist.value.(date := now)), None);
    } else {
      r := history.Add(FirstVisit(path, pages, meta, now));
    }
  }

  /** `requestMetadataPort` (main.ts:135-192). `open` is reading and loading
      the archive; `meta` is reading and parsing `metadata.json` (absent:
      `Success(None)`). A failure of either is reported and history is not
      touched. Otherwise the success response goes out first, then the entry
      found by path gets the current date, or a new entry is added; a throw
      there is reported in a second response. */
  method RequestMetadata(history: History, host: Host, path: string, open: Result<Container, Thrown>,
                         meta: Result<Option<Metadata>, Thrown>, now: int)
    returns (responses: seq<MetadataResponse>)
    requires history.Valid()
    modifies history.Base()
    ensures history.Valid()
    ensures open.Failure? ==> responses == [MetadataFailed(Report(open.error))] && unchanged(history.Base())
    ensures open.Success? && meta.Failure? ==>
      responses == [MetadataFailed(Report(meta.error))] && unchanged(history.Base())
    ensures open.Success? && meta.Success? ==>
      var listing := open.value.listing;
      var pages := Pages(listing);
      var hist := HistoryListing.FindIn(host, old(history.Base().Contents().Values()), path);
      var payload := Payload(pages, LastThumbnail(listing), path, hist, meta.value);
      && |responses| >= 1
      && responses[0] == MetadataLoaded(payload)
      && (history.storage.Anonymous? ==> responses == [MetadataLoaded(payload)] && unchanged(history.Base()))
      && (history.storage.Plain? ==>
            var res := Upsert(old(history.Base().Contents()), hist, path, pages, meta.value, now);
            && history.Base().Contents() == (if res.Success? then res.value else old(history.Base().Contents()))
            && history.Base().persisted == (if res.Success? then res.value.Values() else old(history.Base().persisted))
            && responses == [MetadataLoaded(payload)] + (if res.Failure? then [MetadataFailed(Report(res.error))] else []))
  {
    if open.Failure? {
      return [MetadataFailed(Report(open.error))];
    }
    var reader := open.value;
    var pages, thumbnail := Classify(reader.listing);
    if meta.Failure? {
      return [MetadataFailed(Report(meta.error))];
    }
    ghost var before := history.Base().Contents();
    var hist := history.FindByPath(host, path);
    assert hist == HistoryListing.FindIn(host, before.Values(), path);
    responses := [MetadataLoaded(Payload(pages, thumbnail, path, hist, meta.value))];
    var r := RecordVisit(history, hist, path, pages, meta.value, now);
    if r.Threw? {
      responses := responses + [MetadataFailed(Report(r.error))];
    }
  }
}
