# Comic-book reader: history store and archive handlers in Dafny

This project models the core of a desktop comic-book reader. The reader
opens zip archives (`.cbz`) of page images and keeps a reading history.
The model covers two source files:

- `src/typescript/history.ts` is the reading-history store. It holds an
  insertion-ordered map from archive path to `HistoryEntry` and persists its
  values after every change. Listing sorts the entries by date (newer first
  by default) and then keeps the entries that pass every date bound and text
  filter given. Each text filter is starts-with, contains, ends-with, equals
  or regex, and folds case unless `sensitive` is set. An anonymous mode
  wraps the store: adds and updates are dropped, removals and listings pass
  through. `findByPath` is a listing with an exact, case-sensitive path
  filter.
- `src/typescript/main.ts` holds the table from image extension to MIME
  type, the request handlers and the start-up argument check:
  - the batch page handler: one result message per requested page, and a
    failure of one page does not stop the batch;
  - the metadata handler: it classifies the archive's entries into pages
    and a thumbnail, answers, and then upserts the history entry for that
    archive;
  - the start-up argument check: it opens the first argument that is an
    existing file.

Modules:

- `Outcomes` defines `Option`, `Result`, thrown errors, and the
  `{code, message}` body every handler reports.
- `Text` models the JavaScript string primitives the code uses:
  `startsWith`, `endsWith`, `includes`, `lastIndexOf` and `substring`.
- `HistoryQuery` compiles text filters and list options into checks and
  proves what the checks accept.
- `HistorySort` has the date order, a functional stable insertion sort and
  the in-place array sort, which is proved equal to it.
- `HistoryListing` covers `list` and `findByPath` over a sequence of values.
- `HistoryTable` models the path-to-entry `Map` as a value, and what `add`,
  `update`, `remove`, the constructor and persisting do to it.
- `HistoryStore` holds the classes:
  - `NeutralinoStorage`, with the map as mutable fields;
  - `AnonymousStorage`;
  - `History`, whose slot holds either the plain store or the anonymous
    wrapper.
- `Archive` holds the `Images` table, entry classification and data URIs.
- `Bridge` holds `processFlags`, the page handler and the metadata handler.

Dates are integers: the source's `Date | number` bounds are represented by
their millisecond values. The model passes in the parts of the source that
are host services instead of modelling them:

- `toLocaleLowerCase` and `RegExp.prototype.test` are the fields of a
  `Host` value;
- base64 encoding is a function parameter;
- the clock is a `now` parameter;
- reading and unzipping the archive, and reading and parsing
  `metadata.json`, are each given as a `Result` outcome.

The model follows the code as written, including:

- Extensions are matched case-sensitively, so `page01.JPG` is not a page
  (`Archive.UpperCaseExtensionIgnored`).
- The data URI puts `image/` in front of a MIME type that already starts
  with `image/`, so URIs read `data:image/image/jpeg;...`
  (`Archive.ListedPageUri`).
- A page whose extension is missing from the table is not an error. Its
  URI carries the text `undefined`.
- A name that ends in `thumbnail.<ext>` is the thumbnail and is not a page.
  When several names qualify, the last one listed wins.
- A first-visit history entry takes `pages[0]` as its thumbnail, not the
  thumbnail that was found.
- Every history error is the same generic `Error('')`, reported as code
  `Error` with an empty message.
- Refreshing the date on a repeat visit stores the current clock value
  without comparing it to the stored date.

Several definitions are the plain meaning of one expression of the
handlers and have no row of their own; the members with rows state their
consequences:

- `Bridge.Join` and `Bridge.AuthorOf` are `meta?.author?.join?.(', ') ??
  meta?.author` (main.ts:180).
- `Bridge.Payload` is the success payload of the metadata response
  (main.ts:160-169).
- `Bridge.FirstVisit` and `Bridge.Upsert` are the update or add after it
  (main.ts:171-181).
- `Archive.DataUri` is the template literal of a loaded page (main.ts:107).
- `Archive.MimeText` is `Images[ext]` inside that literal, `undefined` for
  a missing key.
- `Outcomes.Report` is the `{code, message}` body of a caught error
  (main.ts:114).
- `HistoryTable.Table.Values` is `[...historyByPath.values()]`
  (history.ts:120).

## Model

| member | source | states |
|---|---|---|
| Text.LastIndexOf | src/typescript/main.ts:144 | the result is -1 or an index of the character, and no later index holds it |
| Text.SubstringFrom | src/typescript/main.ts:88 | JavaScript `substring(start)`: the result is the suffix of the string whose length is the string's length minus `start` clamped to the range from 0 to that length |
| Text.StartsWithIsPrefix | src/typescript/history.ts:60-62 | `startsWith` holds exactly when the pattern is a prefix |
| Text.EndsWithIsSuffix | src/typescript/history.ts:63-65 | `endsWith` holds exactly when the pattern is a suffix |
| Text.IncludesIffOccurs | src/typescript/history.ts:57-59 | `includes` holds exactly when the pattern occurs at some position |
| HistoryQuery.CompileText | src/typescript/history.ts:43-75 | compiling throws the generic error exactly when a non-regex filter has a RegExp value; a text matcher keeps the filter's operation and sensitivity |
| HistoryQuery.CompiledTextMeaning | src/typescript/history.ts:43-75 | a compiled filter accepts a value exactly when the filter's meaning holds: regex test with the `i` flag when insensitive, otherwise the operation on both sides case-folded unless sensitive |
| HistoryQuery.CompileField | src/typescript/history.ts:94-107 | an absent filter gives no check, a present one fails exactly when compiling it fails |
| HistoryQuery.CompileOptions | src/typescript/history.ts:77-110 | compiling the list options fails with the generic error exactly when some text filter is misused |
| HistoryQuery.AcceptsAppend | src/typescript/history.ts:109 | `every` over two lists of checks is the conjunction of `every` over each |
| HistoryQuery.CompiledOptionsMeaning | src/typescript/history.ts:77-110 | the compiled predicate accepts an entry exactly when it is not before `from`, not after `to`, and its author (or ''), title (or '') and path pass their filters |
| HistorySort.InsertPermutes | src/typescript/history.ts:167-171 | inserting adds exactly one copy of the entry |
| HistorySort.InsertLength | src/typescript/history.ts:167-171 | inserting lengthens the sequence by one |
| HistorySort.SortPermutes | src/typescript/history.ts:167-171 | sorting by date is a permutation of the entries |
| HistorySort.InsertSorted | src/typescript/history.ts:167-171 | inserting into a date-ordered sequence keeps it ordered |
| HistorySort.SortSorted | src/typescript/history.ts:167-171 | the sort orders entries by ascending date for `older`, descending otherwise |
| HistorySort.InsertKeepsDated | src/typescript/history.ts:167-171 | inserting keeps the relative order of entries with an equal date and puts the new one after them |
| HistorySort.SortStable | src/typescript/history.ts:167-171 | the sort is stable: entries with the same date keep their map order |
| HistorySort.InsertInPlace | src/typescript/history.ts:167-171 | shifting `a[i]` into the sorted prefix leaves the prefix equal to the functional insert and the rest of the array untouched |
| HistorySort.SortInPlace | src/typescript/history.ts:167-171 | the array sort leaves the array equal to the functional stable sort of its old contents |
| HistoryListing.KeepCounts | src/typescript/history.ts:177-178 | filtering keeps every copy of an accepted entry and no copy of a rejected one |
| HistoryListing.KeepSorted | src/typescript/history.ts:177-178 | filtering a sorted sequence keeps it sorted |
| HistoryListing.Listed | src/typescript/history.ts:164-179 | listing fails exactly when options are given and some text filter is misused |
| HistoryListing.ListedAll | src/typescript/history.ts:164-175 | without options the listing is every value, newest first, with equal dates in map order |
| HistoryListing.KeepDated | src/typescript/history.ts:177-178 | filtering keeps the relative order of the entries of each date |
| HistoryListing.ListedFiltered | src/typescript/history.ts:164-179 | with valid options the listing is sorted in the requested order and holds every value that is wanted, as often as it occurs, and nothing else; the accepted entries of each date keep their map order |
| HistoryListing.ExactListing | src/typescript/history.ts:280-290 | the exact-path listing of `findByPath` succeeds, is newest first, and holds exactly the stored entries with that path |
| HistoryListing.FindIn | src/typescript/history.ts:280-290 | `findByPath` finds an entry exactly when there is one with that exact path; it returns a stored entry with that path and the newest date among them |
| HistoryTable.Set | src/typescript/history.ts:129 | `Map.set` maps the key to the value and appends a new key after all others |
| HistoryTable.SetValues | src/typescript/history.ts:129 | `set` appends a new key's value at the end of the values and replaces an existing key's value where it stands |
| HistoryTable.Without | src/typescript/history.ts:160 | removing a key keeps every other key and nothing else, keeps distinct keys distinct, and changes nothing when the key is absent |
| HistoryTable.WithoutDropsOne | src/typescript/history.ts:160 | among distinct keys, removing a present key cuts out exactly its one position; the keys before and after it keep their order |
| HistoryTable.Delete | src/typescript/history.ts:160 | `Map.delete` removes the key and its value; deleting an absent key changes nothing |
| HistoryTable.Add | src/typescript/history.ts:123-131 | `add` throws exactly when the path is already a key; otherwise the entry is stored at its path, after all others |
| HistoryTable.Update | src/typescript/history.ts:135-157 | `update` throws exactly when the path is not a key, or when the path form has no updater; otherwise the value at the path is replaced in place by the entry or by `updater` applied to the old value |
| HistoryTable.Remove | src/typescript/history.ts:159-162 | `remove` drops the entry's path from the map and cuts it out of the key order, the other keys keeping their order; an absent path is not an error and changes nothing |
| HistoryTable.LastWithPath | src/typescript/history.ts:116 | the result is a loaded entry with that path, and it is nothing exactly when no loaded entry has it |
| HistoryTable.LastWithPathIsLast | src/typescript/history.ts:116 | what is found is the last loaded entry with that path: no later entry has it |
| HistoryTable.FirstWithPathIsFirst | src/typescript/history.ts:116 | no entry before the first position found holds the path |
| HistoryTable.Load | src/typescript/history.ts:115-117 | loading gives a well-formed map: distinct keys, one value for each key and no other |
| HistoryTable.LoadKeyOrder | src/typescript/history.ts:116 | every key of the loaded map is a loaded path, and the keys come in the order of each path's first occurrence: a repeated path keeps the place where it first occurred |
| HistoryTable.LoadAt | src/typescript/history.ts:115-117 | a path is a key of the loaded map exactly when some loaded entry has it, and the key holds the last such entry |
| HistoryTable.LoadLookup | src/typescript/history.ts:115-117 | the loaded map's keys are the loaded paths, each key holds the last loaded entry with that path, and every entry sits under its own path |
| HistoryTable.LoadKeepsOrder | src/typescript/history.ts:115-117 | loading entries with distinct paths keeps their order as the key order |
| HistoryTable.ValuesCarryKeys | src/typescript/history.ts:120 | on a map whose entries sit under their own paths, the persisted value at each position has that position's key as its path |
| HistoryTable.ReloadLookup | src/typescript/history.ts:115-121 | on a map whose entries sit under their own paths, a reload has exactly the same keys, each with the same value |
| HistoryTable.ReloadRoundTrip | src/typescript/history.ts:115-121 | on a map whose entries all sit under their own paths, loading the persisted values back gives the same map in the same order |
| HistoryTable.RenamingUpdateMovesOnReload | src/typescript/history.ts:150-155 | an `update(path, updater)` whose updater changes the path to an unused one succeeds and keeps the old key, so entries no longer all sit under their own paths; a reload then drops the old key and files the renamed entry under its new path, holding exactly that entry |
| HistoryTable.FindByPathExact | src/typescript/history.ts:280-290 | on a map whose entries sit under their own paths, `findByPath` returns exactly the entry at that key, or nothing |
| HistoryStore.NeutralinoStorage.constructor | src/typescript/history.ts:115-117 | the new store holds the map loaded from the entries |
| HistoryStore.NeutralinoStorage.Put | src/typescript/history.ts:116 | one `set` on the store's fields |
| HistoryStore.NeutralinoStorage.UpdateHistory | src/typescript/history.ts:119-121 | the persisted blob becomes the map's values in key order |
| HistoryStore.NeutralinoStorage.Add | src/typescript/history.ts:123-131 | the store changes as the `add` on its map does, and is persisted only when it changed |
| HistoryStore.NeutralinoStorage.Update | src/typescript/history.ts:135-157 | the store changes as the `update` on its map does, and is persisted only when it changed |
| HistoryStore.NeutralinoStorage.Remove | src/typescript/history.ts:159-162 | the store changes as `remove` on its map does, and is persisted |
| HistoryStore.NeutralinoStorage.List | src/typescript/history.ts:164-179 | copying the values, sorting them in place and filtering them gives the specified listing |
| HistoryStore.AnonymousStorage.constructor | src/typescript/history.ts:200-202 | the wrapper holds the given store |
| HistoryStore.AnonymousStorage.Add | src/typescript/history.ts:204-206 | an anonymous `add` succeeds and changes nothing |
| HistoryStore.AnonymousStorage.Update | src/typescript/history.ts:208-212 | an anonymous `update` succeeds and changes nothing |
| HistoryStore.AnonymousStorage.Remove | src/typescript/history.ts:214-216 | an anonymous `remove` removes from the wrapped store |
| HistoryStore.AnonymousStorage.List | src/typescript/history.ts:218-220 | an anonymous listing is the wrapped store's listing |
| HistoryStore.History.constructor | src/typescript/history.ts:226-236 | the history starts with the plain store in its slot |
| HistoryStore.History.SetAnonymous | src/typescript/history.ts:238-244 | afterwards the slot is anonymous over the same store; wrapping an anonymous slot again changes nothing |
| HistoryStore.History.UnsetAnonymous | src/typescript/history.ts:246-252 | afterwards the slot holds the plain store that was wrapped, or that was already there |
| HistoryStore.History.Add | src/typescript/history.ts:254-258 | in anonymous mode the add succeeds and the store is unchanged; otherwise the store's `add` takes effect |
| HistoryStore.History.Update | src/typescript/history.ts:260-266 | in anonymous mode the update succeeds and the store is unchanged; otherwise the store's `update` takes effect |
| HistoryStore.History.Remove | src/typescript/history.ts:268-272 | a removal reaches the store in either mode |
| HistoryStore.History.List | src/typescript/history.ts:274-278 | listing reads the underlying store in either mode |
| HistoryStore.History.FindByPath | src/typescript/history.ts:280-290 | the result is `findByPath` over the underlying store's values, in either mode |
| HistoryStore.ToggleRestoresStore | src/typescript/history.ts:238-252 | setting anonymous mode, twice, and unsetting it restores the original slot |
| Archive.FileAt | src/typescript/main.ts:90 | `reader.file(name)` finds something exactly when a file of that name exists, not for a folder or an absent name, and what it finds is that file's content |
| Archive.DotExtension | src/typescript/main.ts:144-145 | for a name with a dot, the extension is the suffix from the last dot: it starts with the dot and has no other dot |
| Archive.WhereMembers | src/typescript/main.ts:143-154 | the names kept are exactly the listed names that pass the test |
| Archive.LastWhereIsLast | src/typescript/main.ts:143-154 | the last-wins choice is nothing exactly when no name passes, else the last name that passes |
| Archive.Classify | src/typescript/main.ts:141-154 | pages are the listed image names that are not thumbnails, in listing order; the thumbnail is the last listed image name ending in `thumbnail` plus its extension, or nothing when there is none |
| Archive.PageExtension | src/typescript/main.ts:88 | the page handler's extension is the suffix from the last dot, or the whole name when there is no dot |
| Archive.ImagesAreImageTypes | src/typescript/main.ts:4-21 | every MIME type in the table starts with `image/` |
| Archive.ListedPageUri | src/typescript/main.ts:107 | for a classified page the URI carries the table's MIME type, so it starts with `data:image/image/` |
| Archive.UpperCaseExtensionIgnored | src/typescript/main.ts:145 | `page01.JPG` is not an image: the extension lookup is case-sensitive |
| Archive.CoverThumbnailExample | src/typescript/main.ts:149-153 | `cover-thumbnail.png` is the thumbnail and not a page |
| Archive.FolderIsNoImage | src/typescript/main.ts:144-145 | a name that ends in `/` is never kept as an image, because no extension of the table ends in `/` |
| Archive.ClassifiedPagesFound | src/typescript/main.ts:141-154 | in a container whose listing names its entries and whose folder names end in `/`, every page the metadata handler reports is a file, and `reader.file` gives that file's content |
| Bridge.ProcessFlags | src/typescript/main.ts:23-43 | the read screen is chosen exactly when some argument after the first is an existing non-directory, and it opens the first such argument |
| Bridge.RequestPages | src/typescript/main.ts:78-133 | one result per requested page, in order; a missing page fails with `PAGE_NOT_FOUND`, a failing decode with its error, any other page is a data URI; when the archive cannot be opened, every page fails with that error |
| Bridge.UpsertKeyed | src/typescript/main.ts:171-182 | on a store whose entries sit under their own paths, the upsert cannot fail: a known archive keeps its place and changes only its date, an unknown one is appended as a first visit |
| Bridge.RecordVisit | src/typescript/main.ts:171-182 | in anonymous mode the upsert succeeds and history is unchanged; otherwise history becomes the upserted table and its values are persisted, or history and the persisted values stay as they were when the upsert throws |
| Bridge.RequestMetadata | src/typescript/main.ts:135-192 | a failure to open the archive or read its metadata is the only response, and history is untouched; otherwise the success response comes first, and then the upsert, whose failure is reported in a second response; a successful upsert is what history holds and persists, a failed one leaves both as they were; anonymous mode leaves history untouched |

## Left out

- Persistence I/O is left out. The model keeps the persisted blob as a
  ghost sequence of values. JSON serialisation, `Neutralino.storage` and
  the `NE_ST_NOSTKEX` fallback in `NeutralinoStorage.create`
  (history.ts:181-193) belong to the platform.
- The lazy creation in `History.assertCreated` is left out.
  `HistoryStore.History.constructor` takes an already created store.
- Concurrency is left out. Each handler runs to completion, so the
  interleavings at `await` points are not modelled.
- `toLocaleLowerCase` and `RegExp.prototype.test` are host functions. The
  model does not capture RegExp syntax, or a RegExp constructor that throws
  on an invalid pattern.
- Base64 encoding, JSZip decoding and `readBinaryFile` are abstracted as
  parameters and outcomes.
- Bridge.RequestMetadata: the second `JSON.parse` at main.ts:167 is not
  modelled. `info` is the parsed metadata document. As written, a document
  that parses to an object throws at that line after `findByPath`, and the
  model does not capture that.
- Archive.Classify: the listing order is taken as given, since
  `reader.forEach` order is the container's business. Folder names are
  taken to end in `/`, as the zip library names them (`Archive.WellFormed`).
- Archive.MimeText: `Images[ext]` can also find inherited object keys.
  This is not modelled; only the sixteen own keys count.
- HistoryTable.Load: its own contract states only that the map is well
  formed. The key order is stated by `HistoryTable.LoadKeyOrder`, the value
  at each key by `HistoryTable.LoadAt`.
- HistoryTable.Update: the updater of `update(path, updater)` is a total
  function, so an updater that throws is not modelled. In the source
  (history.ts:150) such a throw rejects the `update` and leaves the map and
  the persisted values unchanged; `HistoryStore.NeutralinoStorage.Update`
  and `HistoryStore.History.Update` inherit the same gap. The only caller
  (main.ts:56) passes an updater that builds an object and cannot throw.
- HistoryTable.ReloadRoundTrip: it holds only for maps whose entries all
  sit under their own paths. An `update(path, updater)` whose updater
  changes the path breaks that (history.ts:150-155), and a reload then
  moves the entry to its new path (`HistoryTable.RenamingUpdateMovesOnReload`).
- HistoryListing.FindIn: it does not state which of several newest entries
  with the same path is returned. That case cannot arise while entries sit
  under their own paths (`HistoryTable.FindByPathExact`).
- HistorySort.SortInPlace: `Array.prototype.sort` is modelled as a stable
  insertion sort. Every stable sort by date gives the same result, and the
  comparator subtraction is taken on unbounded integers rather than
  floating point.
- `AnonymousStorage` wraps only `NeutralinoStorage`, the only store the
  program creates.
- The handlers `notifyPageChangePort`, `requestHistoryPort` and
  `requestFileSelectModalPort` in main.ts are not part of this model.
- Elm initialisation and the DOM calls in main.ts are not part of this
  model.
