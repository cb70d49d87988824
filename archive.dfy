/** The archive side of src/typescript/main.ts: the `Images` extension table
    (lines 4-21), the classification of container entries into pages and a
    thumbnail (lines 141-154) and the data URI of an extracted page
    (lines 88, 103-108).

    The container library is abstracted as a `Container` value: the names
    `forEach` visits, in its order, and the entry `file(name)` finds. */
module Archive {
  import opened Outcomes
  import Text

  newtype byte = x: int | 0 <= x < 256

  /** `Images`: extension, dot included, to MIME type. */
  const Images: map<string, string> := map[
    ".apng" := "image/apng",
    ".avif" := "image/avif",
    ".gif" := "image/gif",
    ".jpg" := "image/jpeg",
    ".jpeg" := "image/jpeg",
    ".jfif" := "image/jpeg",
    ".pjpeg" := "image/jpeg",
    ".pjp" := "image/jpeg",
    ".png" := "image/png",
    ".svg" := "image/svg+xml",
    ".webp" := "image/webp",
    ".bmp" := "image/bmp",
    ".ico" := "image/x-icon",
    ".cur" := "image/x-icon",
    ".tif" := "image/tiff",
    ".tiff" := "image/tiff"
  ]

  /** A container entry: a directory, or a file whose bytes may fail to decode. */
  datatype Entry = Directory | File(content: Result<seq<byte>, Thrown>)

  /** An opened container. */
  datatype Container = Container(listing: seq<string>, entries: map<string, Entry>)

  /** `reader.file(name)`: the file of that exact name; directories and
      absent names give nothing. */
  function FileAt(c: Container, name: string): (r: Option<Result<seq<byte>, Thrown>>)
    ensures r.Some? <==> name in c.entries && c.entries[name].File?
    ensures r.Some? ==> r.value == c.entries[name].content
  {
    if name in c.entries && c.entries[name].File? then Some(c.entries[name].content) else None
  }

  /** The extension as the metadata handler takes it: the suffix from the
      last dot, dot included, for a name that has a dot. */
  function DotExtension(name: string): (r: Option<string>)
    ensures r.Some? <==> '.' in name
    ensures r.Some? ==> Text.EndsWith(name, r.value) && |r.value| > 0 && r.value[0] == '.'
    ensures r.Some? ==> '.' !in r.value[1..]
  {
    var dot := Text.LastIndexOf(name, '.');
    if dot < 0 then None
    else
      assert name[|name| - |name[dot..]|..] == name[dot..];
      assert forall j :: 0 <= j < |name[dot..][1..]| ==> name[dot..][1..][j] == name[dot + 1 + j];
      Some(name[dot..])
  }

  /** Kept by the handler: a dot, and an extension that is a key of `Images`. */
  predicate IsImage(name: string) {
    var ext := DotExtension(name);
    ext.Some? && ext.value in Images
  }

  /** A kept name ending in `'thumbnail' + ext`. */
  predicate IsThumbnail(name: string) {
    IsImage(name) && Text.EndsWith(name, "thumbnail" + DotExtension(name).value)
  }

  predicate IsPage(name: string) {
    IsImage(name) && !IsThumbnail(name)
  }

  /** The names that `keep` selects, in listing order. */
  function Where(keep: string -> bool, names: seq<string>): seq<string>
    decreases |names|
  {
    if |names| == 0 then []
    else Where(keep, names[..|names| - 1]) + (if keep(names[|names| - 1]) then [names[|names| - 1]] else [])
  }

  /** The last name that `keep` selects. */
  function LastWhere(keep: string -> bool, names: seq<string>): Option<string>
    decreases |names|
  {
    if |names| == 0 then None
    else if keep(names[|names| - 1]) then Some(names[|names| - 1])
    else LastWhere(keep, names[..|names| - 1])
  }

  /** `names[i]` is selected and no later name is. */
  predicate LastAt(keep: string -> bool, names: seq<string>, i: int) {
    0 <= i < |names| && keep(names[i]) && forall j :: i < j < |names| ==> !keep(names[j])
  }

  lemma {:induction false} WhereMembers(keep: string -> bool, names: seq<string>)
    ensures forall x :: x in Where(keep, names) <==> x in names && keep(x)
    decreases |names|
  {
    if |names| > 0 {
      WhereMembers(keep, names[..|names| - 1]);
      assert names == names[..|names| - 1] + [names[|names| - 1]];
    }
  }

  lemma {:induction false} LastWhereIsLast(keep: string -> bool, names: seq<string>)
    ensures LastWhere(keep, names).None? <==> forall i :: 0 <= i < |names| ==> !keep(names[i])
    ensures LastWhere(keep, names).Some? ==>
      exists i :: LastAt(keep, names, i) && names[i] == LastWhere(keep, names).value
    decreases |names|
  {
    if |names| > 0 {
      var n := |names| - 1;
      if keep(names[n]) {
        assert LastAt(keep, names, n);
      } else {
        var init := names[..n];
        LastWhereIsLast(keep, init);
        assert forall i :: 0 <= i < n ==> init[i] == names[i];
        if LastWhere(keep, init).Some? {
          var i :| LastAt(keep, init, i) && init[i] == LastWhere(keep, init).value;
          assert LastAt(keep, names, i);
        }
      }
    }
  }

  /** The pages, in listing order. */
  function Pages(listing: seq<string>): seq<string> {
    Where(IsPage, listing)
  }

  /** The thumbnail: the last thumbnail name in listing order. */
  function LastThumbnail(listing: seq<string>): Option<string> {
    LastWhere(IsThumbnail, listing)
  }

  /** The `reader.forEach` callback of the metadata handler (main.ts:141-154):
      every page is appended in listing order, every thumbnail name
      overwrites the one before it, everything else is ignored. */
  method Classify(listing: seq<string>) returns (pages: seq<string>, thumbnail: Option<string>)
    ensures pages == Pages(listing)
    ensures forall x :: x in pages <==> x in listing && IsPage(x)
    ensures thumbnail == LastThumbnail(listing)
    ensures thumbnail.None? <==> forall i :: 0 <= i < |listing| ==> !IsThumbnail(listing[i])
    ensures thumbnail.Some? ==> exists i :: LastAt(IsThumbnail, listing, i) && listing[i] == thumbnail.value
  {
    pages := [];
    thumbnail := None;
    var i := 0;
    while i < |listing|
      invariant 0 <= i <= |listing|
      invariant pages == Pages(listing[..i])
      invariant thumbnail == LastThumbnail(listing[..i])
    {
      var filename := listing[i];
      assert listing[..i + 1][..i] == listing[..i];
      var dot := Text.LastIndexOf(filename, '.');
      if dot < 0 || filename[dot..] !in Images {
        i := i + 1;
        continue;
      }
      if Text.EndsWith(filename, "thumbnail" + filename[dot..]) {
        thumbnail := Some(filename);
      } else {
        pages := pages + [filename];
      }
      i := i + 1;
    }
    assert listing[..|listing|] == listing;
    WhereMembers(IsPage, listing);
    LastWhereIsLast(IsThumbnail, listing);
  }

  /** `Images[ext]` inside a template literal: `undefined` for an unknown key. */
  function MimeText(ext: string): string {
    if ext in Images then Images[ext] else "undefined"
  }

  /** The extension as the page handler takes it (main.ts:88): with no dot,
      `lastIndexOf` is -1 and `substring(-1)` is the whole name. */
  function PageExtension(page: string): (r: string)
    ensures '.' in page ==> r == DotExtension(page).value
    ensures '.' !in page ==> r == page
  {
    Text.SubstringFrom(page, Text.LastIndexOf(page, '.'))
  }

  /** The data URI of an extracted page (main.ts:107), as written: the
      `image/` of the template comes on top of the `image/` of the table. */
  function DataUri(page: string, base64: string): string {
    "data:image/" + MimeText(PageExtension(page)) + ";base64," + base64
  }

  lemma ImagesAreImageTypes()
    ensures forall ext :: ext in Images ==> Text.StartsWith(Images[ext], "image/")
  {
  }

  /** For a page the metadata handler lists, the URI carries the table's MIME
      type, so its media type reads `image/image/...`. */
  lemma ListedPageUri(page: string, base64: string)
    requires IsImage(page)
    ensures var mime := Images[DotExtension(page).value];
      DataUri(page, base64) == "data:image/" + mime + ";base64," + base64
    ensures Text.StartsWith(DataUri(page, base64), "data:image/image/")
  {
    var mime := Images[DotExtension(page).value];
    ImagesAreImageTypes();
    var uri := DataUri(page, base64);
    assert uri == "data:image/" + mime + ";base64," + base64;
    assert mime[..6] == "image/";
    assert uri[..17] == "data:image/" + mime[..6];
  }

  /** The extension test is case-sensitive: an upper-case extension is not an image. */
  lemma UpperCaseExtensionIgnored()
    ensures !IsImage("page01.JPG")
  {
  }

  /** A name ending in `thumbnail.png` is the thumbnail, not a page. */
  lemma CoverThumbnailExample()
    ensures IsThumbnail("cover-thumbnail.png") && !IsPage("cover-thumbnail.png")
  {
  }

  /** A container as the zip library presents it: `reader.forEach` visits
      names of entries, and a folder's name ends in `/`. */
  ghost predicate WellFormed(c: Container) {
    && (forall i :: 0 <= i < |c.listing| ==> c.listing[i] in c.entries)
    && forall name :: name in c.entries && c.entries[name].Directory? ==> Text.EndsWith(name, "/")
  }

  /** No extension of the table ends in `/`, so no folder is kept. */
  lemma FolderIsNoImage(name: string)
    requires Text.EndsWith(name, "/")
    ensures !IsImage(name)
  {
    var ext := DotExtension(name);
    if ext.Some? {
      var e := ext.value;
      assert e[|e| - 1] == name[|name| - 1] by {
        assert name[|name| - |e|..][|e| - 1] == name[|name| - 1];
      }
      assert name[|name| - 1..] == "/";
      assert forall k :: k in Images ==> k[|k| - 1] != '/';
    }
  }

  /** Every page the metadata handler reports is found as a file when the
      page handler asks the same container for it, with that file's content. */
  lemma {:induction false} ClassifiedPagesFound(c: Container)
    requires WellFormed(c)
    ensures forall p :: p in Pages(c.listing) ==>
      p in c.entries && c.entries[p].File? && FileAt(c, p) == Some(c.entries[p].content)
  {
    WhereMembers(IsPage, c.listing);
    forall p | p in Pages(c.listing)
      ensures p in c.entries && c.entries[p].File? && FileAt(c, p) == Some(c.entries[p].content)
    {
      var i :| 0 <= i < |c.listing| && c.listing[i] == p;
      if c.entries[p].Directory? {
        FolderIsNoImage(p);
      }
    }
  }
}
