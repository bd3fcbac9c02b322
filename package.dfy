/** The package document: the root folder derived from its path, the
    manifest, the spine turned into the reading order, and the two searches
    over the manifest (cover image and table of contents). */
module Package {
  import opened Wrappers
  import opened Strings

  /** The opened zip archive: the text of each entry, by its path. A path
      that is not a key is an entry `zip.file(path)` does not find. */
  type Archive = map<string, string>

  // ---------------------------------------------------------------------
  // root folder
  // ---------------------------------------------------------------------

  /** `path.split('/').slice(0, -1).join('')`, followed by '/' when that is
      not empty. The directory names are glued together WITHOUT separators. */
  function RootFolder(packagePath: string): string {
    var parts := Split(packagePath, '/');
    var folder := Join(parts[..|parts| - 1], "");
    if |folder| > 0 then folder + "/" else folder
  }

  /** A package document at the top of the archive has no root folder. */
  lemma RootFolderAtTop(path: string)
    requires '/' !in path
    ensures RootFolder(path) == ""
  {
    SplitNoSeparator(path, '/');
  }

  /** Below the top, the root folder is everything before the last '/' with
      the inner '/' characters deleted, followed by one '/'. */
  lemma RootFolderNested(dirs: string, name: string)
    requires '/' !in name
    ensures var f := Without(dirs, '/');
      RootFolder(dirs + "/" + name) == if f == [] then [] else f + "/"
  {
    SplitLast(dirs, '/', name);
    var parts := Split(dirs + "/" + name, '/');
    assert parts[..|parts| - 1] == Split(dirs, '/');
    ConcatSplit(dirs, '/');
  }

  /** `OEBPS/content.opf` gives `OEBPS/`. */
  lemma RootFolderOneLevel(dirs: string, name: string)
    requires dirs == "OEBPS" && name == "content.opf"
    ensures RootFolder(dirs + "/" + name) == "OEBPS/"
  {
    WithoutAbsent(dirs, '/');
    RootFolderNested(dirs, name);
  }

  /** `a/b/c.opf` gives `ab/`: the separator between directories is lost. */
  lemma RootFolderTwoLevels(dirs: string, name: string)
    requires dirs == "a/b" && name == "c.opf"
    ensures RootFolder(dirs + "/" + name) == "ab/"
  {
    RootFolderNested(dirs, name);
    var b := dirs[2..];
    WithoutAbsent(b, '/');
    assert dirs[1..][1..] == b;
    assert Without(dirs[1..], '/') == b;
    assert Without(dirs, '/') == "ab";
  }

  // ---------------------------------------------------------------------
  // manifest
  // ---------------------------------------------------------------------

  /** The attributes of one `manifest > item` element; an absent attribute
      is the empty string (`properties` defaults to '' in the source too). */
  datatype ItemAttrs = ItemAttrs(id: string, href: string, mediaType: string, properties: string)

  /** The manifest object: `entries` maps each id to the last item with that
      id, and `order` lists the ids in the order they were first added,
      which is the order a `for...in` loop visits them. */
  datatype Manifest = Manifest(order: seq<string>, entries: map<string, ItemAttrs>) {
    predicate Valid() {
      && (forall i :: 0 <= i < |order| ==> order[i] in entries)
      && (forall id :: id in entries ==> id in order)
      && (forall i, j :: 0 <= i < j < |order| ==> order[i] != order[j])
      && (forall id :: id in entries ==> entries[id].id == id)
    }
  }

  /** `manifest[item.id] = item`. */
  function Insert(m: Manifest, item: ItemAttrs): Manifest {
    Manifest(if item.id in m.entries then m.order else m.order + [item.id],
             m.entries[item.id := item])
  }

  /** The manifest after storing every item, in document order. */
  function ManifestOf(items: seq<ItemAttrs>): (m: Manifest)
    ensures m.Valid()
    decreases |items|
  {
    if items == [] then Manifest([], map[])
    else Insert(ManifestOf(items[..|items| - 1]), items[|items| - 1])
  }

  /** An id is in the manifest exactly when some item carries it. */
  lemma {:induction false} ManifestHasId(items: seq<ItemAttrs>, id: string)
    ensures id in ManifestOf(items).entries <==> exists i :: 0 <= i < |items| && items[i].id == id
    decreases |items|
  {
    if items != [] {
      var init := items[..|items| - 1];
      ManifestHasId(init, id);
      if exists i :: 0 <= i < |items| && items[i].id == id {
        var i :| 0 <= i < |items| && items[i].id == id;
        if i < |init| {
          assert init[i].id == id;
        }
      }
      if exists i :: 0 <= i < |init| && init[i].id == id {
        var i :| 0 <= i < |init| && init[i].id == id;
        assert items[i].id == id;
      }
    }
  }

  /** A duplicated id maps to the LAST item that carries it. */
  lemma {:induction false} ManifestLastWins(items: seq<ItemAttrs>, j: nat)
    requires j < |items|
    requires forall k :: j < k < |items| ==> items[k].id != items[j].id
    ensures items[j].id in ManifestOf(items).entries
    ensures ManifestOf(items).entries[items[j].id] == items[j]
    decreases |items|
  {
    if j < |items| - 1 {
      var init := items[..|items| - 1];
      assert init[j] == items[j];
      ManifestLastWins(init, j);
    }
  }

  /** The ids of the items, in document order. */
  function Ids(items: seq<ItemAttrs>): (ids: seq<string>)
    ensures |ids| == |items|
    ensures forall i :: 0 <= i < |items| ==> ids[i] == items[i].id
  {
    seq(|items|, i requires 0 <= i < |items| => items[i].id)
  }

  /** Each distinct string of `ids` once, at its first occurrence. */
  function FirstOccurrences(ids: seq<string>): (r: seq<string>)
    ensures forall x :: x in r <==> x in ids
    ensures forall i, j :: 0 <= i < j < |r| ==> r[i] != r[j]
    decreases |ids|
  {
    if ids == [] then []
    else
      var init := ids[..|ids| - 1];
      var prev := FirstOccurrences(init);
      var last := ids[|ids| - 1];
      assert ids == init + [last];
      if last in prev then prev else prev + [last]
  }

  /** Of two strings in `FirstOccurrences(ids)`, the earlier one occurs in
      `ids` before every occurrence of the later one. */
  lemma {:induction false} FirstOccurrencesOrdered(ids: seq<string>, k1: nat, k2: nat, j: nat)
    requires k1 < k2 < |FirstOccurrences(ids)|
    requires j < |ids| && ids[j] == FirstOccurrences(ids)[k2]
    ensures exists i :: 0 <= i < j && ids[i] == FirstOccurrences(ids)[k1]
    decreases |ids|
  {
    var init := ids[..|ids| - 1];
    var prev := FirstOccurrences(init);
    var r := FirstOccurrences(ids);
    assert r[..|prev|] == prev;
    if k2 < |prev| {
      assert r[k1] == prev[k1] && r[k2] == prev[k2];
      if j < |init| {
        assert init[j] == ids[j];
        FirstOccurrencesOrdered(init, k1, k2, j);
        var i :| 0 <= i < j && init[i] == prev[k1];
        assert ids[i] == r[k1];
      } else {
        assert prev[k2] in init;
        var j' :| 0 <= j' < |init| && init[j'] == prev[k2];
        FirstOccurrencesOrdered(init, k1, k2, j');
        var i :| 0 <= i < j' && init[i] == prev[k1];
        assert ids[i] == r[k1];
      }
    } else {
      assert r[k1] == prev[k1] && prev[k1] in init;
      var i :| 0 <= i < |init| && init[i] == prev[k1];
      assert r[k2] == ids[|ids| - 1] && r[k2] !in init;
      assert ids[i] == r[k1];
    }
  }

  /** The manifest's keys are the items' ids in order of first occurrence,
      the order in which the assignments create them and in which the
      `for...in` searches visit them. */
  lemma {:induction false} ManifestOrder(items: seq<ItemAttrs>)
    ensures ManifestOf(items).order == FirstOccurrences(Ids(items))
    decreases |items|
  {
    if items != [] {
      var init := items[..|items| - 1];
      ManifestOrder(init);
      assert Ids(items)[..|items| - 1] == Ids(init);
      var m := ManifestOf(init);
      var id := items[|items| - 1].id;
      assert id in m.entries <==> id in m.order;
    }
  }

  /** The source's `forEach` over the manifest items, filling the manifest
      object in place. */
  method BuildManifest(items: seq<ItemAttrs>) returns (m: Manifest)
    ensures m == ManifestOf(items)
  {
    var order: seq<string> := [];
    var entries: map<string, ItemAttrs> := map[];
    for i := 0 to |items|
      invariant Manifest(order, entries) == ManifestOf(items[..i])
    {
      var item := items[i];
      if item.id !in entries {
        order := order + [item.id];
      }
      entries := entries[item.id := item];
      assert items[..i + 1][..i] == items[..i];
    }
    assert items[..|items|] == items;
    m := Manifest(order, entries);
  }

  // ---------------------------------------------------------------------
  // spine -> contents
  // ---------------------------------------------------------------------

  /** One entry of `book.contents`. */
  datatype SpineItem = SpineItem(id: string, href: string, mediaType: string)

  function SpineEntry(idref: string, m: Manifest, rootFolder: string): SpineItem
    requires idref in m.entries
  {
    SpineItem(idref, rootFolder + m.entries[idref].href, m.entries[idref].mediaType)
  }

  /** The reading order: the spine's idrefs that the manifest knows, in
      spine order, each with its href prefixed by the root folder. */
  function Contents(spine: seq<string>, m: Manifest, rootFolder: string): (r: seq<SpineItem>)
    ensures |r| <= |spine|
    decreases |spine|
  {
    if spine == [] then []
    else
      var init := Contents(spine[..|spine| - 1], m, rootFolder);
      var idref := spine[|spine| - 1];
      if idref in m.entries then init + [SpineEntry(idref, m, rootFolder)] else init
  }

  /** Contents distributes over concatenation of spines: it never reorders. */
  lemma {:induction false} ContentsAppend(a: seq<string>, b: seq<string>, m: Manifest, rootFolder: string)
    ensures Contents(a + b, m, rootFolder) == Contents(a, m, rootFolder) + Contents(b, m, rootFolder)
    decreases |b|
  {
    if b == [] {
      assert a + b == a;
    } else {
      var b' := b[..|b| - 1];
      assert (a + b)[..|a + b| - 1] == a + b';
      ContentsAppend(a, b', m, rootFolder);
    }
  }

  /** An item is in the reading order exactly when some spine idref that the
      manifest knows produces it. */
  lemma {:induction false} ContentsMembers(spine: seq<string>, m: Manifest, rootFolder: string, x: SpineItem)
    ensures x in Contents(spine, m, rootFolder) <==>
      exists i :: 0 <= i < |spine| && spine[i] in m.entries && x == SpineEntry(spine[i], m, rootFolder)
    decreases |spine|
  {
    if spine != [] {
      var init := spine[..|spine| - 1];
      ContentsMembers(init, m, rootFolder, x);
      if exists i :: 0 <= i < |init| && init[i] in m.entries && x == SpineEntry(init[i], m, rootFolder) {
        var i :| 0 <= i < |init| && init[i] in m.entries && x == SpineEntry(init[i], m, rootFolder);
        assert spine[i] == init[i];
      }
      if exists i :: 0 <= i < |spine| && spine[i] in m.entries && x == SpineEntry(spine[i], m, rootFolder) {
        var i :| 0 <= i < |spine| && spine[i] in m.entries && x == SpineEntry(spine[i], m, rootFolder);
        if i < |init| {
          assert init[i] == spine[i];
        }
      }
    }
  }

  /** The reading order is empty exactly when no spine idref is in the
      manifest (the case the source rejects as "No readable content"). */
  lemma {:induction false} ContentsEmpty(spine: seq<string>, m: Manifest, rootFolder: string)
    ensures Contents(spine, m, rootFolder) == [] <==> forall i :: 0 <= i < |spine| ==> spine[i] !in m.entries
    decreases |spine|
  {
    if spine != [] {
      var init := spine[..|spine| - 1];
      ContentsEmpty(init, m, rootFolder);
      if Contents(spine, m, rootFolder) == [] {
        forall i | 0 <= i < |spine| ensures spine[i] !in m.entries {
          if i < |init| {
            assert spine[i] == init[i];
          }
        }
      } else if Contents(init, m, rootFolder) != [] {
        var i :| 0 <= i < |init| && init[i] in m.entries;
        assert spine[i] == init[i];
      } else {
        assert spine[|spine| - 1] in m.entries;
      }
    }
  }

  /** The source's `forEach` over the spine itemrefs, pushing onto
      `book.contents`. */
  method CollectContents(spine: seq<string>, m: Manifest, rootFolder: string) returns (contents: seq<SpineItem>)
    ensures contents == Contents(spine, m, rootFolder)
  {
    contents := [];
    for i := 0 to |spine|
      invariant contents == Contents(spine[..i], m, rootFolder)
    {
      var idref := spine[i];
      assert spine[..i + 1][..i] == spine[..i];
      if idref in m.entries {
        contents := contents + [SpineItem(idref, rootFolder + m.entries[idref].href, m.entries[idref].mediaType)];
      }
    }
    assert spine[..|spine|] == spine;
  }

  // ---------------------------------------------------------------------
  // searches over the manifest
  // ---------------------------------------------------------------------

  /** The first position at or after `i`, in `for...in` order, whose entry
      satisfies `p`. */
  function FirstFrom(m: Manifest, p: ItemAttrs -> bool, i: nat): (r: Option<nat>)
    requires m.Valid()
    ensures r.Some? ==> i <= r.value < |m.order| && p(m.entries[m.order[r.value]])
    ensures r.Some? ==> forall k :: i <= k < r.value ==> !p(m.entries[m.order[k]])
    ensures r.None? ==> forall k :: i <= k < |m.order| ==> !p(m.entries[m.order[k]])
    decreases |m.order| - i
  {
    if i >= |m.order| then None
    else if p(m.entries[m.order[i]]) then Some(i)
    else FirstFrom(m, p, i + 1)
  }

  /** `book.rootFolder + manifest[id].href` for the entry found, '' for none. */
  function PathOf(m: Manifest, rootFolder: string, found: Option<nat>): string
    requires m.Valid()
    requires found.Some? ==> found.value < |m.order|
  {
    match found
    case None => ""
    case Some(k) => rootFolder + m.entries[m.order[k]].href
  }

  predicate HasCoverImageProperty(item: ItemAttrs) {
    Contains(item.properties, "cover-image")
  }

  /** `id.toLowerCase().includes('cover')` and an `image/` media type. */
  predicate IsImageNamedCover(item: ItemAttrs) {
    Contains(Lower(item.id), "cover") && StartsWith(item.mediaType, "image/")
  }

  predicate HasNavProperty(item: ItemAttrs) {
    Contains(item.properties, "nav")
  }

  predicate IsNcx(item: ItemAttrs) {
    item.mediaType == "application/x-dtbncx+xml"
  }

  /** The archive path `loadCoverImage` settles on; '' means no cover. */
  function CoverHref(m: Manifest, rootFolder: string): string
    requires m.Valid()
  {
    var byProperty := PathOf(m, rootFolder, FirstFrom(m, HasCoverImageProperty, 0));
    if byProperty != "" then byProperty
    else PathOf(m, rootFolder, FirstFrom(m, IsImageNamedCover, 0))
  }

  /** The archive path `loadTOC` reads the table of contents from; ''
      means there is none. */
  function TocPath(m: Manifest, spineToc: string, rootFolder: string): string
    requires m.Valid()
  {
    var byProperty := PathOf(m, rootFolder, FirstFrom(m, HasNavProperty, 0));
    if byProperty != "" then byProperty
    else if spineToc != "" && spineToc in m.entries then rootFolder + m.entries[spineToc].href
    else PathOf(m, rootFolder, FirstFrom(m, IsNcx, 0))
  }

  /** A `for...in` over the manifest that stops at the first entry passing
      `test` and takes `rootFolder + href` from it; '' when none passes. */
  method SearchManifest(m: Manifest, rootFolder: string, test: ItemAttrs -> bool) returns (path: string)
    requires m.Valid()
    ensures path == PathOf(m, rootFolder, FirstFrom(m, test, 0))
  {
    path := "";
    var i := 0;
    while i < |m.order|
      invariant 0 <= i <= |m.order|
      invariant FirstFrom(m, test, i) == FirstFrom(m, test, 0)
      invariant path == ""
    {
      var id := m.order[i];
      if test(m.entries[id]) {
        path := rootFolder + m.entries[id].href;
        break;
      }
      i := i + 1;
    }
  }

  /** The cover search of `loadCoverImage`: two `for...in` loops with
      `break`, the second only when the first found nothing. */
  method FindCover(m: Manifest, rootFolder: string) returns (coverHref: string)
    requires m.Valid()
    ensures coverHref == CoverHref(m, rootFolder)
  {
    coverHref := SearchManifest(m, rootFolder, HasCoverImageProperty);
    if coverHref == "" {
      coverHref := SearchManifest(m, rootFolder, IsImageNamedCover);
    }
  }

  /** The search at the head of `loadTOC`: a `nav` property, else the
      spine's `toc` attribute, else the first NCX entry. */
  method FindTocPath(m: Manifest, spineToc: string, rootFolder: string) returns (tocPath: string)
    requires m.Valid()
    ensures tocPath == TocPath(m, spineToc, rootFolder)
  {
    tocPath := SearchManifest(m, rootFolder, HasNavProperty);
    if tocPath == "" {
      if spineToc != "" && spineToc in m.entries {
        tocPath := rootFolder + m.entries[spineToc].href;
      } else {
        tocPath := SearchManifest(m, rootFolder, IsNcx);
      }
    }
  }

  /** The first entry whose properties contain "cover-image" wins, whatever
      the other entries are. */
  lemma CoverByProperty(m: Manifest, rootFolder: string, k: nat)
    requires m.Valid() && k < |m.order|
    requires HasCoverImageProperty(m.entries[m.order[k]])
    requires forall j :: 0 <= j < k ==> !HasCoverImageProperty(m.entries[m.order[j]])
    requires rootFolder + m.entries[m.order[k]].href != ""
    ensures CoverHref(m, rootFolder) == rootFolder + m.entries[m.order[k]].href
  {
    var r := FirstFrom(m, HasCoverImageProperty, 0);
    assert r == Some(k);
  }

  /** Without a "cover-image" property, the first image whose id contains
      "cover" in any case is the cover; without that either, there is no
      cover, and that is not an error. */
  lemma CoverByName(m: Manifest, rootFolder: string)
    requires m.Valid()
    requires forall j :: 0 <= j < |m.order| ==> !HasCoverImageProperty(m.entries[m.order[j]])
    ensures var named := FirstFrom(m, IsImageNamedCover, 0);
      && (named.Some? ==> CoverHref(m, rootFolder) == rootFolder + m.entries[m.order[named.value]].href)
      && (named.None? ==> CoverHref(m, rootFolder) == "")
      && (named.Some? ==> Contains(Lower(m.order[named.value]), "cover"))
  {
    assert FirstFrom(m, HasCoverImageProperty, 0) == None;
  }

  /** The TOC source: a "nav" property (a substring test) first, then the
      spine's `toc` attribute, then the first NCX entry. */
  lemma TocPathChoice(m: Manifest, spineToc: string, rootFolder: string)
    requires m.Valid()
    ensures var nav := FirstFrom(m, HasNavProperty, 0);
      var navPath := PathOf(m, rootFolder, nav);
      && (navPath != "" ==> TocPath(m, spineToc, rootFolder) == navPath)
      && (navPath == "" && spineToc in m.entries && spineToc != "" ==>
            TocPath(m, spineToc, rootFolder) == rootFolder + m.entries[spineToc].href)
      && (nav.None? && (spineToc == "" || spineToc !in m.entries) &&
          (forall j :: 0 <= j < |m.order| ==> !IsNcx(m.entries[m.order[j]])) ==>
            TocPath(m, spineToc, rootFolder) == "")
      && (navPath == "" && (spineToc == "" || spineToc !in m.entries) ==>
          forall j :: (0 <= j < |m.order| && IsNcx(m.entries[m.order[j]]) &&
                       (forall i :: 0 <= i < j ==> !IsNcx(m.entries[m.order[i]]))) ==>
              TocPath(m, spineToc, rootFolder) == rootFolder + m.entries[m.order[j]].href)
  {
  }
}
