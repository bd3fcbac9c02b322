/** The reading session: the global `book` record that `parseEpub` fills
    from an archive, and the chapter navigation (`loadChapter`,
    `prevChapter`, `nextChapter`, a click on a table-of-contents entry)
    that moves `book.currentIndex` and replaces the displayed chapter. */
module Reader {
  import opened Wrappers
  import opened Strings
  import opened Package
  import opened Outline
  import opened Sanitizer
  import opened Resources

  /** Where every EPUB names its package document. */
  const ContainerPath := "META-INF/container.xml"

  // ---------------------------------------------------------------------
  // metadata
  // ---------------------------------------------------------------------

  /** The text content of the first `dc:title`, `dc:creator`,
      `dc:language`, `dc:publisher` and `dc:description` child of
      `metadata`, None where there is none. */
  datatype RawMetadata = RawMetadata(title: Option<string>, creator: Option<string>, language: Option<string>,
                                     publisher: Option<string>, description: Option<string>)

  /** `book.metadata`. */
  datatype Metadata = Metadata(title: string, creator: string, language: string, publisher: string, description: string)

  const NoMetadata := Metadata("", "", "", "", "")

  /** One field of `extractMetadata`: the trimmed text, or the reset
      value "" where the element is missing. */
  function MetadataField(v: Option<string>): string {
    match v
    case Some(t) => Trim(t)
    case None => ""
  }

  /** `extractMetadata`. */
  function ExtractMetadata(raw: RawMetadata): Metadata {
    Metadata(MetadataField(raw.title), MetadataField(raw.creator), MetadataField(raw.language),
             MetadataField(raw.publisher), MetadataField(raw.description))
  }

  /** A metadata field is the element's text with surrounding whitespace
      removed, so it neither starts nor ends with whitespace and trimming
      it again changes nothing; a missing element leaves it empty. */
  lemma MetadataFieldTrimmed(v: Option<string>)
    ensures var f := MetadataField(v);
      && (v.None? ==> f == "")
      && (f == [] || (!IsSpace(f[0]) && !IsSpace(f[|f| - 1])))
      && Trim(f) == f
      && (v.Some? ==> |f| <= |v.value|)
  {
    if v.Some? {
      TrimEnds(v.value);
      TrimIdempotent(v.value);
    }
  }

  /** The `#bookTitle` text: the title, or "Untitled Book" when it is
      empty. */
  function DisplayTitle(md: Metadata): (t: string)
    ensures t != ""
    ensures md.title != "" ==> t == md.title
  {
    if md.title != "" then md.title else "Untitled Book"
  }

  /** The `#bookAuthor` text: the creator, or "Unknown Author" when it is
      empty. */
  function DisplayAuthor(md: Metadata): (a: string)
    ensures a != ""
    ensures md.creator != "" ==> a == md.creator
  {
    if md.creator != "" then md.creator else "Unknown Author"
  }

  // ---------------------------------------------------------------------
  // what the parsers report
  // ---------------------------------------------------------------------

  /** What the selectors of `parseEpub` read from the package document:
      the metadata, the `id`, `href`, `media-type` and `properties` of each
      `manifest > item`, the `idref` of each `spine > itemref`, and the
      spine's `toc` attribute ("" for each attribute that is absent). */
  datatype PackageDoc = PackageDoc(metadata: RawMetadata, items: seq<ItemAttrs>, spine: seq<string>, spineToc: string)

  /** The XML and HTML parsers with their selectors, as functions of the
      text they parse: the `full-path` of the container's first `rootfile`
      (None where there is no such element or attribute), the package
      document, the TOC document, the `innerHTML` of a chapter's body
      (None where there is no body), and the `src` of each `img` and the
      `href` of each `link[rel="stylesheet"]` of the displayed markup. */
  datatype Dom = Dom(rootfile: string -> Option<string>, package: string -> PackageDoc, toc: string -> TocDoc,
                     body: string -> Option<string>, images: string -> seq<string>,
                     stylesheets: string -> seq<string>)

  /** The errors `parseEpub` throws. */
  datatype LoadError =
    | MissingContainer      // "Invalid EPUB: Missing container.xml"
    | MissingRootfile       // no `rootfile` or no `full-path`: a TypeError
    | MissingPackage        // "Invalid EPUB: Missing OPF file"
    | NoReadableContent     // "No readable content found in EPUB"

  /** What `parseEpub` leaves in `book`, apart from `zip`, `currentIndex`
      and `loaded`, plus the cover it shows. */
  datatype Book = Book(rootFolder: string, metadata: Metadata, contents: seq<SpineItem>, toc: seq<TocEntry>,
                       cover: Option<string>)

  /** The `book` record as `parseEpub` resets it. */
  const ResetBook := Book("", NoMetadata, [], [], None)

  /** The archive entry `loadCoverImage` shows: the chosen cover path when
      the archive has it. */
  function CoverShown(m: Manifest, rootFolder: string, archive: Archive): (r: Option<string>)
    requires m.Valid()
    ensures r.Some? ==> r.value in archive && r.value == CoverHref(m, rootFolder) && r.value != ""
    ensures r.None? ==> CoverHref(m, rootFolder) == "" || CoverHref(m, rootFolder) !in archive
  {
    var h := CoverHref(m, rootFolder);
    if h != "" && h in archive then Some(h) else None
  }

  /** `parseEpub` as a function: the book record it leaves and the error it
      throws, if any. Each stage runs only when the previous one did not
      throw, and a throw keeps what earlier stages stored. */
  function Parse(archive: Archive, dom: Dom): (Book, Option<LoadError>) {
    if ContainerPath !in archive then (ResetBook, Some(MissingContainer))
    else match dom.rootfile(archive[ContainerPath])
      case None => (ResetBook, Some(MissingRootfile))
      case Some(path) =>
        if path !in archive then (ResetBook.(rootFolder := RootFolder(path)), Some(MissingPackage))
        else ReadPackage(archive, dom, path)
  }

  /** The stages after the package document is found. */
  function ReadPackage(archive: Archive, dom: Dom, path: string): (Book, Option<LoadError>)
    requires path in archive
  {
    var rootFolder := RootFolder(path);
    var pkg := dom.package(archive[path]);
    var m := ManifestOf(pkg.items);
    var contents := Contents(pkg.spine, m, rootFolder);
    var toc := Toc(TocPath(m, pkg.spineToc, rootFolder), archive, dom.toc, rootFolder, contents);
    var book := Book(rootFolder, ExtractMetadata(pkg.metadata), contents, toc, CoverShown(m, rootFolder, archive));
    (book, if contents == [] then Some(NoReadableContent) else None)
  }

  /** The package stages of `parseEpub` on their own: metadata, manifest,
      spine, cover and table of contents, in the order the reader runs
      them. */
  method ReadBook(archive: Archive, dom: Dom, path: string) returns (b: Book)
    requires path in archive
    ensures b == ReadPackage(archive, dom, path).0
  {
    var rootFolder := RootFolder(path);
    var pkg := dom.package(archive[path]);
    var metadata := ExtractMetadata(pkg.metadata);
    var manifest := BuildManifest(pkg.items);
    var contents := CollectContents(pkg.spine, manifest, rootFolder);
    var coverHref := FindCover(manifest, rootFolder);
    var cover := if coverHref != "" && coverHref in archive then Some(coverHref) else None;
    var toc := LoadToc(manifest, pkg.spineToc, rootFolder, contents, archive, dom.toc);
    b := Book(rootFolder, metadata, contents, toc, cover);
  }

  /** A successful parse leaves a book that can be read: at least one
      chapter, every chapter under the root folder, a table of contents
      with at least one entry and every entry opening a chapter that
      exists, and a cover only when the archive has it. */
  lemma ParseSucceeds(archive: Archive, dom: Dom)
    requires Parse(archive, dom).1.None?
    ensures var b := Parse(archive, dom).0;
      && b.contents != []
      && (forall c :: c in b.contents ==> StartsWith(c.href, b.rootFolder))
      && b.toc != [] && Navigable(b.toc, b.contents)
      && (b.cover.Some? ==> b.cover.value in archive)
  {
    var path := dom.rootfile(archive[ContainerPath]).value;
    PackageReadable(archive, dom, path);
  }

  /** What the stages after the package document leave, whether or not
      the spine named a chapter. */
  lemma PackageReadable(archive: Archive, dom: Dom, path: string)
    requires path in archive
    ensures var b := ReadPackage(archive, dom, path).0;
      && (forall c :: c in b.contents ==> StartsWith(c.href, b.rootFolder))
      && Navigable(b.toc, b.contents)
      && (b.contents != [] ==> b.toc != [])
      && (b.cover.Some? ==> b.cover.value in archive)
  {
    var rootFolder := RootFolder(path);
    var pkg := dom.package(archive[path]);
    var m := ManifestOf(pkg.items);
    var contents := Contents(pkg.spine, m, rootFolder);
    TocTotal(TocPath(m, pkg.spineToc, rootFolder), archive, dom.toc, rootFolder, contents);
    forall c | c in contents ensures StartsWith(c.href, rootFolder) {
      ContentsMembers(pkg.spine, m, rootFolder, c);
      var i :| 0 <= i < |pkg.spine| && pkg.spine[i] in m.entries && c == SpineEntry(pkg.spine[i], m, rootFolder);
      assert c.href[..|rootFolder|] == rootFolder;
    }
  }

  /** Parsing fails exactly when the container is missing, names no
      package, names a package the archive lacks, or the spine names no
      manifest item; in the last case the parsed metadata and table of
      contents are kept in `book`. */
  lemma ParseFails(archive: Archive, dom: Dom)
    ensures var (b, e) := Parse(archive, dom);
      && (e == Some(MissingContainer) <==> ContainerPath !in archive)
      && (e == Some(MissingRootfile) <==> ContainerPath in archive && dom.rootfile(archive[ContainerPath]).None?)
      && (e == Some(MissingPackage) <==>
            (ContainerPath in archive && dom.rootfile(archive[ContainerPath]).Some?
             && dom.rootfile(archive[ContainerPath]).value !in archive))
      && (e == Some(NoReadableContent) <==>
            (&& ContainerPath in archive && dom.rootfile(archive[ContainerPath]).Some?
             && dom.rootfile(archive[ContainerPath]).value in archive
             && var pkg := dom.package(archive[dom.rootfile(archive[ContainerPath]).value]);
                forall i :: 0 <= i < |pkg.spine| ==> pkg.spine[i] !in ManifestOf(pkg.items).entries))
      && (e == Some(NoReadableContent) ==>
            var pkg := dom.package(archive[dom.rootfile(archive[ContainerPath]).value]);
            b.metadata == ExtractMetadata(pkg.metadata))
      && (e.Some? && e != Some(NoReadableContent) ==> b.contents == [] && b.toc == [] && b.metadata == NoMetadata)
  {
    if ContainerPath in archive && dom.rootfile(archive[ContainerPath]).Some? {
      var path := dom.rootfile(archive[ContainerPath]).value;
      if path in archive {
        var pkg := dom.package(archive[path]);
        ContentsEmpty(pkg.spine, ManifestOf(pkg.items), RootFolder(path));
      }
    }
  }

  // ---------------------------------------------------------------------
  // the displayed chapter
  // ---------------------------------------------------------------------

  /** What `loadChapter` puts on screen for a chapter file: the sanitised
      body markup, what each of its images is shown from, the styles it
      inlines and the stylesheet links it leaves. */
  datatype View = View(content: string, images: seq<Option<string>>, styles: seq<string>, links: seq<string>)

  function ChapterView(href: string, archive: Archive, dom: Dom): (v: View)
    requires href in archive
    ensures |v.images| == |dom.images(v.content)|
    ensures |v.styles| + |v.links| == |dom.stylesheets(v.content)|
    ensures |v.content| <= |dom.body(archive[href]).GetOr(archive[href])|
  {
    var text := archive[href];
    var content := Sanitize(dom.body(text).GetOr(text));
    var (styles, links) := InlinedStyles(href, dom.stylesheets(content), archive);
    View(content, ImageSources(href, dom.images(content), archive), styles, links)
  }

  /** The body of `loadChapter` once the chapter file is found: parse it,
      sanitise the body markup, then fix its images and stylesheets. */
  method RenderChapter(href: string, archive: Archive, dom: Dom) returns (v: View)
    requires href in archive
    ensures v == ChapterView(href, archive, dom)
  {
    var text := archive[href];
    var bodyContent := match dom.body(text) case Some(b) => b case None => text;
    var content := Sanitize(bodyContent);
    var images := FixImagePaths(href, dom.images(content), archive);
    var styles, kept := FixCssPaths(href, dom.stylesheets(content), archive);
    v := View(content, images, styles, kept);
  }

  /** The outcome of a call to `loadChapter`. */
  datatype ChapterLoad =
    | Ignored           // the guard returned at once
    | Missing(href: string)  // "Chapter file not found: <href>" was shown
    | Shown(href: string)

  class Session {
    /** `book.zip`, None before the first book. */
    var zip: Option<Archive>
    var contents: seq<SpineItem>
    var toc: seq<TocEntry>
    var currentIndex: int
    var rootFolder: string
    var metadata: Metadata
    var loaded: bool
    /** The archive entry shown on the cover thumbnail. */
    var cover: Option<string>
    /** The `innerHTML` of `#content`. */
    var content: string
    /** What each image of `#content` is shown from (None: its own `src`). */
    var images: seq<Option<string>>
    /** The stylesheet links left in `#content`. */
    var links: seq<string>
    /** The `<style>` texts appended to the document head, over all
        chapters shown so far. */
    var headStyles: seq<string>

    /** Once a book is loaded the reading position is a chapter that
        exists, and every table-of-contents entry opens one. */
    ghost predicate Valid()
      reads this
    {
      && 0 <= currentIndex
      && (loaded ==> zip.Some? && currentIndex < |contents| && toc != [] && Navigable(toc, contents))
    }

    /** The initial `book` record, with the welcome markup on screen. */
    constructor (welcome: string)
      ensures Valid() && !loaded && zip.None?
      ensures contents == [] && toc == [] && currentIndex == 0 && rootFolder == "" && metadata == NoMetadata
      ensures cover.None? && content == welcome && images == [] && links == [] && headStyles == []
    {
      zip := None;
      contents := [];
      toc := [];
      currentIndex := 0;
      rootFolder := "";
      metadata := NoMetadata;
      loaded := false;
      cover := None;
      content := welcome;
      images := [];
      links := [];
      headStyles := [];
    }

    /** The effect of `loadChapter(index)`: nothing at all unless a book is
        loaded and the index is in range; otherwise the index moves, and the
        chapter is shown when the archive has its file. */
    twostate predicate LoadEffect(index: int, dom: Dom, r: ChapterLoad)
      reads this
    {
      if !old(loaded) || index < 0 || index >= |old(contents)| || old(zip).None? then
        r == Ignored && unchanged(this)
      else
        var href := old(contents)[index].href;
        var archive := old(zip).value;
        && currentIndex == index
        && zip == old(zip) && contents == old(contents) && toc == old(toc) && rootFolder == old(rootFolder)
        && metadata == old(metadata) && loaded == old(loaded) && cover == old(cover)
        && (href in archive ==>
              var v := ChapterView(href, archive, dom);
              && r == Shown(href)
              && content == v.content && images == v.images && links == v.links
              && headStyles == old(headStyles) + v.styles)
        && (href !in archive ==>
              && r == Missing(href)
              && content == old(content) && images == old(images) && links == old(links)
              && headStyles == old(headStyles))
    }

    /** `loadChapter(index)`. */
    method LoadChapter(index: int, dom: Dom) returns (r: ChapterLoad)
      requires Valid()
      modifies this
      ensures Valid()
      ensures LoadEffect(index, dom, r)
    {
      if !loaded || index < 0 || index >= |contents| {
        return Ignored;
      }
      currentIndex := index;
      var chapter := contents[index];
      var archive := zip.value;
      if chapter.href !in archive {
        return Missing(chapter.href);
      }
      var v := RenderChapter(chapter.href, archive, dom);
      content := v.content;
      images := v.images;
      headStyles := headStyles + v.styles;
      links := v.links;
      r := Shown(chapter.href);
    }

    /** `prevChapter`: a step back, only from past the first chapter. */
    method PrevChapter(dom: Dom) returns (r: ChapterLoad)
      requires Valid()
      modifies this
      ensures Valid()
      ensures old(currentIndex) > 0 ==> LoadEffect(old(currentIndex) - 1, dom, r)
      ensures old(currentIndex) <= 0 ==> r == Ignored && unchanged(this)
      ensures old(loaded) && old(currentIndex) > 0 ==> r != Ignored && currentIndex == old(currentIndex) - 1
    {
      if currentIndex > 0 {
        r := LoadChapter(currentIndex - 1, dom);
      } else {
        r := Ignored;
      }
    }

    /** `nextChapter`: a step forward, only before the last chapter. */
    method NextChapter(dom: Dom) returns (r: ChapterLoad)
      requires Valid()
      modifies this
      ensures Valid()
      ensures old(currentIndex) < |old(contents)| - 1 ==> LoadEffect(old(currentIndex) + 1, dom, r)
      ensures old(currentIndex) >= |old(contents)| - 1 ==> r == Ignored && unchanged(this)
      ensures old(loaded) && old(currentIndex) < |old(contents)| - 1 ==>
        r != Ignored && currentIndex == old(currentIndex) + 1
    {
      if currentIndex < |contents| - 1 {
        r := LoadChapter(currentIndex + 1, dom);
      } else {
        r := Ignored;
      }
    }

    /** A click on the `i`-th rendered table-of-contents entry:
        `loadChapter(item.index, item.fragment)`. With a book loaded it
        always opens the entry's chapter. */
    method OpenTocEntry(i: int, dom: Dom) returns (r: ChapterLoad)
      requires Valid() && 0 <= i < |toc|
      modifies this
      ensures Valid()
      ensures LoadEffect(old(toc)[i].index, dom, r)
      ensures old(loaded) ==> r != Ignored && currentIndex == old(toc)[i].index
    {
      assert toc[i] in toc;
      r := LoadChapter(toc[i].index, dom);
    }

    /** `parseEpub`. The book record is reset and filled stage by stage;
        a throw leaves `loaded` false with what the earlier stages stored.
        `loadChapter(0)` runs while `loaded` is still false, so its guard
        returns at once and the displayed markup is left as it was. */
    method ParseEpub(archive: Archive, dom: Dom) returns (err: Option<LoadError>)
      modifies this
      ensures Valid()
      ensures var (b, e) := Parse(archive, dom);
        && err == e && loaded == e.None?
        && zip == Some(archive) && currentIndex == 0
        && rootFolder == b.rootFolder && metadata == b.metadata && contents == b.contents && toc == b.toc
        && cover == (if b.cover.Some? then b.cover else old(cover))
      ensures content == old(content) && images == old(images) && links == old(links)
      ensures headStyles == old(headStyles)
    {
      zip := Some(archive);
      contents := [];
      toc := [];
      currentIndex := 0;
      rootFolder := "";
      metadata := NoMetadata;
      loaded := false;

      if ContainerPath !in archive {
        return Some(MissingContainer);
      }
      var rootFilePath := dom.rootfile(archive[ContainerPath]);
      if rootFilePath.None? {
        return Some(MissingRootfile);
      }
      var path := rootFilePath.value;
      var parts := Split(path, '/');
      rootFolder := Join(parts[..|parts| - 1], "");
      if |rootFolder| > 0 {
        rootFolder := rootFolder + "/";
      }
      assert rootFolder == RootFolder(path);
      if path !in archive {
        return Some(MissingPackage);
      }
      assert Parse(archive, dom) == ReadPackage(archive, dom, path);
      var b := ReadBook(archive, dom, path);
      PackageReadable(archive, dom, path);
      err := Install(b, dom);
    }

    /** Stores what the package stages read in the session, then ends
        `parseEpub`. */
    method Install(b: Book, dom: Dom) returns (err: Option<LoadError>)
      requires zip.Some? && !loaded && currentIndex == 0 && rootFolder == b.rootFolder
      requires Navigable(b.toc, b.contents) && (b.contents != [] ==> b.toc != [])
      modifies this
      ensures Valid()
      ensures err == (if b.contents == [] then Some(NoReadableContent) else None) && loaded == err.None?
      ensures zip == old(zip) && currentIndex == 0
      ensures rootFolder == b.rootFolder && metadata == b.metadata && contents == b.contents && toc == b.toc
      ensures cover == (if b.cover.Some? then b.cover else old(cover))
      ensures content == old(content) && images == old(images) && links == old(links)
      ensures headStyles == old(headStyles)
    {
      metadata := b.metadata;
      contents := b.contents;
      toc := b.toc;
      if b.cover.Some? {
        cover := b.cover;
      }
      err := StartReading(dom);
    }

    /** The end of `parseEpub`: with no chapter it throws; otherwise it calls
        `loadChapter(0)`, which returns at once because `loaded` is still
        false, and only then sets `loaded`. */
    method StartReading(dom: Dom) returns (err: Option<LoadError>)
      requires zip.Some? && !loaded && currentIndex == 0
      requires contents != [] ==> toc != [] && Navigable(toc, contents)
      modifies this
      ensures Valid()
      ensures err == (if contents == [] then Some(NoReadableContent) else None)
      ensures loaded == (contents != [])
      ensures zip == old(zip) && currentIndex == 0 && contents == old(contents) && toc == old(toc)
      ensures rootFolder == old(rootFolder) && metadata == old(metadata) && cover == old(cover)
      ensures content == old(content) && images == old(images) && links == old(links)
      ensures headStyles == old(headStyles)
    {
      if |contents| > 0 {
        var first := LoadChapter(0, dom);
        assert first == Ignored;
        loaded := true;
        err := None;
      } else {
        err := Some(NoReadableContent);
      }
    }

    /** Opening a book as `parseEpub` evidently intends: the first chapter
        is loaded once `loaded` is set, so a successful parse shows it. */
    method OpenBook(archive: Archive, dom: Dom) returns (err: Option<LoadError>, first: ChapterLoad)
      modifies this
      ensures Valid()
      ensures err == Parse(archive, dom).1 && loaded == err.None?
      ensures err.Some? ==> first == Ignored
      ensures err.None? ==>
        var b := Parse(archive, dom).0;
        var href := b.contents[0].href;
        && currentIndex == 0 && contents == b.contents && toc == b.toc
        && (href in archive ==> first == Shown(href) && content == ChapterView(href, archive, dom).content)
        && (href !in archive ==> first == Missing(href))
    {
      err := ParseEpub(archive, dom);
      if err.None? {
        ParseSucceeds(archive, dom);
        first := LoadChapter(0, dom);
      } else {
        first := Ignored;
      }
    }
  }
}
