/** The table of contents (`loadTOC`, `getElementLevel`): entries read from
    an EPUB 3 navigation document or from an NCX document, with a flat
    "Chapter N" list whenever neither yields anything. */
module Outline {
  import opened Wrappers
  import opened Strings
  import opened Package

  /** One row of `book.toc`. `index` is the position in `book.contents` the
      row opens; `level` is None where `parseInt` gives NaN. */
  datatype TocEntry = TocEntry(title: string, href: string, fragment: Option<string>, index: nat, level: Option<nat>)

  /** An anchor matched by `nav[*|type="toc"] li a, nav[role="doc-toc"] li a`:
      its text, its `href` attribute ("" when absent), and the tag names of
      its ancestors from its parent element upward, as `tagName` reports
      them. */
  datatype NavAnchor = NavAnchor(text: string, href: string, ancestors: seq<string>)

  /** A `navPoint` of an NCX document: the text of its first `navLabel text`
      ("" when there is none), the `src` of its first `content` element (""
      when there is no such element or no `src`), and its `playOrder`
      attribute ("" when absent). */
  datatype NavPoint = NavPoint(caption: string, src: string, playOrder: string)

  /** What the XML parser and the two selectors yield for the TOC document. */
  datatype TocDoc = TocDoc(anchors: seq<NavAnchor>, navPoints: seq<NavPoint>)

  // ---------------------------------------------------------------------
  // getElementLevel
  // ---------------------------------------------------------------------

  /** The element at `i` is an LI whose parent is a UL that sits inside
      another LI. */
  predicate NestedItemAt(chain: seq<string>, i: nat) {
    i + 2 < |chain| && chain[i] == "LI" && chain[i + 1] == "UL" && chain[i + 2] == "LI"
  }

  /** How many elements of the chain, before the first NAV, are nested list
      items. */
  function NestingBelowNav(chain: seq<string>): nat
    decreases |chain|
  {
    if chain == [] || chain[0] == "NAV" then 0
    else (if NestedItemAt(chain, 0) then 1 else 0) + NestingBelowNav(chain[1..])
  }

  /** The `while` loop of `getElementLevel`, walking up from the anchor's
      parent until a NAV or the top of the document. */
  method GetElementLevel(chain: seq<string>) returns (level: nat)
    ensures level == 1 + NestingBelowNav(chain)
  {
    level := 1;
    var i := 0;
    while i < |chain| && chain[i] != "NAV"
      invariant 0 <= i <= |chain|
      invariant level + NestingBelowNav(chain[i..]) == 1 + NestingBelowNav(chain)
    {
      assert chain[i..][1..] == chain[i + 1..];
      if chain[i] == "LI" {
        if i + 1 < |chain| && chain[i + 1] == "UL" && i + 2 < |chain| && chain[i + 2] == "LI" {
          level := level + 1;
        }
      }
      i := i + 1;
    }
  }

  /** Only elements below the first NAV count. */
  lemma {:induction false} NestingStopsAtNav(below: seq<string>, above: seq<string>)
    ensures NestingBelowNav(below + ["NAV"] + above) == NestingBelowNav(below + ["NAV"])
    decreases |below|
  {
    if below == [] {
    } else {
      assert (below + ["NAV"] + above)[1..] == below[1..] + ["NAV"] + above;
      assert (below + ["NAV"])[1..] == below[1..] + ["NAV"];
      NestingStopsAtNav(below[1..], above);
    }
  }

  /** Each `li > ul > li` step adds one level. */
  lemma NestingOneDeeper(rest: seq<string>)
    requires rest != [] && rest[0] == "LI"
    ensures NestingBelowNav(["LI", "UL"] + rest) == 1 + NestingBelowNav(rest)
  {
    var chain := ["LI", "UL"] + rest;
    assert chain[1..][1..] == rest;
  }

  /** With no element named exactly "LI" (an XML document reports lower-case
      `li`), every level is 1. */
  lemma {:induction false} LevelOneWithoutUpperCaseLi(chain: seq<string>)
    requires "LI" !in chain
    ensures NestingBelowNav(chain) == 0
    decreases |chain|
  {
    if chain != [] && chain[0] != "NAV" {
      NestingBelowNav_NoLi(chain);
    }
  }

  lemma {:induction false} NestingBelowNav_NoLi(chain: seq<string>)
    requires "LI" !in chain && chain != [] && chain[0] != "NAV"
    ensures NestingBelowNav(chain) == 0
    decreases |chain|
  {
    assert !NestedItemAt(chain, 0);
    var rest := chain[1..];
    assert forall x :: x in rest ==> x in chain;
    if rest != [] && rest[0] != "NAV" {
      NestingBelowNav_NoLi(rest);
    }
  }

  // ---------------------------------------------------------------------
  // href pieces and spine lookup
  // ---------------------------------------------------------------------

  /** `href.split('#')[0]`. */
  function FilePart(href: string): string {
    Split(href, '#')[0]
  }

  /** `href.split('#')[1] || null`. */
  function Fragment(href: string): Option<string> {
    var parts := Split(href, '#');
    if |parts| > 1 && parts[1] != "" then Some(parts[1]) else None
  }

  /** The file part is what precedes the first '#', and the fragment is
      what lies between the first and the second '#', None when empty or
      when there is no '#'. */
  lemma HrefPieces(file: string, frag: string, rest: string)
    requires '#' !in file && '#' !in frag
    ensures FilePart(file) == file && Fragment(file) == None
    ensures FilePart(file + "#" + frag) == file
    ensures Fragment(file + "#" + frag) == if frag == "" then None else Some(frag)
    ensures Fragment(file + "#" + frag + "#" + rest) == if frag == "" then None else Some(frag)
  {
    SplitNoSeparator(file, '#');
    SplitNoSeparator(frag, '#');
    SplitFirst(file, '#', frag);
    SplitFirst(file, '#', frag + "#" + rest);
    assert file + "#" + frag + "#" + rest == file + ['#'] + (frag + "#" + rest);
    SplitFirst(frag, '#', rest);
  }

  /** `contents.findIndex(item => item.href === href)` from position `i`,
      None for -1. */
  function FindHref(contents: seq<SpineItem>, href: string, i: nat): (r: Option<nat>)
    ensures r.Some? ==> i <= r.value < |contents| && contents[r.value].href == href
    ensures r.Some? ==> forall k :: i <= k < r.value ==> contents[k].href != href
    ensures r.None? ==> forall k :: i <= k < |contents| ==> contents[k].href != href
    decreases |contents| - i
  {
    if i >= |contents| then None
    else if contents[i].href == href then Some(i)
    else FindHref(contents, href, i + 1)
  }

  /** `index >= 0 ? index : 0`. */
  function SpineIndex(contents: seq<SpineItem>, href: string): nat {
    match FindHref(contents, href, 0)
    case Some(i) => i
    case None => 0
  }

  /** Every entry opens a chapter that exists (or 0 when there is none). */
  ghost predicate Navigable(toc: seq<TocEntry>, contents: seq<SpineItem>) {
    forall e :: e in toc ==> if contents == [] then e.index == 0 else e.index < |contents|
  }

  /** The spine index given to an href is its first exact match, else 0,
      so it is in range whenever there is a chapter. */
  lemma SpineIndexInRange(contents: seq<SpineItem>, href: string)
    ensures var k := SpineIndex(contents, href);
      && (contents == [] ==> k == 0)
      && (contents != [] ==> k < |contents|)
      && ((exists j :: 0 <= j < |contents| && contents[j].href == href) ==>
            contents[k].href == href && forall j :: 0 <= j < k ==> contents[j].href != href)
  {
  }

  // ---------------------------------------------------------------------
  // EPUB 3 navigation document
  // ---------------------------------------------------------------------

  /** The entry pushed for an anchor with a non-empty href, given the
      entries pushed so far. A link with an empty file part takes the file
      part of the previous entry's href, which already carries the root
      folder, and the root folder is prefixed again. */
  function NavEntry(prev: seq<TocEntry>, a: NavAnchor, rootFolder: string, contents: seq<SpineItem>): TocEntry {
    var own := FilePart(a.href);
    var file := if own == "" && prev != [] then FilePart(prev[|prev| - 1].href) else own;
    var fullHref := if file != "" then rootFolder + file else "";
    TocEntry(Trim(a.text), fullHref, Fragment(a.href), SpineIndex(contents, fullHref),
             Some(1 + NestingBelowNav(a.ancestors)))
  }

  /** The entries a navigation document yields: one per anchor whose href
      is not empty, in document order. */
  function NavToc(anchors: seq<NavAnchor>, rootFolder: string, contents: seq<SpineItem>): seq<TocEntry>
    decreases |anchors|
  {
    if anchors == [] then []
    else
      var prev := NavToc(anchors[..|anchors| - 1], rootFolder, contents);
      var a := anchors[|anchors| - 1];
      if a.href == "" then prev else prev + [NavEntry(prev, a, rootFolder, contents)]
  }

  /** The `forEach` over the matched anchors, pushing onto `book.toc`. */
  method BuildNavToc(anchors: seq<NavAnchor>, rootFolder: string, contents: seq<SpineItem>)
    returns (toc: seq<TocEntry>)
    ensures toc == NavToc(anchors, rootFolder, contents)
  {
    toc := [];
    for i := 0 to |anchors|
      invariant toc == NavToc(anchors[..i], rootFolder, contents)
    {
      var a := anchors[i];
      NavTocUnfold(anchors, i, rootFolder, contents);
      if a.href != "" {
        var e := ReadNavAnchor(toc, a, rootFolder, contents);
        toc := toc + [e];
      }
    }
    assert anchors[..|anchors|] == anchors;
  }

  /** The body of the `forEach` callback for an anchor with an href. */
  method ReadNavAnchor(prev: seq<TocEntry>, a: NavAnchor, rootFolder: string, contents: seq<SpineItem>)
    returns (e: TocEntry)
    ensures e == NavEntry(prev, a, rootFolder, contents)
  {
    var own := FilePart(a.href);
    var filePath := if own == "" && |prev| > 0 then FilePart(prev[|prev| - 1].href) else own;
    var fullHref := if filePath != "" then rootFolder + filePath else "";
    var index := FindHref(contents, fullHref, 0);
    var spineIndex := if index.Some? then index.value else 0;
    assert spineIndex == SpineIndex(contents, fullHref);
    var level := GetElementLevel(a.ancestors);
    var fragment := Fragment(a.href);
    e := TocEntry(Trim(a.text), fullHref, fragment, spineIndex, Some(level));
  }

  lemma NavTocUnfold(anchors: seq<NavAnchor>, i: nat, rootFolder: string, contents: seq<SpineItem>)
    requires i < |anchors|
    ensures var prev := NavToc(anchors[..i], rootFolder, contents);
      NavToc(anchors[..i + 1], rootFolder, contents)
        == if anchors[i].href == "" then prev else prev + [NavEntry(prev, anchors[i], rootFolder, contents)]
  {
    assert anchors[..i + 1][..i] == anchors[..i];
  }

  lemma {:induction false} NavTocNavigable(anchors: seq<NavAnchor>, rootFolder: string, contents: seq<SpineItem>)
    ensures Navigable(NavToc(anchors, rootFolder, contents), contents)
    decreases |anchors|
  {
    if anchors != [] {
      var prev := NavToc(anchors[..|anchors| - 1], rootFolder, contents);
      NavTocNavigable(anchors[..|anchors| - 1], rootFolder, contents);
      var a := anchors[|anchors| - 1];
      if a.href != "" {
        var e := NavEntry(prev, a, rootFolder, contents);
        SpineIndexInRange(contents, e.href);
      }
    }
  }

  /** A navigation document yields nothing exactly when every matched
      anchor has an empty href. */
  lemma {:induction false} NavTocEmpty(anchors: seq<NavAnchor>, rootFolder: string, contents: seq<SpineItem>)
    ensures NavToc(anchors, rootFolder, contents) == [] <==> forall i :: 0 <= i < |anchors| ==> anchors[i].href == ""
    decreases |anchors|
  {
    if anchors != [] {
      var init := anchors[..|anchors| - 1];
      var a := anchors[|anchors| - 1];
      NavTocEmpty(init, rootFolder, contents);
      NavTocStep(anchors, rootFolder, contents);
      assert (forall i :: 0 <= i < |anchors| ==> anchors[i].href == "")
        <==> (forall i :: 0 <= i < |init| ==> init[i].href == "") && a.href == "" by {
        assert forall i :: 0 <= i < |init| ==> init[i] == anchors[i];
      }
    }
  }

  lemma NavTocStep(anchors: seq<NavAnchor>, rootFolder: string, contents: seq<SpineItem>)
    requires anchors != []
    ensures NavToc(anchors, rootFolder, contents) == [] <==>
      NavToc(anchors[..|anchors| - 1], rootFolder, contents) == [] && anchors[|anchors| - 1].href == ""
  {
  }

  /** A link with only a fragment, after an entry whose href has a file
      part, points at that file with the root folder prefixed once more. */
  lemma NavFragmentOnlyLink(pre: seq<NavAnchor>, a: NavAnchor, rootFolder: string, contents: seq<SpineItem>, frag: string)
    requires '#' !in frag && a.href == "#" + frag
    requires var prev := NavToc(pre, rootFolder, contents);
      prev != [] && prev[|prev| - 1].href != "" && '#' !in prev[|prev| - 1].href
    ensures var prev := NavToc(pre, rootFolder, contents);
      var e := NavToc(pre + [a], rootFolder, contents)[|prev|];
      && e.href == rootFolder + prev[|prev| - 1].href
      && e.fragment == (if frag == "" then None else Some(frag))
  {
    var prev := NavToc(pre, rootFolder, contents);
    assert (pre + [a])[..|pre + [a]| - 1] == pre;
    HrefPieces("", frag, "");
    assert "" + "#" + frag == a.href;
    HrefPieces(prev[|prev| - 1].href, "", "");
  }

  /** The first link of a document, when it has only a fragment, keeps an
      empty href and opens chapter 0. */
  lemma NavFirstFragmentOnlyLink(a: NavAnchor, rootFolder: string, contents: seq<SpineItem>, frag: string)
    requires '#' !in frag && a.href == "#" + frag
    ensures var e := NavToc([a], rootFolder, contents)[0];
      && e.href == "" && e.fragment == (if frag == "" then None else Some(frag))
      && ((forall j :: 0 <= j < |contents| ==> contents[j].href != "") ==> e.index == 0)
  {
    assert [a][..0] == [];
    HrefPieces("", frag, "");
    assert "" + "#" + frag == a.href;
  }

  /** A link `file` followed by a link `#frag`: the second entry points at
      the first one's href with the root folder prefixed a second time
      (with root folder `OEBPS/`, `ch1.xhtml` then `#sec` give
      `OEBPS/ch1.xhtml` and `OEBPS/OEBPS/ch1.xhtml`). */
  lemma NavDoublePrefix(a1: NavAnchor, a2: NavAnchor, rootFolder: string, contents: seq<SpineItem>,
                        file: string, frag: string)
    requires '#' !in rootFolder && '#' !in file && '#' !in frag && file != "" && frag != ""
    requires a1.href == file && a2.href == "#" + frag
    ensures var toc := NavToc([a1, a2], rootFolder, contents);
      |toc| == 2 && toc[0].href == rootFolder + file && toc[1].href == rootFolder + rootFolder + file
      && toc[1].fragment == Some(frag)
  {
    assert [a1, a2][..1] == [a1];
    assert [a1][..0] == [];
    HrefPieces(file, "", "");
    assert NavToc([], rootFolder, contents) == [];
    var prev := NavToc([a1], rootFolder, contents);
    assert prev == [] + [NavEntry([], a1, rootFolder, contents)];
    assert prev[0].href == rootFolder + file;
    assert '#' !in prev[0].href;
    NavFragmentOnlyLink([a1], a2, rootFolder, contents, frag);
    assert [a1] + [a2] == [a1, a2];
  }

  // ---------------------------------------------------------------------
  // NCX document
  // ---------------------------------------------------------------------

  /** `parseInt(playOrder || '1')`. */
  function PlayOrderLevel(playOrder: string): Option<nat> {
    ParseInt(if playOrder == "" then "1" else playOrder)
  }

  /** A navPoint is kept when its trimmed label and its `src` are not empty. */
  predicate KeepsNavPoint(p: NavPoint) {
    Trim(p.caption) != "" && p.src != ""
  }

  /** The entry pushed for a kept navPoint: no inheritance, the root folder
      prefixed once, the level read from `playOrder`. */
  function NcxEntry(p: NavPoint, rootFolder: string, contents: seq<SpineItem>): TocEntry {
    var fullHref := rootFolder + FilePart(p.src);
    TocEntry(Trim(p.caption), fullHref, Fragment(p.src), SpineIndex(contents, fullHref), PlayOrderLevel(p.playOrder))
  }

  /** The entries an NCX document yields: one per kept navPoint, in order. */
  function NcxToc(points: seq<NavPoint>, rootFolder: string, contents: seq<SpineItem>): seq<TocEntry>
    decreases |points|
  {
    if points == [] then []
    else
      var prev := NcxToc(points[..|points| - 1], rootFolder, contents);
      var p := points[|points| - 1];
      if KeepsNavPoint(p) then prev + [NcxEntry(p, rootFolder, contents)] else prev
  }

  /** The `forEach` over the navPoints, pushing onto `book.toc`. */
  method BuildNcxToc(points: seq<NavPoint>, rootFolder: string, contents: seq<SpineItem>)
    returns (toc: seq<TocEntry>)
    ensures toc == NcxToc(points, rootFolder, contents)
  {
    toc := [];
    for i := 0 to |points|
      invariant toc == NcxToc(points[..i], rootFolder, contents)
    {
      var p := points[i];
      NcxTocUnfold(points, i, rootFolder, contents);
      var title := Trim(p.caption);
      if title != "" && p.src != "" {
        var e := ReadNavPoint(p, rootFolder, contents);
        toc := toc + [e];
      }
    }
    assert points[..|points|] == points;
  }

  /** The body of the `forEach` callback for a navPoint that is kept. */
  method ReadNavPoint(p: NavPoint, rootFolder: string, contents: seq<SpineItem>) returns (e: TocEntry)
    ensures e == NcxEntry(p, rootFolder, contents)
  {
    var fullHref := rootFolder + FilePart(p.src);
    var index := FindHref(contents, fullHref, 0);
    e := TocEntry(Trim(p.caption), fullHref, Fragment(p.src), if index.Some? then index.value else 0,
                  PlayOrderLevel(p.playOrder));
  }

  lemma NcxTocUnfold(points: seq<NavPoint>, i: nat, rootFolder: string, contents: seq<SpineItem>)
    requires i < |points|
    ensures var prev := NcxToc(points[..i], rootFolder, contents);
      NcxToc(points[..i + 1], rootFolder, contents)
        == if KeepsNavPoint(points[i]) then prev + [NcxEntry(points[i], rootFolder, contents)] else prev
  {
    assert points[..i + 1][..i] == points[..i];
  }

  /** Every NCX entry has a title, an href under the root folder, and opens
      a chapter that exists. */
  lemma {:induction false} NcxTocEntries(points: seq<NavPoint>, rootFolder: string, contents: seq<SpineItem>)
    ensures Navigable(NcxToc(points, rootFolder, contents), contents)
    ensures forall e :: e in NcxToc(points, rootFolder, contents) ==>
      e.title != "" && StartsWith(e.href, rootFolder)
    decreases |points|
  {
    if points != [] {
      var prev := NcxToc(points[..|points| - 1], rootFolder, contents);
      NcxTocEntries(points[..|points| - 1], rootFolder, contents);
      var p := points[|points| - 1];
      if KeepsNavPoint(p) {
        var e := NcxEntry(p, rootFolder, contents);
        SpineIndexInRange(contents, e.href);
        assert e.href[..|rootFolder|] == rootFolder;
      }
    }
  }

  /** An NCX document yields nothing exactly when no navPoint has both a
      title and a `src`. */
  lemma {:induction false} NcxTocEmpty(points: seq<NavPoint>, rootFolder: string, contents: seq<SpineItem>)
    ensures NcxToc(points, rootFolder, contents) == [] <==> forall i :: 0 <= i < |points| ==> !KeepsNavPoint(points[i])
    decreases |points|
  {
    if points != [] {
      var init := points[..|points| - 1];
      var a := points[|points| - 1];
      NcxTocEmpty(init, rootFolder, contents);
      NcxTocStep(points, rootFolder, contents);
      if NcxToc(points, rootFolder, contents) == [] {
        assert NcxToc(init, rootFolder, contents) == [] && !KeepsNavPoint(a);
        forall i | 0 <= i < |points| ensures !KeepsNavPoint(points[i]) {
          if i < |init| {
            assert points[i] == init[i] && !KeepsNavPoint(init[i]);
          } else {
            assert i == |points| - 1;
          }
        }
      } else if !KeepsNavPoint(a) {
        var i :| 0 <= i < |init| && KeepsNavPoint(init[i]);
        assert points[i] == init[i];
      }
    }
  }

  lemma NcxTocStep(points: seq<NavPoint>, rootFolder: string, contents: seq<SpineItem>)
    requires points != []
    ensures NcxToc(points, rootFolder, contents) == [] <==>
      NcxToc(points[..|points| - 1], rootFolder, contents) == [] && !KeepsNavPoint(points[|points| - 1])
  {
  }

  /** A missing `playOrder` gives level 1; a decimal one gives its value
      (a reading-order number used as a depth). */
  lemma PlayOrderLevels(n: nat)
    ensures PlayOrderLevel("") == Some(1)
    ensures PlayOrderLevel(NatToString(n)) == Some(n)
  {
    ParseIntNatToString(1);
    ParseIntNatToString(n);
    assert NatToString(1) == "1";
  }

  // ---------------------------------------------------------------------
  // flat fallback and the whole of loadTOC
  // ---------------------------------------------------------------------

  function ChapterEntry(contents: seq<SpineItem>, i: nat): TocEntry
    requires i < |contents|
  {
    TocEntry("Chapter " + NatToString(i + 1), contents[i].href, None, i, Some(1))
  }

  /** `book.contents.map((item, index) => ...)`: one "Chapter N" entry per
      spine item. */
  function FlatToc(contents: seq<SpineItem>): seq<TocEntry> {
    seq(|contents|, i requires 0 <= i < |contents| => ChapterEntry(contents, i))
  }

  /** The flat list has exactly one entry per chapter, in spine order,
      opening that chapter at level 1 with no fragment, and no two of its
      titles are equal. */
  lemma FlatTocShape(contents: seq<SpineItem>)
    ensures var toc := FlatToc(contents);
      && |toc| == |contents|
      && (forall i :: 0 <= i < |toc| ==>
            && toc[i].title == "Chapter " + NatToString(i + 1)
            && toc[i].href == contents[i].href && toc[i].index == i
            && toc[i].level == Some(1) && toc[i].fragment == None)
      && (forall i, j :: 0 <= i < j < |toc| ==> toc[i].title != toc[j].title)
      && Navigable(toc, contents)
  {
    var toc := FlatToc(contents);
    forall i, j | 0 <= i < j < |toc| ensures toc[i].title != toc[j].title {
      NatToStringInjective(i + 1, j + 1);
      var p := "Chapter ";
      assert toc[i].title[|p|..] == NatToString(i + 1);
      assert toc[j].title[|p|..] == NatToString(j + 1);
    }
    forall e | e in toc ensures if contents == [] then e.index == 0 else e.index < |contents| {
      var i :| 0 <= i < |toc| && toc[i] == e;
    }
  }

  /** The table of contents `loadTOC` leaves in `book.toc`, given the path
      it chose: the flat list when there is no path, when the archive has no
      such entry (the thrown "TOC file not found" is caught), or when the
      chosen dialect yields no entry. */
  function Toc(tocPath: string, archive: Archive, parseToc: string -> TocDoc, rootFolder: string,
               contents: seq<SpineItem>): seq<TocEntry>
  {
    if tocPath == "" || tocPath !in archive then FlatToc(contents)
    else
      var doc := parseToc(archive[tocPath]);
      var entries := if |doc.anchors| > 0 then NavToc(doc.anchors, rootFolder, contents)
                     else NcxToc(doc.navPoints, rootFolder, contents);
      if entries == [] then FlatToc(contents) else entries
  }

  /** `loadTOC`. */
  method LoadToc(m: Manifest, spineToc: string, rootFolder: string, contents: seq<SpineItem>,
                 archive: Archive, parseToc: string -> TocDoc) returns (toc: seq<TocEntry>)
    requires m.Valid()
    ensures toc == Toc(TocPath(m, spineToc, rootFolder), archive, parseToc, rootFolder, contents)
  {
    var tocPath := FindTocPath(m, spineToc, rootFolder);
    if tocPath != "" {
      if tocPath !in archive {
        toc := FlatToc(contents);
      } else {
        var doc := parseToc(archive[tocPath]);
        toc := [];
        if |doc.anchors| > 0 {
          toc := BuildNavToc(doc.anchors, rootFolder, contents);
        } else if |doc.navPoints| > 0 {
          toc := BuildNcxToc(doc.navPoints, rootFolder, contents);
        }
        if |toc| == 0 {
          toc := FlatToc(contents);
        }
      }
    } else {
      toc := FlatToc(contents);
    }
  }

  /** The fallback chain is total: with at least one chapter there is at
      least one entry, every entry opens a chapter that exists, and when the
      flat list is used it has exactly one entry per chapter. */
  lemma TocTotal(tocPath: string, archive: Archive, parseToc: string -> TocDoc, rootFolder: string,
                 contents: seq<SpineItem>)
    ensures var toc := Toc(tocPath, archive, parseToc, rootFolder, contents);
      && Navigable(toc, contents)
      && (contents != [] ==> toc != [])
      && (tocPath == "" || tocPath !in archive ==> toc == FlatToc(contents) && |toc| == |contents|)
  {
    FlatTocShape(contents);
    if tocPath != "" && tocPath in archive {
      var doc := parseToc(archive[tocPath]);
      NavTocNavigable(doc.anchors, rootFolder, contents);
      NcxTocEntries(doc.navPoints, rootFolder, contents);
    }
  }

  /** A table-of-contents file that exists but yields no entry also gives
      the flat list: a nav document whose anchors all lack an href, or an
      NCX document with no navPoint holding both a title and a `src`.
      Otherwise the entries are the chosen dialect's. */
  lemma TocFallback(tocPath: string, archive: Archive, parseToc: string -> TocDoc, rootFolder: string,
                    contents: seq<SpineItem>)
    requires tocPath != "" && tocPath in archive
    ensures var doc := parseToc(archive[tocPath]);
      var toc := Toc(tocPath, archive, parseToc, rootFolder, contents);
      && (|doc.anchors| > 0 && (forall i :: 0 <= i < |doc.anchors| ==> doc.anchors[i].href == "") ==>
            toc == FlatToc(contents))
      && (|doc.anchors| > 0 && (exists i :: 0 <= i < |doc.anchors| && doc.anchors[i].href != "") ==>
            toc == NavToc(doc.anchors, rootFolder, contents))
      && (|doc.anchors| == 0 && (forall i :: 0 <= i < |doc.navPoints| ==> !KeepsNavPoint(doc.navPoints[i])) ==>
            toc == FlatToc(contents))
      && (|doc.anchors| == 0 && (exists i :: 0 <= i < |doc.navPoints| && KeepsNavPoint(doc.navPoints[i])) ==>
            toc == NcxToc(doc.navPoints, rootFolder, contents))
  {
    var doc := parseToc(archive[tocPath]);
    NavTocEmpty(doc.anchors, rootFolder, contents);
    NcxTocEmpty(doc.navPoints, rootFolder, contents);
  }
}
