# EPUB reader core, modelled in Dafny

This project models the book-handling logic of `renderer.js`, the renderer
script of an Electron EPUB reader. The model covers:

- how `parseEpub` turns an archive into the global `book` record. It reads
  the container, derives the root folder, builds the manifest and the spine
  (`contents`), picks the cover and loads the table of contents
  (`loadTOC`, `getElementLevel`).
- how `loadChapter`, `prevChapter`, `nextChapter` and a click on a
  table-of-contents entry move the reading position and replace the
  displayed chapter.
- the string work done at chapter time: `sanitizeAndProcessHtml` and the
  path arithmetic of `fixImagePaths` and `fixCssPaths`.
- the font-size and theme controls (`zoomIn`, `zoomOut`, `cycleTheme`).

The EPUB archive is a map from entry path to entry text. The XML and HTML
parsers, with their selectors, are a `Dom` value of functions from text to
the attribute records the selectors return. An element's ancestors are a
sequence of tag names, as `tagName` reports them.

Modules:

| file | module | what it holds |
|---|---|---|
| `wrappers.dfy` | `Wrappers` | `Option` |
| `strings.dfy` | `Strings` | the JavaScript string operations the code uses: `split`, `join`, `includes`, `startsWith`, a non-global `replace`, `toLowerCase`, `trim` and decimal `parseInt` |
| `package.dfy` | `Package` | the root folder, the manifest, the spine, and the cover and TOC-path searches |
| `outline.dfy` | `Outline` | nav-document and NCX table-of-contents entries, the element level, the flat fallback and `loadTOC` |
| `sanitizer.dfy` | `Sanitizer` | the four regular-expression deletions |
| `resources.dfy` | `Resources` | resolving image and stylesheet references against the chapter path, and the loops over them |
| `reader.dfy` | `Reader` | metadata, `parseEpub` as a function and as a method on a `Session` class holding `book` and the displayed chapter, and chapter navigation |
| `preferences.dfy` | `Preferences` | the font-size clamps and the theme cycle |

The code's quirks are modelled as written:

- `rootFolder` joins the directory segments with `''`, so `a/b/c.opf` gives
  `ab/`.
- Path resolution replaces only the first `/../` with `/` and keeps the
  directory before it. From `text/ch1.xhtml`, `../images/cover.jpg` becomes
  `text/images/cover.jpg`.
- A nav link that is only a fragment takes the previous entry's stored
  href. That href already carries the root folder, and it gets the prefix a
  second time.
- The `properties` tests are substring tests on the whole attribute.
- `tagName` is compared with upper-case `LI` and `NAV`. In a document parsed
  as XML, tag names keep their lower case, so nav levels there stay at 1
  (`Outline.LevelOneWithoutUpperCaseLi`).
- The cover thumbnail is only ever set, never cleared. A book without a
  cover keeps the previous book's cover.
- The `<style>` elements appended to the document head accumulate across
  chapters.

## Model

| member | source | states |
|---|---|---|
| Strings.ConcatSplit | renderer.js:234 | joining the `/`-split pieces of a path with `''` gives the path with every `/` removed |
| Strings.JoinSplit | renderer.js:559 | splitting on a character and joining with that character gives back the string |
| Strings.SplitLast | renderer.js:559 | splitting `a/b`, where `b` has no separator, gives the pieces of `a` followed by `b` |
| Strings.FindFrom | renderer.js:567 | the search behind the non-global regex `replace(/\/\.\.\//, '/')`: the first position at or after `i` where the pattern occurs, and with no result it occurs nowhere after `i` |
| Strings.TrimEnds | renderer.js:284 | trimmed text neither starts nor ends with JavaScript whitespace |
| Strings.TrimIdempotent | renderer.js:284 | trimming twice is trimming once |
| Strings.ParseIntNatToString | renderer.js:409 | `parseInt` reads back the decimal numeral of every natural number |
| Package.RootFolderAtTop | renderer.js:234-235 | a package path without `/` gives the empty root folder |
| Package.RootFolderNested | renderer.js:234-235 | the root folder of `dirs/name` is `dirs` with its separators removed, plus a trailing `/` unless that is empty |
| Package.RootFolderOneLevel | renderer.js:234-235 | `OEBPS/content.opf` gives `OEBPS/` |
| Package.RootFolderTwoLevels | renderer.js:234-235 | `a/b/c.opf` gives `ab/` |
| Package.ManifestOf | renderer.js:246-253 | the manifest lists each id once, and its order covers exactly the stored ids |
| Package.FirstOccurrences | renderer.js:246-253 | each distinct id once, and exactly the ids that occur |
| Package.FirstOccurrencesOrdered | renderer.js:246-253 | of two listed ids, the earlier one occurs in the items before every occurrence of the later one |
| Package.ManifestOrder | renderer.js:246-253 | the manifest's keys are the items' ids in order of first occurrence, the order in which the `for...in` searches visit them |
| Package.ManifestHasId | renderer.js:247-252 | an id is in the manifest if and only if some item carries it |
| Package.ManifestLastWins | renderer.js:252 | when several items share an id, the last one is stored |
| Package.BuildManifest | renderer.js:246-253 | the `forEach` loop builds exactly the manifest of all items |
| Package.Contents | renderer.js:255-265 | at most one chapter per spine itemref |
| Package.ContentsAppend | renderer.js:256-265 | the chapters of a spine are the chapters of its first part followed by those of the rest, so spine order is kept |
| Package.ContentsMembers | renderer.js:258-263 | a chapter is present if and only if some itemref names a manifest item, with href `rootFolder + item.href` and that item's media type |
| Package.ContentsEmpty | renderer.js:256-278 | there is no chapter, which makes parsing throw, if and only if no itemref names a manifest item |
| Package.CollectContents | renderer.js:255-265 | the `forEach` loop pushes exactly the spine's chapters |
| Package.FirstFrom | renderer.js:305-310 | a `for...in` loop with `break` stops at the first manifest entry that passes the test, and finds none only when no entry passes |
| Package.SearchManifest | renderer.js:304-309 | a `for...in` with `break` settles on the path of the first entry, in manifest order, that passes the test, and on '' when none does |
| Package.FindCover | renderer.js:302-320 | the two search loops of `loadCoverImage` settle on the chosen cover path |
| Package.FindTocPath | renderer.js:338-357 | the search loops of `loadTOC` settle on the chosen TOC path |
| Package.CoverByProperty | renderer.js:305-310 | the first entry whose `properties` contains `cover-image` gives the cover |
| Package.CoverByName | renderer.js:311-320 | with no such property, the first image entry whose lower-cased id contains `cover` gives the cover; with none, there is no cover |
| Package.TocPathChoice | renderer.js:338-357 | a `nav` property wins, then the spine's `toc` attribute; with neither, the first NCX entry's path is used, and without an NCX entry there is no TOC path |
| Outline.GetElementLevel | renderer.js:446-459 | the loop returns 1 plus the number of nested `LI` items below the first `NAV` |
| Outline.NestingStopsAtNav | renderer.js:449 | ancestors above the first `NAV` do not change the level |
| Outline.NestingOneDeeper | renderer.js:450-454 | an `LI` inside a `UL` inside an `LI` adds one level |
| Outline.LevelOneWithoutUpperCaseLi | renderer.js:449-457 | a chain without upper-case `LI` has level 1 |
| Outline.HrefPieces | renderer.js:374-385 | the file part is what precedes the first `#`; the fragment lies between the first and second `#` and is null when empty or missing |
| Outline.FindHref | renderer.js:381 | `findIndex` returns the first chapter with exactly that href, and none when no chapter has it |
| Outline.SpineIndexInRange | renderer.js:381-386 | the entry index is the first exact match, else 0, so it is in range whenever there is a chapter |
| Outline.BuildNavToc | renderer.js:368-390 | the `forEach` loop over nav anchors pushes exactly the nav entries; its callback body (`ReadNavAnchor`) builds each entry, borrowing the previous entry's file for a fragment-only link |
| Outline.NavTocNavigable | renderer.js:370-388 | every nav entry opens a chapter that exists |
| Outline.NavTocEmpty | renderer.js:369-390 | a nav document yields no entry if and only if every anchor's href is empty |
| Outline.NavFragmentOnlyLink | renderer.js:376-380 | a fragment-only link takes the previous entry's href with the root folder prefixed again |
| Outline.NavFirstFragmentOnlyLink | renderer.js:376-386 | a fragment-only first link keeps an empty href and opens chapter 0 |
| Outline.NavDoublePrefix | renderer.js:377-380 | after `file`, a link `#frag` gets href `rootFolder + rootFolder + file` |
| Outline.BuildNcxToc | renderer.js:392-414 | the `forEach` loop over navPoints pushes exactly the NCX entries; its callback body (`ReadNavPoint`) builds each entry |
| Outline.NcxTocEntries | renderer.js:394-410 | every NCX entry has a title, an href under the root folder, and an index that opens a chapter |
| Outline.NcxTocEmpty | renderer.js:394-413 | an NCX document yields no entry if and only if no navPoint has both a title and a `src` |
| Outline.PlayOrderLevels | renderer.js:409 | a missing `playOrder` gives level 1, and a numeral gives its value |
| Outline.FlatTocShape | renderer.js:416-443 | the fallback has one entry per chapter: title `Chapter i+1`, the chapter's href, index `i`, level 1, no fragment, and all titles distinct |
| Outline.LoadToc | renderer.js:337-443 | `loadTOC` leaves the table of contents chosen from the TOC path |
| Outline.TocTotal | renderer.js:358-443 | every entry opens a chapter; with a chapter there is at least one entry; a missing path or file gives the flat list |
| Outline.TocFallback | renderer.js:368-443 | a TOC file that exists but yields no entry (every nav href empty, or no navPoint with both a title and a `src`) also gives the flat list; otherwise the chosen dialect's entries are kept |
| Sanitizer.FindClose | renderer.js:552 | the first closing tag at or after a position, ignoring ASCII case |
| Sanitizer.Strip | renderer.js:552 | one global replacement never lengthens the markup |
| Sanitizer.Sanitize | renderer.js:550-556 | sanitizing never lengthens the markup |
| Sanitizer.StripUnclosed | renderer.js:552 | markup without a closing tag is unchanged, so an unclosed opening tag stays in place |
| Sanitizer.SanitizePlain | renderer.js:550-556 | markup without `<` is unchanged |
| Sanitizer.StripPlainPrefix | renderer.js:552 | text before the first `<` is kept, and the rest is replaced on its own |
| Sanitizer.StripElement | renderer.js:552 | an element from `<tag` (any case, at a word boundary) to its first closing tag is deleted whole, whatever other markup, `<` included, lies between them |
| Sanitizer.SanitizeDropsScript | renderer.js:552 | a leading script element in any case, holding any content short of a closing tag, is deleted, and what follows is sanitized on its own |
| Sanitizer.SanitizeScriptInText | renderer.js:550-556 | plain text around a script element is all that remains, whatever the script holds short of a closing tag |
| Sanitizer.StripScriptInText | renderer.js:552 | one pass of the script replacement deletes a script element set in plain text, whatever it holds short of a closing tag, and keeps the text |
| Sanitizer.NoSlashNoCloser | renderer.js:552 | content in which no `<` is followed by `/` holds no closing tag, so it never ends an element early |
| Sanitizer.SanitizeNoCloser | renderer.js:550-556 | markup with no room for a closing tag of the four elements is unchanged |
| Sanitizer.SanitizeExample | renderer.js:550-556 | `<script>alert(1)</script><p>ok</p>` becomes `<p>ok</p>` |
| Sanitizer.SanitizeScriptWithLess | renderer.js:552 | a script whose code holds a comparison `a<b` is still deleted whole |
| Sanitizer.SanitizeComparisonExample | renderer.js:550-556 | `<script>if(a<b)f()</script><p>ok</p>` becomes `<p>ok</p>` |
| Resources.DirOf | renderer.js:559 | the base path of `a/b` is `a` |
| Resources.DirAtTop | renderer.js:559 | a chapter without `/` has an empty base path |
| Resources.DropDotSlash | renderer.js:566 | one leading `./` is dropped, and nothing else changes |
| Resources.Resolve | renderer.js:563-567 | a reference is skipped if and only if it is empty, starts with `http`, or is an image reference starting with `data:` |
| Resources.Target | renderer.js:567-569 | a resolved path is used only when the archive has it |
| Resources.LookUp | renderer.js:563-568 | the callback steps up to `zip.file` (the skip tests and both replacements) compute exactly the archive entry `Target` names |
| Resources.ResolveAtTop | renderer.js:567 | at the top of the archive, the reference without its `./` is the path |
| Resources.ResolveInFolder | renderer.js:567 | in a folder without `/../`, the path is `dir/` plus the reference without its `./` |
| Resources.ResolveParentDropped | renderer.js:567 | `../rest` from `dir/name`, where `dir` holds no `/..`, resolves to `dir/rest`, keeping `dir` |
| Resources.DataReferences | renderer.js:565 | a `data:` reference is skipped for an image but looked up for a stylesheet |
| Resources.ImageSources | renderer.js:558-581 | one outcome per image |
| Resources.FixImagePaths | renderer.js:558-581 | the loop over images computes each image's outcome |
| Resources.ImageSourcesSound | renderer.js:563-572 | an image is shown from an archive entry exactly when its reference resolves to a path the archive has |
| Resources.InlinedStyles | renderer.js:583-606 | every stylesheet link is either inlined or kept |
| Resources.FixCssPaths | renderer.js:583-606 | the loop over links inlines and keeps exactly as specified |
| Resources.InlinedStylesPartition | renderer.js:588-599 | each inlined style is the text of a link's resolved entry, and each kept link did not resolve to an entry |
| Resources.NothingInlined | renderer.js:593-599 | when no link resolves, every link is kept and nothing is inlined |
| Reader.MetadataFieldTrimmed | renderer.js:283-296 | a metadata field is its element's trimmed text, or empty when the element is missing |
| Reader.DisplayTitle | renderer.js:298 | the shown title is never empty, and is the book's title when that is not empty |
| Reader.DisplayAuthor | renderer.js:299 | the shown author is never empty, and is the creator when that is not empty |
| Reader.CoverShown | renderer.js:321-330 | the cover is shown only from an archive entry that is the chosen cover path |
| Reader.ReadBook | renderer.js:243-269 | the package stages compute the book that `parseEpub` describes |
| Reader.ParseSucceeds | renderer.js:206-280 | a successful parse leaves at least one chapter, all under the root folder, a non-empty table of contents whose entries open chapters, and a cover only from the archive |
| Reader.PackageReadable | renderer.js:255-269 | after the package stages, every chapter is under the root folder, every entry opens a chapter, and a chapter implies an entry |
| Reader.ParseFails | renderer.js:224-279 | each error is thrown exactly under its condition, both directions, including "no readable content" exactly when the package is found and no spine idref names a manifest item; an early throw leaves the reset book, and an empty spine keeps the metadata |
| Reader.ChapterView | renderer.js:519-527 | the displayed chapter has one outcome per image, accounts for every stylesheet link, and is no longer than the chapter body |
| Reader.Session.constructor | renderer.js:4-18 | the initial `book` record: nothing loaded, no chapters, index 0 |
| Reader.RenderChapter | renderer.js:520-527 | a found chapter is shown as its sanitised body with its images and stylesheets fixed against the chapter's folder |
| Reader.Session.LoadChapter | renderer.js:508-548 | nothing changes unless a book is loaded and the index is in range; otherwise the index moves before the file lookup, and the chapter is shown only when its file exists |
| Reader.Session.PrevChapter | renderer.js:162-164 | a step back happens only past the first chapter |
| Reader.Session.NextChapter | renderer.js:166-168 | a step forward happens only before the last chapter; at the last chapter nothing changes |
| Reader.Session.OpenTocEntry | renderer.js:477-481 | with a book loaded, clicking an entry always opens its chapter |
| Reader.Session.ParseEpub | renderer.js:206-280 | the session holds the parsed book; `loaded` is set exactly when parsing succeeds; the displayed chapter is left unchanged |
| Reader.Session.Install | renderer.js:243-279 | the parsed book is stored, and the session invariant holds |
| Reader.Session.StartReading | renderer.js:274-279 | with no chapter it throws; otherwise `loadChapter(0)` returns at once, then `loaded` is set |
| Reader.Session.OpenBook | renderer.js:274-276 | after a successful parse the first chapter is shown |
| Preferences.ZoomedIn | renderer.js:98-101 | zooming in never exceeds 32 and never shrinks a size within range |
| Preferences.ZoomedOut | renderer.js:103-106 | zooming out never goes below 12 and never grows a size within range |
| Preferences.NextTheme | renderer.js:75-77 | the next theme is a different, valid theme |
| Preferences.ThemeIcon | renderer.js:83-96 | an icon is chosen exactly for the three theme names |
| Preferences.ZoomRoundTrip | renderer.js:98-106 | zooming in then out, or out then in, restores any size that neither step clamped |
| Preferences.ZoomKeepsRange | renderer.js:98-106 | both buttons keep the size within 12 to 32 |
| Preferences.ZoomInReachesMax | renderer.js:98-101 | enough zoom-in clicks reach 32 and stay there |
| Preferences.ZoomOutReachesMin | renderer.js:103-106 | enough zoom-out clicks reach 12 and stay there |
| Preferences.ThemeCycle | renderer.js:75-77 | three clicks return to the starting theme, passing through all three |
| Preferences.ThemeIconsDistinct | renderer.js:83-96 | every theme has its own icon |
| Preferences.Settings.constructor | renderer.js:20-22 | font size 18 and the light theme |
| Preferences.Settings.Theme | renderer.js:77 | the theme name set on the document is one of the three |
| Preferences.Settings.ZoomIn | renderer.js:98-101 | the font size becomes the zoomed-in size, and the theme is unchanged |
| Preferences.Settings.ZoomOut | renderer.js:103-106 | the font size becomes the zoomed-out size, and the theme is unchanged |
| Preferences.Settings.CycleTheme | renderer.js:75-79 | the theme becomes the next one, and its icon is shown |

## Left out

- `preload.js` is not part of this model. It only bridges Electron IPC and file access.
- JSZip (`loadAsync`, `file(...).async`), `DOMParser` and CSS-selector matching are abstract inputs: an archive map and the `Dom` functions. A `loadAsync` failure on a corrupt file is not modelled.
- `loadEpub`, `FileReader`, `Blob` and `URL.createObjectURL`: I/O. An image or cover is modelled as the archive entry it is shown from.
- UI effects are left out: overlays, error banners and their timers, `renderToc` and its `level-N` classes, `updateUIControls`, `updateActiveTocItem`, `toggleTOC` and event listeners.
- `localStorage` and `initializeUI`: the preferences are not saved or restored. `Preferences.Settings` starts from the initial globals.
- Page and progress computation (renderer.js:135-160): floating-point arithmetic over scroll measurements.
- Fragment scrolling (`scrollIntoView`, `scrollTop`) in `loadChapter`: DOM effect. The fragment is recorded in each table-of-contents entry.
- The image and stylesheet callbacks are `async` and run concurrently. The model runs them in order. Each callback touches only its own element, but the appended `<style>` elements may land in the order the reads finish, which the model does not capture. Exceptions inside the callbacks are not modelled.
- `Reader.Session.LoadChapter`, `Reader.Session.PrevChapter`, `Reader.Session.NextChapter` and `Reader.Session.OpenTocEntry` run each chapter load to completion before the next begins. In the code, `prevChapter`, `nextChapter` (renderer.js:162-168) and the table-of-contents click handler (renderer.js:477-481) call the async `loadChapter` without `await`. `loadChapter` sets `book.currentIndex` (renderer.js:514) before it awaits the file read (renderer.js:519). Two quick clicks therefore move the index twice, and the chapter left on screen is whichever read finishes last, which can differ from `currentIndex`. This interleaving at the file read is not captured.
- `Reader.Session.LoadChapter`: an exception from the HTML parser, or a `blob` read that fails, is not modelled. The only error path is the missing chapter file.
- `Strings.ParseInt` reads decimal digits after leading whitespace. A sign, a `0x` prefix and a NaN value that is still a number are not modelled (None stands for NaN).
- `Package.ManifestOf` keeps ids in order of first occurrence (`Package.ManifestOrder`). JavaScript's `for...in` visits integer-like keys first, and that order is not modelled.
- `Package.ItemAttrs`: an absent `id` or `href` is the empty string. JavaScript would turn a null id into the key `"null"` and a null href into the text `"null"`.
- `Strings.Lower` lowers ASCII letters only. For the test `includes('cover')` this gives the same result as full Unicode lowering, except for characters whose lower case is an ASCII letter.
- A thrown `TypeError` when the container has no `rootfile` element or no `full-path` becomes `MissingRootfile`.

## Findings

| source | as written | input that shows it | evidently intended | confidence | as-written member | corrected member |
|---|---|---|---|---|---|---|
| renderer.js:274-276 | `parseEpub` awaits `loadChapter(0)` before `book.loaded = true`. The guard at line 509 then returns at once, so the first chapter is not displayed when the book opens; it appears only when the user navigates back to it. | any archive that parses, e.g. a container naming `content.opf` whose spine names one manifest item | after a successful parse, the first chapter is on screen when the book opens | high, not executed | Reader.Session.StartReading | Reader.Session.OpenBook |
