/** `fixImagePaths` and `fixCssPaths`: after a chapter is shown, the
    relative `src` of each image and `href` of each stylesheet link is
    resolved against the chapter's folder and looked up in the archive. An
    image found there is shown from the archive; a stylesheet found there is
    inlined into the document head and its link removed. */
module Resources {
  import opened Wrappers
  import opened Strings
  import opened Package

  datatype ResourceKind = Image | Stylesheet

  /** `chapterPath.split('/').slice(0, -1).join('/')`: the chapter's folder,
      "" at the top of the archive. */
  function Dir(chapterPath: string): string {
    var parts := Split(chapterPath, '/');
    Join(parts[..|parts| - 1], "/")
  }

  /** The folder of `a/b` is `a`. */
  lemma DirOf(a: string, b: string)
    requires '/' !in b
    ensures Dir(a + "/" + b) == a
  {
    SplitLast(a, '/', b);
    var parts := Split(a + "/" + b, '/');
    assert parts[..|parts| - 1] == Split(a, '/');
    JoinSplit(a, '/');
  }

  /** A chapter at the top of the archive has no folder. */
  lemma DirAtTop(p: string)
    requires '/' !in p
    ensures Dir(p) == ""
  {
    SplitNoSeparator(p, '/');
  }

  /** `ref.replace(/^\.\//, '')`. */
  function DropDotSlash(ref: string): (r: string)
    ensures StartsWith(ref, "./") ==> r == ref[2..]
    ensures !StartsWith(ref, "./") ==> r == ref
  {
    if StartsWith(ref, "./") then ref[2..] else ref
  }

  /** A reference the code leaves alone: empty or missing, starting with
      `http`, or, for an image only, starting with `data:`. */
  predicate Skipped(ref: string, kind: ResourceKind) {
    ref == "" || StartsWith(ref, "http") || (kind == Image && StartsWith(ref, "data:"))
  }

  /** The archive path a reference is looked up under, None when skipped.
      Inside a folder, the first `/../` of the joined path is replaced by
      `/`; nothing else is normalised. */
  function Resolve(chapterPath: string, ref: string, kind: ResourceKind): (r: Option<string>)
    ensures r.None? <==> Skipped(ref, kind)
  {
    if Skipped(ref, kind) then None
    else
      var base := Dir(chapterPath);
      var normalized := DropDotSlash(ref);
      Some(if base != "" then ReplaceFirst(base + "/" + normalized, "/../", "/") else normalized)
  }

  /** The archive entry a reference is shown from or inlined from, when
      `zip.file` finds it. */
  function Target(chapterPath: string, ref: string, kind: ResourceKind, archive: Archive): (r: Option<string>)
    ensures r.Some? ==> r.value in archive && Resolve(chapterPath, ref, kind) == Some(r.value)
    ensures r.None? ==> Resolve(chapterPath, ref, kind).None? || Resolve(chapterPath, ref, kind).value !in archive
  {
    match Resolve(chapterPath, ref, kind)
    case Some(path) => if path in archive then Some(path) else None
    case None => None
  }

  // ---------------------------------------------------------------------
  // how references resolve
  // ---------------------------------------------------------------------

  /** For a chapter at the top of the archive, a reference is looked up as
      written, less a leading `./`. */
  lemma ResolveAtTop(chapterPath: string, ref: string, kind: ResourceKind)
    requires '/' !in chapterPath && !Skipped(ref, kind)
    ensures Resolve(chapterPath, ref, kind) == Some(DropDotSlash(ref))
  {
    DirAtTop(chapterPath);
  }

  lemma ReplaceFirstAbsent(s: string, pat: string, rep: string)
    requires forall k: nat :: !OccursAt(s, pat, k)
    ensures ReplaceFirst(s, pat, rep) == s
  {
  }

  /** A reference with no `/../` in it is looked up in the chapter's
      folder. */
  lemma ResolveInFolder(dir: string, name: string, ref: string, kind: ResourceKind)
    requires '/' !in name && dir != "" && !Skipped(ref, kind)
    requires forall k: nat :: !OccursAt(dir + "/" + DropDotSlash(ref), "/../", k)
    ensures Resolve(dir + "/" + name, ref, kind) == Some(dir + "/" + DropDotSlash(ref))
  {
    DirOf(dir, name);
    ReplaceFirstAbsent(dir + "/" + DropDotSlash(ref), "/../", "/");
  }

  /** A reference `../rest` from a chapter in `dir` (a folder path with no
      `/..` in it) is looked up as `dir/rest`: the `..` is dropped rather
      than climbing out of `dir`, and any later `../` in `rest` is kept as
      written. So `../images/cover.jpg` from `OEBPS/text/ch1.xhtml` is
      looked up as `OEBPS/text/images/cover.jpg`. */
  lemma ResolveParentDropped(dir: string, name: string, rest: string, kind: ResourceKind)
    requires '/' !in name && dir != ""
    requires forall k :: 0 <= k && k + 2 < |dir| ==> !(dir[k] == '/' && dir[k + 1] == '.' && dir[k + 2] == '.')
    ensures Resolve(dir + "/" + name, "../" + rest, kind) == Some(dir + "/" + rest)
  {
    var ref := "../" + rest;
    assert !StartsWith(ref, "http") by { assert ref[0] == '.'; }
    assert !StartsWith(ref, "data:") by { assert ref[0] == '.'; }
    assert !StartsWith(ref, "./") by { assert ref[1] == '.'; }
    DirOf(dir, name);
    var s := dir + "/" + ref;
    assert OccursAt(s, "/../", |dir|) by {
      assert s[|dir|..|dir| + 4] == "/../";
    }
    forall k: nat | k < |dir| ensures !OccursAt(s, "/../", k) {
      if k + 4 <= |s| {
        var w := s[k..k + 4];
        if k + 2 < |dir| {
          assert s[k] == dir[k] && s[k + 1] == dir[k + 1] && s[k + 2] == dir[k + 2];
          assert w[0] == s[k] && w[1] == s[k + 1] && w[2] == s[k + 2];
        } else if k + 2 == |dir| {
          assert s[|dir|] == '/';
          assert w[2] == s[k + 2];
        } else {
          assert s[|dir|] == '/';
          assert w[1] == s[k + 1];
        }
        assert w != "/../";
      }
    }
    assert FindFrom(s, "/../", 0) == Some(|dir|) by {
      FindFromFirst(s, "/../", 0, |dir|);
    }
    assert s[..|dir|] == dir;
    assert s[|dir| + 4..] == rest;
  }

  lemma {:induction false} FindFromFirst(s: string, pat: string, i: nat, c: nat)
    requires i <= c && OccursAt(s, pat, c)
    requires forall k: nat :: i <= k < c ==> !OccursAt(s, pat, k)
    ensures FindFrom(s, pat, i) == Some(c)
    decreases c - i
  {
    if i < c {
      FindFromFirst(s, pat, i + 1, c);
    }
  }

  /** Stylesheet references starting with `data:` are looked up like any
      relative path, image references starting with `data:` are not. */
  lemma DataReferences(chapterPath: string, ref: string)
    requires StartsWith(ref, "data:")
    ensures Resolve(chapterPath, ref, Image).None?
    ensures Resolve(chapterPath, ref, Stylesheet).Some?
  {
    assert ref[0] == 'd';
  }

  /** The body of either callback up to `zip.file`: the skip tests, the
      `./` and `/../` replacements against `basePath`, and the archive
      lookup. */
  method LookUp(chapterPath: string, basePath: string, ref: string, kind: ResourceKind, archive: Archive)
    returns (found: Option<string>)
    requires basePath == Dir(chapterPath)
    ensures found == Target(chapterPath, ref, kind, archive)
  {
    found := None;
    if ref != "" && !StartsWith(ref, "http") && !(kind == Image && StartsWith(ref, "data:")) {
      var normalized := DropDotSlash(ref);
      var absolute := if basePath != "" then ReplaceFirst(basePath + "/" + normalized, "/../", "/")
                      else normalized;
      if absolute in archive {
        found := Some(absolute);
      }
    }
  }

  // ---------------------------------------------------------------------
  // fixImagePaths
  // ---------------------------------------------------------------------

  /** What each `<img>` of the chapter is shown from afterwards: the archive
      entry its `src` resolves to, or None where the `src` is kept. */
  function ImageSources(chapterPath: string, srcs: seq<string>, archive: Archive): (r: seq<Option<string>>)
    ensures |r| == |srcs|
  {
    seq(|srcs|, i requires 0 <= i < |srcs| => Target(chapterPath, srcs[i], Image, archive))
  }

  /** The `forEach` of `fixImagePaths`, over the `src` attribute of each
      image ("" where it has none). */
  method FixImagePaths(chapterPath: string, srcs: seq<string>, archive: Archive)
    returns (shown: seq<Option<string>>)
    ensures shown == ImageSources(chapterPath, srcs, archive)
  {
    var parts := Split(chapterPath, '/');
    var basePath := Join(parts[..|parts| - 1], "/");
    shown := [];
    for i := 0 to |srcs|
      invariant |shown| == i
      invariant forall k :: 0 <= k < i ==> shown[k] == Target(chapterPath, srcs[k], Image, archive)
    {
      var found := LookUp(chapterPath, basePath, srcs[i], Image, archive);
      shown := shown + [found];
    }
  }

  /** Every image shown from the archive is shown from the entry its `src`
      resolves to, and an image is left alone exactly when its `src` is
      skipped or resolves to a path the archive lacks. */
  lemma ImageSourcesSound(chapterPath: string, srcs: seq<string>, archive: Archive, i: nat)
    requires i < |srcs|
    ensures var shown := ImageSources(chapterPath, srcs, archive)[i];
      && (shown.Some? ==> shown.value in archive && Resolve(chapterPath, srcs[i], Image) == shown)
      && (shown.None? <==> (Skipped(srcs[i], Image) || Resolve(chapterPath, srcs[i], Image).value !in archive))
  {
  }

  // ---------------------------------------------------------------------
  // fixCssPaths
  // ---------------------------------------------------------------------

  /** The `<style>` texts `fixCssPaths` appends to the head, in link order,
      and the `href`s of the links left in the chapter. */
  function InlinedStyles(chapterPath: string, hrefs: seq<string>, archive: Archive): (r: (seq<string>, seq<string>))
    ensures |r.0| + |r.1| == |hrefs|
    decreases |hrefs|
  {
    if hrefs == [] then ([], [])
    else
      var prev := InlinedStyles(chapterPath, hrefs[..|hrefs| - 1], archive);
      var href := hrefs[|hrefs| - 1];
      match Target(chapterPath, href, Stylesheet, archive)
      case Some(path) => (prev.0 + [archive[path]], prev.1)
      case None => (prev.0, prev.1 + [href])
  }

  /** The `forEach` of `fixCssPaths`, over the `href` attribute of each
      stylesheet link ("" where it has none). */
  method FixCssPaths(chapterPath: string, hrefs: seq<string>, archive: Archive)
    returns (styles: seq<string>, kept: seq<string>)
    ensures (styles, kept) == InlinedStyles(chapterPath, hrefs, archive)
  {
    var parts := Split(chapterPath, '/');
    var basePath := Join(parts[..|parts| - 1], "/");
    styles, kept := [], [];
    for i := 0 to |hrefs|
      invariant (styles, kept) == InlinedStyles(chapterPath, hrefs[..i], archive)
    {
      var href := hrefs[i];
      assert hrefs[..i + 1][..i] == hrefs[..i];
      var found := LookUp(chapterPath, basePath, href, Stylesheet, archive);
      match found {
        case Some(path) => styles := styles + [archive[path]];
        case None => kept := kept + [href];
      }
    }
    assert hrefs[..|hrefs|] == hrefs;
  }

  /** Each link is either inlined, contributing the text of the archive
      entry it resolves to, or kept; links are never duplicated or lost. */
  lemma {:induction false} InlinedStylesPartition(chapterPath: string, hrefs: seq<string>, archive: Archive)
    ensures var (styles, kept) := InlinedStyles(chapterPath, hrefs, archive);
      && (forall t :: t in styles ==>
            (exists h :: h in hrefs && Target(chapterPath, h, Stylesheet, archive).Some?
               && t == archive[Target(chapterPath, h, Stylesheet, archive).value]))
      && (forall h :: h in kept ==> h in hrefs && Target(chapterPath, h, Stylesheet, archive).None?)
    decreases |hrefs|
  {
    if hrefs != [] {
      var init := hrefs[..|hrefs| - 1];
      InlinedStylesPartition(chapterPath, init, archive);
      assert forall h :: h in init ==> h in hrefs;
      assert hrefs[|hrefs| - 1] in hrefs;
    }
  }

  /** With no link found in the archive, nothing is inlined and every link
      stays. */
  lemma {:induction false} NothingInlined(chapterPath: string, hrefs: seq<string>, archive: Archive)
    requires forall i :: 0 <= i < |hrefs| ==> Target(chapterPath, hrefs[i], Stylesheet, archive).None?
    ensures InlinedStyles(chapterPath, hrefs, archive) == ([], hrefs)
    decreases |hrefs|
  {
    if hrefs != [] {
      var init := hrefs[..|hrefs| - 1];
      NothingInlined(chapterPath, init, archive);
      assert init + [hrefs[|hrefs| - 1]] == hrefs;
    }
  }
}
