/** `scripts/fix-nextjs-paths.mjs` and its copy in `front-end/scripts/`:
    make the exported Next.js apps below a model directory refer to their
    assets relative to themselves. Both copies share `fixNextJsPaths` and
    `fixJsFiles`; they differ in which model directories `main` visits. */
module FixPaths {
  import opened Wrappers
  import opened Fs
  import Text
  import opened Rewrite
  import opened AppRoots

  // ---------------------------------------------------------------------
  // Contents

  /** The two global regular expressions of the HTML pass: `"/<app>/` and
      `'/<app>/` become `"./` and `'./`. */
  function StripApp(c: string, app: string): string {
    Step(Step(c, RootEntry("\"", app, ".")), RootEntry("'", app, "."))
  }

  /** An app name without quotes leaves no root reference in either style. */
  lemma StripAppRemoves(c: string, app: string)
    requires QuoteFree(app)
    ensures !Text.Occurs(StripApp(c, app), RootEntry("\"", app, "").search)
    ensures !Text.Occurs(StripApp(c, app), RootEntry("'", app, "").search)
  {
    assert GoodTarget(app, ".") by {
      var a, b := "/" + app + "/", "./";
      assert a[0] != b[0];
    }
    var m := Step(c, RootEntry("\"", app, "."));
    RootRemoved(c, "\"", app, ".");
    RootKeptAbsent(m, "\"", "'", app, ".");
    RootRemoved(m, "'", app, ".");
  }

  /** The two favicon fixes: the first `"/favicon.ico"` and the first
      `'/favicon.ico'` only (`replace` with a string pattern). */
  function FaviconFirst(c: string): string {
    var once := Text.ReplaceFirst(c, "\"/favicon.ico\"", "\"./favicon.ico\"");
    Text.ReplaceFirst(once, "'/favicon.ico'", "'./favicon.ico'")
  }

  /** The HTML pass on one file. */
  function FixHtml(c: string, app: string): string {
    FaviconFirst(StripApp(c, app))
  }

  /** Only the first favicon reference is made relative: a second one right
      behind it stays absolute. */
  lemma FaviconOnlyFirst(t: string)
    requires '\'' !in t
    ensures FaviconFirst("\"/favicon.ico\"" + "\"/favicon.ico\"" + t)
      == "\"./favicon.ico\"" + "\"/favicon.ico\"" + t
  {
    var f, r := "\"/favicon.ico\"", "\"./favicon.ico\"";
    Text.ReplaceFirstOnlyFirst(f, r, t);
    var once := r + f + t;
    assert '\'' !in r + f;
    Text.NoHeadNoOccurrence(once, "'/favicon.ico'");
    Text.ReplaceFirstAbsent(once, "'/favicon.ico'", "'./favicon.ico'");
  }

  /** The `replace` of `fixJsFiles`: one left-to-right pass of `["']/<app>/`,
      every match replaced by its quote and `./`; the flag is raised by the
      callback, that is when something matched. */
  function JsRewrite(s: string, app: string): (r: (string, bool))
    decreases |s|
  {
    var dq, sq := RootEntry("\"", app, "."), RootEntry("'", app, ".");
    if s == [] then ([], false)
    else if Text.StartsWith(s, dq.search) then
      var rest := JsRewrite(s[|dq.search|..], app);
      (dq.replace + rest.0, true)
    else if Text.StartsWith(s, sq.search) then
      var rest := JsRewrite(s[|sq.search|..], app);
      (sq.replace + rest.0, true)
    else
      var rest := JsRewrite(s[1..], app);
      ([s[0]] + rest.0, rest.1)
  }

  /** The callback runs, and the file is written, exactly when the pattern
      occurs in either quote style. */
  lemma {:induction false} JsRewriteMatched(s: string, app: string)
    ensures JsRewrite(s, app).1 <==>
      Text.Occurs(s, RootEntry("\"", app, ".").search) || Text.Occurs(s, RootEntry("'", app, ".").search)
    decreases |s|
  {
    var dq, sq := RootEntry("\"", app, "."), RootEntry("'", app, ".");
    if s != [] {
      Text.OccursUncons(s, dq.search);
      Text.OccursUncons(s, sq.search);
      if !Text.StartsWith(s, dq.search) && !Text.StartsWith(s, sq.search) {
        JsRewriteMatched(s[1..], app);
      }
    } else {
      Text.NoHeadNoOccurrence(s, dq.search);
      Text.NoHeadNoOccurrence(s, sq.search);
    }
  }

  /** A `"/<app>/` match at the front. */
  lemma DoubleQuoteFront(s: string, app: string)
    requires QuoteFree(app) && Text.StartsWith(s, RootEntry("\"", app, ".").search)
    requires var n := |RootEntry("\"", app, ".").search|; JsRewrite(s[n..], app).0 == StripApp(s[n..], app)
    ensures JsRewrite(s, app).0 == StripApp(s, app)
  {
    var dq, sq := RootEntry("\"", app, "."), RootEntry("'", app, ".");
    var p, rp, q, rq := dq.search, dq.replace, sq.search, sq.replace;
    assert q[0] !in rp;
    var s' := s[|p|..];
    var y := Text.ReplaceAll(s', p, rp);
    assert Step(s, dq) == rp + y;
    Text.ReplaceAllSkipsFree(rp, y, q, rq);
  }

  /** A `'/<app>/` match at the front: the first regular expression skips
      it. */
  lemma SingleQuoteSkipped(s: string, app: string)
    requires QuoteFree(app) && !Text.StartsWith(s, RootEntry("\"", app, ".").search)
    requires Text.StartsWith(s, RootEntry("'", app, ".").search)
    ensures var q := RootEntry("'", app, ".").search;
      Step(s, RootEntry("\"", app, ".")) == q + Step(s[|q|..], RootEntry("\"", app, "."))
  {
    var dq := RootEntry("\"", app, ".");
    var p, rp, q := dq.search, dq.replace, RootEntry("'", app, ".").search;
    assert q == "'" + "/" + app + "/" && p[0] == '"';
    assert p[0] !in q;
    var s' := s[|q|..];
    assert s == q + s' by { assert s[..|q|] == q; }
    Text.ReplaceAllSkipsFree(q, s', p, rp);
  }

  lemma SingleQuoteFront(s: string, app: string)
    requires QuoteFree(app) && !Text.StartsWith(s, RootEntry("\"", app, ".").search)
    requires Text.StartsWith(s, RootEntry("'", app, ".").search)
    requires var n := |RootEntry("'", app, ".").search|; JsRewrite(s[n..], app).0 == StripApp(s[n..], app)
    ensures JsRewrite(s, app).0 == StripApp(s, app)
  {
    var dq, sq := RootEntry("\"", app, "."), RootEntry("'", app, ".");
    var q, rq := sq.search, sq.replace;
    var s' := s[|q|..];
    assert JsRewrite(s, app).0 == rq + JsRewrite(s', app).0;
    SingleQuoteSkipped(s, app);
    Text.ReplaceAllFront(q, Step(s', dq), rq);
  }

  /** No match at the front: neither regular expression finds one there
      after the other has run. */
  lemma NoMatchFront(s: string, app: string)
    requires QuoteFree(app) && s != []
    requires !Text.StartsWith(s, RootEntry("\"", app, ".").search)
    requires !Text.StartsWith(s, RootEntry("'", app, ".").search)
    requires JsRewrite(s[1..], app).0 == StripApp(s[1..], app)
    ensures JsRewrite(s, app).0 == StripApp(s, app)
  {
    var dq, sq := RootEntry("\"", app, "."), RootEntry("'", app, ".");
    var p, rp, q, rq := dq.search, dq.replace, sq.search, sq.replace;
    var w := "/" + app + "/";
    assert q == "'" + w && rp[0] !in w;
    var y := Text.ReplaceAll(s[1..], p, rp);
    var u := [s[0]] + y;
    assert Step(s, dq) == u;
    Text.PrefixSurvives(s[1..], p, rp, w);
    Text.StartsWithCons(s, q);
    Text.StartsWithCons(u, q);
    assert u[1..] == y;
  }

  /** With an app name without quotes, the single pass does what the two
      regular expressions of the HTML pass do one after the other. */
  lemma {:induction false} JsRewriteIsStripApp(s: string, app: string)
    requires QuoteFree(app)
    ensures JsRewrite(s, app).0 == StripApp(s, app)
    decreases |s|
  {
    var p, q := RootEntry("\"", app, ".").search, RootEntry("'", app, ".").search;
    if s == [] {
    } else if Text.StartsWith(s, p) {
      JsRewriteIsStripApp(s[|p|..], app);
      DoubleQuoteFront(s, app);
    } else if Text.StartsWith(s, q) {
      JsRewriteIsStripApp(s[|q|..], app);
      SingleQuoteFront(s, app);
    } else {
      JsRewriteIsStripApp(s[1..], app);
      NoMatchFront(s, app);
    }
  }

  /** Without a match the text is left as it was. */
  lemma {:induction false} JsRewriteUnmatched(s: string, app: string)
    ensures !JsRewrite(s, app).1 ==> JsRewrite(s, app).0 == s
    decreases |s|
  {
    if s != [] {
      JsRewriteUnmatched(s[1..], app);
      assert s == [s[0]] + s[1..];
    }
  }

  // ---------------------------------------------------------------------
  // Files

  /** A page of `fixNextJsPaths`: read (a page that cannot be read is
      skipped), rewritten, and written back whether it changed or not. */
  function HtmlStep(s: DiskState, p: Path, app: string): (r: DiskState)
    ensures p !in s.contents ==> r == s
    ensures p in s.contents ==> r.contents == s.contents[p := FixHtml(s.contents[p], app)] && r.writes == s.writes + [p]
  {
    if p !in s.contents then s else Write(s, p, FixHtml(s.contents[p], app))
  }

  /** `fixJsFiles` on one file: nothing when the read throws (which ends the
      whole pass), otherwise the file, written back only when something
      matched. */
  function JsStep(s: DiskState, p: Path, app: string): Option<DiskState> {
    if p !in s.contents then None
    else
      var r := JsRewrite(s.contents[p], app);
      Some(if r.1 then Write(s, p, r.0) else s)
  }

  /** The files of the walk in order, up to the first that cannot be read;
      `ok` is false when there was one. */
  function JsFiles(s: DiskState, files: seq<Path>, app: string): (DiskState, bool)
    decreases |files|
  {
    if files == [] then (s, true)
    else
      var n := |files| - 1;
      var prev := JsFiles(s, files[..n], app);
      if !prev.1 then prev
      else match JsStep(prev.0, files[n], app)
        case None => (prev.0, false)
        case Some(next) => (next, true)
  }

  /** The pass only appends writes, and only of the files it was given;
      it never loses a file; files it was not given keep their contents;
      and it gets to the end when every file can be read. */
  lemma {:induction false} JsFilesFrame(s: DiskState, files: seq<Path>, app: string)
    ensures var r := JsFiles(s, files, app);
      |r.0.writes| >= |s.writes| && r.0.writes[..|s.writes|] == s.writes
      && (forall i :: |s.writes| <= i < |r.0.writes| ==> r.0.writes[i] in files)
      && (forall q :: q in s.contents ==> q in r.0.contents)
      && (forall q :: q !in files ==> (q in r.0.contents <==> q in s.contents))
      && (forall q :: q !in files && q in s.contents ==> r.0.contents[q] == s.contents[q])
      && ((forall p :: p in files ==> p in s.contents) ==> r.1)
    decreases |files|
  {
    if files != [] {
      var n := |files| - 1;
      JsFilesFrame(s, files[..n], app);
      var prev := JsFiles(s, files[..n], app);
      assert forall q :: q in files[..n] ==> q in files;
      if prev.1 {
        match JsStep(prev.0, files[n], app)
        case None =>
        case Some(next) =>
          assert next.writes[..|prev.0.writes|] == prev.0.writes;
          assert prev.0.writes[..|s.writes|] == s.writes;
          assert forall i :: |s.writes| <= i < |prev.0.writes| ==> next.writes[i] == prev.0.writes[i];
      }
    }
  }

  /** When every file can be read, each one the walk reached once ends up
      holding the rewritten text. */
  lemma {:induction false} JsFilesApply(s: DiskState, files: seq<Path>, app: string, p: Path)
    requires forall i, j :: 0 <= i < j < |files| ==> files[i] != files[j]
    requires forall q :: q in files ==> q in s.contents
    requires p in files
    ensures p in JsFiles(s, files, app).0.contents
    ensures JsFiles(s, files, app).0.contents[p] == JsRewrite(s.contents[p], app).0
    decreases |files|
  {
    var n := |files| - 1;
    var prev := JsFiles(s, files[..n], app);
    assert forall q :: q in files[..n] ==> q in files;
    JsFilesFrame(s, files[..n], app);
    assert prev.1;
    JsRewriteUnmatched(prev.0.contents[files[n]], app);
    if p == files[n] {
      assert p !in files[..n];
    } else {
      assert p in files[..n];
      JsFilesApply(s, files[..n], app, p);
    }
  }

  /** `entry.name.endsWith(".js")`, for any entry that is not a
      directory. */
  predicate IsJsName(e: Node) {
    Text.EndsWith(e.name, ".js")
  }

  /** `fixJsFiles(dir, appName)`: a listing that throws (the directory
      itself included) ends the pass quietly. Every file it writes lies
      below `dir`. */
  function FixJsFiles(s: DiskState, tree: seq<Node>, dir: Path, app: string): (r: DiskState)
    ensures |r.writes| >= |s.writes| && r.writes[..|s.writes|] == s.writes
    ensures forall i :: |s.writes| <= i < |r.writes| ==> |r.writes[i]| > |dir| && r.writes[i][..|dir|] == dir
    ensures forall q :: q in s.contents ==> q in r.contents
    ensures forall q :: !(|q| > |dir| && q[..|dir|] == dir) ==>
      (q in r.contents <==> q in s.contents) && (q in s.contents ==> r.contents[q] == s.contents[q])
  {
    JsTargetsBelow(tree, dir);
    JsFilesFrame(s, JsTargets(tree, dir), app);
    JsFiles(s, JsTargets(tree, dir), app).0
  }

  /** The `.js` files the walk of `dir` reaches, in order, up to a listing
      that throws; none when `dir` itself cannot be listed. */
  function JsTargets(tree: seq<Node>, dir: Path): seq<Path> {
    match ListDir(tree, dir)
    case None => []
    case Some(es) => WalkEntries(dir, es, AllDirs, IsJsName).files
  }

  lemma JsTargetsBelow(tree: seq<Node>, dir: Path)
    ensures forall p :: p in JsTargets(tree, dir) ==> |p| > |dir| && p[..|dir|] == dir
  {
    if ListDir(tree, dir).Some? {
      WalkEntriesSound(dir, ListDir(tree, dir).value, AllDirs, IsJsName);
    }
  }

  // ---------------------------------------------------------------------
  // `fixNextJsPaths`

  /** A path below `app + [x]` is below `app`. */
  lemma BelowParent(w: Path, app: Path, x: string)
    requires |w| > |app| + 1 && w[..|app| + 1] == app + [x]
    ensures |w| > |app| && w[..|app|] == app
  {
    assert w[..|app|] == w[..|app| + 1][..|app|];
  }

  /** The two pages of an app, `index.html` then `404.html`; a page that
      does not exist is left alone. */
  function Pages(s: DiskState, app: Path, name: string): (r: DiskState)
    ensures |r.writes| >= |s.writes| && r.writes[..|s.writes|] == s.writes
    ensures forall i :: |s.writes| <= i < |r.writes| ==>
      r.writes[i] == app + ["index.html"] || r.writes[i] == app + ["404.html"]
    ensures forall q :: q in s.contents ==> q in r.contents
  {
    var index := HtmlStep(s, app + ["index.html"], name);
    HtmlStep(index, app + ["404.html"], name)
  }

  /** A write `FixApp` may make for entry `e` of `dir`: below the app, and
      one of its two pages when the JS pass does not run. */
  predicate AppWrite(w: Path, dir: Path, e: Node, jsPass: bool) {
    |w| > |dir| + 1 && w[..|dir| + 1] == dir + [e.name]
    && (!jsPass ==> w == dir + [e.name, "index.html"] || w == dir + [e.name, "404.html"])
  }

  /** One entry of a model directory. A directory holding a `_next` entry
      is an exported app: its two pages are rewritten, and `jsPass` says
      whether `fixJsFiles` then runs on its `_next` directory. Everything
      written lies inside the app; without the JS pass only the two pages
      are written. */
  function FixApp(s: DiskState, tree: seq<Node>, dir: Path, e: Node, jsPass: bool): (r: DiskState)
    ensures |r.writes| >= |s.writes| && r.writes[..|s.writes|] == s.writes
    ensures forall i :: |s.writes| <= i < |r.writes| ==> AppWrite(r.writes[i], dir, e, jsPass)
    ensures forall q :: q in s.contents ==> q in r.contents
  {
    if !e.IsDirectory() || !Exists(tree, dir + [e.name, "_next"]) then s
    else
      var app := dir + [e.name];
      assert |app| == |dir| + 1;
      assert app + ["index.html"] == dir + [e.name, "index.html"];
      assert app + ["404.html"] == dir + [e.name, "404.html"];
      AppPass(s, tree, app, e.name, jsPass)
  }

  /** The work done on an exported app: the pages, then optionally the
      JS files of its `_next` directory; all of it below the app. */
  function AppPass(s: DiskState, tree: seq<Node>, app: Path, name: string, jsPass: bool): (r: DiskState)
    ensures |r.writes| >= |s.writes| && r.writes[..|s.writes|] == s.writes
    ensures forall i :: |s.writes| <= i < |r.writes| ==> |r.writes[i]| > |app| && r.writes[i][..|app|] == app
    ensures !jsPass ==> forall i :: |s.writes| <= i < |r.writes| ==>
      r.writes[i] == app + ["index.html"] || r.writes[i] == app + ["404.html"]
    ensures forall q :: q in s.contents ==> q in r.contents
  {
    var pages := Pages(s, app, name);
    assert (app + ["index.html"])[..|app|] == app && (app + ["404.html"])[..|app|] == app;
    if jsPass then
      var r := FixJsFiles(pages, tree, app + ["_next"], name);
      JsPassBelow(pages, r, s.writes, app);
      r
    else pages
  }

  /** Writes below `app + ["_next"]` that follow writes below `app` are
      below `app`. */
  lemma JsPassBelow(pages: DiskState, r: DiskState, w: seq<Path>, app: Path)
    requires |pages.writes| >= |w| && pages.writes[..|w|] == w
    requires forall i :: |w| <= i < |pages.writes| ==> |pages.writes[i]| > |app| && pages.writes[i][..|app|] == app
    requires |r.writes| >= |pages.writes| && r.writes[..|pages.writes|] == pages.writes
    requires forall i :: |pages.writes| <= i < |r.writes| ==>
      |r.writes[i]| > |app + ["_next"]| && r.writes[i][..|app + ["_next"]|] == app + ["_next"]
    ensures |r.writes| >= |w| && r.writes[..|w|] == w
    ensures forall i :: |w| <= i < |r.writes| ==> |r.writes[i]| > |app| && r.writes[i][..|app|] == app
  {
    forall i | |w| <= i < |r.writes|
      ensures |r.writes[i]| > |app| && r.writes[i][..|app|] == app
    {
      if i >= |pages.writes| {
        BelowParent(r.writes[i], app, "_next");
      } else {
        assert r.writes[i] == pages.writes[i];
      }
    }
    assert r.writes[..|w|] == r.writes[..|pages.writes|][..|w|];
  }

  /** The entries of a model directory in listing order. */
  function FixEntries(s: DiskState, tree: seq<Node>, dir: Path, es: seq<Node>, jsPass: bool): (r: DiskState)
    ensures |r.writes| >= |s.writes| && r.writes[..|s.writes|] == s.writes
    ensures forall i :: |s.writes| <= i < |r.writes| ==> exists e :: e in es && AppWrite(r.writes[i], dir, e, jsPass)
    decreases |es|
  {
    if es == [] then s
    else
      var n := |es| - 1;
      var prev := FixEntries(s, tree, dir, es[..n], jsPass);
      var r := FixApp(prev, tree, dir, es[n], jsPass);
      assert r.writes[..|prev.writes|] == prev.writes;
      assert prev.writes[..|s.writes|] == s.writes;
      assert forall i :: |s.writes| <= i < |prev.writes| ==> r.writes[i] == prev.writes[i];
      assert forall e :: e in es[..n] ==> e in es;
      assert es[n] in es;
      r
  }

  /** `fixNextJsPaths(dir, prefix)`: a listing of `dir` that throws makes
      the call reject; `prefix` is never used. */
  function FixNextJsPaths(s: DiskState, tree: seq<Node>, dir: Path, jsPass: bool): (DiskState, bool) {
    match ListDir(tree, dir)
    case None => (s, false)
    case Some(es) => (FixEntries(s, tree, dir, es, jsPass), true)
  }

  // ---------------------------------------------------------------------
  // `main`

  /** The awaited `fixNextJsPaths` calls of `main`, one per model directory
      below `base`, in order; the first that rejects ends `main` (exit
      status 1) and the later ones never run. */
  function FixModels(s: DiskState, tree: seq<Node>, base: Path, models: seq<string>, jsPass: bool): (DiskState, bool)
    decreases |models|
  {
    if models == [] then (s, true)
    else
      var n := |models| - 1;
      var prev := FixModels(s, tree, base, models[..n], jsPass);
      if !prev.1 then prev else FixNextJsPaths(prev.0, tree, base + [models[n]], jsPass)
  }

  /** Once a call rejects, nothing after it changes the disk. */
  lemma {:induction false} FixModelsStops(s: DiskState, tree: seq<Node>, base: Path, models: seq<string>, jsPass: bool, i: nat)
    requires i < |models| && !FixModels(s, tree, base, models[..i + 1], jsPass).1
    ensures FixModels(s, tree, base, models, jsPass) == FixModels(s, tree, base, models[..i + 1], jsPass)
    decreases |models|
  {
    if |models| == i + 1 {
      assert models[..i + 1] == models;
    } else {
      var n := |models| - 1;
      assert models[..n][..i + 1] == models[..i + 1];
      FixModelsStops(s, tree, base, models[..n], jsPass, i);
    }
  }

  /** `main` succeeds exactly when every model directory can be listed:
      the calls change nothing that a later listing looks at. */
  lemma {:induction false} FixModelsSucceeds(s: DiskState, tree: seq<Node>, base: Path, models: seq<string>, jsPass: bool)
    ensures FixModels(s, tree, base, models, jsPass).1 <==>
      forall i :: 0 <= i < |models| ==> ListDir(tree, base + [models[i]]).Some?
    decreases |models|
  {
    if models != [] {
      var n := |models| - 1;
      FixModelsSucceeds(s, tree, base, models[..n], jsPass);
      assert forall i :: 0 <= i < n ==> models[..n][i] == models[i];
    }
  }

  /** A write of `main` over `models`: one `FixApp` may make for some
      entry of one of the model directories. */
  ghost predicate ModelWrite(w: Path, base: Path, models: seq<string>, jsPass: bool) {
    exists k, e :: 0 <= k < |models| && AppWrite(w, base + [models[k]], e, jsPass)
  }

  /** Every write of `main` belongs to an app of one of the model
      directories it visits; without the JS pass it is one of that app's
      two pages. */
  lemma {:induction false} FixModelsWrites(s: DiskState, tree: seq<Node>, base: Path, models: seq<string>, jsPass: bool)
    ensures var r := FixModels(s, tree, base, models, jsPass).0;
      |r.writes| >= |s.writes| && r.writes[..|s.writes|] == s.writes
      && forall i :: |s.writes| <= i < |r.writes| ==> ModelWrite(r.writes[i], base, models, jsPass)
    decreases |models|
  {
    if models != [] {
      var n := |models| - 1;
      FixModelsWrites(s, tree, base, models[..n], jsPass);
      var prev := FixModels(s, tree, base, models[..n], jsPass);
      var r := FixModels(s, tree, base, models, jsPass).0;
      forall i | |s.writes| <= i < |prev.0.writes|
        ensures ModelWrite(prev.0.writes[i], base, models, jsPass)
      {
        ModelWriteWiden(prev.0.writes[i], base, models, jsPass);
      }
      if prev.1 {
        assert r == FixNextJsPaths(prev.0, tree, base + [models[n]], jsPass).0;
        NextJsPathsWrites(prev.0, tree, base, models, jsPass);
        forall i | |s.writes| <= i < |prev.0.writes|
          ensures r.writes[i] == prev.0.writes[i]
        {
          assert r.writes[..|prev.0.writes|][i] == r.writes[i];
        }
        assert r.writes[..|s.writes|] == r.writes[..|prev.0.writes|][..|s.writes|];
      }
    }
  }

  /** A write over the first directories is a write over all of them. */
  lemma ModelWriteWiden(w: Path, base: Path, models: seq<string>, jsPass: bool)
    requires |models| > 0 && ModelWrite(w, base, models[..|models| - 1], jsPass)
    ensures ModelWrite(w, base, models, jsPass)
  {
    var n := |models| - 1;
    var k, e :| 0 <= k < n && AppWrite(w, base + [models[..n][k]], e, jsPass);
    assert models[..n][k] == models[k];
  }

  /** One more `fixNextJsPaths` call, on the last model directory: its
      writes belong to the apps of that directory. */
  lemma NextJsPathsWrites(s: DiskState, tree: seq<Node>, base: Path, models: seq<string>, jsPass: bool)
    requires |models| > 0
    ensures var r := FixNextJsPaths(s, tree, base + [models[|models| - 1]], jsPass).0;
      |r.writes| >= |s.writes| && r.writes[..|s.writes|] == s.writes
      && forall i :: |s.writes| <= i < |r.writes| ==> ModelWrite(r.writes[i], base, models, jsPass)
  {
    var dir := base + [models[|models| - 1]];
    if ListDir(tree, dir).Some? {
      var es := ListDir(tree, dir).value;
      var r := FixEntries(s, tree, dir, es, jsPass);
      assert FixNextJsPaths(s, tree, dir, jsPass).0 == r;
      forall i | |s.writes| <= i < |r.writes|
        ensures ModelWrite(r.writes[i], base, models, jsPass)
      {
        EntryWrite(s, tree, base, models, es, jsPass, i);
      }
    } else {
      assert s.writes[..|s.writes|] == s.writes;
    }
  }

  lemma EntryWrite(s: DiskState, tree: seq<Node>, base: Path, models: seq<string>, es: seq<Node>, jsPass: bool, i: int)
    requires |models| > 0
    requires |s.writes| <= i < |FixEntries(s, tree, base + [models[|models| - 1]], es, jsPass).writes|
    ensures ModelWrite(FixEntries(s, tree, base + [models[|models| - 1]], es, jsPass).writes[i], base, models, jsPass)
  {
    var dir := base + [models[|models| - 1]];
    var e :| e in es && AppWrite(FixEntries(s, tree, dir, es, jsPass).writes[i], dir, e, jsPass);
  }

  /** `main` of `scripts/fix-nextjs-paths.mjs`: every directory of
      `public/apps`; when that cannot be listed, nothing is done and the
      script succeeds. */
  function RootScript(s: DiskState, tree: seq<Node>, jsPass: bool): (DiskState, bool) {
    match ListDir(tree, AppsDir)
    case None => (s, true)
    case Some(es) => FixModels(s, tree, AppsDir, DirNames(es), jsPass)
  }

  /** `main` of `front-end/scripts/fix-nextjs-paths.mjs`: four fixed model
      directories below `public`. */
  const FrontEndModels := ["gpt-5", "opus-4.1", "sonnet-4.5", "gemini-3"]

  function FrontEndScript(s: DiskState, tree: seq<Node>, jsPass: bool): (DiskState, bool) {
    FixModels(s, tree, ["public"], FrontEndModels, jsPass)
  }

  // ---------------------------------------------------------------------
  // The scripts on the disk, with the JS pass running

  /** One page of the HTML pass: read it (a read that throws skips the
      page), rewrite and write it back unconditionally. */
  method HtmlStepOn(disk: Disk, p: Path, app: string)
    modifies disk
    ensures disk.state == HtmlStep(old(disk.state), p, app)
  {
    var read := disk.ReadFile(p);
    if read.Some? {
      disk.WriteFile(p, FixHtml(read.value, app));
    }
  }

  /** The lemma behind an early stop: once a read throws, the pass is over. */
  lemma {:induction false} JsFilesStops(s: DiskState, files: seq<Path>, app: string, i: nat)
    requires i < |files| && !JsFiles(s, files[..i + 1], app).1
    ensures JsFiles(s, files, app) == JsFiles(s, files[..i + 1], app)
    decreases |files|
  {
    if |files| == i + 1 {
      assert files[..i + 1] == files;
    } else {
      var n := |files| - 1;
      assert files[..n][..i + 1] == files[..i + 1];
      JsFilesStops(s, files[..n], app, i);
    }
  }

  /** `fixJsFiles(dir, appName)`: walk `_next`, then each script in turn;
      the first read that throws ends the pass. */
  method FixJsFilesOn(disk: Disk, tree: seq<Node>, dir: Path, app: string)
    modifies disk
    ensures disk.state == FixJsFiles(old(disk.state), tree, dir, app)
  {
    var listing := ListDir(tree, dir);
    if listing.None? {
      return;
    }
    var files, _ := Collect(dir, listing.value, AllDirs, IsJsName);
    assert files == JsTargets(tree, dir);
    for i := 0 to |files|
      invariant (disk.state, true) == JsFiles(old(disk.state), files[..i], app)
    {
      assert files[..i + 1][..i] == files[..i];
      var read := disk.ReadFile(files[i]);
      if read.None? {
        JsFilesStops(old(disk.state), files, app, i);
        return;
      }
      var rewritten := JsRewrite(read.value, app);
      if rewritten.1 {
        disk.WriteFile(files[i], rewritten.0);
      }
    }
    assert files[..|files|] == files;
  }

  /** One entry of a model directory. */
  method FixAppOn(disk: Disk, tree: seq<Node>, dir: Path, e: Node)
    modifies disk
    ensures disk.state == FixApp(old(disk.state), tree, dir, e, true)
  {
    if !e.IsDirectory() || !Exists(tree, dir + [e.name, "_next"]) {
      return;
    }
    var app := dir + [e.name];
    assert app + ["_next"] == dir + [e.name, "_next"];
    HtmlStepOn(disk, app + ["index.html"], e.name);
    HtmlStepOn(disk, app + ["404.html"], e.name);
    assert disk.state == Pages(old(disk.state), app, e.name);
    FixJsFilesOn(disk, tree, app + ["_next"], e.name);
  }

  /** `fixNextJsPaths(dir, prefix)`. */
  method FixNextJsPathsOn(disk: Disk, tree: seq<Node>, dir: Path) returns (ok: bool)
    modifies disk
    ensures (disk.state, ok) == FixNextJsPaths(old(disk.state), tree, dir, true)
  {
    var listing := ListDir(tree, dir);
    if listing.None? {
      return false;
    }
    var es := listing.value;
    for i := 0 to |es|
      invariant disk.state == FixEntries(old(disk.state), tree, dir, es[..i], true)
    {
      assert es[..i + 1][..i] == es[..i];
      FixAppOn(disk, tree, dir, es[i]);
    }
    assert es[..|es|] == es;
    return true;
  }

  /** The loop of `main` over the model directories below `base`. */
  method FixModelsOn(disk: Disk, tree: seq<Node>, base: Path, models: seq<string>) returns (ok: bool)
    modifies disk
    ensures (disk.state, ok) == FixModels(old(disk.state), tree, base, models, true)
  {
    for i := 0 to |models|
      invariant (disk.state, true) == FixModels(old(disk.state), tree, base, models[..i], true)
    {
      assert models[..i + 1][..i] == models[..i];
      var done := FixNextJsPathsOn(disk, tree, base + [models[i]]);
      if !done {
        FixModelsStops(old(disk.state), tree, base, models, true, i);
        return false;
      }
    }
    assert models[..|models|] == models;
    return true;
  }

  /** `main` of `scripts/fix-nextjs-paths.mjs`. */
  method RunRootScript(disk: Disk, tree: seq<Node>) returns (ok: bool)
    modifies disk
    ensures (disk.state, ok) == RootScript(old(disk.state), tree, true)
  {
    var listing := ListDir(tree, AppsDir);
    if listing.None? {
      return true;
    }
    ok := FixModelsOn(disk, tree, AppsDir, DirNames(listing.value));
  }

  /** `main` of `front-end/scripts/fix-nextjs-paths.mjs`. */
  method RunFrontEndScript(disk: Disk, tree: seq<Node>) returns (ok: bool)
    modifies disk
    ensures (disk.state, ok) == FrontEndScript(old(disk.state), tree, true)
  {
    ok := FixModelsOn(disk, tree, ["public"], FrontEndModels);
  }

  // ---------------------------------------------------------------------
  // The ReferenceError that switches the JS pass off

  /** As written, `appName` is declared inside the `try` block of the page
      loop, so the `fixJsFiles(..., appName)` call after that loop throws a
      `ReferenceError`; the enclosing `catch` takes it for "not a Next.js
      app". Model: `jsPass` is false. On a one-app tree whose only script
      holds a root reference, that reference survives. */
  lemma JsPassSkipped()
    ensures FixApp(OneDisk(), OneTree(), [], OneTree()[0], false).contents[OnePath()] == "\"/a/x"
  {
    OneApp(false);
  }

  /** With the call running, the same reference is made relative. */
  lemma JsPassOnExample()
    ensures FixApp(OneDisk(), OneTree(), [], OneTree()[0], true).contents[OnePath()] == "\"./x"
  {
    var p, tree, s := OnePath(), OneTree(), OneDisk();
    OneApp(true);
    var a: Path := ["a"];
    assert a + ["_next"] == ["a", "_next"];
    assert AppPass(s, tree, a, "a", true) == FixJsFiles(s, tree, ["a", "_next"], "a");
    OneScript(tree);
    assert FixJsFiles(s, tree, ["a", "_next"], "a") == JsFiles(s, [p], "a").0;
    OneJsFile();
  }

  /** The pass over the counterexample's one script. */
  lemma OneJsFile()
    ensures JsFiles(OneDisk(), [OnePath()], "a").0.contents[OnePath()] == "\"./x"
  {
    var p, s := OnePath(), OneDisk();
    assert [p][..0] == [];
    assert JsFiles(s, [], "a") == (s, true);
    assert s.contents[p] == "\"/a/x";
    OneRewrite();
    assert JsStep(s, p, "a") == Some(Write(s, p, "\"./x"));
  }

  /** The counterexample's app is exported and has neither page. */
  lemma OneApp(jsPass: bool)
    ensures FixApp(OneDisk(), OneTree(), [], OneTree()[0], jsPass) == AppPass(OneDisk(), OneTree(), ["a"], "a", jsPass)
    ensures Pages(OneDisk(), ["a"], "a") == OneDisk()
  {
    var tree, s := OneTree(), OneDisk();
    var e := tree[0];
    assert e.IsDirectory() && e.name == "a";
    var d: Path := [];
    assert d + [e.name] == ["a"] && d + [e.name, "_next"] == ["a", "_next"];
    assert Exists(tree, d + [e.name, "_next"]);
    assert ["a"] + ["index.html"] !in s.contents && ["a"] + ["404.html"] !in s.contents;
  }

  /** The counterexample: one app `a` whose `_next` holds one script with
      one root reference. */
  function OnePath(): Path { ["a", "_next", "a.js"] }

  function OneTree(): seq<Node> { [Dir("a", [Dir("_next", [File("a.js")])])] }

  function OneDisk(): DiskState { DiskState(map[OnePath() := "\"/a/x"], []) }

  /** The walk of the counterexample's `_next` reaches its one script. */
  lemma OneScript(tree: seq<Node>)
    requires tree == [Dir("a", [Dir("_next", [File("a.js")])])]
    ensures JsTargets(tree, ["a", "_next"]) == [["a", "_next", "a.js"]]
  {
    var dir: Path := ["a", "_next"];
    var es := [File("a.js")];
    assert Find(tree, dir) == Find([Dir("_next", es)], ["_next"]) by {
      assert dir[1..] == ["_next"];
    }
    assert ListDir(tree, dir) == Some(es);
    assert IsJsName(File("a.js")) by {
      assert "a.js"[|"a.js"| - |".js"|..] == ".js";
    }
    assert WalkEntry(dir, es[0], AllDirs, IsJsName) == Visit([dir + ["a.js"]], true);
    assert es[1..] == [];
    assert dir + ["a.js"] == ["a", "_next", "a.js"];
  }

  /** The counterexample's script, rewritten. */
  lemma OneRewrite()
    ensures JsRewrite("\"/a/x", "a") == ("\"./x", true)
  {
    var dq, sq := RootEntry("\"", "a", "."), RootEntry("'", "a", ".");
    assert dq.search == "\"/a/" && dq.replace == "\"./" && |sq.search| == 4;
    var s := "\"/a/x";
    assert s[..4] == dq.search;
    assert s[4..] == "x";
    assert !Text.StartsWith("x", dq.search) && !Text.StartsWith("x", sq.search);
    assert "x"[1..] == [] && ["x"[0]] == "x";
    assert JsRewrite([], "a") == ([], false);
    assert JsRewrite(s, "a") == (dq.replace + JsRewrite(s[4..], "a").0, true);
    assert JsRewrite("x", "a") == (["x"[0]] + JsRewrite([], "a").0, false);
    assert JsRewrite(s[4..], "a").0 == "x";
    assert dq.replace + "x" == "\"./x";
    assert JsRewrite(s, "a").0 == "\"./x";
  }

  /** With the JS pass running as intended: every script the walk of
      `_next` reaches ends up with no root reference to its app in either
      quote style, and otherwise holds its text with those references made
      relative. */
  lemma JsPassStripsApp(s: DiskState, tree: seq<Node>, dir: Path, e: Node, p: Path)
    requires e.IsDirectory() && Exists(tree, dir + [e.name, "_next"]) && QuoteFree(e.name)
    requires var files := JsTargets(tree, dir + [e.name, "_next"]);
      (forall i, j :: 0 <= i < j < |files| ==> files[i] != files[j])
      && (forall q :: q in files ==> q in s.contents)
      && p in files
    ensures p in FixApp(s, tree, dir, e, true).contents
    ensures FixApp(s, tree, dir, e, true).contents[p] == StripApp(s.contents[p], e.name)
    ensures !Text.Occurs(FixApp(s, tree, dir, e, true).contents[p], RootEntry("\"", e.name, "").search)
    ensures !Text.Occurs(FixApp(s, tree, dir, e, true).contents[p], RootEntry("'", e.name, "").search)
  {
    var app := dir + [e.name];
    var next := app + ["_next"];
    assert next == dir + [e.name, "_next"];
    var files := JsTargets(tree, next);
    JsTargetsBelow(tree, next);
    var pages := Pages(s, app, e.name);
    assert p[|app|] == "_next" by {
      assert p[..|next|][|app|] == "_next";
    }
    assert p != app + ["index.html"] && p != app + ["404.html"] by {
      assert (app + ["index.html"])[|app|] == "index.html";
      assert (app + ["404.html"])[|app|] == "404.html";
    }
    assert pages.contents[p] == s.contents[p];
    JsFilesApply(pages, files, e.name, p);
    JsRewriteIsStripApp(s.contents[p], e.name);
    StripAppRemoves(s.contents[p], e.name);
  }
}
