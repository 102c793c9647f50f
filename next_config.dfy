/** `next.config.ts`: the development server's rewrite table. Every exported
    app below a model directory that has an `index.html` gets a rule that
    serves that page for the app's bare path; the client-side compare route
    comes first. The scan is shared with `front-end/next.config.ts`, which
    differs in where it looks. */
module NextConfig {
  import opened Fs

  /** One `{ source, destination }` rule. */
  datatype Rewrite = Rewrite(source: string, destination: string)

  /** `/compare/:path*` is served by the home page. */
  const CompareRule := Rewrite("/compare/:path*", "/")

  lemma CompareInitial()
    ensures |CompareRule.source| > 1 && CompareRule.source[1] == 'c'
  {
    var s := "/compare/:path*";
    assert s == ['/'] + "compare/:path*";
  }

  /** The rule for app `app` of model `model`, below the URL root `root`. */
  function AppRule(root: string, model: string, app: string): (r: Rewrite)
    ensures r.destination == r.source + "/index.html"
    ensures |r.source| > |root| && r.source[..|root| + 1] == root + "/"
  {
    var source := root + "/" + model + "/" + app;
    assert source[..|root| + 1] == root + "/";
    Rewrite(source, source + "/index.html")
  }

  /** An entry of a model directory that gets a rule: a directory with an
      `index.html` in it (anything at all by that name). */
  predicate Exported(tree: seq<Node>, dir: Path, e: Node) {
    e.IsDirectory() && Exists(tree, dir + [e.name, "index.html"])
  }

  /** The rules for one model directory, in listing order. */
  function ModelRules(tree: seq<Node>, dir: Path, root: string, model: string, es: seq<Node>): (rules: seq<Rewrite>)
    ensures forall r :: r in rules <==> exists e :: e in es && Exported(tree, dir, e) && r == AppRule(root, model, e.name)
    decreases |es|
  {
    if es == [] then []
    else
      var n := |es| - 1;
      assert forall e :: e in es <==> e in es[..n] || e == es[n];
      ModelRules(tree, dir, root, model, es[..n])
        + (if Exported(tree, dir, es[n]) then [AppRule(root, model, es[n].name)] else [])
  }

  /** How far the scan got: the rules pushed so far, and whether no
      `readdirSync` threw. */
  datatype Scan = Scan(rules: seq<Rewrite>, complete: bool)

  /** The model loop of `detectAppPaths`: the model directories below
      `base` in order. With `skipMissing`, a model directory that does not
      exist is passed over; a `readdirSync` that throws ends the scan, and
      the `catch` keeps the rules pushed before it. */
  function Detect(tree: seq<Node>, base: Path, root: string, models: seq<string>, skipMissing: bool): (s: Scan)
    ensures forall r :: r in s.rules ==>
      r.destination == r.source + "/index.html" && |r.source| > |root| && r.source[..|root| + 1] == root + "/"
    decreases |models|
  {
    if models == [] then Scan([], true)
    else
      var n := |models| - 1;
      var prev := Detect(tree, base, root, models[..n], skipMissing);
      var dir := base + [models[n]];
      if !prev.complete then prev
      else if skipMissing && !Exists(tree, dir) then prev
      else match ListDir(tree, dir)
        case None => Scan(prev.rules, false)
        case Some(es) => Scan(prev.rules + ModelRules(tree, dir, root, models[n], es), true)
  }

  /** `r` is the rule of some exported app of model directory `model`. */
  ghost predicate FromModel(tree: seq<Node>, base: Path, root: string, model: string, r: Rewrite) {
    ListDir(tree, base + [model]).Some?
    && exists e :: (e in ListDir(tree, base + [model]).value && Exported(tree, base + [model], e)
                    && r == AppRule(root, model, e.name))
  }

  /** Whether model directory `model` lets the scan go on. */
  predicate Scannable(tree: seq<Node>, base: Path, model: string, skipMissing: bool) {
    (skipMissing && !Exists(tree, base + [model])) || ListDir(tree, base + [model]).Some?
  }

  /** The scan reaches the end exactly when no model directory it is to
      list throws. */
  lemma {:induction false} DetectCompletes(tree: seq<Node>, base: Path, root: string, models: seq<string>, skipMissing: bool)
    ensures Detect(tree, base, root, models, skipMissing).complete <==>
      forall k :: 0 <= k < |models| ==> Scannable(tree, base, models[k], skipMissing)
    decreases |models|
  {
    if models != [] {
      var n := |models| - 1;
      DetectCompletes(tree, base, root, models[..n], skipMissing);
      assert forall k :: 0 <= k < n ==> models[..n][k] == models[k];
    }
  }

  /** Every rule comes from an exported app of one of the model
      directories. */
  lemma {:induction false} DetectSound(tree: seq<Node>, base: Path, root: string, models: seq<string>, skipMissing: bool, r: Rewrite)
    requires r in Detect(tree, base, root, models, skipMissing).rules
    ensures exists k :: 0 <= k < |models| && FromModel(tree, base, root, models[k], r)
    decreases |models|
  {
    var n := |models| - 1;
    var prev := Detect(tree, base, root, models[..n], skipMissing);
    if r in prev.rules {
      DetectSound(tree, base, root, models[..n], skipMissing, r);
      var k :| 0 <= k < n && FromModel(tree, base, root, models[..n][k], r);
      assert models[..n][k] == models[k];
    } else {
      assert FromModel(tree, base, root, models[n], r);
    }
  }

  /** When the scan completes, every exported app of every model directory
      has its rule. */
  lemma {:induction false} DetectComplete(tree: seq<Node>, base: Path, root: string, models: seq<string>, skipMissing: bool, k: nat, r: Rewrite)
    requires Detect(tree, base, root, models, skipMissing).complete
    requires k < |models| && FromModel(tree, base, root, models[k], r)
    ensures r in Detect(tree, base, root, models, skipMissing).rules
    decreases |models|
  {
    var n := |models| - 1;
    var prev := Detect(tree, base, root, models[..n], skipMissing);
    var dir := base + [models[n]];
    assert prev.complete && Detect(tree, base, root, models, skipMissing).rules[..|prev.rules|] == prev.rules;
    if k < n {
      assert models[..n][k] == models[k];
      DetectComplete(tree, base, root, models[..n], skipMissing, k, r);
    } else {
      assert Exists(tree, dir) by {
        assert Find(tree, dir).Some?;
      }
      var e :| e in ListDir(tree, dir).value && Exported(tree, dir, e) && r == AppRule(root, models[n], e.name);
    }
  }

  /** Scanning more model directories only appends rules: the rules follow
      model order. */
  lemma {:induction false} DetectPrefix(tree: seq<Node>, base: Path, root: string, models: seq<string>, skipMissing: bool, i: nat)
    requires i <= |models|
    ensures var before := Detect(tree, base, root, models[..i], skipMissing).rules;
      var after := Detect(tree, base, root, models, skipMissing).rules;
      |before| <= |after| && after[..|before|] == before
    decreases |models|
  {
    if i < |models| {
      var n := |models| - 1;
      assert models[..n][..i] == models[..i];
      DetectPrefix(tree, base, root, models[..n], skipMissing, i);
      var mid := Detect(tree, base, root, models[..n], skipMissing).rules;
      var before := Detect(tree, base, root, models[..i], skipMissing).rules;
      var after := Detect(tree, base, root, models, skipMissing).rules;
      assert after[..|mid|] == mid;
      assert after[..|before|] == mid[..|before|];
    } else {
      assert models[..i] == models;
    }
  }

  /** After a `readdirSync` throws, later model directories add nothing:
      the result is the partial list. */
  lemma {:induction false} DetectStops(tree: seq<Node>, base: Path, root: string, models: seq<string>, skipMissing: bool, i: nat)
    requires i < |models| && !Detect(tree, base, root, models[..i + 1], skipMissing).complete
    ensures Detect(tree, base, root, models, skipMissing) == Detect(tree, base, root, models[..i + 1], skipMissing)
    decreases |models|
  {
    if |models| == i + 1 {
      assert models[..i + 1] == models;
    } else {
      var n := |models| - 1;
      assert models[..n][..i + 1] == models[..i + 1];
      DetectStops(tree, base, root, models[..n], skipMissing, i);
    }
  }

  // ---------------------------------------------------------------------
  // `next.config.ts`

  /** `detectAppPaths`: the model directories are the directories of
      `public/apps`; a missing `public/apps` (or one that cannot be listed)
      gives no rules. */
  function RootDetect(tree: seq<Node>): seq<Rewrite> {
    if !Exists(tree, AppsDir) then []
    else match ListDir(tree, AppsDir)
      case None => []
      case Some(es) => Detect(tree, AppsDir, "/apps", DirNames(es), false).rules
  }

  /** The table `rewrites()` returns. */
  function Rewrites(tree: seq<Node>): seq<Rewrite> {
    [CompareRule] + RootDetect(tree)
  }

  /** The compare rule comes first and no app rule shadows it; every app
      rule is `/apps/<model>/<app>` served from its `index.html`. */
  lemma RewritesShape(tree: seq<Node>)
    ensures |Rewrites(tree)| >= 1 && Rewrites(tree)[0] == CompareRule
    ensures forall i :: 1 <= i < |Rewrites(tree)| ==>
      Rewrites(tree)[i].source != CompareRule.source
      && Rewrites(tree)[i].destination == Rewrites(tree)[i].source + "/index.html"
      && Rewrites(tree)[i].source[..6] == "/apps/"
  {
    var t := Rewrites(tree);
    forall i | 1 <= i < |t|
      ensures t[i].source != CompareRule.source
      ensures t[i].destination == t[i].source + "/index.html"
      ensures t[i].source[..6] == "/apps/"
    {
      assert t[i] in RootDetect(tree);
      assert "/apps" + "/" == "/apps/";
      CompareInitial();
      assert t[i].source[1] == 'a';
    }
  }

  /** With every model directory listable, the app rules are exactly the
      rules of the exported apps. */
  lemma RootDetectExact(tree: seq<Node>, r: Rewrite)
    requires ListDir(tree, AppsDir).Some?
    requires forall m :: m in DirNames(ListDir(tree, AppsDir).value) ==> ListDir(tree, AppsDir + [m]).Some?
    ensures r in RootDetect(tree) <==>
      exists m :: m in DirNames(ListDir(tree, AppsDir).value) && FromModel(tree, AppsDir, "/apps", m, r)
  {
    var models := DirNames(ListDir(tree, AppsDir).value);
    assert Exists(tree, AppsDir) by {
      assert Find(tree, AppsDir).Some?;
    }
    DetectCompletes(tree, AppsDir, "/apps", models, false);
    if r in RootDetect(tree) {
      DetectSound(tree, AppsDir, "/apps", models, false, r);
    }
    if exists m :: m in models && FromModel(tree, AppsDir, "/apps", m, r) {
      var m :| m in models && FromModel(tree, AppsDir, "/apps", m, r);
      var k :| 0 <= k < |models| && models[k] == m;
      DetectComplete(tree, AppsDir, "/apps", models, false, k, r);
    }
  }

  /** No `public/apps`: no app rules. */
  lemma NoAppsDir(tree: seq<Node>)
    requires !Exists(tree, AppsDir)
    ensures Rewrites(tree) == [CompareRule]
  {
  }

  /** `detectAppPaths` as written: the model loop and the entry loop push
      onto `rewrites`; a `readdirSync` that throws leaves the loops with what
      was pushed so far. */
  method DetectAppPaths(tree: seq<Node>) returns (rewrites: seq<Rewrite>)
    ensures rewrites == RootDetect(tree)
  {
    rewrites := [];
    if !Exists(tree, AppsDir) {
      return;
    }
    var listing := ListDir(tree, AppsDir);
    if listing.None? {
      return;
    }
    var models := DirNames(listing.value);
    for i := 0 to |models|
      invariant Detect(tree, AppsDir, "/apps", models[..i], false) == Scan(rewrites, true)
    {
      assert models[..i + 1][..i] == models[..i];
      var dir := AppsDir + [models[i]];
      var entries := ListDir(tree, dir);
      if entries.None? {
        DetectStops(tree, AppsDir, "/apps", models, false, i);
        return;
      }
      rewrites := PushModel(tree, dir, "/apps", models[i], entries.value, rewrites);
    }
    assert models[..|models|] == models;
  }

  /** The entry loop for one model directory. */
  method PushModel(tree: seq<Node>, dir: Path, root: string, model: string, es: seq<Node>, before: seq<Rewrite>)
    returns (rewrites: seq<Rewrite>)
    ensures rewrites == before + ModelRules(tree, dir, root, model, es)
  {
    rewrites := before;
    for j := 0 to |es|
      invariant rewrites == before + ModelRules(tree, dir, root, model, es[..j])
    {
      assert es[..j + 1][..j] == es[..j];
      var e := es[j];
      if e.IsDirectory() {
        if Exists(tree, dir + [e.name, "index.html"]) {
          rewrites := rewrites + [AppRule(root, model, e.name)];
        }
      }
    }
    assert es[..|es|] == es;
  }

  /** `rewrites()`. */
  method RewritesOf(tree: seq<Node>) returns (table: seq<Rewrite>)
    ensures table == Rewrites(tree)
  {
    var apps := DetectAppPaths(tree);
    table := [CompareRule] + apps;
  }
}
