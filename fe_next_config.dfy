/** `front-end/next.config.ts`: the same rewrite table, built from five
    fixed model directories below `public`, with rule paths
    `/<model>/<app>`. */
module FrontEndNextConfig {
  import opened Fs
  import opened NextConfig

  /** The model directories scanned, in order. */
  const ConfigModels := ["gpt-5", "opus-4.1", "opus-4.5", "sonnet-4.5", "gemini-3"]

  const PublicDir: Path := ["public"]

  /** `detectAppPaths`: a model directory that does not exist is skipped. */
  function FrontEndDetect(tree: seq<Node>): seq<Rewrite> {
    Detect(tree, PublicDir, "", ConfigModels, true).rules
  }

  function Rewrites(tree: seq<Node>): seq<Rewrite> {
    [CompareRule] + FrontEndDetect(tree)
  }

  /** No configured model name starts like `compare`. */
  lemma ModelInitials()
    ensures forall k :: 0 <= k < |ConfigModels| ==> |ConfigModels[k]| > 0 && ConfigModels[k][0] != 'c'
  {
    assert ConfigModels[0][0] == 'g' && ConfigModels[1][0] == 'o' && ConfigModels[2][0] == 'o';
    assert ConfigModels[3][0] == 's' && ConfigModels[4][0] == 'g';
  }

  /** The compare rule comes first and no app rule shadows it; every app
      rule is `/<model>/<app>` for a configured model, served from its
      `index.html`. */
  lemma RewritesShape(tree: seq<Node>)
    ensures |Rewrites(tree)| >= 1 && Rewrites(tree)[0] == CompareRule
    ensures forall i :: 1 <= i < |Rewrites(tree)| ==>
      Rewrites(tree)[i].source != CompareRule.source
      && Rewrites(tree)[i].destination == Rewrites(tree)[i].source + "/index.html"
      && exists k, app :: 0 <= k < |ConfigModels| && Rewrites(tree)[i] == AppRule("", ConfigModels[k], app)
  {
    var t := Rewrites(tree);
    forall i | 1 <= i < |t|
      ensures t[i].source != CompareRule.source
      ensures exists k, app :: 0 <= k < |ConfigModels| && t[i] == AppRule("", ConfigModels[k], app)
    {
      assert t[i] in FrontEndDetect(tree);
      AppRuleShape(tree, t[i]);
    }
  }

  /** One app rule of the scan. */
  lemma AppRuleShape(tree: seq<Node>, r: Rewrite)
    requires r in FrontEndDetect(tree)
    ensures r.source != CompareRule.source
    ensures exists k, app :: 0 <= k < |ConfigModels| && r == AppRule("", ConfigModels[k], app)
  {
    DetectSound(tree, PublicDir, "", ConfigModels, true, r);
    var k :| 0 <= k < |ConfigModels| && FromModel(tree, PublicDir, "", ConfigModels[k], r);
    var m := ConfigModels[k];
    var dir := PublicDir + [m];
    var e :| e in ListDir(tree, dir).value && Exported(tree, dir, e) && r == AppRule("", m, e.name);
    ModelInitials();
    assert r.source == "" + "/" + m + "/" + e.name;
    assert r.source[1] == m[0] != 'c';
    CompareInitial();
  }

  /** With every model directory that exists listable, the app rules are
      exactly the rules of the exported apps; a missing model directory
      contributes nothing and does not stop the scan. */
  lemma FrontEndDetectExact(tree: seq<Node>, r: Rewrite)
    requires forall k :: 0 <= k < |ConfigModels| && Exists(tree, PublicDir + [ConfigModels[k]]) ==>
      ListDir(tree, PublicDir + [ConfigModels[k]]).Some?
    ensures r in FrontEndDetect(tree) <==>
      exists k :: 0 <= k < |ConfigModels| && FromModel(tree, PublicDir, "", ConfigModels[k], r)
  {
    DetectCompletes(tree, PublicDir, "", ConfigModels, true);
    if r in FrontEndDetect(tree) {
      DetectSound(tree, PublicDir, "", ConfigModels, true, r);
    }
    if exists k :: 0 <= k < |ConfigModels| && FromModel(tree, PublicDir, "", ConfigModels[k], r) {
      var k :| 0 <= k < |ConfigModels| && FromModel(tree, PublicDir, "", ConfigModels[k], r);
      DetectComplete(tree, PublicDir, "", ConfigModels, true, k, r);
    }
  }

  /** `detectAppPaths` as written. */
  method DetectAppPaths(tree: seq<Node>) returns (rewrites: seq<Rewrite>)
    ensures rewrites == FrontEndDetect(tree)
  {
    rewrites := [];
    var models := ConfigModels;
    for i := 0 to |models|
      invariant Detect(tree, PublicDir, "", models[..i], true) == Scan(rewrites, true)
    {
      assert models[..i + 1][..i] == models[..i];
      var dir := PublicDir + [models[i]];
      if Exists(tree, dir) {
        var entries := ListDir(tree, dir);
        if entries.None? {
          DetectStops(tree, PublicDir, "", models, true, i);
          return;
        }
        rewrites := PushModel(tree, dir, "", models[i], entries.value, rewrites);
      }
    }
    assert models[..|models|] == models;
  }

  /** `rewrites()`. */
  method RewritesOf(tree: seq<Node>) returns (table: seq<Rewrite>)
    ensures table == Rewrites(tree)
  {
    var apps := DetectAppPaths(tree);
    table := [CompareRule] + apps;
  }
}
