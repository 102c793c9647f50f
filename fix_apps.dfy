/** `scripts/fix-nextjs-apps.mjs`: point the root-relative references of
    two exported apps either at themselves (`./`) or at their full public
    path, one `replaceInFile` call per entry. */
module FixApps {
  import opened Fs
  import Text
  import opened Rewrite
  import opened AppRoots

  /** The prefix the references move to: `.` in relative mode, otherwise
      `/<modelPrefix>/<app>`. */
  function Target(app: string, modelPrefix: string, useRelativePaths: bool): (target: string)
    ensures |target| > 0
    ensures QuoteFree(app) && QuoteFree(modelPrefix) && !useRelativePaths ==> QuoteFree(target)
  {
    if useRelativePaths then "." else "/" + modelPrefix + "/" + app
  }

  /** The `replaceInFile` calls of `fixAllFiles` for one text file, in
      order: the three root references, then the two favicons. */
  function Table(app: string, modelPrefix: string, useRelativePaths: bool): (t: seq<Replacement>)
    ensures |t| == 5 && Searchable(t)
  {
    var target := Target(app, modelPrefix, useRelativePaths);
    RootEntries(app, target) + FaviconEntries(target)
  }

  /** Relative mode suits every app name without quotes. */
  lemma RelativeTargetGood(app: string)
    requires QuoteFree(app)
    ensures GoodTarget(app, Target(app, "", true))
  {
    var a, b := "/" + app + "/", "./";
    assert a[0] != b[0];
  }

  /** In either mode, a root reference followed by inert text moves to the
      target and keeps its quote; nothing else in the table touches it. */
  lemma RootReferenceMoved(q: string, app: string, modelPrefix: string, useRelativePaths: bool, t: string)
    requires OneQuote(q) && Inert(t)
    requires GoodTarget(app, Target(app, modelPrefix, useRelativePaths))
    ensures var target := Target(app, modelPrefix, useRelativePaths);
      ApplyTable(RootEntry(q, app, target).search + t, Table(app, modelPrefix, useRelativePaths))
        == RootEntry(q, app, target).replace + t
  {
    RootMovedThrough(q, app, Target(app, modelPrefix, useRelativePaths), t);
  }

  /** In either mode, a favicon reference in double or single quotes moves
      below the target in the same quotes (`"./favicon.ico"` in relative
      mode), provided its closing quote and what follows are inert. */
  lemma FaviconReferenceMoved(q: string, app: string, modelPrefix: string, useRelativePaths: bool, t: string)
    requires FaviconQuote(q) && Inert(q + t)
    requires GoodTarget(app, Target(app, modelPrefix, useRelativePaths))
    ensures ApplyTable(FaviconRef(q) + t, Table(app, modelPrefix, useRelativePaths))
      == MovedFaviconRef(q, Target(app, modelPrefix, useRelativePaths)) + t
  {
    FaviconMovedThrough(q, app, Target(app, modelPrefix, useRelativePaths), t);
  }

  /** After the root entries, no reference to the app's root is left. */
  lemma NoRootLeft(c: string, app: string, modelPrefix: string, useRelativePaths: bool)
    requires GoodTarget(app, Target(app, modelPrefix, useRelativePaths))
    ensures var target := Target(app, modelPrefix, useRelativePaths);
      RootFree(ApplyTable(c, RootEntries(app, target)), app)
      && ApplyTable(c, Table(app, modelPrefix, useRelativePaths))
        == ApplyTable(ApplyTable(c, RootEntries(app, target)), FaviconEntries(target))
  {
    var target := Target(app, modelPrefix, useRelativePaths);
    RootsGone(c, app, target);
    ApplyTableAppend(c, RootEntries(app, target), FaviconEntries(target));
  }

  /** `main`: below the repository, `public/apps/gpt-5/asteroid-game` and
      then `public/apps/gpt-5/espresso`, both in full mode with model prefix
      `apps/gpt-5`. */
  function Jobs(): (jobs: seq<Job>)
    ensures |jobs| == 2
    ensures forall i :: 0 <= i < 2 ==>
      |jobs[i].dir| == 4 && jobs[i].table == Table(jobs[i].dir[3], "apps/gpt-5", false)
  {
    [ Job(["public", "apps", "gpt-5", "asteroid-game"], Table("asteroid-game", "apps/gpt-5", false)),
      Job(["public", "apps", "gpt-5", "espresso"], Table("espresso", "apps/gpt-5", false)) ]
  }

  /** The app's root and the full target part at character `i` of the
      app name and the model prefix. */
  lemma TargetDiffers(app: string, modelPrefix: string, i: nat)
    requires i < |app| && i < |modelPrefix| && app[i] != modelPrefix[i]
    ensures Text.Differ("/" + app + "/", Target(app, modelPrefix, false) + "/")
  {
    var a, t := "/" + app + "/", Target(app, modelPrefix, false) + "/";
    assert a[i + 1] == app[i];
    assert t[i + 1] == modelPrefix[i];
  }

  /** The lemmas above apply to both calls of `main`. */
  lemma AsteroidTargetGood()
    ensures GoodTarget("asteroid-game", Target("asteroid-game", "apps/gpt-5", false))
  {
    NamesQuoteFree();
    assert "asteroid-game"[1] == 's' && "apps/gpt-5"[1] == 'p';
    TargetDiffers("asteroid-game", "apps/gpt-5", 1);
  }

  lemma EspressoTargetGood()
    ensures GoodTarget("espresso", Target("espresso", "apps/gpt-5", false))
  {
    NamesQuoteFree();
    assert "espresso"[0] == 'e' && "apps/gpt-5"[0] == 'a';
    TargetDiffers("espresso", "apps/gpt-5", 0);
  }

  /** `main`: the first call that rejects makes the script exit with
      status 1 (`ok` false) and skips the rest. */
  method RunScript(disk: Disk, tree: seq<Node>) returns (ok: bool)
    modifies disk
    ensures (disk.state, ok) == RunJobs(old(disk.state), tree, Jobs(), PerStep)
  {
    ok := RunJobsOn(disk, tree, Jobs(), PerStep);
  }
}
