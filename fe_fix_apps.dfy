/** `front-end/scripts/fix-nextjs-apps.mjs`: point the root-relative
    references of two exported apps at their public path under
    `/openai/`, one `replaceInFile` call per entry. */
module FrontEndFixApps {
  import opened Fs
  import Text
  import opened Rewrite
  import opened AppRoots

  /** The `_next` entries for `"` and `'`. */
  function NextEntries(app: string, targetPrefix: string): (t: seq<Replacement>)
    ensures |t| == 2 && Searchable(t)
  {
    [ Replacement("\"" + "/" + app + "/" + "_next/", "\"" + targetPrefix + "/_next/"),
      Replacement("'" + "/" + app + "/" + "_next/", "'" + targetPrefix + "/_next/") ]
  }

  /** The `replaceInFile` calls of `fixAllFiles` for one text file, in
      order: root references, `_next` references, favicons. */
  function Table(app: string, targetPrefix: string): (t: seq<Replacement>)
    ensures |t| == 7 && Searchable(t)
  {
    RootEntries(app, targetPrefix) + NextEntries(app, targetPrefix) + FaviconEntries(targetPrefix)
  }

  /** The `_next` entries never change anything: every `"/<app>/_next/`
      is a `"/<app>/` reference, which the first entries have already
      moved. The table does what it would do without them. */
  lemma NextEntriesDead(c: string, app: string, targetPrefix: string)
    requires GoodTarget(app, targetPrefix)
    ensures ApplyTable(c, Table(app, targetPrefix))
      == ApplyTable(c, RootEntries(app, targetPrefix) + FaviconEntries(targetPrefix))
    ensures var m := ApplyTable(c, RootEntries(app, targetPrefix));
      ApplyTable(m, NextEntries(app, targetPrefix)) == m && !AnyChange(m, NextEntries(app, targetPrefix))
  {
    var roots, next, favs := RootEntries(app, targetPrefix), NextEntries(app, targetPrefix), FaviconEntries(targetPrefix);
    var m := ApplyTable(c, roots);
    RootsGone(c, app, targetPrefix);
    Text.NoOccurrenceOfLonger(m, RootEntry("\"", app, "").search, "_next/");
    Text.NoOccurrenceOfLonger(m, RootEntry("'", app, "").search, "_next/");
    ApplyTableAllAbsent(m, next);
    ApplyTableAppend(c, roots + next, favs);
    ApplyTableAppend(c, roots, next);
    ApplyTableAppend(c, roots, favs);
  }

  /** A root reference followed by inert text moves below the target
      prefix and keeps its quote. */
  lemma RootReferenceMoved(q: string, app: string, targetPrefix: string, t: string)
    requires OneQuote(q) && GoodTarget(app, targetPrefix) && |targetPrefix| > 0 && Inert(t)
    ensures ApplyTable(RootEntry(q, app, targetPrefix).search + t, Table(app, targetPrefix))
      == RootEntry(q, app, targetPrefix).replace + t
  {
    NextEntriesDead(RootEntry(q, app, targetPrefix).search + t, app, targetPrefix);
    RootMovedThrough(q, app, targetPrefix, t);
  }

  /** A favicon reference in double or single quotes moves below the
      target prefix in the same quotes, provided its closing quote and what
      follows are inert. */
  lemma FaviconReferenceMoved(q: string, app: string, targetPrefix: string, t: string)
    requires FaviconQuote(q) && GoodTarget(app, targetPrefix) && Inert(q + t)
    ensures ApplyTable(FaviconRef(q) + t, Table(app, targetPrefix))
      == MovedFaviconRef(q, targetPrefix) + t
  {
    NextEntriesDead(FaviconRef(q) + t, app, targetPrefix);
    FaviconMovedThrough(q, app, targetPrefix, t);
  }

  /** `main`: below the `front-end` directory, `public/openai/asteroid-game`
      with prefix `/openai/asteroid-game`, then `public/openai/espresso`
      with prefix `/openai/espresso`. */
  function Jobs(): (jobs: seq<Job>)
    ensures |jobs| == 2
    ensures forall i :: 0 <= i < 2 ==>
      |jobs[i].dir| == 3 && jobs[i].table == Table(jobs[i].dir[2], "/openai/" + jobs[i].dir[2])
  {
    var a, e := "asteroid-game", "espresso";
    [ Job(["public", "openai", a], Table(a, "/openai/" + a)),
      Job(["public", "openai", e], Table(e, "/openai/" + e)) ]
  }

  /** The lemmas above apply to both calls of `main`. */
  lemma AsteroidTargetGood()
    ensures GoodTarget("asteroid-game", "/openai/" + "asteroid-game")
  {
    var a, ta := "/asteroid-game/", "/openai/" + "asteroid-game" + "/";
    NamesQuoteFree();
    assert a[1] != ta[1];
  }

  lemma EspressoTargetGood()
    ensures GoodTarget("espresso", "/openai/" + "espresso")
  {
    var e, te := "/espresso/", "/openai/" + "espresso" + "/";
    NamesQuoteFree();
    assert e[1] != te[1];
  }

  /** `main`: the first call that rejects makes the script exit with
      status 1 (`ok` false) and skips the rest. */
  method RunScript(disk: Disk, tree: seq<Node>) returns (ok: bool)
    modifies disk
    ensures (disk.state, ok) == RunJobs(old(disk.state), tree, Jobs(), PerStep)
  {
    ok := RunJobsOn(disk, tree, Jobs(), PerStep);
  }
}
