/** `loadYamlFiles`: a recursive walk from a root directory that collects
    every YAML file, skipping heavy or generated directories. */
module LoadYaml {
  import opened Wrappers
  import opened Fs
  import Text

  /** Directories the walk never enters, at any depth. */
  const SkipDirs: seq<string> := ["node_modules", ".git", ".next", "dist", "build", "out", ".vercel", "misc", "public"]

  predicate Enter(name: string) {
    name !in SkipDirs
  }

  /** A regular file whose lower-cased name ends in `.yaml` or `.yml`. */
  predicate IsYamlFile(e: Node) {
    e.File? && (Text.EndsWith(Text.ToLower(e.name), ".yaml") || Text.EndsWith(Text.ToLower(e.name), ".yml"))
  }

  /** What the walk returns, as a function of the tree. */
  function YamlFiles(dir: Path, es: seq<Node>): Visit {
    WalkEntries(dir, es, Enter, IsYamlFile)
  }

  /** Every path returned names a YAML file reached without passing through
      a skipped directory. */
  lemma YamlFilesSound(es: seq<Node>)
    ensures forall p :: p in YamlFiles([], es).files ==>
      exists e :: Under(es, p, e, Enter) && IsYamlFile(e)
  {
    WalkEntriesSound([], es, Enter, IsYamlFile);
    forall p | p in YamlFiles([], es).files ensures exists e :: Under(es, p, e, Enter) && IsYamlFile(e) {
      assert p[0..] == p;
    }
  }

  /** Every YAML file outside the skipped directories is returned, provided
      no listing failed. */
  lemma YamlFilesComplete(es: seq<Node>, q: Path, e: Node)
    requires Under(es, q, e, Enter) && IsYamlFile(e) && YamlFiles([], es).complete
    ensures q in YamlFiles([], es).files
  {
    WalkEntriesComplete([], es, q, e, Enter, IsYamlFile);
    assert [] + q == q;
  }

  /** A skipped directory contributes nothing, whatever it holds. */
  lemma SkippedDirectoryIgnored(dir: Path, name: string, cs: seq<Node>)
    requires name in SkipDirs
    ensures WalkEntry(dir, Dir(name, cs), Enter, IsYamlFile) == Visit([], true)
  {
  }

  /** The shared `results` array of `loadYamlFiles`, filled by `walk`. */
  class YamlCollector {
    var results: seq<Path>

    constructor ()
      ensures results == []
    {
      results := [];
    }

    /** `walk(dir)` over the listing `es` of `dir`: directories are entered
        unless skipped, YAML files are pushed, and anything else (symbolic
        links included) is ignored. A listing that throws aborts the walk;
        `ok` is false then. */
    method Walk(dir: Path, es: seq<Node>) returns (ok: bool)
      modifies this
      ensures results == old(results) + YamlFiles(dir, es).files
      ensures ok == YamlFiles(dir, es).complete
      decreases es
    {
      var i := 0;
      while i < |es|
        invariant 0 <= i <= |es|
        invariant YamlFiles(dir, es[..i]).complete
        invariant results == old(results) + YamlFiles(dir, es[..i]).files
      {
        var e := es[i];
        WalkEntriesSnoc(dir, es, i, Enter, IsYamlFile);
        match e {
          case Dir(name, cs) =>
            if Enter(name) {
              var done := Walk(dir + [name], cs);
              if !done {
                WalkEntriesStops(dir, es, i + 1, Enter, IsYamlFile);
                return false;
              }
            }
          case LockedDir(name) =>
            if Enter(name) {
              WalkEntriesStops(dir, es, i + 1, Enter, IsYamlFile);
              return false;
            }
          case File(name) =>
            if IsYamlFile(e) {
              results := results + [dir + [name]];
            }
          case Other(_) =>
        }
        i := i + 1;
      }
      assert es[..i] == es;
      return true;
    }
  }

  /** `loadYamlFiles(root)`: the collected paths, or nothing when a listing
      threw (the promise rejects). */
  method LoadYamlFiles(root: seq<Node>) returns (r: Option<seq<Path>>)
    ensures r.Some? <==> YamlFiles([], root).complete
    ensures r.Some? ==> r.value == YamlFiles([], root).files
  {
    var c := new YamlCollector();
    var ok := c.Walk([], root);
    if ok {
      r := Some(c.results);
    } else {
      r := None;
    }
  }
}
