/** What the static-export fix scripts share: ordered tables of literal
    replacements applied with `split(search).join(replace)`, the two ways a
    file is rewritten (one read and write per replacement, or all
    replacements on a buffer and one write), the text-file filter and the
    recursive walk that drives them. */
module Rewrite {
  import opened Wrappers
  import opened Fs
  import Text

  /** One `[search, replace]` pair of a table. */
  datatype Replacement = Replacement(search: string, replace: string)

  /** No search string is empty (an empty one would not be a literal match). */
  predicate Searchable(table: seq<Replacement>) {
    forall i :: 0 <= i < |table| ==> |table[i].search| > 0
  }

  function Step(c: string, r: Replacement): string {
    Text.ReplaceAll(c, r.search, r.replace)
  }

  /** The table applied in order, every entry a replace-all on the result of
      the entries before it. */
  function ApplyTable(c: string, table: seq<Replacement>): string
    decreases |table|
  {
    if table == [] then c
    else Step(ApplyTable(c, table[..|table| - 1]), table[|table| - 1])
  }

  /** The `modified` flag: some entry changed the text it was given. */
  predicate AnyChange(c: string, table: seq<Replacement>)
    decreases |table|
  {
    table != [] &&
    var before := ApplyTable(c, table[..|table| - 1]);
    (AnyChange(c, table[..|table| - 1]) || Step(before, table[|table| - 1]) != before)
  }

  lemma ApplyTableSnoc(c: string, table: seq<Replacement>, i: nat)
    requires i < |table|
    ensures ApplyTable(c, table[..i + 1]) == Step(ApplyTable(c, table[..i]), table[i])
    ensures AnyChange(c, table[..i + 1]) <==>
      AnyChange(c, table[..i]) || Step(ApplyTable(c, table[..i]), table[i]) != ApplyTable(c, table[..i])
  {
    assert table[..i + 1][..i] == table[..i];
  }

  /** When no entry changed anything, the text is what it was; so text that
      ends up different always raises the flag. */
  lemma {:induction false} NoChangeKeeps(c: string, table: seq<Replacement>)
    ensures !AnyChange(c, table) ==> ApplyTable(c, table) == c
    ensures ApplyTable(c, table) != c ==> AnyChange(c, table)
    decreases |table|
  {
    if table != [] {
      NoChangeKeeps(c, table[..|table| - 1]);
    }
  }

  lemma {:induction false} ApplyTableAppend(c: string, a: seq<Replacement>, b: seq<Replacement>)
    ensures ApplyTable(c, a + b) == ApplyTable(ApplyTable(c, a), b)
    decreases |b|
  {
    if b == [] {
      assert a + b == a;
    } else {
      var n := |b| - 1;
      assert (a + b)[..|a + b| - 1] == a + b[..n];
      ApplyTableAppend(c, a, b[..n]);
    }
  }

  /** A table none of whose search strings occurs leaves the text alone. */
  lemma {:induction false} ApplyTableAllAbsent(c: string, table: seq<Replacement>)
    requires forall i :: 0 <= i < |table| ==> |table[i].search| > 0 && !Text.Occurs(c, table[i].search)
    ensures ApplyTable(c, table) == c && !AnyChange(c, table)
    decreases |table|
  {
    if table != [] {
      var n := |table| - 1;
      assert forall i :: 0 <= i < n ==> table[..n][i] == table[i];
      ApplyTableAllAbsent(c, table[..n]);
      Text.ReplaceAllAbsent(c, table[n].search, table[n].replace);
    }
  }

  lemma ApplyTableOne(c: string, r: Replacement)
    ensures ApplyTable(c, [r]) == Step(c, r)
  {
    assert [r][..0] == [];
  }

  /** Only entry `k` finds anything: the text before it survives the
      entries ahead of it, and its result survives the entries after it. */
  lemma ApplyTableOnlyStep(c: string, table: seq<Replacement>, k: nat, d: string)
    requires k < |table|
    requires forall i :: 0 <= i < k ==> |table[i].search| > 0 && !Text.Occurs(c, table[i].search)
    requires Step(c, table[k]) == d
    requires forall i :: k < i < |table| ==> |table[i].search| > 0 && !Text.Occurs(d, table[i].search)
    ensures ApplyTable(c, table) == d
  {
    var pre, post := table[..k], table[k + 1..];
    assert table == pre + ([table[k]] + post);
    assert forall i :: 0 <= i < |pre| ==> pre[i] == table[i];
    assert forall i :: 0 <= i < |post| ==> post[i] == table[k + 1 + i];
    ApplyTableAppend(c, pre, [table[k]] + post);
    ApplyTableAllAbsent(c, pre);
    ApplyTableAppend(c, [table[k]], post);
    ApplyTableOne(c, table[k]);
    ApplyTableAllAbsent(d, post);
  }

  // ---------------------------------------------------------------------
  // Quoted occurrences

  predicate IsQuote(c: char) {
    c == '"' || c == '\'' || c == '`'
  }

  /** Text in which no quote starts something that looks like a path: every
      quote is followed by a character other than `/` and `.`. */
  predicate Inert(t: string) {
    forall i :: 0 <= i < |t| - 1 && IsQuote(t[i]) ==> t[i + 1] != '/' && t[i + 1] != '.'
  }

  /** Every search string of the tables opens with a quote and `/` or `.`;
      in `x + t`, where only the first character of `x` may be a quote and
      `t` is inert, such a string can only occur at the very start. */
  lemma NoQuotedOccurrence(x: string, t: string, p: string)
    requires |p| >= 2 && IsQuote(p[0]) && (p[1] == '/' || p[1] == '.')
    requires forall i :: 0 < i < |x| ==> !IsQuote(x[i])
    requires Inert(t)
    requires !Text.StartsWith(x + t, p)
    ensures !Text.Occurs(x + t, p)
  {
    var s := x + t;
    forall i: nat | i <= |s| ensures !Text.At(s, p, i) {
      if Text.At(s, p, i) {
        Text.AtChar(s, p, i, 0);
        Text.AtChar(s, p, i, 1);
        if i == 0 {
          Text.StartsWithAt(s, p);
        }
      }
    }
  }

  /** A search string that opens with a quote and then `/` or `.`. */
  predicate QuotedPath(p: string) {
    |p| >= 2 && IsQuote(p[0]) && (p[1] == '/' || p[1] == '.')
  }

  predicate QuotedPaths(table: seq<Replacement>) {
    forall i :: 0 <= i < |table| ==> QuotedPath(table[i].search)
  }

  /** Inert text holds no quoted path at all. */
  lemma InertFree(t: string, p: string)
    requires QuotedPath(p) && Inert(t)
    ensures !Text.Occurs(t, p)
  {
    if |t| >= 2 {
      if !IsQuote(t[0]) {
        MismatchAt(t, p, 0);
      } else {
        MismatchAt(t, p, 1);
      }
    }
    NoQuotedOccurrence([], t, p);
  }

  /** A quoted path whose quote differs from the only quote of `x + t`. */
  lemma OtherQuoteAbsent(x: string, t: string, p: string)
    requires QuotedPath(p) && Inert(t)
    requires |x| > 0 && x[0] != p[0]
    requires forall i :: 0 < i < |x| ==> !IsQuote(x[i])
    ensures !Text.Occurs(x + t, p)
  {
    MismatchAt(x + t, p, 0);
    NoQuotedOccurrence(x, t, p);
  }

  /** Inert text stays inert without its first character. */
  lemma InertTail(q: char, t: string)
    requires Inert([q] + t)
    ensures Inert(t)
  {
    forall i | 0 <= i < |t| - 1 && IsQuote(t[i]) ensures t[i + 1] != '/' && t[i + 1] != '.' {
      assert ([q] + t)[i + 1] == t[i] && ([q] + t)[i + 2] == t[i + 1];
    }
  }

  lemma NotStartsWithLonger(s: string, p: string, q: string)
    requires !Text.StartsWith(s, p)
    ensures !Text.StartsWith(s, p + q)
  {
  }

  lemma MismatchAt(s: string, p: string, k: nat)
    requires k < |p| && k < |s| && s[k] != p[k]
    ensures !Text.StartsWith(s, p)
  {
  }

  /** Two different names without `/`, each followed by `/`, after a common
      prefix: the one cannot start where the other does. */
  lemma NamesDiffer(w: string, a: string, b: string, rest: string)
    requires '/' !in a && '/' !in b && a != b
    ensures !Text.StartsWith(w + a + "/" + rest, w + b + "/")
  {
    var s, p := w + a + "/" + rest, w + b + "/";
    if |a| < |b| {
      assert b[|a|] in b;
      assert s[|w| + |a|] == '/';
      assert p[|w| + |a|] == b[|a|];
      MismatchAt(s, p, |w| + |a|);
    } else if |a| > |b| {
      assert a[|b|] in a;
      assert s[|w| + |b|] == a[|b|];
      assert p[|w| + |b|] == '/';
      MismatchAt(s, p, |w| + |b|);
    } else {
      assert s[|w|..|w| + |a|] == a;
      assert p[|w|..|w| + |b|] == b;
      assert |p| <= |s|;
      assert s[..|p|][|w|..|w| + |a|] == s[|w|..|w| + |a|];
    }
  }

  // ---------------------------------------------------------------------
  // Which files are touched

  /** `path.extname` of a single name: from its last `.` on, unless that dot
      is the first character or the name is `..`. */
  function LastDot(s: string): (k: int)
    ensures -1 <= k < |s|
    ensures k >= 0 ==> s[k] == '.'
    ensures forall i :: k < i < |s| ==> s[i] != '.'
    decreases |s|
  {
    if s == [] then -1
    else if s[|s| - 1] == '.' then |s| - 1
    else LastDot(s[..|s| - 1])
  }

  function Extname(name: string): (e: string)
    ensures e == "" <==> name == ".." || forall i :: 0 < i < |name| ==> name[i] != '.'
    ensures e != "" ==> e[0] == '.' && '.' !in e[1..] && |e| < |name| && Text.EndsWith(name, e)
  {
    var k := LastDot(name);
    if k <= 0 || name == ".." then ""
    else
      name[k..]
  }

  const TextExtensions: seq<string> := [".html", ".js", ".css", ".json", ".txt"]

  /** A regular file with one of the listed extensions (compared in lower
      case) or none at all. */
  predicate IsTextFile(e: Node) {
    e.File? && (Text.ToLower(Extname(e.name)) in TextExtensions || Extname(e.name) == "")
  }

  /** The walk descends into every directory. */
  predicate AllDirs(name: string) {
    true
  }

  function TextFiles(dir: Path, es: seq<Node>): Visit {
    WalkEntries(dir, es, AllDirs, IsTextFile)
  }

  // ---------------------------------------------------------------------
  // Rewriting one file

  /** `replaceInFile`: read, replace every occurrence, and write and report
      true only when the content changed; a read that throws reports false. */
  function ReplaceInFile(s: DiskState, p: Path, r: Replacement): (DiskState, bool) {
    if p !in s.contents then (s, false)
    else
      var c := s.contents[p];
      var n := Step(c, r);
      if n != c then (Write(s, p, n), true) else (s, false)
  }

  /** A run of `replaceInFile` calls on one file, `modified` being the OR of
      their results. Whatever the calls do, the file ends up holding the
      table applied to what it held, the flag is that of the table, and only
      this file is written, once per entry that changed it. */
  function ReplaceEach(s: DiskState, p: Path, table: seq<Replacement>): (r: (DiskState, bool))
    ensures p !in s.contents ==> r == (s, false)
    ensures p in s.contents ==>
      r.0.contents == s.contents[p := ApplyTable(s.contents[p], table)] && (r.1 <==> AnyChange(s.contents[p], table))
    ensures |r.0.writes| >= |s.writes| && r.0.writes[..|s.writes|] == s.writes
    ensures forall i :: |s.writes| <= i < |r.0.writes| ==> r.0.writes[i] == p
    ensures |r.0.writes| > |s.writes| <==> r.1
    decreases |table|
  {
    if table == [] then (s, false)
    else
      var prev := ReplaceEach(s, p, table[..|table| - 1]);
      var last := ReplaceInFile(prev.0, p, table[|table| - 1]);
      assert last.0.writes[..|prev.0.writes|] == prev.0.writes;
      assert prev.0.writes[..|s.writes|] == s.writes;
      (last.0, last.1 || prev.1)
  }

  /** The buffered rewrite: the table applied in memory, and one write when
      some entry changed the buffer; a read that throws skips the file. */
  function RewriteFile(s: DiskState, p: Path, table: seq<Replacement>): (r: DiskState)
    ensures r.contents == if p in s.contents then s.contents[p := ApplyTable(s.contents[p], table)] else s.contents
    ensures r.writes == s.writes + if p in s.contents && AnyChange(s.contents[p], table) then [p] else []
  {
    if p !in s.contents then s
    else
      var c := s.contents[p];
      NoChangeKeeps(c, table);
      if AnyChange(c, table) then Write(s, p, ApplyTable(c, table))
      else
        assert s.contents[p := c] == s.contents;
        s
  }

  /** How a script rewrites each text file. */
  datatype Style = PerStep | Buffered

  function FileStep(s: DiskState, p: Path, style: Style, table: seq<Replacement>): DiskState {
    match style
    case PerStep => ReplaceEach(s, p, table).0
    case Buffered => RewriteFile(s, p, table)
  }

  /** Both styles leave the same contents; they differ only in how often the
      file is written. */
  lemma StylesAgree(s: DiskState, p: Path, table: seq<Replacement>)
    ensures FileStep(s, p, PerStep, table).contents == FileStep(s, p, Buffered, table).contents
    ensures |FileStep(s, p, Buffered, table).writes| <= |FileStep(s, p, PerStep, table).writes|
  {
  }

  /** The files a walk reached, rewritten one after another. */
  function FixFiles(s: DiskState, files: seq<Path>, style: Style, table: seq<Replacement>): (r: DiskState)
    ensures |r.writes| >= |s.writes| && r.writes[..|s.writes|] == s.writes
    ensures forall i :: |s.writes| <= i < |r.writes| ==> r.writes[i] in files
    ensures forall q :: q !in files ==> (q in r.contents <==> q in s.contents)
    ensures forall q :: q !in files && q in s.contents ==> r.contents[q] == s.contents[q]
    decreases |files|
  {
    if files == [] then s
    else
      var n := |files| - 1;
      var prev := FixFiles(s, files[..n], style, table);
      var r := FileStep(prev, files[n], style, table);
      assert r.writes[..|prev.writes|] == prev.writes;
      assert prev.writes[..|s.writes|] == s.writes;
      assert forall i :: |s.writes| <= i < |prev.writes| ==> r.writes[i] == prev.writes[i];
      assert forall q :: q in files[..n] ==> q in files;
      r
  }

  lemma FixFilesSnoc(s: DiskState, files: seq<Path>, i: nat, style: Style, table: seq<Replacement>)
    requires i < |files|
    ensures FixFiles(s, files[..i + 1], style, table) == FileStep(FixFiles(s, files[..i], style, table), files[i], style, table)
  {
    assert files[..i + 1][..i] == files[..i];
  }

  /** A file the walk reached once ends up holding the table applied to
      what it held, whatever was done to the other files. */
  lemma {:induction false} FixFilesApply(s: DiskState, files: seq<Path>, style: Style, table: seq<Replacement>, p: Path)
    requires forall i, j :: 0 <= i < j < |files| ==> files[i] != files[j]
    requires p in files && p in s.contents
    ensures p in FixFiles(s, files, style, table).contents
    ensures FixFiles(s, files, style, table).contents[p] == ApplyTable(s.contents[p], table)
    decreases |files|
  {
    var n := |files| - 1;
    var prev := FixFiles(s, files[..n], style, table);
    assert FixFiles(s, files, style, table) == FileStep(prev, files[n], style, table);
    DistinctInit(files);
    if p == files[n] {
      FileStepContents(prev, p, style, table);
    } else {
      assert p in files[..n];
      FixFilesApply(s, files[..n], style, table, p);
      FileStepContents(prev, files[n], style, table);
    }
  }

  /** Without repeats, the last path is not among the others, which have no
      repeats either. */
  lemma DistinctInit(files: seq<Path>)
    requires |files| > 0 && forall i, j :: 0 <= i < j < |files| ==> files[i] != files[j]
    ensures files[|files| - 1] !in files[..|files| - 1]
    ensures var init := files[..|files| - 1]; forall i, j :: 0 <= i < j < |init| ==> init[i] != init[j]
  {
  }

  /** Either style replaces the file's contents by the table's result and
      touches no other file. */
  lemma FileStepContents(s: DiskState, p: Path, style: Style, table: seq<Replacement>)
    ensures p in s.contents ==> FileStep(s, p, style, table).contents == s.contents[p := ApplyTable(s.contents[p], table)]
    ensures p !in s.contents ==> FileStep(s, p, style, table).contents == s.contents
  {
  }

  /** One `fixAllFiles` / `fixNextJsApp` call on directory `dir`: every text
      file the walk reaches is rewritten; a listing that throws (the
      directory itself included) makes the call reject, after the files
      reached so far were rewritten. */
  function FixTree(s: DiskState, tree: seq<Node>, dir: Path, style: Style, table: seq<Replacement>): (DiskState, bool) {
    match ListDir(tree, dir)
    case None => (s, false)
    case Some(es) =>
      var v := TextFiles(dir, es);
      (FixFiles(s, v.files, style, table), v.complete)
  }

  /** Soundness of the walk the scripts share: every file written lies below
      `dir`, is reached through directories only, and is a text file. */
  lemma FixTreeWritesTextFiles(s: DiskState, tree: seq<Node>, dir: Path, style: Style, table: seq<Replacement>)
    ensures var r := FixTree(s, tree, dir, style, table).0;
      forall i :: |s.writes| <= i < |r.writes| ==>
        var w := r.writes[i];
        |w| > |dir| && w[..|dir|] == dir && ListDir(tree, dir).Some?
        && exists e :: Under(ListDir(tree, dir).value, w[|dir|..], e, AllDirs) && IsTextFile(e)
  {
    match ListDir(tree, dir)
    case None =>
    case Some(es) =>
      WalkEntriesSound(dir, es, AllDirs, IsTextFile);
  }

  /** The buffered per-file rewrite of `fixNextJsApp`: read (a read that
      throws is logged and the file skipped), run the table over the
      buffer raising `modified` on every change, and write only if
      modified. */
  method RewriteFileOn(disk: Disk, p: Path, table: seq<Replacement>)
    modifies disk
    ensures disk.state == RewriteFile(old(disk.state), p, table)
  {
    var read := disk.ReadFile(p);
    if read.None? {
      return;
    }
    var content := read.value;
    var modified := false;
    for i := 0 to |table|
      invariant content == ApplyTable(read.value, table[..i])
      invariant modified == AnyChange(read.value, table[..i])
      invariant disk.state == old(disk.state)
    {
      ApplyTableSnoc(read.value, table, i);
      var newContent := Text.ReplaceAll(content, table[i].search, table[i].replace);
      if newContent != content {
        content := newContent;
        modified := true;
      }
    }
    assert table[..|table|] == table;
    assert p in old(disk.state).contents && read.value == old(disk.state).contents[p];
    if modified {
      assert RewriteFile(old(disk.state), p, table) == Write(old(disk.state), p, content);
      disk.WriteFile(p, content);
    } else {
      assert RewriteFile(old(disk.state), p, table) == old(disk.state);
    }
  }

  /** `replaceInFile(filePath, searchStr, replaceStr)` on the disk. */
  method ReplaceInFileOn(disk: Disk, p: Path, search: string, replace: string) returns (changed: bool)
    modifies disk
    ensures (disk.state, changed) == ReplaceInFile(old(disk.state), p, Replacement(search, replace))
  {
    var read := disk.ReadFile(p);
    if read.None? {
      return false;
    }
    var newContent := Text.ReplaceAll(read.value, search, replace);
    if read.value != newContent {
      disk.WriteFile(p, newContent);
      return true;
    }
    return false;
  }

  /** After one more `replaceInFile` call, the run covers one more entry. */
  lemma ReplaceEachSnoc(s: DiskState, p: Path, table: seq<Replacement>, i: nat)
    requires i < |table|
    ensures var prev := ReplaceEach(s, p, table[..i]);
      var last := ReplaceInFile(prev.0, p, table[i]);
      ReplaceEach(s, p, table[..i + 1]) == (last.0, last.1 || prev.1)
  {
    assert table[..i + 1][..i] == table[..i];
  }


  /** The `replaceInFile` calls of one file, one per entry in order, with
      `modified = replaceInFile(...) || modified`. */
  method ReplaceEachOn(disk: Disk, p: Path, table: seq<Replacement>) returns (modified: bool)
    modifies disk
    ensures (disk.state, modified) == ReplaceEach(old(disk.state), p, table)
  {
    modified := false;
    for i := 0 to |table|
      invariant (disk.state, modified) == ReplaceEach(old(disk.state), p, table[..i])
    {
      ReplaceEachSnoc(old(disk.state), p, table, i);
      var changed := ReplaceInFileOn(disk, p, table[i].search, table[i].replace);
      modified := changed || modified;
    }
    assert table[..|table|] == table;
  }

  method FileStepOn(disk: Disk, p: Path, style: Style, table: seq<Replacement>)
    modifies disk
    ensures disk.state == FileStep(old(disk.state), p, style, table)
  {
    match style
    case PerStep =>
      var _ := ReplaceEachOn(disk, p, table);
    case Buffered =>
      RewriteFileOn(disk, p, table);
  }

  /** `fixAllFiles` / `fixNextJsApp` on directory `dir`: walk every
      directory and rewrite each text file in the script's style. */
  method FixApp(disk: Disk, tree: seq<Node>, dir: Path, style: Style, table: seq<Replacement>) returns (ok: bool)
    modifies disk
    ensures (disk.state, ok) == FixTree(old(disk.state), tree, dir, style, table)
  {
    var listing := ListDir(tree, dir);
    if listing.None? {
      return false;
    }
    var files, complete := Collect(dir, listing.value, AllDirs, IsTextFile);
    for i := 0 to |files|
      invariant disk.state == FixFiles(old(disk.state), files[..i], style, table)
    {
      FixFilesSnoc(old(disk.state), files, i, style, table);
      FileStepOn(disk, files[i], style, table);
    }
    assert files[..|files|] == files;
    return complete;
  }

  // ---------------------------------------------------------------------
  // A script's `main`: one directory after another

  /** One awaited call of `main`: a directory and the table for its app. */
  datatype Job = Job(dir: Path, table: seq<Replacement>)

  /** The calls of `main` in order; the first that rejects ends `main`
      (the script then exits with status 1) and the later ones never run. */
  function RunJobs(s: DiskState, tree: seq<Node>, jobs: seq<Job>, style: Style): (DiskState, bool)
    decreases |jobs|
  {
    if jobs == [] then (s, true)
    else
      var prev := RunJobs(s, tree, jobs[..|jobs| - 1], style);
      if !prev.1 then prev
      else FixTree(prev.0, tree, jobs[|jobs| - 1].dir, style, jobs[|jobs| - 1].table)
  }

  /** Once a call rejects, nothing after it changes the disk. */
  lemma {:induction false} RunJobsStops(s: DiskState, tree: seq<Node>, jobs: seq<Job>, style: Style, i: nat)
    requires i < |jobs| && !RunJobs(s, tree, jobs[..i + 1], style).1
    ensures RunJobs(s, tree, jobs, style) == RunJobs(s, tree, jobs[..i + 1], style)
    decreases |jobs|
  {
    if |jobs| == i + 1 {
      assert jobs[..i + 1] == jobs;
    } else {
      var n := |jobs| - 1;
      assert jobs[..n][..i + 1] == jobs[..i + 1];
      RunJobsStops(s, tree, jobs[..n], style, i);
    }
  }

  /** Call `i` of `main`, made on the disk the calls before it left,
      reaches the end of its walk. */
  predicate CallCompletes(s: DiskState, tree: seq<Node>, jobs: seq<Job>, style: Style, i: nat)
    requires i < |jobs|
  {
    FixTree(RunJobs(s, tree, jobs[..i], style).0, tree, jobs[i].dir, style, jobs[i].table).1
  }

  /** `main` succeeds exactly when every call reaches the end of its walk. */
  lemma {:induction false} RunJobsSucceeds(s: DiskState, tree: seq<Node>, jobs: seq<Job>, style: Style)
    ensures RunJobs(s, tree, jobs, style).1 <==> forall i :: 0 <= i < |jobs| ==> CallCompletes(s, tree, jobs, style, i)
    decreases |jobs|
  {
    if jobs != [] {
      var n := |jobs| - 1;
      var init := jobs[..n];
      RunJobsSucceeds(s, tree, init, style);
      forall i | 0 <= i < n
        ensures CallCompletes(s, tree, init, style, i) == CallCompletes(s, tree, jobs, style, i)
      {
        assert init[..i] == jobs[..i] && init[i] == jobs[i];
      }
      if !RunJobs(s, tree, init, style).1 {
        var k :| 0 <= k < n && !CallCompletes(s, tree, init, style, k);
        assert !CallCompletes(s, tree, jobs, style, k);
      } else {
        assert RunJobs(s, tree, jobs, style).1 == CallCompletes(s, tree, jobs, style, n);
      }
    }
  }

  /** `main` of a table script on the disk. */
  method RunJobsOn(disk: Disk, tree: seq<Node>, jobs: seq<Job>, style: Style) returns (ok: bool)
    modifies disk
    ensures (disk.state, ok) == RunJobs(old(disk.state), tree, jobs, style)
  {
    ok := true;
    for i := 0 to |jobs|
      invariant (disk.state, true) == RunJobs(old(disk.state), tree, jobs[..i], style)
    {
      assert jobs[..i + 1][..i] == jobs[..i];
      ghost var before := disk.state;
      ok := FixApp(disk, tree, jobs[i].dir, style, jobs[i].table);
      assert RunJobs(old(disk.state), tree, jobs[..i + 1], style) == FixTree(before, tree, jobs[i].dir, style, jobs[i].table);
      if !ok {
        RunJobsStops(old(disk.state), tree, jobs, style, i);
        return;
      }
    }
    assert jobs[..|jobs|] == jobs;
  }

  // ---------------------------------------------------------------------
  // The `/gpt-5/<app>/` layout of the two exported apps

  /** An app directory name as the tables expect it: no quote and no `/`,
      and not one of the two names the table itself writes. */
  predicate AppName(app: string) {
    |app| > 0 && '/' !in app && '"' !in app && '\'' !in app && '`' !in app
    && app != "gpt-5" && app != "_next"
  }

  /** The two apps the scripts are run on have such names. */
  lemma ScriptAppNames()
    ensures AppName("asteroid-game") && AppName("espresso")
  {
  }

  lemma QuoteFreeApp(pre: string, app: string, post: string)
    requires '"' !in app && '\'' !in app && '`' !in app
    requires forall i :: 0 < i < |pre| ==> !IsQuote(pre[i])
    requires forall i :: 0 <= i < |post| ==> !IsQuote(post[i])
    ensures forall i :: 0 < i < |pre + app + post| ==> !IsQuote((pre + app + post)[i])
  {
    var x := pre + app + post;
    forall i | 0 < i < |x| ensures !IsQuote(x[i]) {
      if |pre| <= i < |pre| + |app| {
        assert x[i] == app[i - |pre|];
      }
    }
  }

  /** After the prefix is in place, neither the general `"/<app>/` entry
      nor the `"/gpt-5/_next/` entry can match again. */
  lemma NoSecondPrefix(app: string, t: string)
    requires AppName(app)
    ensures !Text.StartsWith("\"/gpt-5/" + app + "/_next/" + t, "\"/" + app + "/")
    ensures !Text.StartsWith("\"/gpt-5/" + app + "/_next/" + t, "\"/gpt-5/_next/")
  {
    var d := "\"/gpt-5/" + app + "/_next/" + t;
    assert d == "\"/" + "gpt-5" + "/" + (app + "/_next/" + t);
    NamesDiffer("\"/", "gpt-5", app, app + "/_next/" + t);
    assert d == "\"/gpt-5/" + app + "/" + ("_next/" + t);
    assert "\"/gpt-5/_next/" == "\"/gpt-5/" + "_next" + "/";
    NamesDiffer("\"/gpt-5/", app, "_next", "_next/" + t);
  }

  /** A bare `"/gpt-5/_next/` is not taken for a reference to the app. */
  lemma BareNotApp(app: string, t: string)
    requires AppName(app)
    ensures !Text.StartsWith("\"/gpt-5/_next/" + t, "\"/" + app + "/")
    ensures !Text.StartsWith("\"/gpt-5/_next/" + t, "\"/" + app + "/_next/")
  {
    var c := "\"/gpt-5/_next/" + t;
    assert c == "\"/" + "gpt-5" + "/" + ("_next/" + t);
    NamesDiffer("\"/", "gpt-5", app, "_next/" + t);
    assert "\"/" + app + "/_next/" == ("\"/" + app + "/") + "_next/";
    NotStartsWithLonger(c, "\"/" + app + "/", "_next/");
  }

  lemma BareSingleNotApp(app: string, t: string)
    requires AppName(app)
    ensures !Text.StartsWith("'/gpt-5/_next/" + t, "'/" + app + "/")
    ensures !Text.StartsWith("'/gpt-5/_next/" + t, "'/" + app + "/_next/")
  {
    var c := "'/gpt-5/_next/" + t;
    assert c == "'/" + "gpt-5" + "/" + ("_next/" + t);
    NamesDiffer("'/", "gpt-5", app, "_next/" + t);
    assert "'/" + app + "/_next/" == ("'/" + app + "/") + "_next/";
    NotStartsWithLonger(c, "'/" + app + "/", "_next/");
  }

  lemma NoSecondPrefixSingle(app: string, t: string)
    requires AppName(app)
    ensures !Text.StartsWith("'/gpt-5/" + app + "/_next/" + t, "'/" + app + "/")
    ensures !Text.StartsWith("'/gpt-5/" + app + "/_next/" + t, "'/" + app + "/_next/")
    ensures !Text.StartsWith("'/gpt-5/" + app + "/_next/" + t, "'/gpt-5/_next/")
  {
    var d := "'/gpt-5/" + app + "/_next/" + t;
    assert d == "'/" + "gpt-5" + "/" + (app + "/_next/" + t);
    NamesDiffer("'/", "gpt-5", app, app + "/_next/" + t);
    assert "'/" + app + "/_next/" == ("'/" + app + "/") + "_next/";
    NotStartsWithLonger(d, "'/" + app + "/", "_next/");
    assert d == "'/gpt-5/" + app + "/" + ("_next/" + t);
    assert "'/gpt-5/_next/" == "'/gpt-5/" + "_next" + "/";
    NamesDiffer("'/gpt-5/", app, "_next", "_next/" + t);
  }

  lemma BareBackNotApp(app: string, t: string)
    requires AppName(app)
    ensures !Text.StartsWith("`/gpt-5/_next/" + t, "`/" + app + "/")
    ensures !Text.StartsWith("`/gpt-5/_next/" + t, "`/" + app + "/_next/")
  {
    var c := "`/gpt-5/_next/" + t;
    assert c == "`/" + "gpt-5" + "/" + ("_next/" + t);
    NamesDiffer("`/", "gpt-5", app, "_next/" + t);
    assert "`/" + app + "/_next/" == ("`/" + app + "/") + "_next/";
    NotStartsWithLonger(c, "`/" + app + "/", "_next/");
  }

  lemma NoSecondPrefixBack(app: string, t: string)
    requires AppName(app)
    ensures !Text.StartsWith("`/gpt-5/" + app + "/_next/" + t, "`/" + app + "/")
    ensures !Text.StartsWith("`/gpt-5/" + app + "/_next/" + t, "`/" + app + "/_next/")
    ensures !Text.StartsWith("`/gpt-5/" + app + "/_next/" + t, "`/gpt-5/_next/")
  {
    var d := "`/gpt-5/" + app + "/_next/" + t;
    assert d == "`/" + "gpt-5" + "/" + (app + "/_next/" + t);
    NamesDiffer("`/", "gpt-5", app, app + "/_next/" + t);
    assert "`/" + app + "/_next/" == ("`/" + app + "/") + "_next/";
    NotStartsWithLonger(d, "`/" + app + "/", "_next/");
    assert d == "`/gpt-5/" + app + "/" + ("_next/" + t);
    assert "`/gpt-5/_next/" == "`/gpt-5/" + "_next" + "/";
    NamesDiffer("`/gpt-5/", app, "_next", "_next/" + t);
  }

  /** A common prefix does not help a text start with what it does not. */
  lemma PrefixCancel(w: string, t: string, q: string)
    requires !Text.StartsWith(t, q)
    ensures !Text.StartsWith(w + t, w + q)
  {
    if |q| <= |t| {
      assert (w + t)[..|w + q|] == w + t[..|q|];
      assert (w + t[..|q|])[|w|..] == t[..|q|];
    }
  }

  /** An absolute favicon reference is not a reference to the app. */
  lemma FaviconNotApp(app: string, t: string)
    requires AppName(app)
    ensures !Text.StartsWith("\"/favicon.ico\"" + t, "\"/" + app + "/")
  {
    var f := "\"/favicon.ico\"";
    var s, p := f + t, "\"/" + app + "/";
    if |app| <= 11 {
      var k := 2 + |app|;
      assert f[k] == f[2..][k - 2] && '/' !in f[2..];
      MismatchAt(s, p, k);
    } else {
      assert app[11] in app;
      MismatchAt(s, p, 13);
    }
  }

  lemma FaviconSingleNotApp(app: string, t: string)
    requires AppName(app)
    ensures !Text.StartsWith("'/favicon.ico'" + t, "'/" + app + "/")
  {
    var f := "'/favicon.ico'";
    var s, p := f + t, "'/" + app + "/";
    if |app| <= 11 {
      var k := 2 + |app|;
      assert f[k] == f[2..][k - 2] && '/' !in f[2..];
      MismatchAt(s, p, k);
    } else {
      assert app[11] in app;
      MismatchAt(s, p, 13);
    }
  }
}
