/** The part of the file system the build scripts and loaders look at: a tree
    of directory entries in listing order (what `readdir` with file types
    returns), and the contents of the files, which the scripts rewrite. */
module Fs {
  import opened Wrappers

  /** A path as its components below the directory a script starts from. */
  type Path = seq<string>

  /** One directory entry. `LockedDir` is a directory whose listing fails
      (`readdir` throws); `Other` is neither a directory nor a regular file
      (a symbolic link, a socket, ...). */
  datatype Node =
    | Dir(name: string, children: seq<Node>)
    | LockedDir(name: string)
    | File(name: string)
    | Other(name: string)
  {
    predicate IsDirectory() { Dir? || LockedDir? }
  }

  /** The first entry called `name`, as a path lookup sees it. */
  function Entry(entries: seq<Node>, name: string): (r: Option<Node>)
    ensures r.Some? ==> r.value in entries && r.value.name == name
    ensures r.None? ==> forall e :: e in entries ==> e.name != name
  {
    if entries == [] then None
    else if entries[0].name == name then Some(entries[0])
    else Entry(entries[1..], name)
  }

  /** The node at `path` below a directory with these entries. */
  function Find(entries: seq<Node>, path: Path): Option<Node>
    decreases |path|
  {
    if path == [] then None
    else match Entry(entries, path[0])
      case None => None
      case Some(n) =>
        if |path| == 1 then Some(n)
        else if n.Dir? then Find(n.children, path[1..])
        else None
  }

  /** What `readdir(path)` returns: nothing when it throws. The empty path is
      the starting directory itself. */
  function ListDir(entries: seq<Node>, path: Path): Option<seq<Node>> {
    if path == [] then Some(entries)
    else match Find(entries, path)
      case Some(Dir(_, cs)) => Some(cs)
      case _ => None
  }

  /** `existsSync` / `access`: anything at all is at `path`. */
  predicate Exists(entries: seq<Node>, path: Path) {
    path == [] || Find(entries, path).Some?
  }

  /** The names of the directories in a listing, in order
      (`entries.filter((e) => e.isDirectory()).map((e) => e.name)`). */
  function DirNames(es: seq<Node>): (names: seq<string>)
    ensures forall n :: n in names <==> exists e :: e in es && e.IsDirectory() && e.name == n
    ensures |names| <= |es|
    decreases |es|
  {
    if es == [] then []
    else
      var n := |es| - 1;
      assert forall e :: e in es <==> e in es[..n] || e == es[n];
      DirNames(es[..n]) + (if es[n].IsDirectory() then [es[n].name] else [])
  }

  /** Where the exported apps live: one directory per model below it. */
  const AppsDir: Path := ["public", "apps"]

  /** File contents (a path is missing from `contents` when reading it fails)
      together with the log of every `writeFile`, in order. */
  datatype DiskState = DiskState(contents: map<Path, string>, writes: seq<Path>)

  function Write(d: DiskState, p: Path, c: string): (r: DiskState)
    ensures r.contents == d.contents[p := c] && r.writes == d.writes + [p]
  {
    DiskState(d.contents[p := c], d.writes + [p])
  }

  /** The disk the scripts read and write in place. */
  class Disk {
    var state: DiskState

    constructor (s: DiskState)
      ensures state == s
    {
      state := s;
    }

    /** `readFile`: the contents, or nothing when it throws. */
    method ReadFile(p: Path) returns (r: Option<string>)
      ensures r == if p in state.contents then Some(state.contents[p]) else None
    {
      r := if p in state.contents then Some(state.contents[p]) else None;
    }

    method WriteFile(p: Path, c: string)
      modifies this
      ensures state == Write(old(state), p, c)
    {
      state := Write(state, p, c);
    }
  }

  // ---------------------------------------------------------------------
  // Recursive walks

  /** The files a walk reaches, in the order it reaches them, and whether it
      got to the end (a listing that throws stops the whole walk). */
  datatype Visit = Visit(files: seq<Path>, complete: bool)

  /** A walk that enters every directory whose name `descend` allows and
      reports every other entry that `accept` allows. */
  function WalkEntries(dir: Path, es: seq<Node>, descend: string -> bool, accept: Node -> bool): Visit
    decreases es
  {
    if es == [] then Visit([], true)
    else
      var first := WalkEntry(dir, es[0], descend, accept);
      if !first.complete then first
      else
        var rest := WalkEntries(dir, es[1..], descend, accept);
        Visit(first.files + rest.files, rest.complete)
  }

  function WalkEntry(dir: Path, e: Node, descend: string -> bool, accept: Node -> bool): Visit
    decreases e
  {
    match e
    case Dir(n, cs) => if descend(n) then WalkEntries(dir + [n], cs, descend, accept) else Visit([], true)
    case LockedDir(n) => if descend(n) then Visit([], false) else Visit([], true)
    case _ => if accept(e) then Visit([dir + [e.name]], true) else Visit([], true)
  }

  /** Walking `a + b` is walking `a`, then (if it did not stop) walking `b`. */
  lemma {:induction false} WalkEntriesAppend(dir: Path, a: seq<Node>, b: seq<Node>, descend: string -> bool, accept: Node -> bool)
    ensures WalkEntries(dir, a + b, descend, accept) ==
      var va := WalkEntries(dir, a, descend, accept);
      if !va.complete then va
      else
        var vb := WalkEntries(dir, b, descend, accept);
        Visit(va.files + vb.files, vb.complete)
    decreases |a|
  {
    if a == [] {
      assert a + b == b;
    } else {
      assert (a + b)[0] == a[0];
      assert (a + b)[1..] == a[1..] + b;
      WalkEntriesAppend(dir, a[1..], b, descend, accept);
    }
  }

  lemma WalkEntriesSnoc(dir: Path, es: seq<Node>, i: nat, descend: string -> bool, accept: Node -> bool)
    requires i < |es|
    ensures WalkEntries(dir, es[..i + 1], descend, accept) ==
      var va := WalkEntries(dir, es[..i], descend, accept);
      if !va.complete then va
      else
        var vb := WalkEntry(dir, es[i], descend, accept);
        Visit(va.files + vb.files, vb.complete)
  {
    assert es[..i + 1] == es[..i] + [es[i]];
    WalkEntriesAppend(dir, es[..i], [es[i]], descend, accept);
    assert [es[i]][1..] == [];
    assert WalkEntries(dir, [es[i]], descend, accept) == WalkEntry(dir, es[i], descend, accept) by {
      var v := WalkEntry(dir, es[i], descend, accept);
      assert v.files + [] == v.files;
    }
  }

  /** A walk that stops early: its files are those gathered so far. */
  lemma WalkEntriesStops(dir: Path, es: seq<Node>, i: nat, descend: string -> bool, accept: Node -> bool)
    requires i <= |es| && !WalkEntries(dir, es[..i], descend, accept).complete
    ensures WalkEntries(dir, es, descend, accept) == WalkEntries(dir, es[..i], descend, accept)
  {
    assert es == es[..i] + es[i..];
    WalkEntriesAppend(dir, es[..i], es[i..], descend, accept);
  }

  /** Every file a walk reports lies below the directory it started from. */
  lemma {:induction false} WalkEntriesBelow(dir: Path, es: seq<Node>, descend: string -> bool, accept: Node -> bool)
    ensures forall p :: p in WalkEntries(dir, es, descend, accept).files ==> |p| > |dir| && p[..|dir|] == dir
    decreases es
  {
    if es != [] {
      WalkEntryBelow(dir, es[0], descend, accept);
      WalkEntriesBelow(dir, es[1..], descend, accept);
    }
  }

  lemma {:induction false} WalkEntryBelow(dir: Path, e: Node, descend: string -> bool, accept: Node -> bool)
    ensures forall p :: p in WalkEntry(dir, e, descend, accept).files ==> |p| > |dir| && p[..|dir|] == dir
    decreases e
  {
    match e
    case Dir(n, cs) =>
      if descend(n) {
        WalkEntriesBelow(dir + [n], cs, descend, accept);
        forall p | p in WalkEntries(dir + [n], cs, descend, accept).files
          ensures |p| > |dir| && p[..|dir|] == dir
        {
          assert p[..|dir|] == p[..|dir + [n]|][..|dir|];
        }
      }
    case LockedDir(_) =>
    case File(_) =>
    case Other(_) =>
  }

  /** `e` is reached by following `q` from a directory with entries `es`,
      and every directory on the way is one that `descend` enters. */
  predicate Under(es: seq<Node>, q: Path, e: Node, descend: string -> bool)
    decreases es, 1
  {
    exists i :: 0 <= i < |es| && UnderNode(es[i], q, e, descend)
  }

  predicate UnderNode(n: Node, q: Path, e: Node, descend: string -> bool)
    decreases n, 0
  {
    |q| > 0 && q[0] == n.name
    && ((|q| == 1 && n == e)
        || (|q| > 1 && n.Dir? && descend(n.name) && Under(n.children, q[1..], e, descend)))
  }

  /** Soundness of a walk: every reported path leads, through entered
      directories only, to an accepted entry that is not a directory. */
  lemma {:induction false} WalkEntriesSound(dir: Path, es: seq<Node>, descend: string -> bool, accept: Node -> bool)
    ensures forall p :: p in WalkEntries(dir, es, descend, accept).files ==>
      |p| > |dir| && p[..|dir|] == dir
      && exists e :: Under(es, p[|dir|..], e, descend) && accept(e) && !e.IsDirectory()
    decreases es
  {
    WalkEntriesBelow(dir, es, descend, accept);
    if es != [] {
      WalkEntrySound(dir, es[0], descend, accept);
      WalkEntriesSound(dir, es[1..], descend, accept);
      forall p | p in WalkEntries(dir, es, descend, accept).files
        ensures exists e :: Under(es, p[|dir|..], e, descend) && accept(e) && !e.IsDirectory()
      {
        if p in WalkEntry(dir, es[0], descend, accept).files {
          var e :| UnderNode(es[0], p[|dir|..], e, descend) && accept(e) && !e.IsDirectory();
          assert Under(es, p[|dir|..], e, descend);
        } else {
          var e :| Under(es[1..], p[|dir|..], e, descend) && accept(e) && !e.IsDirectory();
          var i :| 0 <= i < |es[1..]| && UnderNode(es[1..][i], p[|dir|..], e, descend);
          assert es[i + 1] == es[1..][i];
          assert Under(es, p[|dir|..], e, descend);
        }
      }
    }
  }

  lemma {:induction false} WalkEntrySound(dir: Path, n: Node, descend: string -> bool, accept: Node -> bool)
    ensures forall p :: p in WalkEntry(dir, n, descend, accept).files ==>
      |p| > |dir| && p[..|dir|] == dir
      && exists e :: UnderNode(n, p[|dir|..], e, descend) && accept(e) && !e.IsDirectory()
    decreases n
  {
    WalkEntryBelow(dir, n, descend, accept);
    match n
    case Dir(name, cs) =>
      if descend(name) {
        var d := dir + [name];
        WalkEntriesSound(d, cs, descend, accept);
        forall p | p in WalkEntry(dir, n, descend, accept).files
          ensures exists e :: UnderNode(n, p[|dir|..], e, descend) && accept(e) && !e.IsDirectory()
        {
          var e :| Under(cs, p[|d|..], e, descend) && accept(e) && !e.IsDirectory();
          var q := p[|dir|..];
          assert p[..|d|] == d;
          assert q[0] == p[|dir|] == name;
          assert q[1..] == p[|d|..];
          assert UnderNode(n, q, e, descend);
        }
      }
    case LockedDir(_) =>
    case File(name) =>
      assert (dir + [name])[|dir|..] == [name];
    case Other(name) =>
      assert (dir + [name])[|dir|..] == [name];
  }

  /** Completeness of a walk that got to the end: every accepted entry that
      is not a directory, reached through entered directories only, is
      reported. */
  lemma {:induction false} WalkEntriesComplete(dir: Path, es: seq<Node>, q: Path, e: Node, descend: string -> bool, accept: Node -> bool)
    requires Under(es, q, e, descend) && accept(e) && !e.IsDirectory()
    requires WalkEntries(dir, es, descend, accept).complete
    ensures dir + q in WalkEntries(dir, es, descend, accept).files
    decreases es
  {
    var i :| 0 <= i < |es| && UnderNode(es[i], q, e, descend);
    var pre := es[..i];
    var post := es[i + 1..];
    assert es == pre + ([es[i]] + post);
    WalkEntriesAppend(dir, pre, [es[i]] + post, descend, accept);
    WalkEntriesAppend(dir, [es[i]], post, descend, accept);
    assert [es[i]][1..] == [];
    var v := WalkEntry(dir, es[i], descend, accept);
    assert WalkEntries(dir, [es[i]], descend, accept) == Visit(v.files + [], v.complete);
    assert v.files + [] == v.files;
    WalkEntryComplete(dir, es[i], q, e, descend, accept);
  }

  lemma {:induction false} WalkEntryComplete(dir: Path, n: Node, q: Path, e: Node, descend: string -> bool, accept: Node -> bool)
    requires UnderNode(n, q, e, descend) && accept(e) && !e.IsDirectory()
    requires WalkEntry(dir, n, descend, accept).complete
    ensures dir + q in WalkEntry(dir, n, descend, accept).files
    decreases n
  {
    if |q| == 1 {
      assert q == [e.name];
      match e
      case File(_) =>
      case Other(_) =>
    } else {
      var d := dir + [n.name];
      WalkEntriesComplete(d, n.children, q[1..], e, descend, accept);
      assert q == [n.name] + q[1..];
      assert d + q[1..] == dir + q;
    }
  }

  /** A recursive `walkDir` that gathers the paths it would process: every
      directory `descend` allows is entered, every other entry `accept`
      allows is reported, and a listing that throws stops the walk with
      `ok` false. */
  method Collect(dir: Path, es: seq<Node>, descend: string -> bool, accept: Node -> bool) returns (files: seq<Path>, ok: bool)
    ensures Visit(files, ok) == WalkEntries(dir, es, descend, accept)
    decreases es
  {
    files := [];
    var i := 0;
    while i < |es|
      invariant 0 <= i <= |es|
      invariant WalkEntries(dir, es[..i], descend, accept) == Visit(files, true)
    {
      var e := es[i];
      WalkEntriesSnoc(dir, es, i, descend, accept);
      match e {
        case Dir(name, cs) =>
          if descend(name) {
            var more, done := Collect(dir + [name], cs, descend, accept);
            files := files + more;
            if !done {
              WalkEntriesStops(dir, es, i + 1, descend, accept);
              return files, false;
            }
          }
        case LockedDir(name) =>
          if descend(name) {
            WalkEntriesStops(dir, es, i + 1, descend, accept);
            return files, false;
          }
        case File(name) =>
          if accept(e) {
            files := files + [dir + [name]];
          }
        case Other(name) =>
          if accept(e) {
            files := files + [dir + [name]];
          }
      }
      i := i + 1;
    }
    assert es[..i] == es;
    return files, true;
  }
}
