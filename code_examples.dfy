/** The example catalogue: each YAML file found by the walk is parsed,
    normalised into a code example, dropped when it lacks a title or a
    prompt, and the survivors are sorted by title. */
module CodeExamples {
  import opened Wrappers
  import opened Fs
  import Text
  import LoadYaml

  /** A value as the YAML parser produces it, or `Missing` for an absent key.
      Numbers are integers here; only whether they are zero matters. */
  datatype Value =
    | Missing
    | Null
    | Bool(b: bool)
    | Num(n: int)
    | Str(s: string)
    | List(items: seq<Value>)
    | Object

  /** JavaScript falsiness. */
  predicate Falsy(v: Value) {
    v.Missing? || v.Null? || v == Bool(false) || v == Num(0) || v == Str("")
  }

  /** The fields of a parsed YAML document that the loader reads. */
  datatype Record = Record(
    id: Value, title: Value, name: Value, prompt: Value,
    tags: Value, camera: Value, microphone: Value)

  datatype CodeExample = CodeExample(
    id: string, title: string, prompt: string, poster: string, iframeUrl: string,
    tags: seq<string>, camera: Option<bool>, microphone: Option<bool>)

  const CdnBaseUrl := "https://cdn.openai.com/devhub/gpt5prompts"
  const IframeBaseUrl := "/"

  /** The strings of a list, in order. */
  function Strings(items: seq<Value>): (r: seq<string>)
    ensures |r| <= |items|
    ensures forall x :: x in r <==> Str(x) in items
  {
    if items == [] then []
    else (if items[0].Str? then [items[0].s] else []) + Strings(items[1..])
  }

  lemma {:induction false} StringsAppend(a: seq<Value>, b: seq<Value>)
    ensures Strings(a + b) == Strings(a) + Strings(b)
    decreases |a|
  {
    if a == [] {
      assert a + b == b;
    } else {
      assert (a + b)[0] == a[0];
      assert (a + b)[1..] == a[1..] + b;
      StringsAppend(a[1..], b);
    }
  }

  /** Filtering keeps every string of an all-string list. */
  lemma {:induction false} StringsOfStrings(xs: seq<string>)
    ensures Strings(seq(|xs|, i requires 0 <= i < |xs| => Str(xs[i]))) == xs
    decreases |xs|
  {
    var vs := seq(|xs|, i requires 0 <= i < |xs| => Str(xs[i]));
    if xs != [] {
      StringsOfStrings(xs[1..]);
      assert vs[1..] == seq(|xs[1..]|, i requires 0 <= i < |xs[1..]| => Str(xs[1..][i]));
      assert xs == [xs[0]] + xs[1..];
    }
  }

  /** `toStringArray`: nothing for a falsy or non-list value; for a list,
      its string elements in order. */
  function ToStringArray(v: Value): (r: Option<seq<string>>)
    ensures r.Some? <==> v.List?
    ensures r.Some? ==> forall x :: x in r.value <==> Str(x) in v.items
  {
    if Falsy(v) then None
    else if v.List? then Some(Strings(v.items))
    else None
  }

  /** `toBool`: the value itself for a boolean, nothing otherwise. */
  function ToBool(v: Value): (r: Option<bool>)
    ensures r.Some? <==> v.Bool?
    ensures r.Some? ==> v == Bool(r.value)
  {
    if v.Bool? then Some(v.b) else None
  }

  /** `toCodeExample`: the derived poster and iframe URLs, and tags that
      default to the empty list. */
  function ToCodeExample(id: string, title: string, prompt: string, tags: Option<seq<string>>,
                         camera: Option<bool>, microphone: Option<bool>): (c: CodeExample)
    ensures c.id == id && c.title == title && c.prompt == prompt
    ensures c.tags == (if tags.Some? then tags.value else [])
    ensures c.camera == camera && c.microphone == microphone
    ensures c.poster == CdnBaseUrl + "/" + id + ".png" && c.iframeUrl == IframeBaseUrl + id
  {
    CodeExample(id, title, prompt, CdnBaseUrl + "/" + id + ".png", IframeBaseUrl + id,
                if tags.Some? then tags.value else [], camera, microphone)
  }

  /** The id can be read back from the poster URL, and from the iframe URL. */
  lemma DerivedUrlsDetermineId(c: CodeExample, d: CodeExample)
    requires c == ToCodeExample(c.id, c.title, c.prompt, Some(c.tags), c.camera, c.microphone)
    requires d == ToCodeExample(d.id, d.title, d.prompt, Some(d.tags), d.camera, d.microphone)
    ensures c.poster == d.poster ==> c.id == d.id
    ensures c.iframeUrl == d.iframeUrl ==> c.id == d.id
  {
    var pre := CdnBaseUrl + "/";
    assert c.poster == pre + c.id + ".png" && d.poster == pre + d.id + ".png";
    if c.poster == d.poster {
      assert |c.id| == |d.id|;
      assert c.id == c.poster[|pre|..|pre| + |c.id|];
    }
    assert c.iframeUrl == "/" + c.id && d.iframeUrl == "/" + d.id;
    if c.iframeUrl == d.iframeUrl {
      assert c.id == c.iframeUrl[1..];
    }
  }

  // ---------------------------------------------------------------------
  // Normalisation of one file

  /** The string ends in `suffix`, ignoring ASCII case. */
  predicate EndsWithIgnoringCase(s: string, suffix: string) {
    Text.EndsWith(Text.ToLower(s), suffix)
  }

  /** `base.replace(/\.(yaml|yml)$/i, "")`: one trailing `.yaml` or `.yml`,
      in any case, is removed. */
  function Slug(base: string): (r: string)
    ensures EndsWithIgnoringCase(base, ".yaml") ==> r == base[..|base| - 5]
    ensures EndsWithIgnoringCase(base, ".yml") ==> r == base[..|base| - 4]
    ensures !EndsWithIgnoringCase(base, ".yaml") && !EndsWithIgnoringCase(base, ".yml") ==> r == base
  {
    if EndsWithIgnoringCase(base, ".yaml") then
      assert !EndsWithIgnoringCase(base, ".yml") by {
        var l := Text.ToLower(base);
        assert l[|l| - 3] == 'a';
      }
      base[..|base| - 5]
    else if EndsWithIgnoringCase(base, ".yml") then base[..|base| - 4]
    else base
  }

  /** The slug of `name + ext` is `name` for any spelling of the extension. */
  lemma SlugStripsExtension(name: string, ext: string)
    requires Text.ToLower(ext) == ".yaml" || Text.ToLower(ext) == ".yml"
    ensures Slug(name + ext) == name
  {
    var s := name + ext;
    var l := Text.ToLower(s);
    assert l[|name|..] == Text.ToLower(ext);
    assert s[..|s| - |ext|] == name;
  }

  /** `path.basename`: the last component. */
  function BaseName(p: Path): string {
    if p == [] then "" else p[|p| - 1]
  }

  /** The title: a non-empty string `title`, else a non-empty string
      `name` (the older key). */
  function TitleOf(r: Record): (t: Option<string>)
    ensures t.Some? ==> t.value != ""
    ensures t.Some? <==> (r.title.Str? && r.title.s != "") || (r.name.Str? && r.name.s != "")
    ensures r.title.Str? && r.title.s != "" ==> t == Some(r.title.s)
  {
    if r.title.Str? && r.title.s != "" then Some(r.title.s)
    else if r.name.Str? && r.name.s != "" then Some(r.name.s)
    else None
  }

  /** One iteration of `loadApps`' loop: nothing when the file cannot be read
      or parsed (`read` gives nothing) or lacks a title or a non-empty
      prompt. The YAML `id` key is ignored; the slug is the id. */
  function Normalize(file: Path, read: Option<Record>): (c: Option<CodeExample>)
    ensures c.Some? <==> (read.Some? && TitleOf(read.value).Some?
                          && read.value.prompt.Str? && read.value.prompt.s != "")
    ensures c.Some? ==> (c.value.id == Slug(BaseName(file))
                         && c.value.title == TitleOf(read.value).value
                         && c.value.prompt == read.value.prompt.s
                         && c.value.iframeUrl == "/" + Slug(BaseName(file)))
  {
    match read
    case None => None
    case Some(obj) =>
      var slug := Slug(BaseName(file));
      var title := TitleOf(obj);
      var prompt := if obj.prompt.Str? then Some(obj.prompt.s) else None;
      if title.None? || prompt.None? || prompt.value == "" then None
      else Some(ToCodeExample(slug, title.value, prompt.value, ToStringArray(obj.tags),
                              ToBool(obj.camera), ToBool(obj.microphone)))
  }

  /** The examples accepted from `files`, in file order. */
  function Accepted(files: seq<Path>, read: Path -> Option<Record>): (r: seq<CodeExample>)
    ensures |r| <= |files|
  {
    if files == [] then []
    else
      var init := Accepted(files[..|files| - 1], read);
      var last := files[|files| - 1];
      match Normalize(last, read(last))
      case Some(c) => init + [c]
      case None => init
  }

  /** An example is accepted exactly when some file normalises to it. */
  lemma {:induction false} AcceptedMembers(files: seq<Path>, read: Path -> Option<Record>)
    ensures forall c :: c in Accepted(files, read) <==> exists f :: f in files && Normalize(f, read(f)) == Some(c)
    decreases |files|
  {
    if files != [] {
      var init := files[..|files| - 1];
      var last := files[|files| - 1];
      AcceptedMembers(init, read);
      assert files == init + [last];
      forall c ensures c in Accepted(files, read) <==> exists f :: f in files && Normalize(f, read(f)) == Some(c) {
        if c in Accepted(files, read) {
          if c in Accepted(init, read) {
            var f :| f in init && Normalize(f, read(f)) == Some(c);
            assert f in files;
          } else {
            assert Normalize(last, read(last)) == Some(c);
          }
        }
        if exists f :: f in files && Normalize(f, read(f)) == Some(c) {
          var f :| f in files && Normalize(f, read(f)) == Some(c);
          if f != last {
            assert f in init;
          }
        }
      }
    }
  }

  // ---------------------------------------------------------------------
  // Sorting by title

  /** `localeCompare` as an order: `le(a, b)` when `a.localeCompare(b) <= 0`.
      It is only required to be total. */
  ghost predicate Total(le: (string, string) -> bool) {
    forall a, b :: le(a, b) || le(b, a)
  }

  predicate SortedByTitle(s: seq<CodeExample>, le: (string, string) -> bool) {
    forall i :: 0 < i < |s| ==> le(s[i - 1].title, s[i].title)
  }

  /** `x` goes before the first element it is not after. */
  function Insert(x: CodeExample, s: seq<CodeExample>, le: (string, string) -> bool): (r: seq<CodeExample>)
    ensures multiset(r) == multiset(s) + multiset{x}
    ensures |r| == |s| + 1
    ensures r[0] == x || (s != [] && r[0] == s[0])
  {
    if s == [] || le(x.title, s[0].title) then [x] + s
    else
      var t := [s[0]] + Insert(x, s[1..], le);
      assert s == [s[0]] + s[1..];
      t
  }

  lemma {:induction false} InsertSorted(x: CodeExample, s: seq<CodeExample>, le: (string, string) -> bool)
    requires Total(le) && SortedByTitle(s, le)
    ensures SortedByTitle(Insert(x, s, le), le)
    decreases |s|
  {
    if s != [] && !le(x.title, s[0].title) {
      var tail := s[1..];
      assert SortedByTitle(tail, le) by {
        forall i | 0 < i < |tail| ensures le(tail[i - 1].title, tail[i].title) {
          assert tail[i - 1] == s[i] && tail[i] == s[i + 1];
        }
      }
      InsertSorted(x, tail, le);
      var r := Insert(x, tail, le);
      assert le(s[0].title, x.title);
      assert tail != [] ==> le(s[0].title, tail[0].title) by {
        if tail != [] { assert tail[0] == s[1]; }
      }
      assert le(s[0].title, r[0].title);
      var t := [s[0]] + r;
      forall i | 0 < i < |t| ensures le(t[i - 1].title, t[i].title) {
        if i > 1 { assert t[i - 1] == r[i - 2] && t[i] == r[i - 1]; }
      }
    }
  }

  /** `apps.sort(...)`: a sort by title (insertion from the back). */
  function SortByTitle(s: seq<CodeExample>, le: (string, string) -> bool): (r: seq<CodeExample>)
    ensures multiset(r) == multiset(s)
    ensures |r| == |s|
  {
    if s == [] then []
    else
      assert s == [s[0]] + s[1..];
      Insert(s[0], SortByTitle(s[1..], le), le)
  }

  lemma {:induction false} SortByTitleSorted(s: seq<CodeExample>, le: (string, string) -> bool)
    requires Total(le)
    ensures SortedByTitle(SortByTitle(s, le), le)
    decreases |s|
  {
    if s != [] {
      SortByTitleSorted(s[1..], le);
      InsertSorted(s[0], SortByTitle(s[1..], le), le);
    }
  }

  /** `loadApps` once the files are found: read and normalise each file in
      turn, pushing the accepted ones, then sort. */
  method LoadApps(files: seq<Path>, read: Path -> Option<Record>, le: (string, string) -> bool)
    returns (apps: seq<CodeExample>)
    requires Total(le)
    ensures apps == SortByTitle(Accepted(files, read), le)
    ensures SortedByTitle(apps, le)
    ensures multiset(apps) == multiset(Accepted(files, read))
  {
    apps := [];
    var i := 0;
    while i < |files|
      invariant 0 <= i <= |files|
      invariant apps == Accepted(files[..i], read)
    {
      var file := files[i];
      assert files[..i + 1][..i] == files[..i];
      var c := Normalize(file, read(file));
      if c.Some? {
        apps := apps + [c.value];
      }
      i := i + 1;
    }
    assert files[..i] == files;
    SortByTitleSorted(apps, le);
    apps := SortByTitle(apps, le);
  }

  /** The whole of `loadApps`: find the files, then load them. A listing that
      throws rejects the call. */
  method LoadAppsFrom(root: seq<Node>, read: Path -> Option<Record>, le: (string, string) -> bool)
    returns (r: Option<seq<CodeExample>>)
    requires Total(le)
    ensures r.Some? <==> LoadYaml.YamlFiles([], root).complete
    ensures r.Some? ==> r.value == SortByTitle(Accepted(LoadYaml.YamlFiles([], root).files, read), le)
  {
    var files := LoadYaml.LoadYamlFiles(root);
    if files.None? {
      return None;
    }
    var apps := LoadApps(files.value, read, le);
    r := Some(apps);
  }
}
