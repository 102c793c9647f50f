/** The front-end gallery with deep links: a `/compare/<app>` URL opens the
    comparison view with the models, view mode and tab named in its query,
    and a plain click on a card opens it with the defaults. */
module GridRouting {
  import opened Wrappers
  import Text
  import UrlQuery
  import opened CodeExamples
  import ModelsConfig

  /** The model ids a URL may name. */
  const Allowlist: seq<string> := ["gpt-5", "gpt-5.1", "opus-4.1", "opus-4.5", "sonnet-4.5", "gemini-3"]
  const DefaultModels: seq<string> := ["gpt-5", "opus-4.5"]
  const DefaultTab: string := "gpt-5"

  datatype View = SideBySide | Tabs

  function ViewName(v: View): string {
    match v
    case SideBySide => "side-by-side"
    case Tabs => "tabs"
  }

  /** Only the two spellings of a view mode are taken. */
  function ParseView(s: Option<string>): (v: Option<View>)
    ensures v.Some? <==> s == Some("side-by-side") || s == Some("tabs")
    ensures v.Some? ==> s == Some(ViewName(v.value))
  {
    if s == Some("side-by-side") then Some(SideBySide)
    else if s == Some("tabs") then Some(Tabs)
    else None
  }

  /** Every id a URL may name is a registered model. */
  lemma AllowlistRegistered()
    ensures forall id :: id in Allowlist ==> id in ModelsConfig.Ids(ModelsConfig.Models)
  {
  }

  // ---------------------------------------------------------------------
  // Reading the path

  /** `path.replace(/\/+$/, "")`. */
  function StripTrailingSlashes(p: string): (r: string)
    ensures |r| <= |p| && r == p[..|r|]
    ensures r == [] || r[|r| - 1] != '/'
    ensures forall i :: |r| <= i < |p| ==> p[i] == '/'
  {
    if p != [] && p[|p| - 1] == '/' then StripTrailingSlashes(p[..|p| - 1]) else p
  }

  /** The longest prefix without a `/`, as `[^/]*` matches it. */
  function SegmentPrefix(s: string): (seg: string)
    ensures |seg| <= |s| && seg == s[..|seg|] && '/' !in seg
    ensures |seg| == |s| || s[|seg|] == '/'
  {
    if s == [] || s[0] == '/' then []
    else
      var rest := SegmentPrefix(s[1..]);
      assert [s[0]] + rest == s[..|rest| + 1];
      [s[0]] + rest
  }

  const ComparePrefix: string := "/compare/"

  /** `path.match(/^\/compare\/([^/]+)/)`: the first segment after
      `/compare/`, which must not be empty. */
  function CompareSegment(path: string): (seg: Option<string>)
    ensures seg.Some? ==> (seg.value != [] && '/' !in seg.value
                           && Text.StartsWith(path, ComparePrefix + seg.value))
    ensures seg.None? ==> (!Text.StartsWith(path, ComparePrefix) || |path| == |ComparePrefix|
                           || path[|ComparePrefix|] == '/')
  {
    if !Text.StartsWith(path, ComparePrefix) then None
    else
      var s := SegmentPrefix(path[|ComparePrefix|..]);
      if s == [] then None
      else
        assert path[..|ComparePrefix| + |s|] == ComparePrefix + s;
        Some(s)
  }

  /** Trailing slashes after a segment are all removed. */
  lemma {:induction false} StripSlashes(base: string, slashes: string)
    requires base != [] && base[|base| - 1] != '/'
    requires forall i :: 0 <= i < |slashes| ==> slashes[i] == '/'
    ensures StripTrailingSlashes(base + slashes) == base
    decreases |slashes|
  {
    if slashes == [] {
      assert base + slashes == base;
    } else {
      var n := |slashes| - 1;
      assert (base + slashes)[..|base + slashes| - 1] == base + slashes[..n];
      StripSlashes(base, slashes[..n]);
    }
  }

  lemma SegmentPrefixOfFree(id: string)
    requires '/' !in id
    ensures SegmentPrefix(id) == id
  {
  }

  /** A path made of `/compare/`, a segment and any further slashes is read
      as that segment. */
  lemma CompareSegmentOf(id: string, slashes: string)
    requires id != [] && '/' !in id
    requires forall i :: 0 <= i < |slashes| ==> slashes[i] == '/'
    ensures CompareSegment(StripTrailingSlashes(ComparePrefix + id + slashes)) == Some(id)
  {
    var base := ComparePrefix + id;
    assert base[|base| - 1] == id[|id| - 1] && id[|id| - 1] in id;
    StripSlashes(base, slashes);
    assert base[..|ComparePrefix|] == ComparePrefix;
    assert base[|ComparePrefix|..] == id;
    SegmentPrefixOfFree(id);
  }

  /** `apps.find(a => a.id === appId)`. */
  function FindApp(apps: seq<CodeExample>, id: string): (r: Option<CodeExample>)
    ensures r.Some? ==> r.value in apps && r.value.id == id
    ensures r.None? <==> forall a :: a in apps ==> a.id != id
    ensures r.Some? ==> exists i :: 0 <= i < |apps| && apps[i] == r.value && forall j :: 0 <= j < i ==> apps[j].id != id
  {
    if apps == [] then None
    else if apps[0].id == id then Some(apps[0])
    else
      var r := FindApp(apps[1..], id);
      assert r.Some? ==> exists i :: 1 <= i < |apps| && apps[i] == r.value && forall j :: 0 <= j < i ==> apps[j].id != id by {
        if r.Some? {
          var i :| 0 <= i < |apps[1..]| && apps[1..][i] == r.value && forall j :: 0 <= j < i ==> apps[1..][j].id != id;
          assert apps[i + 1] == r.value;
          forall j | 0 <= j < i + 1 ensures apps[j].id != id {
            if j > 0 { assert apps[j] == apps[1..][j - 1]; }
          }
        }
      }
      r
  }

  /** The allowed ids among the items, in order and with repeats. */
  function KeepAllowed(items: seq<string>): (r: seq<string>)
    ensures forall x :: x in r <==> x in items && x in Allowlist
    ensures |r| <= |items|
  {
    if items == [] then []
    else (if items[0] in Allowlist then [items[0]] else []) + KeepAllowed(items[1..])
  }

  /** `models.split(",").filter(...)`. */
  function ValidModels(models: string): seq<string> {
    KeepAllowed(Text.Split(models, ','))
  }

  // ---------------------------------------------------------------------
  // The four state cells

  datatype Routing = Routing(selectedApp: Option<CodeExample>, initialModels: seq<string>,
                             initialView: View, initialTab: string)

  const Initial: Routing := Routing(None, DefaultModels, SideBySide, DefaultTab)

  /** What the cells may hold: a non-empty list of allowed models and an
      allowed tab. */
  predicate Allowed(st: Routing) {
    st.initialModels != [] && (forall m :: m in st.initialModels ==> m in Allowlist)
    && st.initialTab in Allowlist
  }

  /** The `models` cell after a query: the allowed ids of a non-empty
      parameter, if there are any. */
  function NewModels(current: seq<string>, models: Option<string>): (r: seq<string>)
    ensures r == current || (r != [] && forall m :: m in r ==> m in Allowlist)
  {
    var valid := if models.Some? && models.value != "" then ValidModels(models.value) else [];
    if valid != [] then valid else current
  }

  function NewView(current: View, view: Option<string>): View {
    var mode := ParseView(view);
    if mode.Some? then mode.value else current
  }

  function NewTab(current: string, tab: Option<string>): (r: string)
    ensures r == current || (tab == Some(r) && r in Allowlist)
  {
    if tab.Some? && tab.value != "" && tab.value in Allowlist then tab.value else current
  }

  /** The cells once `app` is found and the query `params` read. */
  function ApplyQuery(st: Routing, app: CodeExample, params: seq<UrlQuery.Param>): Routing {
    Routing(Some(app),
            NewModels(st.initialModels, UrlQuery.Get(params, "models")),
            NewView(st.initialView, UrlQuery.Get(params, "view")),
            NewTab(st.initialTab, UrlQuery.Get(params, "tab")))
  }

  /** The effect of `parseUrl` on the cells. */
  function Parsed(st: Routing, pathname: string, search: string, apps: seq<CodeExample>): (r: Routing)
    ensures CompareSegment(StripTrailingSlashes(pathname)).None? ==> r == st
    ensures r.selectedApp != st.selectedApp ==> (r.selectedApp.Some? && r.selectedApp.value in apps
                                                 && Some(r.selectedApp.value.id) == CompareSegment(StripTrailingSlashes(pathname)))
  {
    var seg := CompareSegment(StripTrailingSlashes(pathname));
    if seg.None? then st
    else match FindApp(apps, seg.value)
      case None => st
      case Some(app) => ApplyQuery(st, app, UrlQuery.Parse(search))
  }

  /** A URL naming no known app leaves every cell as it was. */
  lemma UnknownAppIgnored(st: Routing, pathname: string, search: string, apps: seq<CodeExample>)
    requires forall a :: a in apps ==> Some(a.id) != CompareSegment(StripTrailingSlashes(pathname))
    ensures Parsed(st, pathname, search, apps) == st
  {
  }

  /** Parsing any URL keeps the cells within what they may hold. */
  lemma ParsedAllowed(st: Routing, pathname: string, search: string, apps: seq<CodeExample>)
    requires Allowed(st)
    ensures Allowed(Parsed(st, pathname, search, apps))
  {
  }

  lemma {:induction false} KeepAllowedNone(items: seq<string>)
    requires forall x :: x in items ==> x !in Allowlist
    ensures KeepAllowed(items) == []
    decreases |items|
  {
    if items != [] {
      assert items[0] in items;
      assert forall x :: x in items[1..] ==> x in items;
      KeepAllowedNone(items[1..]);
    }
  }

  /** An unusable query parameter leaves its cell unchanged: a `models`
      list with no allowed id, a `view` that is neither mode, a `tab` that
      is not allowed. */
  lemma BadParametersIgnored(st: Routing, app: CodeExample, ps: seq<UrlQuery.Param>)
    ensures var m := UrlQuery.Get(ps, "models");
      var r := ApplyQuery(st, app, ps);
      (m.None? || (forall x :: x in Text.Split(m.value, ',') ==> x !in Allowlist) ==> r.initialModels == st.initialModels)
      && (ParseView(UrlQuery.Get(ps, "view")).None? ==> r.initialView == st.initialView)
      && (UrlQuery.Get(ps, "tab").None? || UrlQuery.Get(ps, "tab").value !in Allowlist ==> r.initialTab == st.initialTab)
  {
    var m := UrlQuery.Get(ps, "models");
    if m.Some? && forall x :: x in Text.Split(m.value, ',') ==> x !in Allowlist {
      KeepAllowedNone(Text.Split(m.value, ','));
    }
  }

  /** How the user clicked a card. */
  datatype Click = Click(button: int, ctrlKey: bool, metaKey: bool)

  /** A plain left click, which the page handles itself; any other click is
      left to the browser. */
  predicate PlainClick(e: Click) {
    e.button == 0 && !e.ctrlKey && !e.metaKey
  }

  /** The effect of `handleOpenApp`. */
  function Opened(st: Routing, e: Click, app: CodeExample): (r: Routing)
    ensures !PlainClick(e) ==> r == st
    ensures PlainClick(e) ==> r.selectedApp == Some(app) && Allowed(r)
  {
    if !PlainClick(e) then st else Routing(Some(app), DefaultModels, SideBySide, DefaultTab)
  }

  /** The link behind each card. */
  function AppHref(app: CodeExample): (url: string) {
    ComparePrefix + app.id + DefaultQuery
  }

  /** The query of every card's link, `?models=gpt-5,opus-4.5&view=side-by-side`. */
  const DefaultModelsValue: string := "gpt-5,opus-4.5"
  const DefaultQuery: string := "?" + Text.Join(["models" + "=" + DefaultModelsValue, "view" + "=" + "side-by-side"], "&")

  /** Text without `+` or `%` decodes to itself. */
  lemma {:induction false} DecodePlain(s: string)
    requires '+' !in s && '%' !in s
    ensures UrlQuery.Decode(s) == s
    decreases |s|
  {
    if s != [] {
      assert s[0] in s && forall c :: c in s[1..] ==> c in s;
      DecodePlain(s[1..]);
    }
  }

  /** `name=value` with plain text on both sides reads as that pair. */
  lemma PlainPiece(name: string, value: string)
    requires '=' !in name && '+' !in name && '%' !in name && '+' !in value && '%' !in value
    ensures UrlQuery.ParsePiece(name + "=" + value) == UrlQuery.Param(name, value)
  {
    var s := name + "=" + value;
    Text.FirstSeparator(name, value, '=');
    assert s[..|name|] == name && s[|name| + 1..] == value;
    DecodePlain(name);
    DecodePlain(value);
  }

  /** Text that needs no escaping in a query and holds no separator. */
  predicate Plain(s: string) {
    forall i :: 0 <= i < |s| ==> s[i] != '=' && s[i] != '&' && s[i] != '+' && s[i] != '%'
  }

  /** A query of two plain `name=value` pairs reads as those pairs. */
  lemma ParseTwoPlain(n1: string, v1: string, n2: string, v2: string)
    requires Plain(n1) && Plain(v1) && Plain(n2) && Plain(v2)
    ensures UrlQuery.Parse("?" + Text.Join([n1 + "=" + v1, n2 + "=" + v2], "&"))
      == [UrlQuery.Param(n1, v1), UrlQuery.Param(n2, v2)]
  {
    var p1, p2 := n1 + "=" + v1, n2 + "=" + v2;
    var q := Text.Join([p1, p2], "&");
    assert '&' !in p1 && '&' !in p2;
    Text.SplitJoin([p1, p2], '&');
    assert ("?" + q)[..1] == "?" && ("?" + q)[1..] == q;
    PlainPiece(n1, v1);
    PlainPiece(n2, v2);
    assert p1 != [] by { assert p1[|n1|] == '='; }
    assert p2 != [] by { assert p2[|n2|] == '='; }
    var pieces := [p1, p2];
    assert pieces[1..] == [p2];
    assert UrlQuery.ParsePieces(pieces) == [UrlQuery.ParsePiece(p1)] + UrlQuery.ParsePieces([p2]);
  }

  /** The card link's query reads as the two default parameters (the comma
      is left unescaped there, and decoding leaves it as it is). */
  lemma DefaultQueryParams()
    ensures UrlQuery.Parse(DefaultQuery)
      == [UrlQuery.Param("models", DefaultModelsValue), UrlQuery.Param("view", "side-by-side")]
  {
    ParseTwoPlain("models", DefaultModelsValue, "view", "side-by-side");
  }

  lemma JoinDefault()
    ensures Text.Join(["gpt-5", "opus-4.5"], [',']) == DefaultModelsValue
  {
  }

  lemma SplitDefault()
    ensures Text.Split(DefaultModelsValue, ',') == ["gpt-5", "opus-4.5"]
  {
    JoinDefault();
    Text.SplitJoin(["gpt-5", "opus-4.5"], ',');
  }

  lemma KeepDefault()
    ensures KeepAllowed(["gpt-5", "opus-4.5"]) == DefaultModels
  {
  }

  lemma DefaultModelsParam()
    ensures ValidModels(DefaultModelsValue) == DefaultModels
  {
    SplitDefault();
    KeepDefault();
  }

  /** An id a browser keeps as it is in a path segment: made of `*-._`,
      digits and ASCII letters, none of which is percent-encoded, and not a
      `.` or `..` segment, which would be resolved away. With no `/`, `?`,
      `#` or `\` in it, the whole id is the segment. */
  predicate UrlSafeId(id: string) {
    id != [] && id != "." && id != ".."
    && forall i :: 0 <= i < |id| ==> UrlQuery.Unreserved(id[i])
  }

  lemma UrlSafeIdFree(id: string)
    requires UrlSafeId(id)
    ensures id != [] && '/' !in id && '?' !in id && '#' !in id
  {
  }

  /** Following a card's link in a fresh page shows what a plain click on
      the card shows: the same app, the default models, side by side, and
      the default tab. */
  lemma HrefAgreesWithClick(app: CodeExample, apps: seq<CodeExample>)
    requires UrlSafeId(app.id)
    requires FindApp(apps, app.id) == Some(app)
    ensures AppHref(app) == ComparePrefix + app.id + DefaultQuery
    ensures Parsed(Initial, ComparePrefix + app.id, DefaultQuery, apps)
      == Opened(Initial, Click(0, false, false), app)
  {
    UrlSafeIdFree(app.id);
    CompareSegmentOf(app.id, "");
    assert ComparePrefix + app.id + "" == ComparePrefix + app.id;
    PathSelects(Initial, ComparePrefix + app.id, DefaultQuery, apps, app);
    DefaultQueryParams();
    DefaultParamsApplied(app);
  }

  /** Once the path names a known app, only the query decides the cells. */
  lemma PathSelects(st: Routing, pathname: string, search: string, apps: seq<CodeExample>, app: CodeExample)
    requires CompareSegment(StripTrailingSlashes(pathname)) == Some(app.id)
    requires FindApp(apps, app.id) == Some(app)
    ensures Parsed(st, pathname, search, apps) == ApplyQuery(st, app, UrlQuery.Parse(search))
  {
  }

  lemma DefaultParamsApplied(app: CodeExample)
    ensures ApplyQuery(Initial, app, [UrlQuery.Param("models", DefaultModelsValue), UrlQuery.Param("view", "side-by-side")])
      == Routing(Some(app), DefaultModels, SideBySide, DefaultTab)
  {
    DefaultModelsParam();
  }

  /** The gallery's routing state: the four cells of the component. */
  class Router {
    var selectedApp: Option<CodeExample>
    var initialModels: seq<string>
    var initialView: View
    var initialTab: string

    function State(): Routing
      reads this
    {
      Routing(selectedApp, initialModels, initialView, initialTab)
    }

    constructor ()
      ensures State() == Initial
    {
      selectedApp := None;
      initialModels := DefaultModels;
      initialView := SideBySide;
      initialTab := DefaultTab;
    }

    /** `parseUrl`, reading `window.location.pathname` and `.search`. */
    method ParseUrl(pathname: string, search: string, apps: seq<CodeExample>)
      modifies this
      ensures State() == Parsed(old(State()), pathname, search, apps)
    {
      var path := StripTrailingSlashes(pathname);
      var compareMatch := CompareSegment(path);
      if compareMatch.Some? {
        var app := FindApp(apps, compareMatch.value);
        if app.Some? {
          ReadQuery(app.value, UrlQuery.Parse(search));
        }
      }
    }

    /** The body of `parseUrl` once the app is found: each cell is set only
        by a usable parameter. */
    method ReadQuery(app: CodeExample, params: seq<UrlQuery.Param>)
      modifies this
      ensures State() == ApplyQuery(old(State()), app, params)
    {
      var models := UrlQuery.Get(params, "models");
      var view := UrlQuery.Get(params, "view");
      var tab := UrlQuery.Get(params, "tab");
      if models.Some? && models.value != "" {
        var validModels := ValidModels(models.value);
        if |validModels| > 0 {
          initialModels := validModels;
        }
      }
      if view == Some("side-by-side") {
        initialView := SideBySide;
      } else if view == Some("tabs") {
        initialView := Tabs;
      }
      if tab.Some? && tab.value != "" && tab.value in Allowlist {
        initialTab := tab.value;
      }
      selectedApp := Some(app);
    }

    /** `handlePopState`: back to `/` closes the view, any other path is
        read again. */
    method PopState(pathname: string, search: string, apps: seq<CodeExample>)
      modifies this
      ensures pathname == "/" ==> State() == old(State()).(selectedApp := None)
      ensures pathname != "/" ==> State() == Parsed(old(State()), pathname, search, apps)
    {
      if pathname == "/" {
        selectedApp := None;
      } else {
        ParseUrl(pathname, search, apps);
      }
    }

    /** `handleOpenApp`. */
    method OpenApp(e: Click, app: CodeExample)
      modifies this
      ensures State() == Opened(old(State()), e, app)
    {
      if e.button != 0 || e.ctrlKey || e.metaKey {
        return;
      }
      initialModels := DefaultModels;
      initialView := SideBySide;
      initialTab := DefaultTab;
      selectedApp := Some(app);
    }

    /** `handleClose`. */
    method Close()
      modifies this
      ensures State() == old(State()).(selectedApp := None)
    {
      selectedApp := None;
    }
  }

  // ---------------------------------------------------------------------
  // Tags under each card

  datatype TagLabel = TagLabel(tag: string, comma: bool)

  function Min(a: int, b: int): int {
    if a < b then a else b
  }

  /** The first three tags, as written: a tag is followed by a comma when
      the index of its first occurrence is below `min(len - 1, 2)`. */
  function ShownTagsAsWritten(tags: seq<string>): (r: seq<TagLabel>)
    ensures |r| == Min(|tags|, 3) && forall i :: 0 <= i < |r| ==> r[i].tag == tags[i]
  {
    var shown := tags[..Min(|tags|, 3)];
    seq(|shown|, i requires 0 <= i < |shown| =>
      TagLabel(shown[i], Text.Position(tags, shown[i]) < Min(|tags| - 1, 2)))
  }

  /** With a repeated tag the last label shown still carries a comma. */
  lemma RepeatedTagTrailingComma()
    ensures var r := ShownTagsAsWritten(["a", "b", "a"]); |r| == 3 && r[2].comma
  {
    assert Text.Position(["a", "b", "a"], "a") == 0;
  }

  /** The first three tags, each but the last shown one followed by a
      comma. */
  function ShownTags(tags: seq<string>): (r: seq<TagLabel>)
    ensures |r| == Min(|tags|, 3)
    ensures forall i :: 0 <= i < |r| ==> r[i].tag == tags[i] && (r[i].comma <==> i < |r| - 1)
  {
    var shown := tags[..Min(|tags|, 3)];
    assert Min(|tags| - 1, 2) == |shown| - 1;
    seq(|shown|, i requires 0 <= i < |shown| => TagLabel(shown[i], i < Min(|tags| - 1, 2)))
  }

  /** With distinct tags the two rules agree. */
  lemma ShownTagsAgree(tags: seq<string>)
    requires forall i, j :: 0 <= i < j < |tags| ==> tags[i] != tags[j]
    ensures ShownTagsAsWritten(tags) == ShownTags(tags)
  {
    forall i | 0 <= i < Min(|tags|, 3) ensures Text.Position(tags, tags[i]) == i {
      var k := Text.Position(tags, tags[i]);
      assert k >= 0 by { assert tags[i] in tags; }
    }
  }

  /** The `+N` badge after the shown tags. */
  function MoreTags(tags: seq<string>): (r: Option<nat>)
    ensures r.Some? <==> |tags| > 3
    ensures r.Some? ==> |ShownTags(tags)| + r.value == |tags|
  {
    if |tags| > 3 then Some(|tags| - 3) else None
  }
}
