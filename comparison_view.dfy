/** The full-screen comparison of one app across models: which models are
    shown, side by side or as tabs, and the shareable URL kept in the
    address bar. */
module ComparisonView {
  import opened Wrappers
  import Text
  import UrlQuery
  import opened CodeExamples
  import opened ModelsView
  import ModelsConfig
  import opened GridRouting

  // ---------------------------------------------------------------------
  // Colour classes

  /** The classes derived from a model's background colour. */
  datatype Palette = Palette(hoverColor: string, borderColor: string, textColor: string)

  /** The first `bg-` becomes `hover:bg-`, `border-` or `text-`; for the
      hover and text classes the first `-500` then becomes `-600`. */
  function PaletteOf(color: string): Palette {
    Palette(Text.ReplaceFirst(Text.ReplaceFirst(color, "bg-", "hover:bg-"), "-500", "-600"),
            Text.ReplaceFirst(color, "bg-", "border-"),
            Text.ReplaceFirst(Text.ReplaceFirst(color, "bg-", "text-"), "-500", "-600"))
  }

  predicate Letters(s: string) {
    forall i :: 0 <= i < |s| ==> 'a' <= s[i] <= 'z'
  }

  /** The first `bg-` of `bg-<hue>-500` is its prefix. */
  lemma SwapPrefix(hue: string, pre: string)
    ensures Text.ReplaceFirst("bg-" + hue + "-500", "bg-", pre) == pre + hue + "-500"
  {
    assert "bg-" + hue + "-500" == [] + "bg-" + (hue + "-500");
    Text.ReplaceFirstAfterFree([], "bg-", hue + "-500", pre);
    assert [] + pre + (hue + "-500") == pre + hue + "-500";
  }

  /** The first `-500` is the suffix when no `5` comes before it. */
  lemma Darken(x: string)
    requires '5' !in x
    ensures Text.ReplaceFirst(x + "-500", "-500", "-600") == x + "-600"
  {
    assert x + "-500" == x + "-500" + [];
    Text.ReplaceFirstAfterFree(x, "-500", [], "-600");
    assert x + "-600" + [] == x + "-600";
  }

  lemma LettersAfter(pre: string, hue: string)
    requires '5' !in pre && Letters(hue)
    ensures '5' !in pre + hue
  {
    var x := pre + hue;
    forall i | 0 <= i < |x| ensures x[i] != '5' {
      if i < |pre| { assert x[i] == pre[i] && pre[i] in pre; } else { assert x[i] == hue[i - |pre|]; }
    }
  }

  /** For a Tailwind colour `bg-<hue>-500`, the hover and text classes use
      the same hue one shade darker and the border class the same shade. */
  lemma PaletteOfShade(hue: string)
    requires Letters(hue)
    ensures PaletteOf("bg-" + hue + "-500")
      == Palette("hover:bg-" + hue + "-600", "border-" + hue + "-500", "text-" + hue + "-600")
  {
    SwapPrefix(hue, "hover:bg-");
    SwapPrefix(hue, "border-");
    SwapPrefix(hue, "text-");
    LettersAfter("hover:bg-", hue);
    LettersAfter("text-", hue);
    Darken("hover:bg-" + hue);
    Darken("text-" + hue);
  }

  /** The hue of each registered model, in registry order. */
  const Hues: seq<string> := ["emerald", "teal", "cyan", "amber", "orange", "purple", "blue", "yellow"]

  lemma HuesAreLetters()
    ensures forall i :: 0 <= i < |Hues| ==> Letters(Hues[i])
  {
  }

  lemma RegistryHues()
    ensures |Hues| == |ModelsConfig.Models|
    ensures forall i :: 0 <= i < |Hues| ==> ModelsConfig.Models[i].color == "bg-" + Hues[i] + "-500"
  {
  }

  /** Every registered colour is `bg-<hue>-500` for a hue of letters. */
  lemma RegistryColors()
    ensures |Hues| == |UiModels|
    ensures forall i :: 0 <= i < |UiModels| ==> UiModels[i].color == "bg-" + Hues[i] + "-500" && Letters(Hues[i])
  {
    HuesAreLetters();
    RegistryHues();
  }

  /** Every model of the registry gets its hue's `-600` hover and text
      classes and `-500` border class. */
  lemma RegistryPalettes()
    ensures forall i :: 0 <= i < |UiModels| ==>
      PaletteOf(UiModels[i].color)
        == Palette("hover:bg-" + Hues[i] + "-600", "border-" + Hues[i] + "-500", "text-" + Hues[i] + "-600")
  {
    RegistryColors();
    forall i | 0 <= i < |UiModels|
      ensures PaletteOf(UiModels[i].color)
        == Palette("hover:bg-" + Hues[i] + "-600", "border-" + Hues[i] + "-500", "text-" + Hues[i] + "-600")
    {
      PaletteOfShade(Hues[i]);
    }
  }

  // ---------------------------------------------------------------------
  // The selection

  /** `prev.filter(m => m !== id)`. */
  function Remove(s: seq<string>, id: string): (r: seq<string>)
    ensures multiset(r) == multiset(s)[id := 0]
    ensures forall x :: x in r <==> x in s && x != id
  {
    if s == [] then []
    else
      var t := Remove(s[1..], id);
      assert s == [s[0]] + s[1..];
      if s[0] == id then t else [s[0]] + t
  }

  /** `toggleModel` as written: a present id is removed unless the
      selection has length one, an absent id is appended. */
  function ToggleAsWritten(prev: seq<string>, id: string): (r: seq<string>)
    ensures id !in prev ==> r == prev + [id]
    ensures id in prev ==> (if |prev| == 1 then r == prev else r == Remove(prev, id))
  {
    if id in prev then (if |prev| == 1 then prev else Remove(prev, id))
    else prev + [id]
  }

  /** A selection may repeat an id, since the URL's list is taken with its
      repeats (`?models=gpt-5,gpt-5`); toggling that id then empties the
      selection. */
  lemma ToggleAsWrittenEmpties(id: string)
    requires id in Allowlist
    ensures ValidModels(id + "," + id) == [id, id]
    ensures ToggleAsWritten(ValidModels(id + "," + id), id) == []
  {
    AllowlistIdChars();
    assert IdChars(id);
    assert forall i :: 0 <= i < |[id, id]| ==> ',' !in [id, id][i];
    Text.SplitJoin([id, id], ',');
    Text.JoinCons(id, [id], [',']);
    assert [id] + [id] == [id, id];
    assert Text.Join([id], [',']) == id;
    assert Text.Join([id, id], [',']) == id + "," + id;
    KeepAllowedAll([id, id]);
    RemoveOnly([id, id], id);
  }

  /** `toggleModel` as meant, keeping at least one model: the id is
      removed unless nothing would be left. */
  function Toggle(prev: seq<string>, id: string): (r: seq<string>)
    ensures r != []
    ensures id !in prev ==> r == prev + [id]
    ensures id in prev ==> (r == prev || (id !in r && r == Remove(prev, id)))
    ensures id in prev && r == prev ==> forall x :: x in prev ==> x == id
  {
    if id in prev then
      var rest := Remove(prev, id);
      if rest == [] then prev else rest
    else prev + [id]
  }

  /** The two agree except on a selection of two or more copies of the
      toggled id alone. */
  lemma ToggleAgrees(prev: seq<string>, id: string)
    ensures ToggleAsWritten(prev, id) == Toggle(prev, id)
      <==> !(|prev| >= 2 && forall x :: x in prev ==> x == id)
  {
    if id in prev {
      var rest := Remove(prev, id);
      if rest != [] {
        assert rest[0] in rest;
      }
      if |prev| == 1 {
        assert prev == [prev[0]] && prev[0] in prev;
      } else if forall x :: x in prev ==> x == id {
      } else {
        var x :| x in prev && x != id;
        assert x in Remove(prev, id);
      }
    } else if |prev| >= 2 {
      assert prev[0] in prev;
    }
  }

  /** Toggling an absent id twice gives the selection back. */
  lemma ToggleTwice(prev: seq<string>, id: string)
    requires prev != [] && id !in prev
    ensures Toggle(Toggle(prev, id), id) == prev
  {
    var s := prev + [id];
    RemoveAppend(prev, [id], id);
    RemoveAbsent(prev, id);
    assert Remove([id], id) == [] by { assert [id][1..] == []; }
    assert Remove(s, id) == prev;
  }

  lemma {:induction false} RemoveAppend(s: seq<string>, t: seq<string>, id: string)
    ensures Remove(s + t, id) == Remove(s, id) + Remove(t, id)
    decreases |s|
  {
    if s != [] {
      assert (s + t)[1..] == s[1..] + t;
      RemoveAppend(s[1..], t, id);
    } else {
      assert s + t == t;
    }
  }

  lemma {:induction false} RemoveOnly(s: seq<string>, id: string)
    requires forall x :: x in s ==> x == id
    ensures Remove(s, id) == []
    decreases |s|
  {
    if s != [] {
      assert s[0] in s;
      assert forall x :: x in s[1..] ==> x in s;
      RemoveOnly(s[1..], id);
    }
  }

  lemma {:induction false} RemoveAbsent(s: seq<string>, id: string)
    requires id !in s
    ensures Remove(s, id) == s
    decreases |s|
  {
    if s != [] {
      assert forall x :: x in s[1..] ==> x in s;
      RemoveAbsent(s[1..], id);
    }
  }

  /** The ids of the UI's models, in order. */
  function UiIds(ms: seq<ModelInfo>): (r: seq<string>)
    ensures |r| == |ms| && forall i :: 0 <= i < |ms| ==> r[i] == ms[i].id
  {
    if ms == [] then [] else [ms[0].id] + UiIds(ms[1..])
  }

  /** "All" selects every registered model, in registry order. */
  lemma SelectAllIsRegistry()
    ensures UiIds(UiModels) == ModelsConfig.Ids(ModelsConfig.Models)
  {
    UiModelIdsAreRegistryIds();
  }

  // ---------------------------------------------------------------------
  // The URL

  /** The query `updateUrl` builds: `models` and `view`, then `tab` in tabs
      mode only. */
  function QueryParams(models: seq<string>, mode: View, tab: string): (ps: seq<UrlQuery.Param>)
    ensures UrlQuery.Get(ps, "models") == Some(Text.Join(models, [',']))
    ensures UrlQuery.Get(ps, "view") == Some(ViewName(mode))
    ensures UrlQuery.Get(ps, "tab") == (if mode == Tabs then Some(tab) else None)
  {
    var m, v, t := UrlQuery.Param("models", Text.Join(models, [','])), UrlQuery.Param("view", ViewName(mode)),
                   UrlQuery.Param("tab", tab);
    var rest := if mode == Tabs then [t] else [];
    UrlQuery.GetCons(m, [v] + rest, "view");
    UrlQuery.GetCons(m, [v] + rest, "tab");
    UrlQuery.GetCons(v, rest, "tab");
    UrlQuery.GetCons(m, [v] + rest, "models");
    if mode == Tabs then UrlQuery.GetCons(t, [], "tab"); [m] + ([v] + rest) else [m] + ([v] + rest)
  }

  /** `updateUrl`: nothing while closed, otherwise `/compare/<app>?<query>`. */
  function UpdateUrl(isOpen: bool, appId: string, models: seq<string>, mode: View, tab: string): (url: Option<string>)
    ensures url.None? <==> !isOpen
    ensures url.Some? ==> Text.StartsWith(url.value, ComparePrefix + appId + "?")
  {
    if !isOpen then None
    else
      var url := ComparePrefix + appId + "?" + UrlQuery.Serialize(QueryParams(models, mode, tab));
      assert url[..|ComparePrefix + appId + "?"|] == ComparePrefix + appId + "?";
      Some(url)
  }

  /** How the browser splits an address into `pathname` and `search`: at
      the first `?`, which starts the search. */
  function Location(url: string): (loc: (string, string))
    ensures loc.0 + loc.1 == url
    ensures loc.1 == [] || loc.1[0] == '?'
  {
    var k := Text.IndexOf(url, "?");
    if k == -1 then (url, [])
    else
      assert url[k..k + 1] == "?";
      assert url[..k] + url[k..] == url;
      (url[..k], url[k..])
  }

  predicate IdChars(s: string) {
    forall i :: 0 <= i < |s| ==> s[i] as int < 0x80 && s[i] != ','
  }

  lemma {:induction false} JoinAscii(parts: seq<string>)
    requires forall i :: 0 <= i < |parts| ==> IdChars(parts[i])
    ensures UrlQuery.Ascii(Text.Join(parts, ","))
    decreases |parts|
  {
    if |parts| >= 2 {
      JoinAscii(parts[1..]);
      var t := Text.Join(parts[1..], ",");
      assert Text.Join(parts, ",") == parts[0] + "," + t;
      assert IdChars(parts[0]);
    } else if |parts| == 1 {
      assert IdChars(parts[0]);
    }
  }

  lemma {:induction false} KeepAllowedAll(items: seq<string>)
    requires forall x :: x in items ==> x in Allowlist
    ensures KeepAllowed(items) == items
    decreases |items|
  {
    if items != [] {
      assert items[0] in items;
      assert forall x :: x in items[1..] ==> x in items;
      KeepAllowedAll(items[1..]);
    }
  }

  lemma NoCommas(models: seq<string>)
    requires forall i :: 0 <= i < |models| ==> IdChars(models[i])
    ensures forall i :: 0 <= i < |models| ==> ',' !in models[i]
  {
    forall i | 0 <= i < |models| ensures ',' !in models[i] {
      assert IdChars(models[i]);
    }
  }

  /** A `models` value read back as the allowed ids of its pieces. */
  lemma ReadBackPieces(st: seq<string>, v: string, pieces: seq<string>)
    requires Text.Split(v, ',') == pieces
    ensures NewModels(st, Some(v)) == (if KeepAllowed(pieces) == [] then st else KeepAllowed(pieces))
  {
    if v == "" {
      assert pieces == [[]];
      assert KeepAllowed([[]]) == [];
    }
  }

  /** The `models` value reads back as the allowed ids of the selection. */
  lemma ModelsReadBack(st: seq<string>, models: seq<string>)
    requires forall i :: 0 <= i < |models| ==> IdChars(models[i])
    ensures NewModels(st, Some(Text.Join(models, [',']))) == (if KeepAllowed(models) == [] then st else KeepAllowed(models))
  {
    if models == [] {
      assert Text.Join(models, [',']) == "";
      assert NewModels(st, Some("")) == st;
    } else {
      NoCommas(models);
      Text.SplitJoin(models, ',');
      ReadBackPieces(st, Text.Join(models, [',']), models);
    }
  }

  /** The browser finds the path before the first `?`. */
  lemma LocationOf(path: string, q: string)
    requires '?' !in path
    ensures Location(path + "?" + q) == (path, "?" + q)
  {
    Text.FirstSeparator(path, q, '?');
    var url := path + "?" + q;
    assert url[..|path|] == path && url[|path|..] == "?" + q;
  }

  lemma ComparePathFree(id: string)
    requires '?' !in id
    ensures '?' !in ComparePrefix + id
  {
    var path := ComparePrefix + id;
    forall i | 0 <= i < |path| ensures path[i] != '?' {
      if i >= |ComparePrefix| { assert path[i] == id[i - |ComparePrefix|]; }
    }
  }

  lemma NamesAscii(mode: View)
    ensures UrlQuery.Ascii("models") && UrlQuery.Ascii("view") && UrlQuery.Ascii("tab")
    ensures UrlQuery.Ascii(ViewName(mode))
  {
  }

  /** The query reads back as the parameters it was built from. */
  lemma QueryParsed(models: seq<string>, mode: View, tab: string)
    requires forall i :: 0 <= i < |models| ==> IdChars(models[i])
    requires UrlQuery.Ascii(tab)
    ensures UrlQuery.Parse("?" + UrlQuery.Serialize(QueryParams(models, mode, tab))) == QueryParams(models, mode, tab)
  {
    JoinAscii(models);
    var ps := QueryParams(models, mode, tab);
    NamesAscii(mode);
    var m, v, t := UrlQuery.Param("models", Text.Join(models, [','])), UrlQuery.Param("view", ViewName(mode)),
                   UrlQuery.Param("tab", tab);
    assert ps == [m, v] + (if mode == Tabs then [t] else []);
    assert UrlQuery.AsciiParams(ps) by {
      forall i | 0 <= i < |ps| ensures UrlQuery.Ascii(ps[i].name) && UrlQuery.Ascii(ps[i].value) {
        if i == 0 { assert ps[i] == m; } else if i == 1 { assert ps[i] == v; } else { assert ps[i] == t; }
      }
    }
    UrlQuery.ParseSerialize(ps);
  }

  /** Reading the parameters sets each cell from its own parameter. */
  lemma QueryApplied(st: Routing, app: CodeExample, models: seq<string>, mode: View, tab: string)
    requires forall i :: 0 <= i < |models| ==> IdChars(models[i])
    ensures ApplyQuery(st, app, QueryParams(models, mode, tab))
      == Routing(Some(app),
                 if KeepAllowed(models) == [] then st.initialModels else KeepAllowed(models),
                 mode,
                 if mode == Tabs && tab != "" && tab in Allowlist then tab else st.initialTab)
  {
    var ps := QueryParams(models, mode, tab);
    ModelsReadBack(st.initialModels, models);
    assert NewView(st.initialView, Some(ViewName(mode))) == mode;
    assert NewTab(st.initialTab, UrlQuery.Get(ps, "tab"))
      == if mode == Tabs && tab != "" && tab in Allowlist then tab else st.initialTab;
  }

  /** Reloading the address `updateUrl` wrote opens the same app with the
      allowed ids of the selection (or the previous list when none is
      allowed), the same view mode and, in tabs mode, the same tab when it
      is allowed. */
  lemma ReloadRestores(st: Routing, app: CodeExample, apps: seq<CodeExample>,
                       models: seq<string>, mode: View, tab: string)
    requires UrlSafeId(app.id)
    requires FindApp(apps, app.id) == Some(app)
    requires forall i :: 0 <= i < |models| ==> IdChars(models[i])
    requires UrlQuery.Ascii(tab)
    ensures var loc := Location(UpdateUrl(true, app.id, models, mode, tab).value);
      Parsed(st, loc.0, loc.1, apps)
        == Routing(Some(app),
                   if KeepAllowed(models) == [] then st.initialModels else KeepAllowed(models),
                   mode,
                   if mode == Tabs && tab != "" && tab in Allowlist then tab else st.initialTab)
  {
    var ps := QueryParams(models, mode, tab);
    var q := UrlQuery.Serialize(ps);
    var path := ComparePrefix + app.id;
    UrlSafeIdFree(app.id);
    ComparePathFree(app.id);
    LocationOf(path, q);
    CompareSegmentOf(app.id, "");
    assert path + "" == path;
    PathSelects(st, path, "?" + q, apps, app);
    QueryParsed(models, mode, tab);
    QueryApplied(st, app, models, mode, tab);
  }

  /** A selection of allowed models is restored exactly. */
  lemma ReloadRestoresSelection(st: Routing, app: CodeExample, apps: seq<CodeExample>,
                                models: seq<string>, mode: View, tab: string)
    requires UrlSafeId(app.id)
    requires FindApp(apps, app.id) == Some(app)
    requires models != [] && forall m :: m in models ==> m in Allowlist
    requires tab in Allowlist
    ensures var loc := Location(UpdateUrl(true, app.id, models, mode, tab).value);
      Parsed(st, loc.0, loc.1, apps) == Routing(Some(app), models, mode, if mode == Tabs then tab else st.initialTab)
  {
    AllowlistIdChars();
    assert forall i :: 0 <= i < |models| ==> IdChars(models[i]) by {
      forall i | 0 <= i < |models| ensures IdChars(models[i]) { assert models[i] in models; }
    }
    KeepAllowedAll(models);
    ReloadRestores(st, app, apps, models, mode, tab);
  }

  lemma AllowlistIdChars()
    ensures forall m :: m in Allowlist ==> IdChars(m) && m != ""
  {
  }

  lemma {:induction false} KeepAllowedAppend(a: seq<string>, b: seq<string>)
    ensures KeepAllowed(a + b) == KeepAllowed(a) + KeepAllowed(b)
    decreases |a|
  {
    if a != [] {
      assert (a + b)[1..] == a[1..] + b;
      KeepAllowedAppend(a[1..], b);
    } else {
      assert a + b == b;
    }
  }

  /** Two registered models may not be named in a URL. */
  lemma AllowlistOmits()
    ensures "gpt-5.2" !in Allowlist && "gemini-3-flash" !in Allowlist
  {
  }

  /** "All" selects eight models. */
  lemma SelectAllCount()
    ensures |UiIds(UiModels)| == 8
  {
    UiModelIdsAreRegistryIds();
    assert |ModelsConfig.Models| == 8;
  }

  /** Choosing "All" and sharing the link: the link reopens with the
      allowed ids only. */
  lemma SelectAllAllowed()
    ensures forall x :: x in KeepAllowed(UiIds(UiModels)) <==> x in Allowlist
  {
    SelectAllIsRegistry();
    AllowlistRegistered();
  }

  /** ... which leaves out two of them (see `AllowlistOmits`). */
  lemma SelectAllUnlisted()
    ensures "gpt-5.2" in UiIds(UiModels) && "gemini-3-flash" in UiIds(UiModels)
  {
    UiModelIdsAreRegistryIds();
    assert UiIds(UiModels)[2] == UiModels[2].id == ModelsConfig.Models[2].id == "gpt-5.2";
    assert UiIds(UiModels)[7] == UiModels[7].id == ModelsConfig.Models[7].id == "gemini-3-flash";
  }

  // ---------------------------------------------------------------------
  // The frames

  /** Two models without `/` in their ids never share a frame source. */
  lemma FrameSourceInjective(m1: string, m2: string, appId: string)
    requires '/' !in m1 && '/' !in m2
    ensures "/" + m1 + "/" + appId == "/" + m2 + "/" + appId <==> m1 == m2
  {
    if "/" + m1 + "/" + appId == "/" + m2 + "/" + appId {
      var s := "/" + m1 + "/" + appId;
      assert s[1..] == m1 + "/" + appId && s[1..] == m2 + "/" + appId;
      assert m1 + ['/'] + appId == m2 + ['/'] + appId;
      Text.SeparatedPrefix(m1, appId, m2, appId, '/');
    }
  }

  /** Side by side, slash-free models share a frame source only when they
      are the same model. */
  lemma FramesDistinct(models: seq<string>, appId: string)
    ensures (forall i :: 0 <= i < |models| ==> '/' !in models[i]) ==>
      forall i, j :: 0 <= i < |models| && 0 <= j < |models| ==>
        ("/" + models[i] + "/" + appId == "/" + models[j] + "/" + appId <==> models[i] == models[j])
  {
    if forall i :: 0 <= i < |models| ==> '/' !in models[i] {
      forall i, j | 0 <= i < |models| && 0 <= j < |models|
        ensures "/" + models[i] + "/" + appId == "/" + models[j] + "/" + appId <==> models[i] == models[j]
      {
        FrameSourceInjective(models[i], models[j], appId);
      }
    }
  }

  /** The iframe sources: one per selected model side by side, the active
      tab's alone in tabs mode. */
  function Frames(mode: View, models: seq<string>, tab: string, appId: string): (srcs: seq<string>)
    ensures mode == Tabs ==> |srcs| == 1
    ensures mode == SideBySide ==> |srcs| == |models|
    ensures mode == SideBySide && (forall i :: 0 <= i < |models| ==> '/' !in models[i]) ==>
      forall i, j :: 0 <= i < |models| && 0 <= j < |models| ==> (srcs[i] == srcs[j] <==> models[i] == models[j])
  {
    if mode == Tabs then ["/" + tab + "/" + appId]
    else
      FramesDistinct(models, appId);
      seq(|models|, i requires 0 <= i < |models| => "/" + models[i] + "/" + appId)
  }

  // ---------------------------------------------------------------------

  /** The component's state cells and the props it reads. */
  class Comparison {
    const app: CodeExample
    var isOpen: bool
    var selectedModels: seq<string>
    var viewMode: View
    var activeTab: string

    /** Every selected id names a model of the registry, so looking it up
        for its label never fails, and at least one is selected. */
    predicate Valid()
      reads this
    {
      selectedModels != [] && forall m :: m in selectedModels ==> m in UiIds(UiModels)
    }

    /** The address bar after the latest state change. */
    function Url(): Option<string>
      reads this
    {
      UpdateUrl(isOpen, app.id, selectedModels, viewMode, activeTab)
    }

    constructor (app: CodeExample, isOpen: bool, initialModels: seq<string>, initialView: View, initialTab: string)
      ensures this.app == app && this.isOpen == isOpen
      ensures selectedModels == initialModels && viewMode == initialView && activeTab == initialTab
      ensures initialModels != [] && (forall m :: m in initialModels ==> m in UiIds(UiModels)) ==> Valid()
    {
      this.app := app;
      this.isOpen := isOpen;
      selectedModels := initialModels;
      viewMode := initialView;
      activeTab := initialTab;
    }

    /** The props effect: new initial values from the router replace the
        cells. */
    method SyncProps(initialModels: seq<string>, initialView: View, initialTab: string)
      modifies this
      ensures selectedModels == initialModels && viewMode == initialView && activeTab == initialTab
      ensures isOpen == old(isOpen)
      ensures initialModels != [] && (forall m :: m in initialModels ==> m in UiIds(UiModels)) ==> Valid()
    {
      selectedModels := initialModels;
      viewMode := initialView;
      activeTab := initialTab;
    }

    /** `toggleModel`, keeping at least one model. */
    method ToggleModel(id: string)
      modifies this
      ensures selectedModels == Toggle(old(selectedModels), id)
      ensures viewMode == old(viewMode) && activeTab == old(activeTab) && isOpen == old(isOpen)
      ensures old(Valid()) && id in UiIds(UiModels) ==> Valid()
    {
      var prev := selectedModels;
      if id in prev {
        var rest := Remove(prev, id);
        if rest != [] {
          selectedModels := rest;
        }
      } else {
        selectedModels := prev + [id];
      }
    }

    /** `selectAll`. */
    method SelectAll()
      modifies this
      ensures selectedModels == UiIds(UiModels)
      ensures viewMode == old(viewMode) && activeTab == old(activeTab) && isOpen == old(isOpen)
      ensures Valid()
    {
      SelectAllCount();
      selectedModels := UiIds(UiModels);
    }

    method SetViewMode(mode: View)
      modifies this
      ensures viewMode == mode
      ensures selectedModels == old(selectedModels) && activeTab == old(activeTab) && isOpen == old(isOpen)
    {
      viewMode := mode;
    }

    /** A model button: in tabs mode it picks the tab, side by side it
        toggles the model. */
    method PickModel(id: string)
      modifies this
      ensures old(viewMode) == Tabs ==> activeTab == id && selectedModels == old(selectedModels)
      ensures old(viewMode) == SideBySide ==> (selectedModels == Toggle(old(selectedModels), id)
                                               && activeTab == old(activeTab))
      ensures viewMode == old(viewMode) && isOpen == old(isOpen)
      ensures old(Valid()) && id in UiIds(UiModels) ==> Valid()
    {
      if viewMode == Tabs {
        activeTab := id;
      } else {
        ToggleModel(id);
      }
    }
  }
}
