/** `scripts/fix-nextjs-comprehensive.mjs`: rewrite the absolute asset
    paths of two exported apps so that they live under `/gpt-5/<app>/`. */
module FixComprehensive {
  import opened Fs
  import Text
  import opened Rewrite

  /** The replacement table of `fixNextJsApp(appDir, appName)`, in order. */
  function Table(app: string): (t: seq<Replacement>)
    ensures |t| == 11 && Searchable(t) && QuotedPaths(t)
  {
    [ Replacement("\"/" + app + "/_next/", "\"/gpt-5/" + app + "/_next/"),
      Replacement("'/" + app + "/_next/", "'/gpt-5/" + app + "/_next/"),
      Replacement("`/" + app + "/_next/", "`/gpt-5/" + app + "/_next/"),
      Replacement("\"/" + app + "/", "\"/gpt-5/" + app + "/"),
      Replacement("'/" + app + "/", "'/gpt-5/" + app + "/"),
      Replacement("`/" + app + "/", "`/gpt-5/" + app + "/"),
      Replacement("\"/favicon.ico\"", "\"/gpt-5/" + app + "/favicon.ico\""),
      Replacement("'/favicon.ico'", "'/gpt-5/" + app + "/favicon.ico'"),
      Replacement("\"/gpt-5/_next/", "\"/gpt-5/" + app + "/_next/"),
      Replacement("'/gpt-5/_next/", "'/gpt-5/" + app + "/_next/'"),
      Replacement("`/gpt-5/_next/", "`/gpt-5/" + app + "/_next/") ]
  }

  /** The entries opening with another quote miss `"/gpt-5/<app>/_next/`
      followed by inert text. */
  lemma OtherQuotesMiss(app: string, t: string)
    requires AppName(app) && Inert(t)
    ensures forall i :: 0 < i < 11 && i != 3 && i != 6 && i != 8 ==>
      !Text.Occurs("\"/gpt-5/" + app + "/_next/" + t, Table(app)[i].search)
  {
    var table := Table(app);
    var x := "\"/gpt-5/" + app + "/_next/";
    QuoteFreeApp("\"/gpt-5/", app, "/_next/");
    OtherQuoteAbsent(x, t, table[1].search);
    OtherQuoteAbsent(x, t, table[2].search);
    OtherQuoteAbsent(x, t, table[4].search);
    OtherQuoteAbsent(x, t, table[5].search);
    OtherQuoteAbsent(x, t, table[7].search);
    OtherQuoteAbsent(x, t, table[9].search);
    OtherQuoteAbsent(x, t, table[10].search);
  }

  /** Neither the general `"/<app>/` entry, nor the favicon entry, nor the
      `"/gpt-5/_next/` entry finds `"/gpt-5/<app>/_next/` again. */
  lemma SameQuoteMiss(app: string, t: string)
    requires AppName(app) && Inert(t)
    ensures forall i :: i == 3 || i == 6 || i == 8 ==>
      !Text.Occurs("\"/gpt-5/" + app + "/_next/" + t, Table(app)[i].search)
  {
    var table := Table(app);
    var x := "\"/gpt-5/" + app + "/_next/";
    var d := x + t;
    QuoteFreeApp("\"/gpt-5/", app, "/_next/");
    NoSecondPrefix(app, t);
    MismatchAt(d, table[6].search, 2);
    NoQuotedOccurrence(x, t, table[3].search);
    NoQuotedOccurrence(x, t, table[6].search);
    NoQuotedOccurrence(x, t, table[8].search);
  }

  /** `"/<app>/_next/` gets the `/gpt-5` prefix once: the later general
      `"/<app>/` entry does not find it again. */
  lemma NextPathPrefixedOnce(app: string, t: string)
    requires AppName(app) && Inert(t)
    ensures ApplyTable("\"/" + app + "/_next/" + t, Table(app)) == "\"/gpt-5/" + app + "/_next/" + t
  {
    var table := Table(app);
    InertFree(t, table[0].search);
    Text.ReplaceAllAbsent(t, table[0].search, table[0].replace);
    Text.ReplaceAllFront(table[0].search, t, table[0].replace);
    OtherQuotesMiss(app, t);
    SameQuoteMiss(app, t);
    ApplyTableOnlyStep(table[0].search + t, table, 0, table[0].replace + t);
  }

  /** The entries ahead of the `"/gpt-5/_next/` entry miss a bare
      `"/gpt-5/_next/` followed by inert text. */
  lemma BareNextMiss(app: string, t: string)
    requires AppName(app) && Inert(t)
    ensures forall i :: 0 <= i < 8 ==> !Text.Occurs("\"/gpt-5/_next/" + t, Table(app)[i].search)
  {
    BareNextSameQuoteMiss(app, t);
    BareNextOtherQuoteMiss(app, t);
  }

  lemma BareNextSameQuoteMiss(app: string, t: string)
    requires AppName(app) && Inert(t)
    ensures forall i :: i in {0, 3, 6} ==> !Text.Occurs("\"/gpt-5/_next/" + t, Table(app)[i].search)
  {
    var table := Table(app);
    var x := "\"/gpt-5/_next/";
    BareNotApp(app, t);
    MismatchAt(x + t, table[6].search, 2);
    NoQuotedOccurrence(x, t, table[0].search);
    NoQuotedOccurrence(x, t, table[3].search);
    NoQuotedOccurrence(x, t, table[6].search);
  }

  lemma BareNextOtherQuoteMiss(app: string, t: string)
    requires AppName(app) && Inert(t)
    ensures forall i :: i in {1, 2, 4, 5, 7} ==> !Text.Occurs("\"/gpt-5/_next/" + t, Table(app)[i].search)
  {
    var table := Table(app);
    var x := "\"/gpt-5/_next/";
    OtherQuoteAbsent(x, t, table[1].search);
    OtherQuoteAbsent(x, t, table[2].search);
    OtherQuoteAbsent(x, t, table[4].search);
    OtherQuoteAbsent(x, t, table[5].search);
    OtherQuoteAbsent(x, t, table[7].search);
  }

  /** A pre-existing `"/gpt-5/_next/` gains the app name. */
  lemma BareNextGetsApp(app: string, t: string)
    requires AppName(app) && Inert(t)
    ensures ApplyTable("\"/gpt-5/_next/" + t, Table(app)) == "\"/gpt-5/" + app + "/_next/" + t
  {
    var table := Table(app);
    InertFree(t, table[8].search);
    Text.ReplaceAllAbsent(t, table[8].search, table[8].replace);
    Text.ReplaceAllFront(table[8].search, t, table[8].replace);
    BareNextMiss(app, t);
    OtherQuotesMiss(app, t);
    ApplyTableOnlyStep(table[8].search + t, table, 8, table[8].replace + t);
  }

  /** The entries ahead of the `'/gpt-5/_next/` entry miss a bare
      `'/gpt-5/_next/` followed by inert text. */
  lemma BareSingleMiss(app: string, t: string)
    requires AppName(app) && Inert(t)
    ensures forall i :: 0 <= i < 9 ==> !Text.Occurs("'/gpt-5/_next/" + t, Table(app)[i].search)
  {
    BareSingleSameQuoteMiss(app, t);
    BareSingleOtherQuoteMiss(app, t);
  }

  lemma BareSingleSameQuoteMiss(app: string, t: string)
    requires AppName(app) && Inert(t)
    ensures forall i :: i in {1, 4, 7} ==> !Text.Occurs("'/gpt-5/_next/" + t, Table(app)[i].search)
  {
    var table := Table(app);
    var x := "'/gpt-5/_next/";
    BareSingleNotApp(app, t);
    MismatchAt(x + t, table[7].search, 2);
    NoQuotedOccurrence(x, t, table[1].search);
    NoQuotedOccurrence(x, t, table[4].search);
    NoQuotedOccurrence(x, t, table[7].search);
  }

  lemma BareSingleOtherQuoteMiss(app: string, t: string)
    requires AppName(app) && Inert(t)
    ensures forall i :: i in {0, 2, 3, 5, 6, 8} ==> !Text.Occurs("'/gpt-5/_next/" + t, Table(app)[i].search)
  {
    var table := Table(app);
    var x := "'/gpt-5/_next/";
    OtherQuoteAbsent(x, t, table[0].search);
    OtherQuoteAbsent(x, t, table[2].search);
    OtherQuoteAbsent(x, t, table[3].search);
    OtherQuoteAbsent(x, t, table[5].search);
    OtherQuoteAbsent(x, t, table[6].search);
    OtherQuoteAbsent(x, t, table[8].search);
  }

  /** The single-quoted form of the same entry closes the quote once more:
      `'/gpt-5/_next/` becomes `'/gpt-5/<app>/_next/'`, a stray `'` before
      whatever followed. */
  lemma StrayQuote(app: string, t: string)
    requires AppName(app) && Inert("'" + t)
    ensures ApplyTable("'/gpt-5/_next/" + t, Table(app)) == "'/gpt-5/" + app + "/_next/'" + t
  {
    var table := Table(app);
    InertTail('\'', t);
    BareSingleMiss(app, t);
    StrayStep(app, t);
    StrayAfter(app, t);
    ApplyTableOnlyStep("'/gpt-5/_next/" + t, table, 9, "'/gpt-5/" + app + "/_next/'" + t);
  }

  /** The entry itself. */
  lemma StrayStep(app: string, t: string)
    requires AppName(app) && Inert(t)
    ensures Step("'/gpt-5/_next/" + t, Table(app)[9]) == "'/gpt-5/" + app + "/_next/'" + t
  {
    var e := Replacement("'/gpt-5/_next/", "'/gpt-5/" + app + "/_next/'");
    assert Table(app)[9] == e;
    InertFree(t, e.search);
    Text.ReplaceAllAbsent(t, e.search, e.replace);
    Text.ReplaceAllFront(e.search, t, e.replace);
  }

  /** The last entry, with its backquote, misses the result. */
  lemma StrayAfter(app: string, t: string)
    requires AppName(app) && Inert("'" + t)
    ensures !Text.Occurs("'/gpt-5/" + app + "/_next/'" + t, Table(app)[10].search)
  {
    var x := "'/gpt-5/" + app + "/_next/";
    QuoteFreeApp("'/gpt-5/", app, "/_next/");
    assert "'/gpt-5/" + app + "/_next/'" + t == x + ("'" + t);
    OtherQuoteAbsent(x, "'" + t, Table(app)[10].search);
  }

  // ---------------------------------------------------------------------
  // The other `_next` entries

  /** `'/<app>/_next/` gets the `/gpt-5` prefix once, and no stray quote. */
  lemma SingleNextPrefixedOnce(app: string, t: string)
    requires AppName(app) && Inert(t)
    ensures ApplyTable("'/" + app + "/_next/" + t, Table(app)) == "'/gpt-5/" + app + "/_next/" + t
  {
    var table := Table(app);
    InertFree(t, table[1].search);
    Text.ReplaceAllAbsent(t, table[1].search, table[1].replace);
    Text.ReplaceAllFront(table[1].search, t, table[1].replace);
    QuoteFreeApp("'/", app, "/_next/");
    OtherQuoteAbsent("'/" + app + "/_next/", t, table[0].search);
    SingleNextSameQuoteMiss(app, t);
    SingleNextOtherQuoteMiss(app, t);
    ApplyTableOnlyStep(table[1].search + t, table, 1, table[1].replace + t);
  }

  /** The later single-quoted entries miss `'/gpt-5/<app>/_next/`. */
  lemma SingleNextSameQuoteMiss(app: string, t: string)
    requires AppName(app) && Inert(t)
    ensures forall i :: i in {4, 7, 9} ==>
      !Text.Occurs("'/gpt-5/" + app + "/_next/" + t, Table(app)[i].search)
  {
    var table := Table(app);
    var x := "'/gpt-5/" + app + "/_next/";
    QuoteFreeApp("'/gpt-5/", app, "/_next/");
    NoSecondPrefixSingle(app, t);
    MismatchAt(x + t, table[7].search, 2);
    NoQuotedOccurrence(x, t, table[4].search);
    NoQuotedOccurrence(x, t, table[7].search);
    NoQuotedOccurrence(x, t, table[9].search);
  }

  lemma SingleNextOtherQuoteMiss(app: string, t: string)
    requires AppName(app) && Inert(t)
    ensures forall i :: i in {2, 3, 5, 6, 8, 10} ==>
      !Text.Occurs("'/gpt-5/" + app + "/_next/" + t, Table(app)[i].search)
  {
    var table := Table(app);
    var x := "'/gpt-5/" + app + "/_next/";
    QuoteFreeApp("'/gpt-5/", app, "/_next/");
    OtherQuoteAbsent(x, t, table[2].search);
    OtherQuoteAbsent(x, t, table[3].search);
    OtherQuoteAbsent(x, t, table[5].search);
    OtherQuoteAbsent(x, t, table[6].search);
    OtherQuoteAbsent(x, t, table[8].search);
    OtherQuoteAbsent(x, t, table[10].search);
  }

  /** So does the backquoted `` `/<app>/_next/ ``. */
  lemma BackNextPrefixedOnce(app: string, t: string)
    requires AppName(app) && Inert(t)
    ensures ApplyTable("`/" + app + "/_next/" + t, Table(app)) == "`/gpt-5/" + app + "/_next/" + t
  {
    var table := Table(app);
    InertFree(t, table[2].search);
    Text.ReplaceAllAbsent(t, table[2].search, table[2].replace);
    Text.ReplaceAllFront(table[2].search, t, table[2].replace);
    QuoteFreeApp("`/", app, "/_next/");
    OtherQuoteAbsent("`/" + app + "/_next/", t, table[0].search);
    OtherQuoteAbsent("`/" + app + "/_next/", t, table[1].search);
    BackNextMissAfter(app, t);
    ApplyTableOnlyStep(table[2].search + t, table, 2, table[2].replace + t);
  }

  /** The entries after the backquoted `_next` entry miss
      `` `/gpt-5/<app>/_next/ ``. */
  lemma BackNextMissAfter(app: string, t: string)
    requires AppName(app) && Inert(t)
    ensures forall i :: 3 <= i < 11 ==>
      !Text.Occurs("`/gpt-5/" + app + "/_next/" + t, Table(app)[i].search)
  {
    var table := Table(app);
    var x := "`/gpt-5/" + app + "/_next/";
    QuoteFreeApp("`/gpt-5/", app, "/_next/");
    NoSecondPrefixBack(app, t);
    NoQuotedOccurrence(x, t, table[5].search);
    NoQuotedOccurrence(x, t, table[10].search);
    OtherQuoteAbsent(x, t, table[3].search);
    OtherQuoteAbsent(x, t, table[4].search);
    OtherQuoteAbsent(x, t, table[6].search);
    OtherQuoteAbsent(x, t, table[7].search);
    OtherQuoteAbsent(x, t, table[8].search);
    OtherQuoteAbsent(x, t, table[9].search);
  }

  /** A bare `` `/gpt-5/_next/ `` gains the app name, the last entry being
      the only one that finds it. */
  lemma BareBackGetsApp(app: string, t: string)
    requires AppName(app) && Inert(t)
    ensures ApplyTable("`/gpt-5/_next/" + t, Table(app)) == "`/gpt-5/" + app + "/_next/" + t
  {
    var table := Table(app);
    InertFree(t, table[10].search);
    Text.ReplaceAllAbsent(t, table[10].search, table[10].replace);
    Text.ReplaceAllFront(table[10].search, t, table[10].replace);
    BareBackSameQuoteMiss(app, t);
    BareBackOtherQuoteMiss(app, t);
    ApplyTableOnlyStep(table[10].search + t, table, 10, table[10].replace + t);
  }

  lemma BareBackSameQuoteMiss(app: string, t: string)
    requires AppName(app) && Inert(t)
    ensures forall i :: i in {2, 5} ==> !Text.Occurs("`/gpt-5/_next/" + t, Table(app)[i].search)
  {
    var table := Table(app);
    var x := "`/gpt-5/_next/";
    BareBackNotApp(app, t);
    NoQuotedOccurrence(x, t, table[2].search);
    NoQuotedOccurrence(x, t, table[5].search);
  }

  lemma BareBackOtherQuoteMiss(app: string, t: string)
    requires AppName(app) && Inert(t)
    ensures forall i :: i in {0, 1, 3, 4, 6, 7, 8, 9} ==> !Text.Occurs("`/gpt-5/_next/" + t, Table(app)[i].search)
  {
    var table := Table(app);
    var x := "`/gpt-5/_next/";
    OtherQuoteAbsent(x, t, table[0].search);
    OtherQuoteAbsent(x, t, table[1].search);
    OtherQuoteAbsent(x, t, table[3].search);
    OtherQuoteAbsent(x, t, table[4].search);
    OtherQuoteAbsent(x, t, table[6].search);
    OtherQuoteAbsent(x, t, table[7].search);
    OtherQuoteAbsent(x, t, table[8].search);
    OtherQuoteAbsent(x, t, table[9].search);
  }

  // ---------------------------------------------------------------------
  // Root references that do not go on with `_next/` (the first three
  // entries take those)

  lemma AppRootEarlyMiss(app: string, t: string)
    requires AppName(app) && Inert(t) && !Text.StartsWith(t, "_next/")
    ensures forall i :: 0 <= i < 3 ==> !Text.Occurs("\"/" + app + "/" + t, Table(app)[i].search)
  {
    var table := Table(app);
    var x := "\"/" + app + "/";
    QuoteFreeApp("\"/", app, "/");
    assert table[0].search == x + "_next/";
    PrefixCancel(x, t, "_next/");
    NoQuotedOccurrence(x, t, table[0].search);
    OtherQuoteAbsent(x, t, table[1].search);
    OtherQuoteAbsent(x, t, table[2].search);
  }

  lemma AppRootLateMiss(app: string, t: string)
    requires AppName(app) && Inert(t)
    ensures forall i :: 4 <= i < 11 ==> !Text.Occurs("\"/gpt-5/" + app + "/" + t, Table(app)[i].search)
  {
    var table := Table(app);
    var x := "\"/gpt-5/" + app + "/";
    QuoteFreeApp("\"/gpt-5/", app, "/");
    MismatchAt(x + t, table[6].search, 2);
    assert table[8].search == "\"/gpt-5/" + "_next" + "/";
    NamesDiffer("\"/gpt-5/", app, "_next", t);
    NoQuotedOccurrence(x, t, table[6].search);
    NoQuotedOccurrence(x, t, table[8].search);
    AppRootOtherQuoteMiss(app, t);
  }

  lemma AppRootOtherQuoteMiss(app: string, t: string)
    requires AppName(app) && Inert(t)
    ensures forall i :: i in {4, 5, 7, 9, 10} ==> !Text.Occurs("\"/gpt-5/" + app + "/" + t, Table(app)[i].search)
  {
    var table := Table(app);
    var x := "\"/gpt-5/" + app + "/";
    QuoteFreeApp("\"/gpt-5/", app, "/");
    OtherQuoteAbsent(x, t, table[4].search);
    OtherQuoteAbsent(x, t, table[5].search);
    OtherQuoteAbsent(x, t, table[7].search);
    OtherQuoteAbsent(x, t, table[9].search);
    OtherQuoteAbsent(x, t, table[10].search);
  }

  /** A root reference `"/<app>/` gets the `/gpt-5` prefix once. */
  lemma AppRootPrefixed(app: string, t: string)
    requires AppName(app) && Inert(t) && !Text.StartsWith(t, "_next/")
    ensures ApplyTable("\"/" + app + "/" + t, Table(app)) == "\"/gpt-5/" + app + "/" + t
  {
    var table := Table(app);
    InertFree(t, table[3].search);
    Text.ReplaceAllAbsent(t, table[3].search, table[3].replace);
    Text.ReplaceAllFront(table[3].search, t, table[3].replace);
    AppRootEarlyMiss(app, t);
    AppRootLateMiss(app, t);
    ApplyTableOnlyStep(table[3].search + t, table, 3, table[3].replace + t);
  }

  lemma SingleRootEarlyMiss(app: string, t: string)
    requires AppName(app) && Inert(t) && !Text.StartsWith(t, "_next/")
    ensures forall i :: 0 <= i < 4 ==> !Text.Occurs("'/" + app + "/" + t, Table(app)[i].search)
  {
    var table := Table(app);
    var x := "'/" + app + "/";
    QuoteFreeApp("'/", app, "/");
    assert table[1].search == x + "_next/";
    PrefixCancel(x, t, "_next/");
    NoQuotedOccurrence(x, t, table[1].search);
    OtherQuoteAbsent(x, t, table[0].search);
    OtherQuoteAbsent(x, t, table[2].search);
    OtherQuoteAbsent(x, t, table[3].search);
  }

  lemma SingleRootLateMiss(app: string, t: string)
    requires AppName(app) && Inert(t)
    ensures forall i :: 5 <= i < 11 ==> !Text.Occurs("'/gpt-5/" + app + "/" + t, Table(app)[i].search)
  {
    var table := Table(app);
    var x := "'/gpt-5/" + app + "/";
    QuoteFreeApp("'/gpt-5/", app, "/");
    MismatchAt(x + t, table[7].search, 2);
    assert table[9].search == "'/gpt-5/" + "_next" + "/";
    NamesDiffer("'/gpt-5/", app, "_next", t);
    NoQuotedOccurrence(x, t, table[7].search);
    NoQuotedOccurrence(x, t, table[9].search);
    SingleRootOtherQuoteMiss(app, t);
  }

  lemma SingleRootOtherQuoteMiss(app: string, t: string)
    requires AppName(app) && Inert(t)
    ensures forall i :: i in {5, 6, 8, 10} ==> !Text.Occurs("'/gpt-5/" + app + "/" + t, Table(app)[i].search)
  {
    var table := Table(app);
    var x := "'/gpt-5/" + app + "/";
    QuoteFreeApp("'/gpt-5/", app, "/");
    OtherQuoteAbsent(x, t, table[5].search);
    OtherQuoteAbsent(x, t, table[6].search);
    OtherQuoteAbsent(x, t, table[8].search);
    OtherQuoteAbsent(x, t, table[10].search);
  }

  /** So does `'/<app>/`. */
  lemma SingleRootPrefixed(app: string, t: string)
    requires AppName(app) && Inert(t) && !Text.StartsWith(t, "_next/")
    ensures ApplyTable("'/" + app + "/" + t, Table(app)) == "'/gpt-5/" + app + "/" + t
  {
    var table := Table(app);
    InertFree(t, table[4].search);
    Text.ReplaceAllAbsent(t, table[4].search, table[4].replace);
    Text.ReplaceAllFront(table[4].search, t, table[4].replace);
    SingleRootEarlyMiss(app, t);
    SingleRootLateMiss(app, t);
    ApplyTableOnlyStep(table[4].search + t, table, 4, table[4].replace + t);
  }

  lemma BackRootEarlyMiss(app: string, t: string)
    requires AppName(app) && Inert(t) && !Text.StartsWith(t, "_next/")
    ensures forall i :: 0 <= i < 5 ==> !Text.Occurs("`/" + app + "/" + t, Table(app)[i].search)
  {
    var table := Table(app);
    var x := "`/" + app + "/";
    QuoteFreeApp("`/", app, "/");
    assert table[2].search == x + "_next/";
    PrefixCancel(x, t, "_next/");
    NoQuotedOccurrence(x, t, table[2].search);
    OtherQuoteAbsent(x, t, table[0].search);
    OtherQuoteAbsent(x, t, table[1].search);
    OtherQuoteAbsent(x, t, table[3].search);
    OtherQuoteAbsent(x, t, table[4].search);
  }

  lemma BackRootLateMiss(app: string, t: string)
    requires AppName(app) && Inert(t)
    ensures forall i :: 6 <= i < 11 ==> !Text.Occurs("`/gpt-5/" + app + "/" + t, Table(app)[i].search)
  {
    var table := Table(app);
    var x := "`/gpt-5/" + app + "/";
    QuoteFreeApp("`/gpt-5/", app, "/");
    assert table[10].search == "`/gpt-5/" + "_next" + "/";
    NamesDiffer("`/gpt-5/", app, "_next", t);
    NoQuotedOccurrence(x, t, table[10].search);
    OtherQuoteAbsent(x, t, table[6].search);
    OtherQuoteAbsent(x, t, table[7].search);
    OtherQuoteAbsent(x, t, table[8].search);
    OtherQuoteAbsent(x, t, table[9].search);
  }

  /** And `` `/<app>/ ``. */
  lemma BackRootPrefixed(app: string, t: string)
    requires AppName(app) && Inert(t) && !Text.StartsWith(t, "_next/")
    ensures ApplyTable("`/" + app + "/" + t, Table(app)) == "`/gpt-5/" + app + "/" + t
  {
    var table := Table(app);
    InertFree(t, table[5].search);
    Text.ReplaceAllAbsent(t, table[5].search, table[5].replace);
    Text.ReplaceAllFront(table[5].search, t, table[5].replace);
    BackRootEarlyMiss(app, t);
    BackRootLateMiss(app, t);
    ApplyTableOnlyStep(table[5].search + t, table, 5, table[5].replace + t);
  }

  // ---------------------------------------------------------------------
  // Favicons

  // `u` below stands for the closing quote and what follows it.

  lemma FaviconEarlyMiss(app: string, t: string)
    requires AppName(app) && Inert("\"" + t)
    ensures forall i :: 0 <= i < 6 ==> !Text.Occurs("\"/favicon.ico\"" + t, Table(app)[i].search)
  {
    var table := Table(app);
    var x, u := "\"/favicon.ico", "\"" + t;
    var e := x + u;
    assert e == "\"/favicon.ico\"" + t;
    FaviconNotApp(app, t);
    assert table[0].search == table[3].search + "_next/";
    NotStartsWithLonger(e, table[3].search, "_next/");
    NoQuotedOccurrence(x, u, table[0].search);
    NoQuotedOccurrence(x, u, table[3].search);
    OtherQuoteAbsent(x, u, table[1].search);
    OtherQuoteAbsent(x, u, table[2].search);
    OtherQuoteAbsent(x, u, table[4].search);
    OtherQuoteAbsent(x, u, table[5].search);
  }

  lemma FaviconLateMiss(app: string, t: string)
    requires AppName(app) && Inert("\"" + t)
    ensures forall i :: 7 <= i < 11 ==>
      !Text.Occurs("\"/gpt-5/" + app + "/favicon.ico\"" + t, Table(app)[i].search)
  {
    var table := Table(app);
    var x, u := "\"/gpt-5/" + app + "/favicon.ico", "\"" + t;
    var d := x + u;
    assert d == "\"/gpt-5/" + app + "/favicon.ico\"" + t;
    QuoteFreeApp("\"/gpt-5/", app, "/favicon.ico");
    assert d == "\"/gpt-5/" + app + "/" + ("favicon.ico" + u);
    assert table[8].search == "\"/gpt-5/" + "_next" + "/";
    NamesDiffer("\"/gpt-5/", app, "_next", "favicon.ico" + u);
    NoQuotedOccurrence(x, u, table[8].search);
    OtherQuoteAbsent(x, u, table[7].search);
    OtherQuoteAbsent(x, u, table[9].search);
    OtherQuoteAbsent(x, u, table[10].search);
  }

  /** `"/favicon.ico"` becomes `"/gpt-5/<app>/favicon.ico"`: the `"/<app>/`
      entries do not take it for the app. */
  lemma FaviconPrefixed(app: string, t: string)
    requires AppName(app) && Inert("\"" + t)
    ensures ApplyTable("\"/favicon.ico\"" + t, Table(app)) == "\"/gpt-5/" + app + "/favicon.ico\"" + t
  {
    var table := Table(app);
    InertTail('"', t);
    InertFree(t, table[6].search);
    Text.ReplaceAllAbsent(t, table[6].search, table[6].replace);
    Text.ReplaceAllFront(table[6].search, t, table[6].replace);
    FaviconEarlyMiss(app, t);
    FaviconLateMiss(app, t);
    ApplyTableOnlyStep(table[6].search + t, table, 6, table[6].replace + t);
  }

  lemma SingleFaviconEarlyMiss(app: string, t: string)
    requires AppName(app) && Inert("'" + t)
    ensures forall i :: 0 <= i < 7 ==> !Text.Occurs("'/favicon.ico'" + t, Table(app)[i].search)
  {
    var table := Table(app);
    var x, u := "'/favicon.ico", "'" + t;
    var e := x + u;
    assert e == "'/favicon.ico'" + t;
    FaviconSingleNotApp(app, t);
    assert table[1].search == table[4].search + "_next/";
    NotStartsWithLonger(e, table[4].search, "_next/");
    NoQuotedOccurrence(x, u, table[1].search);
    NoQuotedOccurrence(x, u, table[4].search);
    OtherQuoteAbsent(x, u, table[0].search);
    OtherQuoteAbsent(x, u, table[2].search);
    OtherQuoteAbsent(x, u, table[3].search);
    OtherQuoteAbsent(x, u, table[5].search);
    OtherQuoteAbsent(x, u, table[6].search);
  }

  lemma SingleFaviconLateMiss(app: string, t: string)
    requires AppName(app) && Inert("'" + t)
    ensures forall i :: 8 <= i < 11 ==>
      !Text.Occurs("'/gpt-5/" + app + "/favicon.ico'" + t, Table(app)[i].search)
  {
    var table := Table(app);
    var x, u := "'/gpt-5/" + app + "/favicon.ico", "'" + t;
    var d := x + u;
    assert d == "'/gpt-5/" + app + "/favicon.ico'" + t;
    QuoteFreeApp("'/gpt-5/", app, "/favicon.ico");
    assert d == "'/gpt-5/" + app + "/" + ("favicon.ico" + u);
    assert table[9].search == "'/gpt-5/" + "_next" + "/";
    NamesDiffer("'/gpt-5/", app, "_next", "favicon.ico" + u);
    NoQuotedOccurrence(x, u, table[9].search);
    OtherQuoteAbsent(x, u, table[8].search);
    OtherQuoteAbsent(x, u, table[10].search);
  }

  /** `'/favicon.ico'` becomes `'/gpt-5/<app>/favicon.ico'`. */
  lemma SingleFaviconPrefixed(app: string, t: string)
    requires AppName(app) && Inert("'" + t)
    ensures ApplyTable("'/favicon.ico'" + t, Table(app)) == "'/gpt-5/" + app + "/favicon.ico'" + t
  {
    var table := Table(app);
    InertTail('\'', t);
    InertFree(t, table[7].search);
    Text.ReplaceAllAbsent(t, table[7].search, table[7].replace);
    Text.ReplaceAllFront(table[7].search, t, table[7].replace);
    SingleFaviconEarlyMiss(app, t);
    SingleFaviconLateMiss(app, t);
    ApplyTableOnlyStep(table[7].search + t, table, 7, table[7].replace + t);
  }

  // ---------------------------------------------------------------------
  // `main`

  /** The two calls of `main`, below the repository: `asteroid-game`, then
      `espresso`, each with the table for its own name. */
  function Jobs(): (jobs: seq<Job>)
    ensures |jobs| == 2
    ensures forall i :: 0 <= i < 2 ==>
      |jobs[i].dir| == 4 && AppName(jobs[i].dir[3]) && jobs[i].table == Table(jobs[i].dir[3])
  {
    ScriptAppNames();
    [ Job(["out", "apps", "gpt-5", "asteroid-game"], Table("asteroid-game")),
      Job(["out", "apps", "gpt-5", "espresso"], Table("espresso")) ]
  }

  /** `main`: the first call that rejects makes the script exit with
      status 1 (`ok` false) and skips the rest. */
  method RunScript(disk: Disk, tree: seq<Node>) returns (ok: bool)
    modifies disk
    ensures (disk.state, ok) == RunJobs(old(disk.state), tree, Jobs(), Buffered)
  {
    ok := RunJobsOn(disk, tree, Jobs(), Buffered);
  }
}
