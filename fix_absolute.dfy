/** `front-end/scripts/fix-nextjs-absolute-paths.mjs`: turn the relative and
    absolute asset paths of two exported apps into absolute paths under
    `/gpt-5/<app>/`. */
module FixAbsolutePaths {
  import opened Fs
  import Text
  import opened Rewrite

  /** The replacement table of `fixNextJsApp(appDir, appName)`, in order. */
  function Table(app: string): (t: seq<Replacement>)
    ensures |t| == 16 && Searchable(t) && QuotedPaths(t)
  {
    [ Replacement("\"./_next/", "\"/gpt-5/" + app + "/_next/"),
      Replacement("'./_next/", "'/gpt-5/" + app + "/_next/'"),
      Replacement("`./_next/", "`/gpt-5/" + app + "/_next/"),
      Replacement("\"/" + app + "/_next/", "\"/gpt-5/" + app + "/_next/"),
      Replacement("'/" + app + "/_next/", "'/gpt-5/" + app + "/_next/'"),
      Replacement("`/" + app + "/_next/", "`/gpt-5/" + app + "/_next/"),
      Replacement("\"/" + app + "/", "\"/gpt-5/" + app + "/"),
      Replacement("'/" + app + "/", "'/gpt-5/" + app + "/'"),
      Replacement("`/" + app + "/", "`/gpt-5/" + app + "/"),
      Replacement("\"./favicon.ico\"", "\"/gpt-5/" + app + "/favicon.ico\""),
      Replacement("'./favicon.ico'", "'/gpt-5/" + app + "/favicon.ico'"),
      Replacement("\"/favicon.ico\"", "\"/gpt-5/" + app + "/favicon.ico\""),
      Replacement("'/favicon.ico'", "'/gpt-5/" + app + "/favicon.ico'"),
      Replacement("\"/gpt-5/_next/", "\"/gpt-5/" + app + "/_next/"),
      Replacement("'/gpt-5/_next/", "'/gpt-5/" + app + "/_next/'"),
      Replacement("`/gpt-5/_next/", "`/gpt-5/" + app + "/_next/") ]
  }

  // ---------------------------------------------------------------------
  // `_next` references

  /** The entries opening with another quote miss `"/gpt-5/<app>/_next/`
      followed by inert text. */
  lemma NextOtherQuotesMiss(app: string, t: string)
    requires AppName(app) && Inert(t)
    ensures forall i :: i in {1, 2, 4, 5, 7} ==>
      !Text.Occurs("\"/gpt-5/" + app + "/_next/" + t, Table(app)[i].search)
  {
    var table := Table(app);
    var x := "\"/gpt-5/" + app + "/_next/";
    QuoteFreeApp("\"/gpt-5/", app, "/_next/");
    OtherQuoteAbsent(x, t, table[1].search);
    OtherQuoteAbsent(x, t, table[2].search);
    OtherQuoteAbsent(x, t, table[4].search);
    OtherQuoteAbsent(x, t, table[5].search);
    OtherQuoteAbsent(x, t, table[7].search);
  }

  lemma NextOtherQuotesMissLate(app: string, t: string)
    requires AppName(app) && Inert(t)
    ensures forall i :: i in {8, 10, 12, 14, 15} ==>
      !Text.Occurs("\"/gpt-5/" + app + "/_next/" + t, Table(app)[i].search)
  {
    var table := Table(app);
    var x := "\"/gpt-5/" + app + "/_next/";
    QuoteFreeApp("\"/gpt-5/", app, "/_next/");
    OtherQuoteAbsent(x, t, table[8].search);
    OtherQuoteAbsent(x, t, table[10].search);
    OtherQuoteAbsent(x, t, table[12].search);
    OtherQuoteAbsent(x, t, table[14].search);
    OtherQuoteAbsent(x, t, table[15].search);
  }

  /** The general `"/<app>/` entry does not find the prefixed path again. */
  lemma NextSameQuoteMiss(app: string, t: string)
    requires AppName(app) && Inert(t)
    ensures forall i :: i in {3, 6} ==>
      !Text.Occurs("\"/gpt-5/" + app + "/_next/" + t, Table(app)[i].search)
  {
    var table := Table(app);
    var x := "\"/gpt-5/" + app + "/_next/";
    var d := x + t;
    QuoteFreeApp("\"/gpt-5/", app, "/_next/");
    NoSecondPrefix(app, t);
    assert table[3].search == table[6].search + "_next/";
    NotStartsWithLonger(d, table[6].search, "_next/");
    NoQuotedOccurrence(x, t, table[3].search);
    NoQuotedOccurrence(x, t, table[6].search);
  }

  /** Nor do the favicon entries and the `"/gpt-5/_next/` entry. */
  lemma NextSameQuoteMissLate(app: string, t: string)
    requires AppName(app) && Inert(t)
    ensures forall i :: i in {9, 11, 13} ==>
      !Text.Occurs("\"/gpt-5/" + app + "/_next/" + t, Table(app)[i].search)
  {
    var table := Table(app);
    var x := "\"/gpt-5/" + app + "/_next/";
    var d := x + t;
    QuoteFreeApp("\"/gpt-5/", app, "/_next/");
    NoSecondPrefix(app, t);
    MismatchAt(d, table[9].search, 1);
    MismatchAt(d, table[11].search, 2);
    NoQuotedOccurrence(x, t, table[9].search);
    NoQuotedOccurrence(x, t, table[11].search);
    NoQuotedOccurrence(x, t, table[13].search);
  }

  lemma NextMissAll(app: string, t: string)
    requires AppName(app) && Inert(t)
    ensures forall i :: 4 <= i < 16 ==>
      !Text.Occurs("\"/gpt-5/" + app + "/_next/" + t, Table(app)[i].search)
  {
    NextOtherQuotesMiss(app, t);
    NextOtherQuotesMissLate(app, t);
    NextSameQuoteMiss(app, t);
    NextSameQuoteMissLate(app, t);
  }

  /** A relative `"./_next/` becomes `"/gpt-5/<app>/_next/`, and nothing
      after that entry changes it again. */
  lemma RelativeNextAbsolute(app: string, t: string)
    requires AppName(app) && Inert(t)
    ensures ApplyTable("\"./_next/" + t, Table(app)) == "\"/gpt-5/" + app + "/_next/" + t
  {
    var table := Table(app);
    InertFree(t, table[0].search);
    Text.ReplaceAllAbsent(t, table[0].search, table[0].replace);
    Text.ReplaceAllFront(table[0].search, t, table[0].replace);
    NextOtherQuotesMiss(app, t);
    NextSameQuoteMiss(app, t);
    NextMissAll(app, t);
    ApplyTableOnlyStep(table[0].search + t, table, 0, table[0].replace + t);
  }

  /** So does an absolute `"/<app>/_next/`. */
  lemma AppNextAbsolute(app: string, t: string)
    requires AppName(app) && Inert(t)
    ensures ApplyTable("\"/" + app + "/_next/" + t, Table(app)) == "\"/gpt-5/" + app + "/_next/" + t
  {
    var table := Table(app);
    var x := "\"/" + app + "/_next/";
    var c := x + t;
    InertFree(t, table[3].search);
    Text.ReplaceAllAbsent(t, table[3].search, table[3].replace);
    Text.ReplaceAllFront(table[3].search, t, table[3].replace);
    QuoteFreeApp("\"/", app, "/_next/");
    MismatchAt(c, table[0].search, 1);
    NoQuotedOccurrence(x, t, table[0].search);
    OtherQuoteAbsent(x, t, table[1].search);
    OtherQuoteAbsent(x, t, table[2].search);
    NextMissAll(app, t);
    ApplyTableOnlyStep(c, table, 3, table[3].replace + t);
  }

  // ---------------------------------------------------------------------
  // The single-quoted `_next` entries close the quote once more

  lemma SingleOtherQuotesMiss(app: string, u: string)
    requires AppName(app) && Inert(u)
    ensures forall i :: i in {2, 3, 5, 6, 8} ==>
      !Text.Occurs("'/gpt-5/" + app + "/_next/" + u, Table(app)[i].search)
  {
    var table := Table(app);
    var x := "'/gpt-5/" + app + "/_next/";
    QuoteFreeApp("'/gpt-5/", app, "/_next/");
    OtherQuoteAbsent(x, u, table[2].search);
    OtherQuoteAbsent(x, u, table[3].search);
    OtherQuoteAbsent(x, u, table[5].search);
    OtherQuoteAbsent(x, u, table[6].search);
    OtherQuoteAbsent(x, u, table[8].search);
  }

  lemma SingleOtherQuotesMissLate(app: string, u: string)
    requires AppName(app) && Inert(u)
    ensures forall i :: i in {9, 11, 13, 15} ==>
      !Text.Occurs("'/gpt-5/" + app + "/_next/" + u, Table(app)[i].search)
  {
    var table := Table(app);
    var x := "'/gpt-5/" + app + "/_next/";
    QuoteFreeApp("'/gpt-5/", app, "/_next/");
    OtherQuoteAbsent(x, u, table[9].search);
    OtherQuoteAbsent(x, u, table[11].search);
    OtherQuoteAbsent(x, u, table[13].search);
    OtherQuoteAbsent(x, u, table[15].search);
  }

  lemma SingleSameQuoteMiss(app: string, u: string)
    requires AppName(app) && Inert(u)
    ensures forall i :: i in {4, 7, 10, 12, 14} ==>
      !Text.Occurs("'/gpt-5/" + app + "/_next/" + u, Table(app)[i].search)
  {
    SinglePathsMiss(app, u);
    SingleFaviconsMiss(app, u);
  }

  lemma SinglePathsMiss(app: string, u: string)
    requires AppName(app) && Inert(u)
    ensures forall i :: i in {4, 7, 14} ==>
      !Text.Occurs("'/gpt-5/" + app + "/_next/" + u, Table(app)[i].search)
  {
    var table := Table(app);
    var x := "'/gpt-5/" + app + "/_next/";
    QuoteFreeApp("'/gpt-5/", app, "/_next/");
    NoSecondPrefixSingle(app, u);
    NoQuotedOccurrence(x, u, table[4].search);
    NoQuotedOccurrence(x, u, table[7].search);
    NoQuotedOccurrence(x, u, table[14].search);
  }

  lemma SingleFaviconsMiss(app: string, u: string)
    requires AppName(app) && Inert(u)
    ensures forall i :: i in {10, 12} ==>
      !Text.Occurs("'/gpt-5/" + app + "/_next/" + u, Table(app)[i].search)
  {
    var table := Table(app);
    var x := "'/gpt-5/" + app + "/_next/";
    var d := x + u;
    QuoteFreeApp("'/gpt-5/", app, "/_next/");
    MismatchAt(d, table[10].search, 1);
    MismatchAt(d, table[12].search, 2);
    NoQuotedOccurrence(x, u, table[10].search);
    NoQuotedOccurrence(x, u, table[12].search);
  }

  /** Every entry after the first two misses `'/gpt-5/<app>/_next/'` and
      the text after it. */
  lemma SingleNextMissAfter(app: string, t: string)
    requires AppName(app) && Inert("'" + t)
    ensures forall i :: 2 <= i < 16 ==> !Text.Occurs("'/gpt-5/" + app + "/_next/'" + t, Table(app)[i].search)
  {
    var u := "'" + t;
    assert "'/gpt-5/" + app + "/_next/'" + t == "'/gpt-5/" + app + "/_next/" + u;
    SingleOtherQuotesMiss(app, u);
    SingleOtherQuotesMissLate(app, u);
    SingleSameQuoteMiss(app, u);
  }

  /** A relative `'./_next/` becomes `'/gpt-5/<app>/_next/'`: the path gets
      its prefix, and a stray `'` lands before whatever followed it. */
  lemma RelativeSingleStrayQuote(app: string, t: string)
    requires AppName(app) && Inert("'" + t)
    ensures ApplyTable("'./_next/" + t, Table(app)) == "'/gpt-5/" + app + "/_next/'" + t
  {
    var table := Table(app);
    InertTail('\'', t);
    InertFree(t, table[1].search);
    Text.ReplaceAllAbsent(t, table[1].search, table[1].replace);
    Text.ReplaceAllFront(table[1].search, t, table[1].replace);
    OtherQuoteAbsent("'./_next/", t, table[0].search);
    SingleNextMissAfter(app, t);
    ApplyTableOnlyStep(table[1].search + t, table, 1, table[1].replace + t);
  }

  /** The entries ahead of the `'/<app>/_next/` entry miss it. */
  lemma AppNextSingleEarlyMiss(app: string, t: string)
    requires AppName(app) && Inert(t)
    ensures forall i :: 0 <= i < 4 ==> !Text.Occurs("'/" + app + "/_next/" + t, Table(app)[i].search)
  {
    var table := Table(app);
    var x := "'/" + app + "/_next/";
    QuoteFreeApp("'/", app, "/_next/");
    OtherQuoteAbsent(x, t, table[0].search);
    MismatchAt(x + t, table[1].search, 1);
    NoQuotedOccurrence(x, t, table[1].search);
    OtherQuoteAbsent(x, t, table[2].search);
    OtherQuoteAbsent(x, t, table[3].search);
  }

  /** An absolute `'/<app>/_next/` gets the same prefix and the same stray
      `'`. */
  lemma AppNextSingleStrayQuote(app: string, t: string)
    requires AppName(app) && Inert("'" + t)
    ensures ApplyTable("'/" + app + "/_next/" + t, Table(app)) == "'/gpt-5/" + app + "/_next/'" + t
  {
    var table := Table(app);
    var c := table[4].search + t;
    InertTail('\'', t);
    InertFree(t, table[4].search);
    Text.ReplaceAllAbsent(t, table[4].search, table[4].replace);
    Text.ReplaceAllFront(table[4].search, t, table[4].replace);
    AppNextSingleEarlyMiss(app, t);
    SingleNextMissAfter(app, t);
    ApplyTableOnlyStep(c, table, 4, table[4].replace + t);
  }

  /** The entries ahead of the `'/<app>/` entry miss a root reference whose
      path does not go on with `_next/` (the entry above takes that one). */
  lemma AppRootSingleEarlyMiss(app: string, t: string)
    requires AppName(app) && Inert(t) && !Text.StartsWith(t, "_next/")
    ensures forall i :: 0 <= i < 7 ==> !Text.Occurs("'/" + app + "/" + t, Table(app)[i].search)
  {
    var table := Table(app);
    var x := "'/" + app + "/";
    var c := x + t;
    QuoteFreeApp("'/", app, "/");
    MismatchAt(c, table[1].search, 1);
    assert table[4].search == x + "_next/";
    PrefixCancel(x, t, "_next/");
    NoQuotedOccurrence(x, t, table[1].search);
    NoQuotedOccurrence(x, t, table[4].search);
    OtherQuoteAbsent(x, t, table[0].search);
    OtherQuoteAbsent(x, t, table[2].search);
    OtherQuoteAbsent(x, t, table[3].search);
    OtherQuoteAbsent(x, t, table[5].search);
    OtherQuoteAbsent(x, t, table[6].search);
  }

  /** The single-quoted entries after it miss the prefixed root reference. */
  lemma AppRootSingleLateMiss(app: string, t: string)
    requires AppName(app) && Inert("'" + t)
    ensures forall i :: i in {10, 12, 14} ==> !Text.Occurs("'/gpt-5/" + app + "/'" + t, Table(app)[i].search)
  {
    var table := Table(app);
    var x, u := "'/gpt-5/" + app + "/", "'" + t;
    var d := x + u;
    assert d == "'/gpt-5/" + app + "/'" + t;
    QuoteFreeApp("'/gpt-5/", app, "/");
    MismatchAt(d, table[10].search, 1);
    MismatchAt(d, table[12].search, 2);
    assert table[14].search == "'/gpt-5/" + "_next" + "/";
    NamesDiffer("'/gpt-5/", app, "_next", u);
    NoQuotedOccurrence(x, u, table[10].search);
    NoQuotedOccurrence(x, u, table[12].search);
    NoQuotedOccurrence(x, u, table[14].search);
  }

  /** So do the later entries of other quote styles. */
  lemma AppRootSingleLateOtherMiss(app: string, t: string)
    requires AppName(app) && Inert("'" + t)
    ensures forall i :: i in {8, 9, 11, 13, 15} ==> !Text.Occurs("'/gpt-5/" + app + "/'" + t, Table(app)[i].search)
  {
    var table := Table(app);
    var x, u := "'/gpt-5/" + app + "/", "'" + t;
    assert x + u == "'/gpt-5/" + app + "/'" + t;
    QuoteFreeApp("'/gpt-5/", app, "/");
    forall i | i in {8, 9, 11, 13, 15} ensures !Text.Occurs(x + u, table[i].search) {
      OtherQuoteAbsent(x, u, table[i].search);
    }
  }

  /** A single-quoted root reference `'/<app>/` that does not go on with
      `_next/` becomes `'/gpt-5/<app>/'`, again with a stray `'`. */
  lemma AppRootSingleStrayQuote(app: string, t: string)
    requires AppName(app) && Inert("'" + t) && !Text.StartsWith(t, "_next/")
    ensures ApplyTable("'/" + app + "/" + t, Table(app)) == "'/gpt-5/" + app + "/'" + t
  {
    var table := Table(app);
    InertTail('\'', t);
    InertFree(t, table[7].search);
    Text.ReplaceAllAbsent(t, table[7].search, table[7].replace);
    Text.ReplaceAllFront(table[7].search, t, table[7].replace);
    AppRootSingleEarlyMiss(app, t);
    AppRootSingleLateMiss(app, t);
    AppRootSingleLateOtherMiss(app, t);
    ApplyTableOnlyStep(table[7].search + t, table, 7, table[7].replace + t);
  }

  /** The single-quoted app entries ahead of the `'/gpt-5/_next/` entry
      miss it: `gpt-5` is not the app. */
  lemma GptNextSingleAppMiss(app: string, t: string)
    requires AppName(app) && Inert(t)
    ensures forall i :: i in {4, 7} ==> !Text.Occurs("'/gpt-5/_next/" + t, Table(app)[i].search)
  {
    var table := Table(app);
    var x := "'/gpt-5/_next/";
    var c := x + t;
    assert c == "'/" + "gpt-5" + "/" + ("_next/" + t);
    NamesDiffer("'/", "gpt-5", app, "_next/" + t);
    assert table[4].search == table[7].search + "_next/";
    NotStartsWithLonger(c, table[7].search, "_next/");
    NoQuotedOccurrence(x, t, table[4].search);
    NoQuotedOccurrence(x, t, table[7].search);
  }

  /** Nor do the single-quoted `./_next` and favicon entries. */
  lemma GptNextSingleSameQuoteMiss(app: string, t: string)
    requires AppName(app) && Inert(t)
    ensures forall i :: i in {1, 10, 12} ==> !Text.Occurs("'/gpt-5/_next/" + t, Table(app)[i].search)
  {
    var table := Table(app);
    var x := "'/gpt-5/_next/";
    var c := x + t;
    MismatchAt(c, table[1].search, 1);
    MismatchAt(c, table[10].search, 1);
    MismatchAt(c, table[12].search, 2);
    NoQuotedOccurrence(x, t, table[1].search);
    NoQuotedOccurrence(x, t, table[10].search);
    NoQuotedOccurrence(x, t, table[12].search);
  }

  /** Nor do those of the other quotes. */
  lemma GptNextSingleOtherQuoteMiss(app: string, t: string)
    requires AppName(app) && Inert(t)
    ensures forall i :: i in {0, 2, 3, 5, 6, 8, 9, 11, 13} ==>
      !Text.Occurs("'/gpt-5/_next/" + t, Table(app)[i].search)
  {
    var table := Table(app);
    forall i | i in {0, 2, 3, 5, 6, 8, 9, 11, 13} ensures !Text.Occurs("'/gpt-5/_next/" + t, table[i].search) {
      OtherQuoteAbsent("'/gpt-5/_next/", t, table[i].search);
    }
  }

  /** `'/gpt-5/_next/` without the app name gets it, and a stray `'`. */
  lemma GptNextSingleStrayQuote(app: string, t: string)
    requires AppName(app) && Inert("'" + t)
    ensures ApplyTable("'/gpt-5/_next/" + t, Table(app)) == "'/gpt-5/" + app + "/_next/'" + t
  {
    var table := Table(app);
    InertTail('\'', t);
    InertFree(t, table[14].search);
    Text.ReplaceAllAbsent(t, table[14].search, table[14].replace);
    Text.ReplaceAllFront(table[14].search, t, table[14].replace);
    GptNextSingleAppMiss(app, t);
    GptNextSingleSameQuoteMiss(app, t);
    GptNextSingleOtherQuoteMiss(app, t);
    SingleNextMissAfter(app, t);
    ApplyTableOnlyStep(table[14].search + t, table, 14, table[14].replace + t);
  }

  // ---------------------------------------------------------------------
  // Favicons

  // `u` below stands for the closing quote and what follows it.

  lemma FaviconTargetMiss(app: string, t: string)
    requires AppName(app) && Inert("\"" + t)
    ensures forall i :: i in {11, 13} ==>
      !Text.Occurs("\"/gpt-5/" + app + "/favicon.ico\"" + t, Table(app)[i].search)
  {
    var table := Table(app);
    var x, u := "\"/gpt-5/" + app + "/favicon.ico", "\"" + t;
    var d := x + u;
    assert d == "\"/gpt-5/" + app + "/favicon.ico\"" + t;
    QuoteFreeApp("\"/gpt-5/", app, "/favicon.ico");
    MismatchAt(d, table[11].search, 2);
    assert d == "\"/gpt-5/" + app + "/" + ("favicon.ico" + u);
    assert table[13].search == "\"/gpt-5/" + "_next" + "/";
    NamesDiffer("\"/gpt-5/", app, "_next", "favicon.ico" + u);
    NoQuotedOccurrence(x, u, table[11].search);
    NoQuotedOccurrence(x, u, table[13].search);
  }

  lemma FaviconTargetOtherMiss(app: string, t: string)
    requires AppName(app) && Inert("\"" + t)
    ensures forall i :: i in {10, 12, 14, 15} ==>
      !Text.Occurs("\"/gpt-5/" + app + "/favicon.ico\"" + t, Table(app)[i].search)
  {
    var table := Table(app);
    var x, u := "\"/gpt-5/" + app + "/favicon.ico", "\"" + t;
    assert x + u == "\"/gpt-5/" + app + "/favicon.ico\"" + t;
    QuoteFreeApp("\"/gpt-5/", app, "/favicon.ico");
    OtherQuoteAbsent(x, u, table[10].search);
    OtherQuoteAbsent(x, u, table[12].search);
    OtherQuoteAbsent(x, u, table[14].search);
    OtherQuoteAbsent(x, u, table[15].search);
  }

  /** The double-quoted entries ahead of `"./favicon.ico"` miss it. */
  lemma RelativeFaviconSameQuoteMiss(app: string, t: string)
    requires AppName(app) && Inert("\"" + t)
    ensures forall i :: i in {0, 3, 6} ==>
      !Text.Occurs("\"./favicon.ico\"" + t, Table(app)[i].search)
  {
    var table := Table(app);
    var x, u := "\"./favicon.ico", "\"" + t;
    var c := x + u;
    assert c == "\"./favicon.ico\"" + t;
    assert c[1] == '.' && c[3] == 'f';
    MismatchAt(c, table[0].search, 3);
    MismatchAt(c, table[3].search, 1);
    MismatchAt(c, table[6].search, 1);
    NoQuotedOccurrence(x, u, table[0].search);
    NoQuotedOccurrence(x, u, table[3].search);
    NoQuotedOccurrence(x, u, table[6].search);
  }

  /** The double-quoted entries ahead of `"/favicon.ico"` miss it: in
      particular the `"/<app>/` entries do not take it for the app. */
  lemma AbsoluteFaviconSameQuoteMiss(app: string, t: string)
    requires AppName(app) && Inert("\"" + t)
    ensures forall i :: i in {0, 3, 6, 9} ==>
      !Text.Occurs("\"/favicon.ico\"" + t, Table(app)[i].search)
  {
    var table := Table(app);
    var x, u := "\"/favicon.ico", "\"" + t;
    var e := x + u;
    assert e == "\"/favicon.ico\"" + t;
    assert e[1] == '/';
    MismatchAt(e, table[0].search, 1);
    MismatchAt(e, table[9].search, 1);
    FaviconNotApp(app, t);
    assert table[3].search == table[6].search + "_next/";
    NotStartsWithLonger(e, table[6].search, "_next/");
    NoQuotedOccurrence(x, u, table[0].search);
    NoQuotedOccurrence(x, u, table[3].search);
    NoQuotedOccurrence(x, u, table[6].search);
    NoQuotedOccurrence(x, u, table[9].search);
  }

  /** The other-quoted entries ahead of the favicon entries miss them. */
  lemma FaviconOtherQuoteMiss(app: string, t: string)
    requires AppName(app) && Inert("\"" + t)
    ensures forall i :: i in {1, 2, 4, 5, 7, 8, 10} ==>
      !Text.Occurs("\"./favicon.ico\"" + t, Table(app)[i].search)
      && !Text.Occurs("\"/favicon.ico\"" + t, Table(app)[i].search)
  {
    var table := Table(app);
    var u := "\"" + t;
    assert "\"./favicon.ico" + u == "\"./favicon.ico\"" + t;
    assert "\"/favicon.ico" + u == "\"/favicon.ico\"" + t;
    forall i | i in {1, 2, 4, 5, 7, 8, 10}
      ensures !Text.Occurs("\"./favicon.ico" + u, table[i].search)
      ensures !Text.Occurs("\"/favicon.ico" + u, table[i].search)
    {
      OtherQuoteAbsent("\"./favicon.ico", u, table[i].search);
      OtherQuoteAbsent("\"/favicon.ico", u, table[i].search);
    }
  }

  /** `"./favicon.ico"` becomes `"/gpt-5/<app>/favicon.ico"`. */
  lemma RelativeFavicon(app: string, t: string)
    requires AppName(app) && Inert("\"" + t)
    ensures ApplyTable("\"./favicon.ico\"" + t, Table(app)) == "\"/gpt-5/" + app + "/favicon.ico\"" + t
  {
    var table := Table(app);
    InertTail('"', t);
    InertFree(t, table[9].search);
    Text.ReplaceAllAbsent(t, table[9].search, table[9].replace);
    Text.ReplaceAllFront(table[9].search, t, table[9].replace);
    RelativeFaviconSameQuoteMiss(app, t);
    FaviconOtherQuoteMiss(app, t);
    FaviconTargetMiss(app, t);
    FaviconTargetOtherMiss(app, t);
    ApplyTableOnlyStep(table[9].search + t, table, 9, table[9].replace + t);
  }

  /** An absolute `"/favicon.ico"` becomes `"/gpt-5/<app>/favicon.ico"`
      too. */
  lemma AbsoluteFavicon(app: string, t: string)
    requires AppName(app) && Inert("\"" + t)
    ensures ApplyTable("\"/favicon.ico\"" + t, Table(app)) == "\"/gpt-5/" + app + "/favicon.ico\"" + t
  {
    var table := Table(app);
    InertTail('"', t);
    InertFree(t, table[11].search);
    Text.ReplaceAllAbsent(t, table[11].search, table[11].replace);
    Text.ReplaceAllFront(table[11].search, t, table[11].replace);
    AbsoluteFaviconSameQuoteMiss(app, t);
    FaviconOtherQuoteMiss(app, t);
    FaviconTargetMiss(app, t);
    FaviconTargetOtherMiss(app, t);
    ApplyTableOnlyStep(table[11].search + t, table, 11, table[11].replace + t);
  }

  /** The single-quoted entries ahead of `'./favicon.ico'` miss it. */
  lemma RelativeSingleFaviconSameQuoteMiss(app: string, t: string)
    requires AppName(app) && Inert("'" + t)
    ensures forall i :: i in {1, 4, 7} ==> !Text.Occurs("'./favicon.ico'" + t, Table(app)[i].search)
  {
    var table := Table(app);
    var x, u := "'./favicon.ico", "'" + t;
    var c := x + u;
    assert c == "'./favicon.ico'" + t;
    assert c[1] == '.' && c[3] == 'f';
    MismatchAt(c, table[1].search, 3);
    MismatchAt(c, table[4].search, 1);
    MismatchAt(c, table[7].search, 1);
    NoQuotedOccurrence(x, u, table[1].search);
    NoQuotedOccurrence(x, u, table[4].search);
    NoQuotedOccurrence(x, u, table[7].search);
  }

  /** The entries of other quote styles ahead of the single-quoted favicon
      entries miss both single-quoted favicon references. */
  lemma SingleFaviconOtherQuoteMiss(app: string, t: string)
    requires AppName(app) && Inert("'" + t)
    ensures forall i :: i in {0, 2, 3, 5, 6, 8, 9, 11} ==>
      !Text.Occurs("'./favicon.ico'" + t, Table(app)[i].search)
      && !Text.Occurs("'/favicon.ico'" + t, Table(app)[i].search)
  {
    var table := Table(app);
    var u := "'" + t;
    assert "'./favicon.ico" + u == "'./favicon.ico'" + t;
    assert "'/favicon.ico" + u == "'/favicon.ico'" + t;
    forall i | i in {0, 2, 3, 5, 6, 8, 9, 11}
      ensures !Text.Occurs("'./favicon.ico" + u, table[i].search)
      ensures !Text.Occurs("'/favicon.ico" + u, table[i].search)
    {
      OtherQuoteAbsent("'./favicon.ico", u, table[i].search);
      OtherQuoteAbsent("'/favicon.ico", u, table[i].search);
    }
  }

  /** The single-quoted entries ahead of `'/favicon.ico'` miss it: the
      `'/<app>/` entries do not take it for the app. */
  lemma AbsoluteSingleFaviconSameQuoteMiss(app: string, t: string)
    requires AppName(app) && Inert("'" + t)
    ensures forall i :: i in {1, 4, 7, 10} ==> !Text.Occurs("'/favicon.ico'" + t, Table(app)[i].search)
  {
    var table := Table(app);
    var x, u := "'/favicon.ico", "'" + t;
    var e := x + u;
    assert e == "'/favicon.ico'" + t;
    assert e[1] == '/';
    MismatchAt(e, table[1].search, 1);
    MismatchAt(e, table[10].search, 1);
    FaviconSingleNotApp(app, t);
    assert table[4].search == table[7].search + "_next/";
    NotStartsWithLonger(e, table[7].search, "_next/");
    NoQuotedOccurrence(x, u, table[1].search);
    NoQuotedOccurrence(x, u, table[4].search);
    NoQuotedOccurrence(x, u, table[7].search);
    NoQuotedOccurrence(x, u, table[10].search);
  }

  /** The single-quoted entries after the single-quoted favicon entries
      miss the moved favicon. */
  lemma SingleFaviconTargetMiss(app: string, t: string)
    requires AppName(app) && Inert("'" + t)
    ensures forall i :: i in {12, 14} ==>
      !Text.Occurs("'/gpt-5/" + app + "/favicon.ico'" + t, Table(app)[i].search)
  {
    var table := Table(app);
    var x, u := "'/gpt-5/" + app + "/favicon.ico", "'" + t;
    var d := x + u;
    assert d == "'/gpt-5/" + app + "/favicon.ico'" + t;
    QuoteFreeApp("'/gpt-5/", app, "/favicon.ico");
    MismatchAt(d, table[12].search, 2);
    assert d == "'/gpt-5/" + app + "/" + ("favicon.ico" + u);
    assert table[14].search == "'/gpt-5/" + "_next" + "/";
    NamesDiffer("'/gpt-5/", app, "_next", "favicon.ico" + u);
    NoQuotedOccurrence(x, u, table[12].search);
    NoQuotedOccurrence(x, u, table[14].search);
  }

  /** Nor do the later entries of other quote styles. */
  lemma SingleFaviconTargetOtherMiss(app: string, t: string)
    requires AppName(app) && Inert("'" + t)
    ensures forall i :: i in {11, 13, 15} ==>
      !Text.Occurs("'/gpt-5/" + app + "/favicon.ico'" + t, Table(app)[i].search)
  {
    var table := Table(app);
    var x, u := "'/gpt-5/" + app + "/favicon.ico", "'" + t;
    assert x + u == "'/gpt-5/" + app + "/favicon.ico'" + t;
    QuoteFreeApp("'/gpt-5/", app, "/favicon.ico");
    OtherQuoteAbsent(x, u, table[11].search);
    OtherQuoteAbsent(x, u, table[13].search);
    OtherQuoteAbsent(x, u, table[15].search);
  }

  /** `'./favicon.ico'` becomes `'/gpt-5/<app>/favicon.ico'`. */
  lemma RelativeSingleFavicon(app: string, t: string)
    requires AppName(app) && Inert("'" + t)
    ensures ApplyTable("'./favicon.ico'" + t, Table(app)) == "'/gpt-5/" + app + "/favicon.ico'" + t
  {
    var table := Table(app);
    InertTail('\'', t);
    InertFree(t, table[10].search);
    Text.ReplaceAllAbsent(t, table[10].search, table[10].replace);
    Text.ReplaceAllFront(table[10].search, t, table[10].replace);
    RelativeSingleFaviconSameQuoteMiss(app, t);
    SingleFaviconOtherQuoteMiss(app, t);
    SingleFaviconTargetMiss(app, t);
    SingleFaviconTargetOtherMiss(app, t);
    ApplyTableOnlyStep(table[10].search + t, table, 10, table[10].replace + t);
  }

  /** An absolute `'/favicon.ico'` becomes `'/gpt-5/<app>/favicon.ico'`
      too. */
  lemma AbsoluteSingleFavicon(app: string, t: string)
    requires AppName(app) && Inert("'" + t)
    ensures ApplyTable("'/favicon.ico'" + t, Table(app)) == "'/gpt-5/" + app + "/favicon.ico'" + t
  {
    var table := Table(app);
    InertTail('\'', t);
    InertFree(t, table[12].search);
    Text.ReplaceAllAbsent(t, table[12].search, table[12].replace);
    Text.ReplaceAllFront(table[12].search, t, table[12].replace);
    AbsoluteSingleFaviconSameQuoteMiss(app, t);
    SingleFaviconOtherQuoteMiss(app, t);
    SingleFaviconTargetMiss(app, t);
    SingleFaviconTargetOtherMiss(app, t);
    ApplyTableOnlyStep(table[12].search + t, table, 12, table[12].replace + t);
  }

  // ---------------------------------------------------------------------
  // Root references and the bare `"/gpt-5/_next/`

  lemma AppRootEarlyMiss(app: string, t: string)
    requires AppName(app) && Inert(t) && !Text.StartsWith(t, "_next/")
    ensures forall i :: 0 <= i < 6 ==> !Text.Occurs("\"/" + app + "/" + t, Table(app)[i].search)
  {
    var table := Table(app);
    var x := "\"/" + app + "/";
    var c := x + t;
    QuoteFreeApp("\"/", app, "/");
    MismatchAt(c, table[0].search, 1);
    assert table[3].search == x + "_next/";
    PrefixCancel(x, t, "_next/");
    NoQuotedOccurrence(x, t, table[0].search);
    NoQuotedOccurrence(x, t, table[3].search);
    OtherQuoteAbsent(x, t, table[1].search);
    OtherQuoteAbsent(x, t, table[2].search);
    OtherQuoteAbsent(x, t, table[4].search);
    OtherQuoteAbsent(x, t, table[5].search);
  }

  /** The double-quoted entries after `"/<app>/` miss `"/gpt-5/<app>/`. */
  lemma AppRootSameQuoteMiss(app: string, t: string)
    requires AppName(app) && Inert(t)
    ensures forall i :: i in {9, 11, 13} ==> !Text.Occurs("\"/gpt-5/" + app + "/" + t, Table(app)[i].search)
  {
    var table := Table(app);
    var x := "\"/gpt-5/" + app + "/";
    var d := x + t;
    QuoteFreeApp("\"/gpt-5/", app, "/");
    MismatchAt(d, table[9].search, 1);
    MismatchAt(d, table[11].search, 2);
    assert table[13].search == "\"/gpt-5/" + "_next" + "/";
    NamesDiffer("\"/gpt-5/", app, "_next", t);
    NoQuotedOccurrence(x, t, table[9].search);
    NoQuotedOccurrence(x, t, table[11].search);
    NoQuotedOccurrence(x, t, table[13].search);
  }

  lemma AppRootOtherQuoteMiss(app: string, t: string)
    requires AppName(app) && Inert(t)
    ensures forall i :: i in {7, 8, 10, 12, 14, 15} ==> !Text.Occurs("\"/gpt-5/" + app + "/" + t, Table(app)[i].search)
  {
    var table := Table(app);
    var x := "\"/gpt-5/" + app + "/";
    QuoteFreeApp("\"/gpt-5/", app, "/");
    forall i | i in {7, 8, 10, 12, 14, 15} ensures !Text.Occurs(x + t, table[i].search) {
      OtherQuoteAbsent(x, t, table[i].search);
    }
  }

  /** A root reference `"/<app>/` that does not go on with `_next/` becomes
      `"/gpt-5/<app>/`. */
  lemma AppRootAbsolute(app: string, t: string)
    requires AppName(app) && Inert(t) && !Text.StartsWith(t, "_next/")
    ensures ApplyTable("\"/" + app + "/" + t, Table(app)) == "\"/gpt-5/" + app + "/" + t
  {
    var table := Table(app);
    InertFree(t, table[6].search);
    Text.ReplaceAllAbsent(t, table[6].search, table[6].replace);
    Text.ReplaceAllFront(table[6].search, t, table[6].replace);
    AppRootEarlyMiss(app, t);
    AppRootSameQuoteMiss(app, t);
    AppRootOtherQuoteMiss(app, t);
    ApplyTableOnlyStep(table[6].search + t, table, 6, table[6].replace + t);
  }

  lemma GptNextSameQuoteMiss(app: string, t: string)
    requires AppName(app) && Inert(t)
    ensures forall i :: i in {0, 3, 6, 9, 11} ==> !Text.Occurs("\"/gpt-5/_next/" + t, Table(app)[i].search)
  {
    var table := Table(app);
    var x := "\"/gpt-5/_next/";
    var c := x + t;
    BareNotApp(app, t);
    MismatchAt(c, table[0].search, 1);
    MismatchAt(c, table[9].search, 1);
    MismatchAt(c, table[11].search, 2);
    NoQuotedOccurrence(x, t, table[0].search);
    NoQuotedOccurrence(x, t, table[3].search);
    NoQuotedOccurrence(x, t, table[6].search);
    NoQuotedOccurrence(x, t, table[9].search);
    NoQuotedOccurrence(x, t, table[11].search);
  }

  lemma GptNextOtherQuoteMiss(app: string, t: string)
    requires AppName(app) && Inert(t)
    ensures forall i :: i in {1, 2, 4, 5, 7, 8, 10, 12} ==>
      !Text.Occurs("\"/gpt-5/_next/" + t, Table(app)[i].search)
  {
    var table := Table(app);
    var x := "\"/gpt-5/_next/";
    OtherQuoteAbsent(x, t, table[1].search);
    OtherQuoteAbsent(x, t, table[2].search);
    OtherQuoteAbsent(x, t, table[4].search);
    OtherQuoteAbsent(x, t, table[5].search);
    GptNextOtherQuoteMissLate(app, t);
  }

  lemma GptNextOtherQuoteMissLate(app: string, t: string)
    requires AppName(app) && Inert(t)
    ensures forall i :: i in {7, 8, 10, 12} ==> !Text.Occurs("\"/gpt-5/_next/" + t, Table(app)[i].search)
  {
    var table := Table(app);
    var x := "\"/gpt-5/_next/";
    OtherQuoteAbsent(x, t, table[7].search);
    OtherQuoteAbsent(x, t, table[8].search);
    OtherQuoteAbsent(x, t, table[10].search);
    OtherQuoteAbsent(x, t, table[12].search);
  }

  /** `"/gpt-5/_next/` without the app name gets it. */
  lemma GptNextGetsApp(app: string, t: string)
    requires AppName(app) && Inert(t)
    ensures ApplyTable("\"/gpt-5/_next/" + t, Table(app)) == "\"/gpt-5/" + app + "/_next/" + t
  {
    var table := Table(app);
    InertFree(t, table[13].search);
    Text.ReplaceAllAbsent(t, table[13].search, table[13].replace);
    Text.ReplaceAllFront(table[13].search, t, table[13].replace);
    GptNextSameQuoteMiss(app, t);
    GptNextOtherQuoteMiss(app, t);
    NextMissAll(app, t);
    ApplyTableOnlyStep(table[13].search + t, table, 13, table[13].replace + t);
  }

  // ---------------------------------------------------------------------
  // Backquoted references

  /** The entries after the backquoted `_next` entries miss
      `` `/gpt-5/<app>/_next/ ``. */
  lemma BackNextSameQuoteMiss(app: string, t: string)
    requires AppName(app) && Inert(t)
    ensures forall i :: i in {5, 8, 15} ==>
      !Text.Occurs("`/gpt-5/" + app + "/_next/" + t, Table(app)[i].search)
  {
    var table := Table(app);
    var x := "`/gpt-5/" + app + "/_next/";
    QuoteFreeApp("`/gpt-5/", app, "/_next/");
    NoSecondPrefixBack(app, t);
    NoQuotedOccurrence(x, t, table[5].search);
    NoQuotedOccurrence(x, t, table[8].search);
    NoQuotedOccurrence(x, t, table[15].search);
  }

  lemma BackNextOtherQuoteMiss(app: string, t: string)
    requires AppName(app) && Inert(t)
    ensures forall i :: i in {3, 4, 6, 7, 9, 10, 11, 12, 13, 14} ==>
      !Text.Occurs("`/gpt-5/" + app + "/_next/" + t, Table(app)[i].search)
  {
    var table := Table(app);
    var x := "`/gpt-5/" + app + "/_next/";
    QuoteFreeApp("`/gpt-5/", app, "/_next/");
    forall i | i in {3, 4, 6, 7, 9, 10, 11, 12, 13, 14} ensures !Text.Occurs(x + t, table[i].search) {
      OtherQuoteAbsent(x, t, table[i].search);
    }
  }

  /** A relative `` `./_next/ `` becomes `` `/gpt-5/<app>/_next/ ``. */
  lemma BackRelativeNextAbsolute(app: string, t: string)
    requires AppName(app) && Inert(t)
    ensures ApplyTable("`./_next/" + t, Table(app)) == "`/gpt-5/" + app + "/_next/" + t
  {
    var table := Table(app);
    InertFree(t, table[2].search);
    Text.ReplaceAllAbsent(t, table[2].search, table[2].replace);
    Text.ReplaceAllFront(table[2].search, t, table[2].replace);
    OtherQuoteAbsent("`./_next/", t, table[0].search);
    OtherQuoteAbsent("`./_next/", t, table[1].search);
    BackNextSameQuoteMiss(app, t);
    BackNextOtherQuoteMiss(app, t);
    ApplyTableOnlyStep(table[2].search + t, table, 2, table[2].replace + t);
  }

  /** So does an absolute `` `/<app>/_next/ ``. */
  lemma BackAppNextAbsolute(app: string, t: string)
    requires AppName(app) && Inert(t)
    ensures ApplyTable("`/" + app + "/_next/" + t, Table(app)) == "`/gpt-5/" + app + "/_next/" + t
  {
    var table := Table(app);
    var x := "`/" + app + "/_next/";
    var c := x + t;
    InertFree(t, table[5].search);
    Text.ReplaceAllAbsent(t, table[5].search, table[5].replace);
    Text.ReplaceAllFront(table[5].search, t, table[5].replace);
    QuoteFreeApp("`/", app, "/_next/");
    MismatchAt(c, table[2].search, 1);
    NoQuotedOccurrence(x, t, table[2].search);
    OtherQuoteAbsent(x, t, table[0].search);
    OtherQuoteAbsent(x, t, table[1].search);
    OtherQuoteAbsent(x, t, table[3].search);
    OtherQuoteAbsent(x, t, table[4].search);
    BackNextSameQuoteMiss(app, t);
    BackNextOtherQuoteMiss(app, t);
    ApplyTableOnlyStep(c, table, 5, table[5].replace + t);
  }

  lemma BackRootEarlyMiss(app: string, t: string)
    requires AppName(app) && Inert(t) && !Text.StartsWith(t, "_next/")
    ensures forall i :: 0 <= i < 8 ==> !Text.Occurs("`/" + app + "/" + t, Table(app)[i].search)
  {
    var table := Table(app);
    var x := "`/" + app + "/";
    var c := x + t;
    QuoteFreeApp("`/", app, "/");
    MismatchAt(c, table[2].search, 1);
    assert table[5].search == x + "_next/";
    PrefixCancel(x, t, "_next/");
    NoQuotedOccurrence(x, t, table[2].search);
    NoQuotedOccurrence(x, t, table[5].search);
    forall i | i in {0, 1, 3, 4, 6, 7} ensures !Text.Occurs(c, table[i].search) {
      OtherQuoteAbsent(x, t, table[i].search);
    }
  }

  lemma BackRootLateMiss(app: string, t: string)
    requires AppName(app) && Inert(t)
    ensures forall i :: 9 <= i < 16 ==> !Text.Occurs("`/gpt-5/" + app + "/" + t, Table(app)[i].search)
  {
    var table := Table(app);
    var x := "`/gpt-5/" + app + "/";
    QuoteFreeApp("`/gpt-5/", app, "/");
    assert table[15].search == "`/gpt-5/" + "_next" + "/";
    NamesDiffer("`/gpt-5/", app, "_next", t);
    NoQuotedOccurrence(x, t, table[15].search);
    forall i | 9 <= i < 15 ensures !Text.Occurs(x + t, table[i].search) {
      OtherQuoteAbsent(x, t, table[i].search);
    }
  }

  /** A root reference `` `/<app>/ `` that does not go on with `_next/`
      becomes `` `/gpt-5/<app>/ ``. */
  lemma BackRootAbsolute(app: string, t: string)
    requires AppName(app) && Inert(t) && !Text.StartsWith(t, "_next/")
    ensures ApplyTable("`/" + app + "/" + t, Table(app)) == "`/gpt-5/" + app + "/" + t
  {
    var table := Table(app);
    InertFree(t, table[8].search);
    Text.ReplaceAllAbsent(t, table[8].search, table[8].replace);
    Text.ReplaceAllFront(table[8].search, t, table[8].replace);
    BackRootEarlyMiss(app, t);
    BackRootLateMiss(app, t);
    ApplyTableOnlyStep(table[8].search + t, table, 8, table[8].replace + t);
  }

  lemma BackGptNextSameQuoteMiss(app: string, t: string)
    requires AppName(app) && Inert(t)
    ensures forall i :: i in {2, 5, 8} ==> !Text.Occurs("`/gpt-5/_next/" + t, Table(app)[i].search)
  {
    var table := Table(app);
    var x := "`/gpt-5/_next/";
    BareBackNotApp(app, t);
    MismatchAt(x + t, table[2].search, 1);
    NoQuotedOccurrence(x, t, table[2].search);
    NoQuotedOccurrence(x, t, table[5].search);
    NoQuotedOccurrence(x, t, table[8].search);
  }

  lemma BackGptNextOtherQuoteMiss(app: string, t: string)
    requires AppName(app) && Inert(t)
    ensures forall i :: i in {0, 1, 3, 4, 6, 7, 9, 10, 11, 12, 13, 14} ==>
      !Text.Occurs("`/gpt-5/_next/" + t, Table(app)[i].search)
  {
    var table := Table(app);
    forall i | i in {0, 1, 3, 4, 6, 7, 9, 10, 11, 12, 13, 14} ensures !Text.Occurs("`/gpt-5/_next/" + t, table[i].search) {
      OtherQuoteAbsent("`/gpt-5/_next/", t, table[i].search);
    }
  }

  /** `` `/gpt-5/_next/ `` without the app name gets it from the last entry. */
  lemma BackGptNextGetsApp(app: string, t: string)
    requires AppName(app) && Inert(t)
    ensures ApplyTable("`/gpt-5/_next/" + t, Table(app)) == "`/gpt-5/" + app + "/_next/" + t
  {
    var table := Table(app);
    InertFree(t, table[15].search);
    Text.ReplaceAllAbsent(t, table[15].search, table[15].replace);
    Text.ReplaceAllFront(table[15].search, t, table[15].replace);
    BackGptNextSameQuoteMiss(app, t);
    BackGptNextOtherQuoteMiss(app, t);
    ApplyTableOnlyStep(table[15].search + t, table, 15, table[15].replace + t);
  }

  // ---------------------------------------------------------------------
  // `main`

  /** The two calls of `main`, below the `front-end` directory: `asteroid-game`, then
      `espresso`, each with the table for its own name. */
  function Jobs(): (jobs: seq<Job>)
    ensures |jobs| == 2
    ensures forall i :: 0 <= i < 2 ==>
      |jobs[i].dir| == 3 && AppName(jobs[i].dir[2]) && jobs[i].table == Table(jobs[i].dir[2])
  {
    ScriptAppNames();
    [ Job(["out", "gpt-5", "asteroid-game"], Table("asteroid-game")),
      Job(["out", "gpt-5", "espresso"], Table("espresso")) ]
  }

  /** `main`: the first call that rejects makes the script exit with
      status 1 (`ok` false) and skips the rest. */
  method RunScript(disk: Disk, tree: seq<Node>) returns (ok: bool)
    modifies disk
    ensures (disk.state, ok) == RunJobs(old(disk.state), tree, Jobs(), Buffered)
  {
    ok := RunJobsOn(disk, tree, Jobs(), Buffered);
  }
}
