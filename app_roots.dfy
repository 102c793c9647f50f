/** The three entries the `fix-nextjs-apps` scripts open their tables with:
    a reference to the app's root in each quote style, `"/<app>/`,
    `'/<app>/` and `` `/<app>/ ``, moved to a target prefix in the same
    quote style. */
module AppRoots {
  import Text
  import opened Rewrite

  predicate QuoteFree(s: string) {
    '"' !in s && '\'' !in s && '`' !in s
  }

  /** The entry for quote `q` (a one-character string). */
  function RootEntry(q: string, app: string, target: string): (r: Replacement)
    ensures |r.search| == |q| + |app| + 2
  {
    Replacement(q + "/" + app + "/", q + target + "/")
  }

  function RootEntries(app: string, target: string): (t: seq<Replacement>)
    ensures |t| == 3 && Searchable(t)
  {
    [RootEntry("\"", app, target), RootEntry("'", app, target), RootEntry("`", app, target)]
  }

  /** What the targets of the fix scripts have in common: neither the app
      nor the target holds a quote, and the target is not the app's root
      again, so that the entries cannot recreate what they remove. */
  predicate GoodTarget(app: string, target: string) {
    QuoteFree(app) && QuoteFree(target) && Text.Differ("/" + app + "/", target + "/")
  }

  /** The names the scripts are called with hold no quote. */
  lemma NamesQuoteFree()
    ensures QuoteFree("asteroid-game") && QuoteFree("espresso")
    ensures QuoteFree("apps/gpt-5") && QuoteFree("/openai/")
  {
    AppsQuoteFree();
    PrefixesQuoteFree();
  }

  lemma AppsQuoteFree()
    ensures QuoteFree("asteroid-game") && QuoteFree("espresso")
  {
  }

  lemma PrefixesQuoteFree()
    ensures QuoteFree("apps/gpt-5") && QuoteFree("/openai/")
  {
  }

  /** No reference to the app's root is left, in any quote style. */
  predicate RootFree(c: string, app: string) {
    !Text.Occurs(c, RootEntry("\"", app, "").search)
    && !Text.Occurs(c, RootEntry("'", app, "").search)
    && !Text.Occurs(c, RootEntry("`", app, "").search)
  }

  predicate OneQuote(q: string) {
    q == "\"" || q == "'" || q == "`"
  }

  /** One entry leaves no occurrence of its own search string. */
  lemma RootRemoved(c: string, q: string, app: string, target: string)
    requires OneQuote(q) && GoodTarget(app, target)
    ensures !Text.Occurs(Step(c, RootEntry(q, app, target)), RootEntry(q, app, "").search)
  {
    var e := RootEntry(q, app, target);
    var a, b := "/" + app + "/", target + "/";
    assert e.search == q + a && e.replace == q + b;
    var k: nat :| k < |a| && k < |b| && a[k] != b[k];
    assert e.search[k + 1] == a[k] && e.replace[k + 1] == b[k];
    assert e.search[1..] == a && e.replace[1..] == b;
    assert q[0] !in a && q[0] !in b;
    Text.ReplaceAllRemoves(c, e.search, e.replace);
    assert RootEntry(q, app, "").search == e.search;
  }

  /** An entry for another quote does not bring the search string back. */
  lemma RootKeptAbsent(c: string, q: string, q2: string, app: string, target: string)
    requires OneQuote(q) && OneQuote(q2) && q != q2 && GoodTarget(app, target)
    requires !Text.Occurs(c, RootEntry(q, app, "").search)
    ensures !Text.Occurs(Step(c, RootEntry(q2, app, target)), RootEntry(q, app, "").search)
  {
    var e, p := RootEntry(q2, app, target), RootEntry(q, app, "").search;
    assert p == q + ("/" + app + "/") && p[1..] == "/" + app + "/";
    assert e.replace == q2 + (target + "/");
    assert q2[0] !in p[1..];
    assert q[0] !in q2 && q[0] !in target + "/";
    Text.ReplaceAllPreservesAbsence(c, e.search, e.replace, p);
  }

  /** After the three entries, no reference to the app's root is left. */
  lemma RootsGone(c: string, app: string, target: string)
    requires GoodTarget(app, target)
    ensures RootFree(ApplyTable(c, RootEntries(app, target)), app)
  {
    var t := RootEntries(app, target);
    var m1 := Step(c, t[0]);
    var m2 := Step(m1, t[1]);
    var m3 := Step(m2, t[2]);
    assert ApplyTable(c, t) == m3 by {
      ApplyTableSnoc(c, t, 0);
      ApplyTableSnoc(c, t, 1);
      ApplyTableSnoc(c, t, 2);
      assert t[..3] == t;
    }
    RootRemoved(c, "\"", app, target);
    RootKeptAbsent(m1, "\"", "'", app, target);
    RootKeptAbsent(m2, "\"", "`", app, target);
    RootRemoved(m1, "'", app, target);
    RootKeptAbsent(m2, "'", "`", app, target);
    RootRemoved(m2, "`", app, target);
  }

  /** A root reference followed by inert text moves to the target, in its
      own quote style. */
  lemma RootMoved(q: string, app: string, target: string, t: string)
    requires OneQuote(q) && GoodTarget(app, target) && Inert(t)
    ensures ApplyTable(RootEntry(q, app, target).search + t, RootEntries(app, target))
      == RootEntry(q, app, target).replace + t
  {
    var table := RootEntries(app, target);
    var j := if q == "\"" then 0 else if q == "'" then 1 else 2;
    var e := table[j];
    assert e == RootEntry(q, app, target);
    var x, y := e.search, e.replace;
    EntryQuotes(q, app, target);
    InertFree(t, x);
    Text.ReplaceAllAbsent(t, x, y);
    Text.ReplaceAllFront(x, t, y);
    forall i | 0 <= i < 3 && i != j
      ensures !Text.Occurs(x + t, table[i].search) && !Text.Occurs(y + t, table[i].search)
    {
      var q2 := if i == 0 then "\"" else if i == 1 then "'" else "`";
      assert table[i] == RootEntry(q2, app, target);
      OtherEntryAbsent(q, q2, app, target, t);
    }
    ApplyTableOnlyStep(x + t, table, j, y + t);
  }

  /** Past its opening quote, neither side of an entry holds a quote. */
  lemma EntryQuotes(q: string, app: string, target: string)
    requires OneQuote(q) && GoodTarget(app, target)
    ensures var e := RootEntry(q, app, target);
      QuotedPath(e.search) && e.search[0] == q[0] && e.search[1] == '/'
      && |e.replace| > 0 && e.replace[0] == q[0] && e.replace[|e.replace| - 1] == '/'
      && (forall i :: 0 < i < |e.search| ==> !IsQuote(e.search[i]))
      && (forall i :: 0 < i < |e.replace| ==> !IsQuote(e.replace[i]))
  {
    var x, y := RootEntry(q, app, target).search, RootEntry(q, app, target).replace;
    assert x == q + ("/" + app + "/") && y == q + (target + "/");
    forall i | 0 < i < |x| ensures !IsQuote(x[i]) {
      assert x[i] == ("/" + app + "/")[i - 1];
    }
    forall i | 0 < i < |y| ensures !IsQuote(y[i]) {
      assert y[i] == (target + "/")[i - 1];
    }
  }

  /** Moving a root reference in one quote style neither meets nor makes the
      search string of another quote style. */
  lemma OtherEntryAbsent(q: string, q2: string, app: string, target: string, t: string)
    requires OneQuote(q) && OneQuote(q2) && q != q2 && GoodTarget(app, target) && Inert(t)
    ensures var e := RootEntry(q, app, target);
      !Text.Occurs(e.search + t, RootEntry(q2, app, target).search)
      && !Text.Occurs(e.replace + t, RootEntry(q2, app, target).search)
  {
    EntryQuotes(q, app, target);
    EntryQuotes(q2, app, target);
    var e, p := RootEntry(q, app, target), RootEntry(q2, app, target).search;
    assert p[0] != e.search[0];
    OtherQuoteAbsent(e.search, t, p);
    OtherQuoteAbsent(e.replace, t, p);
  }

  // ---------------------------------------------------------------------
  // The favicon entries that follow

  /** A favicon reference in quote style `q`, before and after the move. */
  function FaviconRef(q: string): string {
    q + "/favicon.ico" + q
  }

  function MovedFaviconRef(q: string, target: string): string {
    q + target + "/favicon.ico" + q
  }

  function FaviconEntries(target: string): (t: seq<Replacement>)
    ensures |t| == 2 && Searchable(t) && QuotedPaths(t)
  {
    [ Replacement(FaviconRef("\""), MovedFaviconRef("\"", target)),
      Replacement(FaviconRef("'"), MovedFaviconRef("'", target)) ]
  }

  /** A moved root reference is not a favicon reference. */
  lemma FaviconsMissMoved(q: string, app: string, target: string, t: string)
    requires OneQuote(q) && GoodTarget(app, target) && |target| > 0 && Inert(t)
    ensures forall i :: 0 <= i < 2 ==>
      !Text.Occurs(RootEntry(q, app, target).replace + t, FaviconEntries(target)[i].search)
  {
    var y := RootEntry(q, app, target).replace;
    EntryQuotes(q, app, target);
    assert |y| >= 2;
    var fs := FaviconEntries(target);
    forall i | 0 <= i < 2 ensures !Text.Occurs(y + t, fs[i].search) {
      var f := fs[i].search;
      if f[0] != y[0] {
        OtherQuoteAbsent(y, t, f);
      } else {
        if |y| >= |f| {
          MismatchAt(y + t, f, |f| - 1);
        } else {
          assert y[|y| - 1] == '/' && |y| >= 3;
          MismatchAt(y + t, f, |y| - 1);
        }
        NoQuotedOccurrence(y, t, f);
      }
    }
  }

  /** A root reference followed by inert text moves to the target, and the
      favicon entries leave the result alone. */
  lemma RootMovedThrough(q: string, app: string, target: string, t: string)
    requires OneQuote(q) && GoodTarget(app, target) && |target| > 0 && Inert(t)
    ensures ApplyTable(RootEntry(q, app, target).search + t, RootEntries(app, target) + FaviconEntries(target))
      == RootEntry(q, app, target).replace + t
  {
    var y := RootEntry(q, app, target).replace + t;
    RootMoved(q, app, target, t);
    ApplyTableAppend(RootEntry(q, app, target).search + t, RootEntries(app, target), FaviconEntries(target));
    FaviconsMissMoved(q, app, target, t);
    ApplyTableAllAbsent(y, FaviconEntries(target));
  }

  /** The quotes a favicon entry is written in. */
  predicate FaviconQuote(q: string) {
    q == "\"" || q == "'"
  }

  /** The opening part of a favicon reference, up to its closing quote. */
  lemma FaviconHead(q: string)
    requires FaviconQuote(q)
    ensures var x := q + "/favicon.ico";
      |x| == 13 && x[0] == q[0] && x[1] == '/'
      && (forall i :: 2 <= i < 13 ==> x[i] != '/')
      && (forall i :: 0 < i < 13 ==> !IsQuote(x[i]))
  {
    assert q + "/favicon.ico" == [q[0], '/', 'f', 'a', 'v', 'i', 'c', 'o', 'n', '.', 'i', 'c', 'o'];
  }

  /** No quote-free app name makes `"/<app>/` match a favicon reference: the
      character after the name would be in `favicon.ico`, the closing quote
      or the name itself, and none of them is `/`. The closing quote is
      part of the text that follows, which must be inert together with it:
      in `"/favicon.ico"/<app>/` the closing quote opens a root reference
      of its own. */
  lemma RootMissesFavicon(q: string, q2: string, app: string, t: string)
    requires FaviconQuote(q) && OneQuote(q2) && QuoteFree(app) && Inert(q + t)
    ensures !Text.Occurs(FaviconRef(q) + t, q2 + "/" + app + "/")
  {
    var x, u := q + "/favicon.ico", q + t;
    var s, p := x + u, q2 + "/" + app + "/";
    assert FaviconRef(q) + t == s;
    FaviconHead(q);
    if q2 != q {
      OtherQuoteAbsent(x, u, p);
    } else {
      var k := 2 + |app|;
      assert p[k] == '/';
      if |app| <= 10 {
        assert s[k] == x[k];
        MismatchAt(s, p, k);
      } else if |app| == 11 {
        assert s[k] == u[0] == q[0];
        MismatchAt(s, p, k);
      } else {
        assert app[11] in app && p[13] == app[11] && s[13] == u[0] == q[0];
        MismatchAt(s, p, 13);
      }
      NoQuotedOccurrence(x, u, p);
    }
  }

  lemma RootsMissFavicon(q: string, app: string, target: string, t: string)
    requires FaviconQuote(q) && QuoteFree(app) && Inert(q + t)
    ensures forall i :: 0 <= i < 3 ==>
      !Text.Occurs(FaviconRef(q) + t, RootEntries(app, target)[i].search)
  {
    RootMissesFavicon(q, "\"", app, t);
    RootMissesFavicon(q, "'", app, t);
    RootMissesFavicon(q, "`", app, t);
  }

  /** The favicon entry of the other quote style misses a favicon reference
      before and after its move. */
  lemma OtherFaviconMiss(q: string, target: string, t: string)
    requires FaviconQuote(q) && QuoteFree(target) && Inert(q + t)
    ensures var other := FaviconEntries(target)[if q == "\"" then 1 else 0].search;
      !Text.Occurs(FaviconRef(q) + t, other) && !Text.Occurs(MovedFaviconRef(q, target) + t, other)
  {
    var other := FaviconEntries(target)[if q == "\"" then 1 else 0].search;
    var x, z, u := q + "/favicon.ico", q + target + "/favicon.ico", q + t;
    assert FaviconRef(q) + t == x + u && MovedFaviconRef(q, target) + t == z + u;
    FaviconHead(q);
    forall i | 0 < i < |z| ensures !IsQuote(z[i]) {
      if i - 1 < |target| {
        assert z[i] == target[i - 1] && target[i - 1] in target;
      } else {
        assert z[i] == x[i - |target|];
      }
    }
    OtherQuoteAbsent(x, u, other);
    OtherQuoteAbsent(z, u, other);
  }

  /** A favicon reference in either quote style moves below the target and
      keeps its quotes. */
  lemma FaviconMoved(q: string, target: string, t: string)
    requires FaviconQuote(q) && QuoteFree(target) && Inert(q + t)
    ensures ApplyTable(FaviconRef(q) + t, FaviconEntries(target)) == MovedFaviconRef(q, target) + t
  {
    var favs := FaviconEntries(target);
    var k := if q == "\"" then 0 else 1;
    var f, y := FaviconRef(q), MovedFaviconRef(q, target);
    assert favs[k] == Replacement(f, y);
    FaviconStep(q, target, t);
    OtherFaviconMiss(q, target, t);
    ApplyTableOnlyStep(f + t, favs, k, y + t);
  }

  /** The entry of the reference's own quote style moves it. */
  lemma FaviconStep(q: string, target: string, t: string)
    requires FaviconQuote(q) && Inert(q + t)
    ensures Text.ReplaceAll(FaviconRef(q) + t, FaviconRef(q), MovedFaviconRef(q, target)) == MovedFaviconRef(q, target) + t
  {
    var f, y := FaviconRef(q), MovedFaviconRef(q, target);
    assert q + t == [q[0]] + t;
    InertTail(q[0], t);
    assert QuotedPath(f);
    InertFree(t, f);
    Text.ReplaceAllAbsent(t, f, y);
    Text.ReplaceAllFront(f, t, y);
  }

  /** Through the root entries and the favicon entries together. */
  lemma FaviconMovedThrough(q: string, app: string, target: string, t: string)
    requires FaviconQuote(q) && QuoteFree(app) && QuoteFree(target) && Inert(q + t)
    ensures ApplyTable(FaviconRef(q) + t, RootEntries(app, target) + FaviconEntries(target))
      == MovedFaviconRef(q, target) + t
  {
    var c := FaviconRef(q) + t;
    RootsMissFavicon(q, app, target, t);
    ApplyTableAllAbsent(c, RootEntries(app, target));
    ApplyTableAppend(c, RootEntries(app, target), FaviconEntries(target));
    FaviconMoved(q, target, t);
  }
}
