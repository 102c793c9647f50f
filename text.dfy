/** String operations the JavaScript/TypeScript sources rely on, stated once:
    `s.split(p).join(r)` (and a global regular expression whose pattern is a
    plain literal), `s.replace(p, r)` with a string pattern, `split(",")`,
    `join(",")`, `startsWith`, `endsWith`, `includes` and ASCII `toLowerCase`. */
module Text {

  /** `p` occurs in `s` at position `i`. */
  predicate At(s: string, p: string, i: nat) {
    i + |p| <= |s| && s[i..i + |p|] == p
  }

  predicate Occurs(s: string, p: string) {
    exists i: nat | i <= |s| :: At(s, p, i)
  }

  predicate StartsWith(s: string, p: string) {
    |p| <= |s| && s[..|p|] == p
  }

  predicate EndsWith(s: string, p: string) {
    |p| <= |s| && s[|s| - |p|..] == p
  }

  /** `split("")` followed by `join(r)`: `r` between every two characters.
      Every table of the fix scripts has non-empty search strings, so only
      `ReplaceAll` with an empty pattern comes here. */
  function Interleave(s: string, r: string): (t: string)
    ensures |s| <= 1 ==> t == s
    ensures |s| > 0 ==> |t| == |s| + (|s| - 1) * |r|
    ensures forall i :: 0 <= i < |s| ==> i * (|r| + 1) < |t| && t[i * (|r| + 1)] == s[i]
  {
    if |s| <= 1 then s
    else
      var rest := Interleave(s[1..], r);
      var t := [s[0]] + r + rest;
      MulStep(|s| - 2, |r|);
      forall i | 0 < i < |s| ensures i * (|r| + 1) < |t| && t[i * (|r| + 1)] == s[i] {
        MulStep(i - 1, |r| + 1);
        assert s[1..][i - 1] == s[i];
      }
      t
  }

  lemma MulStep(j: int, w: int)
    ensures (j + 1) * w == j * w + w
  {
  }

  /** `s.split(p).join(r)`: every occurrence of `p`, found left to right
      without overlap, replaced by `r`. */
  function ReplaceAll(s: string, p: string, r: string): string
    decreases |s|
  {
    if |p| == 0 then Interleave(s, r)
    else if StartsWith(s, p) then r + ReplaceAll(s[|p|..], p, r)
    else if s == [] then []
    else [s[0]] + ReplaceAll(s[1..], p, r)
  }

  /** Index of the first occurrence of `p` in `s`, as `indexOf`. */
  function IndexOf(s: string, p: string): (k: int)
    ensures -1 <= k && (k >= 0 ==> At(s, p, k))
    ensures k >= 0 ==> forall j: nat :: j < k ==> !At(s, p, j)
    ensures k == -1 ==> !Occurs(s, p)
    decreases |s|
  {
    if StartsWith(s, p) then 0
    else if s == [] then -1
    else
      var k := IndexOf(s[1..], p);
      assert forall j: nat :: At(s, p, j + 1) ==> At(s[1..], p, j);
      if k == -1 then
        assert forall j: nat :: At(s, p, j) ==> j == 0 || At(s[1..], p, j - 1);
        -1
      else
        assert forall j: nat :: j < k + 1 && At(s, p, j) ==> j == 0 || At(s[1..], p, j - 1);
        k + 1
  }

  /** `s.replace(p, r)` with a string pattern: only the first occurrence. */
  function ReplaceFirst(s: string, p: string, r: string): string {
    var k := IndexOf(s, p);
    if k == -1 then s else s[..k] + r + s[k + |p|..]
  }

  /** `s.split(c)` for a one-character separator: the pieces between the
      separators, possibly empty; there is always at least one. */
  function Split(s: string, c: char): (r: seq<string>)
    ensures |r| >= 1
  {
    if s == [] then [[]]
    else
      var t := Split(s[1..], c);
      if s[0] == c then [[]] + t else [[s[0]] + t[0]] + t[1..]
  }

  /** `parts.join(sep)`. */
  function Join(parts: seq<string>, sep: string): string {
    if |parts| == 0 then ""
    else if |parts| == 1 then parts[0]
    else parts[0] + sep + Join(parts[1..], sep)
  }

  /** ASCII part of `toLowerCase`. */
  function LowerChar(c: char): char {
    if 'A' <= c <= 'Z' then (c as int + 32) as char else c
  }

  function ToLower(s: string): (t: string)
    ensures |t| == |s| && forall i :: 0 <= i < |s| ==> t[i] == LowerChar(s[i])
  {
    if s == [] then [] else [LowerChar(s[0])] + ToLower(s[1..])
  }

  /** `items.indexOf(a)` on an array of strings: the first index holding
      `a`, or -1. */
  function Position(items: seq<string>, a: string): (k: int)
    ensures -1 <= k < |items|
    ensures k >= 0 ==> items[k] == a && forall j :: 0 <= j < k ==> items[j] != a
    ensures k == -1 <==> a !in items
  {
    if items == [] then -1
    else if items[0] == a then 0
    else
      var k := Position(items[1..], a);
      if k == -1 then -1 else k + 1
  }

  /** The first occurrence is the one after a prefix without it. */
  lemma PositionAfter(pre: seq<string>, a: string, rest: seq<string>)
    requires a !in pre
    ensures Position(pre + [a] + rest, a) == |pre|
  {
    var items := pre + [a] + rest;
    assert items[|pre|] == a;
    assert forall j :: 0 <= j < |pre| ==> items[j] == pre[j];
  }

  /** There is a position before the end of both where `p` and `r` differ. */
  predicate Differ(p: string, r: string) {
    exists k: nat :: k < |p| && k < |r| && p[k] != r[k]
  }

  // ---------------------------------------------------------------------
  // Small facts about occurrences, stated as equivalences so that callers
  // can use them without first assuming an occurrence

  lemma AtShift(s: string, p: string, i: nat, n: nat)
    requires n <= |s|
    ensures At(s[n..], p, i) <==> At(s, p, i + n)
  {
    if i + n + |p| <= |s| {
      assert s[i + n..i + n + |p|] == s[n..][i..i + |p|];
    }
  }

  lemma AtConcat(x: string, t: string, p: string, i: nat)
    requires i >= |x|
    ensures At(x + t, p, i) <==> At(t, p, i - |x|)
  {
    if i + |p| <= |x + t| {
      assert (x + t)[i..i + |p|] == t[i - |x|..i - |x| + |p|];
    }
  }

  lemma AtChar(s: string, p: string, i: nat, k: nat)
    requires k < |p|
    ensures At(s, p, i) ==> s[i + k] == p[k]
  {
    if At(s, p, i) { assert s[i..i + |p|][k] == s[i + k]; }
  }

  lemma AtSingle(s: string, c: char, j: nat)
    requires j < |s|
    ensures At(s, [c], j) <==> s[j] == c
  {
    assert s[j..j + 1] == [s[j]];
  }

  lemma StartsWithAt(s: string, p: string)
    ensures StartsWith(s, p) <==> At(s, p, 0)
  {
  }

  lemma StartsWithCons(x: string, w: string)
    requires |x| > 0 && |w| > 0
    ensures StartsWith(x, w) <==> x[0] == w[0] && StartsWith(x[1..], w[1..])
  {
    if |w| <= |x| {
      assert x[..|w|] == [x[0]] + x[1..][..|w| - 1];
      assert w == [w[0]] + w[1..];
    }
  }

  /** A string occurs in any string built around it. */
  lemma OccursMiddle(a: string, p: string, b: string)
    ensures Occurs(a + p + b, p)
  {
    var s := a + p + b;
    assert s[|a|..|a| + |p|] == p;
    assert At(s, p, |a|);
  }

  lemma NotOccursAt(s: string, p: string, i: nat)
    requires !Occurs(s, p)
    ensures !At(s, p, i)
  {
    assert At(s, p, i) ==> i <= |s|;
  }

  /** A string without the first character of `p` has no occurrence of `p`. */
  lemma NoHeadNoOccurrence(s: string, p: string)
    requires |p| > 0 && p[0] !in s
    ensures !Occurs(s, p)
  {
    forall i: nat | i <= |s| ensures !At(s, p, i) {
      AtChar(s, p, i, 0);
      if i < |s| { assert s[i] in s; }
    }
  }

  /** Once `p` is gone, every longer pattern that begins with `p` is gone too. */
  lemma NoOccurrenceOfLonger(s: string, p: string, x: string)
    requires !Occurs(s, p)
    ensures !Occurs(s, p + x)
  {
    forall i: nat | i <= |s| ensures !At(s, p + x, i) {
      NotOccursAt(s, p, i);
      if i + |p + x| <= |s| {
        assert s[i..i + |p|] == s[i..i + |p + x|][..|p|];
        assert (p + x)[..|p|] == p;
      }
    }
  }

  /** An occurrence is either at the front or in the tail. */
  lemma OccursUncons(s: string, p: string)
    requires |s| > 0
    ensures Occurs(s, p) <==> StartsWith(s, p) || Occurs(s[1..], p)
  {
    StartsWithAt(s, p);
    if Occurs(s, p) && !StartsWith(s, p) {
      var i: nat :| i <= |s| && At(s, p, i);
      AtShift(s, p, i - 1, 1);
    }
    if Occurs(s[1..], p) {
      var i: nat :| i <= |s[1..]| && At(s[1..], p, i);
      AtShift(s, p, i, 1);
    }
  }

  lemma OccursInTail(s: string, p: string, n: nat)
    requires n <= |s|
    ensures !Occurs(s, p) ==> !Occurs(s[n..], p)
  {
    forall i: nat | i <= |s[n..]| ensures !Occurs(s, p) ==> !At(s[n..], p, i) {
      AtShift(s, p, i, n);
      if !Occurs(s, p) { NotOccursAt(s, p, i + n); }
    }
  }

  // ---------------------------------------------------------------------
  // Replace-all

  /** Replacing a pattern that does not occur changes nothing. */
  lemma {:induction false} ReplaceAllAbsent(s: string, p: string, r: string)
    requires |p| > 0 && !Occurs(s, p)
    ensures ReplaceAll(s, p, r) == s
    decreases |s|
  {
    StartsWithAt(s, p);
    NotOccursAt(s, p, 0);
    if s != [] {
      OccursInTail(s, p, 1);
      ReplaceAllAbsent(s[1..], p, r);
      assert s == [s[0]] + s[1..];
    }
  }

  /** A change made by replace-all proves the pattern occurred. */
  lemma ReplaceAllChangedOccurs(s: string, p: string, r: string)
    requires |p| > 0
    ensures ReplaceAll(s, p, r) != s ==> Occurs(s, p)
  {
    if !Occurs(s, p) { ReplaceAllAbsent(s, p, r); }
  }

  /** A pattern at the very front is replaced there. */
  lemma ReplaceAllFront(p: string, t: string, r: string)
    requires |p| > 0
    ensures ReplaceAll(p + t, p, r) == r + ReplaceAll(t, p, r)
  {
    assert (p + t)[..|p|] == p;
    assert (p + t)[|p|..] == t;
  }

  /** Text without the first character of the pattern is copied unchanged. */
  lemma {:induction false} ReplaceAllSkipsFree(w: string, t: string, p: string, r: string)
    requires |p| > 0 && p[0] !in w
    ensures ReplaceAll(w + t, p, r) == w + ReplaceAll(t, p, r)
    decreases |w|
  {
    if w == [] {
      assert w + t == t;
    } else {
      assert (w + t)[0] == w[0];
      StartsWithCons(w + t, p);
      assert (w + t)[1..] == w[1..] + t;
      assert forall c :: c in w[1..] ==> c in w;
      ReplaceAllSkipsFree(w[1..], t, p, r);
      assert [w[0]] + (w[1..] + ReplaceAll(t, p, r)) == w + ReplaceAll(t, p, r);
    }
  }

  /** If the result of a replace-all begins with `w`, and `w` holds no copy of
      the replacement's first character, the input began with `w` too. */
  lemma {:induction false} PrefixSurvives(t: string, p: string, r: string, w: string)
    requires |p| > 0 && |r| > 0 && r[0] !in w
    ensures StartsWith(ReplaceAll(t, p, r), w) ==> StartsWith(t, w)
    decreases |t|
  {
    var u := ReplaceAll(t, p, r);
    if w == [] {
    } else if StartsWith(t, p) {
      assert u[0] == r[0];
      assert w[0] != r[0] by { assert w[0] in w; }
    } else if t == [] {
    } else {
      var u' := ReplaceAll(t[1..], p, r);
      assert u == [t[0]] + u';
      assert forall c :: c in w[1..] ==> c in w;
      PrefixSurvives(t[1..], p, r, w[1..]);
      StartsWithCons(u, w);
      StartsWithCons(t, w);
      assert u[1..] == u';
    }
  }

  /** Replace-all removes every occurrence of its pattern when the two cannot
      combine into a new occurrence: the replacement's first character is not
      in the rest of the pattern, the pattern's first character (a quote, in
      every use) is not in the rest of the replacement, and the two differ
      before either ends. */
  lemma {:induction false} ReplaceAllRemoves(s: string, p: string, r: string)
    requires |p| > 0 && |r| > 0
    requires r[0] !in p[1..] && p[0] !in r[1..] && Differ(p, r)
    ensures !Occurs(ReplaceAll(s, p, r), p)
    decreases |s|
  {
    var u := ReplaceAll(s, p, r);
    if StartsWith(s, p) {
      var t := ReplaceAll(s[|p|..], p, r);
      ReplaceAllRemoves(s[|p|..], p, r);
      assert u == r + t;
      forall i: nat | i <= |u| ensures !At(u, p, i) {
        if i >= |r| {
          AtConcat(r, t, p, i);
          NotOccursAt(t, p, i - |r|);
        } else if i == 0 {
          var k: nat :| k < |p| && k < |r| && p[k] != r[k];
          AtChar(u, p, 0, k);
          assert u[k] == r[k];
        } else {
          AtChar(u, p, i, 0);
          assert u[i] == r[i] == r[1..][i - 1];
        }
      }
    } else if s != [] {
      var t := ReplaceAll(s[1..], p, r);
      ReplaceAllRemoves(s[1..], p, r);
      assert u == [s[0]] + t;
      forall i: nat | i <= |u| ensures !At(u, p, i) {
        if i >= 1 {
          AtConcat([s[0]], t, p, i);
          NotOccursAt(t, p, i - 1);
        } else {
          StartsWithAt(u, p);
          StartsWithCons(u, p);
          assert u[1..] == t;
          PrefixSurvives(s[1..], p, r, p[1..]);
          StartsWithCons(s, p);
        }
      }
    }
  }

  /** Replace-all does not create an occurrence of another pattern `q` whose
      first character is absent from the replacement and whose rest lacks the
      replacement's first character. */
  lemma {:induction false} ReplaceAllPreservesAbsence(s: string, p: string, r: string, q: string)
    requires |p| > 0 && |r| > 0 && |q| > 0
    requires !Occurs(s, q) && q[0] !in r && r[0] !in q[1..]
    ensures !Occurs(ReplaceAll(s, p, r), q)
    decreases |s|
  {
    var u := ReplaceAll(s, p, r);
    if StartsWith(s, p) {
      var t := ReplaceAll(s[|p|..], p, r);
      OccursInTail(s, q, |p|);
      ReplaceAllPreservesAbsence(s[|p|..], p, r, q);
      assert u == r + t;
      forall i: nat | i <= |u| ensures !At(u, q, i) {
        if i >= |r| {
          AtConcat(r, t, q, i);
          NotOccursAt(t, q, i - |r|);
        } else {
          AtChar(u, q, i, 0);
          assert u[i] == r[i] && r[i] in r;
        }
      }
    } else if s != [] {
      var t := ReplaceAll(s[1..], p, r);
      OccursInTail(s, q, 1);
      ReplaceAllPreservesAbsence(s[1..], p, r, q);
      assert u == [s[0]] + t;
      forall i: nat | i <= |u| ensures !At(u, q, i) {
        if i >= 1 {
          AtConcat([s[0]], t, q, i);
          NotOccursAt(t, q, i - 1);
        } else {
          StartsWithAt(u, q);
          StartsWithCons(u, q);
          assert u[1..] == t;
          PrefixSurvives(s[1..], p, r, q[1..]);
          StartsWithCons(s, q);
          StartsWithAt(s, q);
          NotOccursAt(s, q, 0);
        }
      }
    }
  }

  // ---------------------------------------------------------------------
  // Replace-first

  /** Only the first occurrence is replaced: a second copy right after the
      first one survives. */
  lemma ReplaceFirstOnlyFirst(p: string, r: string, t: string)
    requires |p| > 0
    ensures ReplaceFirst(p + p + t, p, r) == r + p + t
  {
    var s := p + p + t;
    assert s[..|p|] == p;
    assert s[|p|..] == p + t;
  }

  /** `p` is found first right after `a` when its second character is nowhere
      in `a` and differs from its first. */
  lemma ReplaceFirstAfterFree(a: string, p: string, b: string, r: string)
    requires |p| >= 2 && p[1] !in a && p[0] != p[1]
    ensures ReplaceFirst(a + p + b, p, r) == a + r + b
  {
    var s := a + p + b;
    assert At(s, p, |a|) by { assert s[|a|..|a| + |p|] == p; }
    forall j: nat | j < |a| ensures !At(s, p, j) {
      AtChar(s, p, j, 1);
      if j + 1 < |a| { assert s[j + 1] == a[j + 1] && a[j + 1] in a; } else { assert s[j + 1] == p[0]; }
    }
    var k := IndexOf(s, p);
    assert k == |a|;
    assert s[..|a|] == a;
    assert s[|a| + |p|..] == b;
  }

  lemma ReplaceFirstAbsent(s: string, p: string, r: string)
    requires !Occurs(s, p)
    ensures ReplaceFirst(s, p, r) == s
  {
  }

  // ---------------------------------------------------------------------
  // Split and join

  lemma JoinCons(a: string, tail: seq<string>, sep: string)
    requires |tail| >= 1
    ensures Join([a] + tail, sep) == a + sep + Join(tail, sep)
  {
    assert ([a] + tail)[1..] == tail;
  }

  /** A join begins with its first piece. */
  lemma JoinHead(parts: seq<string>, sep: string)
    requires |parts| >= 1
    ensures |parts[0]| <= |Join(parts, sep)| && Join(parts, sep)[..|parts[0]|] == parts[0]
  {
    if |parts| > 1 {
      JoinCons(parts[0], parts[1..], sep);
      assert parts == [parts[0]] + parts[1..];
    }
  }

  /** Putting a character in front of the first piece puts it in front of
      the join. */
  lemma JoinPrefixHead(x: char, t: seq<string>, sep: string)
    requires |t| >= 1
    ensures Join([[x] + t[0]] + t[1..], sep) == [x] + Join(t, sep)
  {
    if |t| > 1 {
      JoinCons([x] + t[0], t[1..], sep);
      JoinCons(t[0], t[1..], sep);
      assert t == [t[0]] + t[1..];
    }
  }

  /** Joining the pieces of a split with the separator gives back the input. */
  lemma {:induction false} JoinSplit(s: string, c: char)
    ensures Join(Split(s, c), [c]) == s
    decreases |s|
  {
    if s != [] {
      var t := Split(s[1..], c);
      JoinSplit(s[1..], c);
      if s[0] == c {
        JoinCons([], t, [c]);
      } else {
        JoinPrefixHead(s[0], t, [c]);
      }
      assert s == [s[0]] + s[1..];
    }
  }

  /** No piece of a split contains the separator. */
  lemma {:induction false} SplitPiecesFree(s: string, c: char)
    ensures forall i :: 0 <= i < |Split(s, c)| ==> c !in Split(s, c)[i]
    decreases |s|
  {
    if s != [] {
      var t := Split(s[1..], c);
      SplitPiecesFree(s[1..], c);
      var parts := Split(s, c);
      forall i | 0 <= i < |parts| ensures c !in parts[i] {
        if s[0] == c {
          if i > 0 { assert parts[i] == t[i - 1]; }
        } else if i > 0 {
          assert parts[i] == t[i];
        } else {
          assert parts[0] == [s[0]] + t[0];
        }
      }
    }
  }

  /** A separator-free string is a single piece, and a separator after it
      ends the first piece. */
  lemma {:induction false} SplitFree(a: string, rest: string, c: char)
    requires c !in a
    ensures Split(a, c) == [a]
    ensures Split(a + [c] + rest, c) == [a] + Split(rest, c)
    decreases |a|
  {
    if a == [] {
      assert [] + [c] + rest == [c] + rest;
      assert ([c] + rest)[1..] == rest;
    } else {
      assert a[0] in a;
      var s := a + [c] + rest;
      assert s[0] == a[0] && s[1..] == a[1..] + [c] + rest;
      assert c !in a[1..] by { assert forall x :: x in a[1..] ==> x in a; }
      SplitFree(a[1..], rest, c);
      assert a == [a[0]] + a[1..];
    }
  }

  /** Splitting a join of separator-free pieces gives back the pieces. */
  lemma {:induction false} SplitJoin(parts: seq<string>, c: char)
    requires |parts| >= 1
    requires forall i :: 0 <= i < |parts| ==> c !in parts[i]
    ensures Split(Join(parts, [c]), c) == parts
    decreases |parts|
  {
    if |parts| == 1 {
      SplitFree(parts[0], [], c);
    } else {
      var rest := Join(parts[1..], [c]);
      SplitFree(parts[0], rest, c);
      SplitJoin(parts[1..], c);
      assert parts == [parts[0]] + parts[1..];
    }
  }

  /** The first separator in `x + [c] + u` is the one after `x`. */
  lemma FirstSeparator(x: string, u: string, c: char)
    requires c !in x
    ensures IndexOf(x + [c] + u, [c]) == |x|
  {
    var s := x + [c] + u;
    assert At(s, [c], |x|) by { assert s[|x|..|x| + 1] == [c]; }
    forall j: nat | j < |x| ensures !At(s, [c], j) {
      AtSingle(s, c, j);
      assert s[j] == x[j] && x[j] in x;
    }
    assert IndexOf(s, [c]) == |x|;
  }

  /** A separator-free head followed by the separator is determined by the
      string it begins. */
  lemma SeparatedPrefix(x: string, u: string, y: string, v: string, c: char)
    requires c !in x && c !in y && x + [c] + u == y + [c] + v
    ensures x == y && u == v
  {
    var s := x + [c] + u;
    FirstSeparator(x, u, c);
    FirstSeparator(y, v, c);
    assert |x| == |y|;
    assert x == s[..|x|] == y;
    assert u == s[|x| + 1..] == v;
  }
}
