/** Command-line parsing of the generation script: `--force-all`,
    `--concurrency <n>`, `--force <app ids...>` and leading model ids. */
module GenerateArgs {
  import opened Wrappers
  import opened ModelsConfig
  import Text

  datatype Options = Options(force: seq<string>, forceAll: bool, modelFilter: seq<string>, concurrency: nat)

  // ---------------------------------------------------------------------
  // Array helpers as used on `argv`

  /** A token that starts with `--` ends a run of values. */
  predicate IsFlag(t: string) {
    Text.StartsWith(t, "--")
  }

  /** The tokens before the first flag. */
  function Leading(s: seq<string>): (r: seq<string>)
    ensures |r| <= |s| && r == s[..|r|]
    ensures forall x :: x in r ==> !IsFlag(x)
    ensures |r| < |s| ==> IsFlag(s[|r|])
  {
    if s == [] || IsFlag(s[0]) then [] else [s[0]] + Leading(s[1..])
  }

  /** The three properties of `Leading` pin it down. */
  lemma {:induction false} LeadingExact(s: seq<string>, j: nat)
    requires j <= |s|
    requires forall k :: 0 <= k < j ==> !IsFlag(s[k])
    requires j == |s| || IsFlag(s[j])
    ensures Leading(s) == s[..j]
  {
    if j > 0 {
      var t := s[1..];
      assert forall k :: 0 <= k < j - 1 ==> t[k] == s[k + 1];
      assert j - 1 < |t| ==> t[j - 1] == s[j];
      LeadingExact(t, j - 1);
      assert s[..j] == [s[0]] + t[..j - 1];
    }
  }

  // ---------------------------------------------------------------------
  // parseInt(_, 10)

  /** The white space `parseInt` skips: ASCII blanks, the byte order mark,
      the two Unicode line terminators and every space separator (Unicode
      category Zs). */
  predicate IsSpace(c: char) {
    c == ' ' || c == '\t' || c == '\n' || c == '\r' || c == '\U{000B}' || c == '\U{000C}'
      || c == '\U{00A0}' || c == '\U{FEFF}' || c == '\U{2028}' || c == '\U{2029}'
      || c == '\U{1680}' || '\U{2000}' <= c <= '\U{200A}' || c == '\U{202F}' || c == '\U{205F}' || c == '\U{3000}'
  }

  predicate IsDigit(c: char) {
    '0' <= c <= '9'
  }

  function SkipSpace(s: string): (t: string)
    ensures |t| <= |s| && t == s[|s| - |t|..]
    ensures forall k :: 0 <= k < |s| - |t| ==> IsSpace(s[k])
    ensures t == [] || !IsSpace(t[0])
  {
    if s != [] && IsSpace(s[0]) then SkipSpace(s[1..]) else s
  }

  /** The longest run of decimal digits at the front of `s`. */
  function DigitRun(s: string): (d: string)
    ensures |d| <= |s| && d == s[..|d|]
    ensures forall k :: 0 <= k < |d| ==> IsDigit(d[k])
    ensures |d| < |s| ==> !IsDigit(s[|d|])
  {
    if s != [] && IsDigit(s[0]) then [s[0]] + DigitRun(s[1..]) else []
  }

  function DigitValue(c: char): nat
    requires IsDigit(c)
  {
    c as int - '0' as int
  }

  /** The number a run of decimal digits denotes. */
  function DigitsValue(d: string): nat
    requires forall k :: 0 <= k < |d| ==> IsDigit(d[k])
  {
    if d == [] then 0 else DigitsValue(d[..|d| - 1]) * 10 + DigitValue(d[|d| - 1])
  }

  /** `parseInt(s, 10)`; `None` stands for `NaN`. */
  function ParseInt(s: string): Option<int> {
    ParseSigned(SkipSpace(s))
  }

  /** An optional sign, then digits. */
  function ParseSigned(t: string): Option<int> {
    if t != [] && t[0] == '-' then
      match ParseUnsigned(t[1..])
      case Some(v) => Some(-v)
      case None => None
    else if t != [] && t[0] == '+' then ParseUnsigned(t[1..])
    else ParseUnsigned(t)
  }

  function ParseUnsigned(u: string): Option<int> {
    var d := DigitRun(u);
    if d == [] then None else Some(DigitsValue(d))
  }

  /** The decimal numeral of `n`, without leading zeros. */
  function Numeral(n: nat): (s: string)
    ensures |s| > 0 && forall k :: 0 <= k < |s| ==> IsDigit(s[k])
  {
    var last := ['0' + (n % 10) as char];
    if n < 10 then last else Numeral(n / 10) + last
  }

  lemma {:induction false} NumeralValue(n: nat)
    ensures DigitsValue(Numeral(n)) == n
  {
    var s := Numeral(n);
    if n >= 10 {
      NumeralValue(n / 10);
      assert s[..|s| - 1] == Numeral(n / 10);
    }
  }

  lemma {:induction false} DigitRunOfDigits(d: string, rest: string)
    requires forall k :: 0 <= k < |d| ==> IsDigit(d[k])
    requires rest == [] || !IsDigit(rest[0])
    ensures DigitRun(d + rest) == d
  {
    if d != [] {
      assert (d + rest)[1..] == d[1..] + rest;
      DigitRunOfDigits(d[1..], rest);
      assert d == [d[0]] + d[1..];
    }
  }

  lemma {:induction false} SkipSpaceOfSpaces(w: string, t: string)
    requires forall k :: 0 <= k < |w| ==> IsSpace(w[k])
    requires t == [] || !IsSpace(t[0])
    ensures SkipSpace(w + t) == t
  {
    if w != [] {
      assert (w + t)[1..] == w[1..] + t;
      SkipSpaceOfSpaces(w[1..], t);
    } else {
      assert w + t == t;
    }
  }

  /** `parseInt` reads back a numeral, after any leading white space and
      before anything that is not a digit. */
  lemma {:induction false} ParseIntNumeral(w: string, n: nat, rest: string)
    requires forall k :: 0 <= k < |w| ==> IsSpace(w[k])
    requires rest == [] || !IsDigit(rest[0])
    ensures ParseInt(w + Numeral(n) + rest) == Some(n)
  {
    var d := Numeral(n);
    ParseIntDigits(w, d, rest);
    NumeralValue(n);
  }

  lemma {:induction false} ParseIntDigits(w: string, d: string, rest: string)
    requires forall k :: 0 <= k < |w| ==> IsSpace(w[k])
    requires |d| > 0 && forall k :: 0 <= k < |d| ==> IsDigit(d[k])
    requires rest == [] || !IsDigit(rest[0])
    ensures ParseInt(w + d + rest) == Some(DigitsValue(d))
  {
    var t := d + rest;
    assert w + d + rest == w + t;
    assert t[0] == d[0];
    assert IsDigit(t[0]);
    SkipSpaceOfSpaces(w, t);
    assert ParseInt(w + t) == ParseSigned(t);
    DigitRunOfDigits(d, rest);
    assert ParseSigned(t) == ParseUnsigned(t);
  }

  /** A leading minus sign negates the numeral. */
  lemma {:induction false} ParseIntNegative(n: nat, rest: string)
    requires rest == [] || !IsDigit(rest[0])
    ensures ParseInt("-" + Numeral(n) + rest) == Some(0 - n)
  {
    var d := Numeral(n);
    var s := "-" + d + rest;
    assert s[0] == '-' && !IsSpace(s[0]);
    assert SkipSpace(s) == s;
    assert s[1..] == d + rest;
    DigitRunOfDigits(d, rest);
    assert ParseUnsigned(d + rest) == Some(DigitsValue(d));
    NumeralValue(n);
  }

  // ---------------------------------------------------------------------
  // The options

  /** The number of tasks run at once: the value after the first
      `--concurrency` when it is a non-empty token whose `parseInt` is
      positive, and 1 otherwise. */
  function Concurrency(args: seq<string>): (n: nat)
    ensures n >= 1
    ensures Text.Position(args, "--concurrency") == -1 ==> n == 1
  {
    var k := Text.Position(args, "--concurrency");
    if k != -1 && k + 1 < |args| && args[k + 1] != "" then
      match ParseInt(args[k + 1])
      case Some(v) => if v > 0 then v else 1
      case None => 1
    else 1
  }

  /** `--concurrency 4` after tokens without a `--concurrency` sets 4. */
  lemma {:induction false} ConcurrencyGiven(pre: seq<string>, n: nat, post: seq<string>)
    requires "--concurrency" !in pre && n > 0
    ensures Concurrency(pre + ["--concurrency", Numeral(n)] + post) == n
  {
    var d := Numeral(n);
    var args := pre + ["--concurrency", d] + post;
    Text.PositionAfter(pre, "--concurrency", [d] + post);
    assert args == pre + ["--concurrency"] + ([d] + post);
    assert args[|pre| + 1] == d;
    ParseIntNumeral("", n, "");
    assert "" + d + "" == d;
  }

  /** A value that does not parse to a positive number leaves the default. */
  lemma {:induction false} ConcurrencyRejected(pre: seq<string>, v: string, post: seq<string>)
    requires "--concurrency" !in pre
    requires ParseInt(v).None? || ParseInt(v).value <= 0
    ensures Concurrency(pre + ["--concurrency", v] + post) == 1
  {
    var args := pre + ["--concurrency", v] + post;
    Text.PositionAfter(pre, "--concurrency", [v] + post);
    assert args == pre + ["--concurrency"] + ([v] + post);
    assert args[|pre| + 1] == v;
  }

  /** The app ids to regenerate: the tokens after the first exact `--force`
      up to the next flag. */
  function ForceIds(args: seq<string>): (r: seq<string>)
    ensures "--force" !in args ==> r == []
    ensures "--force" in args ==> var k := Text.Position(args, "--force");
      k + 1 + |r| <= |args| && r == args[k + 1..k + 1 + |r|]
      && (forall x :: x in r ==> !IsFlag(x))
      && (k + 1 + |r| < |args| ==> IsFlag(args[k + 1 + |r|]))
  {
    var k := Text.Position(args, "--force");
    if k == -1 then []
    else
      var r := Leading(args[k + 1..]);
      assert r == args[k + 1..][..|r|] == args[k + 1..k + 1 + |r|];
      r
  }

  /** `--force-all` is a different token: alone it forces nothing by id. */
  lemma ForceAllIsNotForce(pre: seq<string>, post: seq<string>)
    requires "--force" !in pre + post
    ensures ForceIds(pre + ["--force-all"] + post) == []
  {
    var args := pre + ["--force-all"] + post;
    forall j | 0 <= j < |args| ensures args[j] != "--force" {
      if j < |pre| { assert args[j] == pre[j]; assert pre[j] in pre + post; }
      else if j > |pre| { assert args[j] == post[j - |pre| - 1]; assert (pre + post)[j - 1] == post[j - |pre| - 1]; }
    }
  }

  /** `id` is the id of some entry of the registry `ms`. */
  predicate Registered(ms: seq<ModelConfig>, id: string) {
    FindModel(ms, id).Some?
  }

  /** The registered ids among `s`, in order, duplicates kept. */
  function RegisteredIds(s: seq<string>, ms: seq<ModelConfig>): (r: seq<string>)
    ensures |r| <= |s|
  {
    if s == [] then []
    else RegisteredIds(s[..|s| - 1], ms) + (if Registered(ms, s[|s| - 1]) then [s[|s| - 1]] else [])
  }

  lemma {:induction false} RegisteredIdsMembers(s: seq<string>, ms: seq<ModelConfig>)
    ensures forall x :: x in RegisteredIds(s, ms) <==> x in s && Registered(ms, x)
    decreases |s|
  {
    if s != [] {
      var init := s[..|s| - 1];
      RegisteredIdsMembers(init, ms);
      assert s == init + [s[|s| - 1]];
    }
  }

  /** The model filter: the ids of `ms` among the tokens before the first
      flag; an unknown id is dropped without complaint. */
  function ModelFilter(args: seq<string>, ms: seq<ModelConfig>): (r: seq<string>)
    ensures forall x :: x in r <==> x in Leading(args) && Registered(ms, x)
  {
    RegisteredIdsMembers(Leading(args), ms);
    RegisteredIds(Leading(args), ms)
  }

  /** What `main` makes of its arguments. */
  function ParsedOptions(args: seq<string>): Options {
    Options(ForceIds(args), "--force-all" in args, ModelFilter(args, Models), Concurrency(args))
  }

  /** The argument parsing of `main`, step by step as it is written: the two
      collection loops push into the option lists. */
  method ParseArgs(args: seq<string>) returns (opts: Options)
    ensures opts == ParsedOptions(args)
    ensures opts.concurrency >= 1
  {
    var forceAll := false;
    if "--force-all" in args {
      forceAll := true;
    }
    var concurrency := 1;
    var ci := Text.Position(args, "--concurrency");
    if ci != -1 && ci + 1 < |args| && args[ci + 1] != "" {
      var n := ParseInt(args[ci + 1]);
      if n.Some? && n.value > 0 {
        concurrency := n.value;
      }
    }
    var force := CollectForce(args);
    var filter := CollectModelFilter(args, Models);
    opts := Options(force, forceAll, filter, concurrency);
  }

  /** The `--force` loop: push every token after `--force` until a flag. */
  method CollectForce(args: seq<string>) returns (force: seq<string>)
    ensures force == ForceIds(args)
  {
    force := [];
    var fi := Text.Position(args, "--force");
    if fi != -1 {
      force := CollectValues(args, fi + 1);
    }
  }

  /** Push `args[start]`, `args[start + 1]`, ... until a flag or the end. */
  method CollectValues(args: seq<string>, start: nat) returns (values: seq<string>)
    requires start <= |args|
    ensures values == Leading(args[start..])
  {
    values := [];
    var i := start;
    while i < |args|
      invariant start <= i <= |args|
      invariant values == args[start..i]
      invariant forall k :: start <= k < i ==> !IsFlag(args[k])
    {
      if IsFlag(args[i]) {
        break;
      }
      assert args[start..i + 1] == args[start..i] + [args[i]];
      values := values + [args[i]];
      i := i + 1;
    }
    var tail := args[start..];
    assert forall k :: 0 <= k < i - start ==> tail[k] == args[start + k];
    assert i < |args| ==> tail[i - start] == args[i];
    LeadingExact(tail, i - start);
    assert tail[..i - start] == args[start..i];
  }

  /** The positional loop: push every registered id before the first flag. */
  method CollectModelFilter(args: seq<string>, ms: seq<ModelConfig>) returns (filter: seq<string>)
    ensures filter == ModelFilter(args, ms)
  {
    filter := [];
    var i := 0;
    while i < |args|
      invariant 0 <= i <= |args|
      invariant filter == RegisteredIds(args[..i], ms)
      invariant forall k :: 0 <= k < i ==> !IsFlag(args[k])
    {
      if IsFlag(args[i]) {
        break;
      }
      assert args[..i + 1][..i] == args[..i];
      assert args[..i + 1][i] == args[i];
      var model := FindModel(ms, args[i]);
      if model.Some? {
        filter := filter + [args[i]];
      }
      i := i + 1;
    }
    LeadingExact(args, i);
  }

  // ---------------------------------------------------------------------
  // Target models

  /** `a` is `b` with some entries left out, the rest in order. */
  predicate Subsequence<T(==)>(a: seq<T>, b: seq<T>)
    decreases |b|
  {
    a == [] || (b != [] && ((a[0] == b[0] && Subsequence(a[1..], b[1..])) || Subsequence(a, b[1..])))
  }

  /** The entries of `ms` whose id is in `filter`, in the order of `ms`. */
  function Keep(ms: seq<ModelConfig>, filter: seq<string>): (r: seq<ModelConfig>)
    ensures forall m :: m in r <==> m in ms && m.id in filter
  {
    if ms == [] then [] else (if ms[0].id in filter then [ms[0]] else []) + Keep(ms[1..], filter)
  }

  lemma {:induction false} KeepSubsequence(ms: seq<ModelConfig>, filter: seq<string>)
    ensures Subsequence(Keep(ms, filter), ms)
  {
    if ms != [] {
      KeepSubsequence(ms[1..], filter);
      var rest := Keep(ms[1..], filter);
      if ms[0].id in filter {
        assert ([ms[0]] + rest)[1..] == rest;
      } else {
        assert [] + rest == rest;
        if rest != [] {}
      }
    }
  }

  /** The models to generate for: all of `ms` when the filter is empty, or
      else the filtered ones in registry order. */
  function TargetModels(filter: seq<string>, ms: seq<ModelConfig>): (r: seq<ModelConfig>)
    ensures forall m :: m in r <==> m in ms && (filter == [] || m.id in filter)
  {
    if |filter| > 0 then Keep(ms, filter) else ms
  }

  /** Targets keep registry order, and a repeated id on the command line does
      not repeat a model. */
  lemma TargetModelsInRegistryOrder(filter: seq<string>, ms: seq<ModelConfig>)
    requires IdsUnique(ms)
    ensures Subsequence(TargetModels(filter, ms), ms)
    ensures IdsUnique(TargetModels(filter, ms))
  {
    KeepSubsequence(ms, filter);
    SubsequenceReflexive(ms);
    SubsequenceUnique(TargetModels(filter, ms), ms);
  }

  lemma {:induction false} SubsequenceReflexive<T>(a: seq<T>)
    ensures Subsequence(a, a)
    decreases |a|
  {
    if a != [] {
      SubsequenceReflexive(a[1..]);
    }
  }

  lemma {:induction false} SubsequenceUnique(a: seq<ModelConfig>, b: seq<ModelConfig>)
    requires Subsequence(a, b) && IdsUnique(b)
    ensures IdsUnique(a)
    decreases |b|
  {
    if a != [] {
      assert IdsUnique(b[1..]) by {
        forall i, j | 0 <= i < j < |b[1..]| ensures b[1..][i].id != b[1..][j].id {
          assert b[1..][i] == b[i + 1] && b[1..][j] == b[j + 1];
        }
      }
      if a[0] == b[0] && Subsequence(a[1..], b[1..]) {
        SubsequenceUnique(a[1..], b[1..]);
        SubsequenceMembers(a[1..], b[1..]);
        forall j | 0 < j < |a| ensures a[0].id != a[j].id {
          assert a[j] == a[1..][j - 1];
          assert a[j] in a[1..];
          var k :| 0 <= k < |b[1..]| && b[1..][k] == a[j];
          assert b[k + 1] == a[j];
        }
        forall i, j | 0 <= i < j < |a| ensures a[i].id != a[j].id {
          if i > 0 { assert a[i] == a[1..][i - 1] && a[j] == a[1..][j - 1]; }
        }
      } else {
        SubsequenceUnique(a, b[1..]);
      }
    }
  }

  lemma {:induction false} SubsequenceMembers<T>(a: seq<T>, b: seq<T>)
    requires Subsequence(a, b)
    ensures forall x :: x in a ==> exists k :: 0 <= k < |b| && b[k] == x
    decreases |b|
  {
    if a != [] {
      if a[0] == b[0] && Subsequence(a[1..], b[1..]) {
        SubsequenceMembers(a[1..], b[1..]);
        forall x | x in a ensures exists k :: 0 <= k < |b| && b[k] == x {
          if x == a[0] { assert b[0] == x; }
          else {
            assert x in a[1..];
            var k :| 0 <= k < |b[1..]| && b[1..][k] == x;
            assert b[k + 1] == x;
          }
        }
      } else {
        SubsequenceMembers(a, b[1..]);
        forall x | x in a ensures exists k :: 0 <= k < |b| && b[k] == x {
          var k :| 0 <= k < |b[1..]| && b[1..][k] == x;
          assert b[k + 1] == x;
        }
      }
    }
  }

  /** A filter that names at least one model never falls back to all
      models, and a filter of unknown ids always does. */
  lemma TargetsOfParsedFilter(args: seq<string>, ms: seq<ModelConfig>)
    ensures ModelFilter(args, ms) != [] ==> forall m :: m in TargetModels(ModelFilter(args, ms), ms) ==> m.id in Leading(args)
    ensures ModelFilter(args, ms) != [] ==> TargetModels(ModelFilter(args, ms), ms) != []
    ensures (forall x :: x in Leading(args) ==> !Registered(ms, x)) ==> TargetModels(ModelFilter(args, ms), ms) == ms
  {
    var f := ModelFilter(args, ms);
    assert f != [] ==> f[0] in f;
    if f != [] {
      var x := f[0];
      assert x in f;
      var m := FindModel(ms, x).value;
      assert m in TargetModels(f, ms);
    }
  }
}
