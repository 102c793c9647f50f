/** The home-page gallery: apps are dealt round-robin into a few rows, each
    rendered as an auto-scrolling marquee. */
module AppGrid {

  /** `ROWS`: one row per eight apps, rounded up, but never fewer than three
      nor more than eight. */
  function RowCount(n: nat): (rows: nat)
    ensures 3 <= rows <= 8
    ensures n <= 16 ==> rows == 3
    ensures 17 <= n <= 64 ==> rows == (n + 7) / 8
    ensures n > 64 ==> rows == 8
  {
    var perEight := (n + 7) / 8;
    if perEight > 8 then 8 else if perEight < 3 then 3 else perEight
  }

  /** Row `r` of the round-robin deal: the apps whose index is `r` modulo
      `rows`, in input order. */
  function RowOf<T>(apps: seq<T>, rows: nat, r: nat): (row: seq<T>)
    requires rows > 0
    ensures |row| <= |apps|
  {
    if apps == [] then []
    else
      var n := |apps| - 1;
      RowOf(apps[..n], rows, r) + (if n % rows == r then [apps[n]] else [])
  }

  /** All the rows of the deal. */
  function Deal<T>(apps: seq<T>, rows: nat): (d: seq<seq<T>>)
    requires rows > 0
    ensures |d| == rows
  {
    seq(rows, r requires 0 <= r < rows => RowOf(apps, rows, r))
  }

  lemma {:induction false} MulAtLeast(k: int, d: int)
    requires k >= 1 && d > 0
    ensures k * d >= d
    decreases k
  {
    if k > 1 {
      MulAtLeast(k - 1, d);
      assert k * d == (k - 1) * d + d;
    }
  }

  /** Euclidean division is determined by quotient and remainder. */
  lemma DivModUnique(x: int, q: int, m: int, d: int)
    requires d > 0 && 0 <= m < d && x == q * d + m
    ensures x / d == q && x % d == m
  {
    var q0, m0 := x / d, x % d;
    assert x == q0 * d + m0;
    if q0 < q {
      MulAtLeast(q - q0, d);
    } else if q0 > q {
      MulAtLeast(q0 - q, d);
    }
  }

  lemma DivModRecompose(m: nat, d: nat)
    requires d > 0
    ensures m == m % d + (m / d) * d
  {
  }

  /** Counting up by one: the remainder steps, wrapping to zero and carrying
      into the quotient. */
  lemma DivModStep(m: nat, d: nat)
    requires d > 0
    ensures m % d + 1 < d ==> (m + 1) / d == m / d && (m + 1) % d == m % d + 1
    ensures m % d + 1 == d ==> (m + 1) / d == m / d + 1 && (m + 1) % d == 0
  {
    var a, b := m / d, m % d;
    assert m == a * d + b;
    if b + 1 < d {
      DivModUnique(m + 1, a, b + 1, d);
    } else {
      assert m + 1 == (a + 1) * d + 0;
      DivModUnique(m + 1, a + 1, 0, d);
    }
  }

  /** Row `r` holds one app per full round and one more when the last,
      partial round reaches it; every row is thus `ceil((n - r) / rows)`
      long. */
  lemma {:induction false} RowLength<T>(apps: seq<T>, rows: nat, r: nat)
    requires 0 <= r < rows
    ensures |RowOf(apps, rows, r)| == |apps| / rows + (if r < |apps| % rows then 1 else 0)
    decreases |apps|
  {
    var n := |apps|;
    if n == 0 {
      DivModUnique(0, 0, 0, rows);
    } else {
      RowLength(apps[..n - 1], rows, r);
      DivModStep(n - 1, rows);
    }
  }

  /** The `k`-th app of row `r` is the app at index `r + k * rows`. */
  lemma {:induction false} RowElement<T>(apps: seq<T>, rows: nat, r: nat, k: nat)
    requires 0 <= r < rows && k < |RowOf(apps, rows, r)|
    ensures r + k * rows < |apps|
    ensures RowOf(apps, rows, r)[k] == apps[r + k * rows]
    decreases |apps|
  {
    var m := |apps| - 1;
    var init := RowOf(apps[..m], rows, r);
    var last := if m % rows == r then [apps[m]] else [];
    assert RowOf(apps, rows, r) == init + last;
    if k < |init| {
      RowElement(apps[..m], rows, r, k);
      assert (init + last)[k] == init[k];
    } else {
      assert last != [] && m % rows == r;
      RowLength(apps[..m], rows, r);
      assert k == m / rows;
      DivModRecompose(m, rows);
      assert r + k * rows == m;
      assert (init + last)[k] == apps[m];
    }
  }

  /** The multiset union of the rows. */
  function Union<T>(d: seq<seq<T>>): multiset<T> {
    if d == [] then multiset{} else Union(d[..|d| - 1]) + multiset(d[|d| - 1])
  }

  lemma {:induction false} UnionOfEmpties<T>(d: seq<seq<T>>)
    requires forall r :: 0 <= r < |d| ==> d[r] == []
    ensures Union(d) == multiset{}
    decreases |d|
  {
    if d != [] {
      UnionOfEmpties(d[..|d| - 1]);
    }
  }

  lemma {:induction false} UnionUpdate<T>(d: seq<seq<T>>, j: nat, x: T)
    requires j < |d|
    ensures Union(d[j := d[j] + [x]]) == Union(d) + multiset{x}
    decreases |d|
  {
    var e := d[j := d[j] + [x]];
    var n := |d| - 1;
    if j < n {
      assert e[..n] == d[..n][j := d[j] + [x]];
      UnionUpdate(d[..n], j, x);
    } else {
      assert e[..n] == d[..n];
    }
  }

  /** Dealing one more app extends only its own row. */
  lemma DealSnoc<T>(apps: seq<T>, rows: nat, i: nat)
    requires rows > 0 && i < |apps|
    ensures Deal(apps[..i + 1], rows) == Deal(apps[..i], rows)[i % rows := Deal(apps[..i], rows)[i % rows] + [apps[i]]]
  {
    var xs := apps[..i + 1];
    assert xs[..i] == apps[..i];
    var before := Deal(apps[..i], rows);
    var after := before[i % rows := before[i % rows] + [apps[i]]];
    forall r | 0 <= r < rows
      ensures Deal(xs, rows)[r] == after[r]
    {
      assert Deal(xs, rows)[r] == RowOf(apps[..i], rows, r) + (if i % rows == r then [apps[i]] else []);
    }
  }

  /** Together the rows hold every app exactly once. */
  lemma {:induction false} DealIsPartition<T>(apps: seq<T>, rows: nat)
    requires rows > 0
    ensures Union(Deal(apps, rows)) == multiset(apps)
    decreases |apps|
  {
    if apps != [] {
      var m := |apps| - 1;
      DealIsPartition(apps[..m], rows);
      var j := m % rows;
      DealSnoc(apps, rows, m);
      assert apps[..m + 1] == apps;
      var before := Deal(apps[..m], rows);
      UnionUpdate(before, j, apps[m]);
      assert Union(Deal(apps, rows)) == Union(before) + multiset{apps[m]};
      assert apps == apps[..m] + [apps[m]];
    } else {
      UnionOfEmpties(Deal(apps, rows));
    }
  }

  /** Rows differ in length by at most one, earlier rows being the longer. */
  lemma RowsBalanced<T>(apps: seq<T>, rows: nat, r: nat, s: nat)
    requires r < s < rows
    ensures |RowOf(apps, rows, s)| <= |RowOf(apps, rows, r)| <= |RowOf(apps, rows, s)| + 1
  {
    RowLength(apps, rows, r);
    RowLength(apps, rows, s);
  }

  /** A row is empty exactly when there are no more apps than its index. */
  lemma RowEmpty<T>(apps: seq<T>, rows: nat, r: nat)
    requires r < rows
    ensures RowOf(apps, rows, r) == [] <==> |apps| <= r
  {
    RowLength(apps, rows, r);
    var n := |apps|;
    if n < rows {
      DivModUnique(n, 0, n, rows);
    } else {
      DivModUnique(n, n / rows, n % rows, rows);
      assert (n / rows) * rows > 0;
    }
  }

  /** `buckets`: allocate the rows, then push each app onto row
      `i % ROWS`. */
  method Buckets<T>(apps: seq<T>) returns (rows: array<seq<T>>)
    ensures rows.Length == RowCount(|apps|)
    ensures rows[..] == Deal(apps, RowCount(|apps|))
  {
    var count := RowCount(|apps|);
    rows := new seq<T>[count](_ => []);
    for i := 0 to |apps|
      invariant rows.Length == count
      invariant rows[..] == Deal(apps[..i], count)
    {
      DealSnoc(apps, count, i);
      rows[i % count] := rows[i % count] + [apps[i]];
    }
    assert apps[..|apps|] == apps;
  }

  /** How one marquee row is drawn. */
  datatype RowView<T> = RowView(apps: seq<T>, reverse: bool, duration: nat)

  /** Row `i`: an empty row shows every app instead; odd rows scroll in
      reverse; the animation lasts `18 + (2i mod 8)` seconds. */
  function ViewOf<T>(row: seq<T>, apps: seq<T>, i: nat): (v: RowView<T>)
    ensures v.apps == (if row == [] then apps else row)
    ensures v.reverse <==> i % 2 == 1
    ensures v.duration in {18, 20, 22, 24}
    ensures v.duration == 18 + 2 * (i % 4)
  {
    DurationMod(i);
    RowView(if |row| > 0 then row else apps, i % 2 == 1, 18 + (i * 2) % 8)
  }

  /** `2i mod 8` steps through 0, 2, 4, 6 with the row index mod 4. */
  lemma DurationMod(i: nat)
    ensures (i * 2) % 8 == 2 * (i % 4)
  {
    var q, r := i / 4, i % 4;
    assert i == 4 * q + r;
    assert i * 2 == 8 * q + 2 * r;
    assert 0 <= 2 * r < 8;
  }
}
