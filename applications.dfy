/**
 * The per-application views of the invocation table: the anonymised names, the number
 * of distinct functions of each application, the mean number of invocations per active
 * day, the mean durations per application and per function, and the applications
 * offered for the per-application pattern view.
 */
module Applications {
  import opened Grouping
  import opened Decimal
  import opened Renaming

  /** `app_<n>`, the anonymised name of the n-th application in order of first occurrence. */
  function AppName(n: nat): (name: string)
    ensures |name| > 4 && name[..4] == "app_"
    ensures AllDigits(name[4..]) && ParseNat(name[4..]) == n
  {
    Label("app_", n)
  }

  /** `fun_<n>`, the anonymised name of the n-th function of one application. */
  function FunName(n: nat): (name: string)
    ensures |name| > 4 && name[..4] == "fun_"
    ensures AllDigits(name[4..]) && ParseNat(name[4..]) == n
  {
    Label("fun_", n)
  }

  lemma AppNameInjective()
    ensures Injective(AppName)
  {
    forall a, b | AppName(a) == AppName(b) ensures a == b {
      LabelInjective("app_", a, b);
    }
  }

  lemma FunNameInjective()
    ensures Injective(FunName)
  {
    forall a, b | FunName(a) == FunName(b) ensures a == b {
      LabelInjective("fun_", a, b);
    }
  }

  /** Number of distinct function names among the rows of application a. */
  function FunctionCount(app: seq<string>, func: seq<string>, a: string): (n: nat)
    requires |app| == |func|
    ensures n <= Count(app, a)
    ensures n == 0 <==> a !in app
  {
    var g := Select(app, func, a);
    assert |g| > 0 ==> g[0] in Unique(g);
    |Unique(g)|
  }

  /** `groupby('app')['func'].nunique()`: one entry per application. */
  function FunctionsPerApp(app: seq<string>, func: seq<string>): (m: map<string, nat>)
    requires |app| == |func|
    ensures forall a :: a in app ==> a in m
    ensures forall a :: a in m ==> a in app
    ensures forall a :: a in m ==> 1 <= m[a] <= Count(app, a)
  {
    assert forall a :: a in app ==> Select(app, func, a)[0] in Unique(Select(app, func, a));
    map a | a in app :: FunctionCount(app, func, a)
  }

  /** f is one of the functions counted for application a exactly when some row pairs a with f. */
  lemma FunctionCountMembers(app: seq<string>, func: seq<string>, a: string, f: string)
    requires |app| == |func|
    ensures f in Unique(Select(app, func, a)) <==> exists i :: 0 <= i < |app| && app[i] == a && func[i] == f
  {
    InSelect(app, func, a, f);
  }

  /** Sum of the per-application function counts over the listed applications. */
  function SumFunctions(app: seq<string>, func: seq<string>, keys: seq<string>): nat
    requires |app| == |func|
  {
    if |keys| == 0 then 0
    else SumFunctions(app, func, keys[..|keys| - 1]) + FunctionCount(app, func, keys[|keys| - 1])
  }

  /** (x, f) is an (application, function) pair of the table exactly when f is a function of x. */
  lemma PairInZip(app: seq<string>, func: seq<string>, x: string, f: string)
    requires |app| == |func|
    ensures (x, f) in Zip(app, func) <==> f in Select(app, func, x)
  {
    InSelect(app, func, x, f);
    if (x, f) in Zip(app, func) {
      var i :| 0 <= i < |app| && Zip(app, func)[i] == (x, f);
    }
    if f in Select(app, func, x) {
      var i :| 0 <= i < |app| && app[i] == x && func[i] == f;
      assert Zip(app, func)[i] == (x, f);
    }
  }

  lemma {:induction false} SumFunctionsAddRow(app: seq<string>, func: seq<string>, x: string, f: string, keys: seq<string>)
    requires |app| == |func| && Distinct(keys)
    ensures SumFunctions(app + [x], func + [f], keys)
         == SumFunctions(app, func, keys) + (if x in keys && f !in Select(app, func, x) then 1 else 0)
  {
    if |keys| > 0 {
      var k := keys[|keys| - 1];
      var p := keys[..|keys| - 1];
      assert Distinct(p) && k !in p;
      assert x in keys <==> x == k || x in p;
      SumFunctionsAddRow(app, func, x, f, p);
      FunctionCountAddRow(app, func, x, f, k);
    }
  }

  /** A new row (x, f) adds one function to x when f is new for x, and changes no other count. */
  lemma FunctionCountAddRow(app: seq<string>, func: seq<string>, x: string, f: string, k: string)
    requires |app| == |func|
    ensures FunctionCount(app + [x], func + [f], k)
         == FunctionCount(app, func, k) + (if k == x && f !in Select(app, func, x) then 1 else 0)
  {
    var s := Select(app, func, k);
    SelectAppend(app, func, x, f, k);
    if k == x {
      assert Select(app + [x], func + [f], k) == s + [f];
      UniqueAppend(s, f);
      assert f in Unique(s) <==> f in s;
    } else {
      assert Select(app + [x], func + [f], k) == s;
    }
  }

  /**
   * The number of distinct (application, function) pairs is the sum over the
   * applications of their numbers of distinct functions.
   */
  lemma {:induction false} FunctionsAddUp(app: seq<string>, func: seq<string>)
    requires |app| == |func|
    ensures SumFunctions(app, func, Unique(app)) == |Unique(Zip(app, func))|
  {
    if |app| > 0 {
      var n := |app| - 1;
      var ap, fp := app[..n], func[..n];
      assert app == ap + [app[n]] && func == fp + [func[n]];
      FunctionsAddUp(ap, fp);
      FunctionsAddUpStep(ap, fp, app[n], func[n]);
    }
  }

  lemma FunctionsAddUpStep(app: seq<string>, func: seq<string>, x: string, f: string)
    requires |app| == |func|
    requires SumFunctions(app, func, Unique(app)) == |Unique(Zip(app, func))|
    ensures SumFunctions(app + [x], func + [f], Unique(app + [x])) == |Unique(Zip(app + [x], func + [f]))|
  {
    ZipSnoc(app, func, x, f);
    UniqueAppend(Zip(app, func), (x, f));
    UniqueAppend(app, x);
    PairInZip(app, func, x, f);
    SumFunctionsAddRow(app, func, x, f, Unique(app));
    if x !in Unique(app) {
      NewAppHasOneFunction(app, func, x, f);
      var u := Unique(app);
      assert (u + [x])[..|u|] == u;
    }
  }

  lemma NewAppHasOneFunction(app: seq<string>, func: seq<string>, x: string, f: string)
    requires |app| == |func| && x !in app
    ensures FunctionCount(app + [x], func + [f], x) == 1
  {
    SelectAppend(app, func, x, f, x);
    assert Select(app, func, x) == [];
    UniqueAppend([], f);
  }

  /**
   * The left merge of the table with the function counts on `app`: every row keeps its
   * place and receives the count of its own application.
   */
  function NumFunctionsColumn(app: seq<string>, func: seq<string>): (nf: seq<nat>)
    requires |app| == |func|
    ensures |nf| == |app|
    ensures forall i :: 0 <= i < |app| ==> nf[i] == FunctionsPerApp(app, func)[app[i]]
  {
    var m := FunctionsPerApp(app, func);
    seq(|app|, i requires 0 <= i < |app| => m[app[i]])
  }

  /**
   * After the merge each row carries between one and as many functions as its application
   * has rows, and rows of the same application carry the same count.
   */
  lemma NumFunctionsPerRow(app: seq<string>, func: seq<string>, i: nat, j: nat)
    requires |app| == |func| && i < |app| && j < |app|
    ensures 1 <= NumFunctionsColumn(app, func)[i] <= Count(app, app[i])
    ensures app[i] == app[j] ==> NumFunctionsColumn(app, func)[i] == NumFunctionsColumn(app, func)[j]
  {
    assert app[i] in app;
  }

  /** Keeps the applications whose function count is greater than one, in order. */
  function KeepSeveral(s: seq<string>, m: map<string, nat>): (r: seq<string>)
    ensures forall a :: a in r <==> a in s && a in m && m[a] > 1
  {
    if |s| == 0 then []
    else
      var a := s[|s| - 1];
      assert forall b :: b in s <==> b in s[..|s| - 1] || b == a;
      KeepSeveral(s[..|s| - 1], m) + if a in m && m[a] > 1 then [a] else []
  }

  /** The boolean row mask `num_functions > 1`. */
  function SeveralMask(nf: seq<nat>): (mask: seq<bool>)
    ensures |mask| == |nf|
    ensures forall i :: 0 <= i < |nf| ==> (mask[i] <==> nf[i] > 1)
  {
    seq(|nf|, i requires 0 <= i < |nf| => nf[i] > 1)
  }

  /** `data[data['num_functions'] > 1]['app'].unique()`: the applications offered for the pattern view. */
  function AppsWithSeveralFunctions(app: seq<string>, nf: seq<nat>): (r: seq<string>)
    requires |app| == |nf|
    ensures Distinct(r)
  {
    Unique(Select(SeveralMask(nf), app, true))
  }

  /**
   * The applications offered are exactly those with more than one distinct function, each
   * once, in the order in which they first occur in the table.
   */
  lemma OfferedApps(app: seq<string>, func: seq<string>)
    requires |app| == |func|
    ensures AppsWithSeveralFunctions(app, NumFunctionsColumn(app, func))
         == KeepSeveral(Unique(app), FunctionsPerApp(app, func))
    ensures forall a :: a in AppsWithSeveralFunctions(app, NumFunctionsColumn(app, func))
                    <==> a in app && FunctionsPerApp(app, func)[a] > 1
  {
    var m := FunctionsPerApp(app, func);
    var nf := NumFunctionsColumn(app, func);
    MaskedRows(app, nf, m);
    UniqueOfKept(app, m);
  }

  lemma {:induction false} MaskedRows(app: seq<string>, nf: seq<nat>, m: map<string, nat>)
    requires |app| == |nf|
    requires forall i :: 0 <= i < |app| ==> app[i] in m && nf[i] == m[app[i]]
    ensures Select(SeveralMask(nf), app, true) == KeepSeveral(app, m)
  {
    if |app| > 0 {
      var n := |app| - 1;
      assert SeveralMask(nf) == SeveralMask(nf[..n]) + [nf[n] > 1];
      assert app == app[..n] + [app[n]];
      SelectAppend(SeveralMask(nf[..n]), app[..n], nf[n] > 1, app[n], true);
      MaskedRows(app[..n], nf[..n], m);
    }
  }

  lemma {:induction false} UniqueOfKept(s: seq<string>, m: map<string, nat>)
    ensures Unique(KeepSeveral(s, m)) == KeepSeveral(Unique(s), m)
  {
    if |s| > 0 {
      var n := |s| - 1;
      var a := s[n];
      assert s == s[..n] + [a];
      UniqueOfKept(s[..n], m);
      UniqueAppend(s[..n], a);
      var k := KeepSeveral(s[..n], m);
      KeepSeveralAppend(Unique(s[..n]), a, m);
      if a in m && m[a] > 1 {
        assert KeepSeveral(s, m) == k + [a];
        UniqueAppend(k, a);
      } else {
        assert KeepSeveral(s, m) == k;
      }
    }
  }

  lemma KeepSeveralAppend(s: seq<string>, a: string, m: map<string, nat>)
    ensures KeepSeveral(s + [a], m) == KeepSeveral(s, m) + if a in m && m[a] > 1 then [a] else []
  {
    assert (s + [a])[..|s|] == s;
  }

  /**
   * `groupby(['app', 'date']).size()` restricted to application a: one (date, invocations)
   * entry per date on which a was invoked.
   */
  function DailyCounts(app: seq<string>, date: seq<int>, a: string): (r: seq<(int, nat)>)
    requires |app| == |date|
    ensures |r| == |Unique(Select(app, date, a))|
    ensures forall k :: 0 <= k < |r| ==>
              r[k].0 == Unique(Select(app, date, a))[k] && r[k].1 == Count(Select(app, date, a), r[k].0)
  {
    var ds := Unique(Select(app, date, a));
    CountPairsInGroup(app, date, a, ds);
    seq(|ds|, k requires 0 <= k < |ds| => (ds[k], Count(Zip(app, date), (a, ds[k]))))
  }

  /** Rows with application a and date d are the rows of a's group with date d. */
  lemma {:induction false} CountPairInGroup(app: seq<string>, date: seq<int>, a: string, d: int)
    requires |app| == |date|
    ensures Count(Zip(app, date), (a, d)) == Count(Select(app, date, a), d)
  {
    if |app| > 0 {
      var n := |app| - 1;
      var ap, dp := app[..n], date[..n];
      assert app == ap + [app[n]] && date == dp + [date[n]];
      CountPairInGroup(ap, dp, a, d);
      CountPairStep(ap, dp, app[n], date[n], a, d);
    }
  }

  lemma CountPairsInGroup(app: seq<string>, date: seq<int>, a: string, ds: seq<int>)
    requires |app| == |date|
    ensures forall k :: 0 <= k < |ds| ==> Count(Zip(app, date), (a, ds[k])) == Count(Select(app, date, a), ds[k])
  {
    forall k | 0 <= k < |ds| ensures Count(Zip(app, date), (a, ds[k])) == Count(Select(app, date, a), ds[k]) {
      CountPairInGroup(app, date, a, ds[k]);
    }
  }

  lemma CountPairStep(app: seq<string>, date: seq<int>, x: string, e: int, a: string, d: int)
    requires |app| == |date|
    requires Count(Zip(app, date), (a, d)) == Count(Select(app, date, a), d)
    ensures Count(Zip(app + [x], date + [e]), (a, d)) == Count(Select(app + [x], date + [e], a), d)
  {
    ZipSnoc(app, date, x, e);
    CountAppend(Zip(app, date), (x, e), (a, d));
    SelectAppend(app, date, x, e, a);
    var g := Select(app, date, a);
    if x == a {
      assert Select(app + [x], date + [e], a) == g + [e];
      CountAppend(g, e, d);
    } else {
      assert Select(app + [x], date + [e], a) == g;
      assert (x, e) != (a, d);
    }
  }

  /**
   * The daily counts of an application are all positive and add up to the number of its
   * invocations.
   */
  lemma DailyCountsCoverApp(app: seq<string>, date: seq<int>, a: string)
    requires |app| == |date|
    ensures forall k :: 0 <= k < |DailyCounts(app, date, a)| ==> DailyCounts(app, date, a)[k].1 >= 1
    ensures Total(DailyCounts(app, date, a)) == Count(app, a)
  {
    var g := Select(app, date, a);
    var ds := Unique(g);
    forall k | 0 <= k < |ds| ensures Count(Zip(app, date), (a, ds[k])) == Count(g, ds[k]) {
      CountPairInGroup(app, date, a, ds[k]);
    }
    assert DailyCounts(app, date, a) == KeyCounts(g, ds);
    KeyCountsCoverRows(g, ds);
  }

  /** `.groupby('app').mean()` of the daily counts: mean invocations per active day of a. */
  function MeanDailyInvocations(app: seq<string>, date: seq<int>, a: string): (mean: real)
    requires |app| == |date| && a in app
    ensures mean >= 1.0
  {
    var r := DailyCounts(app, date, a);
    assert Select(app, date, a)[0] in Unique(Select(app, date, a));
    DailyCountsCoverApp(app, date, a);
    TotalAtLeastSize(r);
    QuotientAtLeastOne(Total(r) as real, |r| as real);
    Total(r) as real / |r| as real
  }

  /**
   * The daily mean of an application is its number of invocations divided by its number
   * of active days, and it is at least one.
   */
  lemma MeanDailyInvocationsValue(app: seq<string>, date: seq<int>, a: string)
    requires |app| == |date| && a in app
    ensures |Unique(Select(app, date, a))| > 0
    ensures MeanDailyInvocations(app, date, a) == Count(app, a) as real / |Unique(Select(app, date, a))| as real
    ensures MeanDailyInvocations(app, date, a) >= 1.0
  {
    var r := DailyCounts(app, date, a);
    assert Select(app, date, a)[0] in Unique(Select(app, date, a));
    DailyCountsCoverApp(app, date, a);
    TotalAtLeastSize(r);
    QuotientAtLeastOne(Total(r) as real, |r| as real);
  }

  lemma {:induction false} TotalAtLeastSize<K>(r: seq<(K, nat)>)
    requires forall k :: 0 <= k < |r| ==> r[k].1 >= 1
    ensures Total(r) >= |r|
  {
    if |r| > 0 {
      TotalAtLeastSize(r[..|r| - 1]);
    }
  }

  lemma QuotientAtLeastOne(x: real, n: real)
    requires 0.0 < n <= x
    ensures x / n >= 1.0
  {
  }

  /** The daily mean of every application, applications in order of first occurrence. */
  function MeanDailyPerApp(app: seq<string>, date: seq<int>): (r: seq<(string, real)>)
    requires |app| == |date|
    ensures |r| == |Unique(app)|
    ensures forall k :: 0 <= k < |r| ==> r[k].0 == Unique(app)[k] && r[k].0 in app
    ensures forall k :: 0 <= k < |r| ==> r[k].1 == MeanDailyInvocations(app, date, r[k].0)
  {
    var u := Unique(app);
    seq(|u|, k requires 0 <= k < |u| => (u[k], MeanDailyInvocations(app, date, u[k])))
  }

  predicate NonIncreasing<K>(r: seq<(K, real)>) {
    forall i, j :: 0 <= i < j < |r| ==> r[i].1 >= r[j].1
  }

  /** Inserts x into a list ordered by non-increasing value, ahead of the first smaller-or-equal value. */
  function InsertDescending<K>(r: seq<(K, real)>, x: (K, real)): (t: seq<(K, real)>)
    requires NonIncreasing(r)
    ensures NonIncreasing(t)
    ensures multiset(t) == multiset(r) + multiset{x}
    ensures t[0] == x || (|r| > 0 && t[0] == r[0])
  {
    if |r| == 0 then [x]
    else if x.1 >= r[0].1 then
      ConsNonIncreasing(x, r);
      [x] + r
    else
      var rest := InsertDescending(r[1..], x);
      assert r == [r[0]] + r[1..];
      ConsNonIncreasing(r[0], rest);
      [r[0]] + rest
  }

  lemma ConsNonIncreasing<K>(h: (K, real), t: seq<(K, real)>)
    requires NonIncreasing(t) && (|t| > 0 ==> h.1 >= t[0].1)
    ensures NonIncreasing([h] + t)
  {
    forall i, j | 0 <= i < j < |t| + 1 ensures ([h] + t)[i].1 >= ([h] + t)[j].1 {
      if i == 0 { assert t[0].1 >= t[j - 1].1 || j == 1; }
    }
  }

  /** `sort_values(ascending=False)`: the same entries, by non-increasing value. */
  function SortDescending<K>(s: seq<(K, real)>): (r: seq<(K, real)>)
    ensures NonIncreasing(r)
    ensures multiset(r) == multiset(s)
  {
    if |s| == 0 then []
    else
      assert s == s[..|s| - 1] + [s[|s| - 1]];
      InsertDescending(SortDescending(s[..|s| - 1]), s[|s| - 1])
  }

  /** Applications ranked by their daily mean of invocations, highest first. */
  function RankByDailyMean(app: seq<string>, date: seq<int>): (r: seq<(string, real)>)
    requires |app| == |date|
    ensures NonIncreasing(r)
    ensures multiset(r) == multiset(MeanDailyPerApp(app, date))
  {
    SortDescending(MeanDailyPerApp(app, date))
  }

  /** The ranking is ordered by non-increasing daily mean, and each entry is an application beside its own mean. */
  lemma RankingEntries(app: seq<string>, date: seq<int>)
    requires |app| == |date|
    ensures NonIncreasing(RankByDailyMean(app, date))
    ensures forall k :: 0 <= k < |RankByDailyMean(app, date)| ==>
              RankByDailyMean(app, date)[k].0 in app &&
              RankByDailyMean(app, date)[k].1 == MeanDailyInvocations(app, date, RankByDailyMean(app, date)[k].0)
  {
    var m := MeanDailyPerApp(app, date);
    var r := RankByDailyMean(app, date);
    forall k | 0 <= k < |r|
      ensures r[k].0 in app && r[k].1 == MeanDailyInvocations(app, date, r[k].0)
    {
      assert r[k] in multiset(m);
    }
  }

  /** The ranking has one entry per application, and every application of the table is in it. */
  lemma RankingCoversApps(app: seq<string>, date: seq<int>)
    requires |app| == |date|
    ensures |RankByDailyMean(app, date)| == |Unique(app)|
    ensures forall a :: a in app ==> exists k :: 0 <= k < |RankByDailyMean(app, date)| && RankByDailyMean(app, date)[k].0 == a
  {
    var m := MeanDailyPerApp(app, date);
    var r := RankByDailyMean(app, date);
    PermutationKeepsSize(r, m);
    forall a | a in app ensures exists k :: 0 <= k < |r| && r[k].0 == a {
      var j := IndexOf(Unique(app), a);
      var k := PermutedIndex(r, m, j);
    }
  }

  lemma PermutationKeepsSize<T>(r: seq<T>, m: seq<T>)
    requires multiset(r) == multiset(m)
    ensures |r| == |m|
  {
    assert |r| == |multiset(r)|;
    assert |m| == |multiset(m)|;
  }

  /** Where the j-th entry of m went in its permutation r. */
  lemma PermutedIndex<T>(r: seq<T>, m: seq<T>, j: nat) returns (k: nat)
    requires multiset(r) == multiset(m) && j < |m|
    ensures k < |r| && r[k] == m[j]
  {
    assert m[j] in multiset(r);
    k :| 0 <= k < |r| && r[k] == m[j];
  }

  /** One row of the merge of the mean durations with the function counts. */
  datatype AppSummary = AppSummary(duration: real, numFunctions: nat)

  /**
   * `pd.merge(app_duration, functions_per_app, on='app')`: both tables have one row per
   * application, so the inner join keeps every application with both figures.
   */
  function AppAnalysis(app: seq<string>, func: seq<string>, duration: seq<real>): (m: map<string, AppSummary>)
    requires |app| == |func| == |duration|
    ensures forall a :: a in app ==> a in m
    ensures forall a :: a in m ==> a in app
    ensures forall a :: a in m ==> m[a].duration == GroupMean(app, duration)[a]
    ensures forall a :: a in m ==> 1 <= m[a].numFunctions <= Count(app, a)
    ensures forall a :: a in m ==> m[a].numFunctions == FunctionsPerApp(app, func)[a] == FunctionCount(app, func, a)
  {
    var d := GroupMean(app, duration);
    var nf := FunctionsPerApp(app, func);
    map a | a in d.Keys * nf.Keys :: AppSummary(d[a], nf[a])
  }

  /** Each application's mean duration lies within the durations of its own invocations. */
  lemma AppDurationWithinRows(app: seq<string>, func: seq<string>, duration: seq<real>, a: string, lo: real, hi: real)
    requires |app| == |func| == |duration| && a in app
    requires forall i :: 0 <= i < |app| && app[i] == a ==> lo <= duration[i] <= hi
    ensures a in AppAnalysis(app, func, duration)
    ensures lo <= AppAnalysis(app, func, duration)[a].duration <= hi
  {
    GroupMeanWithinGroup(app, duration, a, lo, hi);
  }

  /** `groupby(['app', 'func'])['duration'].mean()`: one entry per (application, function) pair. */
  function FunctionDurations(app: seq<string>, func: seq<string>, duration: seq<real>): (m: map<(string, string), real>)
    requires |app| == |func| == |duration|
    ensures forall p :: p in m ==> exists i :: 0 <= i < |app| && (app[i], func[i]) == p
    ensures forall i :: 0 <= i < |app| ==> (app[i], func[i]) in m
  {
    var z := Zip(app, func);
    assert forall i :: 0 <= i < |app| ==> z[i] == (app[i], func[i]);
    GroupMean(z, duration)
  }

  /** Each function's mean duration lies within the durations of its own invocations. */
  lemma FunctionDurationWithinRows(app: seq<string>, func: seq<string>, duration: seq<real>,
                                   a: string, f: string, lo: real, hi: real)
    requires |app| == |func| == |duration|
    requires exists i :: 0 <= i < |app| && app[i] == a && func[i] == f
    requires forall i :: 0 <= i < |app| && app[i] == a && func[i] == f ==> lo <= duration[i] <= hi
    ensures (a, f) in FunctionDurations(app, func, duration)
    ensures lo <= FunctionDurations(app, func, duration)[(a, f)] <= hi
  {
    var z := Zip(app, func);
    var i :| 0 <= i < |app| && app[i] == a && func[i] == f;
    assert z[i] == (a, f);
    GroupMeanWithinGroup(z, duration, (a, f), lo, hi);
  }
}
