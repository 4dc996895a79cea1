/** `AppListAdapter`: the selection of allowed apps, the per-app duration
    entries, and the search filter over the installed apps. Labels come
    from the package manager and are the abstract function `labelOf`; the
    case-insensitive comparison is the abstract character fold `fold`. */
module AppListAdapter {
  import opened Maybe
  import Kotlin

  /** A launcher entry (`ResolveInfo`): several may share a package. */
  datatype App = App(packageName: string, activityName: string)

  // ---------------------------------------------------------------------
  // The selection: a `mutableSetOf`, i.e. an insertion-ordered hash set
  // ---------------------------------------------------------------------

  predicate NoDuplicates<T(==)>(s: seq<T>) {
    forall i, j :: 0 <= i < j < |s| ==> s[i] != s[j]
  }

  /** The selected packages in insertion order, each once. */
  type Selection = s: seq<string> | NoDuplicates(s) witness []

  function Members(sel: Selection): set<string> {
    set p | p in sel
  }

  /** All elements of `s` other than `x`, in their order. */
  function RemoveAll(s: seq<string>, x: string): (r: seq<string>)
    ensures forall p :: p in r <==> p in s && p != x
    ensures |r| <= |s|
  {
    if |s| == 0 then []
    else (if s[0] == x then [] else [s[0]]) + RemoveAll(s[1..], x)
  }

  /** Removal introduces no duplicate. */
  lemma {:induction false} RemoveAllNoDuplicates(s: seq<string>, x: string)
    requires NoDuplicates(s)
    ensures NoDuplicates(RemoveAll(s, x))
  {
    if |s| > 0 {
      RemoveAllNoDuplicates(s[1..], x);
      if s[0] != x {
        assert s[0] !in s[1..];
        NoDuplicatesCons(s[0], RemoveAll(s[1..], x));
      }
    }
  }

  lemma NoDuplicatesCons(x: string, s: seq<string>)
    requires x !in s && NoDuplicates(s)
    ensures NoDuplicates([x] + s)
  {
    var t := [x] + s;
    forall i, j | 0 <= i < j < |t|
      ensures t[i] != t[j]
    {
      if i > 0 {
        assert t[i] == s[i - 1] && t[j] == s[j - 1];
      } else {
        assert t[j] == s[j - 1];
      }
    }
  }

  /** The checkbox listener: checking adds the package (at the end, unless
      already present), unchecking removes it. */
  function OnCheckedChanged(sel: Selection, packageName: string, isChecked: bool): (r: Selection)
    ensures isChecked ==> Members(r) == Members(sel) + {packageName}
    ensures !isChecked ==> Members(r) == Members(sel) - {packageName}
    // Checking never reorders what was already selected.
    ensures isChecked ==> sel <= r
  {
    if isChecked then (if packageName in sel then sel else sel + [packageName])
    else
      RemoveAllNoDuplicates(sel, packageName);
      RemoveAll(sel, packageName)
  }

  /** Both directions of the listener are idempotent. */
  lemma OnCheckedChangedIdempotent(sel: Selection, packageName: string, isChecked: bool)
    ensures OnCheckedChanged(OnCheckedChanged(sel, packageName, isChecked), packageName, isChecked)
         == OnCheckedChanged(sel, packageName, isChecked)
  {
    if !isChecked {
      RemoveAllAbsent(RemoveAll(sel, packageName), packageName);
    }
  }

  lemma {:induction false} RemoveAllAbsent(s: seq<string>, x: string)
    requires x !in s
    ensures RemoveAll(s, x) == s
  {
    if |s| > 0 {
      RemoveAllAbsent(s[1..], x);
      assert s == [s[0]] + s[1..];
    }
  }

  /** Checking and then unchecking a package that was not selected restores
      the selection exactly. */
  lemma CheckThenUncheckRestores(sel: Selection, packageName: string)
    requires packageName !in sel
    ensures OnCheckedChanged(OnCheckedChanged(sel, packageName, true), packageName, false) == sel
  {
    RemoveAllAppended(sel, packageName);
  }

  lemma {:induction false} RemoveAllAppended(s: seq<string>, x: string)
    requires x !in s
    ensures RemoveAll(s + [x], x) == s
  {
    if |s| == 0 {
    } else {
      assert (s + [x])[1..] == s[1..] + [x];
      RemoveAllAppended(s[1..], x);
      assert s == [s[0]] + s[1..];
    }
  }

  lemma {:induction false} DistinctCardinality(s: seq<string>)
    requires NoDuplicates(s)
    ensures |set p | p in s| == |s|
  {
    if |s| > 0 {
      var rest := s[1..];
      DistinctCardinality(rest);
      assert (set p | p in s) == {s[0]} + (set p | p in rest);
      assert s[0] !in rest;
    }
  }

  /** `getSelectedPackages()`: exactly the selected set, each package once. */
  function GetSelectedPackages(sel: Selection): (r: seq<string>)
    ensures NoDuplicates(r)
    ensures forall p :: p in r <==> p in Members(sel)
    ensures |r| == |Members(sel)|
  {
    DistinctCardinality(sel);
    sel
  }

  // ---------------------------------------------------------------------
  // Per-app durations
  // ---------------------------------------------------------------------

  /** The text watcher: the entered text for a package replaces the old one. */
  function OnDurationEdited(durations: map<string, string>, packageName: string, text: string)
    : (r: map<string, string>)
    ensures packageName in r && r[packageName] == text
    ensures forall p :: p != packageName ==> (p in r <==> p in durations)
    ensures forall p :: p != packageName && p in r ==> r[p] == durations[p]
  {
    durations[packageName := text]
  }

  /** `getAppDurations()`: the selected packages whose entry parses to a
      positive `Long`, mapped to that value. */
  function GetAppDurations(durations: map<string, string>, sel: Selection): (r: map<string, int>)
    ensures forall p :: p in r ==> p in Members(sel)
    ensures forall p :: p in r ==> r[p] > 0 && Kotlin.InLongRange(r[p])
    ensures forall p :: p in r ==> p in durations && Kotlin.ToLongOrNull(durations[p]) == Some(r[p])
    ensures forall p ::
      (p in durations && p in sel && Kotlin.ToLongOrNull(durations[p]).Some?
       && Kotlin.ToLongOrNull(durations[p]).value > 0) ==> p in r
  {
    map p | p in durations && Kotlin.ToLongOrNull(durations[p]).Some?
                           && Kotlin.ToLongOrNull(durations[p]).value > 0 && p in sel
      :: Kotlin.ToLongOrNull(durations[p]).value
  }

  /** Typing a positive number of minutes for a selected app makes it
      appear in the durations with that value. */
  lemma EditedDurationReported(durations: map<string, string>, sel: Selection, packageName: string, n: int)
    requires packageName in sel && 0 < n <= Kotlin.LongMax
    ensures var r := GetAppDurations(OnDurationEdited(durations, packageName, Kotlin.LongToString(n)), sel);
            packageName in r && r[packageName] == n
  {
    Kotlin.ToLongOrNullRoundTrip(n);
  }

  // ---------------------------------------------------------------------
  // Filtering and sorting by label
  // ---------------------------------------------------------------------

  /** Sorted by `labelOf` under `String.compareTo`. */
  ghost predicate SortedByLabel(apps: seq<App>, labelOf: App -> string) {
    forall i :: 0 < i < |apps| ==> Kotlin.LexLe(labelOf(apps[i - 1]), labelOf(apps[i]))
  }

  /** The entries of `apps` whose label is exactly `l`, in order. */
  function WithLabel(apps: seq<App>, labelOf: App -> string, l: string): seq<App> {
    if |apps| == 0 then []
    else (if labelOf(apps[0]) == l then [apps[0]] else []) + WithLabel(apps[1..], labelOf, l)
  }

  /** Insert `a` before the first entry it does not sort after, so that it
      precedes every entry with an equal label. */
  function InsertByLabel(a: App, sorted: seq<App>, labelOf: App -> string): (r: seq<App>)
    ensures multiset(r) == multiset(sorted) + multiset{a}
    ensures |r| > 0 && (r[0] == a || (|sorted| > 0 && r[0] == sorted[0]))
  {
    if |sorted| == 0 || Kotlin.LexLe(labelOf(a), labelOf(sorted[0])) then [a] + sorted
    else
      assert sorted == [sorted[0]] + sorted[1..];
      [sorted[0]] + InsertByLabel(a, sorted[1..], labelOf)
  }

  lemma {:induction false} InsertByLabelSorted(a: App, sorted: seq<App>, labelOf: App -> string)
    requires SortedByLabel(sorted, labelOf)
    ensures SortedByLabel(InsertByLabel(a, sorted, labelOf), labelOf)
  {
    if |sorted| > 0 && !Kotlin.LexLe(labelOf(a), labelOf(sorted[0])) {
      Kotlin.LexLeTotal(labelOf(a), labelOf(sorted[0]));
      InsertByLabelSorted(a, sorted[1..], labelOf);
      var tail := InsertByLabel(a, sorted[1..], labelOf);
      var r := [sorted[0]] + tail;
      forall i | 0 < i < |r|
        ensures Kotlin.LexLe(labelOf(r[i - 1]), labelOf(r[i]))
      {
        if i > 1 {
          assert r[i - 1] == tail[i - 2] && r[i] == tail[i - 1];
        }
      }
    }
  }

  lemma WithLabelCons(x: App, t: seq<App>, labelOf: App -> string, l: string)
    ensures WithLabel([x] + t, labelOf, l) == (if labelOf(x) == l then [x] else []) + WithLabel(t, labelOf, l)
  {
    assert ([x] + t)[1..] == t;
  }

  lemma {:induction false} InsertByLabelStable(a: App, sorted: seq<App>, labelOf: App -> string, l: string)
    requires SortedByLabel(sorted, labelOf)
    ensures WithLabel(InsertByLabel(a, sorted, labelOf), labelOf, l)
         == (if labelOf(a) == l then [a] else []) + WithLabel(sorted, labelOf, l)
  {
    if |sorted| == 0 || Kotlin.LexLe(labelOf(a), labelOf(sorted[0])) {
      WithLabelCons(a, sorted, labelOf, l);
    } else {
      var head, rest := sorted[0], sorted[1..];
      var inserted := InsertByLabel(a, rest, labelOf);
      assert InsertByLabel(a, sorted, labelOf) == [head] + inserted;
      WithLabelCons(head, inserted, labelOf, l);
      InsertByLabelStable(a, rest, labelOf, l);
      WithLabelCons(head, rest, labelOf, l);
      assert sorted == [head] + rest;
      if labelOf(a) == l {
        // `a` sorts strictly after the head, so the head has another label.
        Kotlin.LexLeReflexive(l);
        assert labelOf(head) != l;
      }
    }
  }

  /** `sortedBy { it.loadLabel(..) }`: a stable insertion sort. */
  function SortByLabel(apps: seq<App>, labelOf: App -> string): (r: seq<App>)
    ensures multiset(r) == multiset(apps)
    ensures SortedByLabel(r, labelOf)
    // Stable: entries with equal labels keep their relative order.
    ensures forall l :: WithLabel(r, labelOf, l) == WithLabel(apps, labelOf, l)
  {
    if |apps| == 0 then []
    else
      assert apps == [apps[0]] + apps[1..];
      var rest := SortByLabel(apps[1..], labelOf);
      InsertByLabelSorted(apps[0], rest, labelOf);
      InsertByLabelStableAll(apps[0], rest, labelOf);
      WithLabelConsAll(apps[0], apps[1..], labelOf);
      InsertByLabel(apps[0], rest, labelOf)
  }

  lemma InsertByLabelStableAll(a: App, sorted: seq<App>, labelOf: App -> string)
    requires SortedByLabel(sorted, labelOf)
    ensures forall l :: WithLabel(InsertByLabel(a, sorted, labelOf), labelOf, l)
                     == (if labelOf(a) == l then [a] else []) + WithLabel(sorted, labelOf, l)
  {
    forall l {
      InsertByLabelStable(a, sorted, labelOf, l);
    }
  }

  lemma WithLabelConsAll(x: App, t: seq<App>, labelOf: App -> string)
    ensures forall l :: WithLabel([x] + t, labelOf, l)
                     == (if labelOf(x) == l then [x] else []) + WithLabel(t, labelOf, l)
  {
    forall l {
      WithLabelCons(x, t, labelOf, l);
    }
  }

  /** `allApps.filter { label(it).contains(query, ignoreCase = true) }`. */
  function FilterByLabel(apps: seq<App>, query: string, labelOf: App -> string, fold: char -> char)
    : (r: seq<App>)
    ensures forall a :: a in r <==> a in apps && Kotlin.OccursIgnoringCase(labelOf(a), query, fold)
    ensures forall a :: a in r ==> multiset(r)[a] == multiset(apps)[a]
  {
    if |apps| == 0 then []
    else
      assert apps == [apps[0]] + apps[1..];
      (if Kotlin.ContainsIgnoringCase(labelOf(apps[0]), query, fold) then [apps[0]] else [])
      + FilterByLabel(apps[1..], query, labelOf, fold)
  }

  /** Whether an entry is kept depends only on its label, so the entries
      with one label are kept all together, in order, or not at all. */
  lemma {:induction false} FilterByLabelKeepsLabelGroups(apps: seq<App>, query: string,
                                                        labelOf: App -> string, fold: char -> char, l: string)
    ensures WithLabel(FilterByLabel(apps, query, labelOf, fold), labelOf, l)
         == if Kotlin.OccursIgnoringCase(l, query, fold) then WithLabel(apps, labelOf, l) else []
  {
    if |apps| > 0 {
      var x, t := apps[0], apps[1..];
      var rest := FilterByLabel(t, query, labelOf, fold);
      FilterByLabelKeepsLabelGroups(t, query, labelOf, fold, l);
      WithLabelCons(x, t, labelOf, l);
      assert apps == [x] + t;
      if Kotlin.ContainsIgnoringCase(labelOf(x), query, fold) {
        assert FilterByLabel(apps, query, labelOf, fold) == [x] + rest;
        WithLabelCons(x, rest, labelOf, l);
      } else {
        assert FilterByLabel(apps, query, labelOf, fold) == rest;
      }
    }
  }

  /** `performFiltering(constraint)`: a null or empty constraint shows every
      app, otherwise those whose label contains it ignoring case; either
      way sorted by label, equal labels in installation order. */
  function PerformFiltering(allApps: seq<App>, constraint: Option<string>, labelOf: App -> string,
                            fold: char -> char): (r: seq<App>)
    ensures constraint.GetOr("") == "" ==> multiset(r) == multiset(allApps)
    ensures forall a :: a in r <==>
      a in allApps && (constraint.GetOr("") == "" || Kotlin.OccursIgnoringCase(labelOf(a), constraint.value, fold))
    ensures forall a :: a in r ==> multiset(r)[a] == multiset(allApps)[a]
    ensures SortedByLabel(r, labelOf)
    ensures forall l ::
      (WithLabel(r, labelOf, l) ==
       if constraint.GetOr("") == "" || Kotlin.OccursIgnoringCase(l, constraint.value, fold)
       then WithLabel(allApps, labelOf, l) else [])
  {
    var query := constraint.GetOr("");
    if |query| == 0 then
      assert forall a :: a in SortByLabel(allApps, labelOf) <==> a in multiset(allApps);
      SortByLabel(allApps, labelOf)
    else
      var matching := FilterByLabel(allApps, query, labelOf, fold);
      assert forall a :: a in SortByLabel(matching, labelOf) <==> a in multiset(matching);
      FilterByLabelKeepsLabelGroupsAll(allApps, query, labelOf, fold);
      SortByLabel(matching, labelOf)
  }

  lemma FilterByLabelKeepsLabelGroupsAll(apps: seq<App>, query: string, labelOf: App -> string,
                                         fold: char -> char)
    ensures forall l ::
      (WithLabel(FilterByLabel(apps, query, labelOf, fold), labelOf, l) ==
       if Kotlin.OccursIgnoringCase(l, query, fold) then WithLabel(apps, labelOf, l) else [])
  {
    forall l {
      FilterByLabelKeepsLabelGroups(apps, query, labelOf, fold, l);
    }
  }
}
