/**
 * Daily bucketing and the cumulative series (`results_by_day` and
 * `cumulative_results_by_day` in `__init__.py`).
 *
 * A credit is a note id in the list of its category. Each note's first
 * study time (epoch milliseconds, from `note_info`) is turned into a
 * calendar day by `dayOf`, an abstract stand-in for the local-time
 * `datetime.fromtimestamp` and `'%Y-%m-%d'` formatting; days are integers
 * whose order is the order of the date strings.
 */
module Daily {
  import Coverage

  type NoteId = Coverage.NoteId
  type Category = Coverage.Category
  type Day = int

  /** The days of a list of credits, in list order. */
  function DaysOf(noteInfo: map<NoteId, int>, dayOf: int -> Day, ids: seq<NoteId>): (ds: seq<Day>)
    requires forall i | 0 <= i < |ids| :: ids[i] in noteInfo
    ensures |ds| == |ids|
    ensures forall i | 0 <= i < |ids| :: ds[i] == dayOf(noteInfo[ids[i]])
  {
    if ids == [] then []
    else DaysOf(noteInfo, dayOf, ids[..|ids| - 1]) + [dayOf(noteInfo[ids[|ids| - 1]])]
  }

  /** How many of the days `ds` are `d`. */
  function CountEq(ds: seq<Day>, d: Day): nat
  {
    if ds == [] then 0
    else CountEq(ds[..|ds| - 1], d) + (if ds[|ds| - 1] == d then 1 else 0)
  }

  /** How many of the days `ds` are on or before `d`. */
  function CountLe(ds: seq<Day>, d: Day): nat
  {
    if ds == [] then 0
    else CountLe(ds[..|ds| - 1], d) + (if ds[|ds| - 1] <= d then 1 else 0)
  }

  /** How many of the days `ds` lie in `days`. */
  function CountIn(ds: seq<Day>, days: set<Day>): nat
  {
    if ds == [] then 0
    else CountIn(ds[..|ds| - 1], days) + (if ds[|ds| - 1] in days then 1 else 0)
  }

  /** The set of days listed in `s`. */
  function Elems(s: seq<Day>): set<Day>
  {
    set x | x in s
  }

  /** The count stored for category `k` on day `d`, 0 when absent. */
  function Get(byDay: map<Day, map<Category, nat>>, d: Day, k: Category): nat
  {
    if d in byDay && k in byDay[d] then byDay[d][k] else 0
  }

  /** What `results_by_day` produces: for each day and category the number
      of that category's credits on that day, holding only days and
      categories with at least one credit. */
  ghost predicate IsDailyCounts(byDay: map<Day, map<Category, nat>>, noteInfo: map<NoteId, int>, dayOf: int -> Day,
                                results: map<Category, seq<NoteId>>)
    requires Coverage.HasDates(noteInfo, results)
  {
    && (forall d, k :: Get(byDay, d, k) == if k in results then CountEq(DaysOf(noteInfo, dayOf, results[k]), d) else 0)
    && NoZeroEntries(byDay)
  }

  /** Every day present holds some category, and every stored count is positive. */
  ghost predicate NoZeroEntries(byDay: map<Day, map<Category, nat>>)
  {
    forall d | d in byDay :: byDay[d] != map[] && forall k | k in byDay[d] :: byDay[d][k] > 0
  }

  /** The counts of the categories in `finished`, the others reading 0. */
  ghost function Expected(noteInfo: map<NoteId, int>, dayOf: int -> Day, results: map<Category, seq<NoteId>>,
                          finished: set<Category>, d: Day, k: Category): nat
    requires Coverage.HasDates(noteInfo, results)
  {
    if k in results && k in finished then CountEq(DaysOf(noteInfo, dayOf, results[k]), d) else 0
  }

  /** `results_by_day`: count the credits of every category per day. */
  method ResultsByDay(noteInfo: map<NoteId, int>, dayOf: int -> Day, results: map<Category, seq<NoteId>>)
    returns (byDay: map<Day, map<Category, nat>>)
    requires Coverage.HasDates(noteInfo, results)
    ensures IsDailyCounts(byDay, noteInfo, dayOf, results)
  {
    byDay := map[];
    var todo := results.Keys;
    while todo != {}
      invariant todo <= results.Keys
      invariant forall d, k :: Get(byDay, d, k) == Expected(noteInfo, dayOf, results, results.Keys - todo, d, k)
      invariant NoZeroEntries(byDay)
      decreases todo
    {
      Pick(todo);
      var key :| key in todo;
      var ids := results[key];
      ghost var finished := results.Keys - todo;
      var j := 0;
      while j < |ids|
        invariant 0 <= j <= |ids|
        invariant forall d, k :: Get(byDay, d, k) ==
                    if k == key then CountEq(DaysOf(noteInfo, dayOf, ids[..j]), d)
                    else Expected(noteInfo, dayOf, results, finished, d, k)
        invariant NoZeroEntries(byDay)
      {
        var day := dayOf(noteInfo[ids[j]]);
        ghost var previous := byDay;
        byDay := Increment(byDay, day, key);
        CreditStep(previous, byDay, noteInfo, dayOf, results, finished, key, j);
        j := j + 1;
      }
      assert ids[..|ids|] == ids;
      forall d, k ensures Get(byDay, d, k) == Expected(noteInfo, dayOf, results, results.Keys - (todo - {key}), d, k) {
        assert Get(byDay, d, k) == if k == key then CountEq(DaysOf(noteInfo, dayOf, ids), d)
                                   else Expected(noteInfo, dayOf, results, finished, d, k);
      }
      todo := todo - {key};
    }
  }

  /** One count of `results_by_day`: create the day's dict and the
      category's entry when missing, then add one. */
  method Increment(byDay: map<Day, map<Category, nat>>, day: Day, key: Category) returns (next: map<Day, map<Category, nat>>)
    requires NoZeroEntries(byDay)
    ensures forall e, c :: Get(next, e, c) == Get(byDay, e, c) + if e == day && c == key then 1 else 0
    ensures NoZeroEntries(next)
  {
    next := byDay;
    if day !in next {
      next := next[day := map[]];
    }
    if key !in next[day] {
      next := next[day := next[day][key := 0]];
    }
    next := next[day := next[day][key := next[day][key] + 1]];
  }

  /** Counting the credit at position `j` of category `key` keeps the
      counts of `results_by_day`'s inner loop in step with the credits seen. */
  lemma CreditStep(previous: map<Day, map<Category, nat>>, next: map<Day, map<Category, nat>>, noteInfo: map<NoteId, int>, dayOf: int -> Day,
                   results: map<Category, seq<NoteId>>, finished: set<Category>, key: Category, j: nat)
    requires Coverage.HasDates(noteInfo, results)
    requires key in results && key !in finished && j < |results[key]|
    requires forall d, k :: Get(previous, d, k) ==
               if k == key then CountEq(DaysOf(noteInfo, dayOf, results[key][..j]), d)
               else Expected(noteInfo, dayOf, results, finished, d, k)
    requires forall e, c :: Get(next, e, c) == Get(previous, e, c) + if e == dayOf(noteInfo[results[key][j]]) && c == key then 1 else 0
    ensures forall d, k :: Get(next, d, k) ==
              if k == key then CountEq(DaysOf(noteInfo, dayOf, results[key][..j + 1]), d)
              else Expected(noteInfo, dayOf, results, finished, d, k)
  {
    var ids := results[key];
    var day := dayOf(noteInfo[ids[j]]);
    assert ids[..j + 1][..j] == ids[..j];
    assert DaysOf(noteInfo, dayOf, ids[..j + 1]) == DaysOf(noteInfo, dayOf, ids[..j]) + [day];
    CountEqStep(DaysOf(noteInfo, dayOf, ids[..j]), day);
  }

  /** No two positions of `s` hold the same value, and it ascends. */
  ghost predicate Increasing(s: seq<Day>)
  {
    forall a, b | 0 <= a < b < |s| :: s[a] < s[b]
  }

  /** Python's `sorted` over the keys of a dict of days. */
  method SortedDays(days: set<Day>) returns (sorted: seq<Day>)
    ensures Increasing(sorted)
    ensures forall d :: d in sorted <==> d in days
  {
    sorted := [];
    var rest := days;
    while rest != {}
      invariant rest <= days
      invariant Increasing(sorted)
      invariant forall d :: d in sorted <==> d in days && d !in rest
      invariant forall a, b | a in sorted && b in rest :: a < b
      decreases rest
    {
      MinExists(rest);
      var d :| d in rest && forall x | x in rest :: d <= x;
      forall a | 0 <= a < |sorted| ensures sorted[a] < d {
        assert sorted[a] in sorted;
      }
      sorted := sorted + [d];
      rest := rest - {d};
    }
  }

  /** A finite non-empty set of days has a least element. */
  lemma MinExists(s: set<Day>)
    requires s != {}
    ensures exists m :: m in s && forall x | x in s :: m <= x
  {
    Pick(s);
    var y :| y in s;
    if s - {y} != {} {
      MinExists(s - {y});
      var m :| m in s - {y} && forall x | x in s - {y} :: m <= x;
      var least := if y < m then y else m;
      forall x | x in s ensures least <= x {
        if x != y {
          assert x in s - {y};
        }
      }
    } else {
      assert s == {y};
    }
  }

  /** A non-empty set has an element. */
  lemma Pick(s: set<int>)
    requires s != {}
    ensures exists x :: x in s
  {
    if forall x :: x !in s {
      assert false;
    }
  }

  /** One day of the cumulative series: the running total of every category. */
  datatype Snapshot = Snapshot(day: Day, totals: map<Category, nat>)

  /** The days on which some credit was made. */
  ghost function CreditDays(noteInfo: map<NoteId, int>, dayOf: int -> Day, results: map<Category, seq<NoteId>>): set<Day>
    requires Coverage.HasDates(noteInfo, results)
  {
    set k, d | k in results && d in DaysOf(noteInfo, dayOf, results[k]) :: d
  }

  /** What `cumulative_results_by_day` produces: one snapshot per credit
      day, in ascending day order, each holding every category with the
      number of its credits made on or before that day. */
  ghost predicate IsCumulativeSeries(series: seq<Snapshot>, noteInfo: map<NoteId, int>, dayOf: int -> Day,
                                     results: map<Category, seq<NoteId>>)
    requires Coverage.HasDates(noteInfo, results)
  {
    && (forall a, b | 0 <= a < b < |series| :: series[a].day < series[b].day)
    && (set s | s in series :: s.day) == CreditDays(noteInfo, dayOf, results)
    && (forall i | 0 <= i < |series| :: series[i].totals.Keys == results.Keys)
    && (forall i, k | 0 <= i < |series| && k in results ::
          series[i].totals[k] == CountLe(DaysOf(noteInfo, dayOf, results[k]), series[i].day))
  }

  /** `cumulative_results_by_day`: walk the days in ascending order keeping
      a running total per category, and record a copy of all totals for each day. */
  method CumulativeResultsByDay(noteInfo: map<NoteId, int>, dayOf: int -> Day, results: map<Category, seq<NoteId>>)
    returns (series: seq<Snapshot>)
    requires Coverage.HasDates(noteInfo, results)
    ensures IsCumulativeSeries(series, noteInfo, dayOf, results)
  {
    var byDay := ResultsByDay(noteInfo, dayOf, results);
    var days := SortedDays(byDay.Keys);
    DailyKeys(byDay, noteInfo, dayOf, results);
    forall d, k | d in byDay && k in byDay[d] ensures k in results {
      assert Get(byDay, d, k) > 0;
    }
    forall t | 0 <= t < |days| ensures days[t] in byDay {
      assert days[t] in days;
    }
    series := RunningTotals(byDay, days, results.Keys);
    forall t, k | 0 <= t < |series| && k in results
      ensures series[t].totals[k] == CountLe(DaysOf(noteInfo, dayOf, results[k]), series[t].day)
    {
      SumOverDaysIsCountLe(byDay, noteInfo, dayOf, results, days, t, k);
    }
    assert (set s | s in series :: s.day) == CreditDays(noteInfo, dayOf, results) by {
      forall x ensures x in (set s | s in series :: s.day) <==> x in days {
        if x in days {
          var p :| 0 <= p < |days| && days[p] == x;
          assert series[p] in series;
        }
      }
    }
  }

  /** The running totals after the first `n` days: every category of `keys`
      with the sum of its daily counts over those days. */
  function Totals(byDay: map<Day, map<Category, nat>>, days: seq<Day>, n: nat, keys: set<Category>): (totals: map<Category, nat>)
    requires n <= |days|
    ensures totals.Keys == keys
  {
    map k | k in keys :: SumOverDays(byDay, days, n, k)
  }

  /** The loop of `cumulative_results_by_day` over the sorted days: after
      day `days[t]` the total of each category is the sum of its daily
      counts up to and including that day. */
  method RunningTotals(byDay: map<Day, map<Category, nat>>, days: seq<Day>, keys: set<Category>)
    returns (series: seq<Snapshot>)
    requires forall d | d in byDay :: byDay[d].Keys <= keys
    requires forall t | 0 <= t < |days| :: days[t] in byDay
    ensures |series| == |days|
    ensures forall t | 0 <= t < |days| :: series[t] == Snapshot(days[t], Totals(byDay, days, t + 1, keys))
  {
    var running: map<Category, nat> := map k | k in keys :: 0;
    assert running == Totals(byDay, days, 0, keys);
    series := [];
    var i := 0;
    while i < |days|
      invariant 0 <= i <= |days|
      invariant |series| == i
      invariant running == Totals(byDay, days, i, keys)
      invariant forall t | 0 <= t < i :: series[t] == Snapshot(days[t], Totals(byDay, days, t + 1, keys))
    {
      var d := days[i];
      ghost var before := running;
      running := AddCounts(running, byDay[d]);
      TotalsStep(byDay, days, i, keys, before, running);
      series := series + [Snapshot(d, running)];
      i := i + 1;
    }
  }

  /** Adding the counts of day `days[n]` to the totals after `n` days gives the totals after `n + 1`. */
  lemma TotalsStep(byDay: map<Day, map<Category, nat>>, days: seq<Day>, n: nat, keys: set<Category>,
                   before: map<Category, nat>, after: map<Category, nat>)
    requires n < |days| && days[n] in byDay
    requires before == Totals(byDay, days, n, keys)
    requires after.Keys == before.Keys
    requires forall k | k in before :: after[k] == before[k] + if k in byDay[days[n]] then byDay[days[n]][k] else 0
    ensures after == Totals(byDay, days, n + 1, keys)
  {
    var next := Totals(byDay, days, n + 1, keys);
    forall k | k in keys ensures after[k] == next[k] {
      assert after[k] == before[k] + Get(byDay, days[n], k);
    }
  }

  /** The inner loop of `cumulative_results_by_day`: add one day's counts
      to the running totals. */
  method AddCounts(running: map<Category, nat>, counts: map<Category, nat>) returns (next: map<Category, nat>)
    requires counts.Keys <= running.Keys
    ensures next.Keys == running.Keys
    ensures forall k | k in running :: next[k] == running[k] + if k in counts then counts[k] else 0
  {
    next := running;
    var todo := counts.Keys;
    while todo != {}
      invariant todo <= counts.Keys
      invariant next.Keys == running.Keys
      invariant forall k | k in running :: next[k] == running[k] + if k in counts && k !in todo then counts[k] else 0
      decreases todo
    {
      Pick(todo);
      var key :| key in todo;
      next := next[key := next[key] + counts[key]];
      todo := todo - {key};
    }
  }

  /** Summing the daily counts of category `k` over the sorted days up to
      `days[i]` gives the number of its credits on or before that day. */
  lemma SumOverDaysIsCountLe(byDay: map<Day, map<Category, nat>>, noteInfo: map<NoteId, int>, dayOf: int -> Day,
                             results: map<Category, seq<NoteId>>, days: seq<Day>, i: nat, k: Category)
    requires Coverage.HasDates(noteInfo, results)
    requires IsDailyCounts(byDay, noteInfo, dayOf, results)
    requires Increasing(days) && forall d :: d in days <==> d in byDay
    requires i < |days| && k in results
    ensures SumOverDays(byDay, days, i + 1, k) == CountLe(DaysOf(noteInfo, dayOf, results[k]), days[i])
  {
    var ds := DaysOf(noteInfo, dayOf, results[k]);
    var walked := days[..i + 1];
    SumOverDaysIsSumCountEq(byDay, noteInfo, dayOf, results, days, i + 1, k);
    SumOfCounts(ds, walked);
    forall t | 0 <= t < |ds| ensures ds[t] in Elems(walked) <==> ds[t] <= days[i] {
      var x := ds[t];
      assert x in ds;
      DayOfCreditIsListed(byDay, noteInfo, dayOf, results, k, x);
      var p :| 0 <= p < |days| && days[p] == x;
      assert x in Elems(walked) <==> p <= i;
    }
    CountInLe(ds, Elems(walked), days[i]);
  }

  // ---------------------------------------------------------------------
  // Counting lemmas
  // ---------------------------------------------------------------------

  lemma CountEqStep(ds: seq<Day>, x: Day)
    ensures forall d :: CountEq(ds + [x], d) == CountEq(ds, d) + (if x == d then 1 else 0)
  {
    assert (ds + [x])[..|ds|] == ds;
  }

  lemma {:induction false} CountEqPositive(ds: seq<Day>, d: Day)
    ensures CountEq(ds, d) > 0 <==> d in ds
  {
    if ds != [] {
      var rest := ds[..|ds| - 1];
      CountEqPositive(rest, d);
      assert ds == rest + [ds[|ds| - 1]];
    }
  }

  lemma {:induction false} CountInAdd(ds: seq<Day>, days: set<Day>, d: Day)
    requires d !in days
    ensures CountIn(ds, days + {d}) == CountIn(ds, days) + CountEq(ds, d)
  {
    if ds != [] {
      CountInAdd(ds[..|ds| - 1], days, d);
    }
  }

  lemma {:induction false} CountInLe(ds: seq<Day>, days: set<Day>, d: Day)
    requires forall i | 0 <= i < |ds| :: ds[i] in days <==> ds[i] <= d
    ensures CountIn(ds, days) == CountLe(ds, d)
  {
    if ds != [] {
      var rest := ds[..|ds| - 1];
      CountInLe(rest, days, d);
    }
  }

  lemma {:induction false} CountInAll(ds: seq<Day>, days: set<Day>)
    requires forall i | 0 <= i < |ds| :: ds[i] in days
    ensures CountIn(ds, days) == |ds|
  {
    if ds != [] {
      var rest := ds[..|ds| - 1];
      CountInAll(rest, days);
    }
  }

  lemma {:induction false} CountLeMonotone(ds: seq<Day>, a: Day, b: Day)
    requires a <= b
    ensures CountLe(ds, a) <= CountLe(ds, b)
  {
    if ds != [] {
      CountLeMonotone(ds[..|ds| - 1], a, b);
    }
  }

  lemma {:induction false} CountLeAll(ds: seq<Day>, d: Day)
    requires forall i | 0 <= i < |ds| :: ds[i] <= d
    ensures CountLe(ds, d) == |ds|
  {
    if ds != [] {
      var rest := ds[..|ds| - 1];
      CountLeAll(rest, d);
    }
  }

  /** The sum of `Get(byDay, d, k)` over the first `n` days of `days`. */
  function SumOverDays(byDay: map<Day, map<Category, nat>>, days: seq<Day>, n: nat, k: Category): nat
    requires n <= |days|
  {
    if n == 0 then 0
    else SumOverDays(byDay, days, n - 1, k) + Get(byDay, days[n - 1], k)
  }

  // ---------------------------------------------------------------------
  // Properties of the daily counts and the series
  // ---------------------------------------------------------------------

  /** The days of the daily counts are exactly the credit days. */
  lemma DailyKeys(byDay: map<Day, map<Category, nat>>, noteInfo: map<NoteId, int>, dayOf: int -> Day,
                  results: map<Category, seq<NoteId>>)
    requires Coverage.HasDates(noteInfo, results)
    requires IsDailyCounts(byDay, noteInfo, dayOf, results)
    ensures byDay.Keys == CreditDays(noteInfo, dayOf, results)
  {
    forall d ensures d in byDay <==> d in CreditDays(noteInfo, dayOf, results) {
      if d in byDay {
        Pick(byDay[d].Keys);
        var k :| k in byDay[d];
        assert Get(byDay, d, k) > 0;
        CountEqPositive(DaysOf(noteInfo, dayOf, results[k]), d);
      }
      if d in CreditDays(noteInfo, dayOf, results) {
        var k :| k in results && d in DaysOf(noteInfo, dayOf, results[k]);
        CountEqPositive(DaysOf(noteInfo, dayOf, results[k]), d);
        assert Get(byDay, d, k) > 0;
      }
    }
  }

  /** The day of every credit is one of the days of the daily counts. */
  lemma DayOfCreditIsListed(byDay: map<Day, map<Category, nat>>, noteInfo: map<NoteId, int>, dayOf: int -> Day,
                            results: map<Category, seq<NoteId>>, k: Category, x: Day)
    requires Coverage.HasDates(noteInfo, results)
    requires IsDailyCounts(byDay, noteInfo, dayOf, results)
    requires k in results && x in DaysOf(noteInfo, dayOf, results[k])
    ensures x in byDay
  {
    CountEqPositive(DaysOf(noteInfo, dayOf, results[k]), x);
    assert Get(byDay, x, k) > 0;
  }

  lemma {:induction false} SumOfCounts(ds: seq<Day>, days: seq<Day>)
    requires forall a, b | 0 <= a < b < |days| :: days[a] != days[b]
    ensures SumCountEq(ds, days) == CountIn(ds, Elems(days))
  {
    if days == [] {
      assert Elems(days) == {};
      CountInNone(ds);
    } else {
      var rest, d := days[..|days| - 1], days[|days| - 1];
      SumOfCounts(ds, rest);
      assert Elems(days) == Elems(rest) + {d} by {
        assert days == rest + [d];
      }
      assert d !in Elems(rest);
      CountInAdd(ds, Elems(rest), d);
    }
  }

  /** The sum of `CountEq(ds, d)` over the days of `days`. */
  function SumCountEq(ds: seq<Day>, days: seq<Day>): nat
  {
    if days == [] then 0
    else SumCountEq(ds, days[..|days| - 1]) + CountEq(ds, days[|days| - 1])
  }

  lemma {:induction false} CountInNone(ds: seq<Day>)
    ensures CountIn(ds, {}) == 0
  {
    if ds != [] {
      CountInNone(ds[..|ds| - 1]);
    }
  }

  lemma {:induction false} SumOverDaysIsSumCountEq(byDay: map<Day, map<Category, nat>>, noteInfo: map<NoteId, int>,
                                                   dayOf: int -> Day, results: map<Category, seq<NoteId>>, days: seq<Day>,
                                                   n: nat, k: Category)
    requires Coverage.HasDates(noteInfo, results)
    requires IsDailyCounts(byDay, noteInfo, dayOf, results)
    requires n <= |days| && k in results
    ensures SumOverDays(byDay, days, n, k) == SumCountEq(DaysOf(noteInfo, dayOf, results[k]), days[..n])
  {
    if n > 0 {
      SumOverDaysIsSumCountEq(byDay, noteInfo, dayOf, results, days, n - 1, k);
      assert days[..n][..n - 1] == days[..n - 1];
    }
  }

  /** Conservation per category: summed over all days, the daily counts of a
      category equal the number of its credits. */
  lemma DailyCountsConserve(byDay: map<Day, map<Category, nat>>, noteInfo: map<NoteId, int>, dayOf: int -> Day,
                            results: map<Category, seq<NoteId>>, days: seq<Day>, k: Category)
    requires Coverage.HasDates(noteInfo, results)
    requires IsDailyCounts(byDay, noteInfo, dayOf, results)
    requires forall a, b | 0 <= a < b < |days| :: days[a] != days[b]
    requires forall d :: d in days <==> d in byDay
    requires k in results
    ensures SumOverDays(byDay, days, |days|, k) == |results[k]|
  {
    var ds := DaysOf(noteInfo, dayOf, results[k]);
    SumOverDaysIsSumCountEq(byDay, noteInfo, dayOf, results, days, |days|, k);
    assert days[..|days|] == days;
    SumOfCounts(ds, days);
    forall t | 0 <= t < |ds| ensures ds[t] in Elems(days) {
      assert ds[t] in ds;
      DayOfCreditIsListed(byDay, noteInfo, dayOf, results, k, ds[t]);
    }
    CountInAll(ds, Elems(days));
  }

  /** Per category, the totals never decrease from one day to a later one. */
  lemma CumulativeMonotone(series: seq<Snapshot>, noteInfo: map<NoteId, int>, dayOf: int -> Day,
                           results: map<Category, seq<NoteId>>, a: nat, b: nat, k: Category)
    requires Coverage.HasDates(noteInfo, results)
    requires IsCumulativeSeries(series, noteInfo, dayOf, results)
    requires a <= b < |series| && k in results
    ensures series[a].totals[k] <= series[b].totals[k]
  {
    CountLeMonotone(DaysOf(noteInfo, dayOf, results[k]), series[a].day, series[b].day);
  }

  /** The last snapshot holds, for every category, the number of its credits. */
  lemma CumulativeFinal(series: seq<Snapshot>, noteInfo: map<NoteId, int>, dayOf: int -> Day,
                        results: map<Category, seq<NoteId>>, k: Category)
    requires Coverage.HasDates(noteInfo, results)
    requires IsCumulativeSeries(series, noteInfo, dayOf, results)
    requires series != [] && k in results
    ensures series[|series| - 1].totals[k] == |results[k]|
  {
    var ds := DaysOf(noteInfo, dayOf, results[k]);
    var last := series[|series| - 1];
    forall t | 0 <= t < |ds| ensures ds[t] <= last.day {
      var x := ds[t];
      assert x in ds;
      assert x in CreditDays(noteInfo, dayOf, results);
      var s :| s in series && s.day == x;
      var p :| 0 <= p < |series| && series[p] == s;
    }
    CountLeAll(ds, last.day);
  }

  /** End to end: after a successful crediting run over notes that all
      have a first-study time, the credited notes all have one too, and the
      last snapshot of the cumulative series holds, for every category, the
      number of distinct reported words of that category. */
  lemma FinalTotalsCountWords(track: Coverage.Track, noteIds: seq<NoteId>, sentenceFor: map<NoteId, string>,
                              searchAll: Coverage.Matcher, noteInfo: map<NoteId, int>, dayOf: int -> Day,
                              series: seq<Snapshot>, k: Category)
    requires Coverage.HasSentences(noteIds, sentenceFor)
    requires Coverage.NotesDated(noteIds, noteInfo)
    requires k in track.keys
    ensures var out := Coverage.RunOutcome(track, Coverage.Matches(noteIds, sentenceFor, searchAll));
            out.Ok? ==> Coverage.HasDates(noteInfo, out.value.results)
    ensures var ms := Coverage.Matches(noteIds, sentenceFor, searchAll);
            var out := Coverage.RunOutcome(track, ms);
            out.Ok? && series != [] && IsCumulativeSeries(series, noteInfo, dayOf, out.value.results) ==>
              series[|series| - 1].totals[k] == |Coverage.WordsOfCategory(track, ms, k)|
  {
    var ms := Coverage.Matches(noteIds, sentenceFor, searchAll);
    var out := Coverage.RunOutcome(track, ms);
    Coverage.CreditsDated(track, noteIds, sentenceFor, searchAll, noteInfo);
    if out.Ok? && series != [] && IsCumulativeSeries(series, noteInfo, dayOf, out.value.results) {
      Coverage.CoverageSucceeds(track, ms);
      CumulativeFinal(series, noteInfo, dayOf, out.value.results, k);
      Coverage.CategoryCountsWords(track, ms, k);
    }
  }

  /** The series is empty exactly when no category has a credit. */
  lemma CumulativeEmpty(series: seq<Snapshot>, noteInfo: map<NoteId, int>, dayOf: int -> Day,
                        results: map<Category, seq<NoteId>>)
    requires Coverage.HasDates(noteInfo, results)
    requires IsCumulativeSeries(series, noteInfo, dayOf, results)
    ensures series == [] <==> forall k | k in results :: results[k] == []
  {
    forall k | k in results && results[k] != [] ensures series != [] {
      var ds := DaysOf(noteInfo, dayOf, results[k]);
      assert ds[0] in ds;
      assert ds[0] in CreditDays(noteInfo, dayOf, results);
      assert ds[0] in (set s | s in series :: s.day);
    }
    if series != [] {
      assert series[0] in series;
      assert series[0].day in CreditDays(noteInfo, dayOf, results);
    }
  }
}
