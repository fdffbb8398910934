/** The dashboard's aggregation over one user's loaded rows: resolve the time
    window, keep the entries inside it and their tags, fill missing ratings
    with 50, average per value and rank by mean. Timestamps are integers in
    microseconds, the resolution of the stored ISO text, and `now` is a parameter. Means are exact: each group keeps its rating
    sum and count. */
module Aggregator {
  import opened Records
  import opened EntryStore

  /** One day in microseconds. */
  const DayMicros: int := 86_400_000_000
  const DefaultRating: int := 50

  /** The four choices of the time-window selector. */
  datatype Window = LastDay | LastWeek | LastMonth | AllTime

  /** Length in days of a relative window. */
  function LookbackDays(w: Window): int
    requires w != AllTime
  {
    match w
    case LastDay => 1
    case LastWeek => 7
    case LastMonth => 30
  }

  /** The earliest timestamp among `es`. */
  function MinTs(es: seq<Entry>): (m: int)
    requires es != []
    ensures forall e :: e in es ==> m <= e.ts
    ensures exists e :: e in es && e.ts == m
  {
    if |es| == 1 then es[0].ts
    else
      var rest := MinTs(es[1..]);
      assert es[1] in es[1..];
      if es[0].ts <= rest then es[0].ts else rest
  }

  /** Lower bound of the window: `now` minus the window's days, or the
      earliest loaded timestamp for "All time". */
  function WindowStart(w: Window, now: int, es: seq<Entry>): (start: int)
    requires w == AllTime ==> es != []
    ensures w == AllTime ==> (forall e :: e in es ==> start <= e.ts) && exists e :: e in es && e.ts == start
    ensures w != AllTime ==> now - DayMicros * 30 <= start <= now - DayMicros
    ensures w == LastDay ==> now - start == DayMicros
    ensures w == LastWeek ==> now - start == 7 * DayMicros
    ensures w == LastMonth ==> now - start == 30 * DayMicros
  {
    if w == AllTime then MinTs(es) else now - LookbackDays(w) * DayMicros
  }

  /** The entries whose timestamp is at or after `start` (inclusive bound). */
  function Since(es: seq<Entry>, start: int): (r: seq<Entry>)
    ensures forall e :: e in r <==> e in es && e.ts >= start
    ensures |r| <= |es|
  {
    if es == [] then []
    else (if es[0].ts >= start then [es[0]] else []) + Since(es[1..], start)
  }

  /** A bound below every timestamp keeps every entry, in order. */
  lemma {:induction false} SinceAll(es: seq<Entry>, start: int)
    requires forall e :: e in es ==> e.ts >= start
    ensures Since(es, start) == es
  {
    if es != [] {
      assert es[0] in es;
      SinceAll(es[1..], start);
    }
  }

  /** An entry is kept by the window iff it is loaded and, for a relative
      window, not older than `now` minus the window's days (bound included).
      "All time" keeps the loaded entries unchanged. */
  lemma WindowMembership(w: Window, now: int, es: seq<Entry>)
    requires es != []
    ensures forall e :: e in Since(es, WindowStart(w, now, es)) <==>
      e in es && (w == AllTime || e.ts >= now - LookbackDays(w) * DayMicros)
    ensures w == AllTime ==> Since(es, WindowStart(w, now, es)) == es
  {
    if w == AllTime {
      SinceAll(es, MinTs(es));
    }
  }

  /** The tags whose entry id is among the ids of the entries the window
      keeps: a tag is aggregated iff it is loaded and its entry lies in the
      window. */
  function WindowTags(entries: seq<Entry>, tags: seq<Tag>, w: Window, now: int): (r: seq<Tag>)
    requires entries != []
    ensures forall t :: t in r <==>
      t in tags && exists e :: e in entries && e.id == t.entryId && e.ts >= WindowStart(w, now, entries)
  {
    TagsFor(tags, Ids(Since(entries, WindowStart(w, now, entries))))
  }

  /** The filled rating of a tag: its rating, or 50 when it is missing. */
  function FilledRating(t: Tag): int
  {
    match t.rating
    case Some(x) => x
    case None => DefaultRating
  }

  /** The default fill of the rating column: every row keeps its entry and value;
      a missing rating becomes 50 and a present one is kept. */
  function FillMissing(ts: seq<Tag>): (r: seq<Tag>)
    ensures |r| == |ts|
    ensures forall i :: 0 <= i < |ts| ==> r[i].entryId == ts[i].entryId && r[i].value == ts[i].value
    ensures forall i :: 0 <= i < |ts| ==> r[i].rating.Some?
    ensures forall i :: 0 <= i < |ts| && ts[i].rating.Some? ==> r[i].rating == ts[i].rating
    ensures forall i :: 0 <= i < |ts| && ts[i].rating.None? ==> r[i].rating == Some(DefaultRating)
  {
    seq(|ts|, i requires 0 <= i < |ts| => ts[i].(rating := Some(FilledRating(ts[i]))))
  }

  /** Every row of `ts` carries a rating. */
  predicate Filled(ts: seq<Tag>)
  {
    forall i :: 0 <= i < |ts| ==> ts[i].rating.Some?
  }

  /** Number of rows of `ts` tagged with `v`. */
  function CountFor(ts: seq<Tag>, v: string): nat
  {
    if ts == [] then 0
    else CountFor(ts[..|ts| - 1], v) + (if ts[|ts| - 1].value == v then 1 else 0)
  }

  /** Sum of the ratings of the rows of `ts` tagged with `v`. */
  function SumFor(ts: seq<Tag>, v: string): int
    requires Filled(ts)
  {
    if ts == [] then 0
    else SumFor(ts[..|ts| - 1], v) + (if ts[|ts| - 1].value == v then ts[|ts| - 1].rating.value else 0)
  }

  /** Sum of the ratings present among the rows of `ts` tagged with `v`. */
  function PresentSum(ts: seq<Tag>, v: string): int
  {
    if ts == [] then 0
    else
      var t := ts[|ts| - 1];
      PresentSum(ts[..|ts| - 1], v) + (if t.value == v && t.rating.Some? then t.rating.value else 0)
  }

  /** Number of rows of `ts` tagged with `v` whose rating is missing. */
  function MissingCount(ts: seq<Tag>, v: string): nat
  {
    if ts == [] then 0
    else
      var t := ts[|ts| - 1];
      MissingCount(ts[..|ts| - 1], v) + (if t.value == v && t.rating.None? then 1 else 0)
  }

  /** A value has rows iff its count is positive. */
  lemma {:induction false} CountForPositive(ts: seq<Tag>, v: string)
    ensures CountFor(ts, v) > 0 <==> exists k :: 0 <= k < |ts| && ts[k].value == v
  {
    if ts != [] {
      var p := ts[..|ts| - 1];
      CountForPositive(p, v);
      if exists k :: 0 <= k < |p| && p[k].value == v {
        var k :| 0 <= k < |p| && p[k].value == v;
        assert ts[k].value == v;
      }
      if exists k :: 0 <= k < |ts| && ts[k].value == v {
        var k :| 0 <= k < |ts| && ts[k].value == v;
        if k < |p| { assert p[k].value == v; }
      }
    }
  }

  /** A value without rows contributes nothing to any sum. */
  lemma {:induction false} SumForAbsent(ts: seq<Tag>, v: string)
    requires Filled(ts)
    requires CountFor(ts, v) == 0
    ensures SumFor(ts, v) == 0
  {
    if ts != [] {
      SumForAbsent(ts[..|ts| - 1], v);
    }
  }

  /** Default fill: after `FillMissing`, a value's sum is the sum of its
      present ratings plus 50 for each missing one, and its count is the
      number of its rows. */
  lemma {:induction false} FilledSum(ts: seq<Tag>, v: string)
    ensures Filled(FillMissing(ts))
    ensures SumFor(FillMissing(ts), v) == PresentSum(ts, v) + DefaultRating * MissingCount(ts, v)
    ensures CountFor(FillMissing(ts), v) == CountFor(ts, v)
  {
    if ts != [] {
      var p := ts[..|ts| - 1];
      assert FillMissing(ts)[..|ts| - 1] == FillMissing(p);
      FilledSum(p, v);
    }
  }

  /** One group of the per-value aggregation: the value, the sum of
      its (filled) ratings and their number. */
  datatype Average = Average(value: string, sum: int, count: nat)
  {
    /** The group's exact mean rating. */
    function Mean(): real
      requires count > 0
    {
      sum as real / count as real
    }
  }

  /** No two groups share a value. */
  predicate DistinctValues(gs: seq<Average>)
  {
    forall i, j :: 0 <= i < j < |gs| ==> gs[i].value != gs[j].value
  }

  /** Every group holds at least one rating. */
  predicate NonEmptyGroups(gs: seq<Average>)
  {
    forall i :: 0 <= i < |gs| ==> gs[i].count > 0
  }

  /** Adds rating `x` to the group of `v`, opening a new group at the end
      when `v` has none yet. Groups keep their positions. */
  function AddRating(gs: seq<Average>, v: string, x: int): (r: seq<Average>)
    requires DistinctValues(gs)
    ensures DistinctValues(r)
    ensures |r| == (if exists i :: 0 <= i < |gs| && gs[i].value == v then |gs| else |gs| + 1)
    ensures forall i :: 0 <= i < |gs| && gs[i].value != v ==> r[i] == gs[i]
    ensures forall i :: 0 <= i < |gs| && gs[i].value == v ==>
      r[i] == Average(v, gs[i].sum + x, gs[i].count + 1)
    ensures |r| == |gs| + 1 ==> r[|gs|] == Average(v, x, 1)
  {
    var i := GroupIndex(gs, v);
    if i < |gs| then gs[i := Average(v, gs[i].sum + x, gs[i].count + 1)]
    else gs + [Average(v, x, 1)]
  }

  /** Position of the group of `v`, or `|gs|` when `v` has none. */
  function GroupIndex(gs: seq<Average>, v: string): (i: nat)
    ensures i <= |gs|
    ensures i < |gs| ==> gs[i].value == v
    ensures forall j :: 0 <= j < i ==> gs[j].value != v
  {
    if gs == [] then 0
    else if gs[0].value == v then 0
    else 1 + GroupIndex(gs[1..], v)
  }

  /** Grouping of the rows by value, with rating sum and count per group, groups in
      order of first appearance. */
  function GroupByValue(ts: seq<Tag>): (r: seq<Average>)
    requires Filled(ts)
    ensures DistinctValues(r) && NonEmptyGroups(r)
  {
    if ts == [] then []
    else
      var t := ts[|ts| - 1];
      AddRating(GroupByValue(ts[..|ts| - 1]), t.value, t.rating.value)
  }

  /** Each group of `gs` holds the exact rating sum and row count of its
      value in `ts`, and at least one row. */
  predicate Totals(gs: seq<Average>, ts: seq<Tag>)
    requires Filled(ts)
  {
    forall i :: 0 <= i < |gs| ==>
      gs[i].count > 0 && gs[i].count == CountFor(ts, gs[i].value) && gs[i].sum == SumFor(ts, gs[i].value)
  }

  /** Every value of `ts` has a group in `gs`. */
  predicate Covers(gs: seq<Average>, ts: seq<Tag>)
  {
    forall k :: 0 <= k < |ts| ==> exists i :: 0 <= i < |gs| && gs[i].value == ts[k].value
  }

  /** `gs` is the per-value aggregation of `ts`: one group per distinct value
      of `ts`, each with that value's exact rating sum and row count. */
  predicate Summarizes(gs: seq<Average>, ts: seq<Tag>)
    requires Filled(ts)
  {
    DistinctValues(gs) && Totals(gs, ts) && Covers(gs, ts)
  }

  lemma {:induction false} GroupByValueSummarizes(ts: seq<Tag>)
    requires Filled(ts)
    ensures Summarizes(GroupByValue(ts), ts)
  {
    if ts != [] {
      var p := ts[..|ts| - 1];
      var t := ts[|ts| - 1];
      assert ts == p + [t];
      GroupByValueSummarizes(p);
      SummarizesStepTotals(GroupByValue(p), p, t);
      SummarizesStepCoverage(GroupByValue(p), p, t, ts, GroupByValue(ts));
    }
  }

  /** Adding the rating of one more row `t` to the aggregation of `p` gives
      every group the right sum and count for `p + [t]`. */
  lemma SummarizesStepTotals(gs: seq<Average>, p: seq<Tag>, t: Tag)
    requires Filled(p) && Filled(p + [t]) && t.rating.Some?
    requires Summarizes(gs, p)
    ensures Totals(AddRating(gs, t.value, t.rating.value), p + [t])
  {
    var ts := p + [t];
    assert ts[..|ts| - 1] == p;
    var r := AddRating(gs, t.value, t.rating.value);
    forall i | 0 <= i < |r|
      ensures r[i].count > 0 && r[i].count == CountFor(ts, r[i].value) && r[i].sum == SumFor(ts, r[i].value)
    {
      if i == |gs| {
        CountForPositive(p, t.value);
        SumForAbsent(p, t.value);
      }
    }
  }

  /** After adding the last row `t` of `ts`, every value of `ts` has a group. */
  lemma SummarizesStepCoverage(gs: seq<Average>, p: seq<Tag>, t: Tag, ts: seq<Tag>, r: seq<Average>)
    requires Filled(p) && t.rating.Some? && ts == p + [t]
    requires Summarizes(gs, p)
    requires r == AddRating(gs, t.value, t.rating.value)
    ensures Covers(r, ts)
  {
    forall k | 0 <= k < |ts| ensures exists i :: 0 <= i < |r| && r[i].value == ts[k].value {
      if k < |p| {
        assert ts[k] == p[k];
        assert exists i :: 0 <= i < |gs| && gs[i].value == p[k].value;
        var i :| 0 <= i < |gs| && gs[i].value == p[k].value;
        assert r[i].value == ts[k].value;
      } else if exists i :: 0 <= i < |gs| && gs[i].value == t.value {
        var i :| 0 <= i < |gs| && gs[i].value == t.value;
        assert r[i].value == ts[k].value;
      } else {
        assert r[|gs|].value == ts[k].value;
      }
    }
  }

  /** Code-point lexicographic order on strings, Python's `str` `<`. */
  predicate StrLess(a: string, b: string)
  {
    if a == [] then b != []
    else b != [] && (a[0] < b[0] || (a[0] == b[0] && StrLess(a[1..], b[1..])))
  }

  lemma {:induction false} StrLessIrreflexive(a: string)
    ensures !StrLess(a, a)
  {
    if a != [] {
      StrLessIrreflexive(a[1..]);
    }
  }

  lemma {:induction false} StrLessTransitive(a: string, b: string, c: string)
    requires StrLess(a, b) && StrLess(b, c)
    ensures StrLess(a, c)
  {
    if a != [] && a[0] == b[0] && b[0] == c[0] {
      StrLessTransitive(a[1..], b[1..], c[1..]);
    }
  }

  lemma {:induction false} StrLessTotal(a: string, b: string)
    requires a != b
    ensures StrLess(a, b) || StrLess(b, a)
  {
    if a != [] && b != [] && a[0] == b[0] {
      assert a == [a[0]] + a[1..] && b == [b[0]] + b[1..];
      StrLessTotal(a[1..], b[1..]);
    }
  }

  /** Ranking order: higher mean first; equal means by value name ascending.
      The tie-break is a choice of this model (the source leaves it open). */
  predicate Before(a: Average, b: Average): (r: bool)
    requires a.count > 0 && b.count > 0
    ensures a.Mean() > b.Mean() ==> r
    ensures r ==> a.Mean() >= b.Mean()
    ensures r ==> a != b
  {
    StrLessIrreflexive(a.value);
    a.Mean() > b.Mean() || (a.Mean() == b.Mean() && StrLess(a.value, b.value))
  }

  lemma BeforeTransitive(a: Average, b: Average, c: Average)
    requires a.count > 0 && b.count > 0 && c.count > 0
    requires Before(a, b) && Before(b, c)
    ensures Before(a, c)
  {
    if a.Mean() == b.Mean() && b.Mean() == c.Mean() {
      StrLessTransitive(a.value, b.value, c.value);
    }
  }

  lemma BeforeTotal(a: Average, b: Average)
    requires a.count > 0 && b.count > 0
    requires a.value != b.value
    ensures Before(a, b) || Before(b, a)
  {
    StrLessTotal(a.value, b.value);
  }

  lemma BeforeAsymmetric(a: Average, b: Average)
    requires a.count > 0 && b.count > 0
    requires Before(a, b)
    ensures !Before(b, a)
  {
    if a.Mean() == b.Mean() && StrLess(b.value, a.value) {
      StrLessTransitive(a.value, b.value, a.value);
      StrLessIrreflexive(a.value);
    }
  }

  /** Strictly ordered by `Before`: means never increase, and groups with
      equal means are in ascending value order. */
  predicate Ranked(s: seq<Average>)
  {
    NonEmptyGroups(s) && forall i, j :: 0 <= i < j < |s| ==> Before(s[i], s[j])
  }

  /** Inserts `x` before the first group it ranks ahead of. */
  function Insert(x: Average, s: seq<Average>): (r: seq<Average>)
    requires x.count > 0 && NonEmptyGroups(s)
    ensures multiset(r) == multiset(s) + multiset{x}
    ensures |r| == |s| + 1 && NonEmptyGroups(r)
  {
    if s == [] then [x]
    else if Before(x, s[0]) then [x] + s
    else
      assert s == [s[0]] + s[1..];
      [s[0]] + Insert(x, s[1..])
  }

  /** Sorting of the groups by mean, highest first (insertion sort). */
  function SortByMean(gs: seq<Average>): (r: seq<Average>)
    requires NonEmptyGroups(gs)
    ensures multiset(r) == multiset(gs)
    ensures |r| == |gs| && NonEmptyGroups(r)
  {
    if gs == [] then []
    else
      assert gs == [gs[0]] + gs[1..];
      Insert(gs[0], SortByMean(gs[1..]))
  }

  lemma {:induction false} InsertRanked(x: Average, s: seq<Average>)
    requires x.count > 0 && Ranked(s)
    requires forall i :: 0 <= i < |s| ==> s[i].value != x.value
    ensures Ranked(Insert(x, s))
  {
    if s != [] && !Before(x, s[0]) {
      BeforeTotal(x, s[0]);
      var tail := s[1..];
      InsertRanked(x, tail);
      InsertBelow(s[0], x, tail);
      RankedCons(s[0], Insert(x, tail));
      assert Insert(x, s) == [s[0]] + Insert(x, tail);
    } else if s != [] {
      forall j | 0 < j < |s| ensures Before(x, s[j]) {
        BeforeTransitive(x, s[0], s[j]);
      }
    }
  }

  /** A group ranked ahead of `x` and of every group of `s` stays ahead of
      every group after `x` is inserted into `s`. */
  lemma InsertBelow(h: Average, x: Average, s: seq<Average>)
    requires h.count > 0 && x.count > 0 && NonEmptyGroups(s)
    requires Before(h, x) && forall i :: 0 <= i < |s| ==> Before(h, s[i])
    ensures forall k :: 0 <= k < |Insert(x, s)| ==> Before(h, Insert(x, s)[k])
  {
    var r := Insert(x, s);
    forall k | 0 <= k < |r| ensures Before(h, r[k]) {
      assert r[k] in multiset(r);
      if r[k] != x {
        assert r[k] in multiset(s);
        var j :| 0 <= j < |s| && s[j] == r[k];
      }
    }
  }

  /** Putting a group ranked ahead of all of a ranked sequence in front of
      it keeps the sequence ranked. */
  lemma RankedCons(h: Average, r: seq<Average>)
    requires h.count > 0 && Ranked(r)
    requires forall k :: 0 <= k < |r| ==> Before(h, r[k])
    ensures Ranked([h] + r)
  {
    var out := [h] + r;
    forall i, j | 0 <= i < j < |out| ensures Before(out[i], out[j]) {
      if i > 0 {
        assert out[i] == r[i - 1] && out[j] == r[j - 1];
      } else {
        assert out[j] == r[j - 1];
      }
    }
  }

  lemma {:induction false} SortByMeanRanked(gs: seq<Average>)
    requires NonEmptyGroups(gs) && DistinctValues(gs)
    ensures Ranked(SortByMean(gs))
  {
    if gs != [] {
      var tail := gs[1..];
      SortByMeanRanked(tail);
      var s := SortByMean(tail);
      forall i | 0 <= i < |s| ensures s[i].value != gs[0].value {
        assert s[i] in multiset(tail);
        var j :| 0 <= j < |tail| && tail[j] == s[i];
        assert gs[j + 1] == s[i];
      }
      InsertRanked(gs[0], s);
    }
  }

  /** The ranking leaves no freedom: two ranked orderings of the same groups
      are identical. */
  lemma {:induction false} RankedUnique(a: seq<Average>, b: seq<Average>)
    requires Ranked(a) && Ranked(b)
    requires multiset(a) == multiset(b)
    ensures a == b
  {
    if a == [] {
      assert |b| == |multiset(b)| == 0;
    } else {
      RankedHead(a, b);
      SameTail(a, b);
      RankedUnique(a[1..], b[1..]);
      assert a == [a[0]] + a[1..] && b == [b[0]] + b[1..];
    }
  }

  /** Two ranked orderings of the same groups start with the same group. */
  lemma RankedHead(a: seq<Average>, b: seq<Average>)
    requires Ranked(a) && Ranked(b) && a != []
    requires multiset(a) == multiset(b)
    ensures b != [] && a[0] == b[0]
  {
    assert a[0] in multiset(b);
    if a[0] != b[0] {
      assert b[0] in multiset(a);
      var k :| 0 <= k < |a| && a[k] == b[0];
      var m :| 0 <= m < |b| && b[m] == a[0];
      BeforeAsymmetric(a[0], b[0]);
    }
  }

  lemma SameTail(a: seq<Average>, b: seq<Average>)
    requires a != [] && b != [] && a[0] == b[0]
    requires multiset(a) == multiset(b)
    ensures multiset(a[1..]) == multiset(b[1..])
  {
    assert a == [a[0]] + a[1..] && b == [b[0]] + b[1..];
    assert multiset(a[1..]) == multiset(a) - multiset{a[0]};
    assert multiset(b[1..]) == multiset(b) - multiset{b[0]};
  }

  /** The aggregation of the windowed tags: fill missing ratings with 50,
      average per value, sort by mean descending. */
  function Aggregate(recent: seq<Tag>): (r: seq<Average>)
    ensures recent != [] ==> r != []
  {
    var filled := FillMissing(recent);
    GroupByValueSummarizes(filled);
    assert recent != [] ==> GroupByValue(filled) != [];
    SortByMean(GroupByValue(filled))
  }

  /** The dashboard's three outcomes. */
  datatype Outcome = NoEntries | NoTaggedValues | Ranking(rows: seq<Average>)

  /** The aggregation body of `dashboard` over one user's loaded rows. */
  function Dashboard(entries: seq<Entry>, tags: seq<Tag>, w: Window, now: int): (r: Outcome)
    ensures r.NoEntries? <==> entries == []
    ensures r.NoTaggedValues? <==> entries != [] && WindowTags(entries, tags, w, now) == []
    ensures r.Ranking? ==> r.rows != []
  {
    if entries == [] then NoEntries
    else
      var recent := WindowTags(entries, tags, w, now);
      if recent == [] then NoTaggedValues
      else Ranking(Aggregate(recent))
  }

  /** Reordering the groups keeps their totals and coverage. */
  lemma PermutedTotals(rows: seq<Average>, gs: seq<Average>, ts: seq<Tag>)
    requires Filled(ts) && Totals(gs, ts) && Covers(gs, ts)
    requires multiset(rows) == multiset(gs)
    ensures Totals(rows, ts) && Covers(rows, ts)
  {
    forall i | 0 <= i < |rows|
      ensures rows[i].count > 0 && rows[i].count == CountFor(ts, rows[i].value) && rows[i].sum == SumFor(ts, rows[i].value)
    {
      assert rows[i] in multiset(gs);
      var a :| 0 <= a < |gs| && gs[a] == rows[i];
    }
    forall k | 0 <= k < |ts| ensures exists i :: 0 <= i < |rows| && rows[i].value == ts[k].value {
      var a :| 0 <= a < |gs| && gs[a].value == ts[k].value;
      assert gs[a] in multiset(rows);
      var i :| 0 <= i < |rows| && rows[i] == gs[a];
    }
  }

  /** A ranked sequence of groups whose totals are fixed by their values
      holds each value once. */
  lemma RankedDistinct(rows: seq<Average>, ts: seq<Tag>)
    requires Filled(ts) && Totals(rows, ts) && Ranked(rows)
    ensures DistinctValues(rows)
  {
    forall i, j | 0 <= i < j < |rows| ensures rows[i].value != rows[j].value {
      if rows[i].value == rows[j].value {
        assert false;
      }
    }
  }

  /** The aggregated rows are ranked and hold each value once. */
  lemma AggregateRanked(recent: seq<Tag>)
    ensures var rows := Aggregate(recent);
      && Ranked(rows)
      && DistinctValues(rows)
      && (forall i, j :: 0 <= i < j < |rows| ==> rows[i].Mean() >= rows[j].Mean())
  {
    var filled := FillMissing(recent);
    var gs := GroupByValue(filled);
    var rows := SortByMean(gs);
    assert Aggregate(recent) == rows;
    GroupByValueSummarizes(filled);
    SortByMeanRanked(gs);
    PermutedTotals(rows, gs, filled);
    RankedDistinct(rows, filled);
  }

  /** Every value tagged in `recent` has an aggregated row. */
  lemma AggregateCovers(recent: seq<Tag>)
    ensures var rows := Aggregate(recent);
      forall t :: t in recent ==> exists i :: 0 <= i < |rows| && rows[i].value == t.value
  {
    var filled := FillMissing(recent);
    var gs := GroupByValue(filled);
    var rows := SortByMean(gs);
    assert Aggregate(recent) == rows;
    GroupByValueSummarizes(filled);
    PermutedTotals(rows, gs, filled);
    forall t | t in recent ensures exists i :: 0 <= i < |rows| && rows[i].value == t.value {
      var k :| 0 <= k < |recent| && recent[k] == t;
      assert filled[k].value == t.value;
    }
  }

  /** Each aggregated row belongs to a value tagged in `recent`; its count is
      the number of that value's tags and its sum adds their present ratings
      and 50 for each missing one. */
  lemma AggregateTotals(recent: seq<Tag>)
    ensures var rows := Aggregate(recent);
      forall i :: 0 <= i < |rows| ==>
        && (exists t :: t in recent && t.value == rows[i].value)
        && rows[i].count == CountFor(recent, rows[i].value)
        && rows[i].sum == PresentSum(recent, rows[i].value) + DefaultRating * MissingCount(recent, rows[i].value)
  {
    var filled := FillMissing(recent);
    var gs := GroupByValue(filled);
    var rows := SortByMean(gs);
    assert Aggregate(recent) == rows;
    GroupByValueSummarizes(filled);
    PermutedTotals(rows, gs, filled);
    forall i | 0 <= i < |rows|
      ensures (exists t :: t in recent && t.value == rows[i].value)
      ensures rows[i].count == CountFor(recent, rows[i].value)
      ensures rows[i].sum == PresentSum(recent, rows[i].value) + DefaultRating * MissingCount(recent, rows[i].value)
    {
      GroupOfRows(recent, rows[i]);
    }
  }

  /** A group with the filled totals of its value in `recent` stands for
      tags of `recent` and counts their present ratings plus 50 per missing one. */
  lemma GroupOfRows(recent: seq<Tag>, g: Average)
    requires Filled(FillMissing(recent))
    requires g.count > 0 && g.count == CountFor(FillMissing(recent), g.value)
    requires g.sum == SumFor(FillMissing(recent), g.value)
    ensures exists t :: t in recent && t.value == g.value
    ensures g.count == CountFor(recent, g.value)
    ensures g.sum == PresentSum(recent, g.value) + DefaultRating * MissingCount(recent, g.value)
  {
    var filled := FillMissing(recent);
    FilledSum(recent, g.value);
    CountForPositive(filled, g.value);
    var k :| 0 <= k < |filled| && filled[k].value == g.value;
    assert recent[k] in recent;
  }

  /** Summed ratings of one value stay within the rating range times its count. */
  lemma {:induction false} SumForBounds(ts: seq<Tag>, v: string)
    requires Filled(ts)
    requires forall i :: 0 <= i < |ts| ==> MinRating <= ts[i].rating.value <= MaxRating
    ensures MinRating * CountFor(ts, v) <= SumFor(ts, v) <= MaxRating * CountFor(ts, v)
  {
    if ts != [] {
      SumForBounds(ts[..|ts| - 1], v);
    }
  }

  lemma MeanBounds(g: Average)
    requires g.count > 0
    requires MinRating * g.count <= g.sum <= MaxRating * g.count
    ensures MinRating as real <= g.Mean() <= MaxRating as real
  {
    var c := g.count as real;
    assert g.Mean() * c == g.sum as real;
  }

  /** With every rating present within the slider range, every aggregated
      mean lies within that range too. */
  lemma AggregateMeansInRange(recent: seq<Tag>)
    requires RatingsInRange(recent)
    ensures var rows := Aggregate(recent);
      forall i :: 0 <= i < |rows| ==> rows[i].count > 0 && MinRating as real <= rows[i].Mean() <= MaxRating as real
  {
    var filled := FillMissing(recent);
    var gs := GroupByValue(filled);
    var rows := SortByMean(gs);
    forall k | 0 <= k < |filled| ensures MinRating <= filled[k].rating.value <= MaxRating {
      assert recent[k] in recent;
    }
    GroupByValueSummarizes(filled);
    PermutedTotals(rows, gs, filled);
    forall i | 0 <= i < |rows| ensures MinRating as real <= rows[i].Mean() <= MaxRating as real {
      SumForBounds(filled, rows[i].value);
      MeanBounds(rows[i]);
    }
  }

  /** The dashboard's ranking is the aggregation of exactly the tags of the
      user's entries inside the window; with ratings in the slider range,
      every mean shown lies in that range. */
  lemma DashboardRanking(entries: seq<Entry>, tags: seq<Tag>, w: Window, now: int)
    requires Dashboard(entries, tags, w, now).Ranking?
    ensures entries != []
    ensures Dashboard(entries, tags, w, now).rows == Aggregate(WindowTags(entries, tags, w, now))
    ensures forall t :: t in WindowTags(entries, tags, w, now) <==>
      t in tags && exists e :: e in entries && e.id == t.entryId && e.ts >= WindowStart(w, now, entries)
    ensures RatingsInRange(tags) ==> RatingsInRange(WindowTags(entries, tags, w, now))
  {
  }
}
