/** Worked examples of the store and the dashboard. */
module Scenarios {
  import opened Records
  import opened EntryStore
  import opened Aggregator

  /** The tag rows of the demo entry, in either iteration order, rank
      "Health" (80) above "Growth" (60) under "All time". */
  lemma DemoRanking(rows: seq<Tag>, t: int)
    requires TagRowsOf(rows, 1, map["Health" := 80, "Growth" := 60])
    ensures Dashboard([Entry(1, t, "demo", "felt great")], rows, AllTime, t + 1_000_000)
      == Ranking([Average("Health", 80, 1), Average("Growth", 60, 1)])
  {
    var e := Entry(1, t, "demo", "felt great");
    DemoRows(rows);
    assert Since([e], WindowStart(AllTime, t + 1_000_000, [e])) == [e];
    assert Ids([e]) == {1};
    TagsForAll(rows, {1});
    assert WindowTags([e], rows, AllTime, t + 1_000_000) == rows;
    DemoAggregate(rows);
  }

  /** The demo's tag rows are the two ratings in one order or the other. */
  lemma DemoRows(rows: seq<Tag>)
    requires TagRowsOf(rows, 1, map["Health" := 80, "Growth" := 60])
    ensures rows == [Tag(1, "Health", Some(80)), Tag(1, "Growth", Some(60))]
         || rows == [Tag(1, "Growth", Some(60)), Tag(1, "Health", Some(80))]
  {
    var ratings := map["Health" := 80, "Growth" := 60];
    assert ratings.Keys == {"Health", "Growth"};
    assert |rows| == 2;
    assert rows[0].value != rows[1].value;
  }

  lemma DemoAggregate(rows: seq<Tag>)
    requires rows == [Tag(1, "Health", Some(80)), Tag(1, "Growth", Some(60))]
          || rows == [Tag(1, "Growth", Some(60)), Tag(1, "Health", Some(80))]
    ensures Aggregate(rows) == [Average("Health", 80, 1), Average("Growth", 60, 1)]
  {
    var h := Tag(1, "Health", Some(80));
    var g := Tag(1, "Growth", Some(60));
    assert FillMissing(rows) == rows;
    GroupTwo(rows[0], rows[1]);
    assert rows == [rows[0], rows[1]];
    SortTwo(Average("Health", 80, 1), Average("Growth", 60, 1));
  }

  /** Two rated tags with different values form two singleton groups. */
  lemma GroupTwo(a: Tag, b: Tag)
    requires a.value != b.value && a.rating.Some? && b.rating.Some?
    ensures GroupByValue([a, b]) == [Average(a.value, a.rating.value, 1), Average(b.value, b.rating.value, 1)]
  {
    assert [a, b][..1] == [a];
    assert GroupByValue([a]) == [Average(a.value, a.rating.value, 1)];
  }

  /** Two groups with different means rank the higher one first, whatever
      their input order. */
  lemma SortTwo(hi: Average, lo: Average)
    requires hi.count > 0 && lo.count > 0 && hi.Mean() > lo.Mean()
    ensures SortByMean([hi, lo]) == [hi, lo] && SortByMean([lo, hi]) == [hi, lo]
  {
    assert [hi, lo][1..] == [lo];
    assert [lo, hi][1..] == [hi];
    assert SortByMean([lo]) == [lo];
    assert SortByMean([hi]) == [hi];
  }

  /** A demo session: one entry saved through the store, then loaded and
      aggregated over "All time" a second later. */
  method DemoSession(t: int) returns (shown: Outcome)
    ensures shown == Ranking([Average("Health", 80, 1), Average("Growth", 60, 1)])
  {
    var store := new Store();
    var text := "felt great";
    assert !IsSpace(text[0]);
    var id := store.AddEntry("demo", text, map["Health" := 80, "Growth" := 60], t);
    var view := Load(store.entries, store.tags, "demo");
    assert view.0 == [Entry(1, t, "demo", text)];
    assert view.1 == store.tags;
    assert |view.1| == 2;
    DemoRanking(view.1, t);
    shown := Dashboard(view.0, view.1, AllTime, t + 1_000_000);
  }

  /** The "Last day" window includes an entry exactly one day old and
      excludes one a microsecond older. */
  lemma LastDayBoundary(now: int, es: seq<Entry>, edge: Entry, older: Entry)
    requires edge in es && older in es
    requires edge.ts == now - DayMicros && older.ts == now - DayMicros - 1
    ensures edge in Since(es, WindowStart(LastDay, now, es))
    ensures older !in Since(es, WindowStart(LastDay, now, es))
  {
  }

  /** Two "Stability" ratings ten days apart: the seven-day window ending at
      the second entry keeps only the second rating. */
  lemma SevenDayWindow(t: int)
    ensures var e1 := Entry(1, t - 10 * DayMicros, "demo", "first");
      var e2 := Entry(2, t, "demo", "second");
      var tags := [Tag(1, "Stability", Some(40)), Tag(2, "Stability", Some(90))];
      Dashboard([e1, e2], tags, LastWeek, t) == Ranking([Average("Stability", 90, 1)])
  {
    var e1 := Entry(1, t - 10 * DayMicros, "demo", "first");
    var e2 := Entry(2, t, "demo", "second");
    var tags := [Tag(1, "Stability", Some(40)), Tag(2, "Stability", Some(90))];
    var kept := Since([e1, e2], WindowStart(LastWeek, t, [e1, e2]));
    assert kept == [e2];
    assert Ids(kept) == {2};
    assert WindowTags([e1, e2], tags, LastWeek, t) == [tags[1]];
    assert FillMissing([tags[1]]) == [tags[1]];
    assert GroupByValue([tags[1]]) == [Average("Stability", 90, 1)];
  }
}
