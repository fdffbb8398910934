# Daily Values Journal: store and dashboard

This project models the core of the Daily Values Journal (`values_tracker.py`) in Dafny.
The journal keeps two tables. The `entries` table holds one row per journal entry: id, timestamp, owner and text. The `tags` table holds one row per (entry, value) pair with a nullable rating from 0 to 99.
The model covers:

- **The store** (module `EntryStore`, class `EntryStore.Store`).
  - Saving an entry appends one entry row with a fresh id. It also appends exactly one tag row per rated value. The loop over the rating dictionary becomes a `while` loop that picks the keys in an order it leaves open.
  - Loading returns a user's own entries and the tags of those entries. It is a pure filter (`EntryStore.Load`), and the owner is an explicit parameter.
  - The entry form only saves an entry whose text is not blank.
- **The dashboard** (module `Aggregator`).
  - The time window is resolved first: the last 1, 7 or 30 days before `now`, or "All time" from the earliest loaded timestamp. The start bound is inclusive.
  - The entries in the window are kept, together with their tags.
  - A missing rating is filled with 50.
  - The ratings are averaged per value. Each group keeps its exact rating sum and count, so the mean is exact.
  - The groups are ranked by mean, highest first.
  - There are two distinct empty outcomes: no entries at all, and no tagged values in the window.
- **Worked examples** (module `Scenarios`).
  - The demo session: two ratings saved, then ranked.
  - The seven-day window over two entries ten days apart.
  - The inclusive boundary of the one-day window.

The records themselves are in module `Records`. Timestamps are integers in microseconds, the resolution of the ISO text the source stores, and the current time is a parameter.
The store's invariant is `EntryStore.WellFormed`. It requires:

- ids are positive, strictly increasing and below the next id;
- every tag points at an existing entry;
- every text is non-blank;
- every rating is in range.

## Model

| member | source | states |
|---|---|---|
| `EntryStore.Store.constructor` | values_tracker.py:95-116 | A fresh database has empty `entries` and `tags` tables and hands out id 1 first; the store invariant holds. |
| `EntryStore.Store.AddEntry` | values_tracker.py:119-135 | Appends exactly one entry row with the next id, owner, text and timestamp. Appends exactly one tag row per rating key, all with the new id. Leaves every existing row unchanged. The returned id was not in use. Every other user's loaded view is unchanged, and the owner's view grows by exactly the new entry and its tags. The store invariant is preserved. |
| `EntryStore.BuildTagRows` | values_tracker.py:129-133 | The rows produced by the loop over the rating dictionary: one row per key, no two for the same key, each pointing at the entry and carrying that key's rating. |
| `EntryStore.TagRowsInRange` | values_tracker.py:129-133 | Tag rows built from slider ratings carry ratings in 0..99 and point at the new entry. |
| `EntryStore.Store.SaveEntry` | values_tracker.py:213-214 | An entry is saved iff its text has a non-whitespace character. If it is not saved, the store does not change. If it is saved, the new entry and its tag rows are appended and the id counter advances by one. |
| `EntryStore.OwnedBy` | values_tracker.py:143-145 | An entry row is loaded for `u` iff it is in the table and its owner is `u`. |
| `EntryStore.TagsFor` | values_tracker.py:150-154 | A tag row is selected iff it is in the table and its entry id is one of the given ids. |
| `EntryStore.Load` | values_tracker.py:140-156 | A user's entries are exactly the rows they own. A user's tags are exactly the rows whose entry belongs to them. A user with no entries gets no tags. |
| `EntryStore.LoadOthersUnchanged` | values_tracker.py:119-156 | Isolation: adding an entry for one user, with tags on its fresh id, changes nothing that any other user loads. |
| `EntryStore.LoadOwnerGrows` | values_tracker.py:119-156 | Adding an entry with tags on its fresh id extends the owner's view by exactly that entry and those tags, in order. |
| `EntryStore.OwnedByAppend` | values_tracker.py:143-145 | Filtering by owner distributes over concatenation of the entry table. |
| `EntryStore.TagsForAppend` | values_tracker.py:150-154 | Selecting tags by entry id distributes over concatenation of the tag table. |
| `EntryStore.AddKeepsWellFormed` | values_tracker.py:119-135 | Appending an entry with the next id, non-blank text and in-range tag rows pointing at it keeps the store invariant. |
| `Aggregator.MinTs` | values_tracker.py:180 | The "All time" start is a lower bound of every loaded timestamp and is attained by one of them. |
| `Aggregator.Since` | values_tracker.py:182 | An entry is kept iff it is loaded and its timestamp is at or after the start. |
| `Aggregator.SinceAll` | values_tracker.py:182 | A start at or below every timestamp keeps every entry, in order. |
| `Aggregator.WindowMembership` | values_tracker.py:172-182 | An entry is in the window iff it is loaded and either the window is "All time" or the entry is no older than 1, 7 or 30 days before `now`, bound included. "All time" keeps all entries. |
| `Aggregator.WindowStart` | values_tracker.py:173-180 | The window starts exactly 1, 7 or 30 days before `now` for the relative windows. For "All time" it starts at a lower bound of every loaded timestamp that one of them attains. |
| `Aggregator.WindowTags` | values_tracker.py:183 | A tag is aggregated iff it is loaded and its entry is loaded and lies in the window. |
| `Aggregator.FillMissing` | values_tracker.py:189 | Every row keeps its entry and value. Present ratings are kept, missing ones become 50, and no rating is missing afterwards. |
| `Aggregator.FilledSum` | values_tracker.py:189-192 | After filling, the rating sum of a value is its present ratings' sum plus 50 per missing rating, and its row count is unchanged. |
| `Aggregator.CountForPositive` | values_tracker.py:191 | A value has at least one row iff some row carries it. |
| `Aggregator.AddRating` | values_tracker.py:191-192 | Adding a rating updates only its value's group (sum + rating, count + 1) or opens a new group with count 1; values stay distinct. |
| `Aggregator.GroupByValue` | values_tracker.py:191-192 | The groups have distinct values and each holds at least one row. |
| `Aggregator.GroupByValueSummarizes` | values_tracker.py:191-192 | One group per distinct value of the rows, each with that value's exact rating sum and row count. |
| `Aggregator.Before` | values_tracker.py:194 | The ranking order puts a strictly higher mean first, never puts a lower mean first, and never relates a group to itself. Equal means are ordered by value name ascending, a tie-break this model chooses. |
| `Aggregator.StrLessTotal` | values_tracker.py:194 | The value-name tie-break orders any two distinct names. |
| `Aggregator.BeforeTransitive` | values_tracker.py:194 | The ranking order is transitive. |
| `Aggregator.BeforeAsymmetric` | values_tracker.py:194 | The ranking order is asymmetric. |
| `Aggregator.Insert` | values_tracker.py:194 | Inserting a group yields a permutation of the groups plus that group. |
| `Aggregator.SortByMean` | values_tracker.py:194 | Sorting yields a permutation of the groups. |
| `Aggregator.InsertRanked` | values_tracker.py:194 | Inserting a group with a new value into a ranked sequence keeps it ranked. |
| `Aggregator.SortByMeanRanked` | values_tracker.py:194 | Sorting groups with distinct values yields a ranked sequence: means never increase. |
| `Aggregator.RankedUnique` | values_tracker.py:194 | Determinism: two ranked orderings of the same groups are identical. |
| `Aggregator.Aggregate` | values_tracker.py:189-195 | A non-empty set of windowed tags gives a non-empty ranking. |
| `Aggregator.AggregateRanked` | values_tracker.py:190-195 | The ranking has one row per value and means that never increase from row to row. |
| `Aggregator.AggregateCovers` | values_tracker.py:190-195 | Every windowed value has a row in the ranking. |
| `Aggregator.AggregateTotals` | values_tracker.py:189-195 | Every row's value occurs among the windowed tags. Its count is that value's number of rows. Its sum is the value's present ratings plus 50 per missing rating, so its mean is the mean of the filled ratings. |
| `Aggregator.MeanBounds` | values_tracker.py:192 | A group whose sum lies between 0 and 99 times its count has a mean in [0, 99]. |
| `Aggregator.AggregateMeansInRange` | values_tracker.py:189-192 | With slider ratings, every mean lies in [0, 99]. |
| `Aggregator.Dashboard` | values_tracker.py:162-195 | The outcome is "no entries" iff nothing is loaded. It is "no tagged values" iff entries exist but the window holds no tag. Otherwise it is a non-empty ranking. |
| `Aggregator.DashboardRanking` | values_tracker.py:162-195 | A ranking outcome is the aggregation of exactly the loaded tags whose entry is in the window. Their ratings stay in range when the stored ones are. |
| `Scenarios.DemoRanking` | values_tracker.py:119-195 | "Health" 80 and "Growth" 60 on one entry rank Health (80) above Growth (60) under "All time", whatever order the rows were written in. |
| `Scenarios.DemoSession` | values_tracker.py:119-195 | The demo run end to end through the store: saving the entry with `AddEntry`, loading it with `Load` and aggregating over "All time" one second later shows Health (80) above Growth (60). |
| `Scenarios.SevenDayWindow` | values_tracker.py:173-195 | With "Stability" rated 40 and 90 ten days apart, the seven-day window ending at the second entry yields only mean 90. |
| `Scenarios.LastDayBoundary` | values_tracker.py:173-182 | The one-day window includes an entry exactly one day old and excludes one a microsecond older. |

## Left out

- User interface, login and registration: the widgets, the selectors and the credential store are not part of this model. The current user is an explicit `owner` parameter.
- SQLite and pandas mechanics: the tables are sequences of records. `StorageError`, a failed write and a partially applied write are not modelled. The entry row and its tag rows are appended together, as the single commit at the end of the source's insert does.
- The read cache and its invalidation: loading is a pure function of the tables, so there is nothing to invalidate.
- The wall clock: `now` and the entry's timestamp are parameters. They are integers in microseconds, the resolution of the ISO text the source stores and of the clock it reads, so no two distinct instants are merged.
- The source does not reject an empty owner, and neither does the model.
- Tag rows with a null `entry_id` or `value`, which the `tags` schema admits, are not modelled. Every modelled tag row has an entry id and a value. A null rating is modelled.
- `Aggregator.Dashboard`: means are exact rationals. The source rounds each mean to one decimal and sorts the rounded means. Rounding is monotone, so the model's order agrees with the source's wherever the rounded means differ. Means that differ but round to the same decimal are ordered by their exact value here.
- `Aggregator.Before`: groups with equal means are ordered by value name ascending. The source's sort does not fix an order for ties, so this tie-break is a choice of the model.
- `Aggregator.GroupByValue`: before ranking, groups appear in order of first appearance, while pandas orders them by value. The ranking is unique (`Aggregator.RankedUnique`), so the ranked result does not depend on this.
- `Aggregator.FillMissing`: the source fills missing ratings in place through a chained column access. Under copy-on-write pandas that fill would not reach the frame being grouped. The model follows the intended fill with 50.
- `EntryStore.BuildTagRows`: the dictionary's iteration order is left open, with the keys taken in any order. Every order satisfies the contract.
