/** Row layout of the journal database (the `entries` and `tags` tables) and
    the two input guards of the entry form. */
module Records {

  datatype Option<+T> = None | Some(value: T)

  /** One row of the `entries` table. `id` is the autoincrement key; `ts` is
      the creation instant (UTC) in microseconds, the resolution of the stored ISO text. */
  datatype Entry = Entry(id: int, ts: int, username: string, text: string)

  /** One row of the `tags` table. `rating` is nullable in the schema. */
  datatype Tag = Tag(entryId: int, value: string, rating: Option<int>)

  /** Bounds of the rating slider of the entry form. */
  const MinRating: int := 0
  const MaxRating: int := 99

  /** The identifiers of a sequence of entry rows. */
  function Ids(es: seq<Entry>): set<int>
  {
    set e | e in es :: e.id
  }

  /** Every rating present in `ts` lies within the slider range (a missing
      rating is allowed: the schema admits nulls). */
  predicate RatingsInRange(ts: seq<Tag>)
  {
    forall t :: t in ts && t.rating.Some? ==> MinRating <= t.rating.value <= MaxRating
  }

  /** Every rating the form can submit lies within the slider range. */
  predicate ValidRatings(ratings: map<string, int>)
  {
    forall v :: v in ratings ==> MinRating <= ratings[v] <= MaxRating
  }

  /** The characters Python's `str.isspace` accepts, i.e. those that
      `str.strip()` removes. */
  predicate IsSpace(c: char)
  {
    var n := c as int;
    (0x09 <= n <= 0x0D) || (0x1C <= n <= 0x20) || n == 0x85 || n == 0xA0 ||
    n == 0x1680 || (0x2000 <= n <= 0x200A) || n == 0x2028 || n == 0x2029 ||
    n == 0x202F || n == 0x205F || n == 0x3000
  }

  /** The text is not blank: some character is not whitespace. */
  predicate NonBlank(text: string)
  {
    exists i :: 0 <= i < |text| && !IsSpace(text[i])
  }
}
