/** The `links` table: its columns, its constraints and its id sequence. */
module LinksTable {
  import opened Wrappers
  import opened Domain

  /** Declared width of the `slug` column, `varchar(32)`. */
  const SlugMaxLength: nat := 32

  /** One row of `links`. Columns that the schema gives defaults, `is_active`
      (true) and `expires_at` (null), take them when not supplied. */
  datatype Row = Row(
    id: int,
    slug: string,
    targetUrl: string,
    createdAt: Instant,
    isActive: bool := true,
    expiresAt: Option<Instant> := None)

  /** The table contents in insertion order, plus the next value of the
      auto-increment sequence behind `id`. */
  datatype Table = Table(rows: seq<Row>, nextId: int)

  /** A freshly migrated table: no rows, the sequence starts at 1. */
  const Empty: Table := Table([], 1)

  /** PostgreSQL can store or bind the string: it contains no U+0000
      character. */
  predicate Storable(s: string) {
    '\0' !in s
  }

  /** The constraints the schema enforces: every slug fits its column, slugs
      and targets are text PostgreSQL can hold, slugs are unique (unique
      index), ids are distinct and were all handed out by the sequence (so
      the sequence's next value is not yet used). */
  predicate Valid(t: Table) {
    && t.nextId >= 1
    && (forall i :: 0 <= i < |t.rows| ==> |t.rows[i].slug| <= SlugMaxLength)
    && (forall i :: 0 <= i < |t.rows| ==> Storable(t.rows[i].slug) && Storable(t.rows[i].targetUrl))
    && (forall i :: 0 <= i < |t.rows| ==> 1 <= t.rows[i].id < t.nextId)
    && (forall i, j :: 0 <= i < j < |t.rows| ==> t.rows[i].slug != t.rows[j].slug)
    && (forall i, j :: 0 <= i < j < |t.rows| ==> t.rows[i].id != t.rows[j].id)
  }

  /** Inserting a row with only the required columns leaves the link active
      and without expiry. */
  lemma RowDefaults(id: int, slug: string, targetUrl: string, createdAt: Instant)
    ensures Row(id, slug, targetUrl, createdAt).isActive
    ensures Row(id, slug, targetUrl, createdAt).expiresAt == None
  {
  }

  /** The empty table satisfies the schema constraints. */
  lemma EmptyValid()
    ensures Valid(Empty) && Empty.rows == []
  {
  }
}
