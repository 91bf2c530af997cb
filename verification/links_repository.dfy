/** The repository over the `links` table. Every operation is one
    transaction; reads return values and leave the table as it was, and a
    failed insert is rolled back, which here means the caller keeps its table. */
module LinksRepository {
  import opened Wrappers
  import opened Domain
  import opened LinksTable

  /** Why an insert is rejected by the database. */
  datatype StoreError =
    | SlugTooLong   // value does not fit `varchar(32)`
    | NulInText     // PostgreSQL text values cannot hold U+0000
    | DuplicateSlug // unique index on `slug` violated

  /** A committed insert: the table afterwards and the row as it was stored. */
  datatype Saved = Saved(table: Table, link: Link)

  /** Maps a result row to the domain record, column by column. */
  function ToDomain(row: Row): (l: Link)
  {
    Link(row.id, row.slug, row.targetUrl, row.createdAt, row.isActive, row.expiresAt)
  }

  /** The columns `save` writes for `l`, with the id the sequence assigns. */
  function ToRow(l: Link, id: int): (row: Row)
  {
    Row(id, l.slug, l.targetUrl, l.createdAt, l.isActive, l.expiresAt)
  }

  /** Reading back what was written yields the link with the assigned id, and
      writing out what was read yields the same row. */
  lemma RowRoundTrip(l: Link, id: int, row: Row)
    ensures ToDomain(ToRow(l, id)) == l.(id := id)
    ensures ToRow(ToDomain(row), row.id) == row
  {
  }

  /** Index of the first row at or after `from` whose slug is `slug`, or
      `|rows|` when there is none. */
  function SlugIndex(rows: seq<Row>, slug: string, from: nat): (k: nat)
    requires from <= |rows|
    ensures from <= k <= |rows|
    ensures forall i :: from <= i < k ==> rows[i].slug != slug
    ensures k < |rows| ==> rows[k].slug == slug
    decreases |rows| - from
  {
    if from == |rows| then from
    else if rows[from].slug == slug then from
    else SlugIndex(rows, slug, from + 1)
  }

  /** `existsBySlug`: is there a row whose slug is exactly `slug`? */
  function ExistsBySlug(t: Table, slug: string): (b: bool)
    ensures b <==> exists i :: 0 <= i < |t.rows| && t.rows[i].slug == slug
  {
    SlugIndex(t.rows, slug, 0) < |t.rows|
  }

  /** `findBySlug`: the first row with that slug, or absent. */
  function FindBySlug(t: Table, slug: string): (r: Option<Link>)
    ensures r.Some? <==> ExistsBySlug(t, slug)
    ensures r.Some? ==> r.value.slug == slug
    ensures r.Some? ==> exists i :: 0 <= i < |t.rows| && ToDomain(t.rows[i]) == r.value
  {
    var k := SlugIndex(t.rows, slug, 0);
    if k < |t.rows| then Some(ToDomain(t.rows[k])) else None
  }

  /** Under the unique index the row `findBySlug` returns is the only one with
      that slug. */
  lemma FindBySlugUnique(t: Table, slug: string, i: int)
    requires Valid(t)
    requires 0 <= i < |t.rows| && t.rows[i].slug == slug
    ensures FindBySlug(t, slug) == Some(ToDomain(t.rows[i]))
  {
  }

  /** `findAll`: one link per row. The model lists rows in insertion order. */
  function FindAll(t: Table): (links: seq<Link>)
    ensures |links| == |t.rows|
    ensures forall i :: 0 <= i < |t.rows| ==> links[i] == ToDomain(t.rows[i])
  {
    seq(|t.rows|, i requires 0 <= i < |t.rows| => ToDomain(t.rows[i]))
  }

  /** An empty table lists nothing. */
  lemma FindAllEmpty()
    ensures FindAll(Empty) == []
  {
  }

  /** `findAll` and `findBySlug` agree: every listed link is what its slug
      looks up, and every lookup result is listed. */
  lemma FindAllAgreesWithFindBySlug(t: Table, slug: string)
    requires Valid(t)
    ensures forall l :: l in FindAll(t) ==> FindBySlug(t, l.slug) == Some(l)
    ensures FindBySlug(t, slug).Some? ==> FindBySlug(t, slug).value in FindAll(t)
  {
  }

  /** `save`: insert `l`'s slug, target, creation time, flag and expiry; the
      id comes from the sequence. A slug longer than its column is refused
      as the column value is set, before the statement runs; then text
      holding U+0000 is refused when the statement is sent; then the unique
      index refuses a slug that is already taken. */
  function Save(t: Table, l: Link): (r: Result<Saved, StoreError>)
    ensures r == Failure(SlugTooLong) <==> |l.slug| > SlugMaxLength
    ensures r == Failure(NulInText) <==>
      |l.slug| <= SlugMaxLength && (!Storable(l.slug) || !Storable(l.targetUrl))
    ensures r == Failure(DuplicateSlug) <==>
      && |l.slug| <= SlugMaxLength && Storable(l.slug) && Storable(l.targetUrl)
      && ExistsBySlug(t, l.slug)
    ensures r.Success? ==> r.value.link == l.(id := r.value.link.id)
    ensures r.Success? ==> FindAll(r.value.table) == FindAll(t) + [r.value.link]
    ensures r.Success? ==> ExistsBySlug(r.value.table, l.slug)
    ensures r.Success? && Valid(t) ==>
      forall i :: 0 <= i < |t.rows| ==> t.rows[i].id != r.value.link.id
    ensures r.Success? && Valid(t) ==> Valid(r.value.table)
  {
    if |l.slug| > SlugMaxLength then Failure(SlugTooLong)
    else if !Storable(l.slug) || !Storable(l.targetUrl) then Failure(NulInText)
    else if ExistsBySlug(t, l.slug) then Failure(DuplicateSlug)
    else
      var row := ToRow(l, t.nextId);
      var t' := Table(t.rows + [row], t.nextId + 1);
      assert t'.rows[|t.rows|] == row;
      assert FindAll(t') == FindAll(t) + [ToDomain(row)];
      Success(Saved(t', ToDomain(row)))
  }

  /** Reading a saved link back by its slug yields, field for field, the
      link `save` returned: the caller's fields and the assigned id. */
  lemma SaveThenFind(t: Table, l: Link)
    requires Save(t, l).Success?
    ensures FindBySlug(Save(t, l).value.table, l.slug) == Some(Save(t, l).value.link)
    ensures Save(t, l).value.link.id == t.nextId
  {
  }

  /** Once a slug is stored, a second insert with that slug is refused by
      the unique index, whatever its other fields; only a target holding
      U+0000 is refused earlier, for that reason instead. */
  lemma DuplicateSlugRefused(t: Table, first: Link, second: Link)
    requires Save(t, first).Success?
    requires second.slug == first.slug
    ensures Save(Save(t, first).value.table, second) ==
      Failure(if Storable(second.targetUrl) then DuplicateSlug else NulInText)
  {
  }

  /** Saving `abc123` into an empty table stores it with the first id of the
      sequence, and the slug then exists. */
  lemma SaveIntoEmptyTable(createdAt: Instant)
    ensures var l := Link(0, "abc123", "https://example.com/abc123", createdAt);
      && Save(Empty, l).Success?
      && Save(Empty, l).value.link == l.(id := 1)
      && ExistsBySlug(Save(Empty, l).value.table, "abc123")
  {
  }

  /** A target URL holding U+0000 is refused even by an empty table. */
  lemma SaveRefusesNul(createdAt: Instant)
    ensures Save(Empty, Link(0, "abc123", "http://a\0b", createdAt)) == Failure(NulInText)
  {
  }

  /** A sequence of independent `save` calls, each in its own transaction: a
      refused insert changes nothing and the next call goes on. Returns the
      final table and the links that were stored, in order. */
  function SaveAll(t: Table, ls: seq<Link>): (r: (Table, seq<Link>))
    decreases |ls|
  {
    if ls == [] then (t, [])
    else match Save(t, ls[0])
      case Failure(_) => SaveAll(t, ls[1..])
      case Success(s) =>
        var (t', stored) := SaveAll(s.table, ls[1..]);
        (t', [s.link] + stored)
  }

  /** Links listed after a common prefix in a table that keeps its
      constraints have pairwise distinct slugs and ids. */
  lemma ListedLinksDistinct(t: Table, prefix: seq<Link>, stored: seq<Link>)
    requires Valid(t) && FindAll(t) == prefix + stored
    ensures forall i, j :: 0 <= i < j < |stored| ==>
      stored[i].slug != stored[j].slug && stored[i].id != stored[j].id
  {
    var n := |prefix|;
    forall i, j | 0 <= i < j < |stored|
      ensures stored[i].slug != stored[j].slug && stored[i].id != stored[j].id
    {
      assert stored[i] == FindAll(t)[n + i] && stored[j] == FindAll(t)[n + j];
    }
  }

  /** However many links are saved, the table keeps its constraints, lists
      exactly the old rows followed by the stored links, and no two stored
      links share a slug or an id. */
  lemma {:induction false} SaveAllKeepsSlugsUnique(t: Table, ls: seq<Link>)
    requires Valid(t)
    ensures Valid(SaveAll(t, ls).0)
    ensures FindAll(SaveAll(t, ls).0) == FindAll(t) + SaveAll(t, ls).1
    ensures var stored := SaveAll(t, ls).1;
      forall i, j :: 0 <= i < j < |stored| ==>
        stored[i].slug != stored[j].slug && stored[i].id != stored[j].id
    decreases |ls|
  {
    if ls != [] {
      match Save(t, ls[0])
      case Failure(_) =>
        SaveAllKeepsSlugsUnique(t, ls[1..]);
      case Success(s) =>
        SaveAllKeepsSlugsUnique(s.table, ls[1..]);
        var rest := SaveAll(s.table, ls[1..]).1;
        assert FindAll(t) + ([s.link] + rest) == (FindAll(t) + [s.link]) + rest;
    }
    ListedLinksDistinct(SaveAll(t, ls).0, FindAll(t), SaveAll(t, ls).1);
  }
}
