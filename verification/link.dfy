/** The persisted link record of the service's domain layer. */
module Domain {
  import opened Wrappers

  /** A point in time. Timestamps-with-time-zone are compared by instant
      (`isAfter`), so an integer count of time units stands in for them. */
  type Instant = int

  /** A short link: `slug` redirects to `targetUrl` while the link is active
      and not expired. `isActive` defaults to true and `expiresAt` to absent,
      as the record's constructor does. */
  datatype Link = Link(
    id: int,
    slug: string,
    targetUrl: string,
    createdAt: Instant,
    isActive: bool := true,
    expiresAt: Option<Instant> := None)

  /** Building a link without the two optional fields yields an active link
      that never expires. */
  lemma LinkDefaults(id: int, slug: string, targetUrl: string, createdAt: Instant)
    ensures Link(id, slug, targetUrl, createdAt).isActive
    ensures Link(id, slug, targetUrl, createdAt).expiresAt == None
    ensures Link(id, slug, targetUrl, createdAt)
         == Link(id, slug, targetUrl, createdAt, true, None)
  {
  }

  /** Links are values: two links are equal exactly when all six fields are. */
  lemma LinkEquality(a: Link, b: Link)
    ensures a == b <==>
      && a.id == b.id && a.slug == b.slug && a.targetUrl == b.targetUrl
      && a.createdAt == b.createdAt && a.isActive == b.isActive
      && a.expiresAt == b.expiresAt
  {
  }

  /** A copy with `expiresAt` replaced keeps the other five fields, and
      replacing it back restores the original. */
  lemma CopyWithExpiry(l: Link, e: Option<Instant>)
    ensures var c := l.(expiresAt := e);
      && c.expiresAt == e
      && c.id == l.id && c.slug == l.slug && c.targetUrl == l.targetUrl
      && c.createdAt == l.createdAt && c.isActive == l.isActive
      && c.(expiresAt := l.expiresAt) == l
  {
  }
}
