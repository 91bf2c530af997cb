/** The HTTP representation of links, and the mapping between it and the
    domain record. */
module Dto {
  import opened Wrappers
  import opened Domain

  /** A link as the API lists it: timestamps as ISO-8601 text, `expiresAt`
      null unless given. */
  datatype LinkResponse = LinkResponse(
    id: int,
    slug: string,
    targetUrl: string,
    createdAt: string,
    isActive: bool,
    expiresAt: Option<string> := None)

  /** The body answering a successful shortening. */
  datatype ShortenResponse = ShortenResponse(slug: string, path: string)

  /** ISO-8601 rendering (`toString`) and parsing (`OffsetDateTime.parse`) of
      timestamps, which belong to the JDK; parsing fails (`None`) on text
      that is not a timestamp. */
  datatype Codec = Codec(render: Instant -> string, parse: string -> Option<Instant>)

  /** Parsing reads back every rendered timestamp. */
  ghost predicate ParseInvertsRender(c: Codec) {
    forall t :: c.parse(c.render(t)) == Some(t)
  }

  /** `Link.toResponse()`. */
  function ToResponse(l: Link, c: Codec): (r: LinkResponse)
    ensures r.id == l.id && r.slug == l.slug && r.targetUrl == l.targetUrl
    ensures r.isActive == l.isActive
    ensures r.createdAt == c.render(l.createdAt)
    ensures r.expiresAt.None? <==> l.expiresAt.None?
    ensures l.expiresAt.Some? ==> r.expiresAt == Some(c.render(l.expiresAt.value))
  {
    LinkResponse(
      l.id, l.slug, l.targetUrl, c.render(l.createdAt), l.isActive,
      match l.expiresAt
      case None => None
      case Some(e) => Some(c.render(e)))
  }

  /** `LinkResponse.toDomain()`; `None` where the JDK parser would throw. */
  function ToDomain(r: LinkResponse, c: Codec): (l: Option<Link>)
    ensures l.Some? <==>
      c.parse(r.createdAt).Some? && (r.expiresAt.Some? ==> c.parse(r.expiresAt.value).Some?)
    ensures l.Some? ==>
      && l.value.id == r.id && l.value.slug == r.slug && l.value.targetUrl == r.targetUrl
      && l.value.isActive == r.isActive
      && Some(l.value.createdAt) == c.parse(r.createdAt)
      && (l.value.expiresAt.None? <==> r.expiresAt.None?)
      && (r.expiresAt.Some? ==> l.value.expiresAt == c.parse(r.expiresAt.value))
  {
    match c.parse(r.createdAt)
    case None => None
    case Some(created) =>
      match r.expiresAt
      case None => Some(Link(r.id, r.slug, r.targetUrl, created, r.isActive, None))
      case Some(text) =>
        match c.parse(text)
        case None => None
        case Some(expires) =>
          Some(Link(r.id, r.slug, r.targetUrl, created, r.isActive, Some(expires)))
  }

  /** A link survives the trip to its response and back. */
  lemma DomainRoundTrip(l: Link, c: Codec)
    requires ParseInvertsRender(c)
    ensures ToDomain(ToResponse(l, c), c) == Some(l)
  {
  }

  /** A response that parses, and whose timestamp texts are the ones
      rendering produces for their instants, survives the trip to the domain
      and back. Several texts may parse to one instant (`Z` and `+00:00`), so
      only canonical texts come back unchanged. */
  lemma ResponseRoundTrip(r: LinkResponse, c: Codec)
    requires ToDomain(r, c).Some?
    requires c.render(c.parse(r.createdAt).value) == r.createdAt
    requires r.expiresAt.Some? ==> c.render(c.parse(r.expiresAt.value).value) == r.expiresAt.value
    ensures ToResponse(ToDomain(r, c).value, c) == r
  {
  }

  /** A response built without `expiresAt` carries null there. */
  lemma ResponseDefault(id: int, slug: string, targetUrl: string, createdAt: string, isActive: bool)
    ensures LinkResponse(id, slug, targetUrl, createdAt, isActive).expiresAt == None
  {
  }
}
