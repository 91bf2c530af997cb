/** The decisions the API's route handlers make, taken out of the handlers:
    validating a URL to shorten, creating the link, resolving a slug to a
    redirect, and listing links. The clock is the `now` parameter. */
module ApiRoutes {
  import opened Wrappers
  import opened Text
  import opened Domain
  import opened LinksTable
  import opened LinksRepository
  import opened Dto
  import SlugGenerator

  /** Why a URL is refused, with the message the client receives. */
  datatype ValidationError = EmptyUrl | InvalidScheme {
    function Message(): string {
      match this
      case EmptyUrl => "URL não pode estar vazia."
      case InvalidScheme => "URL inválida. Use http:// ou https://"
    }
  }

  /** The URL names an HTTP or HTTPS resource. */
  predicate HasWebScheme(url: string) {
    StartsWith(url, "http://") || StartsWith(url, "https://")
  }

  /** Checks on the `url` of a shorten request: trimmed first, refused when
      nothing is left, then refused unless it starts with a web scheme. */
  function Validate(raw: string): (r: Result<string, ValidationError>)
    ensures r == Failure(EmptyUrl) <==> IsBlank(raw)
    ensures r == Failure(InvalidScheme) <==> !IsBlank(raw) && !HasWebScheme(Trim(raw))
    ensures r.Success? <==> !IsBlank(raw) && HasWebScheme(Trim(raw))
    ensures r.Success? ==> r.value == Trim(raw)
  {
    var url := Trim(raw);
    if url == [] then Failure(EmptyUrl)
    else if !HasWebScheme(url) then Failure(InvalidScheme)
    else Success(url)
  }

  /** Whitespace around the submitted URL never changes the verdict. */
  lemma ValidateIgnoresPadding(front: string, raw: string, back: string)
    requires IsBlank(front) && IsBlank(back)
    ensures Validate(front + raw + back) == Validate(raw)
  {
    TrimIgnoresPadding(front, raw, back);
    var w := front + raw + back;
    assert IsBlank(w) <==> IsBlank(raw) by {
      if IsBlank(w) {
        forall k | 0 <= k < |raw| ensures IsWhitespace(raw[k]) {
          assert raw[k] == w[|front| + k];
        }
      }
    }
  }

  /** The request bodies of the validation scenarios: empty and blank input
      are refused as empty, a bare host name for its scheme, and both web
      schemes pass unchanged. */
  lemma ValidateScenarios()
    ensures Validate("") == Failure(EmptyUrl)
    ensures Validate("   ") == Failure(EmptyUrl)
    ensures Validate("example.com") == Failure(InvalidScheme)
    ensures Validate("http://example.com") == Success("http://example.com")
    ensures Validate("https://example.com") == Success("https://example.com")
    ensures Validate("").error.Message() == "URL não pode estar vazia."
    ensures Validate("example.com").error.Message() == "URL inválida. Use http:// ou https://"
  {
    assert IsBlank("   ");
    assert !IsBlank("example.com") by { assert !IsWhitespace("example.com"[0]); }
    TrimNoPadding("example.com");
    assert "example.com"[..7] != "http://";
    assert "example.com"[..8] != "https://";
    assert !IsBlank("http://example.com") by { assert !IsWhitespace("http://example.com"[0]); }
    TrimNoPadding("http://example.com");
    assert "http://example.com"[..7] == "http://";
    assert !IsBlank("https://example.com") by { assert !IsWhitespace("https://example.com"[0]); }
    TrimNoPadding("https://example.com");
    assert "https://example.com"[..8] == "https://";
  }

  /** Why a slug does not redirect, in the order the handler checks. */
  datatype Reason =
    | Missing     // nothing left of the path segment after trimming
    | NoSuchSlug  // no link has this slug
    | Inactive    // the link is switched off
    | Expired     // the link's expiry is not after now

  /** Answer to a slug request: a temporary redirect, not found, or a server
      error when the store refuses to look the slug up. */
  datatype Resolution = Redirect(target: string) | NotFound(reason: Reason) | LookupFailed

  /** The slug looked up for a path parameter: trimmed, absent as empty. */
  function SlugKey(param: Option<string>): (key: string)
    ensures key == [] <==> param.None? || IsBlank(param.value)
    ensures key != [] ==> !IsWhitespace(key[0]) && !IsWhitespace(key[|key| - 1])
  {
    match param
    case None => ""
    case Some(p) => Trim(p)
  }

  /** A link whose expiry is present and not strictly after `now` has
      expired; expiry is inclusive. */
  predicate ExpiredAt(expiresAt: Option<Instant>, now: Instant) {
    expiresAt.Some? && !(expiresAt.value > now)
  }

  /** `GET /{slug}`: a blank slug is not found without consulting the store;
      a slug holding U+0000 cannot be bound in the query, which throws;
      otherwise the link is looked up and redirects only when it exists, is
      active and has not expired. */
  function Resolve(t: Table, param: Option<string>, now: Instant): (r: Resolution)
    ensures r == NotFound(Missing) <==> SlugKey(param) == []
    ensures r == LookupFailed <==> SlugKey(param) != [] && !Storable(SlugKey(param))
    ensures r == NotFound(NoSuchSlug) <==>
      SlugKey(param) != [] && Storable(SlugKey(param)) && !ExistsBySlug(t, SlugKey(param))
    ensures r == NotFound(Inactive) ==>
      exists i :: 0 <= i < |t.rows| && t.rows[i].slug == SlugKey(param) && !t.rows[i].isActive
    ensures r == NotFound(Expired) ==>
      exists i :: 0 <= i < |t.rows| && t.rows[i].slug == SlugKey(param)
        && t.rows[i].isActive && ExpiredAt(t.rows[i].expiresAt, now)
    ensures r.Redirect? ==>
      exists i :: 0 <= i < |t.rows| && t.rows[i].slug == SlugKey(param)
        && t.rows[i].isActive && !ExpiredAt(t.rows[i].expiresAt, now)
        && t.rows[i].targetUrl == r.target
  {
    var slug := SlugKey(param);
    if slug == [] then NotFound(Missing)
    else if !Storable(slug) then LookupFailed
    else match FindBySlug(t, slug)
      case None => NotFound(NoSuchSlug)
      case Some(link) =>
        if !link.isActive then NotFound(Inactive)
        else if ExpiredAt(link.expiresAt, now) then NotFound(Expired)
        else Redirect(link.targetUrl)
  }

  /** Under the unique index, a slug redirects to `url` exactly when its link
      is active, unexpired and points at `url`. */
  lemma ResolveRedirectIff(t: Table, param: Option<string>, now: Instant, url: string)
    requires Valid(t)
    ensures Resolve(t, param, now) == Redirect(url) <==>
      exists i :: 0 <= i < |t.rows| && t.rows[i].slug == SlugKey(param) && SlugKey(param) != []
        && t.rows[i].isActive && !ExpiredAt(t.rows[i].expiresAt, now)
        && t.rows[i].targetUrl == url
  {
  }

  /** An inactive link never redirects, whatever its expiry; an active link
      whose expiry is not after now never redirects either. */
  lemma InactiveOrExpiredNeverRedirects(t: Table, param: Option<string>, now: Instant, i: int)
    requires Valid(t)
    requires 0 <= i < |t.rows| && t.rows[i].slug == SlugKey(param) && SlugKey(param) != []
    ensures !t.rows[i].isActive ==> Resolve(t, param, now) == NotFound(Inactive)
    ensures t.rows[i].isActive && ExpiredAt(t.rows[i].expiresAt, now) ==>
      Resolve(t, param, now) == NotFound(Expired)
  {
  }

  /** Time only moves a link towards expiry: once expired it stays expired,
      and a redirect now was also a redirect at every earlier instant. */
  lemma ExpiryIsFinal(t: Table, param: Option<string>, earlier: Instant, later: Instant)
    requires earlier <= later
    ensures Resolve(t, param, earlier) == NotFound(Expired) ==>
      Resolve(t, param, later) == NotFound(Expired)
    ensures Resolve(t, param, later).Redirect? ==>
      Resolve(t, param, earlier) == Resolve(t, param, later)
  {
  }

  /** Looking up any slug in an empty store finds nothing. */
  lemma ResolveOnEmptyStore(now: Instant)
    ensures Resolve(Empty, Some("missing-slug"), now) == NotFound(NoSuchSlug)
  {
  }

  /** A slug holding U+0000 is never looked up: the request fails. */
  lemma ResolveRefusesNul(now: Instant)
    ensures Resolve(Empty, Some("a\0b"), now) == LookupFailed
  {
    TrimNoPadding("a\0b");
    assert "a\0b"[1] == '\0';
  }

  /** Outcome of `POST /shorten`: the table with the new link, the link as
      stored, and the response body. */
  datatype Created = Created(table: Table, link: Link, response: ShortenResponse)

  /** Why shortening failed. */
  datatype ShortenError =
    | Invalid(validation: ValidationError)
    | GenerationFailed(exhausted: SlugGenerator.Exhausted)
    | StoreFailed(cause: StoreError)

  /** A link whose slug has no surrounding whitespace, stored active and
      without expiry, redirects to its target at every instant. */
  lemma StoredLinkResolves(t: Table, l: Link, now: Instant)
    requires Save(t, l).Success?
    requires l.slug != [] && !IsWhitespace(l.slug[0]) && !IsWhitespace(l.slug[|l.slug| - 1])
    requires l.isActive && l.expiresAt == None
    ensures Resolve(Save(t, l).value.table, Some(l.slug), now) == Redirect(l.targetUrl)
  {
  }

  /** `POST /shorten`: validate the URL, draw a free slug of the default
      length within the default retry budget (existence checked against the
      store), then save an active, never-expiring link created now. The
      response path is the slug behind a slash. A failed insert is not
      retried and surfaces as a store failure; in this sequential model the
      only insert that fails is one whose URL holds U+0000, because the slug
      was just found free, fits its column and is plain base-62 text. */
  method Shorten(t: Table, raw: string, now: Instant, attempts: seq<seq<int>>)
    returns (r: Result<Created, ShortenError>)
    requires Valid(t)
    requires |attempts| >= SlugGenerator.DefaultMaxRetries
    requires SlugGenerator.ValidAttempts(attempts, SlugGenerator.DefaultLength)
    ensures Validate(raw).Failure? ==> r == Failure(Invalid(Validate(raw).error))
    ensures r.Failure? && r.error.Invalid? ==> Validate(raw).Failure?
    ensures r.Failure? && r.error.GenerationFailed? ==>
      && Validate(raw).Success?
      && r.error.exhausted == SlugGenerator.Exhausted(SlugGenerator.DefaultMaxRetries)
      && forall k :: 0 <= k < SlugGenerator.DefaultMaxRetries ==>
           ExistsBySlug(t, SlugGenerator.Spell(attempts[k]))
    ensures r.Failure? && r.error.StoreFailed? ==>
      && r.error.cause == NulInText
      && Validate(raw).Success? && !Storable(Validate(raw).value)
      && exists k :: 0 <= k < SlugGenerator.DefaultMaxRetries &&
           !ExistsBySlug(t, SlugGenerator.Spell(attempts[k]))
    ensures
      (&& Validate(raw).Success? && Storable(Validate(raw).value)
       && exists k :: 0 <= k < SlugGenerator.DefaultMaxRetries &&
            !ExistsBySlug(t, SlugGenerator.Spell(attempts[k])))
      ==> r.Success?
    ensures r.Success? ==>
      var c := r.value;
      && Validate(raw) == Success(c.link.targetUrl)
      && Storable(c.link.targetUrl)
      && c.link.isActive && c.link.expiresAt == None && c.link.createdAt == now
      && |c.link.slug| == SlugGenerator.DefaultLength
      && (forall k :: 0 <= k < |c.link.slug| ==> SlugGenerator.IsBase62(c.link.slug[k]))
      && (exists n :: 0 <= n < SlugGenerator.DefaultMaxRetries &&
            c.link.slug == SlugGenerator.Spell(attempts[n]) &&
            forall k :: 0 <= k < n ==> ExistsBySlug(t, SlugGenerator.Spell(attempts[k])))
      && !ExistsBySlug(t, c.link.slug)
      && Valid(c.table)
      && FindAll(c.table) == FindAll(t) + [c.link]
      && c.response == ShortenResponse(c.link.slug, "/" + c.link.slug)
      && forall later :: Resolve(c.table, Some(c.link.slug), later) == Redirect(c.link.targetUrl)
  {
    var v := Validate(raw);
    if v.Failure? {
      return Failure(Invalid(v.error));
    }
    var taken := (s: string) => ExistsBySlug(t, s);
    var generated, checks := SlugGenerator.GenerateUnique(
      SlugGenerator.DefaultLength, SlugGenerator.DefaultMaxRetries, attempts, taken);
    SlugGenerator.FirstFreeSucceedsIff(
      attempts, SlugGenerator.DefaultLength, SlugGenerator.DefaultMaxRetries, taken,
      generated, checks);
    if generated.Failure? {
      return Failure(GenerationFailed(generated.error));
    }
    var slug := generated.value;
    assert slug == SlugGenerator.Spell(attempts[checks - 1]);
    assert Storable(slug) by {
      forall k | 0 <= k < |slug| ensures slug[k] != '\0' {
        assert SlugGenerator.IsBase62(slug[k]);
      }
    }
    var link := Link(0, slug, v.value, now);
    var saved := Save(t, link);
    if saved.Failure? {
      return Failure(StoreFailed(saved.error));
    }
    forall later ensures Resolve(saved.value.table, Some(slug), later) == Redirect(v.value) {
      StoredLinkResolves(t, link, later);
    }
    r := Success(Created(saved.value.table, saved.value.link, ShortenResponse(slug, "/" + slug)));
  }

  /** `GET /links`: every stored link in its response form. */
  function ListLinks(t: Table, c: Codec): (r: seq<LinkResponse>)
    ensures |r| == |t.rows|
    ensures forall i :: 0 <= i < |r| ==> r[i] == ToResponse(FindAll(t)[i], c)
    ensures ParseInvertsRender(c) ==>
      forall i :: 0 <= i < |r| ==> Dto.ToDomain(r[i], c) == Some(FindAll(t)[i])
  {
    var links := FindAll(t);
    seq(|links|, i requires 0 <= i < |links| => ToResponse(links[i], c))
  }
}
