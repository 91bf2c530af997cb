# URL shortener core in Dafny

A model of the core of a URL-shortening service. Clients submit a long URL and get back a short
random slug. Requesting the slug later redirects to the URL while the link is active and not expired.
The model covers:

- validating a submitted URL;
- drawing a random base-62 slug and retrying until one is free;
- storing the link in the `links` table under its constraints;
- resolving a slug to a redirect;
- mapping links to and from their JSON representation.

Files (one module each):

| file | module | models |
|---|---|---|
| `wrappers.dfy` | `Wrappers` | Kotlin nullable values (`Option`) and thrown exceptions (`Result`) |
| `text.dfy` | `Text` | Kotlin's `Char.isWhitespace`, `String.trim`, `String.startsWith` |
| `link.dfy` | `Domain` | the `Link` record and its defaults |
| `links_table.dfy` | `LinksTable` | the `links` table: rows, id sequence, schema constraints |
| `links_repository.dfy` | `LinksRepository` | `findAll`, `existsBySlug`, `findBySlug`, `save`, row mapping |
| `slug_generator.dfy` | `SlugGenerator` | `generate(length)` and the bounded retry `generate(length, maxRetries)` |
| `link_response.dfy` | `Dto` | `LinkResponse`, `ShortenResponse`, `toResponse`, `toDomain` |
| `api_routes.dfy` | `ApiRoutes` | the decisions of `POST /shorten`, `GET /{slug}` and `GET /links` |

Modelling choices:

- The database is an immutable `Table`: a sequence of rows plus the next value of the id sequence.
  `Valid` states the schema's constraints: slugs at most 32 characters and unique; slug and target
  free of U+0000, which PostgreSQL text cannot hold; ids distinct and all below the sequence's next value.
- A failed `save` returns only the error. The caller keeps the old table, as the rolled-back transaction does.
- Reads (`existsBySlug`, `findBySlug`, `findAll`) are functions of the table, so they cannot change it.
- `save` puts no length or format condition on `targetUrl`: the column is unbounded text, and the web-scheme
  rule lives in validation only. Like every PostgreSQL text value, it cannot hold U+0000.
- Timestamps are integer instants. `isAfter` is `>`. ISO-8601 rendering and parsing are a `Codec`
  value (a render function and a parse function) passed in by the caller.
- The clock is the `now` parameter.
- Randomness is replaced by the indices `Random.nextInt(62)` returns: `seq<int>` per slug, one
  such sequence per attempt.
- The existence check used by the retry loop is a `string -> bool` oracle. `Shorten` passes
  `existsBySlug` on the current table.

Where the model supplies what the code leaves open:

- `SlugGenerator.kt` defines only the top-level `generate(length)`. The `SlugGenerator(repo)` class
  that `ApiRoutes.kt:81` constructs and `SlugGeneratorTest.kt` exercises is modelled from that test:
  one existence check per attempt; the first free candidate is returned; otherwise failure after
  `maxRetries` checks, citing `maxRetries` attempts. Its default budget of 5 is a choice of this model.
- `LinksRepository.kt` defines no `findBySlug`, which `ApiRoutes.kt:44` calls. It is modelled as the
  query of `TestDataFactory.kt`: first row with that slug, limit 1.
- The shorten route builds `Link(slug, targetUrl)` without the `id` and `createdAt` the record
  requires. The model passes id `0` (ignored by `save`; the sequence assigns the id) and
  `createdAt = now`.
- `save` is called once (`ApiRoutes.kt:90`); the model does not retry on conflict. A refused insert
  surfaces as `StoreFailed`. In a sequential model the only refusal left is a URL holding U+0000,
  which PostgreSQL cannot store; the slug was just found free and is plain base-62 text.

## Model

| member | source | states |
|---|---|---|
| Text.Trim | src/main/kotlin/dev/kotlinbr/utlshortener/interfaces/http/ApiRoutes.kt:70 | trimming leaves nothing exactly for blank input, and what it leaves neither starts nor ends with whitespace |
| Text.TrimUnique | src/main/kotlin/dev/kotlinbr/utlshortener/interfaces/http/ApiRoutes.kt:70 | any split of a string into whitespace, a core with non-blank ends, and whitespace is the split `trim` makes |
| Text.TrimIgnoresPadding | src/main/kotlin/dev/kotlinbr/utlshortener/interfaces/http/ApiRoutes.kt:70 | adding whitespace on either side does not change the trimmed value |
| Text.TrimIdempotent | src/main/kotlin/dev/kotlinbr/utlshortener/interfaces/http/ApiRoutes.kt:34 | trimming an already trimmed value changes nothing |
| Domain.LinkDefaults | src/main/kotlin/dev/kotlinbr/utlshortener/domain/Link.kt:10-11 | a link built without `isActive`/`expiresAt` is active and never expires |
| Domain.LinkEquality | src/main/kotlin/dev/kotlinbr/utlshortener/domain/Link.kt:5-12 | link equality is equality of all six fields |
| Domain.CopyWithExpiry | src/main/kotlin/dev/kotlinbr/utlshortener/domain/Link.kt:5-12 | a copy with `expiresAt` replaced keeps the other five fields, and copying back restores the original |
| LinksTable.RowDefaults | src/main/kotlin/dev/kotlinbr/utlshortener/infrastructure/db/tables/LinksTable.kt:13-14 | a row inserted without `is_active`/`expires_at` is active with null expiry |
| LinksTable.EmptyValid | src/main/kotlin/dev/kotlinbr/utlshortener/infrastructure/db/tables/LinksTable.kt:8-16 | the empty table satisfies the slug-width, storable-text, unique-slug and distinct-id constraints |
| LinksRepository.RowRoundTrip | src/main/kotlin/dev/kotlinbr/utlshortener/infrastructure/repository/LinksRepository.kt:28-53 | reading back the columns `save` writes yields the link with the assigned id; mapping a row out and in again yields the same row |
| LinksRepository.ExistsBySlug | src/main/kotlin/dev/kotlinbr/utlshortener/infrastructure/repository/LinksRepository.kt:19-26 | true exactly when some row has exactly that slug |
| LinksRepository.FindBySlug | src/test/kotlin/dev/kotlinbr/utlshortener/testutils/TestDataFactory.kt:62-70 | a link is returned exactly when the slug exists, and it is one of the stored rows with that slug |
| LinksRepository.FindBySlugUnique | src/main/kotlin/dev/kotlinbr/utlshortener/infrastructure/db/tables/LinksTable.kt:10 | under the unique index the row found is the only row with that slug |
| LinksRepository.FindAll | src/main/kotlin/dev/kotlinbr/utlshortener/infrastructure/repository/LinksRepository.kt:12-17 | one link per row, each the row mapped field for field |
| LinksRepository.FindAllEmpty | src/test/kotlin/dev/kotlinbr/utlshortener/interfaces/http/RoutesIntegrationTest.kt:80-89 | an empty table lists no links |
| LinksRepository.FindAllAgreesWithFindBySlug | src/main/kotlin/dev/kotlinbr/utlshortener/infrastructure/repository/LinksRepository.kt:12-17 | every listed link is what its slug looks up, and every lookup result is listed |
| LinksRepository.Save | src/main/kotlin/dev/kotlinbr/utlshortener/infrastructure/repository/LinksRepository.kt:28-42 | refused exactly for a slug over 32 characters (checked as the column is set), then for slug or target text holding U+0000, then for a slug already stored; on success the stored link is the caller's link with a fresh id, `findAll` grows by exactly that link, the slug now exists, and the table keeps its constraints |
| LinksRepository.SaveThenFind | src/main/kotlin/dev/kotlinbr/utlshortener/infrastructure/repository/LinksRepository.kt:28-42 | looking up a saved link's slug returns the saved link field for field, with the sequence's next id |
| LinksRepository.DuplicateSlugRefused | src/test/kotlin/dev/kotlinbr/utlshortener/infrastructure/repository/LinksRepositoryTest.kt:96-124 | once a slug is stored, inserting it again is refused as a duplicate whatever the other fields, unless the new target holds U+0000, which is refused first |
| LinksRepository.SaveRefusesNul | src/main/kotlin/dev/kotlinbr/utlshortener/infrastructure/repository/LinksRepository.kt:31-37 | a target URL holding U+0000 is refused even by an empty table |
| LinksRepository.SaveIntoEmptyTable | src/main/kotlin/dev/kotlinbr/utlshortener/infrastructure/repository/LinksRepository.kt:28-42 | saving `abc123` into an empty table succeeds with id 1 and the caller's other fields, after which the slug exists |
| LinksRepository.SaveAllKeepsSlugsUnique | src/main/kotlin/dev/kotlinbr/utlshortener/infrastructure/db/tables/LinksTable.kt:9-15 | after any series of saves the table keeps its constraints, lists the old links then the stored ones, and no two stored links share a slug or an id |
| SlugGenerator.AlphabetIsBase62 | src/main/kotlin/dev/kotlinbr/utlshortener/app/services/SlugGenerator.kt:6 | the alphabet has 62 symbols, none repeated, and holds exactly the characters `[0-9a-zA-Z]` |
| SlugGenerator.IndexOf | src/main/kotlin/dev/kotlinbr/utlshortener/app/services/SlugGenerator.kt:6 | every base-62 character sits at some alphabet position |
| SlugGenerator.Spell | src/main/kotlin/dev/kotlinbr/utlshortener/app/services/SlugGenerator.kt:5-11 | a slug has one character per draw, each in `[0-9a-zA-Z]` |
| SlugGenerator.SpellRoundTrip | src/main/kotlin/dev/kotlinbr/utlshortener/app/services/SlugGenerator.kt:7-9 | the draws can be read back from the slug, so distinct draws give distinct slugs |
| SlugGenerator.UnspellRoundTrip | src/main/kotlin/dev/kotlinbr/utlshortener/app/services/SlugGenerator.kt:7-9 | every base-62 string is the slug of the draws read from it |
| SlugGenerator.DefaultSlugFitsColumn | src/main/kotlin/dev/kotlinbr/utlshortener/app/services/SlugGenerator.kt:5 | a slug of the default length 7 fits the 32-character column |
| SlugGenerator.Generate | src/main/kotlin/dev/kotlinbr/utlshortener/app/services/SlugGenerator.kt:5-11 | the loop that joins `length` drawn symbols produces the slug the draws spell |
| SlugGenerator.GenerateUnique | src/test/kotlin/dev/kotlinbr/utlshortener/app/services/SlugGeneratorTest.kt:14-55 | returns the first candidate that is not taken, after one check per candidate tried, or fails citing `maxRetries` attempts after exactly `maxRetries` checks, every one taken |
| SlugGenerator.FirstFreeDeterministic | src/test/kotlin/dev/kotlinbr/utlshortener/app/services/SlugGeneratorTest.kt:14-55 | the retry contract admits exactly one outcome and one check count |
| SlugGenerator.FirstFreeSucceedsIff | src/test/kotlin/dev/kotlinbr/utlshortener/app/services/SlugGeneratorTest.kt:42-55 | generation succeeds exactly when one of the first `maxRetries` candidates is free |
| SlugGenerator.FirstCandidateFree | src/test/kotlin/dev/kotlinbr/utlshortener/app/services/SlugGeneratorTest.kt:14-26 | a free first candidate is returned after exactly one check |
| SlugGenerator.ThirdCandidateFree | src/test/kotlin/dev/kotlinbr/utlshortener/app/services/SlugGeneratorTest.kt:28-40 | existence answers true, true, false give the third candidate after exactly three checks |
| SlugGenerator.AllCandidatesTaken | src/test/kotlin/dev/kotlinbr/utlshortener/app/services/SlugGeneratorTest.kt:42-55 | all candidates taken with a budget of three: failure citing three attempts after exactly three checks |
| Dto.ToResponse | src/main/kotlin/dev/kotlinbr/utlshortener/interfaces/http/dto/LinkResponse.kt:17-25 | id, slug, target and flag are copied; `createdAt` is rendered; `expiresAt` is rendered when present and null when absent |
| Dto.ToDomain | src/main/kotlin/dev/kotlinbr/utlshortener/interfaces/http/dto/LinkResponse.kt:27-35 | succeeds exactly when the timestamps parse; copies id, slug, target and flag; the creation time and a present expiry are the parses of their texts; a null expiry stays absent |
| Dto.DomainRoundTrip | src/main/kotlin/dev/kotlinbr/utlshortener/interfaces/http/dto/LinkResponse.kt:17-35 | when parsing inverts rendering, `toDomain(toResponse(l)) == l` |
| Dto.ResponseRoundTrip | src/main/kotlin/dev/kotlinbr/utlshortener/interfaces/http/dto/LinkResponse.kt:17-35 | `toResponse(toDomain(r)) == r` for every response that parses and whose timestamp texts are the rendering of their own instants |
| Dto.ResponseDefault | src/main/kotlin/dev/kotlinbr/utlshortener/interfaces/http/dto/LinkResponse.kt:13 | a response built without `expiresAt` carries null there |
| ApiRoutes.Validate | src/main/kotlin/dev/kotlinbr/utlshortener/interfaces/http/ApiRoutes.kt:70-78 | refused as empty exactly for blank input (so blank input never gets the scheme error); refused for its scheme exactly when the trimmed URL is non-empty and lacks `http://` and `https://`; otherwise accepted as the trimmed URL |
| ApiRoutes.ValidateIgnoresPadding | src/main/kotlin/dev/kotlinbr/utlshortener/interfaces/http/ApiRoutes.kt:70-78 | whitespace around the submitted URL never changes the verdict |
| ApiRoutes.ValidateScenarios | src/test/kotlin/dev/kotlinbr/utlshortener/interfaces/http/RoutesUnitTest.kt:129-221 | `""` and `"   "` are empty, `"example.com"` has a bad scheme, the http and https URLs pass unchanged, and the two refusals carry the tested messages |
| ApiRoutes.Resolve | src/main/kotlin/dev/kotlinbr/utlshortener/interfaces/http/ApiRoutes.kt:33-66 | a blank slug, and only a blank slug, is missing; a slug holding U+0000, and only such a slug, makes the lookup fail; not found exactly when no row has the slug; inactive and expired name a stored row in that state; a redirect goes to the target of an active, unexpired row with that slug |
| ApiRoutes.ResolveRedirectIff | src/main/kotlin/dev/kotlinbr/utlshortener/interfaces/http/ApiRoutes.kt:43-66 | under the unique index, a slug redirects to a URL exactly when its link is active, unexpired and points at that URL |
| ApiRoutes.InactiveOrExpiredNeverRedirects | src/main/kotlin/dev/kotlinbr/utlshortener/interfaces/http/ApiRoutes.kt:46-62 | an inactive link is reported inactive whatever its expiry; an active link whose expiry is not after now is reported expired |
| ApiRoutes.ExpiryIsFinal | src/main/kotlin/dev/kotlinbr/utlshortener/interfaces/http/ApiRoutes.kt:46-47 | expiry is monotone in time: once expired stays expired, and a redirect now was a redirect earlier too |
| ApiRoutes.ResolveOnEmptyStore | src/main/kotlin/dev/kotlinbr/utlshortener/interfaces/http/ApiRoutes.kt:43-61 | an unknown slug on an empty store is not found |
| ApiRoutes.ResolveRefusesNul | src/main/kotlin/dev/kotlinbr/utlshortener/interfaces/http/ApiRoutes.kt:33-44 | the slug `a\u0000b` survives trimming and the lookup of it fails, even on an empty store |
| ApiRoutes.StoredLinkResolves | src/main/kotlin/dev/kotlinbr/utlshortener/interfaces/http/ApiRoutes.kt:84-90 | a saved active link without expiry redirects to its target at every instant |
| ApiRoutes.Shorten | src/main/kotlin/dev/kotlinbr/utlshortener/interfaces/http/ApiRoutes.kt:68-93 | a validation error is reported exactly when validation fails; exhaustion only after all five candidates were taken; a store failure only for a URL holding U+0000; a valid storable URL with a free candidate among the first five is always shortened, with the first free candidate as slug; the stored link has the trimmed URL, is active, never expires, was created now, the table keeps its constraints and grows by exactly that link, the response path is `/` + slug, and the slug redirects to the URL |
| ApiRoutes.ListLinks | src/main/kotlin/dev/kotlinbr/utlshortener/interfaces/http/ApiRoutes.kt:27-31 | one response per row, each `toResponse` of the listed link with its timestamps rendered, and each mapping back to the stored link when parsing inverts rendering |

## Left out

- Database connection pool, migrations, configuration, HTTP wiring, logging and JSON encoding: plumbing
  around the core. Status codes appear only as the `Resolution` and `Result` variants they are chosen from.
- Concurrency: two requests can pass the existence check for the same slug, and then one insert fails on
  the unique index. The model is sequential, so this race and its failure are not represented.
- Database unavailability and the "failed to retrieve inserted row" error of `save`: the store is
  always reachable and returns the inserted row.
- Zone offsets of timestamps: an `OffsetDateTime` is reduced to its instant. Two timestamps with the same
  instant and different offsets are therefore equal in the model.
- The ISO-8601 format itself: rendering and parsing are a caller-supplied `Codec`.
- Gaps in the id sequence left by failed inserts in PostgreSQL: a refused `save` leaves the counter unchanged.
  Ids stay distinct either way.
- Overflow of the 64-bit id: ids are unbounded integers.
- SlugGenerator.Generate: `length` is a natural number; a negative length, which makes Kotlin's `List(length)` throw, is not modelled.
- SlugGenerator.GenerateUnique: `maxRetries` is a natural number; a negative budget is not modelled. The exhaustion error carries the attempt count only, not the full message text.
- LinksRepository.FindAll: lists rows in insertion order. `selectAll()` has no `ORDER BY`, so the program
  promises no order; the `Save` and `SaveAll` contracts that append to the listing describe the model's order.
- LinksRepository.Save: timestamps are exact; PostgreSQL `timestamptz` keeps microseconds, so a
  `createdAt` or `expiresAt` with finer precision reads back rounded, which the model does not show.
- LinksRepository.ExistsBySlug: total; a key holding U+0000 makes the program's query throw. No caller in this model
  passes one: `Save` refuses such a slug first, `Resolve` answers `LookupFailed`, and generated slugs are base-62.
- LinksRepository.FindBySlug: total, for the same reason as `ExistsBySlug`; `Resolve` models the throwing case.
