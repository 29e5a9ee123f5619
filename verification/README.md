# URL shortener core in Dafny

A model of the `UrlShortenerService` of a small Spring URL shortener and of
the `UrlMapping` record it persists, with proofs of what the service
promises.

- `Base62` models `encodeBase62`, which turns a record id into its short
  code over the 62 symbols `0-9a-zA-Z`. `Encode` is the function. The
  method `EncodeBase62` is the service's loop: it appends the least
  significant symbol, then reverses the buffer. It is proved equal to
  `Encode`. `Decode` is an independent reference that reads a code as a
  base-62 numeral. It is used to state the round trip and the bijection with
  canonical numerals.
- `Mapping` models the `url_mapping` table as a map from id to record plus
  the identity counter. `Valid` states what the database keeps true of every
  state: each row sits under its own id, ids come from the counter, and the
  unique constraint on `shortCode` holds. The repository calls the service
  makes are `FindByShortCode`, `Insert` (save of a new entity) and `Update`
  (save of an existing one). Both saves fail with `DuplicateShortCode` when
  the unique constraint would be broken. `DeleteExpired` is the query run by
  the scheduled cleanup job.
- `Service` models `shortenUrl` (split into its alias branch and its
  derived-code branch), `getOriginalUrlAndIncrementClicks` (`Resolve`) and
  `getStats`. Each call takes the store, and each call that reads the clock
  also takes the current time `now`, in whole hours. A call that writes
  returns the store after its transaction, together with the return value or
  the exception; `GetStats` returns only the value or the exception.
- `Properties` relates several calls. It covers shortening and then
  following a code, the expiry window of an alias, asking twice for one
  alias, redirects as seen by the stats, and the invariants kept by any
  sequence of requests. It also shows that cleanup never changes what a
  redirect returns, and it gives a worked case of a derived code meeting an
  alias.

The encoding alone does not make codes unique. The derived-code path does
not look for aliases. Only the unique constraint on `shortCode`
(`UrlMapping.java:20`) stops it from reusing a code that an alias already
holds. The model therefore makes the second save fail with
`DuplicateShortCode` and rolls back the records. The identity value drawn
for that request stays used, as identity columns do on rollback.
`Properties.DerivedCodeMeetsAlias` shows the case: alias `"2"` takes id 1,
so the next derived request (id 2, code `"2"`) is refused. Code uniqueness
is then the store invariant `Valid`, which every operation preserves.

Two consequences of the code are worth stating plainly:

- Derived codes can collide with an alias; see
  `Properties.DerivedCodeMeetsAlias`.
- The service accepts any hour count and adds it to the current time. Only
  `ShortenUrlRequest`'s `@Min(1)` restricts it, and `PageController` passes
  null.

## Model

| member | source | states |
|---|---|---|
| Base62.Encode | src/main/java/com/example/urlshortener/Service/UrlShortenerService.java:60-72 | The code uses only alphabet symbols. It is non-empty exactly for ids >= 0, and decodes back to the id. It is "0" exactly for id 0. A positive id has no leading '0' and its length is its number of base-62 digits. An id below 62 gives one symbol. |
| Base62.EncodeBase62 | src/main/java/com/example/urlshortener/Service/UrlShortenerService.java:60-72 | The append-then-reverse loop returns exactly Encode(number), for every long value including 0 and negatives. |
| Base62.Digits | src/main/java/com/example/urlshortener/Service/UrlShortenerService.java:64-71 | The digit string of n uses only alphabet symbols. It is non-empty exactly when n > 0, and it never starts with '0'. |
| Base62.AlphabetAt | src/main/java/com/example/urlshortener/Service/UrlShortenerService.java:18 | BASE62_CHARS has 62 symbols. Its symbol at index d lies in 0-9a-zA-Z and has digit value d. |
| Base62.AlphabetIndexOf | src/main/java/com/example/urlshortener/Service/UrlShortenerService.java:18 | Every symbol in 0-9a-zA-Z is found in BASE62_CHARS at the index of its digit value. |
| Base62.DecodeDigits | src/main/java/com/example/urlshortener/Service/UrlShortenerService.java:64-71 | Reading the generated digits most significant first gives back n (0 for n <= 0). |
| Base62.DigitsLength | src/main/java/com/example/urlshortener/Service/UrlShortenerService.java:66-70 | A positive n yields k digits with 62^(k-1) <= n < 62^k. |
| Base62.EncodeInjective | src/main/java/com/example/urlshortener/Service/UrlShortenerService.java:52 | Distinct non-negative ids never get the same derived code. |
| Base62.DigitsOfDecode | src/main/java/com/example/urlshortener/Service/UrlShortenerService.java:64-71 | A non-empty alphabet string without a leading '0' denotes a positive number, whose digits are that string. |
| Base62.EncodeDecode | src/main/java/com/example/urlshortener/Service/UrlShortenerService.java:60-72 | Every canonical numeral is the code of the number it denotes. With the round trip, encoding is a bijection between non-negative ids and canonical numerals. |
| Base62.Reverse | src/main/java/com/example/urlshortener/Service/UrlShortenerService.java:71 | The reversed buffer has the same length, and position i holds the symbol from position length-1-i. |
| Mapping.FindByShortCode | src/main/java/com/example/urlshortener/model/UrlMapping.java:20-21 | The lookup finds a row exactly when some row holds the code. The row it returns is stored under its own id, holds that code, and is the only row that does. |
| Mapping.Insert | src/main/java/com/example/urlshortener/model/UrlMapping.java:15-21 | A new row gets the next identity value and the counter advances. The save fails with DuplicateShortCode exactly when its code is already held. A successful save keeps the store invariant. |
| Mapping.Update | src/main/java/com/example/urlshortener/model/UrlMapping.java:20-21 | Saving an existing row overwrites only that row. It fails with DuplicateShortCode exactly when another row holds its code. A successful save keeps the store invariant. |
| Mapping.DeleteExpired | src/main/java/com/example/urlshortener/Service/CleanupService.java:31-33 | The cleanup removes exactly the rows whose expiry is strictly before now. It leaves the other rows and the counter unchanged and keeps the store invariant. |
| Service.ShortenWithAlias | src/main/java/com/example/urlshortener/Service/UrlShortenerService.java:27-40 | A taken alias fails with AliasAlreadyExists and leaves the store unchanged. A free alias adds one row under the next id and returns the alias. That row holds the URL, the alias, creation time now and 0 clicks. It expires at now + hours when hours are given and never otherwise. |
| Service.ShortenDerived | src/main/java/com/example/urlshortener/Service/UrlShortenerService.java:43-58 | The path draws the next id and returns Encode(id), stored on that same row. The row has 0 clicks and no expiry. The path fails with DuplicateShortCode, rows unchanged, exactly when an existing row already holds Encode(id). |
| Service.ShortenUrl | src/main/java/com/example/urlshortener/Service/UrlShortenerService.java:25-59 | An alias with text takes the alias path. An absent, empty or blank alias takes the derived path. The store invariant holds afterwards and existing rows only evolve. A failure adds no row and new rows have 0 clicks. A returned code looks up the row with the given URL. |
| Service.Resolve | src/main/java/com/example/urlshortener/Service/UrlShortenerService.java:73-86 | The call succeeds exactly when a row holds the code and its expiry is not strictly before now. It then returns that row's URL and adds one click to that row only, changing nothing else. Otherwise it fails with UrlNotFound and leaves the store unchanged. |
| Service.GetStats | src/main/java/com/example/urlshortener/Service/UrlShortenerService.java:87-101 | The call succeeds exactly when a row holds the code, expired or not. It reports the row's URL, "http://localhost:8080/" + code, the creation date and the clicks. It has no store result, so it cannot change the store. |
| Properties.Apply | src/main/java/com/example/urlshortener/Service/UrlShortenerService.java:25-101 | Any single service call keeps the store invariant and only evolves existing rows. If every row had a code before, every row has one after. |
| Properties.RunEvolves | src/main/java/com/example/urlshortener/model/UrlMapping.java:15-25 | Over any sequence of calls, row ids, URLs, codes, creation and expiry dates never change and click counts never decrease. New rows take fresh ids, and every row keeps a code. |
| Properties.ReachableStores | src/main/java/com/example/urlshortener/model/UrlMapping.java:20-23 | Every store reached from an empty database gives every row a code, and no code is held twice. |
| Properties.ShortenThenRedirect | src/main/java/com/example/urlshortener/Service/UrlShortenerService.java:25-100 | A freshly returned code redirects to its URL: any time later for a derived code, up to its expiry for an alias. The stats then show 1 click, creation time now and the full short URL. |
| Properties.AliasExpiryWindow | src/main/java/com/example/urlshortener/Service/UrlShortenerService.java:36-38 | An alias created at now with h hours resolves at time t exactly when t <= now + h. |
| Properties.AliasTwice | src/main/java/com/example/urlshortener/Service/UrlShortenerService.java:27-31 | A second request for the same alias fails with AliasAlreadyExists and changes nothing, however the first one ended. |
| Properties.RedirectThenStats | src/main/java/com/example/urlshortener/Service/UrlShortenerService.java:82-99 | After a successful redirect, the stats for the code equal the earlier stats with one more click. |
| Properties.ExpiredStillHasStats | src/main/java/com/example/urlshortener/Service/UrlShortenerService.java:79-89 | A row whose expiry has passed is not found by a redirect, with the store unchanged, but its stats are still reported. |
| Properties.CleanupAgreesWithResolve | src/main/java/com/example/urlshortener/Service/CleanupService.java:31-33 | A redirect at now returns the same before and after the cleanup deletes the rows expired at now. |
| Properties.DerivedCodeMeetsAlias | src/main/java/com/example/urlshortener/Service/UrlShortenerService.java:46-55 | From an empty database, alias "2" gets id 1. The next derived request draws id 2 (code "2") and is refused by the unique constraint, rows unchanged. The request after it gets "3". |

## Left out

- HTTP routing, redirects, HTML templates and the request/response objects (`UrlController`, `PageController`, `ShortenUrlRequest`, `UrlStatsResponse` beyond its four fields) are transport, not the core. `getUrlStats` in the REST controller is a stub that returns null.
- Bean Validation (`@NotEmpty`, `@URL`, `@Min(1)`) runs before the service and is not modelled. The service itself accepts any URL text and any hour count.
- Time is a whole number of hours passed in as `now`. `LocalDateTime` calendar arithmetic is not modelled. The alias path reads the clock twice (creation date and expiry), and the model uses one `now` for both.
- Exception message texts are not modelled; errors carry only the alias or code.
- Java integer widths are not modelled. Ids and click counts are unbounded, so overflow past 2^63 - 1 is out of scope. A null `Long` passed to `encodeBase62` would throw; ids are never null.
- Strings are sequences of characters. Java's UTF-16 surrogate pairs are not distinguished.
- Concurrency is not modelled: the read-modify-write race on `clickCount` and the check-then-insert race on aliases. Every call is one sequential transaction.
- The cleanup job's scheduling and logging are not modelled; only its delete query is (`Mapping.DeleteExpired`).
- Mapping.FindByShortCode: requires the store invariant. A Spring Data query that found two rows would throw, but the unique constraint rules that state out, so it is not modelled.
- Service.Resolve, Service.GetStats, Service.ShortenUrl: require the store invariant `Valid`, the database's own guarantee (identity ids, unique codes). States that break it are not modelled.
