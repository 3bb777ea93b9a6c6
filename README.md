# tiny-url short-link core in Dafny

A model of the back end of the tiny-url link shortener (`apps/api/src`). It has four modules.

- **GenerateUrl** (`generate_url.dfy`) models how a short code is minted.
  - `toBase62` writes a number in base 62, most significant digit first, over the alphabet `0-9a-zA-Z`. It becomes the method `ToBase62`, which has a loop. The method is proved equal to the function `Base62`.
  - `Base62Value` reads such a string back. It is the partner of `Base62`: the two round-trip, and `Base62` is injective and canonical.
  - `generateBase62Hash` computes the HMAC digest of that string and takes the substring `[62/L - L, 62/L)`. The substring follows JavaScript's rules: real division, truncation toward zero, and clamping to the string. `GenerateBase62Hash` is a pure function, so equal inputs always give equal codes.
- **UrlModel** (`url_model.dfy`) models the `Urls` collection.
  - It holds the record schema, the schema's validators and the unique indexes on `shortCode` and `shortUrl`.
  - It also holds the `findOne` and `find` queries the handlers run.
- **ClickModel** (`click_model.dfy`) models the `ClickLogs` collection. It holds the log record, the document that `create` builds from a visit, and the query by code.
- **UrlController** (`url_controller.dfy`) models the request handlers.
  - The handlers are methods of `UrlStore`, a class whose two fields are the two collections. Each method returns the response the handler sends, or the error it passes on. Its contract also names the HTTP statuses (`HttpStatus`) the handler can send.
  - Each handler's new state is given by a pure transition: `RemoveAt`, `WithOriginalUrl`, `WithClick`, or an append.
  - Each transition is proved to keep `StoreInvariant`:
    - the unique indexes hold;
    - every stored code is 4 to 10 characters long;
    - every short URL has an http(s) scheme;
    - every click log names a code;
    - no record has counted more clicks than there are logs for its code.
  - Four methods chain handlers into whole request sequences: `VisitAndReadLogs` (visit a stored code, then read its logs as the owner), `CreateVisitAndReadLogs` (create, then visit, then read the logs), `DeleteThenVisit` and `CreateTwice` (create the same URL twice).

The foreign pieces become parameters:
- the HMAC is a function `(message, key) -> digest`;
- the reachability check behind `validateUrl` is a predicate `reachable`;
- the clock is a number `now`;
- the request's user is an `Option<UserId>`, where `None` means no user was authenticated;
- the request's protocol and host are strings.

## Behaviour of the code worth knowing

- **A URL without a scheme is accepted.**
  - `validateUrl` adds `https://` only to the address it probes. The handler then stores the URL exactly as given.
  - So `example.com` passes validation if `https://example.com` answers (`SchemelessUrlPassesValidation`).
  - On create, the schema then rejects the record (`ValidationFailed`).
  - On update, `validateUrl` runs, but `findOneAndUpdate` is called without `runValidators`, so the schema's validators do not; the record is stored without a scheme (`UpdateMayStoreSchemelessUrl`).
  - For this reason, a scheme on `originalUrl` is not part of the store invariant.
- **There is no collision retry.** A duplicate code or short URL fails the create with "Short code already exists" (`ShortCodeExists`).
- **`originalUrl` has no unique index.** Dedup is only the lookup the handler does before inserting, and an update can make two records share an original URL (`OriginalUrlNotUnique`).
- **A visit changes `updatedAt`.** The click counter is incremented through `findOneAndUpdate` on a schema with timestamps.
- **Deleting a record leaves its click logs in place.** Nothing stops a later record from reusing the code.

## Model

| member | source | states |
|---|---|---|
| GenerateUrl.AlphabetLength | apps/api/src/utils/generate-url.ts:4-6 | BASE, the alphabet's length, is 62 |
| GenerateUrl.AlphabetMember | apps/api/src/utils/generate-url.ts:4-5 | a character is in the alphabet exactly when it is a digit, a lower-case letter or an upper-case letter, and its position is its digit value |
| GenerateUrl.ToBase62 | apps/api/src/utils/generate-url.ts:10-23 | the loop computes Base62(num): the repeated remainders by 62, most significant first, or "0" when the loop never runs |
| GenerateUrl.Base62InAlphabet | apps/api/src/utils/generate-url.ts:10-23 | the result is never empty, and every character of it is in ALPHABET |
| GenerateUrl.Base62NonPositive | apps/api/src/utils/generate-url.ts:14-21 | every num <= 0 gives "0" |
| GenerateUrl.ZeroDigitValue | apps/api/src/utils/generate-url.ts:18-21 | 0 gives "0", and "0" reads back as 0 |
| GenerateUrl.Base62RoundTrip | apps/api/src/utils/generate-url.ts:13-17 | reading toBase62(n) most significant digit first in base 62 gives back n, for every n >= 0 |
| GenerateUrl.Base62Injective | apps/api/src/utils/generate-url.ts:10-23 | distinct naturals get distinct strings |
| GenerateUrl.Base62Canonical | apps/api/src/utils/generate-url.ts:14-17 | for n > 0 the first digit is not '0', and 62^(len-1) <= n < 62^len |
| GenerateUrl.Base62OfValue | apps/api/src/utils/generate-url.ts:10-23 | every canonical base-62 string is toBase62 of its own value, so the outputs are exactly the canonical strings |
| GenerateUrl.SecretKey | apps/api/src/utils/generate-url.ts:8 | the key is never empty; a non-empty configured key is used as is; an absent or empty one gives the default key |
| GenerateUrl.JsSubstring | apps/api/src/utils/generate-url.ts:31 | substring with clamped and ordered bounds is never longer than the string and takes only characters from it |
| GenerateUrl.GenerateBase62Hash | apps/api/src/utils/generate-url.ts:25-32 | the code is no longer than the digest of toBase62(num) and is made of the digest's characters |
| GenerateUrl.GeneratedCodeWindow | apps/api/src/utils/generate-url.ts:31 | for length >= 1 and a 64-character digest, the code is digest[max(0, 62 div L - L) .. 62 div L], of length min(L, 62 div L) |
| GenerateUrl.GeneratedCodeAtFive | apps/api/src/utils/generate-url.ts:31 | for length 5 the code is exactly digest characters 7 to 11 |
| GenerateUrl.GeneratedCodeIsHex | apps/api/src/utils/generate-url.ts:27-31 | with a lower-case hex digest every code character is in 0-9a-f and so in ALPHABET |
| UrlModel.MatchesHttpSchemePrefix | apps/api/src/models/url.model.ts:16-19 | the validator's pattern holds exactly of the strings starting with "http://" or "https://" |
| UrlModel.NewUrlRecord | apps/api/src/models/url.model.ts:35-38 | a new document starts with 0 clicks, and createdAt and updatedAt are both the insertion time |
| UrlModel.FindOne | apps/api/src/controllers/url.controller.ts:174 | findOne gives no record exactly when none matches; otherwise it gives the first match in natural order |
| UrlModel.FindAll | apps/api/src/controllers/url.controller.ts:79-81 | find returns the matching records and no others, never more than the collection holds |
| UrlModel.FindAllCount | apps/api/src/controllers/url.controller.ts:79-81 | each matching record occurs in the result exactly as often as in the collection, and no other record occurs |
| UrlModel.FindByCodeUnique | apps/api/src/models/url.model.ts:5-9 | under the unique index, looking up a stored record's code finds that record |
| UrlModel.FindOwnedIsFindByCode | apps/api/src/controllers/url.controller.ts:102-105 | the owner-scoped lookup succeeds exactly when the code's record belongs to the caller, and then finds the same record |
| ClickModel.NewClickLog | apps/api/src/controllers/url.controller.ts:238-242 | the log keeps the code and the IP address, and clickedAt takes its default, the current time; the log is valid exactly when the code is non-empty |
| ClickModel.UserAgentNotStored | apps/api/src/models/click.model.ts:3-21 | two visits that differ only in user agent produce the same log |
| ClickModel.LogsFor | apps/api/src/controllers/url.controller.ts:214-216 | the query returns the logs carrying the code and no others, never more than the collection holds |
| ClickModel.LogsForCount | apps/api/src/controllers/url.controller.ts:214-216 | each log occurs in the result exactly as many times as in the collection when it carries the code, and never otherwise, so identical visits are all counted |
| ClickModel.LogsForAppend | apps/api/src/controllers/url.controller.ts:238-242 | appending a log adds it to its own code's logs and to no other code's |
| UrlController.HttpStatus | apps/api/src/controllers/url.controller.ts:8-259 | each outcome maps to the status the handlers send: 201 exactly for a creation, 302 exactly for a redirect, 401, 400 and 404 exactly for Unauthorized, InvalidUrl and NotFound, 200 for the other successes, and none for the errors whose status the error middleware assigns |
| UrlController.View | apps/api/src/controllers/url.controller.ts:79-81 | a listed record carries every stored field except createdBy |
| UrlController.ViewHidesOwner | apps/api/src/controllers/url.controller.ts:79-81 | two records that differ only in owner give the same view |
| UrlController.IsValidUrlScheme | apps/api/src/controllers/url.controller.ts:291-296 | true exactly when the URL starts with "http://" or "https://" |
| UrlController.FetchTarget | apps/api/src/controllers/url.controller.ts:298-301 | the probed address always has a scheme: it is the URL itself when it already has one, otherwise "https://" followed by the URL |
| UrlController.ValidateUrl | apps/api/src/controllers/url.controller.ts:298-316 | a URL with a scheme is valid exactly when it answers itself; one without is valid exactly when "https://" followed by it answers |
| UrlController.SchemelessUrlPassesValidation | apps/api/src/controllers/url.controller.ts:298-301 | a URL without a scheme passes whenever its https form answers, yet it fails the schema's originalUrl pattern |
| UrlController.ShortCodeFor | apps/api/src/controllers/url.controller.ts:47 | the minted code is made of characters of the digest of toBase62(now mod 10000) under the configured or default key, and is no longer than that digest |
| UrlController.ShortUrlFor | apps/api/src/controllers/url.controller.ts:49-50 | the short URL ends with the code, and its length is the sum of its parts |
| UrlController.MintedCodeFitsSchema | apps/api/src/controllers/url.controller.ts:47 | with a full digest the minted code is digest characters 7 to 11, so it meets the schema's length bounds of 4 to 10 |
| UrlController.ShortUrlHasScheme | apps/api/src/controllers/url.controller.ts:49-50 | over http or https, the short URL passes the schema's pattern |
| UrlController.RemoveAt | apps/api/src/controllers/url.controller.ts:102-105 | only the deleted record goes; the others keep their order |
| UrlController.WithOriginalUrl | apps/api/src/controllers/url.controller.ts:146-150 | only the matched record changes, and in it only originalUrl and updatedAt |
| UrlController.WithClick | apps/api/src/controllers/url.controller.ts:244-247 | only the matched record changes: its clicks go up by exactly 1 and its updatedAt is set |
| UrlController.InsertKeepsInvariant | apps/api/src/controllers/url.controller.ts:269-282 | inserting a schema-valid record that hits no unique index keeps the store invariant |
| UrlController.RemoveKeepsInvariant | apps/api/src/controllers/url.controller.ts:102-112 | deleting keeps the invariant, and afterwards no record carries the deleted code |
| UrlController.UpdateKeepsInvariant | apps/api/src/controllers/url.controller.ts:146-158 | replacing an original URL keeps the invariant |
| UrlController.ClickKeepsInvariant | apps/api/src/controllers/url.controller.ts:235-247 | appending a visit's log and incrementing the counter together keep clicks within the code's logs |
| UrlController.UpdateMayStoreSchemelessUrl | apps/api/src/controllers/url.controller.ts:137-150 | an update can store "example.com": it passes validation and the invariant still holds, but the record fails the schema |
| UrlController.OriginalUrlNotUnique | apps/api/src/models/url.model.ts:13-22 | a valid store can hold two records with one original URL |
| UrlController.UrlStore.CheckOriginalUrlExistance | apps/api/src/controllers/url.controller.ts:286-289 | gives nothing exactly when no record, from any owner, has that original URL; otherwise it gives a stored record with it |
| UrlController.UrlStore.SaveUrlToDb | apps/api/src/controllers/url.controller.ts:261-284 | a schema failure gives ValidationFailed; a clash on code or short URL gives ShortCodeExists; either way nothing is stored; otherwise exactly the new record is appended |
| UrlController.UrlStore.CreateShortUrl | apps/api/src/controllers/url.controller.ts:8-65 | no user gives 401, a failed validation gives 400, and an existing original URL returns that record's short URL; these leave the store unchanged; otherwise the record with the minted code, 0 clicks and the caller as owner is saved, or the save's error is returned unchanged |
| UrlController.UrlStore.GetUserUrls | apps/api/src/controllers/url.controller.ts:67-86 | no user gives 401; otherwise the list is the views, without createdBy, of the caller's records in natural order, each record listed as often as it is stored and no other record listed |
| UrlController.UrlStore.DeleteShortUrl | apps/api/src/controllers/url.controller.ts:88-119 | no user gives 401 and a miss on (code, caller) gives 404, both leaving the store unchanged; otherwise only that record is removed, the logs stay, and the code no longer resolves |
| UrlController.UrlStore.UpdateUrlData | apps/api/src/controllers/url.controller.ts:121-164 | no user gives 401, a failed validation gives 400 and a miss on (code, caller) gives 404, all leaving the store unchanged; otherwise only that record's original URL and updatedAt change, and the updated record is returned |
| UrlController.UrlStore.GetDataByShortCode | apps/api/src/controllers/url.controller.ts:166-186 | gives 404 exactly when no record has the code; otherwise it gives the record with that code, whoever owns it |
| UrlController.UrlStore.GetClickLogsByShortCode | apps/api/src/controllers/url.controller.ts:188-224 | no user gives 401 and a code the caller does not own gives 404; otherwise it gives exactly the logs for the code and the record's counter, which never exceeds the number of those logs |
| UrlController.UrlStore.RedirectToOriginalUrl | apps/api/src/controllers/url.controller.ts:225-259 | an unknown code gives 404, with no log and no increment; otherwise one log is appended, that record's clicks go up by 1, and the redirect goes to the original URL |
| UrlController.VisitAndReadLogs | apps/api/src/controllers/url.controller.ts:225-259 | visiting a stored code redirects to its original URL, and its owner then sees exactly one more click and one more log |
| UrlController.CreateVisitAndReadLogs | apps/api/src/controllers/url.controller.ts:235-250 | after a successful create, the minted code is valid, visiting it redirects to the long URL, and the owner then sees 1 click and one more log for the code |
| UrlController.DeleteThenVisit | apps/api/src/controllers/url.controller.ts:102-112 | after a successful delete, visiting the code gives 404 and logs nothing |
| UrlController.CreateTwice | apps/api/src/controllers/url.controller.ts:35-43 | after a successful create, creating the same long URL again, by any user, returns the first short URL and stores no second record |

## Left out

- The network: the HEAD request in `validateUrl` (apps/api/src/controllers/url.controller.ts:302-315) becomes the predicate `reachable`. Timeouts and logging are not modelled.
- HMAC-SHA256 and CryptoJS become a function parameter. Loading `HMAC_SECRET_KEY` from the environment is not modelled; its value is the `secretEnv` argument of create, which `SecretKey` turns into the signing key.
- `Date.now()` becomes a parameter `now`, one value per handler call. The source reads the clock more than once in a request: create reads it for the seed and again for the timestamps, and a visit reads it for the log's `clickedAt` default and again for the timestamps of the `$inc` update. The model uses the one value for all of them.
- Express is not modelled: requests, responses, `next`, the JSON envelope and the messages. Responses are the `Response` datatype.
- The error-handler middleware is not part of this model, so the status of `ShortCodeExists` and `ValidationFailed` is left open.
- Authentication, users, tokens, CORS, the routes, the earlier `src/` draft and the web app are out of scope.
- Concurrency is not modelled: each handler is one atomic step. The race between `checkOriginalUrlExistance` and `saveUrlToDB`, and interleaved visits, are left out.
- Numbers: the seed is an unbounded integer. JavaScript's 2^53 limit and floating-point division are left out, and so is a `length` that is not an integer.
- `title` and `description` are computed and passed to `create`, but the schema declares neither, so neither is stored. They are not modelled.
- Store failures other than validation and duplicate keys (lost connection, timeouts) are left out, and so is the generic error path they take.
- A body field `longUrl` that is missing or not a string is out of scope: the model takes strings.
- `__v`, the document id `_id`, and the click logs' own `createdAt`/`updatedAt` are not in the `Response` values, although the source sends some of them: the list and the logs keep `_id`, and the single-record and update responses send the whole document, `__v` included.
- The click-log schema's `required` check on a visit is not modelled separately. A visit only logs a code already stored, and stored codes are non-empty.
