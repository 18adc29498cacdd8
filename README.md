# pinco, modelled in Dafny

pinco is a Spring Boot service for location notes ("pins") on a map. Users sign up, log in, and post pins with a content text and a point. A pin is public or private and can be soft-deleted. Users bookmark and like pins and attach keyword tags to them.

Every `/api` request first passes a custom authentication filter. The filter reads an API key and an access token (a JWT, RFC 7519, signed with HMAC-SHA-256 as in section 3.2 of RFC 7518). It resolves them to a user and can silently reissue the access token. An ordered table of route rules then decides which paths need a user. Services raise error codes from one table, and an exception handler turns each code into a status and a JSON body.

This project models that core:

- **Filter** (`AuthenticationFilter`, helped by `RequestContext` and `Http`):
  - the route bypass;
  - the credential fallback order;
  - token-then-key resolution;
  - reissue;
  - the 401 writer.
- **Route rules** (`SecurityConfig`): the first-match rule table and the 401/403 handlers.
- **Token provider** (`Jwt`): issue, verification, payload and remaining lifetime, over an abstract codec.
- **Pins** (`Pins`, `PinRepositories`, `PinService`):
  - the entity and its flags;
  - the public/accessible query pairs;
  - ownership checks;
  - like-count refresh;
  - the bulk soft delete.
- **Bookmarks, likes, tags and pin-tag links** (`Bookmarks`, `BookmarkService`, `LikesTable`, `LikesService`, `Tags`, `TagService`, `PinTags`, `PinTagService`): their tables, soft-delete state machines and services.
- **User service** (`Users`, `UserService`):
  - sign-up validation;
  - the API-key draw loop;
  - login;
  - edits;
  - withdrawal with its cascade;
  - the "my pins" split and the like total.
- **Errors** (`ErrorCodes`, `ExceptionHandler`, `ValidationFields`): the error-code table and the exception-to-response mapping.
- **Java semantics** (`JavaNumbers`, `Text`, `Tables`): `Long`/`int` wrap-around, `Double.toInt`, blank and trim, `split(limit = 3)`, decimal printing and parsing, and the row-at-a-time searches of derived queries.

Classes model entities whose fields the source updates in place:

- `Pin`, `Bookmark` and `PinTag`;
- the repositories holding them;
- the servlet `Response` and `Rq`.

Users, tags and likes are row values in sequences; the service changes them by writing rows. Pure logic (the filter's decision, the rule table, the token provider, the error table, the query filters) is written as functions. These imperative paths are methods proved equal to those functions:

- the filter's `var` fallbacks;
- the API-key retry loop;
- `retainAll`;
- the per-row updates.

`processTagLinks` is specified by what it leaves behind rather than by a function (`PinTagService.ProcessTagLinks`). Afterwards:

- every non-blank keyword has its tag, in input order, and the pin has a live link to it;
- an old link's flag changes only if it is this pin's link to one of the keywords, and then it is live;
- every added link is a live link of this pin to one of the keywords;
- every added tag carries one of the keywords;
- nothing else changes.

Where the service's documented behaviour and its Kotlin/Java code differ, the model follows the code:

- `GET /api/pins/**` is let through by the filter before any credential is read. An owner's private pin is therefore `PIN_NOT_FOUND` on these routes, even with valid credentials (`SecurityConfig.PinReadsHaveNoActor`).
- The filter's own 401 body is one JSON line without a `data` field. The entry-point and access-denied handlers write `data: null`.
- `GET /api/tags/**` is `permitAll` in the rule table, but the filter does not bypass it. A malformed `Authorization` header there is answered 401 (`SecurityConfig.TagReadWithMalformedHeaderRefused`).
- The rule table compares methods as written, while the filter ignores case. A lower-case `get` of `/api/pins` is not bypassed and, without credentials, is refused by the rules (`SecurityConfig.LowerCaseGetOfPinsRefused`).
- `PinTag.kt` declares no `deleted` flag, but `PinTagService.java` reads, sets and clears one. The model gives links that flag.
- Where a Java file and a Kotlin file define the same class, the Kotlin one is modelled.

## Model

| member | source | states |
|---|---|---|
| AuthenticationFilter.FirstNonBlank | src/main/java/com/back/pinco/global/security/CustomAuthenticationFilter.kt:50-68 | the value a fallback chain settles on is "" or a non-blank candidate, and "" whenever every source is blank |
| AuthenticationFilter.FirstNonBlankIsFirst | src/main/java/com/back/pinco/global/security/CustomAuthenticationFilter.kt:50-68 | a non-blank source preceded only by blank ones is the one used: sources take precedence in their written order |
| AuthenticationFilter.Write401 | src/main/java/com/back/pinco/global/security/CustomAuthenticationFilter.kt:131-142 | a committed response is left as it is; otherwise it gets the code's status, the JSON content type and the one-line body, and is flushed |
| AuthenticationFilter.FallBack | src/main/java/com/back/pinco/global/security/CustomAuthenticationFilter.kt:64-68 | a blank value is replaced by the named header, then by the named cookie; a non-blank value is kept |
| AuthenticationFilter.ReadCredentials | src/main/java/com/back/pinco/global/security/CustomAuthenticationFilter.kt:50-68 | the imperative extraction yields exactly `ExtractCredentials`: refusal for a non-Bearer `Authorization` header, else the API key from `X-API-Key`, Bearer word 2, `apiKey` header, `apiKey` cookie, and the token from Bearer word 3, `accessToken` header, `accessToken` cookie |
| AuthenticationFilter.Reissue | src/main/java/com/back/pinco/global/security/CustomAuthenticationFilter.kt:113-117 | the response gains a fresh access token for the user as the `accessToken` cookie and as the `accessToken` header |
| AuthenticationFilter.Authenticate | src/main/java/com/back/pinco/global/security/CustomAuthenticationFilter.kt:70-127 | the chain is called exactly when the resolved outcome is not a rejection, the security context holds the user with `ROLE_USER` exactly when one was resolved, and the response changes as that outcome prescribes |
| AuthenticationFilter.DoFilterInternal | src/main/java/com/back/pinco/global/security/CustomAuthenticationFilter.kt:27-128 | one run either calls the chain or writes one 401 and stops; which, the authentication it installs and the response it leaves are those of the filter's decision `Decide` |
| AuthenticationFilter.BypassIgnoresCredentials | src/main/java/com/back/pinco/global/security/CustomAuthenticationFilter.kt:32-47 | OPTIONS, pin reads, non-`/api/` paths and the three permit paths pass through whatever headers and cookies they carry, a malformed `Authorization` header included |
| AuthenticationFilter.ReissueExactlyWhen | src/main/java/com/back/pinco/global/security/CustomAuthenticationFilter.kt:113-117 | a new access token is issued if and only if a token was sent, it did not resolve to a user, and an API key was sent and resolved |
| AuthenticationFilter.ApiKeyPrecedence | src/main/java/com/back/pinco/global/security/CustomAuthenticationFilter.kt:50-66 | a non-blank `X-API-Key` header wins over every other source, and a non-blank Bearer key wins over the fallback header and cookie |
| AuthenticationFilter.MalformedAuthorizationRejected | src/main/java/com/back/pinco/global/security/CustomAuthenticationFilter.kt:53-58 | on a guarded request a non-blank `Authorization` header not starting with "Bearer " is 401 `INVALID_ACCESS_TOKEN`, whatever the cookies |
| AuthenticationFilter.NoCredentialsIsAnonymous | src/main/java/com/back/pinco/global/security/CustomAuthenticationFilter.kt:70-77 | a request goes on anonymously if and only if it carries neither an API key nor an access token |
| AuthenticationFilter.AccessTokenHeaderRead | src/main/java/com/back/pinco/global/security/CustomAuthenticationFilter.kt:67-68 | with no `Authorization` header, a non-blank `accessToken` header is the token used |
| AuthenticationFilter.IssuedAccessTokenResolves | src/main/java/com/back/pinco/global/security/CustomAuthenticationFilter.kt:80-94 | an unexpired access token issued for a stored user authenticates that user without reissue and without an API key |
| AuthenticationFilter.IssuedAccessTokenAuthenticates | src/main/java/com/back/pinco/global/security/CustomAuthenticationFilter.kt:27-128 | the same end to end through the filter, for the token sent in the `accessToken` header |
| AuthenticationFilter.RefreshTokenIsNoAccessToken | src/main/java/com/back/pinco/global/security/CustomAuthenticationFilter.kt:80-110 | a refresh token sent as access token is 401 without an API key, and with a resolving key the key's owner is authenticated and given a new access token |
| AuthenticationFilter.ReissuedTokenAuthenticates | src/main/java/com/back/pinco/global/security/CustomAuthenticationFilter.kt:113-117 | the reissued token resolves to the same user until it expires |
| RequestContext.SessionCookie | src/main/java/com/back/pinco/global/rq/Rq.kt:38-48 | every cookie set has path "/", HttpOnly, SameSite Lax and Secure as the request; a null or blank value becomes "" with max-age 0, any other value has no max-age |
| RequestContext.Rq.Actor | src/main/java/com/back/pinco/global/rq/Rq.kt:16-24 | the actor is present exactly when the authentication's principal is a user, and it is that user |
| RequestContext.Rq.GetHeader | src/main/java/com/back/pinco/global/rq/Rq.kt:26-27 | the header's value when the request has it, otherwise the default |
| RequestContext.Rq.GetCookieValue | src/main/java/com/back/pinco/global/rq/Rq.kt:32-36 | the default, or the non-blank value of a cookie of that name; never the default when a non-blank namesake exists |
| RequestContext.Rq.CookieValue | src/main/java/com/back/pinco/global/rq/Rq.kt:32-36 | the default, or the non-blank value of a cookie of that name; never the default when a non-blank namesake exists |
| RequestContext.Rq.SetHeader | src/main/java/com/back/pinco/global/rq/Rq.kt:29-30 | every response header of that name is replaced by the one given |
| RequestContext.Rq.SetCookie | src/main/java/com/back/pinco/global/rq/Rq.kt:38-51 | exactly one cookie, `SessionCookie(name, value, secure)`, is added to the response |
| RequestContext.Rq.DeleteCookie | src/main/java/com/back/pinco/global/rq/Rq.kt:53 | is `setCookie(name, null)`: an empty cookie of that name expiring at once |
| RequestContext.CookieSkipsBlank | src/main/java/com/back/pinco/global/rq/Rq.kt:32-36 | a blank-valued cookie, or one of another name, is passed over as if absent |
| RequestContext.CookieFirstWins | src/main/java/com/back/pinco/global/rq/Rq.kt:32-36 | the first usable cookie of the name wins over any later namesake |
| Http.HeaderValue | src/main/java/com/back/pinco/global/rq/Rq.kt:26-27 | a request header is found by case-insensitive name, and absent only when no header has that name |
| Http.Response.AddCookie | src/main/java/com/back/pinco/global/rq/Rq.kt:50 | the cookie is appended and nothing else changes |
| Http.Response.SetHeader | src/main/java/com/back/pinco/global/rq/Rq.kt:29-30 | every header of that name is dropped, the new one appended, and a lookup of the name gives the new value |
| Http.Response.SetContentType | src/main/java/com/back/pinco/global/security/CustomAuthenticationFilter.kt:131-142 | the content type becomes the one given |
| Http.Response.Flush | src/main/java/com/back/pinco/global/security/CustomAuthenticationFilter.kt:131-142 | the response is committed |
| Http.Response.SetStatus | src/main/java/com/back/pinco/global/security/CustomAuthenticationFilter.kt:131-142 | the status becomes the one given |
| Http.Response.Write | src/main/java/com/back/pinco/global/security/CustomAuthenticationFilter.kt:131-142 | the text is appended to the body |
| SecurityConfig.AuthorizeUnfold | src/main/java/com/back/pinco/global/security/SecurityConfig.kt:36-52 | the first-match walk: the four `permitAll` rules, then `/api/**` authenticated, then everything else permitted |
| SecurityConfig.AuthorizeCharacterization | src/main/java/com/back/pinco/global/security/SecurityConfig.kt:36-52 | authentication is required if and only if the method is not OPTIONS, the path is under `/api`, it is not a permit path, and it is not a GET of pins or tags |
| SecurityConfig.HandleAuthEntryPoint | src/main/java/com/back/pinco/global/security/SecurityConfig.kt:79-100 | status 401 with the `AUTH_REQUIRED` body |
| SecurityConfig.HandleAccessDenied | src/main/java/com/back/pinco/global/security/SecurityConfig.kt:103-123 | status 403 with the `ACCESS_DENIED` body |
| SecurityConfig.Serve | src/main/java/com/back/pinco/global/security/SecurityConfig.kt:36-73 | the filter followed by the rules refuses a request only ever with 401 |
| SecurityConfig.GuardedRoutesHaveActor | src/main/java/com/back/pinco/global/security/SecurityConfig.kt:42 | a route that needs authentication is only ever served with a user |
| SecurityConfig.PinReadsHaveNoActor | src/main/java/com/back/pinco/global/security/CustomAuthenticationFilter.kt:38-41 | every GET of `/api/pins/**` reaches the controller with no actor |
| SecurityConfig.TagReadWithMalformedHeaderRefused | src/main/java/com/back/pinco/global/security/CustomAuthenticationFilter.kt:53-58 | a GET of `/api/tags` with a malformed `Authorization` header is answered 401 by the filter despite the `permitAll` rule |
| SecurityConfig.AnonymousPinCreationRefused | src/main/java/com/back/pinco/global/security/SecurityConfig.kt:42 | a POST of `/api/pins` without credentials passes the filter and is answered 401 `AUTH_REQUIRED` |
| SecurityConfig.LowerCaseGetOfPinsRefused | src/main/java/com/back/pinco/global/security/SecurityConfig.kt:40 | a lower-case `get` of `/api/pins` without credentials matches no `permitAll` rule and is answered 401 |
| Jwt.JwtTokenProvider.Create | src/main/java/com/back/pinco/global/security/JwtTokenProvider.kt:15-24 | a provider exists exactly for a key of at least 32 bytes; lifetimes are the configured seconds times 1000, with `Long` wrap-around |
| Jwt.JwtTokenProvider.GenerateAccessToken | src/main/java/com/back/pinco/global/security/JwtTokenProvider.kt:27-36 | a token is produced exactly when id, email and name are all present (`Map.of` rejects nulls) |
| Jwt.JwtTokenProvider.GenerateRefreshToken | src/main/java/com/back/pinco/global/security/JwtTokenProvider.kt:38-40 | a token is produced exactly when the id is present |
| Jwt.JwtTokenProvider.Parse | src/main/java/com/back/pinco/global/security/JwtTokenProvider.kt:54-63 | a token that parses is non-blank, signed with this provider's key and not expired |
| Jwt.JwtTokenProvider.GetUserId | src/main/java/com/back/pinco/global/security/JwtTokenProvider.kt:65-67 | an id is read only from a valid token, and it is a `Long` |
| Jwt.JwtTokenProvider.PayloadOrNull | src/main/java/com/back/pinco/global/security/JwtTokenProvider.kt:69-81 | a payload is returned only for a valid token; its id is the subject and its email and name are the token's claims |
| Jwt.JwtTokenProvider.GetRemainingValidityMillis | src/main/java/com/back/pinco/global/security/JwtTokenProvider.kt:88-96 | never negative; when positive the token is valid and now plus the result is its expiry |
| Jwt.AccessTokenContents | src/main/java/com/back/pinco/global/security/JwtTokenProvider.kt:27-51 | an access token carries exactly `id`, `email`, `userName` and `role = ROLE_USER`, subject `id`, issue time now and expiry now plus the access lifetime |
| Jwt.RefreshTokenContents | src/main/java/com/back/pinco/global/security/JwtTokenProvider.kt:38-51 | a refresh token carries only `id` |
| Jwt.BuiltTokenValidity | src/main/java/com/back/pinco/global/security/JwtTokenProvider.kt:42-63 | a built token is valid exactly up to its expiry second, which lies within one second before issue time plus lifetime |
| Jwt.AccessTokenRoundTrip | src/main/java/com/back/pinco/global/security/JwtTokenProvider.kt:27-81 | until it expires, an access token gives back the user's id, email, name and role `ROLE_USER` |
| Jwt.RefreshTokenHasNoPayload | src/main/java/com/back/pinco/global/security/JwtTokenProvider.kt:69-81 | a refresh token never yields a payload |
| Jwt.ForeignKeyRejected | src/main/java/com/back/pinco/global/security/JwtTokenProvider.kt:54-63 | a token signed with another key is never valid |
| Pins.Pin.constructor | src/main/java/com/back/pinco/domain/pin/entity/Pin.kt:24-53 | a new pin has no likes, is public and is not deleted |
| Pins.Pin.SetDeleted | src/main/java/com/back/pinco/domain/pin/entity/Pin.kt:57-59 | only `deleted` changes, to true |
| Pins.Pin.UnSetDeleted | src/main/java/com/back/pinco/domain/pin/entity/Pin.kt:62-64 | only `deleted` changes, to false |
| Pins.Pin.TogglePublic | src/main/java/com/back/pinco/domain/pin/entity/Pin.kt:67-69 | only `isPublic` changes, to its negation |
| Pins.Pin.Update | src/main/java/com/back/pinco/domain/pin/entity/Pin.kt:71-74 | only `content` changes |
| Pins.ToggleTwice | src/main/java/com/back/pinco/domain/pin/entity/Pin.kt:67-69 | toggling twice restores the pin |
| Pins.DeleteThenRestore | src/main/java/com/back/pinco/domain/pin/entity/Pin.kt:57-64 | a delete followed by a restore leaves the pin live and otherwise unchanged |
| PinRepositories.Select | src/main/java/com/back/pinco/domain/pin/repository/PinRepository.kt:10-157 | a query returns exactly the rows in scope that are live and public, or the actor's own |
| PinRepositories.SelectExcludesDeleted | src/main/java/com/back/pinco/domain/pin/repository/PinRepository.kt:10-157 | no query returns a deleted pin |
| PinRepositories.AccessibleExtendsPublic | src/main/java/com/back/pinco/domain/pin/repository/PinRepository.kt:10-136 | for the same scope the actor's query contains the anonymous one, and the extra pins are exactly the actor's live private pins in scope |
| PinRepositories.PinRepository.FindVisibleById | src/main/java/com/back/pinco/domain/pin/repository/PinRepository.kt:139-157 | the pin with that id if it is live and visible to the viewer, null exactly when there is none |
| PinRepositories.PinRepository.FindById | src/main/java/com/back/pinco/domain/pin/service/PinService.kt:104-107 | the pin with that id whatever its flags, null exactly when there is none |
| PinRepositories.PinRepository.Save | src/main/java/com/back/pinco/domain/pin/service/PinService.kt:28-36 | a new pin with the next id, public, live and without likes, is appended |
| PinRepositories.PinRepository.RefreshLikeCount | src/main/java/com/back/pinco/domain/pin/repository/PinRepository.kt:160-168 | the pin with that id gets the number of likes rows for it; nothing else changes |
| PinRepositories.PinRepository.RefreshLikeCountBatch | src/main/java/com/back/pinco/domain/pin/repository/PinRepository.kt:171-175 | each listed pin gets its likes count; the other pins keep theirs |
| PinRepositories.PinRepository.UpdatePinsToDeletedByUserId | src/main/java/com/back/pinco/domain/pin/repository/PinRepository.kt:178-179 | every pin of the user becomes deleted, the others are untouched, and the result counts the pins that were live |
| PinService.Write | src/main/java/com/back/pinco/domain/pin/service/PinService.kt:28-36 | a null actor is `PIN_CREATE_FAILED` with no row added; otherwise a new public pin of the actor is appended |
| PinService.FindById | src/main/java/com/back/pinco/domain/pin/service/PinService.kt:38-46 | the pin visible to the actor (public query without one) or `PIN_NOT_FOUND` exactly when there is none |
| PinService.FindIn | src/main/java/com/back/pinco/domain/pin/service/PinService.kt:51-80 | `findAll`, `findNearPins`, `findScreenPins` return exactly the live pins in the area the caller may see |
| PinService.FindByUserId | src/main/java/com/back/pinco/domain/pin/service/PinService.kt:82-88 | exactly the writer's pins the caller may see |
| PinService.FindByUserIdDate | src/main/java/com/back/pinco/domain/pin/service/PinService.kt:90-101 | only the writer's visible pins of the year and month obtained by Kotlin's `toInt` of the arguments |
| PinService.Update | src/main/java/com/back/pinco/domain/pin/service/PinService.kt:104-119 | a missing id is `PIN_NOT_FOUND`, a missing or foreign actor `PIN_NO_PERMISSION`; only the owner's pin gets the new content |
| PinService.ChangePublic | src/main/java/com/back/pinco/domain/pin/service/PinService.kt:122-135 | the visibility flips exactly when the pin's owner is the actor; otherwise `PIN_NOT_FOUND` or `PIN_NO_PERMISSION` and nothing changes |
| PinService.DeleteById | src/main/java/com/back/pinco/domain/pin/service/PinService.kt:137-153 | the owner's pin becomes deleted; missing pin or wrong actor gives the error and no flag changes |
| PinService.UpdateDeleteByUser | src/main/java/com/back/pinco/domain/pin/service/PinService.kt:156 | soft-deletes the user's pins and returns how many were live |
| PinService.ReadsByActor | src/main/java/com/back/pinco/domain/pin/service/PinService.kt:51-80 | without an actor reads show live public pins only; with one they show those and, on top, only the actor's private pins |
| PinService.FindByIdVisibility | src/main/java/com/back/pinco/domain/pin/service/PinService.kt:38-46 | the owner finds a live pin, nobody without an actor finds a private one, and nobody finds a deleted one |
| Bookmarks.Bookmark.constructor | src/main/java/com/back/pinco/domain/bookmark/entity/Bookmark.kt:27-43 | a new bookmark is not deleted |
| Bookmarks.Bookmark.SetDeleted | src/main/java/com/back/pinco/domain/bookmark/entity/Bookmark.kt:47-49 | the flag becomes true |
| Bookmarks.Bookmark.Restore | src/main/java/com/back/pinco/domain/bookmark/entity/Bookmark.kt:52-54 | the flag becomes false |
| Bookmarks.LiveOf | src/main/java/com/back/pinco/domain/bookmark/repository/BookmarkRepository.kt:16 | exactly the user's non-deleted bookmarks |
| Bookmarks.FirstLive | src/main/java/com/back/pinco/domain/bookmark/repository/BookmarkRepository.kt:34 | a live bookmark of the user on the pin, absent exactly when none exists |
| Bookmarks.BookmarkRepository.FindByUserAndDeletedFalse | src/main/java/com/back/pinco/domain/bookmark/repository/BookmarkRepository.kt:16 | exactly the user's non-deleted bookmarks |
| Bookmarks.BookmarkRepository.FindByUserAndPin | src/main/java/com/back/pinco/domain/bookmark/repository/BookmarkRepository.kt:25 | the (user, pin) bookmark whatever its flag, null exactly when none exists |
| Bookmarks.BookmarkRepository.FindByUserAndPinAndDeletedFalse | src/main/java/com/back/pinco/domain/bookmark/repository/BookmarkRepository.kt:34 | the (user, pin) bookmark only when it is not deleted |
| Bookmarks.BookmarkRepository.FindById | src/main/java/com/back/pinco/domain/bookmark/service/BookmarkService.kt:81-88 | the bookmark with that id, null exactly when none exists |
| Bookmarks.BookmarkRepository.Save | src/main/java/com/back/pinco/domain/bookmark/service/BookmarkService.kt:49-53 | a new live bookmark with the next id is appended and found by its pair |
| Bookmarks.LookupsAgree | src/main/java/com/back/pinco/domain/bookmark/repository/BookmarkRepository.kt:16-39 | with (user, pin) unique, the deleted-aware lookup is the deleted-agnostic one filtered by the flag, and `existsByUserAndPin` ignores the flag |
| BookmarkService.ReviveOrInsert | src/main/java/com/back/pinco/domain/bookmark/service/BookmarkService.kt:38-53 | a live bookmark is `BOOKMARK_ALREADY_EXISTS` with nothing changed; a deleted one is restored in place; otherwise a new one is appended |
| BookmarkService.AddBookmark | src/main/java/com/back/pinco/domain/bookmark/service/BookmarkService.kt:32-56 | unknown user, then a pin the user cannot see, then a live duplicate are refused in that order with no change; otherwise the (user, pin) bookmark is live afterwards |
| BookmarkService.GetMyBookmarks | src/main/java/com/back/pinco/domain/bookmark/service/BookmarkService.kt:64-72 | unknown user is `BOOKMARK_INVALID_USER_INPUT`; otherwise exactly the user's live bookmarks |
| BookmarkService.OwnedBy | src/main/java/com/back/pinco/domain/bookmark/service/BookmarkService.kt:81-88 | a bookmark may be touched exactly when it exists and is the caller's; otherwise `BOOKMARK_NOT_FOUND` |
| BookmarkService.DeleteBookmark | src/main/java/com/back/pinco/domain/bookmark/service/BookmarkService.kt:81-92 | the caller's bookmark gets the flag set; a missing or foreign one is `BOOKMARK_NOT_FOUND`; no other flag changes |
| BookmarkService.RestoreBookmark | src/main/java/com/back/pinco/domain/bookmark/service/BookmarkService.kt:101-115 | unknown user is `BOOKMARK_INVALID_USER_INPUT`; then as delete, clearing the flag |
| BookmarkService.DeleteBookmarkTwice | src/main/java/com/back/pinco/domain/bookmark/service/BookmarkService.kt:81-92 | deleting twice answers as once and has the effect of once |
| BookmarkService.RestoreBookmarkTwice | src/main/java/com/back/pinco/domain/bookmark/service/BookmarkService.kt:101-115 | restoring twice answers as once and has the effect of once |
| LikesTable.LikesRepository.FindByPinIdAndUserId | src/main/java/com/back/pinco/domain/likes/repository/LikesRepository.java:19-20 | the like of that (pin, user) pair, absent exactly when there is none |
| LikesTable.LikesRepository.CountByPinId | src/main/java/com/back/pinco/domain/likes/repository/LikesRepository.java:23-24 | zero exactly when no like is on the pin |
| LikesTable.LikesRepository.CountByUserId | src/main/java/com/back/pinco/domain/likes/repository/LikesRepository.java:27-28 | zero exactly when the user liked nothing |
| LikesTable.LikesRepository.FindUsersByPinId | src/main/java/com/back/pinco/domain/likes/repository/LikesRepository.java:31-32 | each user who liked the pin, once |
| LikesTable.LikesRepository.FindPinsByUserId | src/main/java/com/back/pinco/domain/likes/repository/LikesRepository.java:35-36 | each pin the user liked, once |
| LikesTable.LikesRepository.Save | src/main/java/com/back/pinco/domain/likes/service/LikesService.java:50-56 | a new pair is appended and its pin's count rises by one; a duplicate pair breaks the unique constraint and changes nothing |
| LikesTable.LikesRepository.Delete | src/main/java/com/back/pinco/domain/likes/service/LikesService.java:71-80 | exactly that row goes, and its pin's count drops by one |
| LikesTable.LikesRepository.DeleteAllByUserId | src/main/java/com/back/pinco/domain/likes/repository/LikesRepository.java:39-41 | exactly the user's rows go; counts of pins they did not like are unchanged |
| LikesTable.DeletedPairGone | src/main/java/com/back/pinco/domain/likes/entity/Likes.kt:12-15 | with the pair unique, after deleting a like no row with its pair remains |
| LikesTable.CountAfterDelete | src/main/java/com/back/pinco/domain/likes/service/LikesService.java:71-80 | deleting a stored like lowers only its own pin's count, by one |
| LikesTable.KeepsValid | src/main/java/com/back/pinco/domain/likes/entity/Likes.kt:12-15 | deleting rows keeps pairs unique |
| LikesService.GetLikesCount | src/main/java/com/back/pinco/domain/likes/service/LikesService.java:33-35 | an `int`, equal to the pin's number of likes when the table fits in one |
| LikesService.RefreshPinLikeCount | src/main/java/com/back/pinco/domain/likes/service/LikesService.java:97-104 | the pin's stored count becomes its number of likes, and every stored count agrees with the table afterwards |
| LikesService.Validate | src/main/java/com/back/pinco/domain/likes/service/LikesService.java:83-93 | `LIKES_INVALID_USER_INPUT` exactly for an unknown user, then `LIKES_INVALID_PIN_INPUT` exactly for a pin the user cannot see |
| LikesService.ToggleLikeOn | src/main/java/com/back/pinco/domain/likes/service/LikesService.java:40-56 | validation errors first; a duplicate like fails with no change; otherwise one row is added, the pin's count rises by one and `(true, count)` is returned; stored counts keep agreeing |
| LikesService.SaveAndRefresh | src/main/java/com/back/pinco/domain/likes/service/LikesService.java:43-56 | the insert-and-refresh half of `toggleLikeOn`, with the same all-or-nothing outcome |
| LikesService.ToggleLikeOff | src/main/java/com/back/pinco/domain/likes/service/LikesService.java:61-80 | validation errors first; `LIKES_NOT_FOUND` when there is no like; otherwise the row goes, the count drops by one and `(false, count)` is returned; stored counts keep agreeing |
| LikesService.DeleteAndRefresh | src/main/java/com/back/pinco/domain/likes/service/LikesService.java:64-80 | the delete-and-refresh half of `toggleLikeOff` |
| LikesService.GetUsersWhoLikedPin | src/main/java/com/back/pinco/domain/likes/service/LikesService.java:108-117 | a pin that exists in any state lists exactly its likers, once each; a missing pin is `LIKES_INVALID_PIN_INPUT` |
| LikesService.LikedPins | src/main/java/com/back/pinco/domain/likes/service/LikesService.java:120-130 | the listed pins the user owns or that are public, deleted ones kept |
| LikesService.GetPinsLikedByUser | src/main/java/com/back/pinco/domain/likes/service/LikesService.java:120-130 | unknown user is `LIKES_INVALID_USER_INPUT`; otherwise exactly the liked pins the user owns or that are public |
| LikesService.DeleteWithdrawnUserLikes | src/main/java/com/back/pinco/domain/likes/service/LikesService.java:134-151 | all the user's likes go, exactly the pins they liked get recounted, and stored counts keep agreeing |
| Tags.TagRepository.FindByKeyword | src/main/java/com/back/pinco/domain/tag/repository/TagRepository.java:10 | the tag with exactly that keyword, absent exactly when none has it |
| Tags.TagRepository.Save | src/main/java/com/back/pinco/domain/tag/service/TagService.java:70-76 | a new tag with the next id is appended and found by its keyword |
| Tags.KeywordFinds | src/main/java/com/back/pinco/domain/tag/repository/TagRepository.java:10 | with keywords unique, a stored tag's keyword finds that tag |
| TagService.GetAllTags | src/main/java/com/back/pinco/domain/tag/service/TagService.java:26-30 | the whole table, or `TAG_NOT_FOUND` exactly when it is empty |
| TagService.CreateTag | src/main/java/com/back/pinco/domain/tag/service/TagService.java:34-38 | blank is `INVALID_TAG_KEYWORD`, then an existing trimmed keyword `TAG_ALREADY_EXISTS`, both with no change; otherwise the trimmed keyword is stored |
| TagService.CreateTagTwice | src/main/java/com/back/pinco/domain/tag/service/TagService.java:34-38 | creating the same keyword twice makes the second call a clash |
| TagService.ControlCharacterKeywordStoredEmpty | src/main/java/com/back/pinco/domain/tag/service/TagService.java:54-76 | a keyword of control characters that are not Java whitespace passes the blank check and is stored as "" |
| PinTags.PinTag.constructor | src/main/java/com/back/pinco/domain/tag/service/PinTagService.java:206-212 | a new link is live |
| PinTags.PinTag.SetDeleted | src/main/java/com/back/pinco/domain/tag/service/PinTagService.java:215-221 | the link's flag becomes true |
| PinTags.PinTag.Restore | src/main/java/com/back/pinco/domain/tag/service/PinTagService.java:224-230 | the link's flag becomes false |
| PinTags.LiveLinks | src/main/java/com/back/pinco/domain/tag/repository/PinTagRepository.java:14 | exactly the pin's live links |
| PinTags.LivePinsTagged | src/main/java/com/back/pinco/domain/tag/repository/PinTagRepository.java:20-23 | exactly the pins with a live link to a tag of that keyword |
| PinTags.PinTagRepository.FindAllByPinIdAndDeletedFalse | src/main/java/com/back/pinco/domain/tag/repository/PinTagRepository.java:14 | exactly the pin's live links |
| PinTags.PinTagRepository.FindByPinIdAndTagId | src/main/java/com/back/pinco/domain/tag/repository/PinTagRepository.java:17 | the (pin, tag) link whatever its flag, absent exactly when none exists |
| PinTags.PinTagRepository.FindPinsByTagKeyword | src/main/java/com/back/pinco/domain/tag/repository/PinTagRepository.java:20-23 | exactly the pins with a live link to that keyword, with no filter on the pin's own visibility or flag |
| PinTags.PinTagRepository.Save | src/main/java/com/back/pinco/domain/tag/service/PinTagService.java:206-212 | a new pair is appended live; an existing pair breaks the unique constraint and changes nothing |
| PinTags.LinkFinds | src/main/java/com/back/pinco/domain/tag/entity/PinTag.kt:11-16 | with (pin, tag) unique, a stored link's pair finds that link |
| PinTagService.NoLinkToNewTag | src/main/java/com/back/pinco/domain/tag/service/PinTagService.java:151-154 | a tag just created has no link |
| PinTagService.ActiveLinkFound | src/main/java/com/back/pinco/domain/tag/service/PinTagService.java:192-198 | the keyword search lists the pin exactly when the pin's link to the keyword's tag exists and is live |
| PinTagService.FindOrCreateTag | src/main/java/com/back/pinco/domain/tag/service/PinTagService.java:151-154 | the tag with exactly the keyword given, untrimmed; created with the next id when missing |
| PinTagService.LinkAsWritten | src/main/java/com/back/pinco/domain/tag/service/PinTagService.java:192-212 | a live link is `TAG_ALREADY_LINKED`; a deleted one is restored and then duplicated, a unique violation that rolls back; otherwise a new live link |
| PinTagService.AttachAsWritten | src/main/java/com/back/pinco/domain/tag/service/PinTagService.java:38-40 | find-or-create then link, as written: a soft-deleted link ends in a unique violation |
| PinTagService.AddTagToPinAsWritten | src/main/java/com/back/pinco/domain/tag/service/PinTagService.java:35-41 | blank keyword, then missing pin, then live link refused; a removed link fails with a unique violation; otherwise a new live link |
| PinTagService.LinkOrRestoreTag | src/main/java/com/back/pinco/domain/tag/service/PinTagService.java:245-253 | the pin's link to the tag is live afterwards: restored if it existed, created if not; no other link changes |
| PinTagService.LinkUnlessLive | src/main/java/com/back/pinco/domain/tag/service/PinTagService.java:192-212 | `TAG_ALREADY_LINKED` exactly for a live link; otherwise the link is restored or created |
| PinTagService.Attach | src/main/java/com/back/pinco/domain/tag/service/PinTagService.java:38-40 | find-or-create then link unless live: a removed link comes back |
| PinTagService.AddTagToPin | src/main/java/com/back/pinco/domain/tag/service/PinTagService.java:35-41 | blank keyword, then missing pin, then a live link are refused with no change; otherwise the pin carries the keyword afterwards |
| PinTagService.RemoveTagFromPin | src/main/java/com/back/pinco/domain/tag/service/PinTagService.java:54-57 | `TAG_LINK_NOT_FOUND` exactly for a missing link; otherwise its flag is set; no other link changes |
| PinTagService.RestoreTagFromPin | src/main/java/com/back/pinco/domain/tag/service/PinTagService.java:61-65 | missing link `TAG_LINK_NOT_FOUND`, live link `TAG_ALREADY_LINKED`; otherwise the flag is cleared; no other link changes |
| PinTagService.ReAddAfterRemoveAsWritten | src/main/java/com/back/pinco/domain/tag/service/PinTagService.java:35-41 | as written, tagging, untagging and tagging again fails the second time |
| PinTagService.ReAddAfterRemove | src/main/java/com/back/pinco/domain/tag/service/PinTagService.java:35-41 | as intended, the second tagging brings back the same link |
| PinTagService.GetTagsByPin | src/main/java/com/back/pinco/domain/tag/service/PinTagService.java:45-50 | missing pin `TAG_PIN_NOT_FOUND`; exactly the tags of live links; `PIN_TAG_LIST_EMPTY` exactly when there are none |
| PinTagService.PresentMembers | src/main/java/com/back/pinco/domain/tag/service/PinTagService.java:233-242 | a keyword is processed exactly when it is listed and not blank |
| PinTagService.OneLinkPerKeyword | src/main/java/com/back/pinco/domain/tag/entity/PinTag.kt:11-16 | with keywords and (pin, tag) unique, a pin has at most one link per keyword |
| PinTagService.LinkKeyword | src/main/java/com/back/pinco/domain/tag/service/PinTagService.java:235-240 | one turn of `processTagLinks`: the keyword's tag exists and the pin's link to it is live; the tag table is unchanged when the keyword was found and gains exactly that tag when it was not; at most one link is added, and it is a live link of this pin to that tag; only that link's flag changes |
| PinTagService.LinkTag | src/main/java/com/back/pinco/domain/tag/service/PinTagService.java:245-253 | the pin's link to the tag is live afterwards; at most one link is added, and it is a live link of this pin to that tag; only that link's flag changes |
| PinTagService.ProcessTagLinks | src/main/java/com/back/pinco/domain/tag/service/PinTagService.java:233-242 | every non-blank keyword, in order, has its tag in the table and a live link of the pin to it; an old link's flag changes only if it is this pin's link to one of the keywords, and then it is live; added links are live links of this pin to the keywords; the old tags stay in place and added tags carry one of the keywords |
| PinTagService.KeywordPicksLink | src/main/java/com/back/pinco/domain/tag/entity/PinTag.kt:11-16 | a link is the only one from its pin whose tag carries its keyword |
| PinTagService.LinkTagsToPin | src/main/java/com/back/pinco/domain/tag/service/PinTagService.java:69-73 | empty list `INVALID_TAG_INPUT`, missing pin `TAG_PIN_NOT_FOUND`, both with nothing changed; otherwise the non-blank keywords' tags in input order, each found by its keyword and live-linked to the pin; an old link's flag changes only if it is this pin's link to one of the keywords; added links are live links of this pin to the keywords; added tags carry a keyword that had no tag before |
| PinTagService.KeepInMembers | src/main/java/com/back/pinco/domain/tag/service/PinTagService.java:256-264 | the intersection holds exactly the pins that every list holds |
| PinTagService.RetainOneMore | src/main/java/com/back/pinco/domain/tag/service/PinTagService.java:256-264 | one more `retainAll` narrows the intersection by that list |
| PinTagService.IntersectPins | src/main/java/com/back/pinco/domain/tag/service/PinTagService.java:256-264 | no lists give none; otherwise the first list's pins that occur in every other list, in first-list order |
| PinTagService.KeywordFault | src/main/java/com/back/pinco/domain/tag/service/PinTagService.java:178-187 | `TAG_NOT_FOUND` exactly for a null or unknown keyword, else `PIN_TAG_LIST_EMPTY` when no live link carries it |
| PinTagService.PinsPerKeywordOk | src/main/java/com/back/pinco/domain/tag/service/PinTagService.java:171-175 | the per-keyword search succeeds exactly when no keyword is refused |
| PinTagService.PinsPerKeyword | src/main/java/com/back/pinco/domain/tag/service/PinTagService.java:171-175 | a successful search gives one list per keyword |
| PinTagService.PinsPerKeywordLists | src/main/java/com/back/pinco/domain/tag/service/PinTagService.java:171-187 | after success list i is the live pins tagged with keyword i |
| PinTagService.PinsPerKeywordFirstFault | src/main/java/com/back/pinco/domain/tag/service/PinTagService.java:171-187 | a failed search reports the error of the first refused keyword |
| PinTagService.IntersectionMeaning | src/main/java/com/back/pinco/domain/tag/service/PinTagService.java:77-83 | the intersection holds exactly the pins tagged with every keyword |
| PinTagService.IntersectionEmpty | src/main/java/com/back/pinco/domain/tag/service/PinTagService.java:77-83 | the intersection is empty exactly when no pin carries every keyword |
| PinTagService.GetPinsByMultipleTagKeywords | src/main/java/com/back/pinco/domain/tag/service/PinTagService.java:77-83 | empty list `INVALID_TAG_INPUT`, then the first keyword fault, then `TAG_POSTS_NOT_FOUND` exactly when no pin carries all; otherwise exactly the pins carrying every keyword |
| PinTagService.CreatePinTag | src/main/java/com/back/pinco/domain/tag/service/PinTagService.java:87-92 | a null pin or tag is `INVALID_TAG_INPUT`; an existing pair a unique violation; otherwise a new live link |
| Users.FindById | src/main/java/com/back/pinco/domain/user/service/UserService.java:168-172 | the user with that id, withdrawn or not, absent exactly when none |
| Users.FindByEmail | src/main/java/com/back/pinco/domain/user/repository/UserRepository.java:11 | the user with that email, absent exactly when none |
| Users.FindByApiKey | src/main/java/com/back/pinco/domain/user/repository/UserRepository.java:16 | the user holding that key, absent exactly when none |
| Users.UserRepository.Insert | src/main/java/com/back/pinco/domain/user/service/UserService.java:73-77 | the new user gets the next id, no key and the live flag, and is appended |
| Users.UserRepository.Save | src/main/java/com/back/pinco/domain/user/service/UserService.java:46-48 | the row with that id is replaced and the table stays well formed |
| Users.IdFinds | src/main/java/com/back/pinco/domain/user/entity/User.kt:28-31 | with ids distinct, a stored user's id finds that user |
| Users.EmailFinds | src/main/java/com/back/pinco/domain/user/entity/User.kt:19-20 | with emails unique, a stored user's email finds that user |
| Users.KeyFinds | src/main/java/com/back/pinco/domain/user/entity/User.kt:33-34 | with keys unique, a stored user's key finds that user |
| Users.EmailLookupAfterReplace | src/main/java/com/back/pinco/domain/user/entity/User.kt:19-20 | replacing a row by one with the same id and email redirects only that email's lookup |
| UserService.EmailShape | src/main/java/com/back/pinco/domain/user/service/UserService.java:57-60 | an address of the pattern is not blank and has exactly one `@`, not at either end |
| UserService.FormatExamples | src/main/java/com/back/pinco/domain/user/service/UserService.java:57-66 | examples: `user1@example.com` and "감자" are accepted; `yunseo+` and a one-letter name are refused |
| UserService.FirstFreeDraw | src/main/java/com/back/pinco/domain/user/service/UserService.java:43-45 | the retry loop stops at the first draw no user holds |
| UserService.FirstFreeDrawIgnoresKeyless | src/main/java/com/back/pinco/domain/user/service/UserService.java:43-45 | appending a user without a key does not change which draw is taken |
| UserService.EnsureApiKey | src/main/java/com/back/pinco/domain/user/service/UserService.java:38-51 | a non-blank key is kept with nothing changed; otherwise the first free draw is stored; either way the key finds the user |
| UserService.ReplacedRowFound | src/main/java/com/back/pinco/domain/user/service/UserService.java:46-48 | after a row is saved, its id and its key find the saved row |
| UserService.DrawFreeKey | src/main/java/com/back/pinco/domain/user/service/UserService.java:43-45 | the loop returns the first draw no user holds |
| UserService.SignUpFault | src/main/java/com/back/pinco/domain/user/service/UserService.java:57-72 | email format, password length, name length, email taken, name taken, first failure wins; none exactly when all pass |
| UserService.Login | src/main/java/com/back/pinco/domain/user/service/UserService.java:81-88 | `USER_NOT_FOUND` exactly for an unknown email; success exactly when the raw password matches the stored hash |
| UserService.CreateUser | src/main/java/com/back/pinco/domain/user/service/UserService.java:56-78 | on a fault nothing changes and the first fault is returned; otherwise the user is stored with the hash and a fresh key, the key finds them, and they can log in |
| UserService.SignUpKeepsNamesDistinct | src/main/java/com/back/pinco/domain/user/service/UserService.java:70-72 | sign-up never lets two users share a name |
| UserService.LoginIgnoresWithdrawal | src/main/java/com/back/pinco/domain/user/service/UserService.java:81-88 | a withdrawn user logs in as before |
| UserService.Renamed | src/main/java/com/back/pinco/domain/user/service/UserService.java:91-104 | bad name `INVALID_USERNAME_FORMAT`, another user's name `NICKNAME_ALREADY_EXISTS`; otherwise only the name changes |
| UserService.Repassed | src/main/java/com/back/pinco/domain/user/service/UserService.java:108-117 | a bad password is `INVALID_PASSWORD_FORMAT`; otherwise only the password changes, hashed when it differs from the stored hash |
| UserService.HashAsNewPasswordIgnored | src/main/java/com/back/pinco/domain/user/service/UserService.java:112 | sending the stored hash as new password is accepted, stored as is, and locks the user out |
| UserService.HashAsNewPasswordExample | src/main/java/com/back/pinco/domain/user/service/UserService.java:112 | a sound encoder and a user for which the lock-out above happens |
| UserService.RepassedIntended | src/main/java/com/back/pinco/domain/user/service/UserService.java:108-117 | `editPwd` with the raw password matched against the hash: errors as before, only the password changes |
| UserService.RepassedIntendedLogsIn | src/main/java/com/back/pinco/domain/user/service/UserService.java:108-117 | with the intended test every accepted password logs in afterwards |
| UserService.EditedAll | src/main/java/com/back/pinco/domain/user/service/UserService.java:121-137 | name checks, then password check; on success name and password are the new ones, the password hashed |
| UserService.EditUserInfoOutcome | src/main/java/com/back/pinco/domain/user/service/UserService.java:199-213 | unknown user `USER_NOT_FOUND`; `NO_FIELDS_TO_UPDATE` exactly when neither field changed; success changes only name and password |
| UserService.EditStoresName | src/main/java/com/back/pinco/domain/user/service/UserService.java:199-213 | a successful edit of a changed name stores it as given |
| UserService.EditedPasswordLogsIn | src/main/java/com/back/pinco/domain/user/service/UserService.java:199-213 | after an edit that changed the password, the user logs in with it |
| UserService.EditKeepsNamesDistinct | src/main/java/com/back/pinco/domain/user/service/UserService.java:91-137 | no edit lets two users share a name |
| UserService.SaveEdited | src/main/java/com/back/pinco/domain/user/service/UserService.java:99-103 | the row takes the outcome, or nothing changes and the error is returned |
| UserService.EditName | src/main/java/com/back/pinco/domain/user/service/UserService.java:91-104 | applies `Renamed` to the stored user |
| UserService.EditPwd | src/main/java/com/back/pinco/domain/user/service/UserService.java:108-117 | applies `Repassed` to the stored user |
| UserService.EditAll | src/main/java/com/back/pinco/domain/user/service/UserService.java:121-137 | applies `EditedAll` to the stored user |
| UserService.EditUserInfo | src/main/java/com/back/pinco/domain/user/service/UserService.java:199-213 | applies `EditUserInfoOutcome` to the table |
| UserService.SelectOfWithdrawn | src/main/java/com/back/pinco/domain/user/service/UserService.java:141-149 | a writer whose pins are all deleted has no pins in any by-writer query |
| UserService.WithdrawnWriterHasNoPins | src/main/java/com/back/pinco/domain/user/service/UserService.java:141-149 | after withdrawal no read lists the writer's pins |
| UserService.Delete | src/main/java/com/back/pinco/domain/user/service/UserService.java:141-149 | null user `AUTH_REQUIRED`, unknown `USER_NOT_FOUND`, both with no change; otherwise the user is flagged, all their pins deleted, all their likes removed, and stored counts keep agreeing |
| UserService.Cascade | src/main/java/com/back/pinco/domain/user/service/UserService.java:146-147 | `updateDeleteByUser` then `deleteWithdrawnUserLikes` |
| UserService.MarkDeleted | src/main/java/com/back/pinco/domain/user/service/UserService.java:145 | only the user's flag changes |
| UserService.PublicOf | src/main/java/com/back/pinco/domain/user/service/UserService.java:253-273 | exactly the public pins |
| UserService.PrivateOwnedBy | src/main/java/com/back/pinco/domain/user/service/UserService.java:253-273 | exactly the private pins of the owner |
| UserService.ListPublicAndPrivate | src/main/java/com/back/pinco/domain/user/service/UserService.java:253-273 | the actor's live pins split exactly into public and private |
| UserService.LikesCount | src/main/java/com/back/pinco/domain/user/service/UserService.java:245-250 | an `int` equal to the total likes of the pins modulo 2^32 |
| UserService.LikesCountExact | src/main/java/com/back/pinco/domain/user/service/UserService.java:245-250 | when the total fits in an `int`, the sum is exact |
| ErrorCodes.FromCode | src/main/java/com/back/pinco/global/exception/ErrorCode.java:9-72 | a numeric code read back names a constant with that code |
| ErrorCodes.CodeRoundTrip | src/main/java/com/back/pinco/global/exception/ErrorCode.java:9-72 | every constant's code reads back to that constant |
| ErrorCodes.CodesDistinct | src/main/java/com/back/pinco/global/exception/ErrorCode.java:9-72 | numeric codes are pairwise distinct |
| ErrorCodes.CodeInDomain | src/main/java/com/back/pinco/global/exception/ErrorCode.java:9-72 | the thousands digit names the domain; the two common codes are their HTTP status |
| ErrorCodes.AuthFailureStatuses | src/main/java/com/back/pinco/global/exception/ErrorCode.java:9-72 | over the whole table, 401 is answered exactly for the six password and credential failures and 403 exactly for `PIN_NO_PERMISSION` and `ACCESS_DENIED`; all of them are pin or user codes |
| ExceptionHandler.HandleServiceException | src/main/java/com/back/pinco/global/exception/GlobalExceptionHandler.kt:14-23 | the code's status and message, and a body code that parses back to the numeric code |
| ExceptionHandler.HandleValidation | src/main/java/com/back/pinco/global/exception/GlobalExceptionHandler.kt:25-48 | always 400; no field error gives "400", otherwise the field's error code |
| ExceptionHandler.Handle | src/main/java/com/back/pinco/global/exception/GlobalExceptionHandler.kt:14-57 | a service error answers with its status, every other failure with 400 |
| ExceptionHandler.ValidationFieldCodes | src/main/java/com/back/pinco/global/exception/GlobalExceptionHandler.kt:31-38 | latitude, longitude and content report 1006, 1007 and 1005, any other field 400 |
| ExceptionHandler.UnknownFieldCode | src/main/java/com/back/pinco/global/exception/GlobalExceptionHandler.kt:37 | an unknown field reports `INVALID_VALUE` |
| ValidationFields.From | src/main/java/com/back/pinco/global/exception/ValidationField.kt:6-11 | the result's name is the input, and it is unknown exactly for other names |
| ValidationFields.FromNameRoundTrip | src/main/java/com/back/pinco/global/exception/ValidationField.kt:6-31 | naming a field and reading it back gives that field |
| JavaNumbers.WrapLong | src/main/java/com/back/pinco/global/security/JwtTokenProvider.kt:23-24 | a `Long` congruent to the exact value modulo 2^64, equal to it when in range |
| JavaNumbers.WrapInt | src/main/java/com/back/pinco/domain/likes/service/LikesService.java:33-35 | an `int` congruent to the exact value modulo 2^32, equal to it when in range |
| JavaNumbers.MillisToSeconds | src/main/java/com/back/pinco/global/security/JwtTokenProvider.kt:48-49 | milliseconds to whole seconds, rounded toward zero |
| JavaNumbers.TruncReal | src/main/java/com/back/pinco/domain/pin/service/PinService.kt:90-101 | rounding toward zero |
| JavaNumbers.DoubleToInt | src/main/java/com/back/pinco/domain/pin/service/PinService.kt:90-101 | Kotlin `toInt`: NaN is 0, out of range saturates, else rounds toward zero |
| Text.JavaLength | src/main/java/com/back/pinco/domain/user/service/UserService.java:61-68 | UTF-16 length: between the character count and twice it, equal for the basic plane |
| Text.TrimStart | src/main/java/com/back/pinco/domain/tag/service/TagService.java:61-76 | drops exactly the leading characters at or below U+0020 |
| Text.TrimEnd | src/main/java/com/back/pinco/domain/tag/service/TagService.java:61-76 | drops exactly the trailing characters at or below U+0020 |
| Text.TrimIsMiddleSlice | src/main/java/com/back/pinco/domain/tag/service/TagService.java:61-76 | `trim` keeps a middle slice with only trimmable characters outside |
| Text.TrimIdempotent | src/main/java/com/back/pinco/domain/tag/service/TagService.java:61-76 | trimming twice is trimming once |
| Text.EqualsIgnoreCaseExample | src/main/java/com/back/pinco/global/security/CustomAuthenticationFilter.kt:32-38 | examples: the filter's method test accepts "options" and "Get" and refuses "POST" for "GET" |
| Text.AsciiLower | src/main/java/com/back/pinco/global/rq/Rq.kt:26-27 | header names fold only ASCII letters |
| Text.SplitSpaceLimit3 | src/main/java/com/back/pinco/global/security/CustomAuthenticationFilter.kt:59 | one to three parts |
| Text.SplitSpaceLimit3Inverse | src/main/java/com/back/pinco/global/security/CustomAuthenticationFilter.kt:59 | joining the parts with a space gives the header back, and only the last part may contain a space |
| Text.SplitThreeWords | src/main/java/com/back/pinco/global/security/CustomAuthenticationFilter.kt:59-61 | "Bearer key token" splits into its three words |
| Text.SplitTwoWords | src/main/java/com/back/pinco/global/security/CustomAuthenticationFilter.kt:59-61 | "Bearer key" splits into two words |
| Text.NatToDecimal | src/main/java/com/back/pinco/global/exception/GlobalExceptionHandler.kt:20 | decimal digits without leading zeros |
| Text.DigitsValueOfDecimal | src/main/java/com/back/pinco/global/exception/GlobalExceptionHandler.kt:20 | the printed digits denote the number |
| Text.ParseLong | src/main/java/com/back/pinco/global/security/JwtTokenProvider.kt:65-67 | a parsed subject is a `Long` |
| Text.LongDecimalRoundTrip | src/main/java/com/back/pinco/global/security/JwtTokenProvider.kt:46-67 | printing a `Long` and parsing it back gives it again |
| Text.ParseLongRejects | src/main/java/com/back/pinco/global/security/JwtTokenProvider.kt:65-67 | a subject with a non-digit after its first character is refused |
| Tables.FirstMatch | src/main/java/com/back/pinco/domain/user/repository/UserRepository.java:11-16 | a single-result query returns the first matching row, absent exactly when none matches |
| Tables.Filter | src/main/java/com/back/pinco/domain/likes/repository/LikesRepository.java:39-41 | the rows satisfying the predicate, and all of them |
| Tables.Count | src/main/java/com/back/pinco/domain/likes/repository/LikesRepository.java:23-28 | at most the table size, zero exactly when no row matches |
| Tables.CountIsFilterSize | src/main/java/com/back/pinco/domain/likes/repository/LikesRepository.java:23-28 | a count is the size of the matching rows |
| Tables.CountAppend | src/main/java/com/back/pinco/domain/likes/service/LikesService.java:50-56 | an inserted row raises a count by one exactly when it matches |
| Tables.CountFilterOut | src/main/java/com/back/pinco/domain/likes/service/LikesService.java:71-80 | deleting the one copy of a row lowers a count by one exactly when it matches |
| Tables.CountFilterKeeps | src/main/java/com/back/pinco/domain/likes/repository/LikesRepository.java:39-41 | deleting rows none of which match leaves a count unchanged |
| Tables.DistinctIds | src/main/java/com/back/pinco/domain/likes/repository/LikesRepository.java:31-36 | `SELECT DISTINCT`: each id once, the same set of ids |

## Left out

- Servlet I/O: streams, the filter chain object and the transport are not modelled. The filter returns whether it called the chain, and the response is a class with the fields the code writes.
- Token cryptography and serialisation: HMAC signing and JWS compact encoding are an abstract `Codec`. Only that it reads back what it wrote is assumed, as a precondition of the lemmas that need it.
- Password hashing: `PasswordEncoder` is a pair of uninterpreted functions. Lemmas that need a password to match its own hash say so.
- Randomness: the UUIDs `ensureApiKey` draws are a `draws` parameter. When no draw is free the loop would not stop, so the methods require a free draw.
- The clock: `now` is a parameter. Creation year and month of a pin are inputs of `save`.
- Geometry and floats: radius and screen filters are uninterpreted predicates over points. Doubles appear only through `JavaNumbers.Double`, as `findByUserIdDate` needs.
- Thread-local security context: the actor and the authentication are explicit values.
- Persistence timing: flush order, lazy loading and auditing fields are not modelled. A duplicate like surfaces at the refresh query's flush and is modelled as `LIKES_UPDATE_PIN_FAILED`. A duplicate link is a `UniqueViolation` that rolls back the transaction.
- Unreachable error paths: the `try/catch` wrappers that map any exception to `TAG_CREATE_FAILED`, `LIKES_CREATE_FAILED`, `LIKES_REVOKE_FAILED`, `PIN_UPDATE_FAILED` or `PIN_DELETE_FAILED` catch nothing the model can raise. Only `PIN_CREATE_FAILED` for a missing actor is reachable.
- Users.UserRepository.Save: requires that the row keeps its email and that its key is not another user's. Breaking the unique columns is not modelled; every caller in the service meets this.
- Users.UserRepository.Insert, Bookmarks.BookmarkRepository.Save, Tags.TagRepository.Save: require the unique column to be free. Every service path checks that first.
- PinService.FindByUserIdDate: states only that each listed pin matches the writer, visibility and the truncated year and month, not that every such pin is listed.
- Text.SplitSpaceLimit3: its own contract gives only the number of parts; its meaning is in `Text.SplitSpaceLimit3Inverse`, `Text.SplitThreeWords` and `Text.SplitTwoWords`.
- Row values: users, tags and likes are row values rather than objects. Aliasing between two loaded copies of one row is not modelled.
- Out of scope:
  - controllers, DTOs, `RsData` beyond its two fields, Swagger, seed data and the build file;
  - `AuthService` logout, `JwtAuthenticationFilter.java` (not registered in the chain), and the front end.
- Java twins: `CustomAuthenticationFilter.java`, `SecurityConfig.java`, `PinService.java`, `PinRepository.java`, `BookmarkService.java`, `JwtTokenProvider.java`, `ValidationField.java` and `Pin.java` are older versions of the Kotlin classes. They are not modelled.
- Plain lookups: `UserService.checkPwd`, `findByEmail`, `existsUserId`, `findByIdOptional`, `getMyPins`, `getMyBookmarks` and `bookmarkList` are not modelled separately. Each is a lookup or a delegation already covered by the members above.

## Findings

| source | as written | input that shows it | evidently intended | confidence | as-written member | corrected member |
|---|---|---|---|---|---|---|
| src/main/java/com/back/pinco/domain/tag/service/PinTagService.java:38-40 | `addTagToPin` calls `handleExistingPinTag`, which restores a soft-deleted link, and then always calls `saveNewPinTag` | tag a pin with "cafe", remove the tag, tag it again with "cafe": the second save inserts a second (pin, tag) row and breaks the `uk_pin_tag` constraint | re-adding a removed tag restores the existing link | not executed | PinTagService.ReAddAfterRemoveAsWritten | PinTagService.ReAddAfterRemove |
| src/main/java/com/back/pinco/domain/user/service/UserService.java:112 | `editPwd` skips the change when the raw new password equals the stored hash | an encoder storing `"h:" + raw`, a user whose stored hash is `"h:password1"`, new password `"h:password1"`: accepted, stored unhashed, and the user can no longer log in | the raw password is compared with `matches(raw, hash)` | not executed | UserService.HashAsNewPasswordIgnored | UserService.RepassedIntended |
