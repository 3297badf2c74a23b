# op47api: bearer-token authentication and request validation

This project models the core of op47api, a small Express service. The model has two parts.

The first part is `auth.js`:
- a bearer token is extracted from the `Authorization` header;
- only the SHA-256 digest of each issued token is stored, and a request is resolved to its user;
- users register and log in with bcrypt-hashed passwords;
- tokens are revoked;
- the `require_auth` middleware is built on these.

The second part is the validation rules of the route handlers in `index.js`, taken out of the handlers as functions:
- the date parameter;
- the channel key;
- the Twitch clip-URL pattern and the URL normalised from it;
- the clip title and author defaults;
- the order of the secret, password and field checks;
- the fail-closed existence check for wiki pages.

Modules:

- Results: `Option` and `Result`.
- JsString: the JavaScript string operations the code relies on.
  - `trim` uses the ECMAScript white-space and line-terminator set.
  - `split(" ")`, with `split`/join proved inverse.
  - `toLowerCase` on ASCII.
- AuthErrors: every rejection reason and its message text, with the texts proved distinct.
- AuthHeader: `getTokenFromRequest` as a function, with an exact description of the headers it accepts.
- AuthTables: the `users` and `auth_tokens` tables as sequences of rows.
  - The four queries of `auth.js` that read or delete, as functions: select by name, select by id, the join on the token digest, and delete by token digest. The two INSERTs are the appends in `Register` and `CreateAuthToken`.
  - The tables' invariant: ids and names unique, ids below the next serial value, and every token row referring to a user.
  - Lemmas relating the statements.
- Auth: the class `AuthStore`.
  - Its fields are the two tables and the `users.id` serial counter, plus a ghost set of the raw tokens handed out.
  - The functions of `auth.js` that use the store are methods over these fields. They include the non-exported `createAuthToken` and `getUserByUsername`. `getTokenFromRequest` (auth.js:65) does not touch the store and is the function `AuthHeader.GetTokenFromRequest`.
  - Client methods take the store through the whole token lifecycle: register, log in, validate both tokens, revoke one of them twice.
  - Every method keeps `Valid()`: the table invariant, sound primitives, and every stored token value being the digest of an issued token.
- ClipUrl: the clip-URL regular expression.
  - It is defined twice. Once declaratively: every way to cut the text into the pattern's parts. Once as the deterministic matcher a backtracking engine amounts to.
  - `MatchClipUrlCorrect` proves the two agree. The matcher succeeds exactly when some cut exists. Its capture is the longest id run at the latest possible start, because the optional `<channel>/clip/` part is greedy and is tried first.
- Routes: the `index.js` handler rules over JSON values with JavaScript truthiness.

The cryptographic primitives are fields of a `Crypto` value given to the store: `createHash("sha256")…digest("base64")`, `bcrypt.hashSync` and `bcrypt.compareSync`. The model assumes two things of them, in `Auth.Sound`:
- a password verifies against its own hash;
- a digest has the shape of base64 SHA-256.

The store takes three inputs as method parameters instead of computing them:
- `randomBytes(32)`;
- the bcrypt salt;
- the row's `created_at`.

Two points follow the code where a reading of the documentation might differ:
- `register` answers with whatever `login` answers. No separate token path exists.
- `revokeToken` deletes every row holding the digest, and rejects ("Invalid token") unless exactly one row went. A duplicated digest is therefore removed even though the call reports failure. `Auth.AuthStore.RevokeToken` states this.

## Model

| member | source | states |
|---|---|---|
| JsString.IsWhitespace | auth.js:75 | the characters `trim` removes: the ECMAScript WhiteSpace and LineTerminator code points (tab to carriage return, space, no-break space, the Unicode space separators, line and paragraph separator, byte order mark) |
| JsString.SkipStart | auth.js:75 | the index reached is the first one from the start point on without white space, and everything skipped is white space |
| JsString.SkipEnd | auth.js:75 | the end reached going down is the nearest one whose last character is not white space, and everything skipped is white space |
| JsString.Trim | auth.js:75 | the result is no longer than the text and neither starts nor ends with white space |
| JsString.TrimIsMiddle | auth.js:75 | the result is a contiguous slice of the text with only white space before and after it |
| JsString.TrimUnique | auth.js:75 | any slice with only white space around it and none at its own ends is what `trim` returns, so the two lemmas above pin `trim` down completely |
| JsString.TrimOfLeftPadded | index.js:84 | one space before a text with no white space at its ends is all that is removed |
| JsString.TrimOfPadded | auth.js:75 | one space on each side of such a text is all that is removed |
| JsString.TrimIdempotent | auth.js:75 | trimming twice is trimming once |
| JsString.TrimOfTrimmed | index.js:84 | a text with no white space at either end is left as it is |
| JsString.Split | auth.js:75 | `split(" ")` yields at least one piece and no piece contains the separator |
| JsString.SplitJoin | auth.js:75-76 | the piece count is the separator count plus one, and joining the pieces with the separator gives back the text |
| JsString.SplitWithoutSeparator | auth.js:75 | a text without the separator splits into itself alone |
| JsString.SplitAtFirst | auth.js:75 | splitting `a + sep + b` with no `sep` in `a` gives `a` followed by the pieces of `b` |
| JsString.SplitOnce | auth.js:75-76 | text with exactly one separator splits into exactly the two sides |
| JsString.LowerAscii | auth.js:76 | lower-casing keeps the length and maps each character on its own |
| JsString.LowerAsciiIdempotent | index.js:264 | lower-casing twice is lower-casing once |
| AuthErrors.Message | auth.js:50-253 | the rejection string of each reason, as the source writes it; none is empty |
| AuthErrors.MessagesDistinct | auth.js:19-26 | two reasons have the same string exactly when they are the same reason, so the `error` of a 401 answer names the failed check |
| AuthHeader.GetTokenFromRequest | auth.js:65-81 | "Invalid request" exactly when the request or its headers are missing. "Missing authorization header" exactly when the header is absent or empty. No other rejection exists besides "Invalid authorization header format". An accepted token is non-empty and contains no space |
| AuthHeader.TokenIsBearerForm | auth.js:75-80 | a trimmed header that splits into exactly two pieces, with a first piece of `bearer` in any case, is `bearer`, one space and a non-empty token |
| AuthHeader.GetTokenFromRequestIff | auth.js:65-81 | a token is returned exactly when the header is present and non-empty and its trimmed text is a six-letter `bearer` in any case, one space and that token, which holds no further space |
| AuthHeader.MissingHeaderRejected | auth.js:70-73 | an absent header and an empty header are both "Missing authorization header" |
| AuthHeader.NotBearerFormRejected | auth.js:75-78 | any non-empty header whose trimmed text is not of the bearer form is "Invalid authorization header format" |
| AuthHeader.TwoPiecesJoined | auth.js:75-76 | a text that splits into two pieces is the first piece, one space and the second |
| AuthHeader.UntrimmedRejected | auth.js:75-78 | a header without white space at its ends is rejected for its format when it is at most seven characters, has another scheme, lacks the space after the scheme or has a space in the token |
| AuthHeader.OtherSchemeRejected | auth.js:75-78 | `Basic xyz` is rejected for its format |
| AuthHeader.SchemeAloneRejected | auth.js:75-78 | `Bearer` without a token is rejected for its format |
| AuthHeader.SpacedTokenRejected | auth.js:75-78 | `Bearer a b` is rejected for its format |
| AuthHeader.DoubleSpaceRejected | auth.js:75-78 | `Bearer  a`, with two spaces, is rejected for its format |
| AuthHeader.BearerFormOf | auth.js:75-76 | any six-letter spelling of `bearer`, one space and a token without spaces is of the bearer form |
| AuthHeader.PaddedBearerAccepted | auth.js:75-80 | a header padded with spaces, with `bearer` in any case, yields its token: surrounding spaces are cut off and the scheme's case is ignored |
| AuthTables.UsersNamed | auth.js:127-129 | `SELECT … WHERE username = $1` returns exactly the rows with that name, and nothing exactly when no row has it |
| AuthTables.UsersWithId | auth.js:195-198 | `SELECT … WHERE id = $1` returns exactly the rows with that id, and nothing exactly when no row has it |
| AuthTables.UsersHoldingToken | auth.js:45-48 | the join returns exactly the users for whom a token row holds their id and the digest |
| AuthTables.CountToken | auth.js:168-175 | the number of rows holding a digest is at most the number of rows |
| AuthTables.TokensWithout | auth.js:168-171 | `DELETE … WHERE token = $1` keeps exactly the rows with another digest, and removes as many rows as hold the digest |
| AuthTables.TokensWithoutMultiplicity | auth.js:168-171 | the delete keeps each row with another digest exactly as often as it was stored, and no row with the digest |
| AuthTables.CountAfterAppend | auth.js:207-210 | storing one more row raises the count of its digest by one and leaves every other count as it was |
| AuthTables.DeleteKeepsOtherCounts | auth.js:168-171 | deleting one digest leaves the count of every other digest unchanged |
| AuthTables.Limit1 | auth.js:45-52 | `LIMIT 1` keeps the first row, has at most one row, and is empty only for an empty result |
| AuthTables.UniqueIdSelectsOne | auth.js:195-201 | in valid tables, selecting by a user's id yields that user alone |
| AuthTables.UniqueNameSelectsOne | auth.js:256-265 | in valid tables, selecting by a user's name yields that user alone |
| AuthTables.CountZeroIff | auth.js:174-176 | no row holds the digest exactly when the count is zero |
| AuthTables.NoHoldersWithoutToken | auth.js:49-51 | a digest no row holds resolves to no user |
| AuthTables.DeleteAbsentToken | auth.js:168-171 | deleting a digest no row holds changes nothing |
| AuthTables.DeleteAfterAppend | auth.js:168-171 | deleting right after appending a row deletes that row too and counts one more |
| AuthTables.HoldersAfterAppend | auth.js:45-48 | appending a token row adds its user, and only it, to the holders of that digest |
| AuthTables.RevokedTokenIsDead | auth.js:164-176 | after the delete no row holds the digest and it authenticates nobody |
| AuthTables.FreshTokenLifecycle | auth.js:207-210 | a fresh digest stored for a user resolves to that user alone, is counted once, and deleting it restores the tables |
| AuthTables.InsertUserKeepsValid | auth.js:141-144 | inserting a user with a new name and the next id keeps the tables valid |
| AuthTables.AppendTokenKeepsValid | auth.js:207-210 | storing a token row for an existing user keeps the tables valid |
| AuthTables.DeleteKeepsValid | auth.js:168-171 | deleting token rows keeps the tables valid |
| Auth.Digest | auth.js:42 | the value stored for, and looked up from, a raw token: its SHA-256 digest in base64, the same computation at auth.js:168 and auth.js:207 |
| Auth.DeleteKeepsOnlyDigests | auth.js:168-171 | deleting rows keeps every stored value a digest of an issued token |
| Auth.IssueKeepsOnlyDigests | auth.js:203-210 | storing the digest of a newly issued token keeps every stored value a digest of an issued token |
| Auth.AuthStore.GetUserByUsername | auth.js:251-270 | an empty name is "Username must be provided". Otherwise the user with that name is returned when one exists, the only one, else "User not found" |
| Auth.AuthStore.CreateAuthToken | auth.js:189-219 | id 0 is "User id must be provided". An unknown id is "User not found" with nothing changed. Otherwise the raw token is the digest of the random bytes, only its own digest is appended to the token table |
| Auth.AuthStore.Login | auth.js:89-114 | succeeds exactly when the name and password are non-empty and the password verifies against that user's hash. Empty fields give "Username and password must be provided"; an unknown user and a wrong password get the same rejection. On success the token is the base64 SHA-256 of the random bytes, it is recorded as issued, and exactly one row is added, for that user, holding that digest |
| Auth.AuthStore.Register | auth.js:122-157 | empty fields give "Username and password must be provided", a taken name gives "Username already exists", and neither changes anything. Otherwise one user is added with the next id and the password's hash, and the credentials then log in. One token row for the new id is added, holding the digest of the returned token; that token is the base64 SHA-256 of the random bytes and is recorded as issued |
| Auth.AuthStore.RevokeToken | auth.js:164-182 | an empty token gives "Token must be provided" and changes nothing. Otherwise every row holding the token's digest is deleted, and the call succeeds exactly when that was one row, else "Invalid token". Afterwards the token authenticates nobody |
| Auth.AuthStore.GetUserFromRequest | auth.js:34-56 | a header error is passed on unchanged. Otherwise a user is returned exactly when some token row holds the digest of the header's token for an existing user, else "Invalid authorization token". The returned user holds such a row. Nothing changes |
| Auth.AuthStore.RequireAuth | auth.js:19-26 | the next handler runs exactly when the header yields a token whose digest is stored for an existing user. Otherwise the 401 carries the header's rejection, or "Invalid authorization token" when the header was well formed |
| Auth.IssuedTokenAccepted | auth.js:65-81 | an issued token, sent as `Bearer <token>`, is what `getTokenFromRequest` returns |
| Auth.OnlyHolderFound | auth.js:45-52 | when every row with a digest belongs to one user, that user is the only one the join can return |
| Auth.RowAuthenticates | auth.js:45-51 | a row holding a user's id and the digest lets the digest authenticate |
| Auth.RegisterAndLogin | auth.js:122-157 | registering a new name and then logging in with the same credentials both succeed with the two random tokens, for one new user, and add the two digests in that order |
| Auth.ValidateIssued | auth.js:34-56 | a request bearing an issued token whose digest only one user holds resolves to that user |
| Auth.FreshRowsOwned | auth.js:207-210 | two new rows of one user, with digests no stored row holds, are both stored, belong to that user only, and the first digest is held once unless the second row repeats it |
| Auth.IssueAndValidate | auth.js:34-157 | with fresh random bytes, the tokens from `register` and `login` each resolve to the new user |
| Auth.RevokeTwice | auth.js:164-182 | revoking a token held once succeeds, revoking it again gives "Invalid token", the token then gives "Invalid authorization token", and another token of the user still resolves to the user |
| Auth.TokenLifecycle | auth.js:34-182 | register, log in, validate both tokens, revoke the first twice: both validations give the new user, the revocations give success and then "Invalid token", the revoked token is then rejected and the login token still gives the user |
| ClipUrl.IdRun | index.js:117 | the greedy `([a-zA-Z0-9-_]+)`: the longest prefix of id characters |
| ClipUrl.WordRun | index.js:117 | the greedy `[\w]`: the longest prefix of word characters |
| ClipUrl.WordRunLength | index.js:117 | a word run ended by a non-word character has exactly that length |
| ClipUrl.MatchClipUrl | index.js:116-124 | a capture, when there is one, is a non-empty run of id characters |
| ClipUrl.MatchAfterHost | index.js:117 | what is captured after the host, when anything is, is a non-empty run of id characters |
| ClipUrl.SchemeDetermined | index.js:117 | only one optional scheme can come before a host |
| ClipUrl.HostDetermined | index.js:117 | only one host can start the text after the scheme |
| ClipUrl.SchemeAndHostDetermined | index.js:117 | a text starting with a scheme and a host starts with exactly the ones the matcher takes |
| ClipUrl.ChannelPartDetermined | index.js:117 | a text can start with at most one non-empty `<channel>/clip/` part |
| ClipUrl.MatcherSchemeAndHost | index.js:117 | what the matcher takes as scheme and host are a scheme and a host of the pattern |
| ClipUrl.MatcherChannelPart | index.js:117 | what the matcher takes as channel part is one of the pattern |
| ClipUrl.PrefixFromParts | index.js:117 | a scheme, a host and a channel part in a row form a prefix of the pattern |
| ClipUrl.MatcherHostPrefix | index.js:117 | the matcher's scheme and host form a prefix of the pattern |
| ClipUrl.MatcherChannelPrefix | index.js:117 | the matcher's scheme, host and channel part form a prefix of the pattern |
| ClipUrl.PrefixPartsOfSlices | index.js:117 | a text cut into scheme, host and channel part, in that order, is made of those parts |
| ClipUrl.MatcherChannelPartAt | index.js:117 | the channel part the matcher takes after the host lies within the text and is one of the pattern |
| ClipUrl.SliceOfPrefix | index.js:117 | a slice of a prefix is the same slice of the text |
| ClipUrl.PartsAreMatcherParts | index.js:117 | any cut of a prefix of the pattern into scheme, host and channel part is the matcher's, with or without its channel part |
| ClipUrl.PrefixIsMatcherPrefix | index.js:117 | every prefix of the pattern ends where the matcher's prefix ends, with or without its channel part |
| ClipUrl.CaptureFromStart | index.js:117 | where the pattern's group can start, the matcher can capture |
| ClipUrl.MatchHasHost | index.js:117 | a match needs a host after the scheme |
| ClipUrl.MatchIsAfterHost | index.js:117 | once a host is found, the matcher's answer is the one after the host |
| ClipUrl.AfterHostIsCaptureAt | index.js:117 | after the host, the capture is taken after the channel part when one is there and the rest matches after it, else right after the host |
| ClipUrl.MatchIsCaptureAt | index.js:116-124 | the matcher's answer is the capture at the place it chooses after the host |
| ClipUrl.MatcherComplete | index.js:116-123 | if the pattern can match at all, the matcher finds a match |
| ClipUrl.CaptureStartsAtMatcherPrefix | index.js:117 | the place the matcher captures from is the latest start of the pattern's group |
| ClipUrl.CaptureStartFromMatcher | index.js:117 | a place the matcher can capture from after a prefix of the pattern is a start of the group, and the capture is the id run there |
| ClipUrl.MatcherCaptureIsLatest | index.js:117 | the place the matcher chooses is the latest start of the group, and its capture is the id run there |
| ClipUrl.MatcherSound | index.js:116-124 | a match of the matcher is a cut of the pattern, and its capture is the longest id run at the latest possible capture start |
| ClipUrl.MatchClipUrlCorrect | index.js:116-124 | the matcher succeeds exactly when the text matches the pattern, and it captures what the regular expression's last group captures |
| ClipUrl.NormalizeClipUrl | index.js:217 | the URL `removeClip` selects and deletes by (index.js:219-222): `https://clips.twitch.tv/` followed by the id. `insertClip` stores Twitch's own `url` instead (index.js:150); `ClipUrl.NormalizedUrlRoundTrip` proves it matches back to that id |
| ClipUrl.NormalizedUrlParts | index.js:216-217 | the normalised URL is the `https://` scheme, the `clips.twitch.tv/` host and the id |
| ClipUrl.ClipIdHasNoChannelPart | index.js:117 | a clip id holds no `/`, so no `<channel>/clip/` part starts it |
| ClipUrl.ClipIdIsItsRun | index.js:117 | a clip id is its own longest id run and holds no white space |
| ClipUrl.NormalizedUrlRoundTrip | index.js:216-217 | the URL built from a clip id matches the pattern and gives back that id |
| ClipUrl.NormalizeIdempotent | index.js:208-217 | normalising the normalised URL of a matching URL changes nothing |
| ClipUrl.NormalizedUrlHasNoQuote | index.js:217-222 | the normalised URL holds no quote, so pasting it into the quoted SQL literal cannot end that literal |
| Routes.Truthy | index.js:105 | JavaScript truthiness, which every `!x` check in the handlers negates: `undefined`, `null`, `false`, `0` and the empty string are falsy, everything else is truthy |
| Routes.IsDateShape | index.js:243 | the regular expression `^\d\d\d\d-\d\d-\d\d$`: ten characters, `-` at positions 4 and 7, ASCII digits elsewhere |
| Routes.ClipsDate | index.js:239-248 | rejected with 422 exactly when the parameter is neither "today" in any case nor of the shape `dddd-dd-dd`. Otherwise it is the clock's Berlin date for "today", or the parameter itself, followed by ` 00:00:00` |
| Routes.MidnightTimestampHasNoQuote | index.js:248-251 | a date with the midnight suffix holds no quote |
| Routes.AcceptedDateIsSafe | index.js:239-251 | every accepted date becomes a midnight timestamp that cannot end the quoted SQL literal it is pasted into (given a clock date of the right shape) |
| Routes.ChannelKey | index.js:264 | the key is `#` followed by the lower-cased name |
| Routes.ChannelKeyIgnoresCase | index.js:264 | two names give the same key exactly when they agree ignoring ASCII case, and a key's name part gives the same key again |
| Routes.SecretCheck | index.js:105-108 | 403 exactly when the header is absent or empty; 401 exactly when it is present but not equal to the secret; passes exactly when it equals a set secret |
| Routes.UnsetSecretAdmitsNobody | index.js:105-108 | with the secret unset or empty, every request is refused |
| Routes.InsertClipCheck | index.js:104-124 | the secret check comes first. Then a missing URL is 400, a non-string URL gets no answer, and a non-matching URL is 422. Otherwise the handler goes on exactly with the pattern's capture |
| Routes.RemoveClipCheck | index.js:197-217 | the same order, except that a non-string URL is 500. The handler goes on with the normalised URL, which matches to the same id and holds no quote |
| Routes.ClipTitle | index.js:146-147 | Twitch's title when non-empty, else the broadcaster's name, so never empty once the broadcaster check has passed |
| Routes.ClipAuthor | index.js:178 | the body's author when given, else "unknown"; never empty |
| Routes.InsertMessageCheck | index.js:308-322 | the API-key check first, then 400 exactly when one of the five fields is missing; otherwise the message goes on unchanged. These checks always end in an answer or in going on; what follows them is outside this member |
| Routes.ParamText | index.js:95 | the text the driver sends for a query parameter: a string as it is, an integer in decimal, a boolean as `true` or `false` |
| Routes.DoesWikiPageExist | index.js:92-102 | false for a missing title; true when the store fails; otherwise whether a page has exactly that title |
| Routes.WikiCreate | index.js:65-90 | 400 exactly when a field is missing, before the password. 401 exactly for a wrong password. 409 exactly when the existence check says so. Past these, a title that is not a string is 500 (its `trim` throws), and a string title goes on to be stored trimmed; going on happens exactly then, and only when the untrimmed title was not found |
| Routes.WikiCreateStoresExistingTrimmed | index.js:79-84 | a padded title whose trimmed form exists passes the check and stores that existing title a second time |
| Routes.WikiCreateAdmitsDuplicate | index.js:79-84 | with a page "Foo", creating " Foo" stores another page "Foo" |
| Routes.StoredTitle | index.js:84 | a string title is stored trimmed and is still a string; a value of any other kind is left as it is |
| Routes.WikiCreateTrimmed | index.js:65-90 | the corrected handler keeps the 400 and 401 answers, answers 409 exactly when the title it stores exists, gives 500 exactly for a title that is not a string past these checks, and otherwise goes on to store the trimmed title |
| Routes.WikiCreateTrimmedNoDuplicate | index.js:79-84 | the corrected handler never stores a non-blank title that is already present, and never stores one while the store fails |
| Routes.WikiCreateTrimmedAgrees | index.js:65-90 | for titles without surrounding white space the corrected handler answers exactly as the one written |

## Left out

- Store faults: every `catch` in `auth.js` answering "Something went wrong" is left out. The model's store always answers; `Routes.DoesWikiPageExist` models one failing store, because its answer is the point of that rule.
- Asynchrony: the model runs each handler to the end before the next call. Two things it therefore does not capture:
  - concurrent `register` calls racing between the name check and the insert;
  - the un-awaited `pool.query` calls in `index.js`, including `removeClip` reading `dbId` before its `SELECT` has answered.
- Auth.AuthStore.Register: `login` is called without `await` in the source, so its rejection passes out of `register` as a rejected promise. The model returns `Login`'s result directly, which is the same outcome.
- `getUserById` is not modelled, because nothing in `auth.js` calls it.
- `auth_routes.js` and `db.js` are not part of this model.
- The cryptographic primitives are parameters, constrained only by `Auth.Sound`.
- Auth.AuthStore.CreateAuthToken: does not promise that the returned token differs from its own digest, the value stored for it. In the program this holds for the random token only with overwhelming probability, and it is not true of every string, so the model does not assume it of the hash.
- Auth.AuthStore.Login: does not promise that the returned token differs from its own digest, for the same reason.
- Auth.AuthStore.Register: does not promise that the returned token differs from its own digest, for the same reason.
- `randomBytes`, the bcrypt salt, the database clock and `moment().tz("Europe/Berlin")` are inputs.
- Routes.ClipsDate: the Berlin clock date is an input, and the shape `dddd-dd-dd` is all that is checked. Impossible dates such as `2024-13-45` pass, as they do in the source.
- The Twitch API request, the response parsing, the 500 for an incomplete Twitch answer, and the `created_at` time-zone conversion are left out.
- Routes.ClipTitle and `Routes.ClipAuthor` state the two defaults, not how the rows are built around them.
- The `fetch` notifications to op47.de are left out.
- Response bodies and log lines are left out. Statuses are modelled as numbers and rejection reasons as `AuthErrors.AuthError`, with `AuthErrors.Message` giving each text.
- Auth.TokenLifecycle and `Auth.IssueAndValidate` assume fresh randomness: the digests of the new tokens are not stored yet, and in `Auth.TokenLifecycle` the two differ. Random bytes that repeat are not covered.
- The rejections "Could not create auth token" (auth.js:110) and "Error loggin in (should never happen)" (auth.js:150) have no constructor, because the source cannot reach them. The first follows a `return`. The second checks a promise, which is always truthy.
- Routes.InsertMessageCheck: the steps after the checks are left out. The conversion `new Date(timestamp * 1000).toISOString()` (index.js:325) throws for a timestamp that is not a number, and the insert (index.js:331-340) can fail. The `catch` (index.js:352-354) only logs either, so no answer follows.
- The `since/:timestamp` conversion with `parseInt` is left out.
- The conversion of message timestamps to epoch milliseconds on the way out is left out.
- JsString.LowerAscii: `toLowerCase` is modelled on ASCII only. This is exact for the comparisons with "bearer" and "today", but not for channel names with other letters.
- Routes.ChannelKey: the key is lower-cased on ASCII letters only, so a channel name with non-ASCII letters, such as `Ä`, keeps them where JavaScript's `toLowerCase` (index.js:264) would lower them.
- JSON values are `Undefined`, `Null`, booleans, integers and strings. Fractional numbers, arrays and objects in a request body are left out.
- The SQL text that `index.js` builds by concatenation is modelled only as far as the quote-freedom of the inserted values.
- Strings are sequences of Unicode scalar values as `char`. A character outside the Basic Multilingual Plane is one `char` here but two UTF-16 code units in JavaScript, so lengths and indices differ for such text. None of the modelled checks depends on them: the header, date, key and clip-URL rules only look at ASCII characters and at the white-space set, which lies in the Basic Multilingual Plane.
- Lone surrogates, which a JavaScript string can hold, cannot be represented as `char` and are left out.
- Routes.WikiCreateTrimmedNoDuplicate: a title of white space only is truthy, so it passes the 400 check in the source and is stored as the empty title. The corrected handler keeps that behaviour, and the lemma excludes the blank title.
- The read-only routes `GET /wiki/pages`, `GET /wiki/page/:title` and the message and clip listings are left out, because they only pass the store's rows through. Two of their rules are modelled: the date of `GET /clips/:date` (`Routes.ClipsDate`) and the channel key of `GET /messages/:channel_name` (`Routes.ChannelKey`).
- The 400 for a missing title in `GET /wiki/page/:title` (index.js:47-50) is left out. It cannot fire, because Express matches that route only with a non-empty parameter.

## Findings

| source | as written | input that shows it | evidently intended | confidence | as-written member | corrected member |
|---|---|---|---|---|---|---|
| index.js:79-84 | the existence check uses the title as sent, but the insert stores `title.trim()` | with an existing page "Foo", creating the title " Foo" | check the title that is stored, so that no second "Foo" is created | not executed; proved about the model | Routes.WikiCreateAdmitsDuplicate | Routes.WikiCreateTrimmedNoDuplicate |
