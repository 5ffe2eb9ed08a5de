# Chirpy: chirp moderation and the login and registration decisions, in Dafny

Chirpy is a small social-posting HTTP API written in Go. Users post short
messages called chirps. This project models the decision logic on its write
path and its login path:

- `replaceProfane` is the profanity filter. It splits a chirp into
  whitespace-separated words. It overwrites every word whose lower-case form is
  `kerfuffle`, `sharbert` or `fornax` with `****`. It then rejoins the words
  with single spaces. The source has two copies of it, one in chirps.go and
  one in handlerValidateChirp.go.
- The chirp length gate, in `handlerPostChirp`, which stores the chirp, and in
  `handlerValidateChirp`, which only reports the cleaned body. A body of 0
  bytes is "Chirp malformed". A body of more than 140 bytes is "Chirp is too
  long". Any other body is filtered.
- `handlerCreateUser`, the registration handler, and `handleLogin`, the login
  handler, including the clamp on the access-token lifetime.

Files:

- `go_strings.dfy` (module `GoStrings`) models Go's `strings.Fields`,
  `strings.Join` and `strings.ToLower` over bytes. It proves that the fields
  of a string, joined with single spaces, are the string with its white space
  trimmed and squeezed, that splitting a single-space join of words gives the
  words back, and a few facts about lengths, white space and letter case.
- `profanity.dfy` (module `Profanity`) has `Cleaned`, the function that says
  what `replaceProfane` returns, and the filter's properties.
- `chirps.dfy` (module `Chirps`) has `replaceProfane` from chirps.go as a
  method. Like the source, the method overwrites the words in place in an
  array, inside a loop over the denylist nested around a loop over the words.
  The inner loop is the method `MaskPass`, so that each loop is proved
  against its own contract; the copy in handlerValidateChirp.go, whose inner
  loop is the same, calls it too.
  The same file has the `handlerPostChirp` decision.
- `validate_chirp.dfy` (module `ValidateChirp`) has the copy of
  `replaceProfane` from handlerValidateChirp.go and the `handlerValidateChirp`
  decision.
- `users.dfy` (module `Users`) has registration, login and the lifetime clamp.
- `wrappers.dfy` (module `Wrappers`) has the `Option` type.
- `http_status.dfy` (module `HttpStatus`) has the HTTP status codes the
  handlers answer with.

A Go string is modelled as its bytes. Go's `len` counts bytes, so the 140 limit
is a limit on bytes. The handlers are functions. Their inputs are the
JSON-decoded request (`None` when decoding fails) and the database and `auth`
collaborators, passed in as function parameters. Each collaborator gives its
result for the arguments it is called with. The posting handler returns the insert
it asks the database for and its reply; the validation handler returns its
reply alone. A user handler returns the list of
collaborator calls it makes, in order, and the list of replies it writes, in
order. Every reply is a status code with either an error message or a body.

Four facts about the code that a reader might expect otherwise:

- The length limit counts bytes, not characters (`len` of a Go string).
- The denylist is hard-coded in `replaceProfane`; it cannot be configured.
- Login tells "User not found" (401) apart from "Password incorrect" (401).
- Login returns an access token only. It issues no refresh token.

## Model

| member | source | states |
|---|---|---|
| `GoStrings.LeadingWord` | chirps.go:34 | the length of the leading run of non-space bytes: every byte before it is non-space, and the byte at it, if any, is white space |
| `GoStrings.Fields` | chirps.go:34 | every field is a non-empty run of non-space bytes |
| `GoStrings.Join` | chirps.go:43 | joining no words gives the empty string; otherwise the result starts with the first word and ends with the last |
| `GoStrings.ToLower` | chirps.go:37 | the result has as many bytes as the input |
| `GoStrings.ToLowerChangesOnlyUpper` | chirps.go:37 | no upper-case ASCII letter is left, and a byte changes only when it is an upper-case letter, into the same letter in lower case |
| `GoStrings.ToLowerIdempotent` | chirps.go:37 | lower-casing twice gives the same as lower-casing once |
| `GoStrings.ToLowerEqualIff` | chirps.go:37 | two strings lower-case to the same string if and only if they have the same length and agree byte by byte up to ASCII letter case |
| `GoStrings.FieldsJoinIsSqueeze` | chirps.go:34 | for every string, its fields joined by single spaces are the string with the white space at both ends dropped and each inner run of white space replaced by one space (`Squeeze`, defined by a byte-by-byte scan) |
| `GoStrings.FieldsOfSqueeze` | chirps.go:34 | a string and its squeezed form have the same fields, so the fields are exactly the words `Squeeze` separates |
| `GoStrings.FieldsAcrossRuns` | chirps.go:34 | the bytes of `" a  \t b "` have the fields `a` and `b`: a run of several white-space bytes of mixed kinds separates two words and drops neither |
| `GoStrings.FieldsOfJoin` | chirps.go:34-43 | splitting a single-space join of words gives back exactly those words |
| `GoStrings.JoinSingleSpaced` | chirps.go:43 | a single-space join of words has no leading or trailing white space, and its only white space is single spaces |
| `GoStrings.FieldsEmptyIffBlank` | chirps.go:34 | a string has no fields if and only if every byte is white space |
| `GoStrings.JoinNoLongerThanSource` | chirps.go:34-43 | rejoining words no longer than the fields of `s` gives a string no longer than `s` |
| `Profanity.GrawlixIsClean` | chirps.go:28-33 | the mask `****` is already lower case, is a word, and is not on the denylist |
| `Profanity.ProfanitiesAreLong` | chirps.go:29-33 | every denylisted word is a word of at least 6 bytes |
| `Profanity.MaskWord` | chirps.go:35-40 | a filtered word is the word or `****`; lower-cased it is never denylisted; a word that is not denylisted is kept; it never grows, and a word stays a word |
| `Profanity.Cleaned` | chirps.go:27-44 | the filtered chirp has no leading or trailing white space and its words are separated by exactly one space; it is never longer, in bytes, than the input; it is empty if and only if the input is empty or all white space |
| `Profanity.MaskedByStep` | chirps.go:35-41 | one pass of the inner loop over a word applies one more denylisted word; a word already masked stays masked |
| `Profanity.MaskedByAll` | chirps.go:35-43 | after the whole denylist, joining the words gives `Cleaned(s)` |
| `Profanity.CleanedWordByWord` | chirps.go:34-43 | the output has as many words as the input; output word i is `****` if input word i lower-cased is denylisted, and otherwise input word i, in the same order |
| `Profanity.NoProfanityLeft` | chirps.go:29-41 | no output word, lower-cased, is `kerfuffle`, `sharbert` or `fornax` |
| `Profanity.CleanedIdempotent` | chirps.go:28-43 | filtering twice gives the same result as filtering once |
| `Profanity.CleanJoinIsFixed` | chirps.go:27-44 | words none of which is denylisted, joined by single spaces, pass the filter unchanged |
| `Profanity.ProfanitiesAreLower` | chirps.go:29-33 | every denylisted word is already lower case |
| `Profanity.MaskedIffEqualFold` | chirps.go:35-40 | a word is replaced if and only if it equals a denylisted word up to ASCII letter case |
| `Profanity.MaskAll` | chirps.go:35-41 | filtering every word keeps the number of words, leaves no word that is denylisted when lower-cased, and keeps words words |
| `Profanity.WholeWordCaseInsensitive` | chirps.go:37 | `KerFuffle` is masked; `kerfuffle!` is kept unchanged |
| `Profanity.SampleChirp` | chirps.go:27-44 | "This is a kerfuffle opinion I need to share" becomes "This is a **** opinion I need to share" |
| `Chirps.MaskPass` | chirps.go:36-40 | the inner loop, run in place over the array of fields for the `p`-th denylisted word, leaves every field masked by the first `p + 1` denylisted words |
| `Chirps.ReplaceProfane` | chirps.go:27-44 | the in-place masking loops followed by the join return exactly `Cleaned(s)` |
| `Chirps.PostChirp` | chirps.go:46-131 | an insert is requested if and only if the decoded body has 1 to 140 bytes, and it holds `Cleaned(body)` and the request's user id; a decode error gives 500, an empty body gives 400 "Chirp malformed", a body over 140 bytes gives 400 "Chirp is too long"; after an insert, the reply is 201 echoing the stored body and user id if the database accepts it, and 400 "Couldn't process the chirp into database" otherwise |
| `Chirps.StoredBodyFits` | chirps.go:82-102 | a stored body is no longer than the raw body, which is at most 140 bytes |
| `Chirps.StoredBodyIsClean` | chirps.go:96-102 | a stored body is single-spaced and has no denylisted word |
| `Chirps.BlankBodyStoredEmpty` | chirps.go:82-102 | a body of 1 to 140 white-space bytes passes the gate and is stored as the empty string |
| `ValidateChirp.ReplaceProfane` | handlerValidateChirp.go:18-35 | this copy also returns exactly `Cleaned(s)`, so it agrees with the chirps.go copy on every input; its inner loop, identical to the one in chirps.go, is `Chirps.MaskPass` |
| `ValidateChirp.Validate` | handlerValidateChirp.go:37-99 | a decode error gives 500 "Something went wrong"; an empty body gives 400 "Chirp malformed"; a body over 140 bytes gives 400 "Chirp is too long"; a body of 1 to 140 bytes gives 200 with `cleaned_body == Cleaned(body)`; each of these holds in both directions |
| `ValidateChirp.Boundaries` | handlerValidateChirp.go:57-84 | 0 bytes are refused, 1 and 140 bytes are cleaned, 141 bytes are too long |
| `ValidateChirp.ExactlyOneOutcome` | handlerValidateChirp.go:57-88 | every decoded body gets exactly one of malformed, too long and cleaned |
| `ValidateChirp.CleanedReplyIsClean` | handlerValidateChirp.go:84-88 | a cleaned body is at most 140 bytes, single-spaced and has no denylisted word; it is empty if and only if the body is all white space |
| `ValidateChirp.AgreesWithPostChirp` | handlerValidateChirp.go:57-88 | validation cleans a body if and only if posting stores it, and the reported body is the stored one |
| `Users.Wrap64` | users.go:105 | a value that fits 64 bits is kept; any other value is reduced modulo 2^64 |
| `Users.HandleCreateUser` | users.go:14-66 | exactly one reply; a decode error gives 500 "Something went wrong"; an empty password is refused with 400 "No password provided" before the hasher is called; the e-mail is not checked; a failed hash gives 500 "Something went wrong" with no insert; a successful hash is always followed by the insert, which receives the hash, not the password; a failed insert gives 400 "Could not create user"; success (201) happens if and only if hashing and the insert succeed, and the returned user is the created row with `HashedPassword == ""` |
| `Users.ExpiresInAsWritten` | users.go:101-106 | 0 and anything over 3600 give 3600 s; every other value down to -9223372036 passes through unclamped, negatives included; below that the lifetime only agrees with `seconds * time.Second` modulo 2^64 |
| `Users.ExpiresInAsWrittenOverflows` | users.go:101-106 | `expires_in_seconds = -9223372037` gives a lifetime of 9223372036709551616 ns, far over one hour |
| `Users.ExpiresIn` | users.go:101-106 | the corrected lifetime is never more than 3600 s; 0 and over 3600 give 3600 s; other values pass through; values whose product would overflow saturate at the smallest duration |
| `Users.ExpiresInAgrees` | users.go:101-106 | the corrected lifetime equals the written one wherever the product fits 64 bits |
| `Users.HandleLogin` | users.go:68-149 | a decode error gives 500; an empty e-mail gives 400 "No e-mail provided", then an empty password gives 400 "No password provided", both before any lookup; the first call is the lookup; a failed lookup gives 401 "User not found"; for a found user the second call compares the password with that user's stored hash; a failed comparison writes 500 "Something went wrong" first and the handler carries on, so it writes two replies, and every other request writes one; a mismatch makes no third call and ends with 401 "Password incorrect"; a token is requested if and only if the user was found and the password matched, with the clamped lifetime; a failed mint ends with 500 "Something went wrong"; the login succeeds if and only if the token is minted, and then the reply carries the user's id, timestamps and e-mail and the token, with no hash field |
| `Users.LoginCompareFailureRepliesTwice` | users.go:115-123 | a failed hash comparison writes two replies: 500 "Something went wrong" and then 401 "Password incorrect" |
| `Users.LoginMintsOverlongToken` | users.go:101-124 | with a matching password and `expires_in_seconds = -9223372037`, a token is requested with a lifetime over one hour |
| `Users.HandleLoginCorrected` | users.go:68-149 | the corrected handler makes at most three calls and writes exactly one reply; the decode, e-mail, password and lookup branches are answered as written; a failed comparison is answered with 500 "Something went wrong" alone, after the lookup and the comparison; a mismatch with 401 "Password incorrect" alone; a token is requested, as the third and last call, exactly when the user was found and the comparison matched without error, and then for that user with the lifetime `ExpiresIn(expires_in_seconds)`, which is at most one hour; a minted token gives 200 with the user's public fields and that token, a failed mint gives 500 |
| `Users.LoginCorrectionAgrees` | users.go:68-149 | when no hash comparison fails and the lifetime does not overflow, the corrected handler gives the same outcome as the one as written |

## Left out

- HTTP, JSON decoding and encoding, headers and logging are not modelled. A
  failed decode is the input `None`. A reply is a status code with either a
  message or a body.
- `Users.HandleCreateUser`, `Users.HandleLogin`: the model assumes that
  `json.Marshal` of the reply succeeds. It can fail, because a `time.Time`
  whose year is outside 0 to 9999 does not marshal. Then registration writes
  201 with an empty body (users.go:59-64), and login writes 200 with an empty
  body and then writes again, since that branch has no `return`
  (users.go:143-148). These branches are not modelled.
- The `auth` package (`HashPassword`, `CheckPasswordHash`, `MakeJWT`) is not
  part of this model. Each of these is a function parameter. So is each
  database call (`CreateUser`, `GetUserByEmail`, `CreateChirp`). The row that
  `CreateChirp` returns is discarded by the source, so only its success is an
  input.
- `GoStrings.Fields`, `GoStrings.ToLower`: only ASCII is handled. Go switches
  to Unicode rules when a string has a non-ASCII byte. In those rules the
  multi-byte spaces (U+0085, U+00A0, U+2000 to U+200A and others) also split
  words, and `strings.ToLower` maps some non-ASCII letters to ASCII. For
  example, the Kelvin sign U+212A becomes `k`, so in Go it can turn a word into
  a denylisted one. The model treats every byte at or above 0x80 as a letter
  it leaves alone.
- `Chirps.PostChirp`: the user id comes straight from the request body, with
  no authentication or ownership check, as in the source.
- `handlerGetChirps`, which copies database rows into the reply, is not
  modelled. Neither are main.go (server wiring), handlerHits.go (an atomic hit
  counter), handlerCreateUser.go (an older registration handler) or
  generateErrorResp.go (JSON error bodies).
- Refresh tokens, bearer-token extraction and ownership checks are not
  implemented in any of the modelled files.
- `Users.HandleLogin`: when the hash comparison fails, Go writes a second
  status header and appends a second JSON body. The model records both
  replies in order. It does not model how the HTTP server merges them: it
  keeps the first status and concatenates the bodies.
- `Users.HandleLogin`: the token expiry is computed as `now +
  lifetime`. The clock is not modelled, only the lifetime handed to `MakeJWT`.

## Findings

| source | as written | input that shows it | evidently intended | confidence | as-written member | corrected member |
|---|---|---|---|---|---|---|
| users.go:101-106 | `time.Duration(ExpiresInSeconds) * time.Second` is computed in 64 bits, and only 0 and values above 3600 are clamped | `expires_in_seconds = -9223372037`: the product wraps to 9223372036709551616 ns, about 292 years | a lifetime of at most one hour | high (not executed) | `Users.ExpiresInAsWrittenOverflows` | `Users.ExpiresIn` |
| users.go:115-119 | after `CheckPasswordHash` returns an error, the handler writes a 500 reply and does not return | a stored hash that the comparison cannot parse: the handler writes 500 and then 401 "Password incorrect" | one reply per request, with a return after the 500, as every other error branch has | high (not executed) | `Users.LoginCompareFailureRepliesTwice` | `Users.HandleLoginCorrected` |
