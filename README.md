# Bearer-token authorizer of a serverless TODO backend

This project models the API Gateway custom authorizer of a serverless TODO
application (`backend/src/lambda/auth/auth0Authorizer.ts`). Every request to the
TODO API first passes through this authorizer. It reads the `Authorization`
header, extracts the bearer token, decodes the token's header, fetches the
identity provider's JSON Web Key Set (JWKS), selects the signing key named by
the token's `kid` (key identifier), verifies the token with RS256 as the only
allowed algorithm, and answers with an Allow or Deny policy.

The authorizer is pure logic once its I/O is factored out, so the model is
written as datatypes, functions and lemmas:

- `Wrappers` defines `Option` and `Result`. `None` stands for JavaScript's
  `undefined` or `null`, and `Failure` stands for a thrown exception.
- `AuthErrors` has one constructor for each way the pipeline can throw.
- `JsText` models the string built-ins the code relies on: `toLowerCase`,
  `startsWith`, `split(' ')` and `join`. `split` is proved against `join`
  in both directions.
- `BearerToken` models `getToken`.
- `Pem` models `certToPEM`. This covers the regular-expression chunking
  `/.{1,64}/g` at line 116 and the hard-coded certificate that line 117
  returns in its place. That certificate is the single value
  `EmbeddedCertificate` of the datatype `Certificate`. Its `Text()` is the
  template literal of lines 117-135, character for character.
- `SigningKeys` models the filter → map → find of `getSigningKey`. It is
  proved equal to a one-pass reference search over the raw key set.
- `Authorizer` models `verifyToken` and `handler`. The JWT library's `decode`
  and `verify` are function-valued parameters. The fetched key set is a
  parameter too: `None` means the GET failed or its body had no `keys` array.

The model follows the code in these places, where its behaviour may be
unexpected:

- The scheme check runs on the lower-cased header, so `"BEARER x"` is accepted.
- The token is the second field of `split(' ')`, so `"Bearer "` and
  `"Bearer  x"` both yield the empty token instead of an error. That empty
  token is then passed on to `decode`.
- `certToPEM` discards its chunked input and always returns the certificate
  embedded at lines 117-135. The key passed to `verify` is therefore the same
  for every key in the key set.
- The `map` of line 100 runs before the `find` of line 104, and it is
  eager. If any candidate key's first certificate has no character that `.`
  matches (an empty string, for instance), `match` returns `null` and
  `.join` throws. The whole lookup then fails, even when a different key
  carries the requested `kid`. The filter at line 99 does not exclude this
  case.
- A Deny decision always reports the principal `"user"`.

## Model

| member | source | states |
|---|---|---|
| `JsText.LowerCharSpace` | backend/src/lambda/auth/auth0Authorizer.ts:76 | lower-casing turns a character into a space exactly when it is a space, so the scheme test sees the header's own spaces |
| `JsText.StartsWithLowerIsCaseInsensitive` | backend/src/lambda/auth/auth0Authorizer.ts:76 | for a pattern with no upper-case letter, `StartsWith(Lower(s), p)` (ASCII `toLowerCase`, built from `LowerChar`, then `startsWith`) holds exactly when each character at the pattern's positions is the pattern's character or, for a letter, its upper-case form |
| `JsText.Join` | backend/src/lambda/auth/auth0Authorizer.ts:116 | `join` starts with the first part and is as long as all parts plus one separator between each two |
| `JsText.Split` | backend/src/lambda/auth/auth0Authorizer.ts:79 | `split(' ')` always yields at least one field |
| `JsText.SplitFieldsHaveNoSeparator` | backend/src/lambda/auth/auth0Authorizer.ts:79 | no field of a split contains the separator |
| `JsText.JoinSplit` | backend/src/lambda/auth/auth0Authorizer.ts:79 | joining the fields of a split with the separator gives back the original text |
| `JsText.SplitWithoutSeparator` | backend/src/lambda/auth/auth0Authorizer.ts:79 | text without the separator splits into itself alone |
| `JsText.SplitAtFirstSeparator` | backend/src/lambda/auth/auth0Authorizer.ts:79-80 | the first separator ends the first field; the later fields are the split of the text after it |
| `JsText.FirstField` | backend/src/lambda/auth/auth0Authorizer.ts:79-80 | the first field is the longest separator-free prefix: a prefix, free of the separator, and followed by the separator or the end |
| `JsText.SplitJoin` | backend/src/lambda/auth/auth0Authorizer.ts:116 | splitting text joined from separator-free fields gives back exactly those fields |
| `BearerToken.SchemeTestIsAsciiCaseInsensitive` | backend/src/lambda/auth/auth0Authorizer.ts:76-77 | the scheme test `StartsWith(Lower(h), "bearer ")` accepts exactly the headers whose first seven characters spell "bearer " with any of its letters in either case |
| `BearerToken.AcceptedSchemeSpaces` | backend/src/lambda/auth/auth0Authorizer.ts:76-77 | a header that passes the case-insensitive test has a space at position 6 and none before it |
| `BearerToken.AcceptedHeaderFields` | backend/src/lambda/auth/auth0Authorizer.ts:79-80 | a header that passes has at least two fields, so `split[1]` is defined, and it is the first field after the scheme |
| `BearerToken.GetToken` | backend/src/lambda/auth/auth0Authorizer.ts:73-83 | fails "No authentication header" exactly when the header is absent or empty; fails "Invalid authentication header" exactly when a non-empty header, lower-cased, does not start with "bearer "; fails no other way; returns the text from the scheme's space to the next space or to the end |
| `BearerToken.TokenFieldUnique` | backend/src/lambda/auth/auth0Authorizer.ts:79-82 | the description of the returned token singles out one string |
| `BearerToken.SchemeCaseInsensitive` | backend/src/lambda/auth/auth0Authorizer.ts:76-77 | headers that differ only in the casing of their first seven characters get the same outcome |
| `BearerToken.TokenHasNoSpace` | backend/src/lambda/auth/auth0Authorizer.ts:79-82 | a returned token never contains a space |
| `BearerToken.DoubleSpaceYieldsEmptyToken` | backend/src/lambda/auth/auth0Authorizer.ts:79-82 | `"Bearer  x"` yields the empty token, not an error |
| `BearerToken.BareSchemeYieldsEmptyToken` | backend/src/lambda/auth/auth0Authorizer.ts:76-82 | `"Bearer "` passes both checks and yields the empty token |
| `Pem.RunLength` | backend/src/lambda/auth/auth0Authorizer.ts:116 | counts the leading characters that `.` matches: all of them match, and the next character, if any, is a line terminator |
| `Pem.RunLengthStopsAtTerminator` | backend/src/lambda/auth/auth0Authorizer.ts:116 | a run of matchable characters ends at the first line terminator, whatever follows it |
| `Pem.Matches` | backend/src/lambda/auth/auth0Authorizer.ts:116 | every match of `/.{1,64}/g` holds 1 to 64 characters and no line terminator |
| `Pem.MatchesCoverText` | backend/src/lambda/auth/auth0Authorizer.ts:116 | the matches, read in order, are the certificate with its line terminators removed |
| `Pem.MatchesSplitAtTerminator` | backend/src/lambda/auth/auth0Authorizer.ts:116 | no match spans a line terminator: the matches of a text cut at a terminator are those of the part before it followed by those of the part after it |
| `Pem.WithoutLineTerminatorsOfRun` | backend/src/lambda/auth/auth0Authorizer.ts:116 | a prefix without line terminators is kept whole when terminators are removed |
| `Pem.NoMatchesIff` | backend/src/lambda/auth/auth0Authorizer.ts:116 | `match` returns null exactly when every character is a line terminator (`IsLineTerminator`: line feed, carriage return, U+2028, U+2029, the characters `.` does not match), including the empty string |
| `Pem.WithoutLineTerminatorsEmptyIff` | backend/src/lambda/auth/auth0Authorizer.ts:116 | removing line terminators leaves nothing exactly when every character is one |
| `Pem.MatchesAreFullWidth` | backend/src/lambda/auth/auth0Authorizer.ts:116 | on a certificate without line terminators, every line but the last is exactly 64 characters |
| `Pem.ChunkLines` | backend/src/lambda/auth/auth0Authorizer.ts:116 | line 116 throws exactly when `match` finds nothing; otherwise the lines of its result are exactly the matches |
| `Pem.CertToPem` | backend/src/lambda/auth/auth0Authorizer.ts:115-137 | succeeds exactly when the certificate has a character other than a line terminator; the result is then the embedded certificate, the only value of `Certificate`; otherwise it fails as line 116 does |
| `Pem.CertToPemIgnoresInput` | backend/src/lambda/auth/auth0Authorizer.ts:115-137 | any two certificates on which line 116 does not throw give the same result; because the result type has a single value, this holds by construction |
| `Pem.EmptyCertificateFails` | backend/src/lambda/auth/auth0Authorizer.ts:116 | an empty certificate makes `certToPEM` throw |
| `SigningKeys.SigningCandidates` | backend/src/lambda/auth/auth0Authorizer.ts:96-99 | a key survives the filter callback `IsSigningCandidate` (written with JavaScript truthiness) exactly when `use` is "sig", `kty` is "RSA", `kid` is non-empty and `x5c` is non-empty; the filter never grows the list |
| `SigningKeys.SigningCandidatesAppend` | backend/src/lambda/auth/auth0Authorizer.ts:96-99 | filtering distributes over concatenation, so the survivors keep their relative order |
| `SigningKeys.ToSigningKeys` | backend/src/lambda/auth/auth0Authorizer.ts:100-102 | the map throws exactly when some candidate's first certificate (`FirstCertificate`, `x5c[0]`) makes `certToPEM` throw; otherwise it gives one record per candidate, in order, with that candidate's `kid` and `nbf` unchanged and the embedded certificate as public key |
| `SigningKeys.FindByKid` | backend/src/lambda/auth/auth0Authorizer.ts:104 | finds nothing exactly when no record has the requested `kid`; otherwise returns the first record that does |
| `SigningKeys.GetSigningKey` | backend/src/lambda/auth/auth0Authorizer.ts:94-111 | a key it returns carries the requested `kid` and the embedded certificate |
| `SigningKeys.FirstCandidateWithKid` | backend/src/lambda/auth/auth0Authorizer.ts:96-104 | the reference search returns only keys that pass the filter and carry the requested `kid` |
| `SigningKeys.FirstCandidateWithKidIsFirst` | backend/src/lambda/auth/auth0Authorizer.ts:96-104 | the reference search finds nothing exactly when no filtered key has the `kid`; otherwise it returns the first filtered key that has it |
| `SigningKeys.GetSigningKeyIsFirstMatch` | backend/src/lambda/auth/auth0Authorizer.ts:94-111 | filter → map → find equals the one-pass reference: it fails if any candidate's certificate cannot be chunked, then fails with "Invalid signing keys" if no candidate has the `kid`, and otherwise returns the first such candidate's `kid` and `nbf` |
| `SigningKeys.UnchunkableIff` | backend/src/lambda/auth/auth0Authorizer.ts:99-102 | the map over the filtered keys throws exactly when some candidate of the raw key set has a certificate that cannot be chunked |
| `SigningKeys.FindAfterMap` | backend/src/lambda/auth/auth0Authorizer.ts:100-104 | once the map succeeds, `find` returns the record built from the first candidate with the requested `kid` |
| `SigningKeys.GetSigningKeySuccess` | backend/src/lambda/auth/auth0Authorizer.ts:104-111 | on success the key comes from an index of the raw key set whose key passes the filter, has the `kid`, and has no filtered key with that `kid` before it; `kid` and `nbf` are kept |
| `SigningKeys.UnknownKidFails` | backend/src/lambda/auth/auth0Authorizer.ts:104-108 | if no filtered key has the requested `kid`, the lookup fails |
| `SigningKeys.EmptyCertificateFailsEveryLookup` | backend/src/lambda/auth/auth0Authorizer.ts:96-116 | a key that passes the filter with an empty first certificate makes every lookup fail, whatever `kid` is requested |
| `Authorizer.VerifyToken` | backend/src/lambda/auth/auth0Authorizer.ts:58-71 | succeeds exactly when the header yields a token, the token decodes, its header's `kid` selects a signing key, and `verify` accepts the token against the embedded certificate with `["RS256"]`; the payload is then what `verify` returned; a header that `getToken` rejects fails with `getToken`'s error |
| `Authorizer.Decision` | backend/src/lambda/auth/auth0Authorizer.ts:26-54 | both literal results are well-formed decisions with the given effect and principal |
| `Authorizer.Handler` | backend/src/lambda/auth/auth0Authorizer.ts:17-56 | always returns one well-formed decision: version "2012-10-17", one statement, action "execute-api:Invoke", resource "*"; Allow exactly when `verifyToken` succeeds, with principal `sub`; otherwise Deny with principal "user" |
| `Authorizer.AllowedRequestsAreVerified` | backend/src/lambda/auth/auth0Authorizer.ts:22-38 | an allowed request had a bearer token that decodes, a key set with a filtered key carrying the token's `kid`, and acceptance by `verify` with RS256 only; the principal is that payload's subject |
| `Authorizer.VerifiedRequestsAreAllowed` | backend/src/lambda/auth/auth0Authorizer.ts:22-38 | on the raw inputs: a bearer token that decodes, a fetched key that passes the filter with the token's `kid`, no candidate with an unchunkable certificate, and acceptance by `verify` with RS256 give Allow with the payload's `sub` |
| `Authorizer.AllowedTokensDeclareRS256` | backend/src/lambda/auth/auth0Authorizer.ts:69 | if `verify` honours its algorithm list, every allowed token declares RS256 |
| `Authorizer.MissingHeaderIsDenied` | backend/src/lambda/auth/auth0Authorizer.ts:74 | an absent or empty header is denied with principal "user" |
| `Authorizer.NonBearerHeaderIsDenied` | backend/src/lambda/auth/auth0Authorizer.ts:76-77 | a header without the bearer scheme is denied |
| `Authorizer.UndecodableTokenIsDenied` | backend/src/lambda/auth/auth0Authorizer.ts:60-66 | a token that `decode` turns into null is denied |
| `Authorizer.UnknownKidIsDenied` | backend/src/lambda/auth/auth0Authorizer.ts:68 | a token whose `kid` names no filtered key is denied, whatever `verify` would say |
| `Authorizer.UnavailableKeySetIsDenied` | backend/src/lambda/auth/auth0Authorizer.ts:86-94 | when the key set cannot be fetched, every request is denied |

## Left out

- The HTTP GET of the JWKS URL (lines 86-92) is network I/O. The fetched key set is an input, and `None` covers a failed request or a body without a `keys` array. The URL constant and the request headers are not modelled.
- `decode` and `verify` from `jsonwebtoken` (lines 60 and 69) are foreign cryptography. They are function parameters. Signature checking and claim checks such as expiry are theirs and are not modelled. The model keeps two facts: `verify` receives exactly `["RS256"]` as its algorithms, and it receives the key chosen by the lookup. `AllowedTokensDeclareRS256` states the RS256 restriction under the assumption that `verify` honours its list.
- The public key is modelled as the `Certificate` value, not as the PEM string itself. `verify` receives that value, and `Certificate.Text()` gives the exact string. The literal is about 1,200 characters long. Keeping it inside the key-selection and authorizer proofs made them too costly for the verifier. No lemma states facts about the characters of `Text()`, for the same reason.
- `verify` can also return a plain string payload; the model treats its result as an object with an optional `sub`.
- Promises and `async`/`await` are not modelled. Every rejection inside `verifyToken` reaches the `catch` of `handler`, exactly as a thrown error does.
- Logging (`logger.info`, `logger.error`) has no effect on the decision and is left out.
- `JsText.Lower`: lower-cases ASCII letters only. Full Unicode `toLowerCase` can change a string's length, which the model does not capture. Non-ASCII characters cannot lower-case to the ASCII "bearer ", so which headers are accepted does not change.
- Characters are Dafny characters, not UTF-16 code units. So the 64-character limit of `/.{1,64}/g` counts Unicode scalar values. Certificates are base64 text, where the two counts agree.
- JSON fields of `keys` entries are modelled as optional strings (`use`, `kty`, `kid`), an optional integer (`nbf`) and an optional list of strings (`x5c`). JavaScript truthiness on values of other types (a numeric `kid`, a string `x5c`) is not modelled.
- `backend/src/businessLogic/todo.ts` is left out. It only forwards to a data-access class and a user-id parser, and neither is part of this model. Its only local facts are the literal fields of the records it builds (`done: false`, a fresh `createdAt`).
- `backend/src/lambda/http/getTodos.ts`, `createTodo.ts` and `deleteTodo.ts` are left out: they are HTTP, middleware and CORS glue. As written, `getTodos.ts:28` and `createTodo.ts:23` pass an already-parsed user id where `todo.ts` expects a JWT. `deleteTodo.ts:26` also omits the token argument that `todo.ts:38-41` requires.
- `client/src/types/CreateTodoRequest.ts` is a type declaration with no behaviour.
