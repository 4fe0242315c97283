# Password manager backend: a Dafny model

This project models the server core of a small password manager. The
backend is an Express application on MongoDB. Users register and log in
with an email and a password, or sign in with Google. Each user keeps a
private list of credentials: site, username, category and notes, plus a
password that is stored only as an AES-256-CBC envelope,
`hex(iv) ":" hex(ciphertext)`.

The model is split into modules that follow the source files:

| module (file) | source |
|---|---|
| `Common` (`common.dfy`) | shared values: optional fields, thrown errors, HTTP replies |
| `JsStrings` (`js_strings.dfy`) | the JavaScript string operations the backend relies on |
| `CredentialModel` (`credential_model.dfy`) | `backend/models/Credential.js` |
| `CredentialRoutes` (`credential_routes.dfy`) | `backend/routes/credentials.js` |
| `Users` (`users.dfy`) | the user records that the auth routes and the Google strategy share |
| `AuthRoutes` (`auth_routes.dfy`) | `backend/routes/auth.js`: the guards and the token |
| `Passport` (`passport.dfy`) | `backend/config/passport.js` |
| `UserStore` (`user_store.dfy`) | the users collection as register, login and the Google callback change it |

Modelling decisions:

- **Pure code becomes functions; mutable collections become classes.**
  The schema, the key derivation, the envelope and the cipher are pure
  functions. The credentials collection is the class
  `CredentialStore`, a map from id to record. The users collection is
  the class `UserDirectory`. Their methods modify these maps, and an
  explicit `requester` id stands in for `req.user._id`.
- **Abstract cipher.** AES-256-CBC is a `Cipher` value made of two
  functions, encrypt and decrypt. The ghost predicate `CbcLaws` states
  what the model relies on: decryption inverts encryption, and
  ciphertexts are a non-empty whole number of blocks. Every property
  that needs these laws takes `CbcLaws` as a premise.
- **Key bytes.** The key is the UTF-8 encoding of
  `secret.padEnd(32).slice(0, 32)`. Node accepts it only when it is
  exactly 32 bytes, and `KeyUsableIffAscii` shows that this holds exactly
  when the key string is ASCII. With an unusable key, `encryptPassword`
  throws `Failed to encrypt password` and `decryptPassword` returns
  `null`.
- **Mongoose saves.** `Save` models Mongoose validation and the pre-save
  hook. The `trim` setters run first. Then `required` rejects empty
  strings, `enum` rejects unknown categories, and `updatedAt` is stamped.
  A save that throws becomes the handler's 500 `Server error`, and the
  table is left unchanged.
- **Nondeterministic lookups.** The Google callback queries
  `findOne({$or: [{googleId}, {email}]})`. When several users match,
  the database decides which one comes back. The method picks any
  matching user (`:|`), and the specification `LinkOrCreate` takes that
  choice as a parameter.
- **Timestamps and ids.** `Date.now()` and the random IV are parameters.
  New ids come from a counter that is never reused.

About idempotence of the Google callback: a second run with the same
profile never creates a user (`SecondRunCreatesNothing`). It also changes
nothing when the lookup returns the same user again, or when the first
run changed the table (`SecondRunIsNoOp`). The remaining case is real.
Suppose one user already has the Google id and another user, with no
Google id, has the profile's email. The second lookup may then return
the other user, and the callback attaches the same Google id to it.
`SecondRunMayLinkAnother` gives a concrete table where this happens.

## Model

| member | source | states |
|---|---|---|
| JsStrings.PadEnd | backend/models/Credential.js:55 | padding to n keeps the string as a prefix, fills with spaces, length max(n, len) |
| JsStrings.Slice | backend/models/Credential.js:55 | `slice(0, end)` is the prefix of length min(end, len) |
| JsStrings.Utf8LengthVersusLength | backend/models/Credential.js:55 | UTF-8 length is at least the character count, with equality exactly on ASCII text |
| JsStrings.LeadingWhiteSpace | backend/models/Credential.js:13 | counts the maximal run of white space at the start: all of it is white space and the next character is not |
| JsStrings.TrailingWhiteSpace | backend/models/Credential.js:13 | counts the maximal run of white space at the end: all of it is white space and the character before it is not |
| JsStrings.Trim | backend/models/Credential.js:10-19 | the `trim` setter result is the slice of the input after its leading white space, with only white space after it, and it neither starts nor ends with white space |
| JsStrings.TrimSlice | backend/models/Credential.js:13 | the text between maximal leading and trailing runs of white space is surrounded by white space and has none at either end |
| JsStrings.TrimEmptyIff | backend/models/Credential.js:10-19 | trimming empties a string exactly when it is all white space, which is when `required` then rejects it |
| JsStrings.Split | backend/models/Credential.js:78 | `split(':')` yields at least one piece, and no piece contains the separator |
| JsStrings.SplitFirstPiece | backend/models/Credential.js:78-79 | the first piece is the text before the first colon, and it is empty exactly when the text is empty or starts with a colon |
| JsStrings.SplitSecondPiece | backend/models/Credential.js:78-79 | the second piece is empty exactly when the first colon ends the text or is followed by another colon |
| JsStrings.JoinSplit | backend/models/Credential.js:78 | joining the pieces of a split restores the string |
| JsStrings.SplitJoin | backend/models/Credential.js:78 | colon-free pieces joined by colons split back into the same pieces |
| CredentialModel.ParseCategory | backend/models/Credential.js:24-28 | the enum validator accepts exactly the six category names |
| CredentialModel.CategoryNameRoundTrip | backend/models/Credential.js:24-28 | every stored category name parses back to that category |
| CredentialModel.NewDocument | backend/models/Credential.js:4-41 | a new document trims site, username and notes, defaults category to `general`, and stamps both dates with now |
| CredentialModel.Save | backend/models/Credential.js:4-47 | save succeeds iff the required paths are non-empty and the category is in the enum; the saved record keeps every field of the document and only `updatedAt` is stamped |
| CredentialModel.SaveUnchangedOnlyStamps | backend/models/Credential.js:44-47 | re-saving an unchanged stored record moves only `updatedAt` |
| CredentialModel.EncryptionSecret | backend/models/Credential.js:50 | a set, non-empty variable is the secret; an unset or empty one selects `fallback-32-character-encryption-key` |
| CredentialModel.GetKey | backend/models/Credential.js:54-57 | the key has exactly 32 characters: the secret truncated, or padded with spaces |
| CredentialModel.FallbackKeyIsTruncated | backend/models/Credential.js:50-57 | without `ENCRYPTION_KEY` the secret is the 36-character fallback, and the key derived from it is `fallback-32-character-encryption` |
| CredentialModel.KeyUsable | backend/models/Credential.js:63 | the cipher accepts a key of at most 32 characters, and a 32-character key exactly when it is ASCII |
| CredentialModel.KeyUsableIffAscii | backend/models/Credential.js:55-63 | the key is 32 bytes iff it is ASCII; any ASCII secret gives a usable key; a non-ASCII character in the first 32 gives an unusable one |
| CredentialModel.HexEncode | backend/models/Credential.js:69 | hex text is two lower-case digits per byte |
| CredentialModel.HexDecode | backend/models/Credential.js:83 | lenient hex decoding yields at most half as many bytes as digits |
| CredentialModel.HexRoundTrip | backend/models/Credential.js:69-87 | decoding the hex text of some bytes gives those bytes back |
| CredentialModel.ParseEnvelope | backend/models/Credential.js:78-81 | an envelope parses iff there is a non-empty segment before the first colon and another non-empty segment after it |
| CredentialModel.ParseIgnoresTail | backend/models/Credential.js:78 | segments after the second colon are ignored |
| CredentialModel.NoColonInHex | backend/models/Credential.js:69 | hex text never contains the separator |
| CredentialModel.ParseFormat | backend/models/Credential.js:69-81 | the envelope of non-empty IV and ciphertext parses back into its two hex segments |
| CredentialModel.EncryptPassword | backend/models/Credential.js:59-74 | fails with `Failed to encrypt password` iff the key is unusable; otherwise the text starts with the 32-digit IV and a colon, and under the cipher laws it has the envelope shape |
| CredentialModel.DecryptPassword | backend/models/Credential.js:76-95 | returns null for a malformed envelope or an unusable key; a result implies a 16-byte IV and a ciphertext hex of even length |
| CredentialModel.HexLengthEven | backend/models/Credential.js:65-69 | hex text written by `encryptPassword` has an even number of digits, so `decipher.update` accepts it |
| CredentialModel.EnvelopeRoundTrip | backend/models/Credential.js:59-95 | with a usable key, encryption succeeds, and decrypting its envelope returns the password |
| CredentialModel.DistinctIvsGiveDistinctEnvelopes | backend/models/Credential.js:61-69 | different IVs always give different envelopes |
| CredentialRoutes.FirstInListOrderExists | backend/routes/credentials.js:13-15 | every non-empty set of records has one that sorts first by `createdAt` descending |
| CredentialRoutes.ListOrder | backend/routes/credentials.js:15 | the ordering covers each id exactly once, newest first |
| CredentialRoutes.EntriesOf | backend/routes/credentials.js:13-18 | one entry per id, in order, each the record without its password |
| CredentialRoutes.EntriesListing | backend/routes/credentials.js:13-18 | entries built from the requester's ids in listing order hold exactly the requester's records, once each, newest first |
| CredentialRoutes.Listing | backend/routes/credentials.js:13-18 | over any table, the listing holds exactly the requester's records, once each, without a password, sorted by `createdAt` descending |
| CredentialRoutes.SaveNew | backend/routes/credentials.js:79-88 | a new document is stored iff site and username are not all white space and the category is valid; it then holds the trimmed fields, the envelope and the time |
| CredentialRoutes.SavePatch | backend/routes/credentials.js:127-133 | a patched record is stored iff each field the body sets is valid; set fields change, others keep their values, and owner and `createdAt` stay |
| CredentialRoutes.CreateRecord | backend/routes/credentials.js:77-88 | creation succeeds iff the key is usable, site and username are not all white space, and a given category is valid; the record has the trimmed fields, the requester as owner, category default `general`, and a password that decrypts to the one sent |
| CredentialRoutes.Patch | backend/routes/credentials.js:127-131 | site, username and category change only for truthy values, the envelope only when a new one is given, notes whenever present; trimmed values are assigned; owner and both dates are untouched |
| CredentialRoutes.UpdateRecord | backend/routes/credentials.js:127-133 | an update succeeds iff each supplied field is valid; truthy fields overwrite, notes change whenever present, the password is re-encrypted only when a non-empty one is sent, and owner and `createdAt` never change |
| CredentialRoutes.EmptyUpdateOnlyStamps | backend/routes/credentials.js:127-133 | an update with an empty body changes only `updatedAt` |
| CredentialRoutes.CredentialStore.constructor | backend/routes/credentials.js:1-5 | the store starts empty |
| CredentialRoutes.CredentialStore.List | backend/routes/credentials.js:10-23 | the list holds exactly the requester's records, once each, without a password, sorted by `createdAt` descending |
| CredentialRoutes.CredentialStore.Get | backend/routes/credentials.js:28-61 | 404 unless the requester owns the id; 500 when decryption gives nothing or an empty string; otherwise the record with its password |
| CredentialRoutes.CredentialStore.Create | backend/routes/credentials.js:66-108 | 400 and no change when a required field is falsy; 500 and no change when the save fails; otherwise 201 and exactly one new record under a fresh id, which `Get` returns with the same password |
| CredentialRoutes.CredentialStore.Insert | backend/routes/credentials.js:88 | a saved record is added under a fresh id and nothing else changes |
| CredentialRoutes.CredentialStore.Update | backend/routes/credentials.js:113-151 | 404 and no change for a foreign or missing id; otherwise only that record becomes the `UpdateRecord` result, and `Get` then returns a new password |
| CredentialRoutes.CredentialStore.Delete | backend/routes/credentials.js:156-176 | removes exactly the requester's record with that id; 404 and no change otherwise |
| Users.FindById | backend/config/passport.js:48 | `findById` returns the user stored under that id, or nothing |
| AuthRoutes.JwtSecret | backend/routes/auth.js:6 | a set, non-empty variable is the secret; an unset or empty one selects `fallback-jwt-secret` |
| AuthRoutes.GenerateToken | backend/routes/auth.js:9-11 | the token carries the user id; `iat` is the issue time in whole seconds; `exp` is seven days later |
| AuthRoutes.TokenLifetime | backend/routes/auth.js:10 | a token is accepted up to seven days minus one second after issue and refused from seven days on |
| AuthRoutes.RegisterInputError | backend/routes/auth.js:20-26 | missing fields are reported before a short password, each iff its condition holds, and there is no error iff all fields are present and the password has at least 6 characters |
| AuthRoutes.LoginInputError | backend/routes/auth.js:64-66 | reports `Please provide email and password` iff a field is missing or empty |
| Passport.Link | backend/config/passport.js:20-25 | attaches the Google id only when the user has none, and changes nothing else |
| Passport.NewGoogleUser | backend/config/passport.js:26-34 | a created user has the Google id, display name and email, and no password |
| Passport.LinkOrCreate | backend/config/passport.js:13-34 | one run keeps every existing user id and adds at most the new id; afterwards some user matches the profile |
| Passport.LinkOrCreateFrame | backend/config/passport.js:12-35 | one run touches only the picked user, or adds exactly one new user; afterwards some user matches the profile |
| Passport.LinkNeverOverwrites | backend/config/passport.js:20-25 | existing Google ids, emails, names and passwords are never changed |
| Passport.LinkOrCreateKeepsInvariant | backend/config/passport.js:13-34 | ids stay keys and emails stay unique |
| Passport.SecondRunCreatesNothing | backend/config/passport.js:13-34 | running the callback again with the same profile creates no user |
| Passport.SecondRunIsNoOp | backend/config/passport.js:13-34 | the second run changes nothing when the lookup repeats its answer or the first run changed the table |
| Passport.SecondRunMayLinkAnother | backend/config/passport.js:13-25 | with two different matching users, a second run can attach the Google id to another user |
| Passport.SerializeUser | backend/config/passport.js:42-44 | the session stores the user's id |
| Passport.SessionRoundTrip | backend/config/passport.js:42-53 | deserialising the id of a stored user returns that user |
| UserStore.UserDirectory.constructor | backend/routes/auth.js:3 | the user table starts empty |
| UserStore.UserDirectory.Register | backend/routes/auth.js:14-50 | the guards run in order (missing fields, short password, existing email) and leave the table unchanged; otherwise exactly one user is inserted under a fresh id, with a 201 reply of the token for that id and the public user |
| UserStore.UserDirectory.Login | backend/routes/auth.js:58-92 | 400 when a field is missing; success iff a user with that email exists and the password matches, replying with that user's token and public fields; every other case is the same `Invalid credentials` |
| UserStore.UserDirectory.GoogleVerify | backend/config/passport.js:10-39 | a profile without emails is an error and changes nothing; otherwise the table becomes `LinkOrCreate` for a matching pick, and the user handed to `done` is stored under its id |
| UserStore.UserDirectory.DeserializeUser | backend/config/passport.js:46-53 | returns the stored user for the id, whose serialised id is that id, or nothing when absent |

## Left out

- Real AES-256-CBC, PKCS#7 padding and random IV generation. The cipher is abstract (`Cipher`, `CbcLaws`) and the IV is a parameter.
- Tamper detection is not modelled. A corrupted envelope may still decrypt to some string. The model only says what `decrypt` returns.
- Characters outside the Basic Multilingual Plane. A JavaScript string is modelled as one `char` per UTF-16 code unit, so surrogate pairs are not modelled.
- Request bodies whose fields are not strings: numbers, arrays, objects or `null`. Every field is modelled as an optional string.
- Malformed ObjectIds: a cast error in `findOne`/`findById` yields a 500 in the source. Ids are natural numbers here.
- Database failures, such as a lost connection, a failed write, or the User model's own validation. These are the 500 replies `Server error during registration`, `Server error during login` and `done(error, null)` after a failed save.
- The User model (`backend/models/User.js`) is not part of this model. Its password hashing, its schema normalisation and `comparePassword` are absent. Register stores the password as received, and the password check is the store's `comparePassword` parameter.
- UserStore.UserDirectory.Login: does not model `comparePassword` throwing for a user without a password (a Google-created user). That path would be a 500 in the source.
- The authentication middleware (`backend/middleware/auth.js`) is not part of this model. The requester's id is a parameter of every credential operation.
- JWT signing and verification: a token is its claims set. The HMAC signature and the secret are not computed.
- Logging, `console` output, Express routing, CORS and the OAuth redirect flow of `server.js`.
- Concurrency and interleaving of asynchronous handlers. Each operation is one atomic step.
- CredentialRoutes.CredentialStore.List: ties on `createdAt` are ordered by id. MongoDB leaves their order unspecified.
