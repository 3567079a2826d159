# rptv authentication and secrets core, in Dafny

This project models the authentication-and-secrets layer of the rptv account
service. It covers:

- invite-gated registration, login, refresh-token rotation and logout;
- the AES-GCM envelope that protects stored Xtream credentials;
- the owner-scoped Xtream account table.

The model is a sequential state machine over keyed tables, with one module
per component:

- `Crypto`: AesGcmCryptoService.
  - The master key check, and the `[1][12-byte IV][cipher output]` envelope.
  - Standard Base64 (section 4 of RFC 4648) and UTF-8 (RFC 3629).
  - The envelope is built and read through a moving buffer position: the
    array loops `Put` and `Get`.
  - The cipher is a parameter `Aead` with the law `Correct`: opening inverts
    sealing, a seal adds a 16-byte tag, and output shorter than the tag never
    opens.
- `Tokens`: TokenService.
  - The access-token claims.
  - The refresh token `tokenId "." secret`: two unpadded base64url parts
    (section 5 of RFC 4648), of 12 and 32 random bytes.
  - `extractTokenId` and `matchesRefreshToken`.
- `Invites`: InviteCode and InviteService (consume, revoke).
- `RefreshTokens`: RefreshToken and RefreshTokenService (create, find,
  revoke, revokeAll).
- `Users`: User and UserService (register, findByEmail, matchesPassword).
- `Auth`: AuthController's register, login, refresh and logout.
  - Pure step functions (`RegisterOp`, `LoginOp`, `RefreshOp`, `LogoutOp`)
    over a `Store` of the three tables.
  - A class `AuthController` whose methods drive the service objects. Each
    method is proved to produce exactly the step function's result and new
    store.
- `Xtream`: XtreamAccount and XtreamAccountService (listFor, getOwned,
  create, partial update, delete).
- Supporting modules:
  - `Wrappers`: Option and Result, in place of null and thrown exceptions.
  - `JavaLang`: `byte`, `int`, `indexOf`, `split`, `toLowerCase` and
    `isBlank`, as Java defines them (`toLowerCase` for ASCII letters only).
  - `Base64`, `Utf8`: the codecs.
  - `Passwords`: the PasswordEncoder as `encode`/`matches`, with the law
    `Sound`: `matches(s, encode(s))`.

How the model represents the system:

- Entities whose fields the source changes through setters are classes:
  `InviteCode`, `RefreshToken` and `XtreamAccount`.
- Each service keeps its entities in a map and a ghost table of their rows.
  The two are coupled by the service's `Valid()`.
- Every service method is proved against a pure function on that table. The
  properties are proved about those functions.
- The clock (`now`, in whole seconds) and the random source (IV, token-id and
  secret bytes, generated UUIDs) are inputs of each call.

Where the code departs from the system's documented design, the model
follows the code:

- **Refresh never checks `expiresAt`.** An expired, unrevoked, matching token
  still rotates (`Auth.RefreshIgnoresExpiry`).
- **Refresh is not one transaction.** The revoke and the create are separate
  service transactions. When the create fails, the old token stays revoked
  and no new one exists (`Auth.RefreshOp`).
- **Register's duplicate check uses the email as given, but the stored email
  is lower-cased.** A mixed-case registration can therefore never log in
  with the same string (`Auth.MixedCaseRegistrationCannotLogIn`).
  - If the lower-cased email is already taken, the insert hits the unique
    index and the whole registration rolls back.
- **The `roles` claim is the roles string split on `,`,** not a set of
  distinct labels.
- **Refresh errors are not all the same.** A revoked token is reported as
  "Refresh token revoked", an unknown or mismatched one as "Invalid refresh
  token", and a malformed token as an `IllegalArgumentException`. The model
  keeps the three apart.

## Model

| member | source | states |
|---|---|---|
| Crypto.DecodeMasterKey | src/main/java/nl/mallepetrus/rptv/crypto/AesGcmCryptoService.java:27-34 | the key is accepted iff the property is present, not blank, valid Base64, and decodes to exactly 32 bytes; an accepted key is 32 bytes |
| Crypto.MasterKeyAccepted | src/main/java/nl/mallepetrus/rptv/crypto/AesGcmCryptoService.java:27-35 | any 32-byte key written by the standard encoder is accepted unchanged; a null or empty property is refused as missing |
| Crypto.PackLayout | src/main/java/nl/mallepetrus/rptv/crypto/AesGcmCryptoService.java:49-55 | the envelope is 1 + 12 + \|cipher\| bytes: byte 0 is version 1, bytes 1..12 are the IV, the rest is the cipher output |
| Crypto.UnpackPack | src/main/java/nl/mallepetrus/rptv/crypto/AesGcmCryptoService.java:49-74 | reading an envelope back (version, IV, remainder) returns exactly the IV and cipher bytes that were packed |
| Crypto.Unpack | src/main/java/nl/mallepetrus/rptv/crypto/AesGcmCryptoService.java:66-72 | a first byte other than 1 is refused as an unsupported version; a payload shorter than 13 bytes is refused; an accepted payload is exactly the packing of the 12-byte IV and the rest |
| Crypto.DecryptEncrypt | src/main/java/nl/mallepetrus/rptv/crypto/AesGcmCryptoService.java:39-83 | if the cipher inverts, decrypt(encrypt(p)) == p for every text of Unicode scalar values and for null (the round trip) |
| Crypto.EnvelopeLength | src/main/java/nl/mallepetrus/rptv/crypto/AesGcmCryptoService.java:45-55 | the packed envelope is 13 + UTF-8 length + 16 bytes; the stored text is its padded Base64, 4 characters per started group of 3 bytes |
| Crypto.DecryptRejectsBadHeader | src/main/java/nl/mallepetrus/rptv/crypto/AesGcmCryptoService.java:65-81 | any stored text that Base64-decodes (canonically or not) to an envelope with another version byte, or under 13 bytes, never decrypts to a plaintext; the wrong version is reported as such |
| Crypto.DecryptRejectsShort | src/main/java/nl/mallepetrus/rptv/crypto/AesGcmCryptoService.java:65-81 | with a correct cipher, any text that decodes to an envelope shorter than 1 + 12 + 16 bytes never decrypts to a plaintext |
| Crypto.Put | src/main/java/nl/mallepetrus/rptv/crypto/AesGcmCryptoService.java:51-54 | `put`: the source bytes land at the position, every other byte is unchanged, and the position moves past them |
| Crypto.Get | src/main/java/nl/mallepetrus/rptv/crypto/AesGcmCryptoService.java:71-74 | `get`: the destination array is filled with the bytes at the position, and the position moves past them |
| Crypto.AesGcmCryptoService.Create | src/main/java/nl/mallepetrus/rptv/crypto/AesGcmCryptoService.java:27-36 | a service exists iff the key check passes; it holds exactly the decoded key; a refusal carries the check's reason |
| Crypto.AesGcmCryptoService.Encrypt | src/main/java/nl/mallepetrus/rptv/crypto/AesGcmCryptoService.java:39-59 | the buffer-filling method yields exactly the envelope function's text; null maps to null and any text to some envelope |
| Crypto.AesGcmCryptoService.Decrypt | src/main/java/nl/mallepetrus/rptv/crypto/AesGcmCryptoService.java:62-83 | reading through the moving position yields exactly the decrypt function's result: null passes through, and every failure is an error, never a plaintext |
| Base64.Encode | src/main/java/nl/mallepetrus/rptv/crypto/AesGcmCryptoService.java:55 | an encoding has the length RFC 4648 prescribes (padded or not), and uses only alphabet characters plus padding |
| Base64.DecodeEncode | src/main/java/nl/mallepetrus/rptv/crypto/AesGcmCryptoService.java:55-65 | decoding inverts encoding for every byte sequence, in both alphabets, padded or not |
| Base64.DecodeTriple | src/main/java/nl/mallepetrus/rptv/crypto/AesGcmCryptoService.java:65 | a full group of four characters decodes to its three bytes, followed by whatever the rest decodes to |
| Base64.NoDotInUrlSafe | src/main/java/nl/mallepetrus/rptv/service/TokenService.java:51-52 | no unpadded base64url encoding contains a '.' |
| Base64.EncodedNotBlank | src/main/java/nl/mallepetrus/rptv/crypto/AesGcmCryptoService.java:28-31 | the encoding of a non-empty byte sequence is never blank |
| Utf8.Encode | src/main/java/nl/mallepetrus/rptv/crypto/AesGcmCryptoService.java:47 | the UTF-8 length is the sum of the character widths, at least one byte per character |
| Utf8.DecodeOneEncodeChar | src/main/java/nl/mallepetrus/rptv/crypto/AesGcmCryptoService.java:79 | decoding reads back the scalar value one encoded character wrote, and its width, whatever follows |
| Utf8.DecodeEncode | src/main/java/nl/mallepetrus/rptv/crypto/AesGcmCryptoService.java:47-79 | `new String(s.getBytes(UTF_8), UTF_8) == s` for every string of scalar values |
| JavaLang.IndexOf | src/main/java/nl/mallepetrus/rptv/service/TokenService.java:59 | the index of the first occurrence, or -1 exactly when the character does not occur |
| JavaLang.PiecesJoin | src/main/java/nl/mallepetrus/rptv/service/TokenService.java:34 | the separator-delimited pieces of a string join back to it |
| JavaLang.SplitJoin | src/main/java/nl/mallepetrus/rptv/service/TokenService.java:34 | no split piece contains the separator; a string without it splits to itself; a non-empty string not ending in it splits and joins back to itself |
| JavaLang.ToLowerCase | src/main/java/nl/mallepetrus/rptv/service/UserService.java:28 | the result has the same length and no upper-case letter, and an already lower-case string is unchanged |
| JavaLang.ToLowerCaseIdempotent | src/main/java/nl/mallepetrus/rptv/service/UserService.java:28 | lower-casing twice is lower-casing once |
| Tokens.ExtractTokenId | src/main/java/nl/mallepetrus/rptv/service/TokenService.java:58-62 | succeeds iff the token has a '.' that is not its first character; the id is the non-empty, '.'-free text before the first '.' |
| Tokens.ExtractJoined | src/main/java/nl/mallepetrus/rptv/service/TokenService.java:52-62 | extracting from `id "." secret` returns the id, for any non-empty, '.'-free id |
| Tokens.RandomId | src/main/java/nl/mallepetrus/rptv/service/TokenService.java:64-68 | a token id is 16 characters with no '.', and decodes back to its 12 random bytes |
| Tokens.TokenService.IssueAccessToken | src/main/java/nl/mallepetrus/rptv/service/TokenService.java:31-44 | the claims carry the issuer, issued now and expiring after the access TTL, the user's id as subject and email; the roles are ','-free pieces that join back to the roles string |
| Tokens.TokenService.GenerateRefreshToken | src/main/java/nl/mallepetrus/rptv/service/TokenService.java:46-56 | token = 16-char id + '.' + 43-char secret, each decoding to its random bytes; the hash is of the whole token; expiry is now + refresh TTL; extractTokenId recovers the id |
| Tokens.TokenService.MatchesRefreshToken | src/main/java/nl/mallepetrus/rptv/service/TokenService.java:70-72 | with a sound encoder, a token matches the hash of itself |
| Tokens.GeneratedTokenMatches | src/main/java/nl/mallepetrus/rptv/service/TokenService.java:46-72 | a freshly generated token matches its own stored hash |
| Tokens.DistinctIds | src/main/java/nl/mallepetrus/rptv/service/TokenService.java:64-68 | different id bytes give different token ids |
| Tokens.SingleRoleClaim | src/main/java/nl/mallepetrus/rptv/service/TokenService.java:34 | a roles string without ',' (such as "USER") gives exactly one role claim, itself |
| Invites.Consume | src/main/java/nl/mallepetrus/rptv/service/InviteService.java:31-38 | succeeds iff not expired and uses < maxUses; expiry is checked before exhaustion; a success adds exactly one use, keeps uses <= maxUses and changes nothing else |
| Invites.ConsumeIn | src/main/java/nl/mallepetrus/rptv/service/InviteService.java:27-39 | an unknown code is not found; otherwise the outcome is Consume's, and only that invite's row changes |
| Invites.ConsumeRollBack | src/main/java/nl/mallepetrus/rptv/web/AuthController.java:37-39 | taking back the use a successful consume spent restores the table exactly |
| Invites.RevokeRow | src/main/java/nl/mallepetrus/rptv/service/InviteService.java:52 | maxUses becomes uses; code, uses and expiry are kept |
| Invites.RevokeIn | src/main/java/nl/mallepetrus/rptv/service/InviteService.java:48-54 | fails iff the code is unknown (not found); otherwise only that invite is clamped |
| Invites.RevokeBlocksConsume | src/main/java/nl/mallepetrus/rptv/service/InviteService.java:31-54 | after a revoke every consume fails, as used up unless the invite has expired |
| Invites.RevokeIdempotent | src/main/java/nl/mallepetrus/rptv/service/InviteService.java:48-54 | revoking twice is revoking once |
| Invites.ConsumeAllBound | src/main/java/nl/mallepetrus/rptv/service/InviteService.java:27-39 | over any sequence of attempts, at most maxUses - uses succeed; uses grows by exactly that count; nothing else about the invite changes |
| Invites.NeverExpiringCount | src/main/java/nl/mallepetrus/rptv/service/InviteService.java:27-39 | an invite without expiry admits exactly min(attempts, maxUses - uses) registrations |
| Invites.DefaultInviteSingleUse | src/main/java/nl/mallepetrus/rptv/domain/InviteCode.java:19-29 | an invite with the defaults (maxUses 1, uses 0, no expiry) admits one registration; the second is used up |
| Invites.InviteCode.constructor | src/main/java/nl/mallepetrus/rptv/domain/InviteCode.java:19-29 | a new invite has its code, maxUses 1, uses 0 and no expiry |
| Invites.InviteCode.SetCode | src/main/java/nl/mallepetrus/rptv/domain/InviteCode.java:38 | only the code changes |
| Invites.InviteCode.SetMaxUses | src/main/java/nl/mallepetrus/rptv/domain/InviteCode.java:40 | only maxUses changes |
| Invites.InviteCode.SetUses | src/main/java/nl/mallepetrus/rptv/domain/InviteCode.java:42 | only uses changes |
| Invites.InviteCode.SetExpiresAt | src/main/java/nl/mallepetrus/rptv/domain/InviteCode.java:44 | only the expiry changes |
| Invites.InviteService.FindByCode | src/main/java/nl/mallepetrus/rptv/service/InviteService.java:23-25 | an invite is found iff its code is stored; the one found holds that code's row |
| Invites.InviteService.Save | src/main/java/nl/mallepetrus/rptv/service/InviteService.java:41-44 | another invite with the same code is refused by the unique index and changes nothing; otherwise (a new code, or the same entity again) the save succeeds and the invite is stored under its code, so the refusal happens exactly for a duplicate |
| Invites.InviteService.ConsumeInvite | src/main/java/nl/mallepetrus/rptv/service/InviteService.java:27-39 | the entity-mutating method yields exactly ConsumeIn's outcome and new table, and keeps entities and table in step |
| Invites.InviteService.Revoke | src/main/java/nl/mallepetrus/rptv/service/InviteService.java:48-54 | the entity-mutating method yields exactly RevokeIn's outcome and new table |
| Invites.InviteService.RollBackConsume | src/main/java/nl/mallepetrus/rptv/web/AuthController.java:37 | the rollback of an enclosing transaction takes back exactly one use of that invite |
| RefreshTokens.AppendOnlyTransitive | src/main/java/nl/mallepetrus/rptv/service/RefreshTokenService.java:34-47 | "records survive and revoked flags only ever get set" holds across successive operations |
| RefreshTokens.CreateIn | src/main/java/nl/mallepetrus/rptv/service/RefreshTokenService.java:22-30 | a taken token id is refused (unique index); otherwise exactly one unrevoked record with the given user, id, hash, expiry and issue time is added, and old records are untouched |
| RefreshTokens.FindByTokenIdIn | src/main/java/nl/mallepetrus/rptv/service/RefreshTokenService.java:32 | a record is found iff one has that token id, and it is that record |
| RefreshTokens.RevokeIn | src/main/java/nl/mallepetrus/rptv/service/RefreshTokenService.java:34-38 | that record's flag is set; no other field or record changes; nothing is un-revoked |
| RefreshTokens.RevokeIdempotent | src/main/java/nl/mallepetrus/rptv/service/RefreshTokenService.java:34-38 | revoking twice is revoking once |
| RefreshTokens.RevokeAllIn | src/main/java/nl/mallepetrus/rptv/service/RefreshTokenService.java:40-47 | afterwards every record of the user is revoked, other users' records are unchanged, and no record is added, removed or un-revoked |
| RefreshTokens.RevokeAllIdempotent | src/main/java/nl/mallepetrus/rptv/service/RefreshTokenService.java:40-47 | revoking all twice is doing it once |
| RefreshTokens.RefreshToken.constructor | src/main/java/nl/mallepetrus/rptv/domain/RefreshToken.java:20-38 | a new record holds the given user, id, hash and expiry, was issued now, and is not revoked |
| RefreshTokens.RefreshToken.SetRevoked | src/main/java/nl/mallepetrus/rptv/domain/RefreshToken.java:52 | only the revoked flag changes |
| RefreshTokens.RefreshTokenService.Create | src/main/java/nl/mallepetrus/rptv/service/RefreshTokenService.java:22-30 | stores a fresh entity exactly as CreateIn says, or refuses a taken id and changes nothing |
| RefreshTokens.RefreshTokenService.FindByTokenId | src/main/java/nl/mallepetrus/rptv/service/RefreshTokenService.java:32 | an entity is found iff the id is stored; it holds that id's row |
| RefreshTokens.RefreshTokenService.Revoke | src/main/java/nl/mallepetrus/rptv/service/RefreshTokenService.java:34-38 | setting the entity's flag changes the table exactly as RevokeIn says |
| RefreshTokens.RefreshTokenService.RevokeAll | src/main/java/nl/mallepetrus/rptv/service/RefreshTokenService.java:40-47 | the loop over the user's records leaves the table exactly as RevokeAllIn says |
| Users.FindByEmailIn | src/main/java/nl/mallepetrus/rptv/service/UserService.java:21-23 | a user is found iff a row is stored under exactly that string (no lower-casing), and it is that row |
| Users.RegisterIn | src/main/java/nl/mallepetrus/rptv/service/UserService.java:25-32 | fails iff the lower-cased email or the id is taken; otherwise stores one user with the lower-cased email, the encoded password and the roles string as given, and leaves other rows unchanged |
| Users.RegisterRollBack | src/main/java/nl/mallepetrus/rptv/web/AuthController.java:37-43 | removing the user a registration stored restores the table |
| Users.RegisteredPasswordMatches | src/main/java/nl/mallepetrus/rptv/service/UserService.java:25-36 | with a sound encoder, the registered password matches the stored hash |
| Users.FindAfterRegister | src/main/java/nl/mallepetrus/rptv/service/UserService.java:21-32 | after registering, the lower-cased email finds the new user; an email with an upper-case letter finds only what it found before |
| Users.UserService.Register | src/main/java/nl/mallepetrus/rptv/service/UserService.java:25-32 | yields exactly RegisterIn's user and new table, or its refusal with nothing changed |
| Users.UserService.RollBackRegister | src/main/java/nl/mallepetrus/rptv/web/AuthController.java:37 | the rollback of an enclosing transaction removes exactly the inserted user |
| Users.UserService.MatchesPassword | src/main/java/nl/mallepetrus/rptv/service/UserService.java:34-36 | with a sound encoder, a password matches its own encoding |
| Auth.IssuePair | src/main/java/nl/mallepetrus/rptv/web/AuthController.java:44-47 | fails (persistence) iff the generated token id is taken; otherwise the presented token leads to one new, unrevoked record of the user holding the token's hash and expiring after the refresh TTL; old records are unchanged |
| Auth.IssueKeepsStore | src/main/java/nl/mallepetrus/rptv/web/AuthController.java:44-46 | issuing a pair for a registered user keeps every table keyed by its unique index and every token owned by a registered user |
| Auth.AdmitOp | src/main/java/nl/mallepetrus/rptv/web/AuthController.java:40-47 | an email found as given is a conflict; admission succeeds exactly when the email as given and lower-cased, the user id and the new token id are all free, and otherwise fails with PersistenceFailure (the unique indexes); success stores the user with role "USER" and one unrevoked record for it; any failure changes nothing; the store stays valid |
| Auth.RegisterOp | src/main/java/nl/mallepetrus/rptv/web/AuthController.java:35-48 | the invite is consumed first and its failure is reported; a found email is a conflict; registration succeeds exactly when the invite is consumable and the email as given and lower-cased, the user id and the new token id are all free, and the remaining refusals are PersistenceFailure; any failure changes no table, the invite included; success consumes one use, adds one user and exactly one refresh record; the store stays valid |
| Auth.LoginOp | src/main/java/nl/mallepetrus/rptv/web/AuthController.java:50-61 | an unknown email and a wrong password give the same InvalidCredentials and change nothing; login succeeds exactly when the email is stored, the password matches its hash and the new token id is free (a taken id is PersistenceFailure); success adds exactly one unrevoked record for that user |
| Auth.RefreshOp | src/main/java/nl/mallepetrus/rptv/web/AuthController.java:63-82 | a malformed token fails first; an unknown id fails as "Invalid refresh token", a revoked record as "Refresh token revoked" (checked before the hash), an unrevoked mismatching one as "Invalid refresh token", each changing nothing; success revokes exactly the presented record and adds one unrevoked record for the same user; if the create fails, the revoke stays |
| Auth.RevokeKeepsStore | src/main/java/nl/mallepetrus/rptv/web/AuthController.java:76 | setting a revoked flag keeps the store valid |
| Auth.RefreshKeepsRecords | src/main/java/nl/mallepetrus/rptv/web/AuthController.java:63-82 | refresh only sets revoked flags and adds a record (never un-revokes or deletes), and keeps the store valid |
| Auth.RefreshRotates | src/main/java/nl/mallepetrus/rptv/web/AuthController.java:75-80 | on a stored, unrevoked, matching record, refresh is revoke-then-issue for its user; the revocation stands when the issue fails |
| Auth.LogoutOp | src/main/java/nl/mallepetrus/rptv/web/AuthController.java:84-93 | a malformed token fails; otherwise it succeeds silently, setting the flag of that record only if the token matches its hash, and changes nothing else |
| Auth.RefreshRotation | src/main/java/nl/mallepetrus/rptv/web/AuthController.java:63-82 | after a successful refresh, the old token is refused as revoked with nothing changed; the new token refreshes unless the random source repeats a token id |
| Auth.LogoutThenRefreshFails | src/test/java/nl/mallepetrus/rptv/it/LoginRefreshLogoutIT.java:61-67 | after a logout, refreshing with the same token fails in every store, with the exact reason |
| Auth.LogoutIdempotent | src/main/java/nl/mallepetrus/rptv/web/AuthController.java:84-93 | logging out twice is logging out once |
| Auth.MixedCaseRegistrationCannotLogIn | src/main/java/nl/mallepetrus/rptv/web/AuthController.java:38-56 | after a successful registration with an upper-case letter in the email, login with that very email is refused (when registration succeeds is stated by Auth.RegisterOp) |
| Auth.SingleUseInviteRegistersOnce | src/main/java/nl/mallepetrus/rptv/service/InviteService.java:28-40 | with an unexpired invite of one use and none spent, a registration from a fresh email and user id with a free token id succeeds and leaves uses at 1; a second registration with the same code is refused as used up |
| Auth.RegisteredUserCanLogIn | src/main/java/nl/mallepetrus/rptv/web/AuthController.java:43-60 | with a sound encoder, a user registered with a lower-case email logs in with the same credentials iff the new token id is free |
| Auth.RefreshIgnoresExpiry | src/main/java/nl/mallepetrus/rptv/web/AuthController.java:63-82 | an expired, unrevoked, matching token still rotates |
| Auth.RegisterIssues | src/main/java/nl/mallepetrus/rptv/web/AuthController.java:35-48 | a successful registration returns exactly the pair issued for the new user (lower-cased email, encoded password, role USER): its access token carries that user's claims and the one new record holds the returned token's hash and expiry |
| Auth.LoginIssues | src/main/java/nl/mallepetrus/rptv/web/AuthController.java:52-60 | a successful login is issuing a pair for the user stored under exactly that email |
| Auth.LoginRefreshLogout | src/test/java/nl/mallepetrus/rptv/it/LoginRefreshLogoutIT.java:52-67 | login, then refresh: the refresh succeeds with a different token; after logging that token out, refreshing with it is refused as revoked |
| Auth.AuthController.IssueTokens | src/main/java/nl/mallepetrus/rptv/web/AuthController.java:44-47 | the service calls yield exactly IssuePair's result and new token table |
| Auth.AuthController.RevokeRecord | src/main/java/nl/mallepetrus/rptv/web/AuthController.java:76 | the store changes exactly as RevokeIn says |
| Auth.AuthController.SpendInvite | src/main/java/nl/mallepetrus/rptv/web/AuthController.java:39 | the invite table changes exactly as ConsumeIn says, or not at all on failure |
| Auth.AuthController.GiveBackInvite | src/main/java/nl/mallepetrus/rptv/web/AuthController.java:37 | the rolled-back transaction's spent use is taken back |
| Auth.AuthController.InsertUser | src/main/java/nl/mallepetrus/rptv/web/AuthController.java:43 | the user table changes exactly as RegisterIn with role "USER" says |
| Auth.AuthController.RemoveUser | src/main/java/nl/mallepetrus/rptv/web/AuthController.java:37 | the rolled-back transaction's inserted user is removed |
| Auth.AuthController.Admit | src/main/java/nl/mallepetrus/rptv/web/AuthController.java:40-47 | the result and the new store are exactly AdmitOp's |
| Auth.AuthController.Register | src/main/java/nl/mallepetrus/rptv/web/AuthController.java:35-48 | the result and the new store are exactly RegisterOp's, the rollback included; the store stays valid |
| Auth.AuthController.Login | src/main/java/nl/mallepetrus/rptv/web/AuthController.java:50-61 | the result and the new store are exactly LoginOp's |
| Auth.AuthController.Refresh | src/main/java/nl/mallepetrus/rptv/web/AuthController.java:63-82 | the result and the new store are exactly RefreshOp's |
| Auth.AuthController.Logout | src/main/java/nl/mallepetrus/rptv/web/AuthController.java:84-93 | the result and the new store are exactly LogoutOp's |
| Xtream.ListForIn | src/main/java/nl/mallepetrus/rptv/service/XtreamAccountService.java:26-28 | exactly the stored accounts whose owner is the user |
| Xtream.GetOwnedIn | src/main/java/nl/mallepetrus/rptv/service/XtreamAccountService.java:41-46 | succeeds iff the id exists and the account is the user's, returning that account; otherwise NOT_FOUND, the same for both cases |
| Xtream.CreateIn | src/main/java/nl/mallepetrus/rptv/service/XtreamAccountService.java:30-39 | stores exactly the given owner, name, URL and encrypted fields under the new id; other accounts are untouched |
| Xtream.UpdateIn | src/main/java/nl/mallepetrus/rptv/service/XtreamAccountService.java:48-56 | NOT_FOUND iff the account is not the user's; otherwise each field changes iff its argument is non-null; id, owner and other accounts are kept |
| Xtream.DeleteIn | src/main/java/nl/mallepetrus/rptv/service/XtreamAccountService.java:58-62 | NOT_FOUND iff the account is not the user's; otherwise exactly that account is removed |
| Xtream.GetOwnedIffListed | src/main/java/nl/mallepetrus/rptv/service/XtreamAccountService.java:26-46 | an account can be fetched by a user iff it is in that user's list |
| Xtream.CreateExtendsList | src/main/java/nl/mallepetrus/rptv/service/XtreamAccountService.java:26-39 | a created account joins its owner's list, and every other user's list is unchanged |
| Xtream.DeleteThenNotFound | src/main/java/nl/mallepetrus/rptv/service/XtreamAccountService.java:41-62 | after a delete the account is NOT_FOUND for its owner; every other account fetches as before |
| Xtream.OthersCannotTouch | src/test/java/nl/mallepetrus/rptv/it/XtreamCrudIT.java:73-83 | another user's update and delete are NOT_FOUND; the owner's update succeeds and keeps the owner |
| Xtream.EmptyUpdateChangesNothing | src/main/java/nl/mallepetrus/rptv/service/XtreamAccountService.java:48-56 | an update with every field null leaves the table as it was |
| Xtream.UpdateIdempotent | src/main/java/nl/mallepetrus/rptv/service/XtreamAccountService.java:48-56 | repeating an update changes nothing more |
| Xtream.XtreamAccount.constructor | src/main/java/nl/mallepetrus/rptv/service/XtreamAccountService.java:32-38 | a new account holds exactly the given id, owner, name, URL and encrypted fields |
| Xtream.XtreamAccount.SetName | src/main/java/nl/mallepetrus/rptv/domain/XtreamAccount.java:51 | only the name changes |
| Xtream.XtreamAccount.SetApiUrl | src/main/java/nl/mallepetrus/rptv/domain/XtreamAccount.java:53 | only the URL changes |
| Xtream.XtreamAccount.SetUsernameEnc | src/main/java/nl/mallepetrus/rptv/domain/XtreamAccount.java:55 | only the encrypted username changes |
| Xtream.XtreamAccount.SetPasswordEnc | src/main/java/nl/mallepetrus/rptv/domain/XtreamAccount.java:57 | only the encrypted password changes |
| Xtream.XtreamAccountService.ListFor | src/main/java/nl/mallepetrus/rptv/service/XtreamAccountService.java:26-28 | the rows of the user's entities are exactly ListForIn of the table |
| Xtream.XtreamAccountService.GetOwned | src/main/java/nl/mallepetrus/rptv/service/XtreamAccountService.java:41-46 | succeeds iff GetOwnedIn does, with the entity holding that row; any failure is NOT_FOUND |
| Xtream.XtreamAccountService.Create | src/main/java/nl/mallepetrus/rptv/service/XtreamAccountService.java:30-39 | stores a fresh entity exactly as CreateIn says |
| Xtream.XtreamAccountService.SetGiven | src/main/java/nl/mallepetrus/rptv/service/XtreamAccountService.java:51-54 | each field of the entity is replaced iff its argument is given |
| Xtream.XtreamAccountService.Update | src/main/java/nl/mallepetrus/rptv/service/XtreamAccountService.java:48-56 | the mutated entity and the table are exactly UpdateIn's row and table; on failure nothing changes |
| Xtream.XtreamAccountService.Delete | src/main/java/nl/mallepetrus/rptv/service/XtreamAccountService.java:58-62 | the table and the entity map change exactly as DeleteIn says |

## Left out

- The AES-GCM primitive is a parameter `Aead`, constrained only by the law `Correct`. Key schedule, GHASH and tag comparison are not modelled. A cipher failure is a `None` from `open`.
- JWT signing and encoding (`jwtEncoder.encode`) are left out: an access token is represented by its claims. Token verification by the resource server is not part of this model.
- The PasswordEncoder's salted hash is not modelled; only the law `matches(s, encode(s))` is assumed.
- Users.UserService.MatchesPassword: states only the soundness direction. The encoder's verdict on any other hash is left abstract.
- Tokens.TokenService.MatchesRefreshToken: states only the soundness direction, for the same reason.
- The random source (`SecureRandom`) and the clock (`Instant.now()`, `OffsetDateTime.now()`) are call inputs.
  - Each request reads the clock once (`now`), although the source calls it separately for the access and refresh expiries.
  - Time is whole seconds; sub-second precision and time zones are not modelled.
- Generated UUID keys (user id, account id) are call inputs. A clash is modelled as the unique index refusing the insert.
- Utf8.DecodeEncode: a Dafny `string` holds only Unicode scalar values, so a Java string with an unpaired surrogate (for example a JSON `"\ud800"` in a credential) is not representable. Java's `getBytes(UTF_8)` replaces such a surrogate with `'?'`, so Java does not round-trip those texts, and the model says nothing about them.
- Crypto.DecryptEncrypt: the round trip is proved for texts of Unicode scalar values only; an Xtream credential holding an unpaired surrogate comes back from Java's `decrypt(encrypt(s))` with `'?'` in its place, which the model cannot express.
- JavaLang.ToLowerCase: Java's `String.toLowerCase` is modelled for ASCII letters only; locale and non-ASCII case mappings are not modelled.
- `new String(bytes, UTF_8)` on malformed input: the model replaces each bad byte with U+FFFD. The JDK's exact grouping of malformed sequences is not modelled. Only the round trip on well-formed text is proved.
- The transaction rollback of `register` is modelled as compensation: the consumed use is given back and the inserted user removed (`Auth.AuthController.Register`). Savepoints and isolation are not modelled.
- Concurrency (races between two consumers of one invite, or two refreshes of one token) is not modelled: every operation is one sequential step.
- RefreshTokens.RefreshTokenService.Revoke: requires a stored record. The source also saves a detached entity, which would insert it; controllers only pass stored records.
- The `findBy*`, `getOwned` and `listFor` lookups are modelled as functions over the service's state rather than methods: they change nothing.
- Xtream.ListForIn: a set of rows, so the repository's list order is not modelled.
- Column length limits are not modelled: the database refuses an Xtream name over 120 characters, an API URL over 512, an encrypted username or password over 2048 (XtreamAccount.java), an email over 254 or roles over 128 (User.java) and an invite code over 64 (InviteCode.java). Xtream.CreateIn, Xtream.UpdateIn, Users.RegisterIn and Invites.InviteService.Save accept strings of any length; only the unique indexes are turned into refusals.
- Xtream.CreateIn: does not model the database refusing null fields (the columns are not-null); the model's strings are never null.
- Creation and update timestamps (`createdAt`, `updatedAt`) and the records' UUID keys are left out. Token and invite rows are keyed by their unique token id and code.
- `InviteService.list` and AuthController's `me` only read and return data, so they have nothing to prove.
- `AesGcmCryptoService.generateRandomKeyB64` is not used at run time and is left out.
- Outside this model:
  - KeyLoader and the config classes (JwtConfig, SecurityConfig, WebClientConfig, AppProps; its TTL defaults are the constant `Tokens.DefaultJwtProps`);
  - CorrelationIdFilter, XtreamController, InviteAdminController, EncryptedStringConverter and HelloController;
  - the DTOs, and the repositories (as maps).
- Tokens.TokenService.IssueAccessToken: the roles claim is proved to join back to the roles string only when that string is non-empty and does not end in ','. `String.split` drops trailing empty pieces, so nothing stronger holds.
