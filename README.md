# Beacon API memory sync, modelled in Dafny

This project models the core of the Beacon API server: the GraphQL resolvers
that synchronise a user's memories between devices, and the small helpers
around them.

The resolvers, in `Resolvers`, are methods on one `Database` object. Its
field `tables` holds every table as a map from primary key to row, and the
methods update it in place. The modelled resolvers are:

- `pushMemories`: content-hash dedup with last-write-wins merge.
- `memoriesSince`: a paged delta pull, which also upserts a per-device sync
  cursor.
- `deleteMemory`: a soft delete, which leaves a tombstone.
- `updateMemory`, `myMemories` and `updatePreferences`.
- The `me`, `mySubscription` and `myPreferences` queries.

Each mutation is proved against a pure specification:

- `MemoryMerge.PushAll` is the batch merge as a fold over the items.
- `MemoryQuery.OrderedSelection` says what an ordered, limited `select` may
  return.
- `MemoryQuery.SyncPageOf` gives the page of a delta pull.

Around these are:

- `ContentHash`: lower-case hex encoding of a digest, with its decoder and
  round trip.
- `Jwt`: bearer-token extraction.
- `KeyCrypto`: the key hint, and the IV‖ciphertext framing of provider keys
  (the 96-bit IV of NIST SP 800-38D), packed into an array.
- `Env`: environment validation and defaults.
- `DbSchema`: row types, constraints, defaults and the cascade on user
  deletion.
- `Context`: `createContext`, a find-or-create of the caller's user.
- `SubscriptionFields`: the `plan`/`status` enum mappers.

Modelling choices:

- **Keys.** Primary keys are natural numbers from a counter, `nextId`. The
  database's random UUIDs matter only for being fresh.
- **Timestamps.** They are integers, and the current time `now` is a
  parameter.
- **Foreign calls.** SHA-256 (FIPS 180-4) and token verification are
  function parameters.
- **Memory and sync-cursor rows.** Their table definitions are not part of
  this model. `DbSchema.Memory` is rebuilt from the GraphQL `Memory` type and
  the insert in `pushMemories`. `DbSchema.SyncCursor` is rebuilt from the
  cursor upsert. Its `lastSyncedAt` is taken to default to the time of
  insertion.
- **Second delete.** A second `deleteMemory` of the same memory returns
  `true` again and moves `deletedAt` forward, because the lookup
  (src/lib/graphql/schema.ts:423-431) does not skip tombstones; see
  `Resolvers.TombstoneSpreads`.
- **Ties at the cursor.** The cursor of a pull is the last returned row's
  `updatedAt`, and the next pull includes rows at that time again. Rows are
  delivered at least once, but more than 100 rows sharing one `updatedAt`
  keep the cursor where it is; see `MemoryQuery.TiedRowsKeepCursor`.
- **Which row.** `gatewayMemoryId` and `subscriptions.user_id` are not
  unique. Where a lookup takes `[existing]`, the model allows any matching
  row, and the contracts say "some matching row".
- **Row order.** Rows with equal `updatedAt` may come back in any order.

## Model

| member | source | states |
|---|---|---|
| ContentHash.ComputeContentHash | src/lib/crypto/hash.ts:8-16 | the fingerprint of any content is 64 characters, two per byte of the 32-byte digest |
| ContentHash.PadStartSpec | src/lib/crypto/hash.ts:14 | `padStart`: the result has at least the requested width, ends with the input, and is filled on the left with the fill character |
| ContentHash.ByteToHexNibbles | src/lib/crypto/hash.ts:14 | a byte becomes exactly two lower-case hex digits, high nibble first, zero-padded below 16 |
| ContentHash.ToHexLength | src/lib/crypto/hash.ts:13-15 | the joined hex string has exactly two characters per byte |
| ContentHash.ToHexCons | src/lib/crypto/hash.ts:13-15 | the encoding of a non-empty digest is the first byte's high and low nibble digits followed by the encoding of the rest |
| ContentHash.ToHexAt | src/lib/crypto/hash.ts:13-15 | byte i occupies characters 2i (high nibble) and 2i+1 (low nibble) |
| ContentHash.ToHexAlphabet | src/lib/crypto/hash.ts:14 | every output character is one of `0-9a-f` |
| ContentHash.HexValue | src/lib/crypto/hash.ts:14 | reading a hex digit gives the nibble it writes, and every digit of the alphabet is read |
| ContentHash.FromHexToHex | src/lib/crypto/hash.ts:13-15 | parsing the character pairs back recovers the digest bytes exactly |
| ContentHash.ToHexInjective | src/lib/crypto/hash.ts:13-15 | distinct digests give distinct hex strings |
| ContentHash.SameHashIffSameDigest | src/lib/crypto/hash.ts:8-16 | two contents get equal fingerprints iff their digests are equal; the fingerprint depends on the content alone |
| Jwt.ExtractBearerToken | src/lib/auth/jwt.ts:28-33 | a token is returned iff the header is present and starts with the case-sensitive `Bearer `, and then prefix + token is the header |
| Jwt.BearerEdgeCases | src/lib/auth/jwt.ts:29-32 | the bare `Bearer ` gives the empty token; `bearer abc`, `Bearer` and a missing header give none |
| KeyCrypto.JsSlice | src/lib/crypto/keys.ts:52 | `slice(start)` returns a suffix of the string: the last `-start` characters (the whole string when it is shorter) for a negative start, everything from `start` on (nothing when past the end) otherwise |
| KeyCrypto.GetKeyHint | src/lib/crypto/keys.ts:50-53 | the hint is `...` followed by the last min(4, length) characters of the key, so its length is 3 + min(4, length) |
| KeyCrypto.KeyHintOfLongKey | src/lib/crypto/keys.ts:52 | a key of four or more characters gives a 7-character hint ending in its last four characters |
| KeyCrypto.CopyInto | src/lib/crypto/keys.ts:28-29 | `Uint8Array.set` at an offset: the source replaces exactly that slice and the rest of the buffer is unchanged |
| KeyCrypto.Pack | src/lib/crypto/keys.ts:27-29 | the combined buffer has length 12 + the ciphertext length and holds the IV followed by the ciphertext |
| KeyCrypto.PackedLayout | src/lib/crypto/keys.ts:27-29 | bytes [0,12) of the packed buffer are the IV and bytes [12,end) the ciphertext, unchanged |
| KeyCrypto.Unpack | src/lib/crypto/keys.ts:38-39 | the split at 12 clamps to the buffer, and the two parts concatenate back to the buffer |
| KeyCrypto.UnpackPacked | src/lib/crypto/keys.ts:27-39 | the split of decryption recovers exactly the IV and ciphertext that encryption packed |
| KeyCrypto.DecryptEncrypted | src/lib/crypto/keys.ts:15-48 | when the cipher's decryption undoes its encryption under the same IV, decrypting an encrypted provider key gives the plaintext back |
| Env.LoadConfig | src/lib/config/env.ts:3-26 | `nodeEnv`, `authBaseUrl` and `gatewayUrl` are the variable when it is set and non-empty, and otherwise `development`, `https://identity.omni.dev` and `http://localhost:18790`, so never empty; every other field is the raw variable, undefined exactly when it is absent |
| Env.MissingKeys | src/lib/config/env.ts:38 | the filter keeps exactly the unset or empty keys, in the order of the required list |
| Env.ValidateEnv | src/lib/config/env.ts:32-44 | an error is raised iff one of `DATABASE_URL`, `AUTH_SECRET` or `GATEWAY_SECRET` is unset or empty, and its message is the fixed prefix followed by the missing names joined with `, ` |
| Env.OnlyAuthSecretMissing | src/lib/config/env.ts:38-43 | with only `AUTH_SECRET` missing, the message names that variable alone |
| Env.NoneSetNamesAll | src/lib/config/env.ts:33-43 | with none of the three set, the message names all three in the declared order |
| Env.ValidatedConfigHasSecrets | src/lib/config/env.ts:32-44 | after validation passes, the three secrets of the configuration are present and non-empty |
| DbSchema.NewPreferences | src/lib/db/schema.ts:53-64 | a new preferences row has the caller's user, the given fields, and the defaults for the omitted ones |
| DbSchema.PreferencesDefaults | src/lib/db/schema.ts:59-61 | an insert naming no preference gets persona `orin`, theme `system` and voice enabled |
| DbSchema.NewSubscription | src/lib/db/schema.ts:40-51 | a subscription insert is refused iff plan or status is an explicit null; otherwise a given plan, status or credit count is stored, an omitted one takes `free`, `active` or 0, a null credit count stays null, and the billing id, key, owner and timestamps are set |
| DbSchema.DeleteUser | src/lib/db/schema.ts:21-64 | deleting a user removes exactly that user's provider keys, subscriptions and preferences (`onDelete: "cascade"`) and, by assumption, memories and sync cursors; every remaining row keeps its value |
| DbSchema.DeleteUserValid | src/lib/db/schema.ts:21-64 | after the cascade every constraint still holds: unique identity ids, one key per user and provider, unique billing ids, one preferences row per user, and every reference pointing at a user |
| Context.NewUser | src/lib/graphql/context.ts:31-39 | the inserted user carries the subject as identity id, and the token's email, name and picture (as avatar URL) |
| Context.FindUserByIdentity | src/lib/graphql/context.ts:24-27 | the lookup returns a user with that identity id, or none exists |
| Context.FindOrCreateSpec | src/lib/graphql/context.ts:24-45 | the returned id is a user with the token's subject; an existing user is reused with nothing inserted; otherwise exactly one row is added under a fresh key; identity ids stay unique |
| Context.FindOrCreateTwice | src/lib/graphql/context.ts:24-40 | two logins with the same subject create at most one user and return the same id |
| Context.CreateContext | src/lib/graphql/context.ts:10-46 | no bearer token, an empty token, or a failed verification gives the anonymous context without touching the database; otherwise the users table becomes the find-or-create result and the context carries that user and subject |
| MemoryMerge.Bump | src/lib/graphql/schema.ts:332-413 | an inserted item bumps `pushed`, an updated one `updated` and a duplicate `duplicates`, each by one, and leaves the other two counters alone |
| MemoryMerge.FindByHash | src/lib/graphql/schema.ts:340-348 | the (user, fingerprint) lookup finds a matching row, or none exists |
| MemoryMerge.FindByHashUnique | src/lib/graphql/schema.ts:337-348 | under the dedup invariant the lookup's answer is the one matching row |
| MemoryMerge.NewMemory | src/lib/graphql/schema.ts:393-409 | an inserted row has the caller, the fingerprint and the item's fields, the three provenance fields included, with the defaults tags `[]`, unpinned and access count 0 |
| MemoryMerge.MergeOneInserts | src/lib/graphql/schema.ts:391-409 | with no match the item is inserted under the next key (a key not yet in use when the store is valid, so the table grows by one row), counted as pushed, and no tombstone is set unless the item carries one |
| MemoryMerge.MergeOneNotNewer | src/lib/graphql/schema.ts:377-390 | an item not newer than the match (ties included) changes nothing but the access count, which becomes the larger of the two, and counts as a duplicate |
| MemoryMerge.MergeOneNewer | src/lib/graphql/schema.ts:355-376 | a strictly newer item overwrites `gatewayMemoryId`, category, content and `updatedAt`, keeps each stored optional field it omits, `deletedAt` included (so a tombstone is never cleared and a live row stays live unless the item carries one), takes the larger access count, leaves id, owner, fingerprint and creation time alone, and counts as updated |
| MemoryMerge.MergeOneStep | src/lib/graphql/schema.ts:336-411 | one item keeps at most one row per (user, fingerprint), keeps every row (access counts and modification times never decrease), touches no other user's rows, and leaves a row for its fingerprint at least as new and as accessed as the item |
| MemoryMerge.PushAllCounts | src/lib/graphql/schema.ts:332-413 | pushed + updated + duplicates equals the batch length |
| MemoryMerge.PushAllInvariant | src/lib/graphql/schema.ts:336-411 | across a batch processed in order the dedup invariant holds, no row disappears or regresses, other users' rows are untouched, and every item is covered by a row for its fingerprint |
| MemoryMerge.MergeOneIdempotent | src/lib/graphql/schema.ts:350-390 | pushing an item again right after it was applied changes nothing and counts as a duplicate |
| MemoryQuery.SelectOrdered | src/lib/graphql/schema.ts:209-219 | the ordered, limited select returns stored matching rows, each once, in ascending `updatedAt`, as many as match up to the limit, with no left-out match older than a returned row |
| MemoryQuery.Paginate | src/lib/graphql/schema.ts:221-228 | `hasMore` iff more than 100 rows were fetched; the page is the first min(n, 100) of them; the cursor is the last page row's `updatedAt`, or `since` for an empty page |
| MemoryQuery.TiedRowsKeepCursor | src/lib/graphql/schema.ts:219-228 | when more than 100 of the caller's matching rows all have the watermark's own `updatedAt`, the page reports more but the cursor stays at the watermark, and a pull from it selects among the same rows again |
| MemoryQuery.PullPage | src/lib/graphql/schema.ts:209-228 | the page holds the first min(matches, 100) of the caller's rows changed since the watermark, each once, tombstones included, as stored and sorted, with no older match left out; `hasMore` iff more than 100 match; the cursor is the last page row's `updatedAt`, or the watermark for an empty page; every match left off the page still matches the filter of a pull from the cursor |
| Resolvers.Me | src/lib/graphql/schema.ts:143-150 | anonymous callers get null; otherwise the caller's user row, or null if there is none |
| Resolvers.MySubscription | src/lib/graphql/schema.ts:152-159 | anonymous callers get null; otherwise some stored subscription of the caller, or null iff the caller has none |
| Resolvers.MyPreferences | src/lib/graphql/schema.ts:161-168 | anonymous callers get null; otherwise the caller's unique preferences row, or null iff there is none |
| Resolvers.MyMemories | src/lib/graphql/schema.ts:170-197 | anonymous callers get `[]`; otherwise an ordered selection of the caller's live rows in the category, under the effective limit |
| Resolvers.MyMemoriesContents | src/lib/graphql/schema.ts:177-196 | listed rows are the caller's, never tombstones, and in the requested category; with no positive limit every such row is listed |
| Resolvers.CursorUpsertLeavesOne | src/lib/graphql/schema.ts:230-251 | after the upsert the device has a cursor synced now, exactly one if it had at most one before, and every other cursor is unchanged |
| Resolvers.UpsertCursor | src/lib/graphql/schema.ts:230-251 | the device's cursor gets `lastSyncedAt` now when it exists, otherwise one is inserted under a fresh key; only the cursor table changes and the tables stay valid |
| Resolvers.MemoriesSince | src/lib/graphql/schema.ts:199-258 | anonymous callers get `Unauthorized` with nothing changed; otherwise the result is the delta-pull page of the stored rows, only the cursor table (and possibly the key counter) changes, and the device's cursor is updated or inserted |
| Resolvers.PushMemories | src/lib/graphql/schema.ts:325-414 | anonymous callers get `Unauthorized` with nothing changed; otherwise the loop leaves the memory table, key counter and counters exactly as the in-order fold `PushAll` gives, and no other table changes |
| Resolvers.MergeItem | src/lib/graphql/schema.ts:337-410 | one loop iteration changes the memory table and key counter exactly as `MergeOne` says and reports the same outcome; no other table changes |
| Resolvers.EditKeepsDedup | src/lib/graphql/schema.ts:436-442 | an edit that keeps a row's key, owner and fingerprint keeps at most one row per (user, fingerprint) |
| Resolvers.TombstoneSpreads | src/lib/graphql/schema.ts:423-444 | a tombstone drops out of `myMemories`, reaches every pull whose watermark is not after the deletion, and still matches its lookup, so deleting again succeeds and moves `deletedAt` forward |
| Resolvers.TouchSpreads | src/lib/graphql/schema.ts:469-481 | an edit changes `pinned` only when it is given and always sets `updatedAt`, nothing else, and reaches every pull whose watermark is not after it |
| Resolvers.DeleteMemory | src/lib/graphql/schema.ts:416-445 | anonymous callers get `Unauthorized`; otherwise the result is true iff a row matches (user, gateway id); on false nothing changes, on true exactly one matching row gets `deletedAt = updatedAt = now` |
| Resolvers.UpdateMemory | src/lib/graphql/schema.ts:447-484 | anonymous callers get `Unauthorized`; with no matching row `Memory not found` and nothing changes; otherwise exactly one matching row is edited and returned |
| Resolvers.UpdatedPreferences | src/lib/graphql/schema.ts:284-291 | the updated row keeps key, owner and creation time, sets `updatedAt` to now, and each field follows the update rule for omitted, null and given values |
| Resolvers.UpdatedPreferencesFields | src/lib/graphql/schema.ts:284-301 | an empty input only refreshes `updatedAt`; an input naming every field gives the same row an insert of it would |
| Resolvers.UpsertPreferences | src/lib/graphql/schema.ts:277-303 | an existing row of the user is updated in place with the given fields and `updatedAt` now; otherwise a row with defaults is inserted under a fresh key, or the insert is refused when the user does not exist, changing nothing; the returned row is the stored one and the tables stay valid |
| Resolvers.UpdatePreferences | src/lib/graphql/schema.ts:262-304 | anonymous callers get `Unauthorized`; an existing row of the caller is updated in place; otherwise one row with defaults is inserted under a fresh key, or the insert is refused when the caller is no user; the returned row is stored, and one row per user still holds |
| SubscriptionFields.ToUpperAt | src/lib/graphql/schema.ts:492 | `toUpperCase` maps each character independently and keeps the length |
| SubscriptionFields.ToUpperIdempotent | src/lib/graphql/schema.ts:492 | upper-casing twice equals upper-casing once |
| SubscriptionFields.FirstIndexSpec | src/lib/graphql/schema.ts:494 | the searched position is the first occurrence of the character, or the length when there is none |
| SubscriptionFields.ReplaceFirst | src/lib/graphql/schema.ts:494 | `replace("-", "_")` changes only the first dash, and leaves a string with no dash alone |
| SubscriptionFields.PlanOf | src/lib/graphql/schema.ts:46-50 | a name serialises as a `Plan` value iff it is `FREE`, `PRO` or `TEAM` |
| SubscriptionFields.StatusOf | src/lib/graphql/schema.ts:52-56 | a name serialises as a `SubscriptionStatus` value iff it is `ACTIVE`, `CANCELED` or `PAST_DUE` |
| SubscriptionFields.PlanFieldCaseInsensitive | src/lib/graphql/schema.ts:492 | the plan field gives a value iff the upper-cased plan is its enum name, whatever the stored case |
| SubscriptionFields.StoredPlans | src/lib/graphql/schema.ts:491-492 | the stored plans `free`, `pro` and `team` serialise as `FREE`, `PRO` and `TEAM` |
| SubscriptionFields.StatusFieldCaseInsensitive | src/lib/graphql/schema.ts:493-494 | the status field ignores the case of the stored text: a status and its upper-cased form serialise alike |
| SubscriptionFields.StoredActive | src/lib/graphql/schema.ts:493-494 | the stored default `active` serialises as `ACTIVE` |
| SubscriptionFields.StoredCanceled | src/lib/graphql/schema.ts:493-494 | `canceled` serialises as `CANCELED` |
| SubscriptionFields.StoredPastDue | src/lib/graphql/schema.ts:493-494 | `past_due` serialises as `PAST_DUE` |
| SubscriptionFields.DashedPastDue | src/lib/graphql/schema.ts:493-494 | `past-due` serialises as `PAST_DUE` as well |
| SubscriptionFields.SecondDashKept | src/lib/graphql/schema.ts:494 | only the first dash is replaced, so a status such as `past--due` keeps its second dash and fails to serialise |

## Left out

- HTTP plumbing (`src/server.ts`) is not part of this model: the server, CORS, headers, rate limiting, health endpoints and shutdown.
- The feature-flag client (`src/lib/flags/client.ts`) is not part of this model. It wraps a foreign network library.
- The foreign cryptography and encodings are parameters or left out: SHA-256 (`crypto.subtle.digest`), AES-GCM encryption and decryption, JWKS fetching and `verifyToken`, base64, and `TextEncoder`/`TextDecoder`.
- The random IV (`getRandomValues`) is a parameter of the encryption.
- Dates are abstract integers. The model leaves out `new Date(string)` parsing (an unparsable `since` or `updatedAt`), `toISOString` formatting and the timestamp field resolvers. The cursor is returned as the timestamp itself, not as its ISO string.
- `createGatewaySession` is left out. It is only a random UUID, the wall clock and a string template.
- `env.port` (`Number(...) || 4000`) is left out, because it is a float conversion.
- Concurrency is left out. Every resolver runs alone, so the races between the read and the write in `pushMemories`, the cursor upsert and find-or-create are not modelled.
- Unique-constraint failures on insert are not modelled. They cannot arise without concurrency.
- The foreign-key rule of the memory and sync-cursor tables is not modelled, because their table definitions are not part of this model. `DbSchema.DeleteUser` assumes that both cascade like the other tables.
- KeyCrypto.JsSlice: counts Dafny characters, while JavaScript's `slice(-4)` counts UTF-16 code units, so a key ending in a character outside the Basic Multilingual Plane gets a different hint.
- Resolvers.DeleteMemory: one `now` sets both `deletedAt` and `updatedAt`, while the code calls `new Date()` twice and the two values can differ by the time between the calls.
- SubscriptionFields.ToUpperAt: upper-cases ASCII letters only. JavaScript's Unicode case mapping, such as `ß` to `SS`, is not modelled.
- Resolvers.UpdateMemory: `pinned` is `Option<bool>`. An explicit GraphQL `null`, which the code would write into the non-null column, is treated as omitted.
- MemoryMerge.PushAll: an optional input field that is `null` is treated as omitted. Both fall back under `??`. `deletedAt` is also `None` when it is the empty string, because the code tests it for truthiness.
- Resolvers.MyPreferences: the GraphQL non-null fields are not checked against rows whose preferences were stored as null.
