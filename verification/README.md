# Encryption-key rotation and admin registries — a Dafny model

This project models the core of the UID2 admin service's key management in Dafny, and proves properties of that model.

**Encryption-key rotation engine** (`EncryptionKeyService`):
- **Id allocator** (`getMaxKeyId`).
- **Rotation planner** (`rotateKeys`). A site selector picks sites. For each selected site, the planner finds the key that activates last. It rotates the site when `force` is set or that key activated strictly before `now - minAge`.
- **Minter** (`addSiteKeys` / `addSiteKey`). It gives consecutive ids from the allocation base and shares one `created` instant across the batch. It commits the id-sorted snapshot plus the new keys, together with the new high-water mark, in one upload.
- **Constructor policy check.**
- **Three rotation routes**, with their site-id validation and error statuses.
- **Key listing**, ordered by site and then activation time.

**Two registries keyed by name:**
- **Admin users** (`AdminKeyService`): add, delete, disable/enable, rekey and set roles. Also modelled: the `getAdminUser` lookup and the key-less `adminToJson` view.
- **Enclave identifiers** (`EnclaveIdService`): add and delete. Both pass the audit-callback gate before anything is uploaded.

**Modelling conventions:**
- Each handler is a pure transition on a freshly loaded snapshot, given as a `seq` of records.
- A registry handler returns `Commit(newList, responseBody)` when it uploads, or `Reject(httpStatus)` when it does not.
- A key-service operation returns a `Result`. An upload is the value `Upload(keys, maxKeyId)`, and `Apply` turns it into the next snapshot.
- Inputs that are not part of the model arrive as parameters:
  - the clock (`now`): epoch milliseconds for keys, epoch seconds for registry records;
  - the random generators;
  - the parsed request parameters, as a list of query values or as an `Option`;
  - `RequestUtil.getRoles` and `RequestUtil.validateOperatorProtocol`;
  - `SiteUtil.isValidSiteId` and the advertising-token site id;
  - the audit callback's verdict.
- Java `int` is the subset type `Int32`. Within the modelled arithmetic the source wraps in two places. The first is the id counter of `addSiteKeys`, which `Minting.MintAsWritten` writes out with `Wrap32`. The second is the `(int)` cast of a `long` difference in the registries' `created` comparators; that sort is not modelled (see Registry order under Left out). The minter the routes use, `Minting.Mint`, is the corrected one: it refuses a batch that would cross `Integer.MAX_VALUE` (see Findings).

Modules, one per file:
- `common.dfy` (`Common`): `Option`, `Result`, `Reply`, HTTP codes, `Int32`/`Wrap32`, list helpers.
- `keys.dfy` (`Keys`): the key record, snapshot, upload, the two sort orders, the listing view.
- `minting.dfy` (`Minting`): the id allocator and the minter, including the as-written variant.
- `rotation.dfy` (`Rotation`): the planner and its properties, and the master-rotation test scenario.
- `key_service.dfy` (`KeyService`): the constructor, `addSiteKey`, the routes, the listing.
- `admin_keys.dfy` (`AdminKeys`): the admin-user registry.
- `enclave_ids.dfy` (`EnclaveIds`): the enclave-identifier registry.

Source paths below are relative to the repository root.

## Model

| member | source | states |
|---|---|---|
| Common.Wrap32 | src/main/java/com/uid2/admin/vertx/service/EncryptionKeyService.java:297-298 | Java `int` increment semantics: the identity inside the `int` range, and otherwise the unique `int` congruent to the input modulo 2^32. |
| Keys.Sort | src/main/java/com/uid2/admin/vertx/service/EncryptionKeyService.java:139-142 | The sorted copy used by the listing and the minter is a permutation of its input (same multiset, same length) and is ordered by the chosen comparator. |
| Keys.SortById | src/main/java/com/uid2/admin/vertx/service/EncryptionKeyService.java:288-290 | The snapshot sorted by `comparingInt(getId)`: the same keys, with ids non-decreasing. |
| Keys.ToJsonHidesSecret | src/main/java/com/uid2/admin/vertx/service/EncryptionKeyService.java:331-339 | A key's listing entry does not depend on its secret: keys differing only in the secret are listed identically. |
| Minting.SnapshotMaxId | src/main/java/com/uid2/admin/vertx/service/EncryptionKeyService.java:314-318 | The last id of the id-sorted snapshot is 0 for an empty snapshot, otherwise an id that occurs in the snapshot and is at least every id there. |
| Minting.GetMaxKeyId | src/main/java/com/uid2/admin/vertx/service/EncryptionKeyService.java:313-329 | Fails exactly when some key id or the persisted `max_key_id` equals `Integer.MAX_VALUE`. Otherwise the base is below `Integer.MAX_VALUE`, at least every snapshot id, the snapshot's largest id (`SnapshotMaxId`) and the persisted mark, and is one of them (0 when the snapshot is empty and no mark exists). |
| Minting.PersistedMarkDominates | src/main/java/com/uid2/admin/vertx/service/EncryptionKeyService.java:318-326 | A non-negative persisted mark below `Integer.MAX_VALUE` that is at least every snapshot id is the allocation base itself. |
| Minting.Mint | src/main/java/com/uid2/admin/vertx/service/EncryptionKeyService.java:286-311 | The corrected minter. It succeeds iff allocation succeeds and `base + N` fits in an `int`. The i-th key has id `base+i+1`, the i-th site id, the i-th secret and `created = now`; `activates = created + activatesIn` and `expires = activates + expiresAfter`. The upload is the id-sorted snapshot followed by the new keys, with mark `base+N`. New ids exceed every existing id and the persisted mark, and strictly increase within the batch. |
| Minting.MintAsWritten | src/main/java/com/uid2/admin/vertx/service/EncryptionKeyService.java:286-311 | The minter as the source computes it, with a wrapping `++maxKeyId`. It succeeds iff allocation succeeds, and it equals `Mint` wherever `Mint` succeeds. |
| Minting.BatchOverflowsKeyId | src/main/java/com/uid2/admin/vertx/service/EncryptionKeyService.java:297-308 | From base `Integer.MAX_VALUE - 1`, a batch of two gets ids `MAX_VALUE` and `MIN_VALUE`, and mark `MIN_VALUE`, as written; the corrected `Mint` refuses the batch. |
| Minting.MintIsAdditive | src/main/java/com/uid2/admin/vertx/service/EncryptionKeyService.java:288-308 | The upload holds exactly the snapshot's keys plus the new ones (multiset equality), its length is old + N, and its prefix is the snapshot sorted by id, unchanged. |
| Minting.MintRaisesHighWaterMark | src/main/java/com/uid2/admin/vertx/service/EncryptionKeyService.java:297-308 | Every key in the upload has an id no greater than the uploaded `max_key_id`. |
| Minting.SequentialMintsNeverReuseIds | src/main/java/com/uid2/admin/vertx/service/EncryptionKeyService.java:318-323 | A later batch, minted from any snapshot carrying the earlier upload's mark (keys may have been deleted), gets ids above every id of the earlier snapshot and the earlier batch. |
| Rotation.ConsideredSites | src/main/java/com/uid2/admin/vertx/service/EncryptionKeyService.java:256-259 | A site is reported iff some key of the snapshot has that site and the site satisfies the selector. |
| Rotation.LatestActivation | src/main/java/com/uid2/admin/vertx/service/EncryptionKeyService.java:267-272 | The activation kept by `maxBy(getActivates)` for a site's group: no key of the site activates later, and some key of the site activates exactly then. |
| Rotation.MatchingSites | src/main/java/com/uid2/admin/vertx/service/EncryptionKeyService.java:267-270 | The grouping's keys: each considered site exactly once, and nothing else. |
| Rotation.SitesToRotate | src/main/java/com/uid2/admin/vertx/service/EncryptionKeyService.java:261-275 | The list handed to the minter has no duplicates. A site is in it iff it is considered and either `force` holds or its latest activation is strictly before `now - minAge`. |
| Rotation.RotateKeys | src/main/java/com/uid2/admin/vertx/service/EncryptionKeyService.java:246-284 | `siteIds` is the considered set. Each site is rotated at most once, and exactly when it is considered and due. There is an upload iff some key was rotated. With nothing due the result is the considered set, no keys and no upload. Otherwise the keys and upload are those of `Mint` on the due sites, and an error comes only from `Mint`. |
| Rotation.KeylessSiteNeverRotated | src/main/java/com/uid2/admin/vertx/service/EncryptionKeyService.java:267-275 | A site with no key in the snapshot never receives a rotated key, forced or not. |
| Rotation.RotatedKeysMatchSelector | src/main/java/com/uid2/admin/vertx/service/EncryptionKeyService.java:256-281 | Every rotated key's site is in the reported set and satisfies the selector. |
| Rotation.UnmatchedSelectorIsNoOp | src/main/java/com/uid2/admin/vertx/service/EncryptionKeyService.java:277-279 | When no key satisfies the selector, the rotation reports no site, rotates nothing and uploads nothing. |
| Rotation.RotationIsIdempotent | src/main/java/com/uid2/admin/vertx/service/EncryptionKeyService.java:261-279 | Repeating an unforced rotation at the same instant on the uploaded state rotates nothing and uploads nothing. This needs activation delay plus minimum age to be non-negative. |
| Rotation.RotationIsAdditive | src/main/java/com/uid2/admin/vertx/service/EncryptionKeyService.java:277-308 | The state after a rotation holds the previous keys plus the rotated keys, as a multiset. |
| Rotation.KeysAfterRotation | src/main/java/com/uid2/admin/vertx/service/EncryptionKeyService.java:277-308 | A key is in the state after a rotation iff it was there before or it was rotated in. |
| Rotation.RotatedKeysActivateAfterDelay | src/main/java/com/uid2/admin/vertx/service/EncryptionKeyService.java:295-302 | Every rotated key is created at the rotation instant and activates `activatesIn` seconds later. |
| Rotation.MasterScenarioDue | src/test/java/com/uid2/admin/vertx/EncryptionKeyServiceTest.java:151-162 | In the test's snapshot, with `min_age_seconds=100`, both master (-1) and refresh (-2) are due, in snapshot order. |
| Rotation.MasterRotationExample | src/test/java/com/uid2/admin/vertx/EncryptionKeyServiceTest.java:151-176 | The master rotation test: sites -1 and -2 get keys 778 and 779, and five keys are uploaded with mark 779. |
| KeyService.NewKeyService | src/main/java/com/uid2/admin/vertx/service/EncryptionKeyService.java:99-104 | Construction succeeds iff `activatesIn < expiresAfter` for both the master and the site policy. The master policy is checked first. |
| KeyService.MintedKeysHaveValidityWindow | src/main/java/com/uid2/admin/vertx/service/EncryptionKeyService.java:99-104 | Under an accepted policy with a non-negative activation delay, every minted key has `created <= activates < expires`. |
| KeyService.AddSiteKey | src/main/java/com/uid2/admin/vertx/service/EncryptionKeyService.java:130-135 | Succeeds iff allocation succeeds. Mints exactly one key for the site, with id `base+1` and the site policy's timestamps, and uploads the id-sorted snapshot plus that key with the key's id as mark. |
| KeyService.RotateFromRequest | src/main/java/com/uid2/admin/vertx/service/EncryptionKeyService.java:236-244 | A missing or rejected `min_age_seconds` or `force` gives no result; otherwise the result is that of the planner. |
| KeyService.HandleRotateMasterKey | src/main/java/com/uid2/admin/vertx/service/EncryptionKeyService.java:154-174 | A rejected `min_age_seconds` or `force` is `ParamRejected`: `RequestUtil` has already answered. With both present, the route succeeds iff `RotateKeys` for the master and refresh sites under the master policy succeeds, and then answers exactly its result; a failed rotation is a 500. Rotated keys belong to the master or refresh site and activate after the master delay. |
| KeyService.HandleRotateSiteKey | src/main/java/com/uid2/admin/vertx/service/EncryptionKeyService.java:176-210 | A missing site id is `ParamRejected`. Otherwise it is a 400 iff the site id is neither the advertising id nor valid. Past that check, a rejected `min_age_seconds` or `force` is `ParamRejected`. With both present, the route is a 404 iff the site has no key. For a keyed site it succeeds iff `RotateKeys` for that site succeeds, then answers exactly its result, and otherwise it is a 500. On success the reported set is exactly that site, and every rotated key belongs to it. |
| KeyService.RotateSiteNotFoundUploadsNothing | src/main/java/com/uid2/admin/vertx/service/EncryptionKeyService.java:187-193 | The 404 is answered only after a rotation that considered nothing, rotated nothing and uploaded nothing. |
| KeyService.HandleRotateAllSiteKeys | src/main/java/com/uid2/admin/vertx/service/EncryptionKeyService.java:212-234 | A rejected `min_age_seconds` or `force` is `ParamRejected`. With both present, the route succeeds iff `RotateKeys` over the valid and advertising sites succeeds, then answers exactly its result, and otherwise it is a 500. The reported sites are exactly the keyed sites that are valid or the advertising id, and every rotated key belongs to such a site. |
| KeyService.HandleKeyList | src/main/java/com/uid2/admin/vertx/service/EncryptionKeyService.java:137-152 | One entry per key: the listing is a permutation of the keys' entries, ordered by site id and then activation. |
| KeyService.ListingAfterRotation | src/main/java/com/uid2/admin/vertx/service/EncryptionKeyService.java:137-152 | Listing after a rotation shows the previous keys' entries plus the rotated keys' entries, as a multiset. |
| AdminKeys.GetAdminUser | src/main/java/com/uid2/admin/vertx/service/AdminKeyService.java:395-404 | No admin for an empty name list. Otherwise an admin whose name is the first element, and none iff no admin has that name. |
| AdminKeys.AdminToJsonHidesKey | src/main/java/com/uid2/admin/vertx/service/AdminKeyService.java:377-387 | The JSON view of an admin does not depend on its key. |
| AdminKeys.PrefixedKey | src/main/java/com/uid2/admin/vertx/service/AdminKeyService.java:199-201 | A new admin key is the generated string, preceded by the configured prefix when there is one. |
| AdminKeys.HandleAdminAdd | src/main/java/com/uid2/admin/vertx/service/AdminKeyService.java:175-221 | A missing name is a 500, and an existing name is a 400. A missing roles parameter is a 500, and an unparseable roles spec is a 400. On success exactly one admin is appended, with name = contact = the name, the parsed roles, `created = now`, not disabled, and the prefixed key. Name uniqueness is preserved. |
| AdminKeys.HandleAdminDel | src/main/java/com/uid2/admin/vertx/service/AdminKeyService.java:223-252 | 404 iff the lookup finds no admin. Otherwise it removes exactly the looked-up admin (multiset) and answers with it. Under unique names no admin of that name remains. |
| AdminKeys.HandleAdminDisable | src/main/java/com/uid2/admin/vertx/service/AdminKeyService.java:262-297 | 404 when no admin is found, and 400 iff the admin is already in the requested state. Otherwise only that admin's `disabled` flag changes, and the response is its key-less view. An upload happens iff the admin exists and its flag differs from the requested one. |
| AdminKeys.HandleAdminRekey | src/main/java/com/uid2/admin/vertx/service/AdminKeyService.java:299-329 | 404 iff no admin is found. Otherwise only that admin's key changes, to the prefixed generated key, and every other admin is unchanged. |
| AdminKeys.HandleAdminRoles | src/main/java/com/uid2/admin/vertx/service/AdminKeyService.java:331-370 | 404 when no admin is found. A missing roles parameter is a 500, and an unparseable spec is a 400. An upload happens iff the admin exists and the roles parse. Then only that admin's role set changes. |
| AdminKeys.DeleteUndoesAdd | src/main/java/com/uid2/admin/vertx/service/AdminKeyService.java:175-252 | Deleting an admin right after adding it restores the previous registry and answers with the added admin. |
| AdminKeys.EnableUndoesDisable | src/main/java/com/uid2/admin/vertx/service/AdminKeyService.java:254-297 | Enabling right after disabling (or the converse) succeeds and restores the previous registry. |
| AdminKeys.RepeatedDisableIsRefused | src/main/java/com/uid2/admin/vertx/service/AdminKeyService.java:277-280 | Repeating the same disable or enable is refused with 400. |
| EnclaveIds.HandleEnclaveAdd | src/main/java/com/uid2/admin/vertx/service/EnclaveIdService.java:152-204 | The checks run in order. A missing name is a 500, and an existing name is a 400. A missing protocol parameter is a 500, and an unsupported protocol is a 400. A missing `enclave_id` parameter is a 500, and a null `enclave_id` is a 400. An audit refusal is a 500. Only a request passing every check appends exactly one identifier (name, canonical protocol, enclave id, `created = now`), and name uniqueness is preserved. |
| EnclaveIds.HandleEnclaveDel | src/main/java/com/uid2/admin/vertx/service/EnclaveIdService.java:206-243 | A missing name is a 500, an unknown name is a 404, and an audit refusal is a 500. Otherwise it removes exactly the matched identifier and keeps the rest (multiset), and under unique names none of that name remains. |
| EnclaveIds.DeleteUndoesAdd | src/main/java/com/uid2/admin/vertx/service/EnclaveIdService.java:152-243 | Deleting an enclave identifier right after adding it restores the previous registry and answers with the added identifier. |

## Left out

- **I/O.** Storage reads and uploads, HTTP routing, authentication and response writing are not modelled. A handler's upload is its `Commit` state (registries) or its `Upload` value (keys), and a rejection never uploads.
- **Request parsing.** `RequestUtil` (durations, booleans, site ids, roles, operator protocols) is not part of this model. Its parsed results are parameters, and the `roles` and protocol parsers are uninterpreted functions.
- **Site rules.** `SiteUtil.isValidSiteId` and the advertising-token site id are parameters. The master and refresh site ids are -1 and -2, the values the service's tests use.
- **Audit trail.** The audit middleware, the `OperationModel` records a handler returns, and SHA-256 digests are not modelled. For the enclave routes, the audit callback's verdict is a boolean parameter.
- **Locking.** `synchronized (writeLock)` is not modelled: every transition runs alone on a freshly loaded snapshot.
- **Randomness.** Key secrets come from a `SecretSource` indexed by batch position, and admin keys from a generated string parameter. The 32-byte length is not modelled.
- Rotation.RotateKeys: the planner and the minter each read `Instant.now()`. The model uses one instant for both.
- Rotation.RotateKeys: it is built on the corrected `Minting.Mint`, not on the source's wrapping counter. When the base is `Integer.MAX_VALUE - 1` and two sites are due, the model answers `Err` (a 500 at the routes) where the source uploads wrapped ids and answers 200. The Findings row describes this.
- Rotation.SitesToRotate: the rotated sites come out in first-occurrence order, while the source iterates a `groupingBy` hash map whose order the program does not specify. This member's own contract states membership and distinctness only, so it holds for any order.
- Rotation.RotateKeys: its contract, and through `rotated == Ok(r.value)` the three route contracts, fix which site receives which id. The i-th site in first-occurrence order gets `base + i + 1`. The source hands out ids in hash-map order, so for a snapshot listing site 6 before site 5, the source can give site 5 the first id where the model gives it to site 6. The following hold for any order: the set of rotated sites, one key per site, the id range `base + 1 .. base + N`, each key's timestamps and policy, and the upload's contents as a multiset.
- **Registry order.** The source sorts the admin and enclave lists by `created` before each mutation and upload, comparing through an `(int)` cast of the difference. The model keeps snapshot order instead, and its contracts fix that order: add appends to the snapshot (`r.state == admins + [r.body]`), disable, rekey and roles keep every other position, and the undo lemmas state sequence equality. These statements match the source only when the stored list is already in `created` order. Otherwise they hold of the source's upload only as multisets: the same records, with the same one changed, added or removed.
- **Time arithmetic.** `Instant` overflow and `Duration` range limits are not modelled; timestamps are unbounded integers. Instants are whole epoch milliseconds. `Instant.now()` can carry sub-millisecond precision into the threshold and the strict `isBefore` comparison of `rotateKeys` (EncryptionKeyService.java lines 261-262 and 273), which the model does not represent.
- Keys.Sort: the source's stream sort is stable; no contract here states stability, only order and permutation.
- KeyService.HandleRotateMasterKey: a rejected parameter answers `ParamRejected`, and the 500 is promised only when both parameters are present. The source does not check the `null` result. After `RequestUtil` has answered the request, it dereferences that result and calls `rc.fail(500)` on the already-answered request. The model stops at the rejection, as the other two routes do.
- **Out-of-scope routes.** `handleAdminList`, `handleAdminReveal`, `handleEnclaveList`, the metadata routes and `hashedToJsonWithKey` are outside the modelled core.

## Findings

| source | as written | input that shows it | evidently intended | confidence | as-written member | corrected member |
|---|---|---|---|---|---|---|
| src/main/java/com/uid2/admin/vertx/service/EncryptionKeyService.java:297-308 | `getMaxKeyId` only refuses a base that already equals `Integer.MAX_VALUE`, and `addSiteKeys` then increments an `int` once per site. A batch that crosses the limit therefore wraps to negative ids and records a negative `max_key_id`. | persisted `max_key_id = 2147483646`, rotating sites [5, 6]: the keys get ids 2147483647 and -2147483648, and the uploaded mark is -2147483648 | refuse any batch whose last id would exceed `Integer.MAX_VALUE`, so that ids stay positive and increasing | medium; not executed | Minting.MintAsWritten, Minting.BatchOverflowsKeyId | Minting.Mint |
