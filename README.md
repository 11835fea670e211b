# signal-cli recipient store and storage-manifest validator, in Dafny

This project models and proves two parts of signal-cli's account storage.

**The recipient store** (`RecipientStore`) is the table of every person the
account knows. A row is found by up to four identity keys:
- the account identifier (ACI);
- the phone-number identifier (PNI);
- the phone number;
- the username.

Beside the keys a row holds:
- a storage-service id and record, for sync with the server;
- an unregistered timestamp;
- a profile key and a profile-key credential;
- contact columns and profile columns.

The store also keeps two maps in memory:
- `recipientsMerged`, a redirect map from merged-away ids to the id they were merged into;
- `recipientAddressCache`, a cache from service identifier to row.

In the model the store is the class `Recipients.RecipientStore`. Its fields are:
- `rows`, the table as a map from row id to `Row`;
- `nextId`, the AUTOINCREMENT counter;
- `nextStorageId`, which stands for the random storage-id generator;
- the redirect map and the cache.

Each SQL statement of the store becomes its effect on `rows`. Every method keeps the invariant `Consistent()`, which says:
- the UNIQUE columns (`aci`, `pni`, `number`, `username`, `storage_id`) are held by at most one row each;
- ids are never reused;
- every cache entry names a live row that holds the service id, with that row's current address;
- the redirect map is acyclic.

Acyclicity is witnessed by a ghost rank per redirect, the merge clock at the time it was recorded. `Valid()` adds one more condition: no redirect key is still a live row. A merge breaks that condition on purpose between copying the loser's data and deleting the loser. `mergeRecipients` restores it.

Each table-changing method's postcondition ties the new table to a function of the old one, such as `ResolvedRows`, `StoredRecordRows`, `SplitRows`, `ContactStoredRows`, `ClearedRows` or `DataMerged`. The lemmas beside those functions prove what the store promises:
- the lookup priority ACI > PNI > number;
- exactly one insert on a miss;
- the transfer of storage-id ownership;
- the first unregistered timestamp is kept;
- the split separates the identities;
- the profile-key write guard;
- contact and profile round trips;
- the winner's data is never overwritten during a merge;
- the redirect chain ends.

**The storage-manifest validator** (`StorageSyncValidations`) checks a locally built storage-service write before it is pushed. It checks:
- the new manifest's typed ids;
- the inserted records;
- the deleted raw ids;
- the manifest version;
- the declared diff against the previous manifest.

The checks are the functions `ManifestAndInsertsCheck` and `WriteCheck`, which return `Pass` or `Failure(kind)`. `kind` has one constructor per error class. The loop-based `validateManifestAndInserts` and `validate` are methods proved equal to those functions. The lemmas state:
- each rule;
- the order of the rules;
- that the typed duplicate checks cannot fire;
- that acceptance is exactly "the declared inserts and deletes are the true set differences of raw ids".

Files:
- `Wrappers.dfy`: `Option`.
- `Addresses.dfy`: service identifiers and `RecipientAddress`.
- `RecipientRows.dfy`: the row, and the column mappings of contact, profile and profile key.
- `Redirects.dfy`: redirect chains.
- `RecipientStore.dfy`: the store.
- `StorageSyncValidations.dfy`: the validator.

## Model

| member | source | states |
|---|---|---|
| Addresses.FromServiceId | lib/src/main/java/org/asamk/signal/manager/storage/recipients/RecipientStore.java:1118-1127 | The address built from a service id carries exactly one key, and that key is the service id. |
| Addresses.FromNumber | lib/src/main/java/org/asamk/signal/manager/storage/recipients/RecipientStore.java:1129-1138 | The address built from a number carries exactly one key and no service id. |
| Addresses.RemoveIdentifiersFrom | lib/src/main/java/org/asamk/signal/manager/storage/recipients/RecipientStore.java:885-895 | What is left is a part of the first address that shares no present key with the second. A key the second address lacks (ACI, username) survives. |
| RecipientRows.NewRow | lib/src/main/java/org/asamk/signal/manager/storage/recipients/RecipientStore.java:1140-1164 | An inserted row holds exactly the given keys. It has no storage id, record, timestamp, profile key or credential, and it reads back as no contact and no profile. |
| RecipientRows.WithAddressOnlyKeys | lib/src/main/java/org/asamk/signal/manager/storage/recipients/RecipientStore.java:1183-1205 | The address UPDATE writes the four key columns and nothing else: the row reads back the new address, and writing the old address back restores the row. |
| RecipientRows.ReadTimestamp | lib/src/main/java/org/asamk/signal/manager/storage/recipients/RecipientStore.java:1413-1427 | A timestamp reads as absent exactly when it is NULL or 0; otherwise it reads back unchanged. |
| RecipientRows.ContactRoundTrip | lib/src/main/java/org/asamk/signal/manager/storage/recipients/RecipientStore.java:813-846 | A written contact reads back as written, except that `hidden` keeps the row's value and a zero timestamp reads as absent. A contact failing the contact condition, or no contact, reads back as none. |
| RecipientRows.ContactRewriteStable | lib/src/main/java/org/asamk/signal/manager/storage/recipients/RecipientStore.java:813-846 | Writing back a contact just read (with a non-zero timestamp) leaves the row exactly as it was. |
| RecipientRows.WriteContactFrame | lib/src/main/java/org/asamk/signal/manager/storage/recipients/RecipientStore.java:813-846 | The contact UPDATE leaves the keys, storage id and record, profile key, credential, profile and `hidden` unchanged. |
| RecipientRows.ProfileRoundTrip | lib/src/main/java/org/asamk/signal/manager/storage/recipients/RecipientStore.java:950-977 | A stored profile reads back exactly; storing none reads back none. |
| RecipientRows.WriteProfileFrame | lib/src/main/java/org/asamk/signal/manager/storage/recipients/RecipientStore.java:950-977 | The profile UPDATE changes only the profile columns. |
| RecipientRows.ProfileKeyGuardCases | lib/src/main/java/org/asamk/signal/manager/storage/recipients/RecipientStore.java:979-1009 | A null key or a different key is always written. An equal key is skipped when there is no profile. With a profile, an equal key is skipped exactly when the access mode is ENABLED or UNRESTRICTED. |
| RecipientRows.WriteProfileKeyEffect | lib/src/main/java/org/asamk/signal/manager/storage/recipients/RecipientStore.java:979-1009 | The key write sets the key and clears the credential. It resets the profile timestamp to 0 only on request and keeps the rest of the profile, the contact, the keys and the storage id. |
| Redirects.Resolve | lib/src/main/java/org/asamk/signal/manager/storage/recipients/RecipientStore.java:804-811 | Following the redirects from an id ends (the ranks make the map acyclic) at an id that is not a redirect key. An id that is not a key is its own end. |
| Redirects.RedirectKeepsRanked | lib/src/main/java/org/asamk/signal/manager/storage/recipients/RecipientStore.java:1248 | Adding `loser -> winner` for a winner that is not itself a key keeps the redirect map acyclic. |
| Redirects.RedirectRetargets | lib/src/main/java/org/asamk/signal/manager/storage/recipients/RecipientStore.java:1248 | After adding `loser -> winner`, every chain that ended at the loser ends at the winner, and every other chain ends where it did. |
| Redirects.ResolveIgnoresRank | lib/src/main/java/org/asamk/signal/manager/storage/recipients/RecipientStore.java:804-811 | Where a chain ends depends on the redirect map only, not on the ghost ranks. |
| Recipients.ServiceColumn | lib/src/main/java/org/asamk/signal/manager/storage/recipients/RecipientStore.java:1281-1300 | The column filtered on for a service id (`aci` for an ACI, `pni` for a PNI) holds the id exactly when the row holds that service id. |
| Recipients.Lookup | lib/src/main/java/org/asamk/signal/manager/storage/recipients/RecipientStore.java:1251-1264 | A lookup returns a row that holds the value, and returns none exactly when no row holds it. |
| Recipients.LookupUnique | lib/src/main/java/org/asamk/signal/manager/storage/recipients/RecipientStore.java:61-66 | Under the UNIQUE constraints, the one row holding a value is what the lookup returns. |
| Recipients.InsertedAddress | lib/src/main/java/org/asamk/signal/manager/storage/recipients/RecipientStore.java:1111-1115 | On a miss, the inserted address is the service id alone when the address has one, and the whole address otherwise. |
| Recipients.AciWins | lib/src/main/java/org/asamk/signal/manager/storage/recipients/RecipientStore.java:1082-1116 | A row holding the address's ACI is the answer, whatever holds its PNI or number, and nothing is inserted. |
| Recipients.PniBeforeNumber | lib/src/main/java/org/asamk/signal/manager/storage/recipients/RecipientStore.java:1082-1116 | With no ACI holder, a row holding the PNI is the answer, before any number holder, and nothing is inserted. |
| Recipients.NumberLast | lib/src/main/java/org/asamk/signal/manager/storage/recipients/RecipientStore.java:1082-1116 | With neither service id held, the number holder is the answer and nothing is inserted. |
| Recipients.MissInsertsOneRow | lib/src/main/java/org/asamk/signal/manager/storage/recipients/RecipientStore.java:1082-1164 | A miss inserts exactly one row under the next id (the table grows by one). With a service id the row holds only that id and the insert cannot fail. Without one, it fails exactly when the username is already held. |
| Recipients.Stamp | lib/src/main/java/org/asamk/signal/manager/storage/recipients/RecipientStore.java:914-929 | After stamping, the row has a timestamp, and a row that had one is unchanged, so the first timestamp is kept. |
| Recipients.SplitSeparatesIdentities | lib/src/main/java/org/asamk/signal/manager/storage/recipients/RecipientStore.java:885-895 | A split row keeps exactly its ACI and username. Its PNI and number then clash with no row, and the table with the new row still has unique keys. |
| Recipients.SplitRows | lib/src/main/java/org/asamk/signal/manager/storage/recipients/RecipientStore.java:885-895 | A split adds exactly the new row id to the table. |
| Recipients.SplitRowsEffect | lib/src/main/java/org/asamk/signal/manager/storage/recipients/RecipientStore.java:885-895 | After a split, the original row holds (ACI, username) and keeps its timestamp, contact and profile. The new row holds (PNI, number), has no timestamp and no storage id, and every other row is unchanged. |
| Recipients.SplitRestamp | lib/src/main/java/org/asamk/signal/manager/storage/recipients/RecipientStore.java:845 | Rotating a split row's storage id gives the same table as a split under the new storage id. |
| Recipients.KeptAddressClashesWithNone | lib/src/main/java/org/asamk/signal/manager/storage/recipients/RecipientStore.java:885-895 | The address the split row keeps clashes with no other row, so its address update cannot fail. |
| Recipients.ContactStoredEffect | lib/src/main/java/org/asamk/signal/manager/storage/recipients/RecipientStore.java:813-846 | After storing a contact: it reads back as written; profile, key and credential are untouched; the row holds a fresh storage id; the address changes only on a split; no other existing row changes. |
| Recipients.ContactStoredSteps | lib/src/main/java/org/asamk/signal/manager/storage/recipients/RecipientStore.java:813-846 | The UPDATE, the mark-and-split and the final rotation together give `ContactStoredRows`. |
| Recipients.MarkedStep | lib/src/main/java/org/asamk/signal/manager/storage/recipients/RecipientStore.java:868-883 | Handling one number stamps its unique holder and keeps the progress invariant: original holders stamped, first timestamps kept, other original rows untouched. |
| Recipients.MarkedSkip | lib/src/main/java/org/asamk/signal/manager/storage/recipients/RecipientStore.java:868-883 | A number nobody holds changes nothing and keeps the progress invariant. |
| Recipients.RestSteps | lib/src/main/java/org/asamk/signal/manager/storage/recipients/RecipientStore.java:1229-1246 | The profile-key, credential and profile blocks together change only the winner. Each of the three is its own when present, else the loser's. The credential is kept only when the winner also had a key. |
| Recipients.MergeSteps | lib/src/main/java/org/asamk/signal/manager/storage/recipients/RecipientStore.java:1223-1246 | The contact block followed by the other three gives `DataMerged`. |
| Recipients.MergedContact | lib/src/main/java/org/asamk/signal/manager/storage/recipients/RecipientStore.java:1223-1227 | A winner's contact is never replaced. A contact-less winner gets the loser's contact (or none), with the winner's `hidden` flag. |
| Recipients.Ids | lib/src/main/java/org/asamk/signal/manager/storage/recipients/RecipientStore.java:1070-1080 | The set of ids a list of losers names: exactly its elements. |
| Recipients.RemovedStep | lib/src/main/java/org/asamk/signal/manager/storage/recipients/RecipientStore.java:1070-1080 | Deleting and evicting one more loser extends "all losers so far deleted and evicted" by that loser. |
| Recipients.DeleteKeepsUnique | lib/src/main/java/org/asamk/signal/manager/storage/recipients/RecipientStore.java:1207-1218 | Deleting a row keeps the UNIQUE columns unique. |
| Recipients.RedirectedStep | lib/src/main/java/org/asamk/signal/manager/storage/recipients/RecipientStore.java:1062-1064 | Recording one more loser keeps "the losers so far redirect to the winner, the other redirects are unchanged". |
| Recipients.AssignedStep | lib/src/main/java/org/asamk/signal/manager/storage/recipients/RecipientStore.java:512-544 | Giving one selected row a fresh storage id keeps the progress invariant of `setMissingStorageIds`. |
| Recipients.ClearedRows | lib/src/main/java/org/asamk/signal/manager/storage/recipients/RecipientStore.java:848-866 | After clearing, no unregistered row holds one of the storage ids. Registered rows are untouched, and only the storage-id column changes. |
| Recipients.ClearedStep | lib/src/main/java/org/asamk/signal/manager/storage/recipients/RecipientStore.java:848-866 | Handling one more storage id clears its unregistered holder, if any. The count of cleared rows grows by one exactly then, since the holder is unique. |
| Recipients.EvictKeepsSound | lib/src/main/java/org/asamk/signal/manager/storage/recipients/RecipientStore.java:1077 | After evicting a row's entries, the cache stays sound even once the row is deleted. |
| Recipients.ReleaseStorageId | lib/src/main/java/org/asamk/signal/manager/storage/recipients/RecipientStore.java:727-737 | The first UPDATE of `storeStorageRecord` leaves no row holding the storage id. |
| Recipients.StoredRecordRows | lib/src/main/java/org/asamk/signal/manager/storage/recipients/RecipientStore.java:721-755 | Row `id` holds the storage id and the record. No other row holds the storage id. Every other row is unchanged, except that the previous holder's storage id becomes NULL. |
| Recipients.StoredRecordKeepsInvariant | lib/src/main/java/org/asamk/signal/manager/storage/recipients/RecipientStore.java:721-755 | The ownership transfer keeps all keys unique and changes no address. |
| Recipients.AddressUpdateKeepsUnique | lib/src/main/java/org/asamk/signal/manager/storage/recipients/RecipientStore.java:1183-1205 | An address that clashes with no other row can be written without breaking uniqueness. |
| Recipients.RecipientStore.constructor | lib/src/main/java/org/asamk/signal/manager/storage/recipients/RecipientStore.java:50-53 | The store starts with empty rows, redirects and cache, with the invariant established. |
| Recipients.RecipientStore.GetContact | lib/src/main/java/org/asamk/signal/manager/storage/recipients/RecipientStore.java:1323-1335 | A contact is returned exactly when the row exists and meets the contact condition, and it is then that row's contact. |
| Recipients.RecipientStore.GetProfile | lib/src/main/java/org/asamk/signal/manager/storage/recipients/RecipientStore.java:1372-1384 | A profile is returned exactly when the row exists and its capabilities column is set. |
| Recipients.RecipientStore.GetProfileKey | lib/src/main/java/org/asamk/signal/manager/storage/recipients/RecipientStore.java:1337-1353 | The local account's key comes from its provider, whatever its row holds. For any other id the key is the row's, and none when the row is missing. |
| Recipients.RecipientStore.GetCredential | lib/src/main/java/org/asamk/signal/manager/storage/recipients/RecipientStore.java:1355-1370 | The row's credential column, and none when the row is missing. |
| Recipients.RecipientStore.FindByNumber | lib/src/main/java/org/asamk/signal/manager/storage/recipients/RecipientStore.java:1251-1264 | Returns the unique holder of the number with its address, or none. |
| Recipients.RecipientStore.FindByServiceId | lib/src/main/java/org/asamk/signal/manager/storage/recipients/RecipientStore.java:1281-1300 | Returns the unique holder of the service id. A cache hit changes nothing, a found row is cached, and a miss caches nothing. |
| Recipients.RecipientStore.AddNewRecipient | lib/src/main/java/org/asamk/signal/manager/storage/recipients/RecipientStore.java:1140-1164 | Fails with a UNIQUE violation exactly when a key is already held, changing nothing. Otherwise it inserts `NewRow(address)` under a never-used id and advances the counter. |
| Recipients.RecipientStore.RotateStorageId | lib/src/main/java/org/asamk/signal/manager/storage/recipients/RecipientStore.java:715-719 | The row, if it exists, gets a fresh storage id (one never handed out); nothing else changes. |
| Recipients.RecipientStore.GetStorageId | lib/src/main/java/org/asamk/signal/manager/storage/recipients/RecipientStore.java:700-713 | An existing storage id is returned unchanged with the table untouched. Only a missing one is freshly assigned by rotation. |
| Recipients.RecipientStore.StoreStorageRecord | lib/src/main/java/org/asamk/signal/manager/storage/recipients/RecipientStore.java:721-755 | The table becomes `StoredRecordRows`: ownership of the storage id moves to the row. The invariant is kept. |
| Recipients.RecipientStore.UpdateRecipientAddress | lib/src/main/java/org/asamk/signal/manager/storage/recipients/RecipientStore.java:1183-1205 | Evicts the row's cache entries. Fails exactly when another row holds one of the new keys. Otherwise it writes the address and ends with a fresh storage id. |
| Recipients.RecipientStore.WriteAddress | lib/src/main/java/org/asamk/signal/manager/storage/recipients/RecipientStore.java:1188-1202 | The key UPDATE for an address no other row holds: the row takes the new address and nothing else changes, and the keys stay unique. |
| Recipients.RecipientStore.RemoveRecipientAddress | lib/src/main/java/org/asamk/signal/manager/storage/recipients/RecipientStore.java:1166-1181 | Evicts the row's cache entries and clears its four keys and its storage id; nothing else changes. |
| Recipients.RecipientStore.DeleteRecipient | lib/src/main/java/org/asamk/signal/manager/storage/recipients/RecipientStore.java:1207-1218 | Removes exactly the row. The invariant holds again once no cache entry names it. |
| Recipients.RecipientStore.UpdateColumns | lib/src/main/java/org/asamk/signal/manager/storage/recipients/RecipientStore.java:897-912 | An UPDATE by id of columns that hold no key (as the one of `markRegistered`) replaces exactly that row and keeps the invariant. |
| Recipients.RecipientStore.MarkRegistered | lib/src/main/java/org/asamk/signal/manager/storage/recipients/RecipientStore.java:897-912 | Clears the row's unregistered timestamp and nothing else. |
| Recipients.RecipientStore.MarkUnregistered | lib/src/main/java/org/asamk/signal/manager/storage/recipients/RecipientStore.java:914-929 | Stamps the row only when it has no timestamp, so the first timestamp is kept. |
| Recipients.RecipientStore.MarkUnregisteredAndSplitIfNecessary | lib/src/main/java/org/asamk/signal/manager/storage/recipients/RecipientStore.java:885-895 | Fails exactly when the row is missing, changing nothing. Otherwise it stamps the row. A row with both ACI and PNI is then split: a new row takes the PNI and number, the original keeps ACI and username under a fresh storage id, and its cache entries are evicted. Other rows are unchanged. |
| Recipients.RecipientStore.MarkUnregisteredNumbers | lib/src/main/java/org/asamk/signal/manager/storage/recipients/RecipientStore.java:868-883 | Every original holder of a listed number ends stamped, first timestamps are kept, and every other original row is unchanged. |
| Recipients.RecipientStore.MarkUnregisteredNumber | lib/src/main/java/org/asamk/signal/manager/storage/recipients/RecipientStore.java:873-877 | Handling one number marks and splits its holder, if any, and extends the progress of `MarkUnregisteredNumbers` by that number. |
| Recipients.RecipientStore.StoreContact | lib/src/main/java/org/asamk/signal/manager/storage/recipients/RecipientStore.java:813-846 | The table becomes `ContactStoredRows`: the contact write, then a split when a timestamped contact lands on a row with both service ids, then a fresh storage id. A timestamped contact for a missing row fails. |
| Recipients.RecipientStore.WriteContactColumns | lib/src/main/java/org/asamk/signal/manager/storage/recipients/RecipientStore.java:816-841 | The contact UPDATE alone. After a timestamped contact the row is already stamped, and needs the split exactly when it holds both service ids. |
| Recipients.RecipientStore.MarkSplitAndRotate | lib/src/main/java/org/asamk/signal/manager/storage/recipients/RecipientStore.java:842-845 | After a timestamped contact, the mark-and-split and the rotation bring the table to `ContactStoredRows`. A split takes one new row id and two storage ids and evicts the row's cache entries; otherwise one storage id is used. |
| Recipients.RecipientStore.StoreProfile | lib/src/main/java/org/asamk/signal/manager/storage/recipients/RecipientStore.java:950-977 | Writes the profile, which then reads back as stored, and rotates the storage id; only this row changes. |
| Recipients.RecipientStore.StoreProfileKey | lib/src/main/java/org/asamk/signal/manager/storage/recipients/RecipientStore.java:979-1009 | When the guard skips, nothing changes. Otherwise the key is written, the credential cleared, the timestamp reset on request and the storage id rotated; only this row changes. |
| Recipients.RecipientStore.StoreCredential | lib/src/main/java/org/asamk/signal/manager/storage/recipients/RecipientStore.java:931-948 | Writes the credential column alone, which then reads back as stored. |
| Recipients.RecipientStore.ClearRecipientData | lib/src/main/java/org/asamk/signal/manager/storage/recipients/RecipientStore.java:557-560 | After the four clearing writes the row has no contact, profile, profile key or credential, and no unregistered timestamp (the contact write resets it); no other row changes. |
| Recipients.RecipientStore.DeleteRecipientData | lib/src/main/java/org/asamk/signal/manager/storage/recipients/RecipientStore.java:551-567 | Evicts the row's cache entries and deletes the row; every other row is unchanged. |
| Recipients.RecipientStore.SetMissingStorageIds | lib/src/main/java/org/asamk/signal/manager/storage/recipients/RecipientStore.java:512-544 | Every row that had no storage id and is not unregistered now holds a fresh one and is otherwise unchanged. Every other row is untouched. |
| Recipients.RecipientStore.ClearStorageId | lib/src/main/java/org/asamk/signal/manager/storage/recipients/RecipientStore.java:851-862 | Drops one row's storage id and nothing else. |
| Recipients.RecipientStore.RemoveStorageIdsFromLocalOnlyUnregisteredRecipients | lib/src/main/java/org/asamk/signal/manager/storage/recipients/RecipientStore.java:848-866 | The table becomes `ClearedRows`, and the count returned is the number of rows cleared. |
| Recipients.RecipientStore.FindByPriority | lib/src/main/java/org/asamk/signal/manager/storage/recipients/RecipientStore.java:1085-1107 | Returns the ACI holder, else the PNI holder, else the number holder; the cache is only extended. |
| Recipients.RecipientStore.ResolveRecipientLocked | lib/src/main/java/org/asamk/signal/manager/storage/recipients/RecipientStore.java:1082-1116 | The answer and the new table are `ResolvedId` and `ResolvedRows`: the priority holder, or one inserted row. The counter advances exactly when a row is inserted. |
| Recipients.RecipientStore.ResolveServiceIdLocked | lib/src/main/java/org/asamk/signal/manager/storage/recipients/RecipientStore.java:1118-1127 | Returns the service id's holder, or a new row holding only it. This never fails. |
| Recipients.RecipientStore.ResolveNumberLocked | lib/src/main/java/org/asamk/signal/manager/storage/recipients/RecipientStore.java:1129-1138 | Returns the number's holder, or a new row holding only it. This never fails. |
| Recipients.RecipientStore.ResolveRecipient | lib/src/main/java/org/asamk/signal/manager/storage/recipients/RecipientStore.java:181-196 | A cache hit returns the cached id, touching neither the rows, the counter nor the cache. Otherwise behaves as `ResolveServiceIdLocked`. |
| Recipients.RecipientStore.GetActualRecipientId | lib/src/main/java/org/asamk/signal/manager/storage/recipients/RecipientStore.java:804-811 | Returns where the redirect chain ends: an id that is not merged away, and the input itself when it is not a redirect key. |
| Recipients.RecipientStore.MergeRecipientsLocked | lib/src/main/java/org/asamk/signal/manager/storage/recipients/RecipientStore.java:1220-1249 | `DataMerged`: the winner's contact, profile key, credential and profile are kept when present and otherwise copied from the loser. The loser and all other rows are untouched. Then `loser -> winner` is recorded; acyclicity is kept. |
| Recipients.RecipientStore.MergeData | lib/src/main/java/org/asamk/signal/manager/storage/recipients/RecipientStore.java:1223-1246 | The four copying blocks establish `DataMerged`. |
| Recipients.RecipientStore.MergeRest | lib/src/main/java/org/asamk/signal/manager/storage/recipients/RecipientStore.java:1229-1246 | After the contact block, the other three blocks complete `DataMerged`. |
| Recipients.RecipientStore.RecordRedirect | lib/src/main/java/org/asamk/signal/manager/storage/recipients/RecipientStore.java:1248 | Adds exactly `loser -> winner` to the redirects and keeps them acyclic. |
| Recipients.RecipientStore.MergeContact | lib/src/main/java/org/asamk/signal/manager/storage/recipients/RecipientStore.java:1223-1227 | A winner without a contact gets `MergedContact`; profile, key and credential stay; other existing rows are kept. |
| Recipients.RecipientStore.MergeProfileKey | lib/src/main/java/org/asamk/signal/manager/storage/recipients/RecipientStore.java:1229-1233 | A winner without a key gets the loser's key, which clears the winner's credential; only the winner changes. |
| Recipients.RecipientStore.MergeCredential | lib/src/main/java/org/asamk/signal/manager/storage/recipients/RecipientStore.java:1235-1240 | A winner without a credential gets the loser's; only the winner changes. |
| Recipients.RecipientStore.MergeProfile | lib/src/main/java/org/asamk/signal/manager/storage/recipients/RecipientStore.java:1242-1246 | A winner without a profile gets the loser's; its contact, key and credential stay. |
| Recipients.RecipientStore.MergeRecipients | lib/src/main/java/org/asamk/signal/manager/storage/recipients/RecipientStore.java:1070-1080 | Exactly the losers are deleted and exactly their cache entries evicted. `Valid()` is restored once every live redirect key is among them. |
| Recipients.RecipientStore.RemoveLoser | lib/src/main/java/org/asamk/signal/manager/storage/recipients/RecipientStore.java:1075-1078 | One loser row is deleted and exactly its cache entries are evicted. |
| Recipients.HelperStepKeeps | lib/src/main/java/org/asamk/signal/manager/storage/recipients/RecipientStore.java:1492-1521 | One write of the merge helper keeps the keys unique and the counters above every id in use, removes no row, changes at most the row it names, and adds rows only at the counter. |
| Recipients.HelperWritesKeep | lib/src/main/java/org/asamk/signal/manager/storage/recipients/RecipientStore.java:1492-1521 | A sequence of helper writes that succeeds keeps the table invariants, removes no row, leaves every existing row it does not name unchanged, and adds rows only from the counter on. |
| Recipients.ScenarioNumberMovesToWinner | lib/src/main/java/org/asamk/signal/manager/storage/recipients/RecipientStore.java:1060 | Worked example: row 1 holds an ACI, row 2 the number; after the helper clears row 2 and writes the full address onto row 1, the number is held by row 1 and row 2 holds no key. |
| Recipients.RecipientStore.ApplyHelperWrite | lib/src/main/java/org/asamk/signal/manager/storage/recipients/RecipientStore.java:1505-1521 | One `HelperStore` call through `addNewRecipient`, `updateRecipientAddress` or `removeRecipientAddress`: the new table and counters, or the failure, are those of `HelperStep`. |
| Recipients.RecipientStore.ApplyHelperWrites | lib/src/main/java/org/asamk/signal/manager/storage/recipients/RecipientStore.java:1060 | The helper's writes made in order, stopping at the first failure: the outcome is `HelperWrites` of the old table. |
| Recipients.RecipientStore.ResolveRecipientTrustedLocked | lib/src/main/java/org/asamk/signal/manager/storage/recipients/RecipientStore.java:1052-1068 | An address with a single key, or one matching the local account when not resolving it as self, is resolved directly, with the redirects unchanged. Otherwise the helper's table writes are made first; a failing one fails the resolution with the redirects unchanged. After them the winner is marked registered and every loser redirected to it; every row the writes left, other than the winner, is kept; and a redirect key still live is one of the losers. |
| Recipients.RecipientStore.MergeLosers | lib/src/main/java/org/asamk/signal/manager/storage/recipients/RecipientStore.java:1062-1064 | After merging each loser in turn, every loser redirects to the winner, the other redirects are unchanged, and no row other than the winner changes. |
| Recipients.RecipientStore.ResolveRecipientTrusted | lib/src/main/java/org/asamk/signal/manager/storage/recipients/RecipientStore.java:1027-1050 | `Valid()` is kept. A direct resolution is `ResolvedId`/`ResolvedRows`. A failing helper write fails the resolution. Otherwise the winner is returned and every loser is deleted and redirected to the winner. |
| StorageSyncValidations.SubsetOfSameSize | lib/src/main/java/org/asamk/signal/manager/syncStorage/StorageSyncValidations.java:85-111 | A subset as large as its superset is the superset: why the size checks plus `containsAll` amount to set equality. |
| StorageSyncValidations.IdsOfType | lib/src/main/java/org/asamk/signal/manager/syncStorage/StorageSyncValidations.java:145 | The ids of one type are exactly the manifest's ids of that type, and no more of them. |
| StorageSyncValidations.ValidateManifestAndInserts | lib/src/main/java/org/asamk/signal/manager/syncStorage/StorageSyncValidations.java:120-196 | The loops (account count, ordered insert checks with early exit) compute exactly `ManifestAndInsertsCheck`. |
| StorageSyncValidations.ValidateForcePush | lib/src/main/java/org/asamk/signal/manager/syncStorage/StorageSyncValidations.java:114-118 | A force push is exactly the structural check. |
| StorageSyncValidations.Validate | lib/src/main/java/org/asamk/signal/manager/syncStorage/StorageSyncValidations.java:26-112 | The whole validation, with its delete loop, computes exactly `WriteCheck`. |
| StorageSyncValidations.DistinctIffSameSize | lib/src/main/java/org/asamk/signal/manager/syncStorage/StorageSyncValidations.java:140-146 | A list's set is never larger than the list, and equally large exactly when the list has no repeat. |
| StorageSyncValidations.IdsOfTypeDistinct | lib/src/main/java/org/asamk/signal/manager/syncStorage/StorageSyncValidations.java:145-163 | Filtering a duplicate-free list by type keeps it duplicate-free. |
| StorageSyncValidations.RawIdsSameSizeIff | lib/src/main/java/org/asamk/signal/manager/syncStorage/StorageSyncValidations.java:138-144 | The raw-id set has as many elements as the id set exactly when no two ids share raw bytes. |
| StorageSyncValidations.CountOfTypeMeaning | lib/src/main/java/org/asamk/signal/manager/syncStorage/StorageSyncValidations.java:123-126 | The account count is 0 exactly when no id has the type, and above 1 exactly when two positions have it. |
| StorageSyncValidations.AccountRule | lib/src/main/java/org/asamk/signal/manager/syncStorage/StorageSyncValidations.java:123-134 | Two ACCOUNT ids fail with MultipleAccount (checked first); none fails with MissingAccount. Any other outcome means exactly one. |
| StorageSyncValidations.RepeatedIdRule | lib/src/main/java/org/asamk/signal/manager/syncStorage/StorageSyncValidations.java:136-142 | With one ACCOUNT id, a repeated (type, raw) id fails with DuplicateStorageId. |
| StorageSyncValidations.TypedDuplicatesUnreachable | lib/src/main/java/org/asamk/signal/manager/syncStorage/StorageSyncValidations.java:140-165 | Once the check at line 140 passes, none of the typed duplicate checks can fire; the outcome is DuplicateRawIdAcrossTypes. |
| StorageSyncValidations.SharedRawIdRule | lib/src/main/java/org/asamk/signal/manager/syncStorage/StorageSyncValidations.java:144-166 | With one ACCOUNT id and no repeated id, raw bytes shared across types fail with DuplicateRawIdAcrossTypes. |
| StorageSyncValidations.RepeatedInsertRule | lib/src/main/java/org/asamk/signal/manager/syncStorage/StorageSyncValidations.java:168-170 | Past the id checks, a repeated insert id fails with DuplicateInsertInWrite. |
| StorageSyncValidations.InsertsCheckFirstFailure | lib/src/main/java/org/asamk/signal/manager/syncStorage/StorageSyncValidations.java:172-191 | The inserts pass exactly when none fails a check. Otherwise the outcome is the error of the first insert, in list order, that fails one of the three checks, taken in their order. |
| StorageSyncValidations.SelfProtection | lib/src/main/java/org/asamk/signal/manager/syncStorage/StorageSyncValidations.java:181-190 | An insert of the local user as a contact never passes. It fails with SelfAddedAsContact when no earlier insert failed. |
| StorageSyncValidations.DeletePresentRule | lib/src/main/java/org/asamk/signal/manager/syncStorage/StorageSyncValidations.java:34-48 | After the structural checks, a delete whose raw bytes are in the new manifest fails with DeletePresentInFullIdSet. |
| StorageSyncValidations.FirstWriteAccepted | lib/src/main/java/org/asamk/signal/manager/syncStorage/StorageSyncValidations.java:50-54 | Against a version-0 previous manifest, passing the structural and delete checks is acceptance, whatever the version and diff. |
| StorageSyncValidations.VersionCheckedBeforeForcePush | lib/src/main/java/org/asamk/signal/manager/syncStorage/StorageSyncValidations.java:56-64 | A version other than previous + 1 fails even with a force push pending. An unchanged version always fails. The right version with a pending force push is accepted. |
| StorageSyncValidations.DiffCheckIff | lib/src/main/java/org/asamk/signal/manager/syncStorage/StorageSyncValidations.java:66-111 | The diff check passes exactly when declared inserts and deletes equal the true raw-id set differences. |
| StorageSyncValidations.AcceptanceIsTrueDiff | lib/src/main/java/org/asamk/signal/manager/syncStorage/StorageSyncValidations.java:26-112 | Past the structural, delete and version checks with no force push, `validate` accepts exactly the true diff. |
| StorageSyncValidations.FirstWriteWithoutDeletesIsStructural | lib/src/main/java/org/asamk/signal/manager/syncStorage/StorageSyncValidations.java:32-54 | A write that declares no deletes, against a version-0 previous manifest, is judged by the structural check alone: the delete loop is skipped and the version-0 return comes before any other check. |
| StorageSyncValidations.ScenarioRawIds | lib/src/main/java/org/asamk/signal/manager/syncStorage/StorageSyncValidations.java:66-77 | Worked example: previous {A, B, C} and new {A, B, D} give the manifest diff: D inserted, C deleted. |
| StorageSyncValidations.ScenarioNextShape | lib/src/main/java/org/asamk/signal/manager/syncStorage/StorageSyncValidations.java:123-144 | The example's new manifest has one ACCOUNT id and three distinct ids and raw ids. |
| StorageSyncValidations.ScenarioStructurePasses | lib/src/main/java/org/asamk/signal/manager/syncStorage/StorageSyncValidations.java:120-196 | The example's new manifest with no insert, or inserting D, passes the structural check. |
| StorageSyncValidations.ScenarioExactDiffAccepted | lib/src/main/java/org/asamk/signal/manager/syncStorage/StorageSyncValidations.java:85-111 | Declaring D inserted and C deleted is accepted. |
| StorageSyncValidations.ScenarioMissingDeleteRejected | lib/src/main/java/org/asamk/signal/manager/syncStorage/StorageSyncValidations.java:104-107 | Omitting the delete of C fails with LessDeletesThanExpected. |
| StorageSyncValidations.ScenarioMissingInsertRejected | lib/src/main/java/org/asamk/signal/manager/syncStorage/StorageSyncValidations.java:90-93 | Omitting the insert of D fails with LessInsertsThanExpected. |
| StorageSyncValidations.ScenarioExtraInsertRejected | lib/src/main/java/org/asamk/signal/manager/syncStorage/StorageSyncValidations.java:172-175 | An extra insert E absent from the manifest fails with InsertNotPresentInFullIdSet, before the diff is compared. |
| StorageSyncValidations.ScenarioBypasses | lib/src/main/java/org/asamk/signal/manager/syncStorage/StorageSyncValidations.java:50-64 | With the delete omitted, the write is still accepted against a version-0 manifest, and under a pending force push. |
| StorageSyncValidations.ScenarioSelfContactRejected | lib/src/main/java/org/asamk/signal/manager/syncStorage/StorageSyncValidations.java:181-190 | A contact matching the local number fails with SelfAddedAsContact. |

## Behaviour of the code worth knowing

These came out of stating the contracts. The model follows the code in each case. None of them is claimed as a bug.
- An insert that is missing from the new manifest fails the structural check (InsertNotPresentInFullIdSet). This happens before the diff is compared. A write declaring one insert too many that is not in the manifest therefore never reaches MoreInsertsThanExpected (`ScenarioExtraInsertRejected`).
- During a merge, a winner that holds a credential but no profile key loses that credential. The key write clears the credential column. The credential block then copies the loser's credential, which may be none. `WinnerFilled` states exactly this.
- Copying the loser's contact onto a contact-less winner goes through `storeContact`. That write resets the winner's contact-only columns and its unregistered timestamp. When the loser's contact carries a timestamp, it may also split the winner.
- Resolving an address that carries only a username inserts a row holding the username. A second resolution of the same username then fails on UNIQUE(username) (`MissInsertsOneRow`).

## Left out

- JDBC, SQL text, `ResultSet` mapping, `createSql` and transactions. Each statement is its effect on the row map. A failing statement (`UniqueConstraintViolated`, `RecipientNotFound`) is an `Err` result. The rollback of the enclosing transaction is not modelled; the earlier updates of a failed operation stay visible.
- Concurrency: the `synchronized (recipientsLock)` blocks. `resolveRecipientTrusted` splits its work into two transactions; here they are two sequential steps.
- `MergeRecipientHelper` is not part of this model. What it decides enters `ResolveRecipientTrustedLocked` as parameters: the table writes it makes through `HelperStore` (`HelperWrite`: an `addNewRecipient`, `updateRecipientAddress` or `removeRecipientAddress` call), which the model makes through the store's own methods, and its answer (winner, losers). The precondition states what the store relies on, on the table those writes leave: a live winner that is no redirect key, and live losers other than the winner. Its lookups `findByUsername` and `findAllByAddress` are reads and are not modelled.
- `RecipientMergeHandler.mergeRecipients`, which moves other tables' references to the winner, is not part of this model.
- `KeyUtils.createRawStorageId` is random. It is modelled as the counter `nextStorageId`, kept above every storage id in use. "Fresh" therefore means "never handed out before", not "random".
- `System.currentTimeMillis` is the parameter `now`.
- The self providers are the parameter `SelfAccount`: the local address, recipient id and profile key. `getProfileKey` resolves the local recipient through `resolveRecipientLocked(selfAddress)`. Here that recipient is given, so the insert that this resolution could make is not modelled.
- `addLegacyRecipients`, a one-off migration, is not modelled.
- Not modelled, because they are not among the modelled operations:
  - `updateStorageId`, `updateStorageIds`
  - `getStorageIds`, `getSelfStorageId`, `rotateSelfStorageId`
  - `resolveRecipientAddress`
  - the listing queries `getRecipients`, `getContacts`, `getAllNumbers`, `getServiceIdToProfileKeyMap`
  - the public wrappers that parse identifiers (`ServiceId.parseOrNull`) or resolve by username
- libsignal's `ProfileKey` and `ExpiringProfileKeyCredential` are opaque byte strings. Deserialisation failures are not modelled.
- Profile capabilities are one opaque value, not a parsed comma list. An unknown access mode is read as UNKNOWN only when the column is NULL.
- Integer widths: ids, timestamps, expiration times and manifest versions are unbounded integers; the source's `previous + 1` version check is on a `long`. The source's 64-bit and 32-bit columns cannot overflow in practice.
- Base64 in the delete check is injective, so raw byte strings are compared directly. `getStorageIdsByType` is a filter by type.
- Logging, including the null-profile-key debug message, is not modelled.
- Recipients.RecipientStore.DeleteRecipientData: it clears the data with the contact UPDATE followed by a rotation, which is what `storeContact(id, null)` does, rather than by calling `StoreContact`. Its contract does not state the value of `nextStorageId`.
- Recipients.RecipientStore.ClearRecipientData: does not state the row's new storage id, only that the row's data is gone and that no other row changes.
- Recipients.RecipientStore.SetMissingStorageIds: does not fix which fresh id each row receives, since the source visits rows in query order.
- Recipients.RecipientStore.MarkUnregisteredNumbers: states the stamping of the original rows, not the rows its splits add or the cache evictions.
- Recipients.RecipientStore.ResolveRecipientTrustedLocked: on the merge path it states the helper's writes, the redirects, that the winner survives and that the rows the helper's writes left are kept apart from the winner. It does not state what data the winner is left with after several losers; `MergeRecipientsLocked` states this for each single merge.
- Recipients.RecipientStore.MergeRecipientsLocked: keeps `Consistent()` but not `Valid()`. The loser stays a live row until `MergeRecipients` deletes it, as in the source.
