# Verification of the Key Vault emulator

A Dafny model of `ms-keyvault-emulator`, a Go service that emulates Azure Key Vault over SQLite,
with proofs of what its store, its services and its small codecs are for.

    dafny verify dfyconfig.toml

## What is modelled

**The store.** Secrets, keys and certificates each live in a row table and a version table.
`Tables` has the rows under rowids that may be reused, `UNIQUE` pairs and the cascading foreign
key; `Transactions` has the statements the repositories run, each against a specification on a
plain catalog from (vault, name) to versions, current version and deletion state (`Catalog`).
`Worlds` is the whole database as such catalogs, with one step per transaction or stand-alone
statement; `Runs` proves properties of every run of steps. `Database` is the mutable database of
the process: a class whose methods are the repositories', each proved to take exactly its step.
`Rereads` looks at the answers that are read by rowid after the transaction is over.

**Requests.** `SetRequests` interleaves any number of `SecretService.Set` calls, three steps each,
with each other and with everything else; `CreateRequests` does the same for certificate creation.
`Secrets`, with `VersionListing`, and `Certificates` are the services as classes
over the database. `Pagination` is a client that follows tokens while the store changes.
`ConnectionPool` is the pool of one connection and the requests waiting for it. `Vaults` and
`VaultHost` resolve a request to its vault, and `Requests` is resolver and secret service together.

**Codecs and transformations.** `SkipToken` (with `Decimal` and `Base64`), `EcSignature`, `Jwk`,
`Pem`, `Challenge` with the legacy SDK parser, and `Migration`, the multi-vault migration.

The clock, version strings, nonces, generated key pairs and signed certificates are parameters, so
every statement holds for any of them; a version string that is already taken makes its Upsert fail
and roll back. Encryption is symbolic: a sealed value opens under its own key only.

## Findings

Where the code and its documentation or tests differ, the model follows the code.

- Deleting a vault does not cascade: no foreign key to `vault` has a cascade clause
  (cmd/kvemu/migrations/0003_multi_vault.sql:34), though docs/api-endpoints.md:88 says so. A vault
  with rows cannot be deleted (`Worlds.VaultDeletion`).
- Setting a soft-deleted secret purges and recreates it (`SetRequests.SetAlone`);
  test/e2e/matrix_test.go:152-160 expects a conflict. A soft-deleted key or certificate does block
  its name.
- A Set that would succeed alone fails only in a race. Of two Sets of one soft-deleted secret one may
  fail (`SetRequests.ConcurrentSetsMayFail`), and a Set overtaken by a soft delete is refused instead
  of purging it (`SetRequests.SetLosesToDelete`); no version of an active item is ever lost.
- A failed certificate Create may leave its new key and secret behind (`Certificates.FailedCreate`),
  and a successful one may name a key version purged meanwhile (`CreateRequests.KeyMayVanish`).
- The answer of SoftDelete and Recover is read by rowid after the commit, and shows another item if
  the row is purged and its rowid given out again in between (`Rereads.RereadAfterPurge`).
- Under a base domain with a colon the host of a vault resolves to the default vault instead, unless
  it is the default one or no default vault is stored (`Vaults.OwnHostResolves`).
- A soft delete of an item a page walk has passed costs the walk the very next unread item, and that
  one only (`Pagination.PassedDeleteLosesNext`).
- ListDeleted with a non-empty result asks for a second connection while it holds the only one and
  blocks every request (`ConnectionPool.SafeIffNoDeletedListing`).
- Migration 0003 drops vaults that share a first label (`Migration.VaultsKept`, `Migration.LostVault`),
  and a failing run of it leaves some tables rebuilt and others not (`Migration.Schema.Migrate`).
- EC coordinates in a JWK have the full width RFC 7518 asks for only when they fill their top byte
  (`Jwk.FullWidthIffTopByte`).
- `VaultService.Delete` protects the vault literally named "vault", whatever default is configured.

## Model

| member | source | states |
|---|---|---|
| `Tables.InsertRefines` | internal/adapters/persistence/sqlite/secret_repo.go:79-97 | the first Upsert of a name adds exactly one item with one version, whatever unused rowid the row gets: no version of a purged item that had the rowid before comes back |
| `Tables.AppendRefines` | internal/adapters/persistence/sqlite/secret_repo.go:128-150 | a later Upsert adds one version, makes it current and changes nothing else in the catalog |
| `Tables.PatchRefines` | internal/adapters/persistence/sqlite/secret_repo.go:343-385 | an UPDATE of a version row changes that version of that item only |
| `Tables.RowRefines` | internal/adapters/persistence/sqlite/secret_repo.go:410-416 | an UPDATE of deletion columns or policy changes these of that item and keeps its versions |
| `Tables.RemoveRefines` | cmd/kvemu/migrations/0001_init.sql:27-29 | a DELETE with its cascade removes exactly the matched items, leaves no orphan version and keeps every other item |
| `Tables.RewriteKeepsValid` | cmd/kvemu/migrations/0001_init.sql:14-41 | unique (vault, name), no orphan version, current version exists, deletion columns all set or all NULL: kept by every write of a row and one of its versions |
| `Tables.ValidSays` | cmd/kvemu/migrations/0001_init.sql:14-41 | these constraints one by one, for any valid table |
| `Tables.NextRowid` | cmd/kvemu/migrations/0001_init.sql:15 | a new row gets one more than the largest id in use, 1 in an empty table; it may have belonged to a purged row |
| `Transactions.EnsureRow` | internal/adapters/persistence/sqlite/secret_repo.go:79-97 | finds the active row, or inserts one under an unused id; refused for a soft-deleted name (UNIQUE) or a missing vault (foreign key), and only then |
| `Transactions.Upsert` | internal/adapters/persistence/sqlite/secret_repo.go:101-151 | on the tables does what Upsert does to the item of the catalog, with the same errors |
| `Transactions.SoftDelete` | internal/adapters/persistence/sqlite/secret_repo.go:389-430 | marks the active row or reports not found |
| `Transactions.Recover` | internal/adapters/persistence/sqlite/secret_repo.go:529-556 | clears the marks of the soft-deleted row or reports not found |
| `Transactions.Purge` | internal/adapters/persistence/sqlite/secret_repo.go:560-572 | removes the soft-deleted item with its versions, or reports not found; an active item is never removed |
| `Transactions.UpdateVersion` | internal/adapters/persistence/sqlite/secret_repo.go:343-385 | patches the named version of an active item, or reports not found |
| `Transactions.UpdatePolicy` | internal/adapters/persistence/sqlite/cert_repo.go:170-183 | replaces the policy of an active certificate, or reports not found |
| `Transactions.SweepDue` | internal/app/purge_scheduler.go:29-44 | removes exactly the soft-deleted items scheduled at or before now |
| `Transactions.SelectCurrent` | internal/adapters/persistence/sqlite/secret_repo.go:205-217 | the inner join on current_ver finds the current version of exactly the active items |
| `Transactions.SelectVersion` | internal/adapters/persistence/sqlite/secret_repo.go:220-233 | finds the named version of active items only |
| `Transactions.SelectVersions` | internal/adapters/persistence/sqlite/secret_repo.go:266-275 | the join on all versions finds exactly the versions of the active item, none of an item purged before |
| `Transactions.IsActive` | internal/adapters/persistence/sqlite/secret_repo.go:284-291 | the count of active rows of the name is not zero |
| `Transactions.IsDeleted` | internal/adapters/persistence/sqlite/secret_repo.go:576-584 | true exactly for a soft-deleted item, false when there is no row |
| `Transactions.JoinedNamesAreActive` | internal/adapters/persistence/sqlite/secret_repo.go:243-250 | the inner join of a listing loses no active item and shows no other |
| `Transactions.DeleteThenRecover` | internal/adapters/persistence/sqlite/secret_repo.go:389-430 | SoftDelete then Recover gives the very same tables back, rowids and columns included, for every active item |
| `Rereads.RereadShowsOwnItem` | internal/adapters/persistence/sqlite/secret_repo.go:432-441 | SoftDelete and Recover read their answer by rowid after the commit: whatever commits in between, it is the current version of their own item as long as the row is not removed |
| `Rereads.RereadAfterPurge` | internal/adapters/persistence/sqlite/secret_repo.go:416-424 | if the row is purged and another item created first, no row answers, unless the rowid is the next one given out; exactly then the answer shows the other item |
| `Worlds.StepKeepsValid` | cmd/kvemu/migrations/0003_multi_vault.sql:32-43 | every committed step of every kind keeps the invariant: vaults exist for all rows, names and hosts unique, current versions exist, payloads of the right kind |
| `Worlds.StepAt` | internal/adapters/persistence/sqlite/secret_repo.go:101-151 | one step seen from one item: only a step on that very item or a due sweep changes it |
| `Worlds.RecoveryIdParts` | internal/adapters/persistence/sqlite/secret_repo.go:409 | the recovery id, split at its slashes: the vault, the deleted collection of the kind, the name |
| `Worlds.VaultDeletion` | internal/adapters/persistence/sqlite/vault_repo.go:87-97 | a vault can be deleted if and only if no row, soft-deleted ones included, refers to it; a refused deletion changes nothing |
| `Worlds.DeleteThenRecover` | internal/adapters/persistence/sqlite/secret_repo.go:529-556 | from any valid state SoftDelete followed by Recover restores the whole database, for all three kinds |
| `Runs.RunKeepsValid` | internal/adapters/persistence/sqlite/db.go:24-30 | the invariant holds after every run of steps |
| `Runs.EmptyIsValid` | cmd/kvemu/migrations/0001_init.sql:1-41 | the empty database satisfies the invariant, so every reachable one does |
| `Runs.ReachableIsWhole` | cmd/kvemu/migrations/0003_multi_vault.sql:32-43 | every reached state in plain words: no row names a missing vault, every item has its current version, versions are of the kind of their table, vault names and hosts are unique |
| `Runs.VersionsSurvive` | internal/adapters/persistence/sqlite/secret_repo.go:343-385 | in every run in which an item is not removed, each of its versions stays, with its value and creation time unchanged by updates, deletes and recovers |
| `Runs.ReadsFindUndeleted` | internal/adapters/persistence/sqlite/secret_repo.go:205-233 | an item is read, by name, by version and in listings, exactly while it carries no deletion, and then what is read is its current or the named version |
| `Runs.DeletedIsNotFound` | internal/adapters/persistence/sqlite/secret_repo.go:205-233 | from a committed soft delete on, through any run, nothing of the item is read until a recover or a new Upsert of it commits |
| `Runs.RecoverBringsBack` | internal/adapters/persistence/sqlite/secret_repo.go:529-556 | a recover brings back every answer of before the delete, whatever ran in between, unless the item was purged or recovered before |
| `Runs.PolicyIsLastWritten` | internal/adapters/persistence/sqlite/cert_repo.go:80-84 | the policy of an item is the one of the last committed policy update or Upsert |
| `Runs.CurrentIsLastUpsert` | internal/adapters/persistence/sqlite/secret_repo.go:144-150 | in every run the current version of an item is that of the last committed Upsert since it was created |
| `Runs.KeptUntilScheduled` | internal/app/purge_scheduler.go:29-44 | while the clock of a run is short of its scheduled date, a soft-deleted item that nobody purges or recovers by name stays as it is and can be recovered whole, whatever the run ends in |
| `Runs.AutoPurgeIsExact` | internal/app/purge_scheduler.go:29-44 | one run at time t leaves no soft-deleted item scheduled at or before t and every other item as it was |
| `Runs.Noninterference` | internal/app/secret_service.go:26-31 | in any run, vaults, contacts and issuers coming and going included, what a vault holds and how its next request is answered depend only on its own steps and the sweeps: all others can be dropped, if no other vault claims its host |
| `Runs.StepOutsideVault` | internal/app/secret_service.go:26-31 | a step that does not concern a vault changes nothing the vault can see |
| `Runs.ReadsStayInVault` | internal/adapters/persistence/sqlite/secret_repo.go:205-258 | reads of the current and of named versions, and listings, of a vault depend on its own rows only |
| `SetRequests.InterleavingIsRun` | internal/app/secret_service.go:38-51 | any interleaving of Set calls and other requests is a run of committed steps, so everything proved of runs holds of it |
| `SetRequests.PurgeSparesActive` | internal/adapters/persistence/sqlite/secret_repo.go:560-572 | the purge inside a Set changes no item that is active when it runs |
| `SetRequests.SetStepSparesActive` | internal/app/secret_service.go:38-51 | no step of a Set, purge or insert, destroys a version of an active item |
| `SetRequests.OnlySoftDeleteEndangers` | internal/app/secret_service.go:38-51 | in every interleaving of any number of Sets with anything else, purges, recovers and sweeps of the same name included, an active item that nobody soft-deletes stays active and keeps every version with its content |
| `SetRequests.SuccessWasStored` | internal/app/secret_service.go:51-54 | a Set that reports success did store its version as the current one |
| `SetRequests.UndisturbedSetSucceeds` | internal/app/secret_service.go:38-51 | in every interleaving a Set whose vault exists and whose version string is new to an active item never fails as long as no step of others changes that item or the existence of that vault |
| `SetRequests.FailedPurgeWasRaced` | internal/app/secret_service.go:39-41 | a Set fails in its purge only when, since its check, a step of others recovered the item or removed it |
| `SetRequests.FailedInsertWasRaced` | internal/app/secret_service.go:51-53 | the insert of a Set fails exactly when the item cannot take the version at that moment; if it could when the Set got there, a step of others soft-deleted the item, took the version string or removed the vault |
| `SetRequests.SetAlone` | internal/app/secret_service.go:35-55 | an undisturbed Set succeeds exactly when its vault exists and its version string is new to the active item; a soft-deleted name is replaced; nothing else changes |
| `SetRequests.ConcurrentSetsMayFail` | internal/app/secret_service.go:38-51 | two Sets of a soft-deleted secret that both check first: the second is told not found, though each alone succeeds |
| `SetRequests.SetLosesToDelete` | internal/app/secret_service.go:38-51 | a Set of an active secret overtaken by a soft delete is refused as a duplicate, though it succeeds both alone and after the delete |
| `Database.Database.Upsert` | internal/adapters/persistence/sqlite/key_repo.go:65-116 | takes exactly the Upsert step of its kind, or refuses with its error and changes nothing |
| `Database.Database.SoftDelete` | internal/adapters/persistence/sqlite/key_repo.go:322-342 | takes exactly the soft-delete step, scheduled date and recovery id included |
| `Database.Database.Recover` | internal/adapters/persistence/sqlite/key_repo.go:403-415 | takes exactly the recover step |
| `Database.Database.Purge` | internal/adapters/persistence/sqlite/cert_repo.go:352-363 | takes exactly the purge step |
| `Database.Database.UpdateAttributes` | internal/adapters/persistence/sqlite/secret_repo.go:343-385 | takes exactly the patch step |
| `Database.Database.UpdatePolicy` | internal/adapters/persistence/sqlite/cert_repo.go:170-183 | takes exactly the policy step |
| `Database.Database.RunAutoPurge` | internal/app/purge_scheduler.go:29-44 | sweeps the three catalogs, one after the other |
| `Database.Database.CreateVault` | internal/adapters/persistence/sqlite/vault_repo.go:24-38 | adds the vault unless its name or its host is taken |
| `Database.Database.UpdateVault` | internal/adapters/persistence/sqlite/vault_repo.go:99-111 | changes the display name and the update time of a vault and nothing else |
| `Database.Database.GetByHost` | internal/adapters/persistence/sqlite/vault_repo.go:74-85 | a vault of that host; none only if no vault has it |
| `Database.Database.DeleteVault` | internal/adapters/persistence/sqlite/vault_repo.go:87-97 | deletes an unreferenced vault; the foreign keys of five tables refuse the others |
| `Secrets.StoredIsRead` | internal/adapters/persistence/sqlite/secret_repo.go:155-203 | reading back a stored version gives every field back under the same master key, and nothing under another |
| `Secrets.PatchKeepsValue` | internal/adapters/persistence/sqlite/secret_repo.go:343-385 | a patch changes neither the value read nor the creation time |
| `Secrets.PatchIsRead` | internal/adapters/persistence/sqlite/secret_repo.go:350-368 | each of the two dates, the content type and the tags reads as patched when given, as before when not; an empty content type or tag map reads as empty; the update time is that of the patch |
| `Secrets.LastPatchWins` | internal/adapters/persistence/sqlite/secret_repo.go:350-368 | of two patches in a row the later wins field by field |
| `Secrets.SecretService.Set` | internal/app/secret_service.go:35-55 | in the vault of the request, or the one of the service when it has none: check, purge and upsert leave the database as the undisturbed Set does, succeed exactly when it may, the answer is the one of the next Get, and no other vault changes |
| `Secrets.SetIsRunAlone` | internal/app/secret_service.go:35-55 | the outcome that method promises, database and answer, is that of the interleaving model with one call alone |
| `Secrets.SecretService.Get` | internal/app/secret_service.go:58-63 | in the vault of the request, or the one of the service when it has none: the current version for an empty version string, the named one otherwise; not found for a missing or soft-deleted item; an error for a value that does not open |
| `Secrets.AnswerIsStored` | internal/adapters/persistence/sqlite/secret_repo.go:155-203 | an answer carries the name and version asked for and the value that version was sealed with |
| `Secrets.SecretService.Delete` | internal/app/secret_service.go:101-104 | soft-deletes an active item of that vault with the purge scheduled ninety days on, after which it is not found; no other vault changes |
| `Secrets.NinetyDaysOn` | internal/app/secret_service.go:102 | the scheduled date is the same local time of day, ninety local days on |
| `Secrets.AnswersStayInVault` | internal/app/secret_service.go:26-31 | on two databases that look the same from inside a vault, every Get, listing and version listing of that vault has the same answers |
| `Secrets.SecretService.List` | internal/app/secret_service.go:66-76 | one page of the active names of that vault, each before the next character by character, each what a Get of its name answers, less the value; fails if a row read does not open |
| `Secrets.SecretService.ListVersions` | internal/app/secret_service.go:79-88 | one page of the versions of an active item of that vault, creation times never rising, values blank; not found for any other name; fails if a row read does not open |
| `VersionListing.Order` | internal/adapters/persistence/sqlite/secret_repo.go:271 | ORDER BY created DESC: every version once, the newest first |
| `VersionListing.NewestFirstIsUnique` | internal/adapters/persistence/sqlite/secret_repo.go:271 | creation times that differ leave one order only |
| `Secrets.ListPage` | internal/adapters/persistence/sqlite/secret_repo.go:237-258 | the rows of a page with their values, and the token of the next page |
| `Secrets.BlankValues` | internal/app/secret_service.go:71-75 | only the values are blanked, in place and in order |
| `Certificates.CertService.CreateKey` | internal/adapters/persistence/sqlite/key_repo.go:65-116 | stores the generated pair as the new current key version, readable again by the signer |
| `Certificates.CertService.GetPriv` | internal/adapters/persistence/sqlite/key_repo.go:191-205 | opens the private half of a version, soft-deleted items included |
| `Certificates.CertService.PutCert` | internal/adapters/persistence/sqlite/cert_repo.go:41-86 | takes exactly the certificate Upsert |
| `Certificates.CertService.Create` | internal/app/cert_service.go:47-96 | three writes in order, each only after the previous one, in the vault of the request or of the service; no other vault changes |
| `Certificates.CertService.Import` | internal/app/cert_service.go:99-128 | refuses text without a PEM block and changes nothing; otherwise writes the secret, then the certificate |
| `Certificates.CreateOutcome` | internal/app/cert_service.go:47-96 | a Create succeeds exactly when a pair is generated and signed and all three writes are allowed on the starting state; then the three new versions are current in one vault, the certificate naming the other two, and nothing else differs |
| `Certificates.CreateIsBacked` | internal/app/cert_service.go:74-92 | following the references of the certificate a successful Create leaves: its key is the current one and opens to the generated pair, its secret is the current one and reads as the encoded certificate, and it reads with the attributes and policy asked for |
| `Certificates.ImportIsBacked` | internal/app/cert_service.go:107-125 | an imported certificate names no key, and its secret reads as the upload |
| `Certificates.FailedCreate` | internal/app/cert_service.go:47-96 | a failed Create leaves the certificates as they were; with a soft-deleted backing key it changes nothing; a later failure leaves the new key, or key and secret, behind |
| `Certificates.BackedOutcome` | internal/app/cert_service.go:99-128 | when the secret and certificate writes shared with Import succeed, and what they leave either way |
| `CreateRequests.SuccessStoredAll` | internal/app/cert_service.go:47-96 | in every interleaving a Create that reports success stored its key, secret and certificate in that order, each the current version of the name in one vault right after its own step |
| `CreateRequests.StoredReads` | internal/app/cert_service.go:74-88 | read back right after their steps, the key opens to the generated pair, the secret reads as the encoded certificate, and the certificate names the versions of these two |
| `CreateRequests.StoredSurvives` | internal/app/cert_service.go:47-96 | each of them is there ever after, with its content, unless a later step destroys its item, which is soft-deleted at that moment |
| `CreateRequests.KeyMayVanish` | internal/app/cert_service.go:53-93 | such a step may come in between: the Create succeeds, its secret reads as the encoded certificate, and its certificate names a key version that is gone |
| `VaultHost.NameInvertsHost` | internal/domain/vault.go:17-34 | for every valid name, name extraction inverts host building if and only if the base domain holds no colon |
| `VaultHost.HostsAreDistinct` | internal/domain/vault.go:32-34 | distinct names give distinct hosts |
| `VaultHost.HostParts` | internal/domain/vault.go:32-34 | what precedes the colon of a built host is the name under the base domain, what follows it the port |
| `VaultHost.ValidNames` | internal/domain/vault.go:36 | one to 24 small letters, digits and hyphens, no hyphen at either end |
| `VaultHost.ColonHidesName` | internal/domain/vault.go:17-30 | under a base domain with a colon no host carries a name |
| `Vaults.VaultService.Create` | internal/app/vault_service.go:24-53 | creates a vault exactly when the name is valid and name and host are free, with the documented defaults |
| `Vaults.VaultService.Delete` | internal/app/vault_service.go:67-72 | refuses the vault named "vault", otherwise takes the deletion step |
| `Vaults.FreshNameHasFreshHost` | internal/app/vault_service.go:37-51 | a free name never meets a taken host |
| `Vaults.Resolve` | internal/adapters/http/middleware/vault.go:38-60 | label of the host first, then the default vault, then the whole host |
| `Vaults.OwnHostResolves` | internal/adapters/http/middleware/vault.go:43-60 | whatever other vaults there are and under whatever hosts, a request for the built host of a vault resolves to it if and only if the base domain has no colon, or the vault is the default one, or no default vault is stored; otherwise it gets the default vault |
| `Vaults.RequestStaysInItsVault` | internal/adapters/http/middleware/vault.go:38-73 | in those cases a change made under the host of one vault leaves every other vault, items and listings, as it was |
| `Requests.Server.Put` | internal/adapters/http/middleware/vault.go:38-73 | under the stored host of a vault a Set stores into that vault, where the next Get finds it, and changes no other |
| `Requests.Server.Fetch` | internal/adapters/http/middleware/vault.go:38-73 | under the stored host of a vault the answer is that of its own item |
| `Requests.Server.Remove` | internal/adapters/http/middleware/vault.go:38-73 | under the stored host of a vault its own item is no longer found, and no other vault changes |
| `Requests.Server.ListPage` | internal/adapters/http/middleware/vault.go:38-73 | under the stored host of a vault the page is of its own items, in order |
| `Requests.Server.ListVersionsPage` | internal/adapters/http/middleware/vault.go:38-73 | under the stored host of a vault the versions are those of its own item |
| `Vaults.VaultsDoNotInterfere` | internal/app/vault_service.go:37-51 | vaults created under one base domain share no host, so in any run each stands as if only its own requests and the sweeps had run |
| `Pagination.ScanRows` | internal/adapters/persistence/sqlite/secret_repo.go:295-339 | keeps a page of the rows read and issues a token exactly when there was one row more |
| `Pagination.PageSizes` | internal/adapters/persistence/sqlite/secret_repo.go:238-240 | a size within 1..25 is honoured, any other gives 25 |
| `Pagination.NegativeOffsetIsFirst` | internal/adapters/persistence/sqlite/secret_repo.go:249 | a token that reads as a negative offset starts at the first row |
| `Pagination.WalkFinds` | internal/adapters/persistence/sqlite/secret_repo.go:237-339 | a completed walk, interleaved with any steps and page sizes, returns every item listed at its start unless a step soft-deletes it before it was read, or a passed item while it is the very next to read |
| `Pagination.ChangeKeepsCourse` | internal/adapters/persistence/sqlite/secret_repo.go:243-250 | that condition is exact at each step: a change keeps the walk on its way to an item if and only if it is harmless to it |
| `Pagination.PassedDeleteLosesNext` | internal/adapters/persistence/sqlite/secret_repo.go:243-250 | after a soft delete of a passed item and pages of any sizes, a walk that ends has returned an item ahead if and only if it was not the next one |
| `Pagination.FetchesFindRest` | internal/adapters/persistence/sqlite/secret_repo.go:237-258 | with no more changes a walk that ends returns, of the items not returned yet, exactly those its token has not passed |
| `Pagination.WalkWithoutDeletesFindsAll` | internal/adapters/persistence/sqlite/secret_repo.go:237-258 | Set, update, recover, purge and automatic purge steps in any number never make a walk miss an item |
| `Pagination.PassedDeleteHidesNext` | internal/adapters/persistence/sqlite/secret_repo.go:243-250 | the smallest such case: of two items, pages of one, the first soft-deleted after it was read, the second is missed |
| `Pagination.UnchangedWalk` | internal/adapters/persistence/sqlite/key_repo.go:207-284 | on an unchanged store k pages list exactly the first rows in name order, each once, and the walk ends at page ceil(n / size), page one when empty |
| `Ordering.SortedIsOrderBy` | internal/adapters/persistence/sqlite/secret_repo.go:248 | ORDER BY name: exactly the names, each once, each before the next |
| `Ordering.LessIsPrecedes` | internal/adapters/persistence/sqlite/secret_repo.go:248 | before means: a proper prefix, or the smaller character at the first difference |
| `Ordering.SortedAt` | internal/adapters/persistence/sqlite/secret_repo.go:248 | a name stands at the position that counts the smaller ones |
| `SkipToken.RoundTrip` | internal/adapters/persistence/sqlite/secret_repo.go:35-49 | every int comes back from its token |
| `SkipToken.Injective` | internal/adapters/persistence/sqlite/secret_repo.go:35-37 | different offsets have different tokens |
| `SkipToken.BrokenIsZero` | internal/adapters/persistence/sqlite/secret_repo.go:39-49 | what is not base64url, or holds anything but a sign and digits, reads as 0 |
| `Decimal.AtoiOfItoa` | internal/adapters/persistence/sqlite/secret_repo.go:47 | decimal printing and parsing of every int |
| `Base64.LettersEncode` | internal/adapters/persistence/sqlite/secret_repo.go:36 | the alphabets are those of tables 1 and 2 of RFC 4648 |
| `Base64.CharRoundTrip` | internal/adapters/persistence/sqlite/secret_repo.go:43 | exactly the letters of the alphabet decode, each to its own number |
| `Base64.QuantumValue` | internal/adapters/persistence/sqlite/secret_repo.go:36 | four groups are the 24 bits of three bytes, in order (section 4 of RFC 4648) |
| `Base64.RawUrlRoundTrip` | internal/adapters/persistence/sqlite/secret_repo.go:36-43 | unpadded base64url (section 5 of RFC 4648) decodes what it encodes |
| `Base64.StdRoundTrip` | internal/adapters/http/vault_handler.go:238-240 | padded base64 (section 4 of RFC 4648) decodes what it encodes |
| `Challenge.LegacySdkParse` | internal/adapters/http/middleware/challenge_test.go:33-49 | the loop over space-separated tokens fills the map the specification gives, or fails on the first token without an equals sign |
| `Challenge.ParsesWithoutSpaces` | internal/adapters/http/middleware/challenge.go:65-69 | with no space in host and tenant the parser never fails and finds exactly two attributes |
| `Challenge.LegacyParserAgrees` | internal/adapters/http/middleware/challenge_test.go:87-110 | the parser returns exactly the printed authority and resource if and only if host and tenant hold no space and neither ends in a quote or a comma |
| `Challenge.IsDotted` | internal/adapters/http/middleware/challenge.go:22-25 | an IP address is four printed numbers up to 255 joined by dots, and nothing else is |
| `Challenge.ParentIsSuffix` | internal/adapters/http/middleware/challenge.go:17-31 | the parent domain is the host less its first label, or the whole host for an IP address or fewer than three labels |
| `Challenge.ResourceIsHostTail` | internal/adapters/http/middleware/challenge.go:45-51 | the resource is the vault host less its first label, port kept, or all of it |
| `Challenge.SdkChecks` | internal/adapters/http/middleware/challenge.go:33-44 | the Python and the Java suffix checks each pass if and only if the host is no IP address and has three labels |
| `EcSignature.FillBytes` | internal/adapters/crypto/keyops.go:217-218 | fills its part of the buffer with the fixed-width bytes and nothing else |
| `EcSignature.EcSign` | internal/adapters/crypto/keyops.go:207-220 | the buffer is r then s in fixed width (section 3.4 of RFC 7518) |
| `EcSignature.SignatureHalves` | internal/adapters/crypto/keyops.go:217-218 | the first half reads as r, the second as s |
| `EcSignature.CoordinateFits` | internal/adapters/crypto/keyops.go:215 | every coordinate below 2^bits fits the width |
| `EcSignature.CoordinateSizeIsLeast` | internal/adapters/crypto/keyops.go:215 | the width is the least number of bytes that holds the bits |
| `EcSignature.SignThenVerify` | internal/adapters/crypto/keyops.go:222-232 | verification sees exactly the signed pair |
| `EcSignature.SignatureInjective` | internal/adapters/crypto/keyops.go:207-220 | different pairs give different signatures |
| `EcSignature.VerifiesIffWireForm` | internal/adapters/crypto/keyops.go:222-232 | verification accepts exactly the wire forms of pairs the curve check accepts, hence no other length |
| `EcSignature.FirstByteWeighsMost` | internal/adapters/crypto/keyops.go:229-230 | bytes are read big-endian |
| `EcSignature.ToFromBytes` | internal/adapters/crypto/keyops.go:229-230 | every byte string is the fixed-width form of its number |
| `Jwk.IntegerRoundTrip` | internal/adapters/crypto/keyops.go:113-124 | every integer written into a JWK is read back |
| `Jwk.FullWidthIffTopByte` | internal/adapters/crypto/keygen.go:72-77 | a coordinate is written in the full width of section 6.2.1.2 of RFC 7518 exactly when it fills its top byte; both forms are read alike |
| `Pem.WrapLines` | internal/adapters/http/vault_handler.go:262-272 | ends for every positive width with the lines joined by line breaks |
| `Pem.WrappedShape` | internal/adapters/http/vault_handler.go:262-272 | every line but the last has exactly the width, the last is no longer and not empty, and only line breaks were added |
| `Pem.CertificatePem` | internal/adapters/http/vault_handler.go:240-241 | markers around the wrapped base64 (section 2 of RFC 7468) |
| `Pem.PemLines` | internal/adapters/http/vault_handler.go:241 | line by line: the two markers, between them the base64 in lines of 64, only the last shorter |
| `Pem.PemRoundTrip` | internal/adapters/http/vault_handler.go:236-242 | reading the text gives the certificate bytes back, whatever they are |
| `Migration.InsertVaults` | cmd/kvemu/migrations/0003_multi_vault.sql:17-29 | INSERT OR IGNORE keeps, of the vaults with one label, one |
| `Migration.VaultsKept` | cmd/kvemu/migrations/0003_multi_vault.sql:17-29 | every old vault is kept if and only if the first labels are pairwise distinct |
| `Migration.LostVault` | cmd/kvemu/migrations/0003_multi_vault.sql:45-50 | rows of a vault that lost its label are left with a vault id that names no vault or another one |
| `Migration.CopyRows` | cmd/kvemu/migrations/0003_multi_vault.sql:45-53 | the copied table has the same rowids and columns, only the vault renamed; it fails exactly when two rows would share vault and name |
| `Migration.CopyContacts` | cmd/kvemu/migrations/0003_multi_vault.sql:110-114 | the same for contacts |
| `Migration.CopyIssuers` | cmd/kvemu/migrations/0003_multi_vault.sql:133-138 | the same for issuers |
| `Migration.MovedTableRefines` | cmd/kvemu/migrations/0003_multi_vault.sql:45-53 | with distinct labels each old lookup (vault id, name) equals the new lookup (vault name, name), versions, deletion state and policy included, and there is no other item |
| `Migration.OldHostResolves` | cmd/kvemu/migrations/0003_multi_vault.sql:19-28 | an old vault whose id is a host under the running base domain is found under its first label, with its old columns, and requests for its old host resolve to it |
| `Migration.DistinctNeverFails` | cmd/kvemu/migrations/0003_multi_vault.sql:17-141 | with distinct labels and no dangling vault id no copy violates uniqueness |
| `Migration.Schema.Migrate` | cmd/kvemu/migrations/0003_multi_vault.sql:17-145 | the whole script on the mutable tables: it fails exactly when a UNIQUE pair would repeat, and then leaves the tables before that statement rebuilt and the others as they were |
| `Migration.MigratedWorldIsValid` | cmd/kvemu/migrations/0003_multi_vault.sql:143-152 | the migrated database satisfies the invariant of the running one: no dangling vault reference |
| `ConnectionPool.AlternatingRunsFinish` | internal/adapters/persistence/sqlite/db.go:24 | requests that never ask for a second connection while holding one: in every interleaving somebody can move, and every run finishes all of them after exactly as many steps as they have |
| `ConnectionPool.HeldForever` | internal/adapters/persistence/sqlite/secret_repo.go:488-507 | a request that waits for a second connection while it holds the only one blocks everybody |
| `ConnectionPool.SafeIffNoneNests` | internal/adapters/persistence/sqlite/db.go:24 | for any mix of matched requests no interleaving gets stuck if and only if none of them nests |
| `ConnectionPool.ActsAlternate` | internal/adapters/persistence/sqlite/secret_repo.go:488-510 | of the repository calls only ListDeleted with a row to show asks while holding |
| `ConnectionPool.SafeIffNoDeletedListing` | internal/adapters/persistence/sqlite/secret_repo.go:482-525 | any number of concurrent requests can always make progress if and only if none lists deleted items that exist |

## Left out

- HTTP routing, JSON shapes, logging, audit, token issuing and validation, TLS: plumbing over libraries.
- RSA, ECDSA, AES, X.509, key generation, thumbprints: foreign primitives, here parameters or symbolic.
- KeyRepo.UpdateAttributes: its UPDATE qualifies the SET columns, which SQLite refuses, so no step patches a key.
- The other methods of KeyService and CertService: the same repository calls as SecretService's on the tables of their kind; the kid field and mergeMaps only dress up answers.
- Vault export and any round trip through it: export asks for the empty version string, which matches no row.
- Secrets.SecretService.ListVersions: creation times that tie have no order, so each page is one of some newest-first order, and two pages need not be of the same; walks are proved for lists by name.
- Secret backup and restore, config, seeding, health check, CA export: easy or unfinished.
- VaultFromPath: one lookup by name.
- Key type, curve, size, operations and tags of a key version: stored and read unchanged with the public JWK, so one text stands for them; thumbprints are left out likewise.
- Contacts and issuers: their contents are one opaque string each; only their vault references are modelled.
- The columns recovery_level and managed: always written with the same constants.
- Rowids of version rows: no statement reads them, so version rows are kept under their unique (parent, version) pair.
- Rowid and listing size overflow: rowids are unbounded numbers; walks assume a listing is no longer than a 64-bit int can count.
- Skip tokens made up by a client: decoding is total, negative offsets included, but walks are proved for issued tokens.
- Crashes: between a migration script and the record that it ran, and inside SQLite.
- Request cancellation and statement errors other than constraint violations: a waiting request waits.
- Text is sequences of characters; Go works on bytes, which differs for hosts, tenants and tokens outside ASCII.
- Secrets.SecretService.Set: its contract is that of an undisturbed call, because the database object is used by one request at a time; SetRequests has the interleavings.
- Secrets.SecretService.Delete: the zone of the server is two parameters, its offsets at the request and at the scheduled date.
- Certificates.CertService.Create: its contract is that of an undisturbed call, like that of Set; CreateRequests has the interleavings.
- Transactions.Upsert: the transaction builds new table values and returns them, so update in place is in Database only, where a commit assigns the field.
- Migration.CopyRows: the tables are values that the script's statements replace; Schema holds them as fields.
