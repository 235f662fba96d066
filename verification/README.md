# A verified model of the document database

The repository stores documents as sequences of immutable versions behind one
connection interface with two back ends: `storeconn`, which splits a document
between a metadata table and a blob store that share no transaction, and
`localfsdb`, which keeps it in a directory tree. This project models both back
ends, the backup and sync code above them, and the multi-document append, and
proves what they keep over all inputs, all failures and all runs.

`dafny verify dfyconfig.toml` checks everything.

## How it is organised

| file | what it holds |
|---|---|
| documents.dfy, ordering.dfy | identifiers, files, file maps, version records; sorting |
| hasheddocument.dfy | the in-memory backup: validation, implied version records, difference and carry-forward |
| s3keys.dfy, s3store.dfy | object keys, and the blob store as a class over a bucket: paginated listing, batched deletes, providers |
| pgstore.dfy, versioninfo.dfy | the metadata table as a class, in normal and in versions-exist mode; equality of version records |
| splitstore.dfy | both stores as one value, the two-sided invariant, and one relation per operation |
| storeconn.dfy | the split-store connection as a class whose methods are proved against those relations |
| storeinvariants.dfy, storeruns.dfy, storehistory.dfy | what every run over the split store keeps |
| providers.dfy | the hash-filtered file listing against the version it is for |
| genesisrace.dfy | any interleaving of any number of concurrent creators |
| localtree.dfy, localconn.dfy, localruns.dfy | the directory back end: tree, connection class, runs |
| backends.dfy | both back ends against one abstract document; the round trip into a directory |
| backups.dfy, syncing.dfy | reading a whole document, restoring it, syncing one or many |
| readback.dfy, strays.dfy, restorable.dfy | which documents can be read whole, which writes keep them so, and which can be restored from what was read |
| multidocument.dfy | the multi-document append over any connection that keeps the contract of single appends |

Every class method that changes a store may fail at every call it makes: blob
puts and deletes after any prefix, metadata calls atomically, callbacks always.
The methods of the split-store connection are proved to realise relations
between the state before and the state after (`CreateStep`, `AddStep`, ...);
the results about runs are lemmas over sequences of such steps, so they hold for
every order of operations and every combination of failures. An outcome records
whether rows or blobs that should have been deleted were left behind, which the
source reports as errors joined to the cause. Each store has a constant `reliable`: where
it holds no call fails on its own, and the same methods are then proved to succeed
exactly when the caller's input and the stored state allow it (`Creatable`,
`Addable`, `RestoreReady`, ...) and to say otherwise which check failed
(`Answers`, `CreateError`, `AddError`, ...). The
directory back end is done in
the same way with its own relations (`LocalTree`); in addition its class carries
a ghost flag `calm` that is re-evaluated after every single file operation and so
says what a reader without a lock can meet between any two of them.

Content hashes are an uninterpreted function. Where bytes and not just hashes
are claimed, `CollisionFree` is a premise.

## What the proofs show about the code

* A write list that names a file twice leaves the first content in the blob
  store although no version refers to it (`StoreRuns.ShadowedWriteIsGarbage`).
  `StoreRuns.AddIsTidyExactly` and `StoreRuns.CreateIsTidyExactly` say exactly
  which write lists do.
* A create whose callback answers with the error for a document that exists
  already, its own or one passed on from another store, deletes its row but spares
  its blobs. Every other error of the callback leaves no garbage
  (`StoreRuns.RefusedCreateIsTidyExactly`). The spared blobs stand in the way of
  every later create and of every restore that would recreate the document
  (`StoreRuns.SparedBlobsBlock`, `StoreRuns.RefusalCanSpareBlobs`).
* A creator that fails for another cause than losing the race deletes the blobs
  of a creator that has committed (`GenesisRace.BrokenCreatorRemovesWinnersBlobs`);
  without such a failure the winner is whole (`GenesisRace.WinnerIsWhole`).
* The provider of a version is filtered by hash alone, so it can list a name that
  the version does not have. `Providers.ListingIsExactIffNoStray` says exactly when,
  and a backup of the document is then refused (`ReadBack.ReadableIffNoStrays`).
  Two ordinary appends do that: a copy or rename of a file
  (`Strays.CopySpoilsReading`) and the removal of one of two files with the same
  content (`Strays.RemovalSpoilsReading`). `Strays.AppendKeepsReadableIff` is the
  condition a caller can check before the append, and `Strays.RestoredIsReadableIff`
  says which backups can be read again once they are restored.
* A delete of a version that stops between the directory and its record leaves an
  orphaned record, and writing that version again shows it to readers without its
  files (`LocalConn.HalfDeletedVersionMisleads`). A successful append or restore
  keeps every listed version matching its record between any two file operations
  if and only if no orphan waits at a place it writes
  (`LocalConn.Conn.AddDocumentVersion`, `LocalConn.Conn.RestoreDocument`).
* A document that was read can still be refused by every restore
  (`Restorable.SnapshotIsRestorableIff`): the split store accepts an append that
  changes nothing (`Restorable.ChangelessAppend`) and a document without a company
  (`Restorable.NilCompanyIsRefused`), and in both back ends deleting the middle one
  of three versions can leave two equal ones side by side
  (`Restorable.DeletedMiddleSpoilsRestore`).
* A failed append of the directory back end removes whatever was left over at the
  place of the new version, and a failed callback moves the document back to the
  company of the latest version record even if another company was set since
  (`LocalRuns.FailedAddIsInvisibleIff`, `LocalRuns.CompanySetByHandIsLost`).
* In the directory back end a delete of a version that cannot list the versions
  left deletes the whole document, which the documentation of
  `DeleteDocumentVersion` does not mention (`LocalRuns.FailedListingDeletesDocument`);
  the other versions stay if and only if they could be listed or the directory could
  not be removed either (`LocalRuns.OtherVersionsStayIff`).
* A restore into a new directory registers its cleanup only after the directory,
  company.id and marker were made, so a failure among these three is not undone. A
  directory left without company.id refuses every restore
  (`LocalRuns.BareDirectoryRefusesRestore`), and one left without its marker takes
  restores but is never listed for its company
  (`LocalRuns.UnmarkedDirectoryStaysUnlisted`).

## Model

| member | source | states |
|---|---|---|
| HashedDocuments.Validate | hasheddocument.go:41-97 | reports exactly the problems the document has, and none if and only if it is well formed: valid ids and times, every hash backed by content, no empty version, no version equal to its predecessor in time order |
| HashedDocuments.VersionInfoAt | hasheddocument.go:277-345 | fails as not found or as inconsistent exactly when the version is absent or refers to missing content; otherwise gives the record of that version, with the greatest earlier time as predecessor and three sorted lists that are exactly the difference |
| HashedDocuments.PredecessorInTimes | hasheddocument.go:262-266 | in the ascending list of version times each entry follows its greatest earlier version |
| HashedDocuments.AcceptedVersionsChange | hasheddocument.go:307-343 | in an accepted document the three lists of every version are disjoint and not all empty, and the first version only adds |
| HashedDocuments.DiffThenCarry | storeconn/conn.go:510-526 | for all file maps, carrying the first forward through its difference to the second gives the second |
| HashedDocuments.CarryThenDiff | storeconn/pgstore/metadatastore.go:70-93 | a delta that carries one map into another and says truly what it adds, modifies and removes is their difference |
| VersionInfos.EqualMeansSameVersion | versioninfo.go:112-151 | Equal accepts two records if and only if they agree in all fields, the three name lists compared as multisets |
| VersionInfos.EqualFilesMeansSameMap | versioninfo.go:84-103 | comparing sizes and one direction decides equality of the file maps |
| S3Keys.KeyIsInjective | storeconn/s3store/documentstore.go:298-332 | for components without a slash two keys are equal only if all components are, and both parsers invert Key |
| S3Keys.SlashInNameCollides | storeconn/s3store/documentstore.go:70-73 | why names with a slash are rejected: two different files would share a key |
| S3Keys.PrefixSelectsDocument | storeconn/s3store/documentstore.go:143-147 | the prefix of a document selects the keys of that document and of no other |
| S3Store.FilterKeysByHash | storeconn/s3store/documentstore.go:307-320 | keeps, in order, exactly the keys whose hash is listed |
| S3Store.DocStore.DeleteObjectKeys | storeconn/s3store/documentstore.go:247-265 | for any number of keys, each is passed to one batch exactly once, no batch exceeds 1000, and success removes exactly these objects |
| S3Store.DocStore.DeleteDocumentHashes | storeconn/s3store/documentstore.go:163-182 | success removes exactly the blobs of the document whose hash is listed; a failure removes some of these and nothing else |
| S3Store.DocStore.DeleteDocument | storeconn/s3store/documentstore.go:143-155 | success removes exactly the blobs of the document; a failure removes some of these and nothing else |
| S3Store.DocStore.CreateDocumentVersion | storeconn/s3store/documentstore.go:65-94 | success stores all files under their hashes; a failure stores a prefix of them |
| S3Store.DocStore.DocumentHashFileProvider | storeconn/s3store/documentstore.go:100-113 | the provider holds exactly the document's keys whose hash is listed |
| S3Store.DocStore.ReadFile | storeconn/s3store/fileprovider.go:64-86 | reads the first key with the file name, and finds it whenever it is a stored blob |
| S3Store.ListFiles | storeconn/s3store/fileprovider.go:52-59 | lists the names of the keys in order, leaving out malformed keys |
| Providers.ProviderHasEveryFile | storeconn/s3store/fileprovider.go:41-48 | without dangling references the provider has every file of its version under its own hash |
| Providers.ListingIsExactIffNoStray | storeconn/conn.go:40-52 | the listing names each file of the version once and nothing else if and only if no stored blob pairs a hash of the version with a name that does not have it there |
| Providers.ProviderReadsTheVersion | storeconn/s3store/fileprovider.go:90-97 | in that case the key found for a name is that of the blob ReadDocumentVersionFile reads |
| PgStore.Resolve | storeconn/pgstore/metadatastore.go:70-93 | the three loops compute the carry-forward of the previous file map |
| PgStore.MetadataStore.CreateDocumentVersion | storeconn/pgstore/metadatastore.go:64-159 | success inserts the one new row that the unique constraints and the check on file names admit; failures change nothing and say which constraint failed; in versions-exist mode nothing is inserted and the call accepts only a row equal up to list order |
| PgStore.MetadataStore.DeleteDocumentVersion | storeconn/pgstore/metadatastore.go:431-533 | removes the one row and reports, once each, the hashes no other version refers to and the versions left; in versions-exist mode it reports the same and removes nothing |
| StoreConn.Conn.CreateDocument | storeconn/conn.go:122-233 | realises CreateStep for every failure; on reliable stores it succeeds if callback and input allow it and otherwise ends with the error of the first check that fails: input, existing blobs, names with a slash, the unique constraints, empty names, the callback; whatever fails, what is stored is old or one of the files; in versions-exist mode it changes no row, succeeds on reliable stores if and only if there are no blobs and the row is stored as asked, and leaves either all blobs or, with cleanup and unless the callback's error spares them, none |
| StoreConn.Conn.AddDocumentVersion | storeconn/conn.go:235-397 | realises AddStep: success adds the row after all others and the blobs; any failure leaves the rows as before, unless its own row could not be deleted again, takes back only hashes that no version refers to, and stores nothing but files of the append; on reliable stores it succeeds if and only if callback, input and stored rows allow it, and otherwise ends with the error of the first check that fails; in versions-exist mode it changes nothing and fails |
| StoreConn.Conn.RollbackNewVersion | storeconn/conn.go:354-377 | whatever prefix of blobs was written, the rollback leaves every blob that a remaining version refers to |
| StoreInvariants.CreateErrorMeans | storeconn/conn.go:138-162 | no check of a create fails if and only if the document is creatable and the callback agrees |
| StoreInvariants.AddErrorMeans | storeconn/conn.go:245-348 | no check of an append fails if and only if the version can be added and the callback agrees; what fails of a planned append is a name or the callback |
| StoreConn.Conn.DeleteDocument | storeconn/conn.go:100-106 | realises DeleteStep: rows first, then blobs; on reliable stores it succeeds if and only if there are both, and is not found otherwise |
| StoreConn.Conn.DeleteDocumentVersion | storeconn/conn.go:108-120 | realises DeleteVersionStep: removes the row and exactly the blobs whose hash only it referred to, and lists the versions left; on reliable stores it succeeds if and only if the version and some blob of the document are stored, and is not found otherwise |
| StoreConn.Conn.SetDocumentCompanyID | storeconn/conn.go:72-74 | realises SetCompanyStep; on reliable stores it succeeds if and only if the document has rows, and is not found otherwise |
| StoreConn.Conn.RestoreDocument | storeconn/conn.go:403-558 | realises RestoreStep: replace or additive merge, all or nothing for the rows unless those written could not be deleted again, and success on reliable stores if and only if the backup fits; a backup that is invalid or of another company is refused with that error and changes nothing; in versions-exist mode it realises CopyStep: no row changes, a document with blobs keeps exactly these, an empty place gets all blobs of the backup or, with cleanup, none, and on reliable stores it succeeds if and only if the backup's versions are stored, and in an empty place stored as the backup describes them up to list order |
| StoreConn.Conn.ReadDocumentVersionFile | storeconn/conn.go:54-66 | reads the blob that the row of the version names; reports a missing version or file only when it is missing, and nothing else on reliable stores |
| StoreRuns.NothingDangles | storeconn/conn.go:100-558 | after every operation of every run, with any store call or callback failing as long as rollbacks can delete their rows and backups are filed under their hashes, each row's files all have a blob whose bytes have the recorded hash |
| StoreRuns.NothingIsGarbage | storeconn/conn.go:164-209 | when cleanups succeed, no write list loses content and no callback of a create answers with the error that spares the blobs, the stored hashes of a document are those of its versions after every operation, and blob-based existence agrees with the rows |
| StoreRuns.AddIsTidyExactly | storeconn/conn.go:289-310 | a successful append keeps the stores free of garbage if and only if every replaced write has the content of a surviving write or of an existing version |
| StoreRuns.CreateIsTidyExactly | storeconn/conn.go:211-232 | the same for a first version |
| StoreRuns.ShadowedWriteIsGarbage | storeconn/s3store/documentstore.go:65-94 | a concrete write list that leaves garbage |
| StoreRuns.RefusedCreateIsTidyExactly | storeconn/conn.go:187-192 | a create that its callback turns down keeps the stores free of garbage if and only if the error is not the one for an existing document |
| StoreRuns.SparedBlobsBlock | storeconn/conn.go:156-162 | after that error no create of the document and no recreating restore can succeed |
| StoreRuns.RefusalCanSpareBlobs | storeconn/conn.go:187-232 | a concrete create from empty stores that ends with garbage although no cleanup failed |
| StoreRuns.DistinctNamesLoseNothing | storeconn/s3store/documentstore.go:65-94 | write lists without repeated names never leave garbage |
| StoreRuns.DeletedCanBeCreated | storeconn/conn.go:156-162 | in a store without garbage, after a version was deleted the document can be created if and only if that was its last version |
| StoreRuns.HistoryIsImmutable | storeconn/conn.go:100-558 | no operation changes the files of a version that it leaves in place, nor the bytes of those files, except a restore that recreates the document |
| StoreRuns.MovedDocumentBelongs | storeconn/pgstore/metadatastore.go:199-223 | moving a document to a company changes the company of all its rows and nothing else of any row, so the document belongs to it, and changes no blob and no other document |
| StoreRuns.AppendedDocumentBelongs | storeconn/conn.go:287-301 | after an append the document belongs to the company the callback asked for, or stays with that of the latest version; no other document changes |
| StoreRuns.AtMostOneFirstVersion | storeconn/pgstore/schema/document_version.sql:35-42 | in every run no document ever has two versions without a predecessor |
| StoreHistory.DeletionOrderIsIrrelevant | storeconn/conn.go:108-120 | deleting any set of versions in any order gives the same rows and blobs, a blob being gone if and only if its hash was referred to and every version that did is deleted |
| StoreHistory.VersionsReplay | storeconn/pgstore/metadatastore.go:70-93 | along runs of create, append, delete and recreating restore, folding the recorded deltas over the predecessor links gives each version's files |
| StoreHistory.AppendedRowCarries | storeconn/conn.go:289-348 | the explicit file set an append stores is the carry-forward of its own recorded delta, whatever label each file got |
| GenesisRace.AtMostOneCommits | storeconn/conn.go:154-232 | in every interleaving of any number of creators at most one of a document ever commits |
| GenesisRace.DeletedByItsInserter | storeconn/conn.go:204-209 | a row that disappears is deleted by the call that inserted it |
| GenesisRace.WinnerIsWhole | storeconn/conn.go:171-192 | a committed creator's row is there, and all its blobs are unless another creator of the document failed for a cause other than losing |
| GenesisRace.BrokenCreatorRemovesWinnersBlobs | storeconn/conn.go:187-192 | a run in which such a failure leaves the committed document without its file |
| Backups.ReadHashedDocument | hasheddocument.go:102-166 | succeeds if and only if listing, sizes, hashes and version records agree in both directions for every version, and then returns all versions with all contents under their own hashes |
| Syncing.MergeExtendsExactly | storeconn/conn.go:429-557 | a successful additive restore adds exactly the absent versions, as the backup describes them, and leaves stored rows untouched |
| Syncing.RepeatedMergeChangesNothing | storeconn/conn.go:483-486 | a successful additive restore can be repeated, and the repetition changes neither rows nor blobs |
| Syncing.FailedRestoreKeepsRows | storeconn/conn.go:462-481 | after a failed restore the rows are those before the call; with recreate they may be those after the up-front delete; where a rollback could not delete rows, these are versions of the backup as it describes them, and all other rows are kept |
| Syncing.CopyKeepsBlobs | storeconn/conn.go:430-477 | a merge in versions-exist mode changes no row and takes no blob away, whatever fails; where the document has blobs it changes nothing at all |
| Syncing.CopyBacksRows | storeconn/conn.go:483-557 | a successful copy into an empty place gives every file of every version of the backup its blob with the backup's content |
| Syncing.RepeatedCopyChangesNothing | storeconn/conn.go:430-477 | a copy asked for again changes nothing, and succeeds on reliable stores if and only if the document belongs to the backup's company |
| Syncing.SnapshotRoundTrip | storeconn/conn.go:403-558 | a snapshot restored with recreate gives exactly the source's company, version times, users, reasons and files |
| Syncing.RoundTripIsByteEqual | storeconn/conn.go:54-66 | and where hashes do not collide every file reads back byte for byte |
| Syncing.SyncDocument | hasheddocument.go:195-203 | an unreadable source is an error and changes nothing; otherwise the call is the restore of a snapshot of the source, and on a reliable destination it succeeds if and only if that snapshot is ready to be restored; a successful recreating sync replicates the source and leaves every other document alone |
| Syncing.SyncAllCompanyDocuments | hasheddocument.go:235-259 | the documents are synced in their order, each from the state the one before left; with continueOnError all of them, otherwise up to the first failure; the ids reported are those whose sync succeeded, and an error is reported if and only if the listing or some sync failed; with recreate, every document reported is the source's at the end, whatever failed in between, even where the restore of another one could not delete its rows again; documents that are not listed are untouched |
| Syncing.SucceededAre | hasheddocument.go:248-257 | a document is reported if and only if one of its syncs succeeded |
| ReadBack.AskAll | hasheddocument.go:119-147 | what a connection over reliable split stores answers about all versions of a document: its records, the listings of its providers, and the blob of the first key for each listed name |
| ReadBack.ConnStoresNames | storeconn/s3store/documentstore.go:70-73 | whatever happened to a connection, no stored file has a name with the key separator, which the next row takes for granted |
| ReadBack.ReadableIffNoStrays | hasheddocument.go:102-166 | after any run, a document passes all checks of the read for every order in which the store lists its objects if and only if no stored file of it pairs a hash of a version with a name that does not have it there |
| ReadBack.ForeignNameIsFatal | hasheddocument.go:128-131 | a stored file with a hash of a version under a name that the version does not have fails the read in every order |
| Strays.AppendKeepsReadableIff | storeconn/conn.go:289-348 | a successful append to a document without strays leaves none if and only if no write and no stored file pairs a hash of the new version, and no write one of a stored version, with a name that does not have it there |
| Strays.FailedAppendKeepsReadable | storeconn/conn.go:354-377 | an append that fails and takes its row back leaves no stray if its writes pair no hash of a stored version with a name that does not have it there |
| Strays.AppendIsRecorded | storeconn/conn.go:289-301 | the row of an append names who asked for it and its predecessor, and takes a written name for a modified one if and only if the previous version has it or a stray lends it to the previous version; all other written names are added ones |
| Strays.CreateIsReadableIff | storeconn/conn.go:164-209 | the same for a first version |
| Strays.StoredFilesAreOfVersions | storeconn/s3store/documentstore.go:100-113 | without garbage and strays the stored files of a document are the files of its versions, so the condition can be checked on version records alone |
| Strays.CopySpoilsReading | hasheddocument.go:128-131 | a concrete document that can be read until its only file is also written under a second name, and never after that |
| Strays.RemovalSpoilsReading | hasheddocument.go:128-131 | a concrete document that can be read until one of two files with the same content is removed |
| Strays.DeletesKeepReadable | storeconn/conn.go:100-120 | no delete and no change of the company makes a document unreadable, wherever it fails |
| Strays.RestoredIsReadableIff | storeconn/conn.go:403-558 | after a successful recreating restore the document can be read back if and only if no two versions of the backup have the same content under different names |
| Restorable.SnapshotIsRestorableIff | hasheddocument.go:41-97 | what was read of a document after any run passes validation if and only if document and company have valid identifiers and no version has the hashes of the one before it |
| Restorable.ChangelessIsRefused | hasheddocument.go:89-95 | what was read of a document with such a version is refused, whichever back end it comes from |
| Restorable.AppendIsChangelessIff | storeconn/conn.go:289-348 | a successful append to the split store makes such a version if and only if it leaves the hashes as they were |
| Restorable.ChangelessAppend | storeconn/conn.go:289-348 | the split store accepts an append that asks for nothing |
| Restorable.SplitDeletionIsChangelessIff | storeconn/conn.go:108-120 | deleting a version makes one if and only if its neighbours have the same hashes |
| Restorable.LocalDeletionIsChangelessIff | localfsdb/conn.go:531-576 | the same in the directory back end |
| Restorable.DeletedMiddleSpoilsRestore | hasheddocument.go:89-95 | the history in which a third version went back to the first and the second is deleted |
| Restorable.NilCompanyIsRefused | storeconn/conn.go:122-162 | the split store accepts the nil company, and what is read of the document is refused |
| LocalConn.Conn.CreateDocument | localfsdb/conn.go:640-732 | realises its step relation, undoing partial work; without file errors it succeeds if and only if callback and input allow it, and otherwise ends with the error of the first check that fails: input, existing document, callback; between any two file operations every listed version has exactly the files of its record; whatever fails, no other document is touched and a half-built one has at most its company and this version |
| LocalConn.Conn.AddDocumentVersion | localfsdb/conn.go:734-880 | realises its step relation; without file errors it succeeds if and only if callback, input and stored version allow it, and otherwise ends with the error of the first check that fails, ErrNoChanges and the refusal of an empty version included; on success every listed version matched its record between any two file operations if and only if no orphaned record waited at the new version's place; whatever fails, no other version and no other document is touched |
| LocalConn.Conn.RestoreDocument | localfsdb/conn.go:967-1120 | realises its step relation for replace and merge, succeeds without file errors if and only if the backup is well formed and fits the company, and changes nothing and says why otherwise; gives back the documents as they were on failure where nothing was left over, and on success kept listed versions matching throughout if and only if it recreated the document or no orphaned record waited at a version of the backup; whatever fails, no other document is touched, and without recreate no listed version is |
| LocalConn.Conn.BeginRestore | localfsdb/conn.go:1034-1045 | makes directory, company.id and marker, and leaves what it made when it fails |
| LocalConn.HalfDeletedVersionMisleads | localfsdb/conn.go:549-557 | a version whose directory alone was deleted leaves an orphan, and making its directory again lists it without its files |
| LocalConn.Conn.DeleteDocumentVersion | localfsdb/conn.go:531-576 | removes directory and record, and the document with its last version; for any combination of failing file operations the tree is that of VersionDeletedUnder, and versions reported as left are there; without file errors it fails only if the version is not found, or if the last one is to go from a document without company.id |
| LocalConn.Conn.KeepOrRemove | localfsdb/conn.go:559-573 | keeps the document if and only if versions left were listed; otherwise removes what of marker and directory it can |
| LocalConn.Conn.DeleteDocument | localfsdb/conn.go:505-529 | removes marker and directory; a failure of the one does not stop the other; without file errors it fails only for a document that is not found or has no company.id |
| LocalConn.Conn.SetDocumentCompanyID | localfsdb/conn.go:284-326 | moves company.id and marker and touches no version; without file errors it fails only for a nil company, a document that is not found, or one without company.id |
| LocalConn.Conn.CompanyDocumentIDs | localfsdb/conn.go:153-184 | the sorted documents marked for the company, each once |
| LocalRuns.QuietRunIsWhole | localfsdb/conn.go:284-1120 | in every run where only validation and callbacks fail, records and directories come in matching pairs and each document has one marker, under the company in its company.id |
| LocalRuns.CompanyIndexAgrees | localfsdb/conn.go:153-197 | so a document is listed for a company if and only if its company.id names it |
| LocalRuns.FailedAddIsInvisibleIff | localfsdb/conn.go:760-879 | an append that fails after its place is known leaves everything as before if and only if nothing was left over there and, where a failed callback moves the company back, company.id agreed with the latest record |
| LocalRuns.FailedAddAfterQuietRun | localfsdb/conn.go:760-879 | in such runs a failed append that moves no company is always invisible |
| LocalRuns.CompanySetByHandIsLost | localfsdb/conn.go:868-877 | the case where it is not: a company set separately is overwritten by the undo |
| LocalRuns.AppendedDocumentBelongs | localfsdb/conn.go:860-866 | after an append the latest record names the company the callback asked for, or that of the record before it; company.id and marker follow if that is another company, and are left alone if not |
| LocalRuns.OnlyTargetsChange | localfsdb/conn.go:284-1120 | along any stretch of any run, with any file operation failing, a document that no operation is for keeps directory and markers |
| LocalRuns.DeletedVersionIsOutOfSight | localfsdb/conn.go:549-557 | whatever fails, a delete of a listed version has changed nothing or the version is no longer listed |
| LocalRuns.OtherVersionsStayIff | localfsdb/conn.go:559-573 | the other versions stay, unchanged, if and only if nothing was deleted, the versions left could be listed, or the directory could not be removed |
| LocalRuns.FailedListingDeletesDocument | localfsdb/conn.go:559-573 | if only that listing fails the whole document is deleted |
| LocalRuns.DeletionOrphansIff | localfsdb/conn.go:549-557 | a delete leaves an orphaned record if and only if it fails on the record and the document stays |
| LocalRuns.BareDirectoryRefusesRestore | localfsdb/conn.go:982-1020 | a directory without company.id refuses every restore, and none changes the tree |
| LocalRuns.BareDirectoryGoesWithDelete | localfsdb/conn.go:505-529 | deleting it reports an error but removes it, after which the restore can succeed |
| LocalRuns.UnmarkedDirectoryStaysUnlisted | localfsdb/conn.go:1013-1045 | a directory with its company but without its marker takes additive restores and stays unlisted for the company |
| LocalRuns.UnfinishedStartBlocks | localfsdb/conn.go:1034-1045 | a restore that fails in its first steps leaves one of these two |
| BackEnds.SplitAddAppends | storeconn/conn.go:289-348 | an append to the split store is the abstract append: previous files less the removed ones, overlaid by the writes, the last write of a name winning, not empty, after every earlier version |
| BackEnds.LocalAddAppends | localfsdb/conn.go:793-861 | so is an append to the directory back end, which moreover changes the file map |
| BackEnds.BackEndsAgree | localfsdb/conn.go:793-861 | from the same history and the same callback result both end with the same history |
| BackEnds.LocalAppendIsRecorded | localfsdb/conn.go:826-840 | the record of an append to the directory back end names who asked for it and its predecessor, and its lists are the exact difference of the two file maps |
| BackEnds.SplitCreateBegins | storeconn/conn.go:211-232 | a create adds one version with the files written, the last write of a name winning; its row has no predecessor, names who asked for it and records every file as added |
| BackEnds.LocalCreateBegins | localfsdb/conn.go:640-732 | the same in the directory back end, where the document has no other version and is marked for its company |
| BackEnds.PlaceErrorMeans | localfsdb/conn.go:798-855 | where the place of the new version is free, the files of the latest version and the request decide: no file left is refused as an empty version, the same files as before end in ErrNoChanges, and with any other files the callback decides |
| BackEnds.PlannedMeans | localfsdb/conn.go:780-796 | an append to a document with versions gets that far if and only if ids and request are valid and its version is after all stored ones |
| BackEnds.RefusedAppendMeans | localfsdb/conn.go:798-879 | an append that was refused after that ended with the error that the history calls for: an empty version, no changes, or the callback |
| BackEnds.LocalSnapshotRoundTrip | localfsdb/conn.go:967-1120 | a snapshot restored with recreate into the directory back end gives exactly the source's company, versions, users, reasons and files |
| BackEnds.LocalRoundTripIsByteEqual | localfsdb/conn.go:473-489 | and where hashes do not collide every file reads back byte for byte |
| MultiDocument.AddMultiDocumentVersionImpl | docdb.go:425-474 | over any connection that keeps the contract, for any list with repeats: the documents are asked in order up to the first failure other than ErrNoChanges; the call is undone if and only if there is one, and then asks once and in order for the delete of every version a callback accepted, even when its append failed after that, and reports whether a delete failed; the rows are as before if every stored one of these could be deleted; otherwise nothing is deleted, success created one version per occurrence not skipped, and at least one; ErrNoChanges means every occurrence was skipped |
| MultiDocument.OneVersionPerOccurrence | docdb.go:451-474 | on success each document has as many more versions as it has occurrences that were not skipped |
| MultiDocument.SplitStoreKeepsAddContract | storeconn/conn.go:235-397 | the split store keeps the append contract whenever a failed append could delete its row again |
| MultiDocument.SplitStoreKeepsDeleteContract | storeconn/conn.go:108-120 | and the delete contract |
| MultiDocument.LocalKeepsAddContract | localfsdb/conn.go:734-880 | the directory back end keeps the append contract where nothing fails but validation and callbacks, with ErrNoChanges in the place of the contract's |
| MultiDocument.LocalKeepsDeleteContract | localfsdb/conn.go:531-576 | and the delete contract |

## Left out

- Postgres and its driver, the S3 client, file systems, UUID directory splitting and JSON encoding: each call is one atomic step on a table, a bucket or a tree, which may fail. A metadata transaction that commits although the call reports an error is not modelled.
- Syncing.SnapshotRoundTrip: assumes a destination in which the document has no dangling references, since a document with rows but no blobs is not deleted by a recreating restore.
- StoreConn.Conn.RestoreDocument: the step relation is proved where rows and blobs of the document agree, and for backups whose contents are filed under their own hashes; validation does not re-hash contents, reading a document does. Under which names a failed additive restore may leave content of stored versions is not stated.
- StoreConn.Conn.AddDocumentVersion: a file is a value, while the source reads every file of an append twice, so content that changes between the two reads is not modelled.
- StoreRuns.NothingDangles: excludes runs in which the row of a failed operation could not be deleted again, as the source then keeps a row without blobs.
- GenesisRace.WinnerIsWhole: only creators race; concurrent appends to one document through the split store are not modelled, because the code has no locking there.
- LocalConn.Conn.AddDocumentVersion: one file operation is one step, so a crash inside a recursive removal or inside the writing of one file is not modelled.
- LocalConn.Conn.RestoreDocument: making a directory that already exists is taken to succeed or fail without touching its files; the file library is not part of this model.
- The check on the length of a stored hash: hashes of backups are taken to be as long as content hashes. Names that are not plain path components are left out of the directory back end.
- ReadBack.ReadableIffNoStrays: the order in which the blob store lists objects is taken to be any, so a stray under a name that its version has for other content counts although a fixed order may never read it.
- Version times are natural numbers with zero as the invalid one; their text format, parsing and the clock are left out.
- Identifier checks are reduced to the nil identifier; nil pointers, nil callbacks and panics count as failures of the call or callback.
- Error values are reduced to their kind; texts, wrapping and the order of joined errors are left out.
- Callbacks do not call back into the connection.
- Names are compared character by character, which is how Go compares bytes for names of one-byte characters.
- Legacy formats: the company in doc.json, the misspelled ModidfiedFiles and records without a company. A missing company.id counts as a failure to read it.
- The mock, error, logging, read-only and router connections, configuration, and the package-level wrappers forward to a connection and would add only easy members.
- SubstituteDeletedDocumentVersion, CopyDocumentFiles and debug printing are small scans and are left out, as are lock.sql, which the code shown does not use, and the diagnosis of path conflicts.
