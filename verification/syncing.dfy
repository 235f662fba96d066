/** What a restore makes of a document, and the round trip from one connection to another. */
module Syncing {
  import opened Documents
  import opened Ordering
  import opened HashedDocuments
  import opened SplitStore
  import opened StoreInvariants
  import opened PgStore
  import opened StoreConn
  import opened Backups

  // ------------------------------------------------------------ additive merge

  /** Success adds exactly the versions that were absent and leaves every stored row as it was. */
  lemma MergeExtendsExactly(s: Stores, s': Stores, doc: HashedDocument)
    requires RestoreStep(s, s', doc, false, Done)
    ensures Versions(s'.rows, doc.id) == Versions(s.rows, doc.id) + doc.versions.Keys
    ensures forall k :: k in s.rows ==> k in s'.rows && s'.rows[k] == s.rows[k]
    ensures forall k :: k in s'.rows && k !in s.rows ==> k.doc == doc.id && k.version in doc.versions && Describes(doc, k.version, s'.rows[k])
    ensures HasBlobs(s.blobs, doc.id) ==> BelongsTo(s.rows, doc.id, doc.companyID)
  {
    hide Versions, BlobsMerged, Fits, Describes, HashedDocument.WellFormed;
    forall v ensures v in Versions(s'.rows, doc.id) <==> v in Versions(s.rows, doc.id) || v in doc.versions {
      InVersions(s.rows, doc.id, v);
      InVersions(s'.rows, doc.id, v);
    }
  }

  /** After a merge the document belongs to the backup's company. */
  lemma MergedBelongs(s: Stores, s': Stores, doc: HashedDocument)
    requires ConsistentAt(s, doc.id) && RestoreStep(s, s', doc, false, Done)
    ensures BelongsTo(s'.rows, doc.id, doc.companyID)
  {
    hide BlobsMerged, IsDiff, HashedDocument.Predecessor, HashedDocument.PreviousHashes, HashedDocument.FilesAt;
    if HasRows(s.rows, doc.id) {
      RowsHaveBlobs(s, doc.id);
    }
    hide ConsistentAt;
    var v :| v in doc.versions;
    assert RowId(doc.id, v) in s'.rows;
    var latest := RowId(doc.id, Latest(s'.rows, doc.id));
    if latest in s.rows {
      assert HasRows(s.rows, doc.id);
      var before := RowId(doc.id, Latest(s.rows, doc.id));
      assert before in s'.rows && latest.version == before.version;
    } else {
      assert Describes(doc, latest.version, s'.rows[latest]);
    }
  }

  /** A merge that succeeded can be repeated, and the repetition changes neither rows nor blobs. */
  lemma RepeatedMergeChangesNothing(s: Stores, s': Stores, doc: HashedDocument)
    requires ConsistentAt(s, doc.id) && RestoreStep(s, s', doc, false, Done)
    ensures RestoreReady(s', doc, false)
    ensures forall s'' :: RestoreStep(s', s'', doc, false, Done) ==> s'' == s'
  {
    MergedBelongs(s, s', doc);
    forall s'' | RestoreStep(s', s'', doc, false, Done) ensures s'' == s' {
      SecondMerge(s, s', s'', doc);
    }
  }

  /** What a merge that succeeded did. */
  lemma MergeEffect(s: Stores, s': Stores, doc: HashedDocument)
    requires RestoreStep(s, s', doc, false, Done)
    ensures doc.WellFormed() && Merged(s.rows, s'.rows, doc, doc.versions.Keys)
    ensures BlobsMerged(s.blobs, s'.blobs, doc, Absent(s.rows, doc.id, doc.versions.Keys))
  {
    hide HashedDocument.WellFormed, Merged, BlobsMerged, Fits, BelongsTo;
  }

  lemma NothingMerges(blobs: Blobs, blobs': Blobs, doc: HashedDocument)
    requires BlobsMerged(blobs, blobs', doc, {})
    ensures blobs' == blobs
  {
    forall k ensures !InBackup(doc, {}, k) {
    }
  }

  lemma SecondMerge(s: Stores, s': Stores, s'': Stores, doc: HashedDocument)
    requires RestoreStep(s, s', doc, false, Done)
    requires RestoreStep(s', s'', doc, false, Done)
    ensures s'' == s'
  {
    MergeEffect(s, s', doc);
    MergeEffect(s', s'', doc);
    hide *;
    SecondMergeOfRows(s.rows, s'.rows, s''.rows, doc);
    NothingMerges(s'.blobs, s''.blobs, doc);
  }

  lemma SecondMergeOfRows(rows: Table, rows': Table, rows'': Table, doc: HashedDocument)
    requires doc.WellFormed() && Merged(rows, rows', doc, doc.versions.Keys) && Merged(rows', rows'', doc, doc.versions.Keys)
    ensures rows'' == rows' && Absent(rows', doc.id, doc.versions.Keys) == {}
  {
    hide HashedDocument.WellFormed, Describes;
    forall v | v in doc.versions ensures RowId(doc.id, v) in rows' {
    }
  }

  /**
   A failed restore leaves the rows as they were, less those of a document that
   it was to recreate, plus those of the backup that could not be deleted again.
   */
  lemma FailedRestoreKeepsRows(s: Stores, s': Stores, doc: HashedDocument, recreate: bool, out: Outcome)
    requires RestoreStep(s, s', doc, recreate, out) && out.Failed?
    ensures !out.metaLeft && !recreate ==> s'.rows == s.rows
    ensures !out.metaLeft && recreate ==> s'.rows == s.rows || s'.rows == RowsWithout(s.rows, doc.id)
    ensures out.metaLeft ==> s' == s || RowsAdded(RestoreBase(s, doc, recreate).rows, s'.rows, doc)
  {
    hide BuiltOn, Describes, RowsDescribed, RowsAdded;
    if out.metaLeft && s' != s {
      var base := RestoreBase(s, doc, recreate);
      var versions :| Stuck(base, s', doc, versions, !out.blobsLeft);
      StuckAddsRows(base, s', doc, versions, !out.blobsLeft);
    }
  }

  /** Every row is kept, and each new one is a version of the backup as the backup describes it. */
  ghost predicate RowsAdded(rows: Table, rows': Table, doc: HashedDocument) {
    && doc.WellFormed()
    && (forall k :: k in rows ==> k in rows' && rows'[k] == rows[k])
    && (forall k :: k in rows' && k !in rows ==> k.doc == doc.id && k.version in doc.versions && Describes(doc, k.version, rows'[k]))
  }

  lemma StuckRow(base: Stores, p: Stores, doc: HashedDocument, versions: set<VersionTime>, clean: bool, k: RowId)
    requires Stuck(base, p, doc, versions, clean) && k in p.rows && k !in base.rows
    ensures doc.WellFormed() && k.doc == doc.id && k.version in doc.versions && doc.Complete(k.version) && Describes(doc, k.version, p.rows[k])
  {
    AllComplete(doc);
    hide HashedDocument.WellFormed, HashedDocument.Complete, Describes, Referenced;
    assert k == RowId(doc.id, k.version) && k.version in versions;
  }

  lemma StuckKeepsRows(base: Stores, p: Stores, doc: HashedDocument, versions: set<VersionTime>, clean: bool)
    requires Stuck(base, p, doc, versions, clean)
    ensures doc.WellFormed() && forall k :: k in base.rows ==> k in p.rows && p.rows[k] == base.rows[k]
  {
    hide HashedDocument.WellFormed, RowsDescribed, Referenced;
  }

  lemma RowsAreAdded(rows: Table, rows': Table, doc: HashedDocument)
    requires doc.WellFormed() && forall k :: k in rows ==> k in rows' && rows'[k] == rows[k]
    requires forall k :: k in rows' && k !in rows ==>
      k.doc == doc.id && k.version in doc.versions && doc.Complete(k.version) && Describes(doc, k.version, rows'[k])
    ensures RowsAdded(rows, rows', doc)
  {
    hide HashedDocument.WellFormed, HashedDocument.Complete, Describes;
  }

  lemma StuckAddsRows(base: Stores, p: Stores, doc: HashedDocument, versions: set<VersionTime>, clean: bool)
    requires Stuck(base, p, doc, versions, clean)
    ensures RowsAdded(base.rows, p.rows, doc)
  {
    hide *;
    StuckKeepsRows(base, p, doc, versions, clean);
    forall k | k in p.rows && k !in base.rows
      ensures k.doc == doc.id && k.version in doc.versions && doc.Complete(k.version) && Describes(doc, k.version, p.rows[k])
    {
      StuckRow(base, p, doc, versions, clean, k);
    }
    RowsAreAdded(base.rows, p.rows, doc);
  }

  // ------------------------------------------------ copying blobs to existing rows

  /** A merge in versions-exist mode takes no blob away, whatever fails, and where there are blobs already it writes none. */
  lemma CopyKeepsBlobs(s: Stores, s': Stores, doc: HashedDocument, out: Outcome)
    requires CopyStep(s, s', doc, false, out)
    ensures s'.rows == s.rows
    ensures forall k :: k in s.blobs ==> k in s'.blobs && s'.blobs[k] == s.blobs[k]
    ensures forall k :: k in s'.blobs && k !in s.blobs ==> k.doc == doc.id
    ensures HasBlobs(s.blobs, doc.id) ==> s' == s
  {
    hide CopyFits, HashedDocument.WellFormed, BelongsTo, VersionFile;
  }

  /** A copy into an empty place gives every version of the backup its files, with the backup's content. */
  lemma CopyBacksRows(s: Stores, s': Stores, doc: HashedDocument, recreate: bool, v: VersionTime)
    requires CopyStep(s, s', doc, recreate, Done) && (recreate || !HasBlobs(s.blobs, doc.id)) && v in doc.versions
    ensures RowId(doc.id, v) in s'.rows && doc.Complete(v) && RowBacked(doc.id, s'.rows[RowId(doc.id, v)], s'.blobs)
    ensures forall n :: n in doc.versions[v].fileHashes ==>
      var k := BlobKey(doc.id, n, doc.versions[v].fileHashes[n]);
      k in s'.blobs && s'.blobs[k] == doc.hashedFiles[k.hash]
  {
    hide HashedDocument.WellFormed, BelongsTo, HashedDocument.Predecessor, HashedDocument.PreviousHashes, IsDiff;
    assert CopyFits(s.rows, doc, v);
    var info := s'.rows[RowId(doc.id, v)];
    forall n | n in doc.versions[v].fileHashes
      ensures var k := BlobKey(doc.id, n, doc.versions[v].fileHashes[n]); k in s'.blobs && s'.blobs[k] == doc.hashedFiles[k.hash]
    {
      var k := BlobKey(doc.id, n, doc.versions[v].fileHashes[n]);
      assert VersionFile(doc, v, k) && InBackup(doc, doc.versions.Keys, k);
    }
  }

  /** A copy asked for again finds the blobs and changes nothing; it succeeds if and only if the document belongs to the backup's company. */
  lemma RepeatedCopyChangesNothing(s: Stores, s': Stores, doc: HashedDocument)
    requires CopyStep(s, s', doc, false, Done)
    ensures CopyReady(s', doc, false) <==> BelongsTo(s.rows, doc.id, doc.companyID)
    ensures forall s'', out :: CopyStep(s', s'', doc, false, out) ==> s'' == s'
  {
    if !HasBlobs(s.blobs, doc.id) {
      var v :| v in doc.versions;
      assert CopyFits(s.rows, doc, v);
      var n :| n in doc.versions[v].fileHashes;
      CopyBacksRows(s, s', doc, false, v);
      assert BlobKey(doc.id, n, doc.versions[v].fileHashes[n]) in s'.blobs;
    }
    hide CopyFits, HashedDocument.WellFormed, BelongsTo, BlobsMerged, CopiedAtMost;
    assert HasBlobs(s'.blobs, doc.id);
    forall s'', out | CopyStep(s', s'', doc, false, out) ensures s'' == s' {
      CopyKeepsBlobs(s', s'', doc, out);
    }
  }

  // --------------------------------------------------------------- round trip

  /** The file reads back from the split store with the content that the source has. */
  ghost predicate FileReplicated(src: Source, s: Stores, d: Id, v: VersionTime, n: Name)
    requires src.info(v).Success? && n in src.info(v).value.files && RowId(d, v) in s.rows
  {
    var info := s.rows[RowId(d, v)];
    && n in info.files
    && info.files[n].name == n
    && info.files[n].hash == src.info(v).value.files[n].hash
    && KeyOf(d, info.files[n]) in s.blobs
    && src.file(v, n).Success?
    && ContentHash(s.blobs[KeyOf(d, info.files[n])]) == ContentHash(src.file(v, n).value)
  }

  ghost predicate VersionReplicated(src: Source, s: Stores, d: Id, v: VersionTime) {
    && src.companyID.Success?
    && src.info(v).Success?
    && RowId(d, v) in s.rows
    && var info, origin := s.rows[RowId(d, v)], src.info(v).value;
       && info.companyID == src.companyID.value
       && info.commitUserID == origin.commitUserID
       && info.commitReason == origin.commitReason
       && info.files.Keys == origin.files.Keys
       && forall n :: n in origin.files ==> FileReplicated(src, s, d, v, n)
  }

  /** The split store has the company, the version times, and each version of the source, and no other version. */
  ghost predicate Replicated(src: Source, s: Stores, d: Id) {
    src.versions.Success? && forall v :: VersionAccounted(src, s, d, v)
  }

  ghost predicate VersionAccounted(src: Source, s: Stores, d: Id, v: VersionTime)
    requires src.versions.Success?
  {
    && (v in Versions(s.rows, d) <==> v in src.versions.value)
    && (v in src.versions.value ==> VersionReplicated(src, s, d, v))
  }

  /** After a delete there are no rows of the document, because versions never come without blobs. */
  lemma RecreateStartsEmpty(s: Stores, doc: HashedDocument)
    requires ConsistentAt(s, doc.id)
    ensures !HasRows(RestoreBase(s, doc, true).rows, doc.id)
  {
    if HasRows(s.rows, doc.id) {
      RowsHaveBlobs(s, doc.id);
    }
  }

  lemma RestoredFileIsReplicated(src: Source, s: Stores, s': Stores, doc: HashedDocument, v: VersionTime, n: Name)
    requires Snapshot(src, doc.id, doc) && ConsistentAt(s, doc.id)
    requires RestoreStep(s, s', doc, true, Done)
    requires v in doc.versions && n in src.info(v).value.files
    requires RowId(doc.id, v) in s'.rows && Describes(doc, v, s'.rows[RowId(doc.id, v)])
    ensures FileReplicated(src, s', doc.id, v, n)
  {
    hide RestoreStep, ConsistentAt, Snapshot, IsDiff, HashedDocument.Predecessor, HashedDocument.PreviousHashes;
    SnapshotVersion(src, doc, v);
    var h := src.info(v).value.files[n].hash;
    SnapshotFile(src, doc, v, n);
    assert doc.versions[v].fileHashes[n] == h && ContentHash(doc.hashedFiles[h]) == h;
    hide HashedDocument.WellHashed, HashesOf;
    var k := BlobKey(doc.id, n, h);
    RecreatedFile(s, s', doc, v, k);
  }

  lemma SnapshotFile(src: Source, doc: HashedDocument, v: VersionTime, n: Name)
    requires Snapshot(src, doc.id, doc) && v in doc.versions && src.info(v).Success? && n in src.info(v).value.files
    ensures src.file(v, n).Success? && ContentHash(src.file(v, n).value) == src.info(v).value.files[n].hash
    ensures doc.Complete(v) && doc.WellHashed() && doc.versions[v].fileHashes == HashesOf(src.info(v).value.files)
    ensures src.info(v).value.files[n].hash in doc.hashedFiles
  {
    hide HashedDocument.WellHashed, Holds;
    assert src.VersionAgrees(v) && src.FileAgrees(v, n);
    assert doc.versions[v].fileHashes[n] in doc.hashedFiles;
  }

  /** A file of the backup is stored with the backup's content. */
  lemma RecreatedFile(s: Stores, s': Stores, doc: HashedDocument, v: VersionTime, k: BlobKey)
    requires RestoreStep(s, s', doc, true, Done) && ConsistentAt(s, doc.id)
    requires k.doc == doc.id && VersionFile(doc, v, k)
    ensures k.hash in doc.hashedFiles && k in s'.blobs && s'.blobs[k] == doc.hashedFiles[k.hash]
  {
    RecreateStartsEmpty(s, doc);
    var base := RestoreBase(s, doc, true);
    hide HashedDocument.WellFormed, Merged, Fits, ConsistentAt, RestoreBase, VersionFile;
    assert v in Absent(base.rows, doc.id, doc.versions.Keys) by { assert v in doc.versions by { VersionFileIsOf(doc, v, k); } }
    assert InBackup(doc, Absent(base.rows, doc.id, doc.versions.Keys), k);
  }

  lemma VersionFileIsOf(doc: HashedDocument, v: VersionTime, k: BlobKey)
    requires VersionFile(doc, v, k)
    ensures v in doc.versions
  {
  }

  /** After a recreating restore the document has exactly the backup's versions, as the backup describes them. */
  lemma RecreatedRows(s: Stores, s': Stores, doc: HashedDocument, v: VersionTime)
    requires ConsistentAt(s, doc.id) && RestoreStep(s, s', doc, true, Done)
    ensures RowId(doc.id, v) in s'.rows <==> v in doc.versions
    ensures v in doc.versions ==> Describes(doc, v, s'.rows[RowId(doc.id, v)])
  {
    RecreateStartsEmpty(s, doc);
    hide ConsistentAt, BlobsMerged, Fits, IsDiff, RestoreBase;
  }

  /** A row that the backup describes has what the source said of the version. */
  lemma DescribedLike(src: Source, doc: HashedDocument, v: VersionTime, info: VersionInfo)
    requires v in doc.versions && doc.Complete(v) && Describes(doc, v, info)
    requires src.info(v).Success? && doc.versions[v] == VersionOf(src.info(v).value)
    ensures info.companyID == doc.companyID
    ensures info.commitUserID == src.info(v).value.commitUserID && info.commitReason == src.info(v).value.commitReason
    ensures info.files.Keys == src.info(v).value.files.Keys
  {
    hide IsDiff, HashedDocument.Predecessor, HashedDocument.PreviousHashes;
    assert info.files.Keys == doc.FilesAt(v).Keys == src.info(v).value.files.Keys;
  }

  lemma RestoredVersionIsReplicated(src: Source, s: Stores, s': Stores, doc: HashedDocument, v: VersionTime)
    requires Snapshot(src, doc.id, doc) && ConsistentAt(s, doc.id) && v in doc.versions
    requires RestoreStep(s, s', doc, true, Done)
    ensures VersionReplicated(src, s', doc.id, v)
  {
    RecreatedRows(s, s', doc, v);
    SnapshotVersion(src, doc, v);
    var info, origin := s'.rows[RowId(doc.id, v)], src.info(v).value;
    DescribedLike(src, doc, v, info);
    hide RestoreStep, ConsistentAt, FileReplicated, Describes, Snapshot, VersionOf, HashedDocument.Complete;
    forall n | n in origin.files ensures FileReplicated(src, s', doc.id, v, n) {
      RestoredFileIsReplicated(src, s, s', doc, v, n);
    }
  }

  lemma SnapshotLists(src: Source, doc: HashedDocument, v: VersionTime)
    requires Snapshot(src, doc.id, doc)
    ensures src.versions.Success? && (v in doc.versions <==> v in src.versions.value)
  {
  }

  lemma SnapshotVersion(src: Source, doc: HashedDocument, v: VersionTime)
    requires Snapshot(src, doc.id, doc) && v in doc.versions
    ensures src.companyID == Success(doc.companyID) && src.info(v).Success?
    ensures doc.Complete(v) && doc.versions[v] == VersionOf(src.info(v).value)
  {
    assert src.VersionAgrees(v);
  }

  /** A snapshot restored over whatever was there is the source again. */
  lemma SnapshotRoundTrip(src: Source, s: Stores, s': Stores, doc: HashedDocument)
    requires Snapshot(src, doc.id, doc) && ConsistentAt(s, doc.id)
    requires RestoreStep(s, s', doc, true, Done)
    ensures Replicated(src, s', doc.id)
  {
    hide RestoreStep, ConsistentAt, Snapshot, VersionAccounted, Describes;
    SnapshotLists(src, doc, 0);
    forall v ensures VersionAccounted(src, s', doc.id, v) {
      VersionIsAccounted(src, s, s', doc, v);
    }
  }

  lemma VersionIsAccounted(src: Source, s: Stores, s': Stores, doc: HashedDocument, v: VersionTime)
    requires Snapshot(src, doc.id, doc) && ConsistentAt(s, doc.id)
    requires RestoreStep(s, s', doc, true, Done)
    ensures src.versions.Success? && VersionAccounted(src, s', doc.id, v)
  {
    SnapshotLists(src, doc, v);
    RecreatedRows(s, s', doc, v);
    InVersions(s'.rows, doc.id, v);
    hide RestoreStep, ConsistentAt, Snapshot, VersionReplicated, Describes, Versions;
    if v in doc.versions {
      RestoredVersionIsReplicated(src, s, s', doc, v);
    }
  }

  /** Where the content hash does not collide, every file reads back byte for byte. */
  lemma RoundTripIsByteEqual(src: Source, s: Stores, d: Id, v: VersionTime, n: Name)
    requires CollisionFree()
    requires Replicated(src, s, d) && v in src.versions.value
    requires src.info(v).Success? && n in src.info(v).value.files
    ensures RowId(d, v) in s.rows && n in s.rows[RowId(d, v)].files && KeyOf(d, s.rows[RowId(d, v)].files[n]) in s.blobs
    ensures Success(s.blobs[KeyOf(d, s.rows[RowId(d, v)].files[n])]) == src.file(v, n)
  {
    assert VersionAccounted(src, s, d, v) && VersionReplicated(src, s, d, v);
    assert FileReplicated(src, s, d, v, n);
  }

  // ------------------------------------------------------------ many documents

  /** Rows and blobs of d are the same. */
  ghost predicate DocKept(s: Stores, s': Stores, d: Id) {
    && (forall k: RowId :: k.doc == d ==> (k in s'.rows <==> k in s.rows) && (k in s.rows ==> s'.rows[k] == s.rows[k]))
    && (forall k: BlobKey :: k.doc == d ==> (k in s'.blobs <==> k in s.blobs) && (k in s.blobs ==> s'.blobs[k] == s.blobs[k]))
  }

  lemma OtherIsKept(s: Stores, s': Stores, d: Id, other: Id)
    requires OthersKept(s, s', d) && other != d
    ensures DocKept(s, s', other)
  {
  }

  lemma ReplicatedStays(src: Source, s: Stores, s': Stores, d: Id, other: Id)
    requires Replicated(src, s, d) && OthersKept(s, s', other) && d != other
    ensures Replicated(src, s', d)
  {
    hide Versions;
    forall v ensures VersionAccounted(src, s', d, v) {
      assert VersionAccounted(src, s, d, v);
      InVersions(s.rows, d, v);
      InVersions(s'.rows, d, v);
      if v in src.versions.value {
        forall n | n in src.info(v).value.files ensures FileReplicated(src, s', d, v, n) {
          assert FileReplicated(src, s, d, v, n);
        }
      }
    }
  }

  /** What one sync does to the destination besides copying its document. */
  ghost predicate KeepsRest(s: Stores, s': Stores, d: Id, out: Outcome) {
    ConsistentAt(s, d) ==> OthersKept(s, s', d) && ((out.Failed? ==> !out.metaLeft) ==> ConsistentAt(s', d))
  }

  lemma RestoreKeepsRest(s: Stores, s': Stores, doc: HashedDocument, recreate: bool, out: Outcome)
    requires doc.WellHashed() && (ConsistentAt(s, doc.id) ==> RestoreStep(s, s', doc, recreate, out))
    ensures KeepsRest(s, s', doc.id, out)
  {
    if ConsistentAt(s, doc.id) {
      RestoreKeepsOthers(s, s', doc, recreate, out);
      if out.Failed? ==> !out.metaLeft {
        RestoreStaysConsistent(s, s', doc, recreate, out);
      }
    }
  }

  /** What a sync of one document does: nothing if the source cannot be read, and otherwise a restore of what was read. */
  ghost predicate SyncStep(src: Source, s: Stores, s': Stores, d: Id, recreate: bool, out: Outcome, reliable: bool) {
    if src.Readable() then
      ConsistentAt(s, d) ==> exists doc :: SnapshotRestored(src, s, s', d, doc, recreate, out, reliable)
    else
      out.Failed? && s' == s
  }

  ghost predicate SnapshotRestored(src: Source, s: Stores, s': Stores, d: Id, doc: HashedDocument, recreate: bool, out: Outcome, reliable: bool) {
    && Snapshot(src, d, doc)
    && RestoreStep(s, s', doc, recreate, out)
    && (reliable ==> (out.Done? <==> RestoreReady(s, doc, recreate)))
  }

  method SyncDocument(src: Source, dest: Conn, docID: Id, recreate: bool) returns (out: Outcome)
    requires dest.Valid()
    modifies dest.documentStore, dest.metadataStore
    ensures dest.Valid()
    ensures SyncStep(src, old(dest.State()), dest.State(), docID, recreate, out, dest.Reliable())
    ensures ConsistentAt(old(dest.State()), docID) && recreate && out.Done? ==> Replicated(src, dest.State(), docID)
    ensures KeepsRest(old(dest.State()), dest.State(), docID, out)
  {
    hide Snapshot, RestoreStep, Replicated, Source.Readable, ConsistentAt, KeepsRest, RestoreReady, Refused;
    var doc := ReadHashedDocument(src, docID);
    if doc.Failure? {
      NothingChangedKeepsRest(dest.State(), docID, Failed(doc.error, false, false));
      return Failed(doc.error, false, false);
    }
    assert doc.value.WellHashed() && doc.value.id == docID by { SnapshotIsWellHashed(src, docID, doc.value); }
    out := dest.RestoreDocument(doc.value, recreate, Normal);
    RestoreKeepsRest(old(dest.State()), dest.State(), doc.value, recreate, out);
    if ConsistentAt(old(dest.State()), docID) {
      assert SnapshotRestored(src, old(dest.State()), dest.State(), docID, doc.value, recreate, out, dest.Reliable());
      if recreate && out.Done? {
        SnapshotRoundTrip(src, old(dest.State()), dest.State(), doc.value);
      }
    }
  }

  lemma SnapshotIsWellHashed(src: Source, docID: Id, doc: HashedDocument)
    requires Snapshot(src, docID, doc)
    ensures doc.WellHashed() && doc.id == docID
  {
  }

  lemma NothingChangedKeepsRest(s: Stores, d: Id, out: Outcome)
    ensures KeepsRest(s, s, d, out)
  {
  }

  /** What holds after some documents were synced: each of them is still the source's. */
  ghost predicate AllReplicated(sources: Id -> Source, s: Stores, synced: seq<Id>) {
    forall d :: d in synced ==> Replicated(sources(d), s, d)
  }

  /** Of the documents done those synced are the source's, those that are not stuck agree, and the others are as they were. */
  ghost predicate Synced(sources: Id -> Source, start: Stores, s: Stores, done: seq<Id>, synced: seq<Id>, stuck: set<Id>) {
    && AllReplicated(sources, s, synced)
    && (forall d :: ConsistentAt(start, d) && d !in stuck ==> ConsistentAt(s, d))
    && (forall d :: d !in done ==> DocKept(start, s, d))
    && (forall d :: d in stuck ==> d in done && d !in synced)
  }

  lemma SyncedNone(sources: Id -> Source, s: Stores)
    ensures Synced(sources, s, s, [], [], {})
  {
  }

  lemma SyncedMore(sources: Id -> Source, start: Stores, s: Stores, s': Stores,
                   done: seq<Id>, synced: seq<Id>, stuck: set<Id>, d: Id, out: Outcome)
    requires Synced(sources, start, s, done, synced, stuck) && KeepsRest(s, s', d, out) && d !in synced && d !in done
    requires ConsistentAt(s, d) && (out.Done? ==> Replicated(sources(d), s', d))
    ensures Synced(sources, start, s', done + [d], if out.Done? then synced + [d] else synced,
                   if out.Failed? && out.metaLeft then stuck + {d} else stuck)
  {
    hide Replicated, ConsistentAt, DocKept;
    forall e | e in synced ensures Replicated(sources(e), s', e) {
      ReplicatedStays(sources(e), s, s', e, d);
    }
    forall e | e != d && ConsistentAt(s, e) ensures ConsistentAt(s', e) {
      OthersStayConsistent(s, s', d, e);
    }
    forall e | e !in done + [d] ensures DocKept(start, s', e) {
      OtherIsKept(s, s', d, e);
      KeptTwice(start, s, s', e);
    }
  }

  lemma KeptTwice(a: Stores, b: Stores, c: Stores, d: Id)
    requires DocKept(a, b, d) && DocKept(b, c, d)
    ensures DocKept(a, c, d)
  {
  }

  lemma KeptStaysConsistent(s: Stores, s': Stores, d: Id)
    requires DocKept(s, s', d) && ConsistentAt(s, d)
    ensures ConsistentAt(s', d)
  {
    forall k | k in s'.rows && k.doc == d ensures RowBacked(d, s'.rows[k], s'.blobs) {
      assert RowBacked(d, s.rows[k], s.blobs);
    }
  }

  /** states are those of the destination before and after each single sync, and outs its outcomes. */
  ghost predicate SyncRun(sources: Id -> Source, ids: seq<Id>, recreate: bool, reliable: bool, states: seq<Stores>, outs: seq<Outcome>) {
    && |states| == |outs| + 1
    && |outs| <= |ids|
    && forall i :: 0 <= i < |outs| ==> SyncStep(sources(ids[i]), states[i], states[i + 1], ids[i], recreate, outs[i], reliable)
  }

  /** The documents whose sync succeeded, in their order. */
  function Succeeded(ids: seq<Id>, outs: seq<Outcome>): seq<Id>
    requires |outs| == |ids|
  {
    if ids == [] then []
    else
      var i := |ids| - 1;
      Succeeded(ids[..i], outs[..i]) + (if outs[i].Done? then [ids[i]] else [])
  }

  lemma {:induction false} SucceededAre(ids: seq<Id>, outs: seq<Outcome>, d: Id)
    requires |outs| == |ids|
    ensures d in Succeeded(ids, outs) <==> exists i :: 0 <= i < |ids| && ids[i] == d && outs[i].Done?
  {
    if ids != [] {
      var i := |ids| - 1;
      SucceededAre(ids[..i], outs[..i], d);
      if j :| 0 <= j < |ids| && ids[j] == d && outs[j].Done? {
        assert j < i ==> ids[..i][j] == d && outs[..i][j].Done?;
      }
      if d in Succeeded(ids[..i], outs[..i]) {
        var j :| 0 <= j < i && ids[..i][j] == d && outs[..i][j].Done?;
        assert ids[j] == d && outs[j].Done?;
      }
    }
  }

  lemma RunsFurther(sources: Id -> Source, ids: seq<Id>, recreate: bool, reliable: bool, states: seq<Stores>, outs: seq<Outcome>, s': Stores, out: Outcome)
    requires SyncRun(sources, ids, recreate, reliable, states, outs) && |outs| < |ids|
    requires SyncStep(sources(ids[|outs|]), states[|outs|], s', ids[|outs|], recreate, out, reliable)
    ensures SyncRun(sources, ids, recreate, reliable, states + [s'], outs + [out])
    ensures Succeeded(ids[..|outs| + 1], outs + [out]) == Succeeded(ids[..|outs|], outs) + (if out.Done? then [ids[|outs|]] else [])
  {
    hide SyncStep;
    var i := |outs|;
    assert ids[..i + 1][..i] == ids[..i] && (outs + [out])[..i] == outs;
  }

  /**
   Syncs one document after another. Those reported as synced are the source's
   in the end, whatever failed before or after them; the stuck documents are
   those whose restore could not take its rows back.
   */
  method SyncAllCompanyDocuments(sources: Id -> Source, docIDs: Result<seq<Id>, Error>, dest: Conn, recreate: bool, continueOnError: bool)
    returns (synced: seq<Id>, failed: bool, ghost stuck: set<Id>, ghost states: seq<Stores>, ghost outs: seq<Outcome>)
    requires dest.Valid()
    modifies dest.documentStore, dest.metadataStore
    ensures dest.Valid()
    ensures docIDs.Failure? ==> failed && synced == [] && dest.State() == old(dest.State())
    ensures docIDs.Success? ==>
      && SyncRun(sources, docIDs.value, recreate, dest.Reliable(), states, outs)
      && states[0] == old(dest.State()) && states[|outs|] == dest.State()
      && synced == Succeeded(docIDs.value[..|outs|], outs)
      && (failed <==> exists i :: 0 <= i < |outs| && outs[i].Failed?)
    ensures docIDs.Success? && (continueOnError || !failed) ==> |outs| == |docIDs.value|
    ensures docIDs.Success? && !continueOnError ==> forall i :: 0 <= i < |outs| - 1 ==> outs[i].Done?
    ensures docIDs.Success? && !failed ==> synced == docIDs.value
    ensures docIDs.Success? ==> forall d :: d in synced ==> d in docIDs.value
    ensures docIDs.Success? && !continueOnError ==> synced <= docIDs.value
    ensures docIDs.Success? && NoDuplicates(docIDs.value) && recreate && Agreed(old(dest.State()), docIDs.value) ==>
      Synced(sources, old(dest.State()), dest.State(), docIDs.value, synced, stuck)
  {
    hide ConsistentAt, Replicated, KeepsRest, AllReplicated, Source.Readable, DocKept, Synced, SyncStep, SyncRun, Succeeded;
    synced, failed, stuck, states, outs := [], false, {}, [dest.State()], [];
    if docIDs.Failure? {
      return [], true, {}, states, [];
    }
    var ids := docIDs.value;
    ghost var s := dest.State();
    ghost var watched := NoDuplicates(ids) && recreate && Agreed(s, ids);
    SyncedNone(sources, s);
    RunBegins(sources, ids, recreate, dest.Reliable(), s);
    assert ids[..0] == [];
    var i := 0;
    while i < |ids|
      invariant 0 <= i <= |ids| && dest.Valid()
      invariant |outs| == i && |states| == i + 1 && states[0] == s && states[i] == dest.State()
      invariant SyncRun(sources, ids, recreate, dest.Reliable(), states, outs)
      invariant synced == Succeeded(ids[..i], outs)
      invariant failed <==> exists j :: 0 <= j < i && outs[j].Failed?
      invariant !failed ==> synced == ids[..i]
      invariant failed ==> continueOnError
      invariant forall d :: d in synced ==> exists j :: 0 <= j < i && ids[j] == d
      invariant watched ==> Synced(sources, s, dest.State(), ids[..i], synced, stuck)
    {
      ghost var before := dest.State();
      assert watched ==> ids[i] !in synced && ids[i] !in ids[..i];
      if watched {
        NotDoneIsKept(sources, s, before, ids[..i], synced, stuck, ids[i]);
      }
      var out := SyncDocument(sources(ids[i]), dest, ids[i], recreate);
      if watched {
        SyncedMore(sources, s, before, dest.State(), ids[..i], synced, stuck, ids[i], out);
      }
      assert ids[..i + 1] == ids[..i] + [ids[i]];
      RunsFurther(sources, ids, recreate, dest.Reliable(), states, outs, dest.State(), out);
      ghost var earlier := outs;
      outs, states := outs + [out], states + [dest.State()];
      assert forall j :: 0 <= j < i ==> outs[j] == earlier[j];
      if out.Failed? {
        stuck := if out.metaLeft then stuck + {ids[i]} else stuck;
        failed := true;
        assert outs[i].Failed?;
        if !continueOnError {
          if watched {
            SyncedEarly(sources, s, dest.State(), ids, i + 1, synced, stuck);
          }
          return;
        }
      } else {
        synced := synced + [ids[i]];
      }
      i := i + 1;
    }
    assert ids[..|ids|] == ids;
  }

  lemma RunBegins(sources: Id -> Source, ids: seq<Id>, recreate: bool, reliable: bool, s: Stores)
    ensures SyncRun(sources, ids, recreate, reliable, [s], [])
    ensures Succeeded([], []) == []
  {
  }

  ghost predicate Agreed(s: Stores, docIDs: seq<Id>) {
    forall d :: d in docIDs ==> ConsistentAt(s, d)
  }

  lemma NotDoneIsKept(sources: Id -> Source, start: Stores, s: Stores, done: seq<Id>, synced: seq<Id>, stuck: set<Id>, d: Id)
    requires Synced(sources, start, s, done, synced, stuck) && d !in done && ConsistentAt(start, d)
    ensures ConsistentAt(s, d)
  {
    KeptStaysConsistent(start, s, d);
  }

  lemma SyncedEarly(sources: Id -> Source, start: Stores, s: Stores, docIDs: seq<Id>, i: nat, synced: seq<Id>, stuck: set<Id>)
    requires i <= |docIDs| && Synced(sources, start, s, docIDs[..i], synced, stuck)
    ensures Synced(sources, start, s, docIDs, synced, stuck)
  {
    hide AllReplicated, ConsistentAt, DocKept;
  }
}
