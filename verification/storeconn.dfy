/** A connection over a document store and a metadata store that share no transaction. */
module StoreConn {
  import opened Documents
  import opened Ordering
  import opened HashedDocuments
  import opened SplitStore
  import opened StoreInvariants
  import opened VersionInfos
  import opened PgStore
  import opened S3Store

  // ------------------------------------------------------------- labelled writes

  lemma {:induction false} OverlayCommutes(m: FileMap, info: FileInfo, infos: seq<FileInfo>)
    requires info.name !in NamesOf(infos)
    ensures Overlay(m[info.name := info], infos) == Overlay(m, infos)[info.name := info]
  {
    if infos != [] {
      var n := |infos| - 1;
      assert NamesOf(infos)[n] == infos[n].name;
      assert NamesOf(infos[..n]) == NamesOf(infos)[..n];
      OverlayCommutes(m, info, infos[..n]);
    }
  }

  /** Writing the unlisted files first and the listed ones after them changes nothing. */
  lemma {:induction false} LabellingKeepsOverlay(m: FileMap, blobs: Blobs, d: Id, prev: VersionInfo, infos: seq<FileInfo>)
    ensures Overlay(Overlay(m, Labelled(blobs, d, prev, infos, false)), Labelled(blobs, d, prev, infos, true)) == Overlay(m, infos)
  {
    if infos != [] {
      var i := |infos| - 1;
      var last, head := infos[i], infos[..i];
      var unlisted, listed := Labelled(blobs, d, prev, head, false), Labelled(blobs, d, prev, head, true);
      LabellingKeepsOverlay(m, blobs, d, prev, head);
      if ProviderHas(blobs, d, prev, last.name) {
        assert (listed + [last])[..|listed|] == listed;
        assert unlisted + [] == unlisted;
      } else {
        LabelledNames(blobs, d, prev, head, true, last.name);
        assert (unlisted + [last])[..|unlisted|] == unlisted;
        assert listed + [] == listed;
        OverlayCommutes(Overlay(m, unlisted), last, listed);
      }
    }
  }

  // ------------------------------------------------------------ taking writes back

  lemma NothingLeftIsUndone(base: Stores, p: Stores, d: Id, clean: bool)
    requires BuiltOn(base, p, d, {}, clean)
    ensures Undone(base, p, d, clean)
  {
    assert p.rows == base.rows;
  }

  lemma ReferenceSurvives(rows: Table, d: Id, v: VersionTime, h: Hash)
    requires RowId(d, v) in rows && Referenced(rows, d, h) && h !in SoleHashes(rows, d, v)
    ensures Referenced(rows - {RowId(d, v)}, d, h)
  {
    var k :| k in rows && k.doc == d && RowHas(rows[k], h);
    if k == RowId(d, v) {
      var n :| n in rows[k].files && rows[k].files[n].hash == h;
    } else {
      assert k in rows - {RowId(d, v)};
    }
  }

  /** Rows and blobs after the delete of a version, whether or not its blobs could be deleted. */
  lemma DeletionEffect(p: Stores, p': Stores, d: Id, v: VersionTime, out: Outcome)
    requires DeleteVersionStep(p, p', d, v, out) && (out.Failed? ==> !out.metaLeft)
    ensures RowId(d, v) in p.rows && p'.rows == p.rows - {RowId(d, v)}
    ensures forall b :: b in p'.blobs ==> b in p.blobs && p'.blobs[b] == p.blobs[b]
    ensures forall b :: b in p.blobs && !(b.doc == d && b.hash in SoleHashes(p.rows, d, v)) ==> b in p'.blobs
    ensures (out.Failed? ==> !out.blobsLeft) ==> forall b :: b in p'.blobs && b.doc == d ==> b.hash !in SoleHashes(p.rows, d, v)
  {
    hide SoleHashes;
  }

  /** No blob that base refers to goes with a new version. */
  lemma BaseBlobStays(base: Stores, p: Stores, p': Stores, d: Id, versions: set<VersionTime>, v: VersionTime, clean: bool, b: BlobKey)
    requires BuiltOn(base, p, d, versions, clean) && v in versions && RowId(d, v) in p.rows && p'.rows == p.rows - {RowId(d, v)}
    requires forall b :: b in p.blobs && !(b.doc == d && b.hash in SoleHashes(p.rows, d, v)) ==> b in p'.blobs
    requires b in base.blobs && (b.doc != d || Referenced(base.rows, d, b.hash))
    ensures b in p'.blobs
  {
    if b.doc == d {
      MoreRowsReferMore(base.rows, p'.rows, d, b.hash);
      assert b.hash !in SoleHashes(p.rows, d, v);
    }
  }

  /** Deleting one of the new versions leaves the stores built on base. */
  lemma DeletionKeepsBuiltOn(base: Stores, p: Stores, p': Stores, d: Id, versions: set<VersionTime>, v: VersionTime, clean: bool, out: Outcome)
    requires BuiltOn(base, p, d, versions, clean) && v in versions
    requires DeleteVersionStep(p, p', d, v, out)
    requires out.Failed? ==> !out.metaLeft
    ensures BuiltOn(base, p', d, versions - {v}, clean && (out.Failed? ==> !out.blobsLeft))
  {
    DeletionEffect(p, p', d, v, out);
    hide DeleteVersionStep, SoleHashes, Referenced;
    forall b | b in base.blobs && (b.doc != d || Referenced(base.rows, d, b.hash)) ensures b in p'.blobs {
      BaseBlobStays(base, p, p', d, versions, v, clean, b);
    }
    if clean && (out.Failed? ==> !out.blobsLeft) {
      forall b | b in p'.blobs && b !in base.blobs ensures Referenced(p'.rows, d, b.hash) {
        assert b.doc == d;
        ReferenceSurvives(p.rows, d, v, b.hash);
      }
    }
  }

  /** Writing blobs of a version whose row is in place. */
  lemma PutKeepsBuiltOn(base: Stores, p: Stores, d: Id, versions: set<VersionTime>, v: VersionTime, files: seq<File>, clean: bool)
    requires BuiltOn(base, p, d, versions, clean) && v in versions
    requires clean ==> forall f :: f in files ==> Referenced(p.rows, d, ContentHash(f.data))
    ensures BuiltOn(base, p.(blobs := PutAll(p.blobs, d, files)), d, versions, clean)
  {
    PutAllGrows(p.blobs, d, files);
    forall k | clean && k in PutAll(p.blobs, d, files) && k !in base.blobs ensures Referenced(p.rows, d, k.hash) {
      PutAllAt(p.blobs, d, files, k);
    }
  }

  lemma InsertKeepsBuiltOn(base: Stores, p: Stores, d: Id, versions: set<VersionTime>, v: VersionTime, info: VersionInfo, clean: bool)
    requires BuiltOn(base, p, d, versions, clean) && RowId(d, v) !in p.rows
    ensures BuiltOn(base, p.(rows := p.rows[RowId(d, v) := info]), d, versions + {v}, clean)
  {
    var p' := p.(rows := p.rows[RowId(d, v) := info]);
    hide Referenced;
    forall k | clean && k in p'.blobs && k !in base.blobs ensures Referenced(p'.rows, d, k.hash) {
      MoreRowsReferMore(p.rows, p'.rows, d, k.hash);
    }
  }

  /** Every hash written for an append is one its row refers to, if nothing is lost. */
  lemma WritesAreReferenced(rows: Table, d: Id, v: VersionTime, prev: FileMap, files: seq<File>)
    requires RowId(d, v) in rows && rows[RowId(d, v)].files == Overlay(prev, InfosOf(files))
    requires NothingLost(rows - {RowId(d, v)}, d, files)
    ensures forall f :: f in files ==> Referenced(rows, d, ContentHash(f.data))
  {
    forall f | f in files ensures Referenced(rows, d, ContentHash(f.data)) {
      if Referenced(rows - {RowId(d, v)}, d, ContentHash(f.data)) {
        MoreRowsReferMore(rows - {RowId(d, v)}, rows, d, ContentHash(f.data));
      } else {
        var i: nat :| i < |files| && Survives(files, i) && ContentHash(files[i].data) == ContentHash(f.data);
        SurvivorIsFinal(prev, files, i);
        assert RowHas(rows[RowId(d, v)], ContentHash(f.data));
      }
    }
  }

  // ------------------------------------------------------------------- backups

  /** The files are files of version v of the backup, each name once. */
  ghost predicate FilesOfVersion(doc: HashedDocument, v: VersionTime, files: seq<File>)
    requires v in doc.versions && doc.Complete(v)
  {
    && DistinctNames(files)
    && forall f :: f in files ==> f.name in doc.versions[v].fileHashes && f.data == doc.hashedFiles[doc.versions[v].fileHashes[f.name]]
  }

  ghost predicate AllFilesOfVersion(doc: HashedDocument, v: VersionTime, files: seq<File>)
    requires v in doc.versions && doc.Complete(v)
  {
    && FilesOfVersion(doc, v, files)
    && forall n :: n in doc.versions[v].fileHashes ==> File(n, doc.hashedFiles[doc.versions[v].fileHashes[n]]) in files
  }

  lemma PrefixOfVersion(doc: HashedDocument, v: VersionTime, files: seq<File>, n: nat)
    requires v in doc.versions && doc.Complete(v) && AllFilesOfVersion(doc, v, files) && n <= |files|
    ensures FilesOfVersion(doc, v, files[..n])
  {
  }

  /** The names of the files of a version, and of their list. */
  lemma NamesInList(doc: HashedDocument, v: VersionTime, files: seq<File>)
    requires v in doc.versions && doc.Complete(v) && AllFilesOfVersion(doc, v, files)
    ensures AllSlashFree(files) <==> forall n :: n in doc.versions[v].fileHashes ==> SlashFree(n)
    ensures (forall f :: f in files ==> StorableName(f.name)) <==> forall n :: n in doc.versions[v].fileHashes ==> StorableName(n)
  {
    var hashes := doc.versions[v].fileHashes;
    forall n | n in hashes ensures exists f :: f in files && f.name == n {
      assert File(n, doc.hashedFiles[hashes[n]]) in files;
    }
  }

  /** The files of a version of the backup, in no particular order. */
  method HashedVersionFiles(doc: HashedDocument, v: VersionTime) returns (files: seq<File>)
    requires v in doc.versions && doc.Complete(v)
    ensures AllFilesOfVersion(doc, v, files)
  {
    var hashes := doc.versions[v].fileHashes;
    files := [];
    var left := hashes.Keys;
    while left != {}
      invariant left <= hashes.Keys
      invariant FilesOfVersion(doc, v, files)
      invariant forall f :: f in files ==> f.name !in left
      invariant forall n :: n in hashes && n !in left ==> File(n, doc.hashedFiles[hashes[n]]) in files
    {
      var filename :| filename in left;
      files := files + [File(filename, doc.hashedFiles[hashes[filename]])];
      left := left - {filename};
    }
  }

  lemma BackupFileKey(doc: HashedDocument, v: VersionTime, f: File)
    requires doc.WellHashed() && v in doc.versions && doc.Complete(v)
    requires f.name in doc.versions[v].fileHashes && f.data == doc.hashedFiles[doc.versions[v].fileHashes[f.name]]
    ensures VersionFile(doc, v, KeyOf(doc.id, InfoOf(f)))
    ensures f.data == doc.hashedFiles[ContentHash(f.data)]
  {
  }

  /** Writing the files of one more version. */
  lemma PutMergesVersion(base: Blobs, blobs: Blobs, doc: HashedDocument, versions: set<VersionTime>, v: VersionTime, files: seq<File>)
    requires doc.WellHashed() && v in doc.versions && doc.Complete(v) && AllFilesOfVersion(doc, v, files)
    requires BlobsMerged(base, blobs, doc, versions)
    ensures BlobsMerged(base, PutAll(blobs, doc.id, files), doc, versions + {v})
  {
    var blobs' := PutAll(blobs, doc.id, files);
    var hashes := doc.versions[v].fileHashes;
    forall k
      ensures InBackup(doc, versions + {v}, k) <==> InBackup(doc, versions, k) || (k.doc == doc.id && VersionFile(doc, v, k))
      ensures k.doc == doc.id && VersionFile(doc, v, k) <==> exists f :: f in files && k == KeyOf(doc.id, InfoOf(f))
      ensures k in blobs' <==> k in base || InBackup(doc, versions + {v}, k)
      ensures InBackup(doc, versions + {v}, k) ==> k.hash in doc.hashedFiles && k in blobs' && blobs'[k] == doc.hashedFiles[k.hash]
      ensures k in base && !InBackup(doc, versions + {v}, k) ==> blobs'[k] == base[k]
    {
      PutAllAt(blobs, doc.id, files, k);
      if k.doc == doc.id && VersionFile(doc, v, k) {
        var f := File(k.name, doc.hashedFiles[hashes[k.name]]);
        assert f in files;
        assert k == KeyOf(doc.id, InfoOf(f));
      }
      forall f | f in files && k == KeyOf(doc.id, InfoOf(f)) ensures VersionFile(doc, v, k) && f.data == doc.hashedFiles[k.hash] {
        BackupFileKey(doc, v, f);
      }
      if InBackup(doc, versions, k) {
        var w :| w in versions && VersionFile(doc, w, k);
        assert w in versions + {v};
      }
      if k.doc == doc.id && VersionFile(doc, v, k) {
        assert v in versions + {v};
      }
    }
  }

  lemma BackupFileOverlaid(doc: HashedDocument, v: VersionTime, files: seq<File>, n: Name)
    requires doc.WellHashed() && v in doc.versions && doc.Complete(v) && AllFilesOfVersion(doc, v, files)
    ensures n in NamesOf(InfosOf(files)) <==> n in doc.versions[v].fileHashes
    ensures n in Overlay(map[], InfosOf(files)) <==> n in doc.versions[v].fileHashes
    ensures n in doc.versions[v].fileHashes ==> Overlay(map[], InfosOf(files))[n] == doc.FilesAt(v)[n]
  {
    var hashes := doc.versions[v].fileHashes;
    var infos := InfosOf(files);
    OverlayKeys(map[], infos, n);
    if n in hashes {
      var f := File(n, doc.hashedFiles[hashes[n]]);
      var i :| 0 <= i < |files| && files[i] == f;
      assert NamesOf(infos)[i] == n;
      assert Survives(files, i);
      SurvivorIsFinal(map[], files, i);
    }
    if n in NamesOf(infos) {
      var i :| 0 <= i < |infos| && NamesOf(infos)[i] == n;
      assert files[i] in files;
    }
  }

  lemma GenesisFiles(doc: HashedDocument, v: VersionTime, files: seq<File>)
    requires doc.WellHashed() && v in doc.versions && doc.Complete(v) && AllFilesOfVersion(doc, v, files)
    ensures Overlay(map[], InfosOf(files)) == doc.FilesAt(v)
    ensures forall n :: n in NamesOf(InfosOf(files)) <==> n in doc.versions[v].fileHashes
  {
    hide AllFilesOfVersion, HashedDocument.WellHashed, Overlay;
    var infos := InfosOf(files);
    forall n
      ensures n in NamesOf(infos) <==> n in doc.versions[v].fileHashes
      ensures n in Overlay(map[], infos) <==> n in doc.FilesAt(v)
      ensures n in doc.FilesAt(v) ==> Overlay(map[], infos)[n] == doc.FilesAt(v)[n]
    {
      BackupFileOverlaid(doc, v, files, n);
    }
  }

  /** The genesis row of the first version of a backup is what the backup says. */
  lemma GenesisDescribes(doc: HashedDocument, v: VersionTime, files: seq<File>)
    requires doc.WellHashed() && v in doc.versions && doc.Complete(v) && AllFilesOfVersion(doc, v, files)
    requires doc.Predecessor(v).None?
    ensures Describes(doc, v, GenesisRow(doc.companyID, doc.id, doc.versions[v].commitUserID, doc.versions[v].commitReason, v, files))
  {
    hide AllFilesOfVersion, HashedDocument.FilesAt, HashedDocument.WellHashed, Overlay, HashedDocument.Predecessor;
    GenesisFiles(doc, v, files);
    DistinctNameList(doc, v, files);
    assert doc.PreviousHashes(v) == map[];
  }

  lemma DistinctNameList(doc: HashedDocument, v: VersionTime, files: seq<File>)
    requires v in doc.versions && doc.Complete(v) && AllFilesOfVersion(doc, v, files)
    ensures NoDuplicates(NamesOf(InfosOf(files)))
  {
  }

  lemma ListedFilesExist(doc: HashedDocument, v: VersionTime, added: seq<Name>, modified: seq<Name>, removed: seq<Name>)
    requires v in doc.versions && doc.Complete(v)
    requires IsDiff(doc.PreviousHashes(v), doc.versions[v].fileHashes, added, modified, removed)
    ensures NamedMap(doc.FilesAt(v))
    ensures forall n :: n in added || n in modified ==> n in doc.FilesAt(v)
  {
  }

  /** The row of a version after the first written one is what the backup says. */
  lemma InputDescribes(rows: Table, doc: HashedDocument, v: VersionTime, input: CreateDocumentVersionInput,
                       added: seq<Name>, modified: seq<Name>, removed: seq<Name>)
    requires v in doc.versions && doc.Complete(v)
    requires IsDiff(doc.PreviousHashes(v), doc.versions[v].fileHashes, added, modified, removed)
    requires NamesOf(input.addedFiles) == added && NamesOf(input.modifiedFiles) == modified && input.removedFiles == removed
    requires input.docID == doc.id && input.companyID == doc.companyID && input.newVersion == v
    requires input.userID == doc.versions[v].commitUserID && input.reason == doc.versions[v].commitReason
    requires input.previousVersion == doc.Predecessor(v) && input.files == Some(doc.FilesAt(v))
    ensures Describes(doc, v, NewInfo(rows, input))
  {
  }

  /** The row of version v can be inserted. */
  ghost predicate RowFits(rows: Table, doc: HashedDocument, v: VersionTime)
    requires v in doc.versions
  {
    && (forall n :: n in doc.versions[v].fileHashes ==> n != "")
    && RowId(doc.id, v) !in rows
    && (doc.Predecessor(v).None? ==> GenesisFree(rows, doc.id, v))
  }

  lemma InputFits(rows: Table, doc: HashedDocument, v: VersionTime, input: CreateDocumentVersionInput)
    requires v in doc.versions && doc.Complete(v)
    requires input.docID == doc.id && input.newVersion == v && input.previousVersion == doc.Predecessor(v)
    requires input.files == Some(doc.FilesAt(v))
    ensures RowFits(rows, doc, v) <==> Insertable(rows, input) && NamesAllowed(NewInfo(rows, input).files)
    ensures Insertable(rows, input) ==> RowId(doc.id, v) !in rows
  {
    hide HashedDocument.Predecessor;
    var files := doc.FilesAt(v);
    assert forall n :: n in doc.versions[v].fileHashes ==> n in files && files[n].name == n;
  }

  /** What a merge has written so far can be taken back. */
  lemma MergedIsBuiltOn(base: Stores, p: Stores, doc: HashedDocument, versions: set<VersionTime>)
    requires doc.WellFormed() && doc.WellHashed() && versions <= doc.versions.Keys
    requires Merged(base.rows, p.rows, doc, versions)
    requires BlobsMerged(base.blobs, p.blobs, doc, Absent(base.rows, doc.id, versions))
    ensures BuiltOn(base, p, doc.id, Absent(base.rows, doc.id, versions), true)
  {
    forall k | k in p.blobs && k !in base.blobs ensures Referenced(p.rows, doc.id, k.hash) {
      var v :| v in Absent(base.rows, doc.id, versions) && VersionFile(doc, v, k);
      DescribedVersionHas(doc, v, p.rows[RowId(doc.id, v)], k);
    }
  }

  lemma DescribedVersionHas(doc: HashedDocument, v: VersionTime, info: VersionInfo, k: BlobKey)
    requires doc.WellFormed() && v in doc.versions && Describes(doc, v, info) && VersionFile(doc, v, k)
    ensures RowHas(info, k.hash)
  {
    assert info.files[k.name].hash == k.hash;
  }

  class Conn {
    const documentStore: DocStore
    const metadataStore: MetadataStore

    ghost predicate Valid()
      reads documentStore, metadataStore
    {
      documentStore.Valid() && metadataStore.Valid()
    }

    ghost function State(): Stores
      requires Valid()
      reads documentStore, metadataStore
    {
      Stores(metadataStore.rows, documentStore.Blobs())
    }

    /** No call to either store fails but for what it is asked to do. */
    predicate Reliable() {
      documentStore.reliable && metadataStore.reliable
    }

    constructor (documentStore: DocStore, metadataStore: MetadataStore)
      requires documentStore.Valid() && metadataStore.Valid()
      ensures Valid() && this.documentStore == documentStore && this.metadataStore == metadataStore
    {
      this.documentStore := documentStore;
      this.metadataStore := metadataStore;
    }

    method DocumentExists(d: Id) returns (r: Result<bool, Error>)
      requires Valid()
      ensures r.Success? ==> (r.value <==> HasBlobs(State().blobs, d))
      ensures r.Failure? ==> r.error == Unavailable && !documentStore.reliable
    {
      r := documentStore.DocumentExists(d);
    }

    method SetDocumentCompanyID(d: Id, companyID: Id) returns (out: Outcome)
      requires Valid()
      modifies metadataStore
      ensures Valid()
      ensures SetCompanyStep(old(State()), State(), d, companyID, out)
      ensures Answers(out, if HasRows(old(State().rows), d) then None else Some(NotFound), Reliable())
    {
      var r := metadataStore.SetDocumentCompanyID(d, companyID);
      out := if r.Success? then Done else Failed(r.error, false, false);
    }

    /** Rows first, then blobs. */
    method DeleteDocument(d: Id, mode: Mode) returns (out: Outcome)
      requires Valid()
      modifies documentStore, metadataStore
      ensures Valid()
      ensures mode.Normal? ==> DeleteStep(old(State()), State(), d, out)
      ensures Answers(out, if HasRows(old(State().rows), d) && HasBlobs(old(State().blobs), d) then None else Some(NotFound), Reliable())
      ensures mode.VersionsExist? ==> metadataStore.rows == old(metadataStore.rows)
      ensures mode.VersionsExist? && out.Done? ==> State().blobs == BlobsWithout(old(State().blobs), d)
      ensures mode.VersionsExist? ==> Shrunk(old(State().blobs), State().blobs, d)
      ensures out.Failed? && out.metaLeft ==> State() == old(State())
      ensures out.Failed? && !out.metaLeft && !out.blobsLeft ==> !HasBlobs(old(State().blobs), d)
    {
      var meta := metadataStore.DeleteDocument(d, mode);
      if meta.Failure? {
        return Failed(meta.error, true, false);
      }
      var blobs := documentStore.DeleteDocument(d);
      if blobs.Failure? {
        if blobs.error == NotFound {
          assert State().blobs == BlobsWithout(State().blobs, d);
        }
        return Failed(blobs.error, false, blobs.error != NotFound);
      }
      return Done;
    }

    /** The row first, then the blobs of the hashes it alone referred to. */
    method DeleteDocumentVersion(d: Id, v: VersionTime, mode: Mode) returns (out: Outcome, leftVersions: seq<VersionTime>)
      requires Valid()
      modifies documentStore, metadataStore
      ensures Valid()
      ensures mode.Normal? ==> DeleteVersionStep(old(State()), State(), d, v, out)
      ensures Answers(out, if RowId(d, v) in old(State().rows) && HasBlobs(old(State().blobs), d) then None else Some(NotFound), Reliable())
      ensures mode.VersionsExist? ==> metadataStore.rows == old(metadataStore.rows)
      ensures out.Done? ==> RowId(d, v) in old(State().rows) && leftVersions == Ascending(Versions(old(State().rows), d) - {v})
      ensures out.Done? ==> State().blobs == VersionDeleted(old(State()), d, v).blobs
    {
      var meta := metadataStore.DeleteDocumentVersion(d, v, mode);
      if meta.Failure? {
        return Failed(meta.error, true, false), [];
      }
      leftVersions := meta.value.0;
      var blobs := documentStore.DeleteDocumentHashes(d, meta.value.1);
      ghost var sole := SoleHashes(old(State().rows), d, v);
      assert (set h | h in meta.value.1) == sole;
      if blobs.Failure? {
        return Failed(blobs.error, false, blobs.error != NotFound), [];
      }
      out := Done;
    }

    /** Blobs first, then the row; the row of another creator means its blobs are left alone. */
    method CreateDocument(companyID: Id, d: Id, userID: Id, reason: string, v: VersionTime, files: seq<File>, refusal: Option<Error>, mode: Mode)
      returns (out: Outcome)
      requires Valid()
      modifies documentStore, metadataStore
      ensures Valid()
      ensures mode.Normal? ==> CreateStep(old(State()), State(), Create(companyID, d, userID, reason, v, files, refusal), out)
      ensures mode.Normal? ==> Answers(out, CreateError(old(State()), Create(companyID, d, userID, reason, v, files, refusal)), Reliable())
      ensures Reliable() && out.Failed? ==> !out.metaLeft && !out.blobsLeft
      ensures Grown(old(State().blobs), State().blobs, d) && OnlyWrites(old(State().blobs), State().blobs, d, files)
      ensures mode.VersionsExist? ==> metadataStore.rows == old(metadataStore.rows)
      ensures mode.VersionsExist? && out.Done? ==>
        && ValidVersion(v) && files != []
        && !HasBlobs(old(State().blobs), d)
        && GenesisStored(State().rows, Create(companyID, d, userID, reason, v, files, refusal)) && AllSlashFree(files)
        && State().blobs == PutAll(old(State().blobs), d, files)
      ensures mode.VersionsExist? && Reliable() && out.Failed? && refusal.None? ==>
        || !ValidVersion(v) || files == [] || HasBlobs(old(State().blobs), d) || !AllSlashFree(files)
        || !GenesisStored(State().rows, Create(companyID, d, userID, reason, v, files, refusal))
      ensures mode.VersionsExist? && out.Failed? && !out.blobsLeft && refusal != Some(AlreadyExists) ==> State().blobs == old(State().blobs)
      ensures out.Done? ==> refusal.None?
    {
      hide S3Keys.WellKeyed, S3Keys.Decode;
      NothingWritten(State().blobs, d, files);
      if !ValidVersion(v) || files == [] {
        return Failed(InvalidInput, false, false);
      }
      var found := documentStore.DocumentExists(d);
      if found.Failure? {
        return Failed(found.error, false, false);
      }
      if found.value {
        return Failed(AlreadyExists, false, false);
      }
      out := WriteGenesis(companyID, d, userID, reason, v, files, refusal, mode);
    }

    /** Blobs, row, and callback, with the deferred cleanup. */
    method WriteGenesis(companyID: Id, d: Id, userID: Id, reason: string, v: VersionTime, files: seq<File>, refusal: Option<Error>, mode: Mode)
      returns (out: Outcome)
      requires Valid() && ValidVersion(v) && files != [] && !HasBlobs(State().blobs, d)
      modifies documentStore, metadataStore
      ensures Valid()
      ensures mode.Normal? ==> CreateStep(old(State()), State(), Create(companyID, d, userID, reason, v, files, refusal), out)
      ensures mode.Normal? ==> Answers(out, GenesisError(old(State()), Create(companyID, d, userID, reason, v, files, refusal)), Reliable())
      ensures Reliable() && out.Failed? ==> !out.metaLeft && !out.blobsLeft
      ensures Grown(old(State().blobs), State().blobs, d) && OnlyWrites(old(State().blobs), State().blobs, d, files)
      ensures mode.VersionsExist? ==> metadataStore.rows == old(metadataStore.rows)
      ensures mode.VersionsExist? && out.Done? ==>
        && GenesisStored(State().rows, Create(companyID, d, userID, reason, v, files, refusal)) && AllSlashFree(files)
        && State().blobs == PutAll(old(State().blobs), d, files)
      ensures mode.VersionsExist? && Reliable() && out.Failed? && refusal.None? ==>
        !AllSlashFree(files) || !GenesisStored(State().rows, Create(companyID, d, userID, reason, v, files, refusal))
      ensures mode.VersionsExist? && out.Failed? && !out.blobsLeft && refusal != Some(AlreadyExists) ==> State().blobs == old(State().blobs)
      ensures out.Done? ==> refusal.None?
    {
      ghost var s := State();
      ghost var op := Create(companyID, d, userID, reason, v, files, refusal);
      hide S3Keys.WellKeyed, S3Keys.Decode, Creatable, CreateStep, HasBlobs, HasRows, GenesisFree, Grown, PutAll, GenesisRow, OnlyWrites;
      hide GenesisError, GenesisStored;
      var error, inserted := TryGenesis(companyID, d, userID, reason, v, files, refusal, mode);
      if error.None? {
        if mode.Normal? {
          CreateSucceeds(s, State(), op);
        }
        return Done;
      }
      RowTakenBack(s.rows, State().rows, RowId(d, v));
      ghost var p := State();
      out := RollbackGenesis(s, d, v, inserted, error.value, mode);
      FewerWrites(s.blobs, p.blobs, State().blobs, d, files);
      if mode.Normal? {
        CreateFails(s, State(), op, out);
      }
    }

    /** Blobs, row, and callback; inserted says that the row was inserted, or verified, before the failure. */
    method TryGenesis(companyID: Id, d: Id, userID: Id, reason: string, v: VersionTime, files: seq<File>, refusal: Option<Error>, mode: Mode)
      returns (error: Option<Error>, inserted: bool)
      requires Valid() && ValidVersion(v) && files != [] && !HasBlobs(State().blobs, d)
      modifies documentStore, metadataStore
      ensures Valid()
      ensures Grown(old(State().blobs), State().blobs, d)
      ensures inserted || error == Some(AlreadyExists) ==> State().blobs == PutAll(old(State().blobs), d, files)
      ensures inserted ==> error == refusal
      ensures !inserted ==> error.Some?
      ensures inserted && mode.Normal? ==>
        && Creatable(old(State()), Create(companyID, d, userID, reason, v, files, refusal))
        && RowId(d, v) !in old(State().rows)
        && State().rows == old(State().rows)[RowId(d, v) := GenesisRow(companyID, d, userID, reason, v, files)]
      ensures !inserted || mode.VersionsExist? ==> State().rows == old(State().rows)
      ensures inserted ==> RowId(d, v) in State().rows
      ensures !inserted && error == Some(AlreadyExists) ==> mode.Normal? && !GenesisFree(old(State().rows), d, v)
      ensures mode.Normal? ==>
        || error == GenesisError(old(State()), Create(companyID, d, userID, reason, v, files, refusal))
        || (!inserted && error == Some(Unavailable) && !Reliable())
      ensures OnlyWrites(old(State().blobs), State().blobs, d, files)
      ensures mode.VersionsExist? && inserted ==> GenesisStored(State().rows, Create(companyID, d, userID, reason, v, files, refusal)) && AllSlashFree(files)
      ensures mode.VersionsExist? && !inserted && Reliable() ==>
        !AllSlashFree(files) || !GenesisStored(State().rows, Create(companyID, d, userID, reason, v, files, refusal))
    {
      ghost var s := State();
      ghost var op := Create(companyID, d, userID, reason, v, files, refusal);
      assert files[..|files|] == files;
      PutAllOnlyWrites(s.blobs, d, files, |files|);
      hide S3Keys.WellKeyed, S3Keys.Decode, Creatable, HasBlobs, GenesisFree, Grown, PutAll, Overlay, NamesAllowed, OnlyWrites;
      hide NewInfo, GenesisRow, Insertable, HasPredecessor, AllSlashFree, GenesisError, GenesisStored;
      var added := documentStore.CreateDocumentVersion(d, v, files);
      if added.Failure? {
        ghost var n :| 0 <= n <= |files| && State().blobs == PutAll(s.blobs, d, files[..n]);
        PutAllGrows(s.blobs, d, files[..n]);
        PutAllOnlyWrites(s.blobs, d, files, n);
        MisnamedGenesis(s, op);
        return Some(added.error), false;
      }
      PutAllGrows(s.blobs, d, files);
      var input := CreateDocumentVersionInput(d, companyID, userID, reason, v, None, added.value, [], [], None);
      GenesisInput(s.rows, input, files);
      GenesisInsertable(s.rows, input);
      var info := metadataStore.CreateDocumentVersion(input, mode);
      GenesisAnswered(s, op, input, info, mode, metadataStore.reliable);
      if info.Failure? {
        return Some(info.error), false;
      }
      return refusal, true;
    }

    /** Deletes what this call wrote, unless the error says, whoever returned it, that the row belongs to another creator. */
    method DropGenesisBlobs(ghost s: Stores, d: Id, error: Error) returns (blobsLeft: bool)
      requires Valid()
      requires !HasBlobs(s.blobs, d) && Grown(s.blobs, State().blobs, d)
      modifies documentStore
      ensures Valid()
      ensures Grown(s.blobs, State().blobs, d)
      ensures error != AlreadyExists && !blobsLeft ==> State().blobs == s.blobs
      ensures error == AlreadyExists ==> State() == old(State())
      ensures forall k :: k in State().blobs ==> k in old(State().blobs) && State().blobs[k] == old(State().blobs)[k]
      ensures Reliable() ==> !blobsLeft
    {
      hide S3Keys.WellKeyed, S3Keys.Decode;
      blobsLeft := false;
      if error != AlreadyExists {
        var deleted := documentStore.DeleteDocument(d);
        blobsLeft := deleted.Failure? && deleted.error != NotFound;
        DroppedGrowth(s.blobs, old(State().blobs), State().blobs, d);
      }
    }

    method DropGenesisRow(ghost s: Stores, d: Id, v: VersionTime, inserted: bool, mode: Mode) returns (metaLeft: bool)
      requires Valid()
      requires inserted && mode.Normal? ==> RowId(d, v) in State().rows && s.rows == State().rows - {RowId(d, v)}
      requires !inserted || mode.VersionsExist? ==> State().rows == s.rows
      modifies metadataStore
      ensures Valid()
      ensures State() == Stores(if metaLeft then old(State().rows) else s.rows, old(State().blobs))
      ensures !inserted || Reliable() ==> !metaLeft
    {
      hide S3Keys.WellKeyed, S3Keys.Decode, SoleHashes, Versions, Ascending, NoDuplicates;
      metaLeft := false;
      if inserted {
        var deleted := metadataStore.DeleteDocumentVersion(d, v, mode);
        metaLeft := deleted.Failure? && deleted.error != NotFound;
      }
    }

    /** The deferred cleanup of CreateDocument; inserted says whether this call's row is in the table. */
    method RollbackGenesis(ghost s: Stores, d: Id, v: VersionTime, inserted: bool, error: Error, mode: Mode) returns (out: Outcome)
      requires Valid()
      requires !HasBlobs(s.blobs, d) && Grown(s.blobs, State().blobs, d)
      requires inserted && mode.Normal? ==> RowId(d, v) in State().rows && s.rows == State().rows - {RowId(d, v)}
      requires !inserted || mode.VersionsExist? ==> State().rows == s.rows
      modifies documentStore, metadataStore
      ensures Valid()
      ensures out.Failed? && out.error == error
      ensures State().rows == if out.metaLeft then old(State().rows) else s.rows
      ensures !inserted ==> !out.metaLeft
      ensures Grown(s.blobs, State().blobs, d)
      ensures error != AlreadyExists && !out.blobsLeft ==> State().blobs == s.blobs
      ensures error == AlreadyExists ==> State().blobs == old(State().blobs)
      ensures forall k :: k in State().blobs ==> k in old(State().blobs) && State().blobs[k] == old(State().blobs)[k]
      ensures Reliable() ==> !out.metaLeft && !out.blobsLeft
    {
      hide S3Keys.WellKeyed, S3Keys.Decode, Grown, HasBlobs, SoleHashes, Versions, Ascending, NoDuplicates;
      var blobsLeft := DropGenesisBlobs(s, d, error);
      var metaLeft := DropGenesisRow(s, d, v, inserted, mode);
      out := Failed(error, metaLeft, blobsLeft);
    }

    /** The previous version's listing decides the label of each written file. */
    method LabelWrites(p: FileProvider, ghost prev: VersionInfo, d: Id, files: seq<File>)
      returns (added: seq<FileInfo>, modified: seq<FileInfo>)
      requires Valid()
      requires ProvidesHashes(p, State().blobs, d, HashesIn(prev))
      ensures added == Labelled(State().blobs, d, prev, InfosOf(files), false)
      ensures modified == Labelled(State().blobs, d, prev, InfosOf(files), true)
    {
      added, modified := [], [];
      ghost var infos := InfosOf(files);
      for i := 0 to |files|
        invariant added == Labelled(State().blobs, d, prev, infos[..i], false)
        invariant modified == Labelled(State().blobs, d, prev, infos[..i], true)
      {
        assert infos[..i + 1][..i] == infos[..i];
        var fileInfo := FileInfo(files[i].name, |files[i].data|, ContentHash(files[i].data));
        var has := HasFile(p, files[i].name);
        ProviderHasFile(p, State().blobs, d, prev, files[i].name);
        if has {
          modified := modified + [fileInfo];
        } else {
          added := added + [fileInfo];
        }
      }
      assert infos[..|files|] == infos;
    }

    /** The row first, then the blobs; a later failure takes back the row and the hashes only it refers to. */
    method AddDocumentVersion(d: Id, userID: Id, reason: string, created: Option<CreateVersionResult>, accept: bool, mode: Mode)
      returns (out: Outcome)
      requires Valid()
      modifies documentStore, metadataStore
      ensures Valid()
      ensures mode.Normal? ==> AddStep(old(State()), State(), Add(d, userID, reason, created), out)
      ensures mode.Normal? ==> Answers(out, AddError(old(State()), Add(d, userID, reason, created), accept), Reliable())
      ensures mode.Normal? && Reliable() ==> (out.Done? <==> accept && Addable(old(State()), Add(d, userID, reason, created)))
      ensures Reliable() && out.Failed? ==> !out.metaLeft && !out.blobsLeft
      ensures mode.VersionsExist? ==>
        && State() == old(State())
        && out.Failed?
        && Answers(out, if Planned(State(), Add(d, userID, reason, created)) then Some(NotFound) else AddError(State(), Add(d, userID, reason, created), accept), Reliable())
      ensures out.Done? ==> accept
    {
      if !ValidId(d) || !ValidId(userID) {
        return Failed(InvalidInput, false, false);
      }
      var latest := metadataStore.LatestDocumentVersionInfo(d);
      if latest.Failure? {
        return Failed(latest.error, false, false);
      }
      var prev := latest.value;
      var hashes := ListHashes(HashesIn(prev));
      assert (set h | h in hashes) == HashesIn(prev);
      var provider := documentStore.DocumentHashFileProvider(d, hashes);
      if provider.Failure? {
        return Failed(provider.error, false, false);
      }
      if created.None? {
        return Failed(CallbackFailed, false, false);
      }
      var result := created.value;
      if !result.Valid() {
        return Failed(InvalidInput, false, false);
      }
      if result.version <= prev.version {
        return Failed(NotAfterPrevious, false, false);
      }
      var added, modified := LabelWrites(provider.value, prev, d, result.writeFiles);
      var resultingFiles := Resolve(prev.files, added, modified, result.removeFiles);
      LabellingKeepsOverlay(Without(prev.files, result.removeFiles), State().blobs, d, prev, InfosOf(result.writeFiles));
      if resultingFiles == map[] {
        return Failed(EmptyVersion, false, false);
      }
      out := AppendVersion(d, userID, reason, result, prev, added, modified, resultingFiles, accept, mode);
    }

    method AppendVersion(d: Id, userID: Id, reason: string, result: CreateVersionResult, prev: VersionInfo,
                         added: seq<FileInfo>, modified: seq<FileInfo>, files: FileMap, accept: bool, mode: Mode)
      returns (out: Outcome)
      requires Valid() && ValidId(d) && ValidId(userID)
      requires HasRows(State().rows, d) && prev == State().rows[RowId(d, Latest(State().rows, d))]
      requires result.Valid() && result.version > prev.version
      requires added == Labelled(State().blobs, d, prev, InfosOf(result.writeFiles), false)
      requires modified == Labelled(State().blobs, d, prev, InfosOf(result.writeFiles), true)
      requires files == AppendedFiles(prev.files, result) && files != map[]
      modifies documentStore, metadataStore
      ensures Valid()
      ensures mode.Normal? ==> AddStep(old(State()), State(), Add(d, userID, reason, Some(result)), out)
      ensures mode.Normal? ==>
        Answers(out, if !NamesAllowed(files) || !AllSlashFree(result.writeFiles) then Some(InvalidInput) else if accept then None else Some(CallbackFailed), Reliable())
      ensures Reliable() && out.Failed? ==> !out.metaLeft && !out.blobsLeft
      ensures mode.VersionsExist? ==> State() == old(State()) && out.Failed? && Answers(out, Some(NotFound), Reliable())
      ensures out.Done? ==> accept
    {
      hide S3Keys.WellKeyed, S3Keys.Decode, Latest, Labelled, AppendedFiles, AppendedRow, Appends, BuiltOn, Undone, NothingLost, NewInfo, OnlyWrites, Grown, PutAll, AddStep;
      ghost var s := State();
      ghost var op := Add(d, userID, reason, Some(result));
      var companyID := result.newCompanyID.GetOr(prev.companyID);
      var input := CreateDocumentVersionInput(d, companyID, userID, reason, result.version, Some(prev.version),
                                              added, modified, result.removeFiles, Some(files));
      AppendInput(s, op, input, prev);
      var info := metadataStore.CreateDocumentVersion(input, mode);
      if info.Failure? {
        NothingHappened(s, d, NothingLost(s.rows, d, result.writeFiles));
        NothingWritten(s.blobs, d, result.writeFiles);
        AppendFails(s, s, s, op, Failed(info.error, false, false));
        return Failed(info.error, false, false);
      }
      var written := documentStore.CreateDocumentVersion(d, result.version, result.writeFiles);
      if written.Failure? {
        ghost var n :| 0 <= n <= |result.writeFiles| && State().blobs == PutAll(s.blobs, d, result.writeFiles[..n]);
        WrittenIsBuiltOn(s, State(), d, info.value, Without(prev.files, result.removeFiles), result, n);
        ghost var p := State();
        out := RollbackNewVersion(s, d, result, written.error);
        FewerWrites(s.blobs, p.blobs, State().blobs, d, result.writeFiles);
        AppendFails(s, p, State(), op, out);
        return;
      }
      if !accept {
        assert result.writeFiles[..|result.writeFiles|] == result.writeFiles;
        WrittenIsBuiltOn(s, State(), d, info.value, Without(prev.files, result.removeFiles), result, |result.writeFiles|);
        ghost var p := State();
        out := RollbackNewVersion(s, d, result, CallbackFailed);
        FewerWrites(s.blobs, p.blobs, State().blobs, d, result.writeFiles);
        AppendFails(s, p, State(), op, out);
        return;
      }
      AppendSucceeds(s, State(), op);
      out := Done;
    }

    /** Takes back the row and then only the blobs whose hash no other version refers to. */
    method RollbackNewVersion(ghost s: Stores, d: Id, result: CreateVersionResult, cause: Error) returns (out: Outcome)
      requires Valid()
      requires Grown(s.blobs, State().blobs, d)
      requires BuiltOn(s, State(), d, {result.version}, NothingLost(s.rows, d, result.writeFiles))
      modifies documentStore, metadataStore
      ensures Valid()
      ensures out.Failed? && out.error == cause
      ensures out.metaLeft ==> State() == old(State()) && Grown(s.blobs, State().blobs, d)
      ensures forall k :: k in State().blobs ==> k in old(State().blobs) && State().blobs[k] == old(State().blobs)[k]
      ensures !out.metaLeft ==> Undone(s, State(), d, !out.blobsLeft && NothingLost(s.rows, d, result.writeFiles))
      ensures Reliable() ==> !out.metaLeft && !out.blobsLeft
    {
      hide S3Keys.WellKeyed, S3Keys.Decode, NothingLost, BuiltOn, Undone, SoleHashes, Grown, Versions, Purged;
      var v := result.version;
      assert RowId(d, v) in State().rows by { BuiltRowsAreThere(s, State(), d, {v}, NothingLost(s.rows, d, result.writeFiles)); }
      var meta := metadataStore.DeleteDocumentVersion(d, v, Normal);
      if meta.Failure? {
        return Failed(cause, true, false);
      }
      var hashes := meta.value.1;
      var blobsLeft := false;
      if hashes != [] {
        var blobs := documentStore.DeleteDocumentHashes(d, hashes);
        blobsLeft := blobs.Failure? && blobs.error != NotFound;
      } else {
        NothingPurged(State().blobs, d, hashes);
      }
      RollbackUndoes(s, old(State()), State(), d, v, hashes, NothingLost(s.rows, d, result.writeFiles), blobsLeft);
      out := Failed(cause, false, blobsLeft);
    }

    /** The row of a version, with its difference to its predecessor in the backup. */
    method RestoreRow(doc: HashedDocument, v: VersionTime, prev: Option<VersionTime>, mode: Mode) returns (error: Option<Error>)
      requires Valid() && doc.WellFormed() && v in doc.versions && prev == doc.Predecessor(v)
      modifies metadataStore
      ensures Valid()
      ensures error.Some? || mode.VersionsExist? ==> State() == old(State())
      ensures error.None? && mode.Normal? ==>
        && RowId(doc.id, v) !in old(State().rows)
        && RowId(doc.id, v) in State().rows
        && State().rows == old(State().rows)[RowId(doc.id, v) := State().rows[RowId(doc.id, v)]]
        && Describes(doc, v, State().rows[RowId(doc.id, v)])
      ensures error.None? && mode.Normal? ==> RowFits(old(State().rows), doc, v)
      ensures error.Some? && mode.Normal? && Reliable() ==> !RowFits(old(State().rows), doc, v)
      ensures mode.VersionsExist? && error.None? ==> RowDescribed(State().rows, doc, v)
      ensures mode.VersionsExist? && error.Some? && Reliable() ==> !RowDescribed(State().rows, doc, v)
    {
      var hv := doc.versions[v];
      var prevHashes := if prev.Some? then doc.versions[prev.value].fileHashes else map[];
      assert prevHashes == doc.PreviousHashes(v) && doc.Complete(v);
      hide S3Keys.WellKeyed, S3Keys.Decode, NewInfo, Describes, IsDiff;
      hide HashedDocument.WellFormed, HashedDocument.Predecessor, HashedDocument.PreviousHashes, HashedDocument.FilesAt;
      var resulting := VersionFiles(doc, v);
      if resulting.Failure? {
        assert false;
      }
      var added, modified, removed := DiffHashes(prevHashes, hv.fileHashes);
      ListedFilesExist(doc, v, added, modified, removed);
      PickNames(resulting.value, added);
      PickNames(resulting.value, modified);
      var input := CreateDocumentVersionInput(doc.id, doc.companyID, hv.commitUserID, hv.commitReason, v, prev,
                                              Pick(resulting.value, added), Pick(resulting.value, modified), removed, Some(resulting.value));
      InputDescribes(State().rows, doc, v, input, added, modified, removed);
      InputFits(State().rows, doc, v, input);
      hide Insertable, RowFits, NamesAllowed, GenesisFree, ResolvedFiles, HasPredecessor, SameVersion, RowDescribed;
      ghost var rows, row := State().rows, NewInfo(State().rows, input);
      if RowId(doc.id, v) in rows {
        SameVersionIsDescribed(doc, v, rows[RowId(doc.id, v)], row);
      }
      var info := metadataStore.CreateDocumentVersion(input, mode);
      RowDescribedMeans(rows, doc, v);
      error := if info.Failure? then Some(info.error) else None;
    }

    /** The blobs of a version, or some of them. */
    method RestoreBlobs(doc: HashedDocument, v: VersionTime) returns (error: Option<Error>, ghost written: seq<File>)
      requires Valid() && v in doc.versions && doc.Complete(v)
      modifies documentStore
      ensures Valid()
      ensures State().blobs == PutAll(old(State().blobs), doc.id, written)
      ensures FilesOfVersion(doc, v, written) && (error.None? ==> AllFilesOfVersion(doc, v, written))
      ensures error.None? ==> forall n :: n in doc.versions[v].fileHashes ==> SlashFree(n)
      ensures error.Some? && Reliable() ==> exists n :: n in doc.versions[v].fileHashes && !SlashFree(n)
    {
      hide S3Keys.WellKeyed, S3Keys.Decode, FilesOfVersion, AllFilesOfVersion;
      var files := HashedVersionFiles(doc, v);
      PrefixOfVersion(doc, v, files, |files|);
      assert files[..|files|] == files;
      NamesInList(doc, v, files);
      var put := documentStore.CreateDocumentVersion(doc.id, v, files);
      if put.Failure? {
        ghost var n :| 0 <= n <= |files| && State().blobs == PutAll(old(State().blobs), doc.id, files[..n]);
        PrefixOfVersion(doc, v, files, n);
        return Some(put.error), files[..n];
      }
      return None, files;
    }

    /** Row, then blobs, of a version after the first written one, against its predecessor in the backup. */
    method RestoreVersion(doc: HashedDocument, v: VersionTime, prev: Option<VersionTime>, mode: Mode)
      returns (wroteRow: bool, error: Option<Error>, ghost written: seq<File>)
      requires Valid() && doc.WellFormed() && v in doc.versions && prev == doc.Predecessor(v)
      modifies documentStore, metadataStore
      ensures Valid()
      ensures !wroteRow ==> error.Some? && State() == old(State())
      ensures wroteRow ==> State().blobs == PutAll(old(State().blobs), doc.id, written)
      ensures wroteRow && error.None? ==> AllFilesOfVersion(doc, v, written)
      ensures wroteRow ==> FilesOfVersion(doc, v, written)
      ensures wroteRow && mode.Normal? ==>
        && RowId(doc.id, v) !in old(State().rows)
        && RowId(doc.id, v) in State().rows
        && State().rows == old(State().rows)[RowId(doc.id, v) := State().rows[RowId(doc.id, v)]]
        && Describes(doc, v, State().rows[RowId(doc.id, v)])
      ensures mode.VersionsExist? ==> State().rows == old(State().rows)
      ensures error.None? && mode.Normal? ==> VersionFits(old(State().rows), doc, v)
      ensures error.Some? && mode.Normal? && Reliable() ==> !VersionFits(old(State().rows), doc, v)
      ensures mode.VersionsExist? && wroteRow ==> RowId(doc.id, v) in State().rows
      ensures mode.VersionsExist? && error.None? ==> CopyFits(State().rows, doc, v)
      ensures mode.VersionsExist? && error.Some? && Reliable() ==> !CopyFits(State().rows, doc, v)
    {
      assert doc.Complete(v);
      RowFitsWithNames(State().rows, doc, v);
      RowDescribedMeans(State().rows, doc, v);
      hide RowDescribed, CopyFits;
      hide S3Keys.WellKeyed, S3Keys.Decode, Describes, FilesOfVersion, AllFilesOfVersion, VersionFits, RowFits;
      hide HashedDocument.WellFormed, HashedDocument.Predecessor;
      error := RestoreRow(doc, v, prev, mode);
      if error.Some? {
        return false, error, [];
      }
      wroteRow := true;
      error, written := RestoreBlobs(doc, v);
    }

    /** Takes back the created versions, newest first. */
    method DeleteCreatedVersions(ghost base: Stores, ghost tracked: bool, d: Id, created: seq<VersionTime>, cause: Error, mode: Mode)
      returns (out: Outcome)
      requires Valid()
      requires tracked ==> mode.Normal? && NoDuplicates(created) && BuiltOn(base, State(), d, Elements(created), true)
      modifies documentStore, metadataStore
      ensures Valid()
      ensures out.Failed? && out.error == cause
      ensures tracked && !out.metaLeft ==> Undone(base, State(), d, !out.blobsLeft)
      ensures tracked && out.metaLeft ==> LeftAmong(base, old(State()), State(), d, Elements(created), !out.blobsLeft)
      ensures mode.VersionsExist? ==> State().rows == old(State().rows)
      ensures created == [] ==> State() == old(State())
    {
      hide S3Keys.WellKeyed, S3Keys.Decode, BuiltOn, DeleteVersionStep, Undone, VersionDeleted, Versions, OnlyFewerRows, LeftAmong;
      ghost var p := State();
      NoFewerRows(p.rows);
      var metaLeft, blobsLeft := false, false;
      ghost var stuck: set<VersionTime> := {};
      var i := |created|;
      assert created[..i] == created;
      assert Elements(created[..i]) + stuck == Elements(created);
      while i > 0
        invariant 0 <= i <= |created|
        invariant Valid()
        invariant tracked ==> BuiltOn(base, State(), d, Elements(created[..i]) + stuck, !blobsLeft)
        invariant stuck == {} <==> !metaLeft
        invariant tracked ==> forall v :: v in stuck ==> v !in created[..i]
        invariant stuck <= Elements(created)
        invariant created == [] ==> State() == p
        invariant tracked ==> OnlyFewerRows(p.rows, State().rows)
        invariant mode.VersionsExist? ==> State().rows == old(State().rows)
      {
        i := i - 1;
        ghost var before := State();
        ghost var versions := Elements(created[..i + 1]) + stuck;
        var v := created[i];
        assert created[..i + 1] == created[..i] + [v];
        var deleted, _ := DeleteDocumentVersion(d, v, mode);
        if deleted.Failed? {
          if deleted.metaLeft {
            metaLeft := true;
            stuck := stuck + {v};
            if tracked {
              DeletionFailed(before, State(), d, v, deleted);
              assert versions == Elements(created[..i]) + stuck;
            }
          } else {
            if tracked {
              DeletionKeepsBuiltOn(base, before, State(), d, versions, v, !blobsLeft, deleted);
              DeletionLeavesFewer(p.rows, before, State(), d, v, deleted);
              DropLast(created, i, stuck);
            }
            blobsLeft := blobsLeft || deleted.blobsLeft;
          }
        } else if tracked {
          DeletionKeepsBuiltOn(base, before, State(), d, versions, v, !blobsLeft, deleted);
          DeletionLeavesFewer(p.rows, before, State(), d, v, deleted);
          DropLast(created, i, stuck);
        }
      }
      if tracked {
        assert Elements(created[..0]) + stuck == stuck;
        if metaLeft {
          SomeAreLeft(base, p, State(), d, stuck, Elements(created), !blobsLeft);
        } else {
          NothingLeftIsUndone(base, State(), d, !blobsLeft);
        }
      }
      out := Failed(cause, metaLeft, blobsLeft);
    }

    /** The deferred rollback: the whole document if it was created here, else the versions added here. */
    method RollbackRestore(ghost base: Stores, ghost tracked: bool, ghost versions: set<VersionTime>,
                           d: Id, createdDoc: bool, created: seq<VersionTime>, cause: Error, mode: Mode)
      returns (out: Outcome)
      requires Valid()
      requires tracked ==> mode.Normal? && BuiltOn(base, State(), d, versions, true)
      requires tracked && createdDoc ==> versions != {} && !HasRows(base.rows, d) && !HasBlobs(base.blobs, d)
      requires tracked && !createdDoc ==> NoDuplicates(created) && versions == Elements(created)
      modifies documentStore, metadataStore
      ensures Valid()
      ensures out.Failed?
      ensures tracked && !out.metaLeft ==> Undone(base, State(), d, !out.blobsLeft)
      ensures tracked && out.metaLeft ==> LeftAmong(base, old(State()), State(), d, versions, !out.blobsLeft)
      ensures mode.VersionsExist? ==> State().rows == old(State().rows)
      ensures mode.VersionsExist? && createdDoc && !out.metaLeft && !out.blobsLeft ==> State().blobs == BlobsWithout(old(State().blobs), d)
      ensures mode.VersionsExist? && createdDoc ==> Shrunk(old(State().blobs), State().blobs, d)
      ensures !createdDoc && created == [] ==> State() == old(State())
    {
      hide S3Keys.WellKeyed, S3Keys.Decode, BuiltOn, Undone, DeleteStep;
      if createdDoc {
        var deleted := DeleteDocument(d, mode);
        if tracked {
          DroppingUndoes(base, old(State()), State(), d, versions, deleted);
        }
        out := Failed(cause, deleted.Failed? && deleted.metaLeft, deleted.Failed? && deleted.blobsLeft);
        return;
      }
      out := DeleteCreatedVersions(base, tracked, d, created, cause, mode);
    }

    /** The first version of a document that does not exist yet. */
    method RestoreGenesis(ghost plan: Plan, ghost seen: set<VersionTime>, doc: HashedDocument, v: VersionTime, mode: Mode) returns (out: Outcome)
      requires Valid() && plan.doc == doc && plan.mode == mode && plan.Valid()
      requires plan.Reached(State(), seen, [], false) && !plan.docExisted
      requires v in doc.versions && v !in seen && doc.Predecessor(v).None?
      modifies documentStore, metadataStore
      ensures Valid()
      ensures mode.VersionsExist? ==> State().rows == old(State().rows)
      ensures out.Done? ==> plan.Reached(State(), seen + {v}, [], true)
      ensures out.Failed? ==> plan.Failed(State(), out)
      ensures out.Failed? && mode.Normal? && Reliable() ==> !VersionFits(plan.base.rows, doc, v)
      ensures out.Failed? && mode.VersionsExist? && Reliable() && doc.WellHashed() ==> !CopyFits(plan.base.rows, doc, v)
    {
      assert doc.Complete(v);
      var hv := doc.versions[v];
      ghost var p := State();
      assert p == plan.base && seen + {v} == {v} && !HasBlobs(p.blobs, doc.id);
      assert ValidVersion(v) && hv.fileHashes != map[];
      hide S3Keys.WellKeyed, S3Keys.Decode, CreateStep, HasBlobs, HasRows, AllFilesOfVersion, HashedDocument.Predecessor;
      hide Plan.Reached, Plan.Valid, Plan.Failed, Plan.Copied, Plan.CopyFailed, BlobsWithout, GenesisStored, CopyFits, OnlyWrites, Grown, CreateError, VersionFits, StorableName, SlashFree;
      var files := HashedVersionFiles(doc, v);
      NamesInList(doc, v, files);
      FilesAreThere(doc, v, files);
      out := CreateDocument(doc.companyID, doc.id, hv.commitUserID, hv.commitReason, v, files, None, mode);
      if mode.VersionsExist? {
        ghost var op := Create(doc.companyID, doc.id, hv.commitUserID, hv.commitReason, v, files, None);
        if out.Done? {
          GenesisCopied(plan, State(), v, files, op);
        } else {
          GenesisNotCopied(plan, State(), v, files, op, out, Reliable());
        }
      }
      if mode.Normal? && out.Failed? && Reliable() {
        GenesisMisfit(p, doc, v, Create(doc.companyID, doc.id, hv.commitUserID, hv.commitReason, v, files, None));
      }
      GenesisOutcome(plan, p, State(), seen, v, files, out);
    }

    /** A later version, with the rollback of all that was written if it fails. */
    method RestoreNext(ghost plan: Plan, ghost seen: set<VersionTime>, doc: HashedDocument, v: VersionTime, prev: Option<VersionTime>,
                       createdDoc: bool, created: seq<VersionTime>, mode: Mode)
      returns (out: Outcome, created': seq<VersionTime>)
      requires Valid() && plan.doc == doc && plan.mode == mode && plan.Valid()
      requires plan.Reached(State(), seen, created, createdDoc) && (plan.docExisted || createdDoc)
      requires doc.WellFormed() && v in doc.versions && v !in seen && prev == doc.Predecessor(v)
      requires mode.VersionsExist? ==> State().rows == plan.base.rows
      requires plan.docExisted ==> RowId(doc.id, v) !in plan.base.rows
      requires plan.Tracked() ==> (VersionFits(State().rows, doc, v) <==> VersionFits(plan.base.rows, doc, v))
      modifies documentStore, metadataStore
      ensures Valid()
      ensures mode.VersionsExist? ==> State().rows == old(State().rows)
      ensures out.Done? ==> plan.Reached(State(), seen + {v}, created', createdDoc)
      ensures out.Failed? ==> plan.Failed(State(), out)
      ensures out.Failed? && mode.Normal? && Reliable() ==> !VersionFits(old(State().rows), doc, v)
      ensures out.Failed? && mode.VersionsExist? && Reliable() ==> !CopyFits(plan.base.rows, doc, v)
    {
      assert doc.Complete(v);
      hide S3Keys.WellKeyed, S3Keys.Decode, BuiltOn, Undone, HasBlobs, HasRows, AllFilesOfVersion, FilesOfVersion, Describes;
      hide HashedDocument.Predecessor, HashedDocument.WellFormed, Plan.Reached, Plan.Valid, Plan.Failed, BlobsWithout;
      hide VersionFits, CopyFits, Shrunk, Plan.Copied, Plan.CopyFailed;
      assert plan.Tracked() ==> mode.Normal?;
      hide Plan.Tracked;
      ghost var p := State();
      var wroteRow, error, written := RestoreVersion(doc, v, prev, mode);
      ghost var q := State();
      created' := if wroteRow then created + [v] else created;
      if error.None? {
        if mode.VersionsExist? {
          NextCopied(plan, p, q, seen, v, created, createdDoc, written);
        }
        NextWritten(plan, p, q, seen, v, created, createdDoc, written);
        return Done, created';
      }
      ghost var versions := NextFailed(plan, p, q, seen, v, created, createdDoc, wroteRow, written);
      out := RollbackRestore(plan.base, plan.Tracked(), versions, doc.id, createdDoc, created', error.value, mode);
      if mode.VersionsExist? {
        CopyTakenBack(plan, p, q, State(), seen, v, created, createdDoc, wroteRow, written, out);
      }
      RestoreTakenBack(plan, p, q, State(), seen, v, created, createdDoc, wroteRow, written, versions, out);
    }

    /** The first i version times of the backup have been written or skipped. */
    ghost predicate Restoring(plan: Plan, times: seq<VersionTime>, i: nat, created: seq<VersionTime>, createdDoc: bool)
      requires i <= |times|
      reads documentStore, metadataStore
    {
      && Valid() && plan.Valid()
      && times == plan.doc.VersionTimes()
      && plan.Reached(State(), TimesIn(times[..i]), created, createdDoc)
      && (createdDoc ==> !plan.docExisted)
      && (!plan.docExisted && !createdDoc ==> i == 0 && created == [])
      && (plan.mode.VersionsExist? ==> State().rows == plan.base.rows)
    }

    lemma NoneRestored(plan: Plan)
      requires Valid() && plan.base == State() && plan.Valid()
      ensures Restoring(plan, plan.doc.VersionTimes(), 0, [], false)
    {
      NothingReached(plan);
      assert TimesIn(plan.doc.VersionTimes()[..0]) == {};
    }

    lemma AllRestored(plan: Plan, times: seq<VersionTime>, created: seq<VersionTime>, createdDoc: bool)
      requires Restoring(plan, times, |times|, created, createdDoc)
      ensures Valid() && plan.Valid() && plan.Complete(State())
      ensures plan.mode.VersionsExist? ==> State().rows == plan.base.rows
    {
      HandledAll(times, plan.doc.versions.Keys, TimesIn(times[..|times|]));
      AllReached(plan, State(), TimesIn(times[..|times|]), created, createdDoc);
    }

    /** Writes the versions of the backup that are not there yet, in time order. */
    method RestoreVersions(ghost plan: Plan, doc: HashedDocument, recreate: bool, docExisted: bool, existingVersions: seq<VersionTime>, mode: Mode)
      returns (out: Outcome)
      requires Valid() && doc.WellFormed()
      requires plan == Plan(State(), doc, mode, docExisted) && plan.Valid()
      requires docExisted ==> !recreate && existingVersions == Ascending(Versions(State().rows, doc.id))
      requires !docExisted ==> existingVersions == []
      modifies documentStore, metadataStore
      ensures Valid()
      ensures mode.VersionsExist? ==> State().rows == old(State().rows)
      ensures out.Done? ==> plan.Complete(State())
      ensures out.Failed? ==> plan.Failed(State(), out)
      ensures out.Failed? && Reliable() && plan.Tracked() ==> !Fits(plan.base.rows, doc, doc.versions.Keys)
      ensures out.Failed? && Reliable() && mode.VersionsExist? && doc.WellHashed() ==> !plan.CopyReady()
    {
      hide *;
      var versionTimes := doc.VersionTimes();
      var createdVersions: seq<VersionTime> := [];
      var createdDoc := false;
      NoneRestored(plan);
      assert plan.base == State() && plan.doc == doc && plan.mode == mode && plan.docExisted == docExisted;
      for i := 0 to |versionTimes|
        invariant Restoring(plan, versionTimes, i, createdVersions, createdDoc)
      {
        VersionIsStored(plan.base.rows, doc.id, versionTimes[i]);
        var skip := !recreate && versionTimes[i] in existingVersions;
        out, createdDoc, createdVersions := RestoreOrSkip(plan, doc, versionTimes, i, mode, docExisted, skip, createdDoc, createdVersions);
        if out.Failed? {
          return;
        }
      }
      AllRestored(plan, versionTimes, createdVersions, createdDoc);
      out := Done;
    }

    /** A version that is stored is skipped; the first of a new document creates it. */
    method RestoreOrSkip(ghost plan: Plan, doc: HashedDocument, times: seq<VersionTime>, i: nat, mode: Mode,
                         docExisted: bool, skip: bool, createdDoc: bool, created: seq<VersionTime>)
      returns (out: Outcome, createdDoc': bool, created': seq<VersionTime>)
      requires plan.doc == doc && plan.mode == mode && plan.docExisted == docExisted
      requires i < |times| && Restoring(plan, times, i, created, createdDoc)
      requires skip ==> docExisted && RowId(doc.id, times[i]) in plan.base.rows
      requires docExisted && !skip ==> RowId(doc.id, times[i]) !in plan.base.rows
      modifies documentStore, metadataStore
      ensures Valid() && plan.Valid()
      ensures mode.VersionsExist? ==> State().rows == plan.base.rows
      ensures out.Done? ==> Restoring(plan, times, i + 1, created', createdDoc')
      ensures out.Failed? ==> plan.Failed(State(), out)
      ensures out.Failed? && Reliable() && plan.Tracked() ==> !Fits(plan.base.rows, doc, doc.versions.Keys)
      ensures out.Failed? && Reliable() && mode.VersionsExist? && doc.WellHashed() ==> !plan.CopyReady()
    {
      assert doc.WellFormed();
      var v := times[i];
      ghost var seen := TimesIn(times[..i]);
      assert Handled(times, i, seen);
      hide S3Keys.WellKeyed, S3Keys.Decode, Plan.Reached, Plan.Failed, Plan.Valid, Plan.Complete, Versions, HasBlobs, TimesIn;
      hide HashedDocument.WellFormed, HashedDocument.Predecessor, VersionFits, Fits, HasRows, Plan.Tracked, Plan.CopyReady, CopyFits;
      CopyReadyAt(plan, v);
      PredecessorInTimes(doc, i);
      HandledMore(times, doc.versions.Keys, i, seen);
      createdDoc', created' := createdDoc, created;
      if skip {
        SkippedReached(plan, State(), seen, v, created, createdDoc);
        return Done, createdDoc, created;
      }
      ReadyToWrite(plan, State(), seen, v, created, createdDoc);
      if !docExisted && !createdDoc {
        out := RestoreGenesis(plan, seen, doc, v, mode);
        createdDoc' := true;
      } else {
        out, created' := RestoreNext(plan, seen, doc, v, if i == 0 then None else Some(times[i - 1]), createdDoc, created, mode);
      }
    }

    /** Replaces the document by the backup, or adds the backup's missing versions to it. */
    method RestoreDocument(doc: HashedDocument, recreate: bool, mode: Mode) returns (out: Outcome)
      requires Valid()
      modifies documentStore, metadataStore
      ensures Valid()
      ensures mode.Normal? && ConsistentAt(old(State()), doc.id) && doc.WellHashed() ==> RestoreStep(old(State()), State(), doc, recreate, out)
      ensures mode.VersionsExist? && doc.WellHashed() ==> CopyStep(old(State()), State(), doc, recreate, out)
      ensures mode.VersionsExist? && doc.WellHashed() && Reliable() ==> (out.Done? <==> CopyReady(old(State()), doc, recreate))
      ensures Refused(old(State()), doc, recreate) ==>
        && State() == old(State())
        && Answers(out, Some(RefusalError(old(State()), doc)), Reliable())
      ensures mode.Normal? && Reliable() && ConsistentAt(old(State()), doc.id) && doc.WellHashed() ==>
        (out.Done? <==> RestoreReady(old(State()), doc, recreate))
    {
      hide S3Keys.WellKeyed, S3Keys.Decode, HasBlobs, ConsistentAt, DeleteStep, Shrunk, BlobsWithout;
      hide HashedDocument.WellFormed, HashedDocument.Predecessor, HasProblem, Merged, BlobsMerged, Undone, Latest, Versions;
      hide Fits, CopyFits, CopiedAtMost, RowsLeft, RowsWithout, Absent, Elements, NoDuplicates, Ascending;
      ghost var s := State();
      var canceled: bool := *;
      if canceled && !Reliable() {
        return Failed(Unavailable, false, false);
      }
      var problems := Validate(doc);
      if problems != {} {
        return Failed(InvalidInput, false, false);
      }
      var found := DocumentExists(doc.id);
      if found.Failure? {
        return Failed(found.error, false, false);
      }
      var docExists := found.value;
      if recreate && docExists {
        var deleted := DeleteDocument(doc.id, mode);
        if deleted.Failed? {
          RecreateFailed(s, State(), doc, deleted, mode);
          return Failed(deleted.error, false, deleted.blobsLeft);
        }
        docExists := false;
        if mode.Normal? {
          RecreateBase(s, State(), doc);
        }
        NoBlobsLeft(s.blobs, doc.id);
      }
      var existingVersions: seq<VersionTime> := [];
      if !recreate && docExists {
        var company := metadataStore.DocumentCompanyID(doc.id);
        if company.Failure? {
          return Failed(company.error, false, false);
        }
        if company.value != doc.companyID {
          return Failed(CompanyMismatch, false, false);
        }
        var versions := metadataStore.DocumentVersions(doc.id);
        if versions.Failure? {
          return Failed(versions.error, false, false);
        }
        existingVersions := versions.value;
      }
      ghost var plan := Plan(State(), doc, mode, docExists);
      out := RestoreVersions(plan, doc, recreate, docExists, existingVersions, mode);
      if mode.VersionsExist? && doc.WellHashed() {
        CopyEnds(s, plan, State(), recreate, out);
      }
    }

    method DocumentVersionFileProvider(d: Id, v: VersionTime) returns (r: Result<FileProvider, Error>)
      requires Valid()
      ensures r.Success? ==> RowId(d, v) in State().rows && ProvidesHashes(r.value, State().blobs, d, HashesIn(State().rows[RowId(d, v)]))
      ensures r == Failure(NotFound) ==> RowId(d, v) !in State().rows
      ensures r.Failure? ==> r.error == NotFound || (r.error == Unavailable && !Reliable())
    {
      var info := metadataStore.DocumentVersionInfo(d, v);
      if info.Failure? {
        return Failure(info.error);
      }
      var hashes := ListHashes(HashesIn(info.value));
      assert (set h | h in hashes) == HashesIn(info.value);
      r := documentStore.DocumentHashFileProvider(d, hashes);
    }

    method ReadDocumentVersionFile(d: Id, v: VersionTime, filename: Name) returns (r: Result<Bytes, Error>)
      requires Valid()
      ensures r.Success? ==>
        && RowId(d, v) in State().rows
        && filename in State().rows[RowId(d, v)].files
        && (var k := BlobKey(d, filename, State().rows[RowId(d, v)].files[filename].hash);
            k in State().blobs && r.value == State().blobs[k])
      ensures r == Failure(NotFound) ==> RowId(d, v) !in State().rows
      ensures r == Failure(FileNotFound) ==>
        && RowId(d, v) in State().rows
        && (filename in State().rows[RowId(d, v)].files ==>
              BlobKey(d, filename, State().rows[RowId(d, v)].files[filename].hash) !in State().blobs)
      ensures r.Failure? ==> r.error in {NotFound, FileNotFound} || (r.error == Unavailable && !Reliable())
    {
      hide S3Keys.WellKeyed, S3Keys.Decode;
      var info := metadataStore.DocumentVersionInfo(d, v);
      if info.Failure? {
        return Failure(info.error);
      }
      if filename !in info.value.files {
        return Failure(FileNotFound);
      }
      r := documentStore.ReadDocumentHashFile(d, filename, info.value.files[filename].hash);
    }
  }

  /** What a restore set out from: the stores, the backup, and whether the document had blobs. */
  datatype Plan = Plan(base: Stores, doc: HashedDocument, mode: Mode, docExisted: bool)
  {
    ghost predicate Valid() {
      && doc.WellFormed()
      && (docExisted <==> HasBlobs(base.blobs, doc.id))
    }

    /** The stores agreed at the start, so what becomes of both can be said. */
    ghost predicate Tracked() {
      mode.Normal? && doc.WellHashed() && ConsistentAt(base, doc.id)
    }

    /** The versions seen have been written or skipped. */
    ghost predicate Reached(p: Stores, seen: set<VersionTime>, created: seq<VersionTime>, createdDoc: bool)
      requires Valid()
    {
      && seen <= doc.versions.Keys
      && (createdDoc ==> seen != {} && !docExisted)
      && (!docExisted && !createdDoc ==> seen == {} && p == base)
      && (Tracked() ==> Merged(base.rows, p.rows, doc, seen))
      && (Tracked() ==> BlobsMerged(base.blobs, p.blobs, doc, Absent(base.rows, doc.id, seen)))
      && (Tracked() && !createdDoc ==> NoDuplicates(created) && Elements(created) == Absent(base.rows, doc.id, seen))
      && (Tracked() ==> Fits(base.rows, doc, seen))
      && Copied(p, seen, created)
    }

    /** In versions-exist mode: what was copied so far, which is nothing where blobs were stored already. */
    ghost predicate Copied(p: Stores, seen: set<VersionTime>, created: seq<VersionTime>) {
      mode.VersionsExist? ==>
        if docExisted then p == base && created == [] && forall v :: v in seen ==> RowId(doc.id, v) in base.rows
        else doc.WellHashed() ==> BlobsMerged(base.blobs, p.blobs, doc, seen) && forall v :: v in seen ==> CopyFits(base.rows, doc, v)
    }

    ghost predicate CopyFailed(p: Stores, out: Outcome)
      requires out.Failed?
    {
      mode.VersionsExist? ==>
        if docExisted then p == base
        else doc.WellHashed() ==>
          CopiedAtMost(base.blobs, p.blobs, doc) && (!out.metaLeft && !out.blobsLeft ==> p.blobs == base.blobs)
    }

    /** All versions of the backup are stored, and as the backup describes them if there are blobs to copy. */
    ghost predicate CopyReady() {
      if docExisted then forall v :: v in doc.versions ==> RowId(doc.id, v) in base.rows
      else forall v :: v in doc.versions ==> CopyFits(base.rows, doc, v)
    }

    ghost predicate Complete(p: Stores)
      requires Valid()
    {
      && (Tracked() ==>
            && Merged(base.rows, p.rows, doc, doc.versions.Keys)
            && BlobsMerged(base.blobs, p.blobs, doc, Absent(base.rows, doc.id, doc.versions.Keys))
            && Fits(base.rows, doc, doc.versions.Keys))
      && Copied(p, doc.versions.Keys, [])
    }

    ghost predicate Failed(p: Stores, out: Outcome)
      requires out.Failed?
    {
      && (Tracked() && !out.metaLeft ==> Undone(base, p, doc.id, !out.blobsLeft))
      && (Tracked() && out.metaLeft ==> RowsLeft(base, p, doc, !out.blobsLeft))
      && CopyFailed(p, out)
    }
  }

  lemma FilesAreThere(doc: HashedDocument, v: VersionTime, files: seq<File>)
    requires v in doc.versions && doc.Complete(v) && AllFilesOfVersion(doc, v, files)
    ensures doc.versions[v].fileHashes != map[] ==> files != []
  {
    if doc.versions[v].fileHashes != map[] {
      var n :| n in doc.versions[v].fileHashes;
      assert File(n, doc.hashedFiles[doc.versions[v].fileHashes[n]]) in files;
    }
  }

  /** Before the first version is written the rows are those of the start. */
  lemma FitsAsAtStart(base: Table, rows: Table, doc: HashedDocument, seen: set<VersionTime>, v: VersionTime)
    requires doc.WellFormed() && seen <= doc.versions.Keys && v in doc.versions && v !in seen
    requires Merged(base, rows, doc, seen) && RowId(doc.id, v) !in base
    requires doc.Predecessor(v).None? ==> seen == {}
    ensures VersionFits(rows, doc, v) <==> VersionFits(base, doc, v)
  {
    hide Describes, HashedDocument.WellFormed, HashedDocument.Predecessor, GenesisFree;
    if seen == {} {
      assert rows == base;
    }
  }

  /** A version that is neither stored nor written yet meets no row of its own, and the first one meets the rows of the start. */
  lemma ReadyToWrite(plan: Plan, p: Stores, seen: set<VersionTime>, v: VersionTime, created: seq<VersionTime>, createdDoc: bool)
    requires plan.Valid() && plan.Reached(p, seen, created, createdDoc)
    requires v in plan.doc.versions && v !in seen && forall w :: w in seen ==> w < v
    ensures ValidVersion(v) && plan.doc.versions[v].fileHashes != map[]
    ensures plan.Tracked() ==> plan.mode.Normal?
    ensures plan.Tracked() && !plan.docExisted ==> RowId(plan.doc.id, v) !in plan.base.rows
    ensures plan.Tracked() && RowId(plan.doc.id, v) !in plan.base.rows ==>
      (VersionFits(p.rows, plan.doc, v) <==> VersionFits(plan.base.rows, plan.doc, v))
    ensures Fits(plan.base.rows, plan.doc, plan.doc.versions.Keys) && RowId(plan.doc.id, v) !in plan.base.rows ==>
      VersionFits(plan.base.rows, plan.doc, v)
  {
    hide BlobsMerged, Merged, VersionFits;
    if plan.Tracked() {
      if HasRows(plan.base.rows, plan.doc.id) {
        RowsHaveBlobs(plan.base, plan.doc.id);
      }
      if plan.doc.Predecessor(v).None? {
        assert seen == {};
      }
      if RowId(plan.doc.id, v) !in plan.base.rows {
        FitsAsAtStart(plan.base.rows, p.rows, plan.doc, seen, v);
      }
    }
    hide ConsistentAt;
  }

  function HashesIn(info: VersionInfo): set<Hash> {
    set n | n in info.files :: info.files[n].hash
  }

  lemma NoBlobsLeft(blobs: Blobs, d: Id)
    ensures !HasBlobs(BlobsWithout(blobs, d), d)
  {
  }

  lemma RecreateBase(s: Stores, s': Stores, doc: HashedDocument)
    requires DeleteStep(s, s', doc.id, Done)
    ensures s' == Dropped(s, doc.id)
    ensures ConsistentAt(s', doc.id)
  {
  }

  lemma RecreateFailed(s: Stores, s': Stores, doc: HashedDocument, out: Outcome, mode: Mode)
    requires out.Failed? && (mode.Normal? ==> DeleteStep(s, s', doc.id, out)) && (out.metaLeft ==> s' == s)
    ensures mode.Normal? ==> s' == s || DeleteStep(s, s', doc.id, Failed(out.error, false, out.blobsLeft))
  {
  }

  lemma NothingReached(plan: Plan)
    requires plan.Valid()
    ensures plan.Reached(plan.base, {}, [], false)
  {
    NothingMerged(plan.base, plan.doc);
  }

  lemma AllReached(plan: Plan, p: Stores, seen: set<VersionTime>, created: seq<VersionTime>, createdDoc: bool)
    requires plan.Valid() && plan.Reached(p, seen, created, createdDoc) && forall v :: v in plan.doc.versions ==> v in seen
    ensures plan.Complete(p)
  {
    assert seen == plan.doc.versions.Keys;
  }

  lemma SkippedReached(plan: Plan, p: Stores, seen: set<VersionTime>, v: VersionTime, created: seq<VersionTime>, createdDoc: bool)
    requires plan.Valid() && plan.Reached(p, seen, created, createdDoc) && plan.docExisted
    requires v in plan.doc.versions && RowId(plan.doc.id, v) in plan.base.rows
    ensures plan.Reached(p, seen + {v}, created, createdDoc)
  {
    if plan.Tracked() {
      MergeSkips(plan.base, p, plan.doc, seen, v);
    }
  }

  lemma GenesisIsStuck(p: Stores, p': Stores, doc: HashedDocument, v: VersionTime, clean: bool)
    requires doc.WellFormed() && v in doc.versions && BuiltOn(p, p', doc.id, {v}, clean)
    requires RowId(doc.id, v) in p'.rows && doc.Complete(v) && Describes(doc, v, p'.rows[RowId(doc.id, v)])
    ensures RowsLeft(p, p', doc, clean)
  {
    hide Describes, HashedDocument.WellFormed, HashedDocument.Complete, BuiltOn;
    assert RowsDescribed(p'.rows, doc, {v});
    assert Stuck(p, p', doc, {v}, clean);
  }

  lemma GenesisOutcome(plan: Plan, p: Stores, p': Stores, seen: set<VersionTime>, v: VersionTime, files: seq<File>, out: Outcome)
    requires plan.Valid() && plan.Reached(p, seen, [], false) && !plan.docExisted
    requires v in plan.doc.versions && v !in seen && plan.doc.Predecessor(v).None?
    requires AllFilesOfVersion(plan.doc, v, files)
    requires plan.mode.Normal? ==>
      CreateStep(p, p', Create(plan.doc.companyID, plan.doc.id, plan.doc.versions[v].commitUserID, plan.doc.versions[v].commitReason, v, files, None), out)
    requires plan.mode.VersionsExist? ==> if out.Done? then plan.Copied(p', seen + {v}, []) else plan.CopyFailed(p', out)
    ensures out.Done? ==> plan.Reached(p', seen + {v}, [], true)
    ensures out.Failed? ==> plan.Failed(p', out)
  {
    hide CreateStep, AllFilesOfVersion, Describes, Merged, BlobsMerged, Absent, Undone, HashedDocument.Predecessor, BuiltOn, RowsLeft;
    var doc := plan.doc;
    var op := Create(doc.companyID, doc.id, doc.versions[v].commitUserID, doc.versions[v].commitReason, v, files, None);
    assert seen + {v} != {};
    if plan.Tracked() {
      if HasRows(plan.base.rows, doc.id) {
        RowsHaveBlobs(plan.base, doc.id);
      }
      if out.Failed? {
        FailedCreateIsUndone(p, p', op, out);
        if out.metaLeft {
          GenesisDescribes(doc, v, files);
          GenesisIsStuck(p, p', doc, v, !out.blobsLeft);
        }
      } else {
        GenesisDescribes(doc, v, files);
        CreatedRow(p, p', op);
        CreatedFits(p, p', op, doc, v);
        FitsMore(plan.base.rows, doc, seen, v);
        MergeAdds(plan.base, p, p', doc, seen, v, files);
      }
    }
  }

  /** The stores q after row and all blobs of version v were written to p. */
  lemma NextWritten(plan: Plan, p: Stores, q: Stores, seen: set<VersionTime>, v: VersionTime,
                    created: seq<VersionTime>, createdDoc: bool, written: seq<File>)
    requires plan.Valid() && plan.Reached(p, seen, created, createdDoc) && (plan.docExisted || createdDoc)
    requires v in plan.doc.versions && v !in seen
    requires q.blobs == PutAll(p.blobs, plan.doc.id, written) && AllFilesOfVersion(plan.doc, v, written)
    requires plan.mode.Normal? ==> RowWritten(plan.doc, v, p, q)
    requires plan.Tracked() ==> VersionFits(plan.base.rows, plan.doc, v)
    requires plan.mode.VersionsExist? ==> plan.Copied(q, seen + {v}, created + [v])
    ensures plan.Reached(q, seen + {v}, created + [v], createdDoc)
  {
    hide AllFilesOfVersion, Describes, Merged, BlobsMerged, Absent, Fits, VersionFits;
    var doc := plan.doc;
    assert seen + {v} != {};
    if plan.Tracked() {
      MergeAdds(plan.base, p, q, doc, seen, v, written);
      NotInBase(plan.base, p, doc, seen, v);
      NewVersionAbsent(plan.base, doc, seen, v, created);
      FitsMore(plan.base.rows, doc, seen, v);
    }
  }

  ghost predicate RowWritten(doc: HashedDocument, v: VersionTime, p: Stores, q: Stores)
    requires v in doc.versions && doc.Complete(v)
  {
    && RowId(doc.id, v) !in p.rows
    && RowId(doc.id, v) in q.rows
    && q.rows == p.rows[RowId(doc.id, v) := q.rows[RowId(doc.id, v)]]
    && Describes(doc, v, q.rows[RowId(doc.id, v)])
  }

  lemma NotInBase(base: Stores, p: Stores, doc: HashedDocument, seen: set<VersionTime>, v: VersionTime)
    requires doc.WellFormed() && seen <= doc.versions.Keys
    requires Merged(base.rows, p.rows, doc, seen) && RowId(doc.id, v) !in p.rows
    ensures RowId(doc.id, v) !in base.rows
  {
  }

  /** The stores q after a failure to write version v to p can be taken back. */
  lemma NextFailed(plan: Plan, p: Stores, q: Stores, seen: set<VersionTime>, v: VersionTime,
                   created: seq<VersionTime>, createdDoc: bool, wroteRow: bool, written: seq<File>)
    returns (versions: set<VersionTime>)
    requires plan.Valid() && plan.Reached(p, seen, created, createdDoc) && (plan.docExisted || createdDoc)
    requires v in plan.doc.versions && v !in seen
    requires !wroteRow ==> q == p
    requires wroteRow ==> q.blobs == PutAll(p.blobs, plan.doc.id, written) && FilesOfVersion(plan.doc, v, written)
    requires wroteRow && plan.mode.Normal? ==> RowWritten(plan.doc, v, p, q)
    ensures plan.Tracked() ==> plan.mode.Normal? && BuiltOn(plan.base, q, plan.doc.id, versions, true)
    ensures versions <= Absent(plan.base.rows, plan.doc.id, if wroteRow then seen + {v} else seen) || !plan.Tracked()
    ensures plan.Tracked() && createdDoc ==> versions != {} && !HasRows(plan.base.rows, plan.doc.id) && !HasBlobs(plan.base.blobs, plan.doc.id)
    ensures plan.Tracked() && !createdDoc ==>
      var created' := if wroteRow then created + [v] else created;
      NoDuplicates(created') && versions == Elements(created')
  {
    hide FilesOfVersion, Describes, Merged, BlobsMerged, Absent, BuiltOn, ConsistentAt;
    var doc := plan.doc;
    versions := Absent(plan.base.rows, doc.id, seen);
    if plan.Tracked() {
      MergedIsBuiltOn(plan.base, p, doc, seen);
      if HasRows(plan.base.rows, doc.id) {
        RowsHaveBlobs(plan.base, doc.id);
      }
      if createdDoc {
        CreatedDocHasVersions(plan.base, doc, seen);
      }
      if wroteRow {
        NotInBase(plan.base, p, doc, seen, v);
        PartialVersionIsBuiltOn(plan.base, p, q, doc, seen, v, written);
        NewVersionAbsent(plan.base, doc, seen, v, created);
        versions := versions + {v};
      }
    }
  }

  lemma RestoreTakenBack(plan: Plan, p: Stores, q: Stores, p': Stores, seen: set<VersionTime>, v: VersionTime,
                         created: seq<VersionTime>, createdDoc: bool, wroteRow: bool, written: seq<File>, versions: set<VersionTime>, out: Outcome)
    requires plan.Valid() && plan.Reached(p, seen, created, createdDoc) && (plan.docExisted || createdDoc)
    requires !wroteRow ==> q == p
    requires wroteRow ==> q.blobs == PutAll(p.blobs, plan.doc.id, written)
    requires out.Failed?
    requires plan.Tracked() && !out.metaLeft ==> Undone(plan.base, p', plan.doc.id, !out.blobsLeft)
    requires wroteRow && plan.mode.Normal? ==> v in plan.doc.versions && RowWritten(plan.doc, v, p, q)
    requires plan.Tracked() ==> plan.mode.Normal? && versions <= Absent(plan.base.rows, plan.doc.id, if wroteRow then seen + {v} else seen)
    requires plan.Tracked() && out.metaLeft ==> LeftAmong(plan.base, q, p', plan.doc.id, versions, !out.blobsLeft)
    requires plan.mode.VersionsExist? ==> plan.CopyFailed(p', out)
    ensures plan.Failed(p', out)
  {
    hide BlobsMerged, Undone, BlobsWithout, LeftAmong, Describes, HashedDocument.WellFormed, RowsLeft, BuiltOn, CopiedAtMost;
    if plan.Tracked() && out.metaLeft {
      assert RowsDescribed(q.rows, plan.doc, versions);
      LeftIsStuck(plan.base, q, p', plan.doc, versions, !out.blobsLeft);
    }
  }

  // ------------------------------------------------------- in versions-exist mode

  /** Row v is stored and is what the backup describes. */
  ghost predicate RowDescribed(rows: Table, doc: HashedDocument, v: VersionTime) {
    v in doc.versions && doc.Complete(v) && RowId(doc.id, v) in rows && Describes(doc, v, rows[RowId(doc.id, v)])
  }

  lemma RowDescribedMeans(rows: Table, doc: HashedDocument, v: VersionTime)
    requires v in doc.versions && doc.Complete(v)
    ensures RowDescribed(rows, doc, v) <==> RowId(doc.id, v) in rows && Describes(doc, v, rows[RowId(doc.id, v)])
    ensures CopyFits(rows, doc, v) <==> RowDescribed(rows, doc, v) && forall n :: n in doc.versions[v].fileHashes ==> SlashFree(n)
  {
  }

  /** Being the same version up to the order of the lists is being described by the same backup. */
  lemma SameVersionIsDescribed(doc: HashedDocument, v: VersionTime, a: VersionInfo, b: VersionInfo)
    requires v in doc.versions && doc.Complete(v) && Describes(doc, v, b)
    ensures SameVersion(a, b) <==> Describes(doc, v, a)
  {
    hide HashedDocument.PreviousHashes, HashedDocument.Predecessor, HashedDocument.FilesAt;
    if SameVersion(a, b) {
      SameElements(b.addedFiles, a.addedFiles);
      SameElements(b.removedFiles, a.removedFiles);
      SameElements(b.modifiedFiles, a.modifiedFiles);
    }
    if Describes(doc, v, a) {
      SameMembersDistinct(a.addedFiles, b.addedFiles);
      SameMembersDistinct(a.removedFiles, b.removedFiles);
      SameMembersDistinct(a.modifiedFiles, b.modifiedFiles);
    }
  }

  lemma GenesisStoredMeans(rows: Table, doc: HashedDocument, v: VersionTime, files: seq<File>, op: Operation)
    requires doc.WellHashed() && v in doc.versions && doc.Complete(v) && AllFilesOfVersion(doc, v, files) && doc.Predecessor(v).None?
    requires op == Create(doc.companyID, doc.id, doc.versions[v].commitUserID, doc.versions[v].commitReason, v, files, None)
    ensures CopyFits(rows, doc, v) <==> GenesisStored(rows, op) && AllSlashFree(files)
  {
    hide AllFilesOfVersion, Describes, HashedDocument.Predecessor, HashedDocument.Complete, HashedDocument.WellHashed, GenesisRow, SameVersion;
    GenesisDescribes(doc, v, files);
    NamesInList(doc, v, files);
    if RowId(doc.id, v) in rows {
      SameVersionIsDescribed(doc, v, rows[RowId(doc.id, v)], GenesisRow(op.companyID, op.docID, op.userID, op.reason, op.version, op.files));
    }
  }

  /** What was written of the files of a version is content of the backup. */
  lemma WritesAreCopies(doc: HashedDocument, v: VersionTime, files: seq<File>, blobs: Blobs, p: Blobs, p': Blobs)
    requires doc.WellHashed() && v in doc.versions && doc.Complete(v) && FilesOfVersion(doc, v, files)
    requires CopiedAtMost(blobs, p, doc) && OnlyWrites(p, p', doc.id, files)
    requires forall k :: k in blobs ==> k in p' && p'[k] == blobs[k]
    ensures CopiedAtMost(blobs, p', doc)
  {
    hide HashedDocument.WellHashed, HashedDocument.Complete, FilesOfVersion;
    forall k | k in p' && k !in blobs
      ensures InBackup(doc, doc.versions.Keys, k) && k.hash in doc.hashedFiles && p'[k] == doc.hashedFiles[k.hash]
    {
      if !(k in p && p'[k] == p[k]) {
        var f :| f in files && k == KeyOf(doc.id, InfoOf(f)) && p'[k] == f.data;
        WriteIsCopy(doc, v, files, f);
        assert v in doc.versions.Keys && VersionFile(doc, v, k);
      }
    }
  }

  lemma WriteIsCopy(doc: HashedDocument, v: VersionTime, files: seq<File>, f: File)
    requires doc.WellHashed() && v in doc.versions && doc.Complete(v) && FilesOfVersion(doc, v, files) && f in files
    ensures VersionFile(doc, v, KeyOf(doc.id, InfoOf(f)))
    ensures ContentHash(f.data) in doc.hashedFiles && f.data == doc.hashedFiles[ContentHash(f.data)]
  {
    BackupFileKey(doc, v, f);
  }

  lemma NothingCopied(blobs: Blobs, doc: HashedDocument)
    ensures CopiedAtMost(blobs, blobs, doc)
  {
  }

  lemma OthersUnwritten(blobs: Blobs, p: Blobs, d: Id)
    requires Grown(blobs, p, d) && !HasBlobs(blobs, d)
    ensures forall k :: k in blobs ==> k in p && p[k] == blobs[k]
  {
  }

  /** A whole restore in versions-exist mode, of which the plan is the part after the up-front delete. */
  lemma CopyEnds(s: Stores, plan: Plan, s': Stores, recreate: bool, out: Outcome)
    requires plan.Valid() && plan.mode.VersionsExist? && plan.doc.WellHashed()
    requires plan.base == s.(blobs := CopyBase(s, plan.doc, recreate)) && s'.rows == s.rows
    requires !recreate && plan.docExisted ==> BelongsTo(s.rows, plan.doc.id, plan.doc.companyID)
    requires recreate && HasBlobs(s.blobs, plan.doc.id) ==> HasRows(s.rows, plan.doc.id)
    requires if out.Done? then plan.Complete(s') else plan.Failed(s', out)
    ensures CopyStep(s, s', plan.doc, recreate, out)
    ensures plan.CopyReady() <==> CopyReady(s, plan.doc, recreate)
  {
    hide HashedDocument.WellFormed, HashedDocument.WellHashed, BlobsMerged, CopyFits, CopiedAtMost, BelongsTo, Plan.Tracked, BlobsWithout;
    NoBlobsLeft(s.blobs, plan.doc.id);
  }

  /** The first version of a copy. */
  lemma GenesisCopied(plan: Plan, p': Stores, v: VersionTime, files: seq<File>, op: Operation)
    requires plan.Valid() && plan.mode.VersionsExist? && !plan.docExisted
    requires v in plan.doc.versions && plan.doc.Predecessor(v).None? && plan.doc.Complete(v) && AllFilesOfVersion(plan.doc, v, files)
    requires op == Create(plan.doc.companyID, plan.doc.id, plan.doc.versions[v].commitUserID, plan.doc.versions[v].commitReason, v, files, None)
    requires GenesisStored(plan.base.rows, op) && AllSlashFree(files) && p'.blobs == PutAll(plan.base.blobs, plan.doc.id, files)
    ensures plan.Copied(p', {v}, [])
  {
    var doc := plan.doc;
    hide AllFilesOfVersion, CopyFits, GenesisStored, HashedDocument.Predecessor, HashedDocument.Complete, HashedDocument.WellHashed;
    hide BlobsMerged, PutAll, AllSlashFree, Merged, Absent;
    if doc.WellHashed() {
      GenesisStoredMeans(plan.base.rows, doc, v, files, op);
      NothingMerged(plan.base, doc);
      PutMergesVersion(plan.base.blobs, plan.base.blobs, doc, {}, v, files);
      assert {} + {v} == {v};
    }
  }

  lemma GenesisNotCopied(plan: Plan, p': Stores, v: VersionTime, files: seq<File>, op: Operation, out: Outcome, reliable: bool)
    requires plan.Valid() && plan.mode.VersionsExist? && !plan.docExisted && out.Failed?
    requires v in plan.doc.versions && plan.doc.Predecessor(v).None? && plan.doc.Complete(v) && AllFilesOfVersion(plan.doc, v, files)
    requires op == Create(plan.doc.companyID, plan.doc.id, plan.doc.versions[v].commitUserID, plan.doc.versions[v].commitReason, v, files, None)
    requires Grown(plan.base.blobs, p'.blobs, plan.doc.id) && OnlyWrites(plan.base.blobs, p'.blobs, plan.doc.id, files)
    requires reliable ==> !GenesisStored(plan.base.rows, op) || !AllSlashFree(files)
    requires !out.blobsLeft ==> p'.blobs == plan.base.blobs
    ensures plan.CopyFailed(p', out)
    ensures reliable && plan.doc.WellHashed() ==> !CopyFits(plan.base.rows, plan.doc, v)
  {
    var doc := plan.doc;
    hide AllFilesOfVersion, CopyFits, GenesisStored, HashedDocument.Predecessor, HashedDocument.Complete, HashedDocument.WellHashed;
    hide CopiedAtMost, OnlyWrites, Grown, PutAll, AllSlashFree;
    if doc.WellHashed() {
      GenesisStoredMeans(plan.base.rows, doc, v, files, op);
      FailedWritesAreCopies(doc, v, files, plan.base.blobs, p'.blobs);
    }
  }

  /** A first version whose create is in error does not fit. */
  lemma GenesisMisfit(p: Stores, doc: HashedDocument, v: VersionTime, op: Operation)
    requires v in doc.versions && doc.Predecessor(v).None? && !HasBlobs(p.blobs, doc.id)
    requires op.Create? && op.docID == doc.id && op.version == v && op.refusal.None? && ValidVersion(v) && op.files != []
    requires (forall f :: f in op.files ==> StorableName(f.name)) <==> forall n :: n in doc.versions[v].fileHashes ==> StorableName(n)
    requires CreateError(p, op).Some?
    ensures !VersionFits(p.rows, doc, v)
  {
    hide CreateError, HasBlobs, GenesisFree, HashedDocument.Predecessor, StorableName;
    CreateErrorMeans(p, op);
  }

  lemma FailedWritesAreCopies(doc: HashedDocument, v: VersionTime, files: seq<File>, blobs: Blobs, p: Blobs)
    requires doc.WellHashed() && v in doc.versions && doc.Complete(v) && AllFilesOfVersion(doc, v, files)
    requires !HasBlobs(blobs, doc.id) && Grown(blobs, p, doc.id) && OnlyWrites(blobs, p, doc.id, files)
    ensures CopiedAtMost(blobs, p, doc)
  {
    OthersUnwritten(blobs, p, doc.id);
    PrefixOfVersion(doc, v, files, |files|);
    assert files[..|files|] == files;
    NothingCopied(blobs, doc);
    hide *;
    WritesAreCopies(doc, v, files, blobs, blobs, p);
  }

  /** A later version of a copy. */
  lemma NextCopied(plan: Plan, p: Stores, q: Stores, seen: set<VersionTime>, v: VersionTime,
                   created: seq<VersionTime>, createdDoc: bool, written: seq<File>)
    requires plan.Valid() && plan.mode.VersionsExist? && plan.Reached(p, seen, created, createdDoc)
    requires CopyFits(plan.base.rows, plan.doc, v) && (plan.docExisted ==> RowId(plan.doc.id, v) !in plan.base.rows)
    requires q.blobs == PutAll(p.blobs, plan.doc.id, written) && AllFilesOfVersion(plan.doc, v, written)
    ensures plan.Copied(q, seen + {v}, created + [v])
  {
    assert !plan.docExisted;
    hide AllFilesOfVersion, CopyFits, HashedDocument.WellHashed, BlobsMerged, PutAll, Merged, Plan.Tracked;
    if plan.doc.WellHashed() {
      PutMergesVersion(plan.base.blobs, p.blobs, plan.doc, seen, v, written);
    }
  }

  lemma MergedIsCopied(blobs: Blobs, p: Blobs, doc: HashedDocument, seen: set<VersionTime>)
    requires BlobsMerged(blobs, p, doc, seen) && !HasBlobs(blobs, doc.id) && seen <= doc.versions.Keys
    ensures CopiedAtMost(blobs, p, doc)
  {
    forall k | k in p && k !in blobs ensures InBackup(doc, doc.versions.Keys, k) {
      var v :| v in seen && VersionFile(doc, v, k);
      assert v in doc.versions.Keys;
    }
  }

  lemma PutIsGrown(blobs: Blobs, p: Blobs, d: Id, files: seq<File>)
    requires !HasBlobs(blobs, d) && forall k :: k in blobs ==> k in p && p[k] == blobs[k]
    ensures OnlyWrites(p, PutAll(p, d, files), d, files)
    ensures forall k :: k in blobs ==> k in PutAll(p, d, files) && PutAll(p, d, files)[k] == blobs[k]
  {
    assert files[..|files|] == files;
    PutAllOnlyWrites(p, d, files, |files|);
    forall k | k in blobs ensures k in PutAll(p, d, files) && PutAll(p, d, files)[k] == blobs[k] {
      PutAllAt(p, d, files, k);
    }
  }

  lemma ShrunkIsCopied(blobs: Blobs, p: Blobs, p': Blobs, doc: HashedDocument)
    requires CopiedAtMost(blobs, p, doc) && !HasBlobs(blobs, doc.id) && Shrunk(p, p', doc.id)
    ensures CopiedAtMost(blobs, p', doc)
    ensures p' == BlobsWithout(p, doc.id) ==> p' == blobs
  {
    hide InBackup;
    if p' == BlobsWithout(p, doc.id) {
      forall k | k in p' ensures k in blobs {
        if k !in blobs { assert InBackup(doc, doc.versions.Keys, k); BackupKeyIsOfDoc(doc, k); }
      }
    }
  }

  lemma BackupKeyIsOfDoc(doc: HashedDocument, k: BlobKey)
    requires InBackup(doc, doc.versions.Keys, k)
    ensures k.doc == doc.id
  {
  }

  /** A copy that failed after its first version was written, or a merge into existing blobs that met a missing row. */
  lemma CopyTakenBack(plan: Plan, p: Stores, q: Stores, p': Stores, seen: set<VersionTime>, v: VersionTime,
                      created: seq<VersionTime>, createdDoc: bool, wroteRow: bool, written: seq<File>, out: Outcome)
    requires plan.Valid() && plan.mode.VersionsExist? && plan.Reached(p, seen, created, createdDoc) && (plan.docExisted || createdDoc)
    requires out.Failed? && v in plan.doc.versions && plan.doc.Complete(v)
    requires !wroteRow ==> q == p
    requires wroteRow ==> q.blobs == PutAll(p.blobs, plan.doc.id, written) && FilesOfVersion(plan.doc, v, written) && RowId(plan.doc.id, v) in plan.base.rows
    requires plan.docExisted ==> RowId(plan.doc.id, v) !in plan.base.rows
    requires !createdDoc && (if wroteRow then created + [v] else created) == [] ==> p' == q
    requires createdDoc ==> Shrunk(q.blobs, p'.blobs, plan.doc.id)
    requires createdDoc && !out.metaLeft && !out.blobsLeft ==> p'.blobs == BlobsWithout(q.blobs, plan.doc.id)
    ensures plan.CopyFailed(p', out)
  {
    hide BlobsMerged, Merged, Plan.Tracked, HashedDocument.WellHashed, FilesOfVersion, CopyFits, CopiedAtMost, Shrunk, BlobsWithout, PutAll;
    hide HashedDocument.WellFormed, HashedDocument.Complete;
    var doc, base := plan.doc, plan.base.blobs;
    if !plan.docExisted && doc.WellHashed() {
      MergedIsCopied(base, p.blobs, doc, seen);
      if wroteRow {
        CopiedKeeps(base, p.blobs, doc);
        PutIsGrown(base, p.blobs, doc.id, written);
        WritesAreCopies(doc, v, written, base, p.blobs, q.blobs);
      }
      ShrunkIsCopied(base, q.blobs, p'.blobs, doc);
    }
  }

  lemma CopiedKeeps(blobs: Blobs, p: Blobs, doc: HashedDocument)
    requires CopiedAtMost(blobs, p, doc)
    ensures forall k :: k in blobs ==> k in p && p[k] == blobs[k]
  {
  }

  lemma CopyReadyAt(plan: Plan, v: VersionTime)
    requires v in plan.doc.versions
    ensures plan.CopyReady() && !plan.docExisted ==> CopyFits(plan.base.rows, plan.doc, v)
    ensures plan.CopyReady() && plan.docExisted ==> RowId(plan.doc.id, v) in plan.base.rows
  {
  }

  lemma VersionIsStored(rows: Table, d: Id, v: VersionTime)
    ensures v in Ascending(Versions(rows, d)) <==> RowId(d, v) in rows
  {
    assert v in Ascending(Versions(rows, d)) <==> v in Versions(rows, d);
  }

  lemma NothingMerged(base: Stores, doc: HashedDocument)
    requires doc.WellFormed()
    ensures Merged(base.rows, base.rows, doc, {})
    ensures BlobsMerged(base.blobs, base.blobs, doc, {})
    ensures Absent(base.rows, doc.id, {}) == {}
  {
  }

  lemma MergeSkips(base: Stores, p: Stores, doc: HashedDocument, seen: set<VersionTime>, v: VersionTime)
    requires doc.WellFormed() && seen <= doc.versions.Keys && v in doc.versions && RowId(doc.id, v) in base.rows
    requires Merged(base.rows, p.rows, doc, seen)
    ensures Merged(base.rows, p.rows, doc, seen + {v})
    ensures Absent(base.rows, doc.id, seen + {v}) == Absent(base.rows, doc.id, seen)
  {
  }

  lemma MergeAddsRow(rows: Table, p: Table, p': Table, doc: HashedDocument, seen: set<VersionTime>, v: VersionTime)
    requires doc.WellFormed() && seen <= doc.versions.Keys && v in doc.versions && v !in seen
    requires Merged(rows, p, doc, seen)
    requires RowId(doc.id, v) !in p && RowId(doc.id, v) in p'
    requires p' == p[RowId(doc.id, v) := p'[RowId(doc.id, v)]]
    requires Describes(doc, v, p'[RowId(doc.id, v)])
    ensures Merged(rows, p', doc, seen + {v})
    ensures Absent(rows, doc.id, seen + {v}) == Absent(rows, doc.id, seen) + {v}
  {
    hide Describes, HashedDocument.WellFormed;
  }

  /** One more version of the backup, row and blobs. */
  lemma MergeAdds(base: Stores, p: Stores, p': Stores, doc: HashedDocument, seen: set<VersionTime>, v: VersionTime, files: seq<File>)
    requires doc.WellFormed() && doc.WellHashed() && seen <= doc.versions.Keys && v in doc.versions && v !in seen
    requires Merged(base.rows, p.rows, doc, seen)
    requires BlobsMerged(base.blobs, p.blobs, doc, Absent(base.rows, doc.id, seen))
    requires RowId(doc.id, v) !in p.rows && RowId(doc.id, v) in p'.rows
    requires p'.rows == p.rows[RowId(doc.id, v) := p'.rows[RowId(doc.id, v)]]
    requires Describes(doc, v, p'.rows[RowId(doc.id, v)])
    requires p'.blobs == PutAll(p.blobs, doc.id, files) && AllFilesOfVersion(doc, v, files)
    ensures Merged(base.rows, p'.rows, doc, seen + {v})
    ensures BlobsMerged(base.blobs, p'.blobs, doc, Absent(base.rows, doc.id, seen + {v}))
  {
    assert doc.Complete(v);
    hide AllFilesOfVersion, Describes, BlobsMerged, Merged, Absent, PutAll, HashedDocument.WellFormed;
    MergeAddsRow(base.rows, p.rows, p'.rows, doc, seen, v);
    PutMergesVersion(base.blobs, p.blobs, doc, Absent(base.rows, doc.id, seen), v, files);
  }

  lemma NewVersionAbsent(base: Stores, doc: HashedDocument, seen: set<VersionTime>, v: VersionTime, created: seq<VersionTime>)
    requires v !in seen && RowId(doc.id, v) !in base.rows
    ensures Absent(base.rows, doc.id, seen + {v}) == Absent(base.rows, doc.id, seen) + {v}
    ensures NoDuplicates(created) && Elements(created) == Absent(base.rows, doc.id, seen) ==>
      NoDuplicates(created + [v]) && Elements(created + [v]) == Absent(base.rows, doc.id, seen) + {v}
  {
    if NoDuplicates(created) && Elements(created) == Absent(base.rows, doc.id, seen) {
      assert v !in created by { assert v !in Elements(created); }
    }
  }

  lemma PartialVersionIsBuiltOn(base: Stores, p: Stores, p': Stores, doc: HashedDocument, seen: set<VersionTime>, v: VersionTime, written: seq<File>)
    requires doc.WellFormed() && doc.WellHashed() && v in doc.versions
    requires BuiltOn(base, p, doc.id, Absent(base.rows, doc.id, seen), true)
    requires RowId(doc.id, v) !in p.rows && RowId(doc.id, v) in p'.rows
    requires p'.rows == p.rows[RowId(doc.id, v) := p'.rows[RowId(doc.id, v)]]
    requires Describes(doc, v, p'.rows[RowId(doc.id, v)])
    requires p'.blobs == PutAll(p.blobs, doc.id, written) && FilesOfVersion(doc, v, written)
    ensures BuiltOn(base, p', doc.id, Absent(base.rows, doc.id, seen) + {v}, true)
    ensures RowId(doc.id, v) !in base.rows
  {
    var versions := Absent(base.rows, doc.id, seen);
    var info := p'.rows[RowId(doc.id, v)];
    var p1 := p.(rows := p'.rows);
    assert RowId(doc.id, v) !in base.rows;
    InsertKeepsBuiltOn(base, p, doc.id, versions, v, info, true);
    forall f | f in written ensures Referenced(p1.rows, doc.id, ContentHash(f.data)) {
      BackupFileKey(doc, v, f);
      DescribedVersionHas(doc, v, info, KeyOf(doc.id, InfoOf(f)));
    }
    PutKeepsBuiltOn(base, p1, doc.id, versions + {v}, v, written, true);
  }

  lemma CreatedDocHasVersions(base: Stores, doc: HashedDocument, seen: set<VersionTime>)
    requires !HasRows(base.rows, doc.id) && seen != {}
    ensures Absent(base.rows, doc.id, seen) != {}
  {
    var v :| v in seen;
    assert RowId(doc.id, v).doc == doc.id;
    assert v in Absent(base.rows, doc.id, seen);
  }

  lemma FitsMore(rows: Table, doc: HashedDocument, seen: set<VersionTime>, v: VersionTime)
    requires seen <= doc.versions.Keys && v in doc.versions
    requires Fits(rows, doc, seen) && VersionFits(rows, doc, v)
    ensures Fits(rows, doc, seen + {v})
  {
  }

  /** A first version that was created did fit. */
  lemma CreatedFits(s: Stores, s': Stores, op: Operation, doc: HashedDocument, v: VersionTime)
    requires op.Create? && CreateStep(s, s', op, Done) && op.docID == doc.id && op.version == v
    requires v in doc.versions && doc.Complete(v) && AllFilesOfVersion(doc, v, op.files)
    ensures VersionFits(s.rows, doc, v)
  {
    NamesInList(doc, v, op.files);
  }

  lemma RowFitsWithNames(rows: Table, doc: HashedDocument, v: VersionTime)
    requires v in doc.versions
    ensures VersionFits(rows, doc, v) <==> RowFits(rows, doc, v) && forall n :: n in doc.versions[v].fileHashes ==> SlashFree(n)
  {
  }

  lemma CreatedRow(s: Stores, s': Stores, op: Operation)
    requires op.Create? && CreateStep(s, s', op, Done)
    ensures RowId(op.docID, op.version) !in s.rows
    ensures s'.rows == s.rows[RowId(op.docID, op.version) := GenesisRow(op.companyID, op.docID, op.userID, op.reason, op.version, op.files)]
    ensures s'.blobs == PutAll(s.blobs, op.docID, op.files)
  {
  }

  lemma FailedCreateIsUndone(s: Stores, s': Stores, op: Operation, out: Outcome)
    requires op.Create? && CreateStep(s, s', op, out) && out.Failed?
    requires !HasRows(s.rows, op.docID) && !HasBlobs(s.blobs, op.docID) && op.refusal.None?
    ensures !out.metaLeft ==> Undone(s, s', op.docID, !out.blobsLeft)
    ensures out.metaLeft ==> BuiltOn(s, s', op.docID, {op.version}, !out.blobsLeft)
    ensures out.metaLeft ==> s'.rows == s.rows[RowId(op.docID, op.version) := GenesisRow(op.companyID, op.docID, op.userID, op.reason, op.version, op.files)]
  {
  }

  ghost function Elements(versions: seq<VersionTime>): set<VersionTime> {
    set v | v in versions
  }

  lemma DropLast(created: seq<VersionTime>, i: nat, stuck: set<VersionTime>)
    requires i < |created| && NoDuplicates(created) && created[i] !in stuck
    ensures (Elements(created[..i + 1]) + stuck) - {created[i]} == Elements(created[..i]) + stuck
  {
    assert created[..i + 1] == created[..i] + [created[i]];
  }

  lemma DeletionFailed(p: Stores, p': Stores, d: Id, v: VersionTime, out: Outcome)
    requires DeleteVersionStep(p, p', d, v, out) && out.Failed? && out.metaLeft
    ensures p' == p
  {
  }

  ghost predicate OnlyFewerRows(rows: Table, rows': Table) {
    forall k :: k in rows' ==> k in rows && rows'[k] == rows[k]
  }

  /** p' is p with some of the given versions deleted again, and some of them not. */
  ghost predicate LeftAmong(base: Stores, p: Stores, p': Stores, d: Id, versions: set<VersionTime>, clean: bool) {
    && OnlyFewerRows(p.rows, p'.rows)
    && exists left :: left != {} && left <= versions && BuiltOn(base, p', d, left, clean)
  }

  lemma NoFewerRows(rows: Table)
    ensures OnlyFewerRows(rows, rows)
  {
  }

  lemma DeletionLeavesFewer(rows: Table, p: Stores, p': Stores, d: Id, v: VersionTime, out: Outcome)
    requires OnlyFewerRows(rows, p.rows) && DeleteVersionStep(p, p', d, v, out) && (out.Failed? ==> !out.metaLeft)
    ensures OnlyFewerRows(rows, p'.rows)
  {
    DeletionEffect(p, p', d, v, out);
    hide DeleteVersionStep, SoleHashes;
  }

  lemma SomeAreLeft(base: Stores, p: Stores, p': Stores, d: Id, left: set<VersionTime>, versions: set<VersionTime>, clean: bool)
    requires OnlyFewerRows(p.rows, p'.rows) && left != {} && left <= versions && BuiltOn(base, p', d, left, clean)
    ensures LeftAmong(base, p, p', d, versions, clean)
  {
  }

  /** Rows of the backup that could not be deleted again are still what the backup says. */
  lemma LeftIsStuck(base: Stores, p: Stores, p': Stores, doc: HashedDocument, versions: set<VersionTime>, clean: bool)
    requires doc.WellFormed() && versions <= doc.versions.Keys && RowsDescribed(p.rows, doc, versions)
    requires LeftAmong(base, p, p', doc.id, versions, clean)
    ensures RowsLeft(base, p', doc, clean)
  {
    var left :| left != {} && left <= versions && BuiltOn(base, p', doc.id, left, clean);
    hide *;
    forall v | v in left
      ensures v in doc.versions && doc.Complete(v) && RowId(doc.id, v) in p'.rows && Describes(doc, v, p'.rows[RowId(doc.id, v)])
    {
      LeftRow(base, p, p', doc, versions, left, clean, v);
    }
    LeftRowsAreStuck(base, p', doc, left, clean);
  }

  lemma LeftRow(base: Stores, p: Stores, p': Stores, doc: HashedDocument, versions: set<VersionTime>, left: set<VersionTime>, clean: bool, v: VersionTime)
    requires doc.WellFormed() && versions <= doc.versions.Keys && RowsDescribed(p.rows, doc, versions)
    requires LeftAmong(base, p, p', doc.id, versions, clean) && BuiltOn(base, p', doc.id, left, clean)
    requires v in left && left <= versions
    ensures v in doc.versions && doc.Complete(v) && RowId(doc.id, v) in p'.rows && Describes(doc, v, p'.rows[RowId(doc.id, v)])
  {
    AllComplete(doc);
    BuiltRowsAreThere(base, p', doc.id, left, clean);
    hide HashedDocument.WellFormed, Describes, HashedDocument.Complete, BuiltOn;
    assert v in versions && RowId(doc.id, v) in p'.rows;
  }

  lemma LeftRowsAreStuck(base: Stores, p: Stores, doc: HashedDocument, left: set<VersionTime>, clean: bool)
    requires doc.WellFormed() && left != {} && BuiltOn(base, p, doc.id, left, clean)
    requires forall v :: v in left ==>
      v in doc.versions && doc.Complete(v) && RowId(doc.id, v) in p.rows && Describes(doc, v, p.rows[RowId(doc.id, v)])
    ensures RowsLeft(base, p, doc, clean)
  {
    hide HashedDocument.WellFormed, Describes, HashedDocument.Complete, BuiltOn;
    assert Stuck(base, p, doc, left, clean);
  }

  lemma BuiltRowsAreThere(base: Stores, p: Stores, d: Id, versions: set<VersionTime>, clean: bool)
    requires BuiltOn(base, p, d, versions, clean)
    ensures forall v :: v in versions ==> RowId(d, v) in p.rows
  {
    hide Referenced;
  }

  /** Deleting a document that was created here undoes its creation. */
  lemma DroppingUndoes(base: Stores, p: Stores, p': Stores, d: Id, versions: set<VersionTime>, out: Outcome)
    requires BuiltOn(base, p, d, versions, true) && DeleteStep(p, p', d, out)
    requires !HasRows(base.rows, d) && !HasBlobs(base.blobs, d)
    requires versions != {}
    ensures out.Done? || !out.metaLeft ==> Undone(base, p', d, out.Done? || !out.blobsLeft)
    ensures out.Failed? && out.metaLeft ==> LeftAmong(base, p, p', d, versions, !out.blobsLeft)
  {
    if out.Done? || !out.metaLeft {
      assert RowsWithout(p.rows, d) == base.rows;
    } else {
      assert BuiltOn(base, p', d, versions, !out.blobsLeft);
    }
  }

  lemma NothingPurged(blobs: Blobs, d: Id, hashes: seq<Hash>)
    requires hashes == []
    ensures blobs == Purged(blobs, d, set h | h in hashes)
  {
  }

  /** Deleting the one new row and the hashes it alone refers to undoes the write. */
  lemma RollbackUndoes(s: Stores, p: Stores, p': Stores, d: Id, v: VersionTime, hashes: seq<Hash>, clean: bool, blobsLeft: bool)
    requires BuiltOn(s, p, d, {v}, clean) && RowId(d, v) in p.rows
    requires p'.rows == p.rows - {RowId(d, v)}
    requires forall h :: h in hashes <==> h in SoleHashes(p.rows, d, v)
    requires forall k :: k in p'.blobs ==> k in p.blobs && p'.blobs[k] == p.blobs[k]
    requires forall k :: k in p.blobs && !(k.doc == d && k.hash in hashes) ==> k in p'.blobs
    requires !blobsLeft ==> p'.blobs == Purged(p.blobs, d, set h | h in hashes) || !HasBlobs(p'.blobs, d)
    ensures Undone(s, p', d, clean && !blobsLeft)
  {
    if !blobsLeft {
      assert p'.blobs == Purged(p.blobs, d, SoleHashes(p.rows, d, v));
    }
    DeletionKeepsBuiltOn(s, p, p', d, {v}, v, clean, if blobsLeft then Failed(Unavailable, false, true) else Done);
    assert {v} - {v} == {};
    NothingLeftIsUndone(s, p', d, clean && !blobsLeft);
  }

  lemma NothingHappened(s: Stores, d: Id, clean: bool)
    ensures Undone(s, s, d, clean)
  {
  }

  /** What an append inserts. */
  lemma AppendInput(s: Stores, op: Operation, input: CreateDocumentVersionInput, prev: VersionInfo)
    requires op.Add? && op.result.Some? && op.result.value.Valid() && HasRows(s.rows, op.docID) && RowsKeyed(s.rows)
    requires prev == s.rows[RowId(op.docID, Latest(s.rows, op.docID))] && op.result.value.version > prev.version
    requires input.docID == op.docID && input.userID == op.userID && input.reason == op.reason
    requires input.companyID == op.result.value.newCompanyID.GetOr(prev.companyID)
    requires input.newVersion == op.result.value.version && input.previousVersion == Some(prev.version)
    requires input.addedFiles == Labelled(s.blobs, op.docID, prev, InfosOf(op.result.value.writeFiles), false)
    requires input.modifiedFiles == Labelled(s.blobs, op.docID, prev, InfosOf(op.result.value.writeFiles), true)
    requires input.removedFiles == op.result.value.removeFiles
    requires input.files == Some(AppendedFiles(prev.files, op.result.value)) && input.files.value != map[]
    ensures NewInfo(s.rows, input).files == input.files.value
    ensures NamesAllowed(input.files.value) ==> Appends(s, op, NewInfo(s.rows, input))
    ensures NewInfo(s.rows, input).files == Overlay(Without(prev.files, op.result.value.removeFiles), InfosOf(op.result.value.writeFiles))
    ensures RowId(op.docID, op.result.value.version) !in s.rows
  {
  }

  lemma MisnamedGenesis(s: Stores, op: Operation)
    requires op.Create?
    ensures !AllSlashFree(op.files) ==> GenesisError(s, op) == Some(InvalidInput)
  {
  }

  /** The answer of the metadata store to a first version whose blobs are written. */
  lemma GenesisAnswered(s: Stores, op: Operation, input: CreateDocumentVersionInput, r: Result<VersionInfo, Error>, mode: Mode, reliable: bool)
    requires op.Create? && AllSlashFree(op.files) && !HasBlobs(s.blobs, op.docID) && ValidVersion(op.version) && op.files != []
    requires input.previousVersion.None? && input.files.None? && input.docID == op.docID && input.newVersion == op.version
    requires NewInfo(s.rows, input) == GenesisRow(op.companyID, op.docID, op.userID, op.reason, op.version, op.files)
    requires NewInfo(s.rows, input).files == Overlay(map[], InfosOf(op.files))
    requires r.Success? ==> r.value == NewInfo(s.rows, input)
    requires r.Success? && mode.Normal? ==> Insertable(s.rows, input) && NamesAllowed(r.value.files)
    requires r.Success? && mode.VersionsExist? ==> input.RowId() in s.rows && SameVersion(s.rows[input.RowId()], r.value)
    requires r.Failure? ==> r.error in {AlreadyExists, InvalidInput, NotAsStored, NotFound, Unavailable}
    requires r == Failure(AlreadyExists) ==> mode.Normal? && !Insertable(s.rows, input)
    requires r == Failure(InvalidInput) ==> mode.Normal? && Insertable(s.rows, input) && !NamesAllowed(NewInfo(s.rows, input).files)
    requires r == Failure(NotAsStored) ==> mode.VersionsExist? && input.RowId() in s.rows && !SameVersion(s.rows[input.RowId()], NewInfo(s.rows, input))
    requires r == Failure(NotFound) ==> mode.VersionsExist? && input.RowId() !in s.rows
    requires r == Failure(Unavailable) ==> !reliable
    ensures mode.Normal? && r.Success? ==> Creatable(s, op) && RowId(op.docID, op.version) !in s.rows && GenesisError(s, op) == op.refusal
    ensures mode.Normal? && r.Failure? ==> GenesisError(s, op) == Some(r.error) || (r.error == Unavailable && !reliable)
    ensures mode.Normal? && r == Failure(AlreadyExists) ==> !GenesisFree(s.rows, op.docID, op.version)
    ensures mode.VersionsExist? && r.Success? ==> GenesisStored(s.rows, op)
    ensures mode.VersionsExist? && r.Failure? ==> !GenesisStored(s.rows, op) || !reliable
  {
    hide GenesisRow, Overlay, SameVersion, GenesisFree;
    CreatableInput(s, op);
    GenesisNames(op.files);
    GenesisInsertable(s.rows, input);
  }

  /** What the blob store, the file table and the unique constraints ask of a create of a document without blobs. */
  lemma CreatableInput(s: Stores, op: Operation)
    requires op.Create? && ValidVersion(op.version) && op.files != [] && !HasBlobs(s.blobs, op.docID)
    ensures Creatable(s, op) <==>
      AllSlashFree(op.files) && NamesAllowed(Overlay(map[], InfosOf(op.files))) && GenesisFree(s.rows, op.docID, op.version)
  {
    GenesisNames(op.files);
  }

  /** In versions-exist mode: the row of a create is stored, up to the order of its lists. */
  ghost predicate GenesisStored(rows: Table, op: Operation)
    requires op.Create?
  {
    && RowId(op.docID, op.version) in rows
    && SameVersion(rows[RowId(op.docID, op.version)], GenesisRow(op.companyID, op.docID, op.userID, op.reason, op.version, op.files))
  }

  lemma GenesisInsertable(rows: Table, input: CreateDocumentVersionInput)
    requires input.previousVersion.None?
    ensures Insertable(rows, input) <==> GenesisFree(rows, input.docID, input.newVersion)
    ensures Insertable(rows, input) ==> input.RowId() !in rows
  {
  }

  lemma RowTakenBack(rows: Table, rows': Table, k: RowId)
    ensures k !in rows && k in rows' && rows' == rows[k := rows'[k]] ==> rows == rows' - {k}
  {
  }

  /** A create that failed after its existence check. */
  lemma CreateFails(s: Stores, s': Stores, op: Operation, out: Outcome)
    requires op.Create? && out.Failed? && !HasBlobs(s.blobs, op.docID) && Grown(s.blobs, s'.blobs, op.docID)
    requires ValidVersion(op.version) && op.files != [] && OnlyWrites(s.blobs, s'.blobs, op.docID, op.files)
    requires !out.metaLeft ==> s'.rows == s.rows
    requires out.metaLeft ==> (RowId(op.docID, op.version) !in s.rows
               && s'.rows == s.rows[RowId(op.docID, op.version) := GenesisRow(op.companyID, op.docID, op.userID, op.reason, op.version, op.files)])
    requires out.error != AlreadyExists && !out.blobsLeft ==> s'.blobs == s.blobs
    requires out.error == AlreadyExists ==> s'.blobs == PutAll(s.blobs, op.docID, op.files)
    requires out.error == AlreadyExists ==>
      !GenesisFree(s.rows, op.docID, op.version) || (Creatable(s, op) && op.refusal == Some(AlreadyExists))
    ensures CreateStep(s, s', op, out)
  {
    hide Creatable, Grown, PutAll, GenesisFree, GenesisRow, HasBlobs, OnlyWrites;
  }

  lemma CreateSucceeds(s: Stores, s': Stores, op: Operation)
    requires op.Create? && Creatable(s, op) && op.refusal.None?
    requires s'.rows == s.rows[RowId(op.docID, op.version) := GenesisRow(op.companyID, op.docID, op.userID, op.reason, op.version, op.files)]
    requires s'.blobs == PutAll(s.blobs, op.docID, op.files)
    ensures CreateStep(s, s', op, Done)
  {
    hide Creatable, PutAll, GenesisRow;
  }

  /** What a genesis write inserts. */
  lemma GenesisInput(rows: Table, input: CreateDocumentVersionInput, files: seq<File>)
    requires input.previousVersion.None? && input.files.None?
    requires input.addedFiles == InfosOf(files) && input.modifiedFiles == [] && input.removedFiles == []
    ensures NewInfo(rows, input) == GenesisRow(input.companyID, input.docID, input.userID, input.reason, input.newVersion, files)
    ensures NewInfo(rows, input).files == Overlay(map[], InfosOf(files))
  {
    assert Without(map[], []) == map[];
    assert NamesOf([]) == [];
  }

  /** Dropping all blobs of a document that had none undoes what was written. */
  lemma DroppedGrowth(before: Blobs, grown: Blobs, after: Blobs, d: Id)
    requires !HasBlobs(before, d) && Grown(before, grown, d)
    requires Shrunk(grown, after, d) || after == BlobsWithout(grown, d)
    ensures Grown(before, after, d)
    ensures after == BlobsWithout(grown, d) || (!HasBlobs(grown, d) && after == grown) ==> after == before
  {
  }

  /** The stores after the row and the first n blobs of an append are built on those before. */
  lemma WrittenIsBuiltOn(s: Stores, p: Stores, d: Id, info: VersionInfo, prev: FileMap, result: CreateVersionResult, n: nat)
    requires n <= |result.writeFiles| && RowId(d, result.version) !in s.rows
    requires p.rows == s.rows[RowId(d, result.version) := info]
    requires p.blobs == PutAll(s.blobs, d, result.writeFiles[..n])
    requires info.files == Overlay(prev, InfosOf(result.writeFiles))
    ensures BuiltOn(s, p, d, {result.version}, NothingLost(s.rows, d, result.writeFiles))
    ensures Grown(s.blobs, p.blobs, d) && OnlyWrites(s.blobs, p.blobs, d, result.writeFiles)
  {
    hide OnlyWrites;
    PutAllGrows(s.blobs, d, result.writeFiles[..n]);
    PutAllOnlyWrites(s.blobs, d, result.writeFiles, n);
    hide BuiltOn, Grown, OnlyWrites, Overlay, NothingLost, PutAll, Referenced;
    var clean, v := NothingLost(s.rows, d, result.writeFiles), result.version;
    RowIsBuiltOn(s, d, v, info, clean);
    if clean {
      assert p.rows - {RowId(d, v)} == s.rows;
      WritesAreReferenced(p.rows, d, v, prev, result.writeFiles);
      assert forall f :: f in result.writeFiles[..n] ==> f in result.writeFiles;
    }
    PutKeepsBuiltOn(s, s.(rows := p.rows), d, {v}, v, result.writeFiles[..n], clean);
  }

  lemma RowIsBuiltOn(s: Stores, d: Id, v: VersionTime, info: VersionInfo, clean: bool)
    requires RowId(d, v) !in s.rows
    ensures BuiltOn(s, s.(rows := s.rows[RowId(d, v) := info]), d, {v}, clean)
  {
    NothingIsBuilt(s, d, clean);
    hide BuiltOn;
    InsertKeepsBuiltOn(s, s, d, {}, v, info, clean);
    assert {} + {v} == {v};
  }

  /** An append that failed, where p are the stores before its rollback. */
  lemma AppendFails(s: Stores, p: Stores, s': Stores, op: Operation, out: Outcome)
    requires op.Add? && op.result.Some? && out.Failed? && Planned(s, op)
    requires OnlyWrites(s.blobs, s'.blobs, op.docID, op.result.value.writeFiles)
    requires !out.metaLeft ==> Undone(s, s', op.docID, !out.blobsLeft && NothingLost(s.rows, op.docID, op.result.value.writeFiles))
    requires out.metaLeft ==> s' == p && Grown(s.blobs, p.blobs, op.docID)
    requires out.metaLeft ==> var k := RowId(op.docID, op.result.value.version);
                              k in p.rows && Appends(s, op, p.rows[k]) && p.rows == s.rows[k := p.rows[k]]
    ensures AddStep(s, s', op, out)
  {
    hide OnlyWrites, Undone, NothingLost, Grown, Appends, Planned;
  }

  lemma AppendSucceeds(s: Stores, s': Stores, op: Operation)
    requires op.Add? && ValidId(op.docID) && ValidId(op.userID) && op.result.Some? && AllSlashFree(op.result.value.writeFiles)
    requires var k := RowId(op.docID, op.result.value.version);
             k in s'.rows && Appends(s, op, s'.rows[k]) && s'.rows == s.rows[k := s'.rows[k]]
    requires s'.blobs == PutAll(s.blobs, op.docID, op.result.value.writeFiles)
    ensures AddStep(s, s', op, Done)
  {
    hide PutAll, AppendedFiles, Labelled, NamesAllowed, Latest;
  }

  lemma NothingIsBuilt(s: Stores, d: Id, clean: bool)
    ensures BuiltOn(s, s, d, {}, clean)
  {
  }

  /** A provider has a name exactly when the listing of the version does. */
  lemma ProviderHasFile(p: FileProvider, blobs: Blobs, d: Id, prev: VersionInfo, name: Name)
    requires ProvidesHashes(p, blobs, d, HashesIn(prev))
    ensures (exists k :: k in p.keys && S3Keys.FilenameFromKey(k) == name) <==> ProviderHas(blobs, d, prev, name)
  {
    if exists k :: k in p.keys && S3Keys.FilenameFromKey(k) == name {
      var s :| s in p.keys && S3Keys.FilenameFromKey(s) == name;
      var k := S3Keys.ParseKey(s);
      assert k in blobs && k.doc == d && k.name == name;
      assert RowHas(prev, k.hash);
    }
    if ProviderHas(blobs, d, prev, name) {
      var k :| k in blobs && k.doc == d && k.name == name && RowHas(prev, k.hash);
      var n :| n in prev.files && prev.files[n].hash == k.hash;
      var s := S3Keys.KeyString(k);
      assert s in p.keys;
      if !SlashFree(k.name) {
        TooManyParts(k.doc, k.name, k.hash);
        assert false;
      }
      S3Keys.KeyParts(k.doc, k.name, k.hash);
    }
  }
}
