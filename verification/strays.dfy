/** Which writes keep the documents of a split store readable. */
module Strays {
  import opened Documents
  import opened HashedDocuments
  import opened SplitStore
  import opened StoreInvariants
  import opened Providers
  import opened ReadBack
  import opened Syncing

  // ------------------------------------------------------------- any write

  /** What a caller can check of a row and its files beforehand: no stored file and no write misnames a hash of any version. */
  predicate NamesFit(s: Stores, d: Id, info: VersionInfo, files: seq<File>) {
    && (forall k :: k in s.blobs && k.doc == d && k.name != "" ==> !Misnames(info, k.name, k.hash))
    && (forall f :: f in files && f.name != "" ==> WriteFits(s.rows, d, info, f))
  }

  predicate WriteFits(rows: Table, d: Id, info: VersionInfo, f: File) {
    && !Misnames(info, f.name, ContentHash(f.data))
    && forall r :: r in rows && r.doc == d ==> !Misnames(rows[r], f.name, ContentHash(f.data))
  }

  lemma WriteKeepsNoStraysIff(s: Stores, s': Stores, k: RowId, files: seq<File>)
    requires k !in s.rows && k in s'.rows && s'.rows == s.rows[k := s'.rows[k]]
    requires s'.blobs == PutAll(s.blobs, k.doc, files)
    requires NoStrays(s, k.doc)
    ensures NoStrays(s', k.doc) <==> NamesFit(s, k.doc, s'.rows[k], files)
  {
    hide Misnames;
    forall b ensures b in s'.blobs <==> b in s.blobs || exists f :: f in files && b == KeyOf(k.doc, InfoOf(f)) {
      PutAllAt(s.blobs, k.doc, files, b);
    }
    if NamesFit(s, k.doc, s'.rows[k], files) {
      forall v, b | RowId(k.doc, v) in s'.rows && b in s'.blobs ensures !Stray(k.doc, s'.rows[RowId(k.doc, v)], b) {
        if RowId(k.doc, v) != k {
          assert NoStray(s.blobs, k.doc, s.rows[RowId(k.doc, v)]);
        }
      }
    }
    if NoStrays(s', k.doc) {
      assert k == RowId(k.doc, k.version);
      assert NoStray(s'.blobs, k.doc, s'.rows[k]);
      forall f | f in files && f.name != "" ensures WriteFits(s.rows, k.doc, s'.rows[k], f) {
        var b := KeyOf(k.doc, InfoOf(f));
        assert !Stray(k.doc, s'.rows[k], b);
        forall r | r in s.rows && r.doc == k.doc ensures !Misnames(s.rows[r], f.name, ContentHash(f.data)) {
          assert r == RowId(k.doc, r.version);
          assert NoStray(s'.blobs, k.doc, s'.rows[r]) && !Stray(k.doc, s'.rows[r], b);
        }
      }
    }
  }

  /** In a store without garbage and strays the stored files are the files of the versions. */
  lemma StoredFilesAreOfVersions(s: Stores, k: BlobKey)
    requires Exact(s) && NoStrays(s, k.doc) && k.name != ""
    ensures k in s.blobs <==> exists r, n :: r in s.rows && r.doc == k.doc && n in s.rows[r].files && KeyOf(k.doc, s.rows[r].files[n]) == k
  {
    if k in s.blobs {
      var r :| r in s.rows && r.doc == k.doc && RowHas(s.rows[r], k.hash);
      assert r == RowId(k.doc, r.version);
      assert NoStray(s.blobs, k.doc, s.rows[r]) && !Stray(k.doc, s.rows[r], k);
      assert RowWellFormed(r, s.rows[r]);
      assert KeyOf(k.doc, s.rows[r].files[k.name]) == k;
    }
    if r, n :| r in s.rows && r.doc == k.doc && n in s.rows[r].files && KeyOf(k.doc, s.rows[r].files[n]) == k {
      assert RowBacked(r.doc, s.rows[r], s.blobs);
    }
  }

  // ------------------------------------------------------- appends and creates

  /** An append keeps a readable document readable exactly when the names fit. */
  lemma AppendKeepsReadableIff(s: Stores, s': Stores, op: Operation)
    requires op.Add? && AddStep(s, s', op, Done) && NoStrays(s, op.docID)
    ensures var prev := s.rows[RowId(op.docID, Latest(s.rows, op.docID))];
            NoStrays(s', op.docID) <==>
              NamesFit(s, op.docID, AppendedRow(s.blobs, prev, op.docID, op.userID, op.reason, op.result.value), op.result.value.writeFiles)
  {
    hide Latest, AppendedRow, NamesFit, NoStrays, PutAll;
    WriteKeepsNoStraysIff(s, s', RowId(op.docID, op.result.value.version), op.result.value.writeFiles);
  }

  /** An append that fails and takes its row back keeps it readable whenever its writes fit the stored versions. */
  lemma FailedAppendKeepsReadable(s: Stores, s': Stores, op: Operation, out: Outcome)
    requires op.Add? && AddStep(s, s', op, out) && out.Failed? && !out.metaLeft && NoStrays(s, op.docID)
    requires forall f, r :: f in WritesOf(op) && f.name != "" && r in s.rows && r.doc == op.docID ==> !Misnames(s.rows[r], f.name, ContentHash(f.data))
    ensures NoStrays(s', op.docID)
  {
    hide Misnames;
    var d := op.docID;
    forall v, k | RowId(d, v) in s'.rows && k in s'.blobs ensures !Stray(d, s'.rows[RowId(d, v)], k) {
      if k in s.blobs {
        assert NoStray(s.blobs, d, s.rows[RowId(d, v)]);
      } else {
        var f :| f in WritesOf(op) && k == KeyOf(d, InfoOf(f));
      }
    }
  }

  /** So does a create, against the version it creates. */
  lemma CreateIsReadableIff(s: Stores, s': Stores, op: Operation)
    requires op.Create? && CreateStep(s, s', op, Done)
    ensures NoStrays(s', op.docID) <==>
      NamesFit(s, op.docID, GenesisRow(op.companyID, op.docID, op.userID, op.reason, op.version, op.files), op.files)
  {
    hide GenesisRow, NamesFit, PutAll;
    WriteKeepsNoStraysIff(s, s', RowId(op.docID, op.version), op.files);
  }

  /** No delete and no change of the company makes a document unreadable, wherever it stops. */
  lemma DeletesKeepReadable(s: Stores, s': Stores, op: Operation, out: Outcome, d: Id)
    requires op.Delete? || op.DeleteVersion? || op.SetCompany?
    requires Step(s, s', op, out) && NoStrays(s, d)
    ensures NoStrays(s', d)
  {
    hide SoleHashes, Purged, Shrunk, BlobsWithout, HasBlobs, HasRows, NoStrays;
    assert forall k :: k in s'.rows ==> k in s.rows && s'.rows[k].files == s.rows[k].files;
    FewerBlobs(s, s', op, out);
    hide Step;
    FewerKeepReadable(s, s', d);
  }

  lemma FewerBlobs(s: Stores, s': Stores, op: Operation, out: Outcome)
    requires op.Delete? || op.DeleteVersion? || op.SetCompany?
    requires Step(s, s', op, out)
    ensures forall k :: k in s'.blobs ==> k in s.blobs
  {
    hide SoleHashes, HasBlobs, HasRows;
  }

  lemma FewerKeepReadable(s: Stores, s': Stores, d: Id)
    requires NoStrays(s, d) && forall k :: k in s'.blobs ==> k in s.blobs
    requires forall k :: k in s'.rows ==> k in s.rows && s'.rows[k].files == s.rows[k].files
    ensures NoStrays(s', d)
  {
    forall v, k | RowId(d, v) in s'.rows && k in s'.blobs ensures !Stray(d, s'.rows[RowId(d, v)], k) {
      assert NoStray(s.blobs, d, s.rows[RowId(d, v)]) && !Stray(d, s.rows[RowId(d, v)], k);
      assert RowHas(s'.rows[RowId(d, v)], k.hash) <==> RowHas(s.rows[RowId(d, v)], k.hash);
    }
  }

  // --------------------------------------------------------- where reading fails

  /** A write that copies a file of a stored version under a new name makes the document unreadable. */
  lemma CopyIsFatal(s: Stores, s': Stores, op: Operation, v: VersionTime, f: File, companyID: Id,
                    versions: seq<VersionTime>, answers: map<VersionTime, VersionAnswer>)
    requires op.Add? && AddStep(s, s', op, Done) && f in op.result.value.writeFiles && f.name != ""
    requires RowId(op.docID, v) in s.rows
    requires RowHas(s.rows[RowId(op.docID, v)], ContentHash(f.data)) && f.name !in s.rows[RowId(op.docID, v)].files
    requires AllAnswered(versions, answers, s', op.docID)
    ensures !SourceOf(companyID, versions, answers).Readable()
  {
    var k := KeyOf(op.docID, InfoOf(f));
    PutAllAt(s.blobs, op.docID, op.result.value.writeFiles, k);
    hide AllAnswered;
    ForeignNameIsFatal(s', op.docID, v, k, companyID, versions, answers);
  }

  /** So does a removal of one of two files with the same content. */
  lemma RemovalIsFatal(s: Stores, s': Stores, op: Operation, n: Name, companyID: Id,
                       versions: seq<VersionTime>, answers: map<VersionTime, VersionAnswer>)
    requires op.Add? && AddStep(s, s', op, Done) && Consistent(s)
    requires var prev, info := s.rows[RowId(op.docID, Latest(s.rows, op.docID))], s'.rows[RowId(op.docID, op.result.value.version)];
             n in prev.files && n !in info.files && RowHas(info, prev.files[n].hash)
    requires AllAnswered(versions, answers, s', op.docID)
    ensures !SourceOf(companyID, versions, answers).Readable()
  {
    hide AllAnswered, AppendedRow;
    var latest := RowId(op.docID, Latest(s.rows, op.docID));
    var k := KeyOf(op.docID, s.rows[latest].files[n]);
    assert RowWellFormed(latest, s.rows[latest]) && RowBacked(op.docID, s.rows[latest], s.blobs);
    PutAllAt(s.blobs, op.docID, op.result.value.writeFiles, k);
    ForeignNameIsFatal(s', op.docID, op.result.value.version, k, companyID, versions, answers);
  }

  lemma OneFile(m: FileMap, f: File)
    ensures Overlay(m, InfosOf([f])) == m[f.name := InfoOf(f)]
  {
    assert InfosOf([f]) == [InfoOf(f)];
    assert Overlay(m, []) == m;
  }

  lemma TwoFiles(f: File, g: File)
    ensures Overlay(map[], InfosOf([f, g])) == map[f.name := InfoOf(f)][g.name := InfoOf(g)]
  {
    OneFile(map[], f);
    assert InfosOf([f, g])[..1] == InfosOf([f]);
  }

  lemma NewIsCreatable(op: Operation)
    requires op.Create? && ValidVersion(op.version) && op.files != [] && forall f :: f in op.files ==> StorableName(f.name)
    ensures Creatable(EMPTY, op)
  {
  }

  /** A new document with one version can be given a second one. */
  lemma SecondVersionFits(create: Operation, add: Operation, s: Stores)
    requires create.Create? && CreateStep(EMPTY, s, create, Done) && create.version == 1
    requires add.Add? && add.docID == create.docID && ValidId(add.docID) && ValidId(add.userID)
    requires add.result.Some? && add.result.value.Valid() && add.result.value.version == 2 && AllSlashFree(add.result.value.writeFiles)
    requires var files := AppendedFiles(Overlay(map[], InfosOf(create.files)), add.result.value);
             files != map[] && NamesAllowed(files)
    ensures RowId(create.docID, 1) in s.rows && s.rows[RowId(create.docID, 1)].files == Overlay(map[], InfosOf(create.files))
    ensures HasRows(s.rows, create.docID) && Latest(s.rows, create.docID) == 1
    ensures Addable(s, add)
  {
    hide AppendedFiles, Overlay;
    assert RowId(create.docID, 1) in s.rows;
  }

  /** The smallest case of a copy: the second version adds the only file of the first under another name. */
  lemma CopySpoilsReading(d: Id, userID: Id, data: Bytes, s: Stores, s': Stores, companyID: Id,
                          versions: seq<VersionTime>, answers: map<VersionTime, VersionAnswer>)
    requires ValidId(d) && ValidId(userID)
    ensures var create := Create(companyID, d, userID, "", 1, [File("a", data)], None);
            var add := Add(d, userID, "", Some(CreateVersionResult(2, [File("b", data)], [], None)));
            && Creatable(EMPTY, create)
            && (CreateStep(EMPTY, s, create, Done) ==> NoStrays(s, d) && Addable(s, add))
            && (CreateStep(EMPTY, s, create, Done) && AddStep(s, s', add, Done) && AllAnswered(versions, answers, s', d) ==>
                  !SourceOf(companyID, versions, answers).Readable())
  {
    var a, b := File("a", data), File("b", data);
    var create := Create(companyID, d, userID, "", 1, [a], None);
    var add := Add(d, userID, "", Some(CreateVersionResult(2, [b], [], None)));
    NewIsCreatable(create);
    if CreateStep(EMPTY, s, create, Done) {
      OneFile(map[], a);
      var first: FileMap := map["a" := InfoOf(a)];
      CopiedFiles(first, b, add.result.value);
      SingleIsReadable(s, create);
      SecondVersionFits(create, add, s);
      hide CreateStep, AddStep, AllAnswered, NoStrays, Addable, Creatable, Overlay;
      if AddStep(s, s', add, Done) && AllAnswered(versions, answers, s', d) {
        assert s.rows[RowId(d, 1)].files == first && first["a"].hash == ContentHash(data);
        CopyIsFatal(s, s', add, 1, b, companyID, versions, answers);
      }
    }
  }

  /** One file has no strays. */
  lemma SingleIsReadable(s: Stores, op: Operation)
    requires op.Create? && |op.files| == 1 && CreateStep(EMPTY, s, op, Done)
    ensures NoStrays(s, op.docID)
  {
    assert op.files == [op.files[0]];
    OneFile(map[], op.files[0]);
    CreateIsReadableIff(EMPTY, s, op);
  }

  lemma CopiedFiles(files: FileMap, f: File, r: CreateVersionResult)
    requires NamesAllowed(files) && f.name != "" && r.writeFiles == [f] && r.removeFiles == []
    ensures AppendedFiles(files, r) != map[] && NamesAllowed(AppendedFiles(files, r))
  {
    assert Without(files, []) == files;
    OneFile(files, f);
    assert f.name in AppendedFiles(files, r);
  }

  /** The smallest case of a removal: the second version drops one of two files with the same content. */
  lemma RemovalSpoilsReading(d: Id, userID: Id, data: Bytes, s: Stores, s': Stores, companyID: Id,
                             versions: seq<VersionTime>, answers: map<VersionTime, VersionAnswer>)
    requires ValidId(d) && ValidId(userID)
    ensures var create := Create(companyID, d, userID, "", 1, [File("a", data), File("b", data)], None);
            var add := Add(d, userID, "", Some(CreateVersionResult(2, [], ["b"], None)));
            && Creatable(EMPTY, create)
            && (CreateStep(EMPTY, s, create, Done) ==> NoStrays(s, d) && Addable(s, add))
            && (CreateStep(EMPTY, s, create, Done) && AddStep(s, s', add, Done) && AllAnswered(versions, answers, s', d) ==>
                  !SourceOf(companyID, versions, answers).Readable())
  {
    var a, b := File("a", data), File("b", data);
    var create := Create(companyID, d, userID, "", 1, [a, b], None);
    var add := Add(d, userID, "", Some(CreateVersionResult(2, [], ["b"], None)));
    NewIsCreatable(create);
    if CreateStep(EMPTY, s, create, Done) {
      TwinIsReadable(d, userID, data, s, companyID);
      TwoFiles(a, b);
      var kept := DroppedTwin(a, b, add.result.value);
      SecondVersionFits(create, add, s);
      CreateKeepsConsistent(EMPTY, s, create, Done);
      hide CreateStep, Consistent, AllAnswered, NoStrays, Addable, Creatable, Overlay;
      if AddStep(s, s', add, Done) && AllAnswered(versions, answers, s', d) {
        AppendedRowAt(s, s', add);
        hide AddStep;
        assert s'.rows[RowId(d, 2)].files == kept && kept["a"].hash == ContentHash(data);
        RemovalIsFatal(s, s', add, "b", companyID, versions, answers);
      }
    }
  }

  // --------------------------------------------------- what an append records

  /** The previous version has the name, or seems to because a stray has it. */
  predicate SeemsThere(blobs: Blobs, d: Id, prev: VersionInfo, n: Name) {
    n in prev.files || exists k :: k in blobs && k.name == n && Stray(d, prev, k)
  }

  lemma ProviderSeems(s: Stores, d: Id, v: VersionTime, n: Name)
    requires Consistent(s) && RowId(d, v) in s.rows && n != ""
    ensures ProviderHas(s.blobs, d, s.rows[RowId(d, v)], n) <==> SeemsThere(s.blobs, d, s.rows[RowId(d, v)], n)
  {
    var prev := s.rows[RowId(d, v)];
    assert RowWellFormed(RowId(d, v), prev) && RowBacked(d, prev, s.blobs);
    if n in prev.files {
      var k := KeyOf(d, prev.files[n]);
      assert k in s.blobs && k.doc == d && k.name == n && RowHas(prev, k.hash);
    }
  }

  /** The row of an append takes a written name for a modified one exactly when the previous version has it or a stray lends it. */
  ghost predicate Recorded(s: Stores, op: Operation, info: VersionInfo)
    requires op.Add? && op.result.Some? && HasRows(s.rows, op.docID)
  {
    var d, written := op.docID, NamesOf(InfosOf(op.result.value.writeFiles));
    var prev := s.rows[RowId(d, Latest(s.rows, d))];
    && info.commitUserID == op.userID && info.commitReason == op.reason
    && info.prevVersion == Some(prev.version)
    && info.removedFiles == op.result.value.removeFiles
    && (forall n :: n in info.modifiedFiles <==> n in written && SeemsThere(s.blobs, d, prev, n))
    && (forall n :: n in info.addedFiles <==> n in written && !SeemsThere(s.blobs, d, prev, n))
  }

  lemma AppendIsRecorded(s: Stores, s': Stores, op: Operation)
    requires op.Add? && AddStep(s, s', op, Done) && Consistent(s)
    ensures op.result.Some? && HasRows(s.rows, op.docID)
    ensures RowId(op.docID, op.result.value.version) in s'.rows && Recorded(s, op, s'.rows[RowId(op.docID, op.result.value.version)])
  {
    hide Recorded, Appends, Consistent, PutAll, OnlyWrites;
    RowIsRecorded(s, op, s'.rows[RowId(op.docID, op.result.value.version)]);
  }

  lemma RowIsRecorded(s: Stores, op: Operation, info: VersionInfo)
    requires op.Add? && Appends(s, op, info) && Consistent(s)
    ensures Recorded(s, op, info)
  {
    var d, r := op.docID, op.result.value;
    var prev, infos := s.rows[RowId(d, Latest(s.rows, d))], InfosOf(r.writeFiles);
    hide ProviderHas, SeemsThere, Consistent, Labelled, Latest, HasRows, CreateVersionResult.Valid;
    forall n
      ensures n in info.modifiedFiles <==> n in NamesOf(infos) && SeemsThere(s.blobs, d, prev, n)
      ensures n in info.addedFiles <==> n in NamesOf(infos) && !SeemsThere(s.blobs, d, prev, n)
    {
      LabelledNames(s.blobs, d, prev, infos, false, n);
      LabelledNames(s.blobs, d, prev, infos, true, n);
      if n in NamesOf(infos) {
        OverlayKeys(Without(prev.files, r.removeFiles), infos, n);
        ProviderSeems(s, d, Latest(s.rows, d), n);
      }
    }
  }

  lemma AppendedRowAt(s: Stores, s': Stores, op: Operation)
    requires op.Add? && AddStep(s, s', op, Done)
    ensures HasRows(s.rows, op.docID) && RowId(op.docID, op.result.value.version) in s'.rows
    ensures s'.rows[RowId(op.docID, op.result.value.version)].files
         == AppendedFiles(s.rows[RowId(op.docID, Latest(s.rows, op.docID))].files, op.result.value)
  {
    hide AppendedFiles, Labelled, PutAll;
  }

  lemma DroppedTwin(a: File, b: File, r: CreateVersionResult) returns (kept: FileMap)
    requires a.name != "" && a.name != b.name && r.writeFiles == [] && r.removeFiles == [b.name]
    ensures kept == map[a.name := InfoOf(a)] && kept != map[] && NamesAllowed(kept)
    ensures AppendedFiles(map[a.name := InfoOf(a)][b.name := InfoOf(b)], r) == kept
  {
    kept := Without(map[a.name := InfoOf(a)][b.name := InfoOf(b)], r.removeFiles);
    assert a.name in kept && InfosOf([]) == [];
  }

  /** Two files with the same content in one version are no strays of each other. */
  lemma TwinIsReadable(d: Id, userID: Id, data: Bytes, s: Stores, companyID: Id)
    requires CreateStep(EMPTY, s, Create(companyID, d, userID, "", 1, [File("a", data), File("b", data)], None), Done)
    ensures RowId(d, 1) in s.rows && s.rows[RowId(d, 1)].files == map["a" := InfoOf(File("a", data)), "b" := InfoOf(File("b", data))]
    ensures NoStrays(s, d)
  {
    TwoFiles(File("a", data), File("b", data));
    CreateIsReadableIff(EMPTY, s, Create(companyID, d, userID, "", 1, [File("a", data), File("b", data)], None));
  }

  // ------------------------------------------------------------------ restores

  predicate HasContent(hashes: map<Name, Hash>, h: Hash) {
    exists n :: n in hashes && hashes[n] == h
  }

  predicate NameAgrees(hashes: map<Name, Hash>, n: Name, h: Hash) {
    HasContent(hashes, h) ==> n in hashes && hashes[n] == h
  }

  /** No two versions of the backup have the same content under different names. */
  ghost predicate NamesAgree(doc: HashedDocument) {
    forall v, w, n :: v in doc.versions && w in doc.versions && n in doc.versions[w].fileHashes ==>
      NameAgrees(doc.versions[v].fileHashes, n, doc.versions[w].fileHashes[n])
  }

  lemma DescribedMisnames(doc: HashedDocument, v: VersionTime, info: VersionInfo, n: Name, h: Hash)
    requires v in doc.versions && doc.Complete(v) && Describes(doc, v, info)
    ensures Misnames(info, n, h) <==> !NameAgrees(doc.versions[v].fileHashes, n, h)
  {
    var hashes := doc.versions[v].fileHashes;
    assert forall m :: m in info.files <==> m in hashes;
    assert forall m :: m in hashes ==> info.files[m].hash == hashes[m];
    if HasContent(hashes, h) {
      var m :| m in hashes && hashes[m] == h;
      assert info.files[m].hash == h;
    }
    if RowHas(info, h) {
      var m :| m in info.files && info.files[m].hash == h;
      assert hashes[m] == h;
    }
  }

  /** What a recreating restore leaves of the document: the versions of the backup and their files. */
  lemma RecreatedBlobs(s: Stores, s': Stores, doc: HashedDocument, k: BlobKey)
    requires RestoreStep(s, s', doc, true, Done) && ConsistentAt(s, doc.id) && k.doc == doc.id
    ensures k in s'.blobs <==> InBackup(doc, doc.versions.Keys, k)
  {
    RecreateStartsEmpty(s, doc);
    var base := RestoreBase(s, doc, true);
    assert !HasBlobs(base.blobs, doc.id);
    assert Absent(base.rows, doc.id, doc.versions.Keys) == doc.versions.Keys;
  }

  lemma RestoredIsNoStray(s: Stores, s': Stores, doc: HashedDocument, v: VersionTime, k: BlobKey)
    requires RestoreStep(s, s', doc, true, Done) && ConsistentAt(s, doc.id) && NamesAgree(doc)
    requires RowId(doc.id, v) in s'.rows && k in s'.blobs
    ensures !Stray(doc.id, s'.rows[RowId(doc.id, v)], k)
  {
    if k.doc == doc.id {
      RecreatedRows(s, s', doc, v);
      RecreatedBlobs(s, s', doc, k);
      hide RestoreStep, ConsistentAt, Describes, Misnames, NameAgrees, HashedDocument.Complete;
      DescribedMisnames(doc, v, s'.rows[RowId(doc.id, v)], k.name, k.hash);
    }
  }

  lemma RestoredNameAgrees(s: Stores, s': Stores, doc: HashedDocument, v: VersionTime, w: VersionTime, n: Name)
    requires RestoreStep(s, s', doc, true, Done) && ConsistentAt(s, doc.id) && NoStrays(s', doc.id)
    requires v in doc.versions && w in doc.versions && n in doc.versions[w].fileHashes
    ensures NameAgrees(doc.versions[v].fileHashes, n, doc.versions[w].fileHashes[n])
  {
    var k := BlobKey(doc.id, n, doc.versions[w].fileHashes[n]);
    assert VersionFile(doc, w, k);
    RecreatedRows(s, s', doc, v);
    RecreatedBlobs(s, s', doc, k);
    RestoredNameIsStorable(s, s', doc, w, n);
    hide RestoreStep, ConsistentAt, Describes, Misnames, NameAgrees, HashedDocument.Complete;
    DescribedMisnames(doc, v, s'.rows[RowId(doc.id, v)], n, k.hash);
    assert NoStray(s'.blobs, doc.id, s'.rows[RowId(doc.id, v)]) && !Stray(doc.id, s'.rows[RowId(doc.id, v)], k);
  }

  /** A restored document can be read back exactly when the names of its versions agree. */
  lemma RestoredIsReadableIff(s: Stores, s': Stores, doc: HashedDocument)
    requires RestoreStep(s, s', doc, true, Done) && ConsistentAt(s, doc.id)
    ensures NoStrays(s', doc.id) <==> NamesAgree(doc)
  {
    hide RestoreStep, ConsistentAt, Stray, NameAgrees;
    if NamesAgree(doc) {
      forall v, k | RowId(doc.id, v) in s'.rows && k in s'.blobs ensures !Stray(doc.id, s'.rows[RowId(doc.id, v)], k) {
        RestoredIsNoStray(s, s', doc, v, k);
      }
    }
    if NoStrays(s', doc.id) {
      forall v, w, n | v in doc.versions && w in doc.versions && n in doc.versions[w].fileHashes
        ensures NameAgrees(doc.versions[v].fileHashes, n, doc.versions[w].fileHashes[n])
      {
        RestoredNameAgrees(s, s', doc, v, w, n);
      }
    }
  }

  lemma RestoredNameIsStorable(s: Stores, s': Stores, doc: HashedDocument, v: VersionTime, n: Name)
    requires RestoreStep(s, s', doc, true, Done) && ConsistentAt(s, doc.id)
    requires v in doc.versions && n in doc.versions[v].fileHashes
    ensures StorableName(n)
  {
    RecreateStartsEmpty(s, doc);
    hide HashedDocument.WellFormed, Merged, BlobsMerged;
    var base := RestoreBase(s, doc, true);
    assert RowId(doc.id, v) !in base.rows;
    assert VersionFits(base.rows, doc, v);
  }
}
