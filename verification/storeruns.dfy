/** What holds after every operation of every run over a split-store connection. */
module StoreRuns {
  import opened Documents
  import opened Ordering
  import opened HashedDocuments
  import opened SplitStore
  import opened StoreInvariants

  datatype Event = Event(op: Operation, out: Outcome)

  /** states[i + 1] is what event i leaves of states[i]. */
  ghost predicate Run(states: seq<Stores>, events: seq<Event>) {
    && |states| == |events| + 1
    && states[0] == EMPTY
    && forall i :: 0 <= i < |events| ==> Step(states[i], states[i + 1], events[i].op, events[i].out)
  }

  /** Backups are filed under their content hashes; deletes of rows made to undo a write succeed. */
  ghost predicate Compensated(e: Event) {
    && (e.op.Restore? ==> e.op.doc.WellHashed())
    && (e.out.Failed? && (e.op.Create? || e.op.Add? || e.op.Restore?) ==> !e.out.metaLeft)
  }

  lemma StepKeepsConsistent(s: Stores, s': Stores, e: Event)
    requires Step(s, s', e.op, e.out) && Compensated(e)
    requires Consistent(s)
    ensures Consistent(s')
  {
    match e.op
    case Create(_, _, _, _, _, _, _) => CreateKeepsConsistent(s, s', e.op, e.out);
    case Add(_, _, _, _) => AddKeepsConsistent(s, s', e.op, e.out);
    case Delete(d) => DeleteKeepsConsistent(s, s', d, e.out);
    case DeleteVersion(d, v) => DeleteVersionKeepsConsistent(s, s', d, v, e.out);
    case SetCompany(d, c) => SetCompanyKeepsConsistent(s, s', d, c, e.out);
    case Restore(doc, recreate) => RestoreKeepsConsistent(s, s', doc, recreate, e.out);
  }

  /** No run ever leaves a version with a file whose blob is missing or has other content. */
  lemma {:induction false} NothingDangles(states: seq<Stores>, events: seq<Event>, i: nat)
    requires Run(states, events) && i < |states|
    requires forall e :: e in events ==> Compensated(e)
    ensures Consistent(states[i])
  {
    if i > 0 {
      var j := i - 1;
      NothingDangles(states, events, j);
      assert events[j] in events;
      StepKeepsConsistent(states[j], states[j + 1], events[j]);
    }
  }

  // ------------------------------------------------------ when a write leaves garbage

  lemma {:induction false} LastWriteSurvives(files: seq<File>, i: nat) returns (j: nat)
    requires i < |files|
    ensures i <= j < |files| && files[j].name == files[i].name && Survives(files, j)
    decreases |files| - i
  {
    if Survives(files, i) {
      j := i;
    } else {
      var k :| i < k < |files| && files[k].name == files[i].name;
      j := LastWriteSurvives(files, k);
    }
  }

  /** The hashes of a version are those it inherits and those of the surviving writes. */
  lemma HashesOfOverlay(prev: FileMap, files: seq<File>, info: VersionInfo, h: Hash)
    requires info.files == Overlay(prev, InfosOf(files))
    ensures SurvivingContent(files, h) ==> RowHas(info, h)
    ensures RowHas(info, h) ==> SurvivingContent(files, h) || exists n :: n in prev && prev[n].hash == h
  {
    if SurvivingContent(files, h) {
      var i: nat :| i < |files| && Survives(files, i) && ContentHash(files[i].data) == h;
      SurvivorIsFinal(prev, files, i);
    }
    if RowHas(info, h) {
      var n :| n in info.files && info.files[n].hash == h;
      OverlayFrom(prev, InfosOf(files), n);
      if !(n in prev && info.files[n] == prev[n]) {
        var i :| 0 <= i < |files| && InfosOf(files)[i].name == n && info.files[n] == InfosOf(files)[i];
        var j := LastWriteSurvives(files, i);
        SurvivorIsFinal(prev, files, j);
        assert SurvivingContent(files, h);
      }
    }
  }

  lemma ReferencedAfterInsert(rows: Table, k: RowId, info: VersionInfo, h: Hash)
    requires k !in rows
    ensures Referenced(rows[k := info], k.doc, h) <==> Referenced(rows, k.doc, h) || RowHas(info, h)
  {
    var rows' := rows[k := info];
    if Referenced(rows, k.doc, h) {
      MoreRowsReferMore(rows, rows', k.doc, h);
    }
    if RowHas(info, h) {
      assert k in rows' && RowHas(rows'[k], h);
    }
  }

  /**
   A successful write keeps the stores free of garbage exactly when it loses
   no content, which its caller can tell beforehand from the write list.
   */
  lemma WriteIsTidyExactly(s: Stores, s': Stores, k: RowId, prev: FileMap, files: seq<File>)
    requires Collected(s.rows, s.blobs)
    requires k !in s.rows && k in s'.rows && s'.rows == s.rows[k := s'.rows[k]]
    requires s'.rows[k].files == Overlay(prev, InfosOf(files))
    requires s'.blobs == PutAll(s.blobs, k.doc, files)
    requires forall n :: n in prev ==> Referenced(s.rows, k.doc, prev[n].hash)
    ensures Collected(s'.rows, s'.blobs) <==> NothingLost(s.rows, k.doc, files)
  {
    WriteCollects(s, s', k.doc, files);
    forall f | f in files
      ensures Referenced(s'.rows, k.doc, ContentHash(f.data))
        <==> SurvivingContent(files, ContentHash(f.data)) || Referenced(s.rows, k.doc, ContentHash(f.data))
    {
      HashesOfOverlay(prev, files, s'.rows[k], ContentHash(f.data));
      ReferencedAfterInsert(s.rows, k, s'.rows[k], ContentHash(f.data));
    }
  }

  lemma CreateIsTidyExactly(s: Stores, s': Stores, op: Operation)
    requires op.Create? && CreateStep(s, s', op, Done) && Exact(s)
    ensures Exact(s') <==> NothingLost(s.rows, op.docID, op.files)
  {
    CreateKeepsConsistent(s, s', op, Done);
    var k := RowId(op.docID, op.version);
    assert s'.rows[k].files == Overlay(map[], InfosOf(op.files));
    assert k.doc == op.docID;
    WriteIsTidyExactly(s, s', k, map[], op.files);
  }

  lemma AddIsTidyExactly(s: Stores, s': Stores, op: Operation)
    requires op.Add? && AddStep(s, s', op, Done) && Exact(s)
    ensures Exact(s') <==> NothingLost(s.rows, op.docID, op.result.value.writeFiles)
  {
    AddKeepsConsistent(s, s', op, Done);
    var d, r := op.docID, op.result.value;
    var latest := RowId(d, Latest(s.rows, d));
    var prev := Without(s.rows[latest].files, r.removeFiles);
    assert RowId(d, r.version) !in s.rows;
    forall n | n in prev ensures Referenced(s.rows, d, prev[n].hash) {
      assert RowHas(s.rows[latest], prev[n].hash);
    }
    WriteIsTidyExactly(s, s', RowId(d, r.version), prev, r.writeFiles);
  }

  /** Writing a name twice does lose content. */
  lemma ShadowedWriteIsGarbage(d: Id, a: Bytes, b: Bytes, s': Stores, op: Operation)
    requires ContentHash(a) != ContentHash(b)
    requires op == Create(d, d, d, "", 1, [File("f", a), File("f", b)], None)
    requires CreateStep(EMPTY, s', op, Done)
    ensures Consistent(s') && !Exact(s')
  {
    CreateKeepsConsistent(EMPTY, s', op, Done);
    CreateIsTidyExactly(EMPTY, s', op);
    hide CreateStep, Exact, Consistent;
    ShadowedContentIsLost(d, File("f", a), File("f", b));
  }

  lemma ShadowedContentIsLost(d: Id, f: File, g: File)
    requires f.name == g.name && ContentHash(f.data) != ContentHash(g.data)
    ensures !NothingLost(map[], d, [f, g])
  {
    var files := [f, g];
    assert files[0] in files && files[1].name == files[0].name;
    assert !Survives(files, 0);
    assert !SurvivingContent(files, ContentHash(f.data));
  }

  // --------------------------------------------- when a refused create leaves garbage

  lemma FirstFileIsStored(blobs: Blobs, d: Id, files: seq<File>)
    requires files != []
    ensures exists k :: k in PutAll(blobs, d, files) && k.doc == d
  {
    var k := KeyOf(d, InfoOf(files[0]));
    PutAllAt(blobs, d, files, k);
    assert k in PutAll(blobs, d, files);
  }

  /**
   A create that its callback turns down keeps the stores free of garbage
   exactly when the error of the callback is not the one that spares the blobs.
   */
  lemma RefusedCreateIsTidyExactly(s: Stores, s': Stores, op: Operation, e: Error)
    requires Exact(s) && op.Create? && Creatable(s, op) && op.refusal == Some(e)
    requires CreateStep(s, s', op, Failed(e, false, false))
    ensures Exact(s') <==> e != AlreadyExists
  {
    CreateKeepsConsistent(s, s', op, Failed(e, false, false));
    ExistenceAgrees(s, op.docID);
    if e == AlreadyExists {
      FirstFileIsStored(s.blobs, op.docID, op.files);
      var k :| k in s'.blobs && k.doc == op.docID;
      assert !Referenced(s'.rows, op.docID, k.hash);
    }
  }

  /** Spared blobs are in the way of every later create, and of every restore that would recreate the document. */
  lemma SparedBlobsBlock(s: Stores, s': Stores, op: Operation, later: Operation, doc: HashedDocument)
    requires Exact(s) && op.Create? && Creatable(s, op) && op.refusal == Some(AlreadyExists)
    requires CreateStep(s, s', op, Failed(AlreadyExists, false, false))
    requires later.Create? && later.docID == op.docID && doc.id == op.docID
    ensures !Creatable(s', later)
    ensures !RestoreReady(s', doc, true)
  {
    ExistenceAgrees(s, op.docID);
    FirstFileIsStored(s.blobs, op.docID, op.files);
    assert HasBlobs(s'.blobs, op.docID);
  }

  /** A concrete case: the callback of the first create passes on that a document exists elsewhere. */
  lemma RefusalCanSpareBlobs(d: Id, data: Bytes, later: Operation)
    requires later.Create? && later.docID == d
    ensures var op := Create(d, d, d, "", 1, [File("f", data)], Some(AlreadyExists));
            var s' := Stores(map[], PutAll(map[], d, op.files));
            && CreateStep(EMPTY, s', op, Failed(AlreadyExists, false, false))
            && Consistent(s') && !Exact(s') && !Creatable(s', later)
  {
    var op := Create(d, d, d, "", 1, [File("f", data)], Some(AlreadyExists));
    var s' := Stores(map[], PutAll(map[], d, op.files));
    PutAllGrows(map[], d, op.files);
    assert op.files[..|op.files|] == op.files;
    PutAllOnlyWrites(map[], d, op.files, |op.files|);
    assert Creatable(EMPTY, op);
    assert CreateStep(EMPTY, s', op, Failed(AlreadyExists, false, false));
    CreateKeepsConsistent(EMPTY, s', op, Failed(AlreadyExists, false, false));
    RefusedCreateIsTidyExactly(EMPTY, s', op, AlreadyExists);
    FirstFileIsStored(map[], d, op.files);
  }

  // ------------------------------------------------------------ exact collection

  /**
   The deletes of blobs succeed as well, no write list loses content to itself,
   and no callback of a create answers with the error that spares the blobs.
   */
  ghost predicate Tidy(s: Stores, e: Event) {
    && Compensated(e)
    && (e.out.Failed? ==> !e.out.blobsLeft)
    && (e.op.Create? ==> NothingLost(s.rows, e.op.docID, e.op.files))
    && (e.op.Create? && Creatable(s, e.op) ==> e.op.refusal != Some(AlreadyExists))
    && (e.op.Add? && e.op.result.Some? ==> NothingLost(s.rows, e.op.docID, e.op.result.value.writeFiles))
  }

  /** Lists that name no file twice lose nothing. */
  lemma DistinctNamesLoseNothing(rows: Table, d: Id, files: seq<File>)
    requires DistinctNames(files)
    ensures NothingLost(rows, d, files)
  {
    forall f | f in files ensures SurvivingContent(files, ContentHash(f.data)) {
      var i :| 0 <= i < |files| && files[i] == f;
      assert Survives(files, i);
    }
  }

  lemma CreateKeepsExact(s: Stores, s': Stores, e: Event)
    requires e.op.Create? && CreateStep(s, s', e.op, e.out) && Tidy(s, e)
    requires Exact(s)
    ensures Exact(s')
  {
    if e.out.Done? {
      CreateIsTidyExactly(s, s', e.op);
    } else {
      CreateKeepsConsistent(s, s', e.op, e.out);
      ExistenceAgrees(s, e.op.docID);
      assert s'.rows == s.rows && s'.blobs == s.blobs;
    }
  }

  lemma AddKeepsExact(s: Stores, s': Stores, e: Event)
    requires e.op.Add? && AddStep(s, s', e.op, e.out) && Tidy(s, e)
    requires Exact(s)
    ensures Exact(s')
  {
    if e.out.Done? {
      AddIsTidyExactly(s, s', e.op);
    } else {
      AddKeepsConsistent(s, s', e.op, e.out);
      UndoneKeepsCollected(s, s', e.op.docID);
    }
  }

  lemma DeletesKeepExact(s: Stores, s': Stores, e: Event)
    requires e.op.Delete? || e.op.DeleteVersion?
    requires Step(s, s', e.op, e.out) && Tidy(s, e)
    requires Exact(s)
    ensures Exact(s')
  {
    StepKeepsConsistent(s, s', e);
    if e.op.Delete? {
      DroppedKeepsCollected(s, e.op.docID);
    } else if s' != s {
      var d, v := e.op.docID, e.op.version;
      DeleteVersionKeepsCollected(s, d, v);
      if e.out.Failed? {
        assert HasRows(s.rows, d);
        ExistenceAgrees(s, d);
        assert false;
      }
    }
  }

  lemma CompanySetKeepsCollected(s: Stores, d: Id, companyID: Id)
    requires Collected(s.rows, s.blobs)
    ensures Collected(CompanySet(s.rows, d, companyID), s.blobs)
  {
    forall k | k in s.blobs ensures Referenced(CompanySet(s.rows, d, companyID), k.doc, k.hash) {
      MoreRowsReferMore(s.rows, CompanySet(s.rows, d, companyID), k.doc, k.hash);
    }
  }

  lemma SetCompanyKeepsExact(s: Stores, s': Stores, e: Event)
    requires e.op.SetCompany? && SetCompanyStep(s, s', e.op.docID, e.op.companyID, e.out)
    requires Exact(s)
    ensures Exact(s')
  {
    SetCompanyKeepsConsistent(s, s', e.op.docID, e.op.companyID, e.out);
    if e.out.Done? {
      CompanySetKeepsCollected(s, e.op.docID, e.op.companyID);
    }
  }

  lemma RestoreKeepsExact(s: Stores, s': Stores, e: Event)
    requires e.op.Restore? && Step(s, s', e.op, e.out) && Tidy(s, e)
    requires Exact(s)
    ensures Exact(s')
  {
    StepKeepsConsistent(s, s', e);
    var doc, recreate := e.op.doc, e.op.recreate;
    var base := RestoreBase(s, doc, recreate);
    DroppedKeepsCollected(s, doc.id);
    if e.out.Done? {
      RestoreKeepsCollected(base, s', doc);
    } else if s' != s && !(recreate && DeleteStep(s, s', doc.id, e.out)) {
      UndoneKeepsCollected(base, s', doc.id);
    }
  }

  lemma StepKeepsExact(s: Stores, s': Stores, e: Event)
    requires Step(s, s', e.op, e.out) && Tidy(s, e)
    requires Exact(s)
    ensures Exact(s')
  {
    match e.op
    case Create(_, _, _, _, _, _, _) => CreateKeepsExact(s, s', e);
    case Add(_, _, _, _) => AddKeepsExact(s, s', e);
    case Delete(_) => DeletesKeepExact(s, s', e);
    case DeleteVersion(_, _) => DeletesKeepExact(s, s', e);
    case SetCompany(_, _) => SetCompanyKeepsExact(s, s', e);
    case Restore(_, _) => RestoreKeepsExact(s, s', e);
  }

  lemma {:induction false} TidyRunIsExact(states: seq<Stores>, events: seq<Event>, i: nat)
    requires Run(states, events) && i < |states|
    requires forall j :: 0 <= j < |events| ==> Tidy(states[j], events[j])
    ensures Exact(states[i])
  {
    if i > 0 {
      var j := i - 1;
      TidyRunIsExact(states, events, j);
      assert events[j] in events;
      StepKeepsExact(states[j], states[j + 1], events[j]);
    }
  }

  /** In a tidy run the stored hashes of each document are at all times those its versions refer to. */
  lemma NothingIsGarbage(states: seq<Stores>, events: seq<Event>, i: nat, d: Id)
    requires Run(states, events) && i < |states|
    requires forall j :: 0 <= j < |events| ==> Tidy(states[j], events[j])
    ensures StoredHashes(states[i].blobs, d) == ReferencedHashes(states[i].rows, d)
    ensures HasRows(states[i].rows, d) <==> HasBlobs(states[i].blobs, d)
  {
    TidyRunIsExact(states, events, i);
    ExactHashes(states[i], d);
    ExistenceAgrees(states[i], d);
  }

  /** Once a version was deleted, the document can be created exactly when it was the last one. */
  lemma DeletedCanBeCreated(s: Stores, s': Stores, d: Id, v: VersionTime, op: Operation)
    requires Exact(s) && DeleteVersionStep(s, s', d, v, Done)
    requires op.Create? && op.docID == d
    requires ValidVersion(op.version) && op.files != [] && forall f :: f in op.files ==> StorableName(f.name)
    ensures Exact(s')
    ensures Creatable(s', op) <==> Versions(s.rows, d) == {v}
  {
    assert RowId(d, v) in s.rows && s'.rows == s.rows - {RowId(d, v)};
    hide *;
    DeletedKeepsExact(s, s', d, v);
    CreatableWithoutRows(s', op);
    LastVersionGone(s.rows, d, v);
  }

  lemma CreatableWithoutRows(s: Stores, op: Operation)
    requires Exact(s) && op.Create?
    requires ValidVersion(op.version) && op.files != [] && forall f :: f in op.files ==> StorableName(f.name)
    ensures Creatable(s, op) <==> !HasRows(s.rows, op.docID)
  {
    ExistenceAgrees(s, op.docID);
    hide Exact;
    assert RowId(op.docID, op.version) in s.rows ==> HasRows(s.rows, op.docID);
  }

  lemma DeletedKeepsExact(s: Stores, s': Stores, d: Id, v: VersionTime)
    requires Exact(s) && DeleteVersionStep(s, s', d, v, Done)
    ensures Exact(s')
  {
    DeleteVersionKeepsConsistent(s, s', d, v, Done);
    DeleteVersionKeepsCollected(s, d, v);
  }

  lemma LastVersionGone(rows: Table, d: Id, v: VersionTime)
    requires RowId(d, v) in rows
    ensures HasRows(rows - {RowId(d, v)}, d) <==> Versions(rows, d) != {v}
  {
    assert v in Versions(rows, d);
    if Versions(rows, d) != {v} {
      var w :| w in Versions(rows, d) && w != v;
      assert RowId(d, w) in rows - {RowId(d, v)};
    } else {
      forall k | k in rows && k.doc == d ensures k == RowId(d, v) {
        assert k.version in Versions(rows, d);
      }
    }
  }

  // -------------------------------------------------------- moving a document

  /** A document moved to company c belongs to it with all its versions, and nothing else has changed. */
  lemma MovedDocumentBelongs(s: Stores, s': Stores, d: Id, c: Id)
    requires SetCompanyStep(s, s', d, c, Done)
    ensures s'.rows.Keys == s.rows.Keys && s'.blobs == s.blobs
    ensures forall k :: k in s.rows && k.doc == d ==> s'.rows[k] == s.rows[k].(companyID := c)
    ensures BelongsTo(s'.rows, d, c)
    ensures OthersKept(s, s', d)
  {
    assert forall k :: k in s'.rows <==> k in s.rows;
  }

  /** An append takes the document to the company that the callback asked for, or leaves it with that of the latest version. */
  lemma AppendedDocumentBelongs(s: Stores, s': Stores, op: Operation, c: Id)
    requires op.Add? && AddStep(s, s', op, Done) && RowsKeyed(s.rows) && BelongsTo(s.rows, op.docID, c)
    ensures op.result.Some? && BelongsTo(s'.rows, op.docID, op.result.value.newCompanyID.GetOr(c))
    ensures OthersKept(s, s', op.docID)
  {
    hide AppendedFiles, Labelled, PutAll;
    PutAllGrows(s.blobs, op.docID, op.result.value.writeFiles);
    assert forall k :: k in s'.rows && k.doc != op.docID ==> k in s.rows;
  }

  // -------------------------------------------------------- one first version

  /** A document has one version without a predecessor at most. */
  ghost predicate OneFirstVersion(rows: Table) {
    forall j, k :: j in rows && k in rows && j.doc == k.doc && rows[j].prevVersion.None? && rows[k].prevVersion.None? ==> j == k
  }

  lemma FewerFirstVersions(rows: Table, rows': Table)
    requires OneFirstVersion(rows) && forall k :: k in rows' ==> k in rows && rows'[k].prevVersion == rows[k].prevVersion
    ensures OneFirstVersion(rows')
  {
  }

  lemma InsertKeepsOneFirst(rows: Table, k: RowId, info: VersionInfo)
    requires OneFirstVersion(rows) && k !in rows && (info.prevVersion.None? ==> GenesisFree(rows, k.doc, k.version))
    ensures OneFirstVersion(rows[k := info])
  {
  }

  lemma MergeKeepsOneFirst(base: Table, rows': Table, doc: HashedDocument)
    requires doc.WellFormed() && OneFirstVersion(base)
    requires Fits(base, doc, doc.versions.Keys) && Merged(base, rows', doc, doc.versions.Keys)
    ensures OneFirstVersion(rows')
  {
    hide HashedDocument.WellFormed, IsDiff, HashedDocument.PreviousHashes, HashedDocument.FilesAt;
    forall j, k | j in rows' && k in rows' && j.doc == k.doc && rows'[j].prevVersion.None? && rows'[k].prevVersion.None? ensures j == k {
      FirstInMerge(base, rows', doc, j);
      FirstInMerge(base, rows', doc, k);
    }
  }

  /** A first version of a merged document was there, or is the first of the backup and was free to insert. */
  lemma FirstInMerge(base: Table, rows': Table, doc: HashedDocument, k: RowId)
    requires doc.WellFormed() && Fits(base, doc, doc.versions.Keys) && Merged(base, rows', doc, doc.versions.Keys)
    requires k in rows' && rows'[k].prevVersion.None?
    ensures k in base ==> base[k].prevVersion.None?
    ensures k !in base ==> k.doc == doc.id && k.version in doc.versions && (forall w :: w in doc.versions ==> k.version <= w) && GenesisFree(base, k.doc, k.version)
  {
    AllComplete(doc);
    hide HashedDocument.WellFormed, HashedDocument.Complete, IsDiff, HashedDocument.PreviousHashes, HashedDocument.FilesAt;
    if k !in base {
      assert Describes(doc, k.version, rows'[k]) && VersionFits(base, doc, k.version);
    }
  }

  lemma StepKeepsOneFirst(s: Stores, s': Stores, e: Event)
    requires Step(s, s', e.op, e.out) && Compensated(e) && OneFirstVersion(s.rows)
    ensures OneFirstVersion(s'.rows)
  {
    hide OneFirstVersion, PutAll, Labelled, AppendedFiles, HashedDocument.WellHashed, BlobsMerged, OnlyWrites, NothingLost, Grown, Shrunk;
    match e.op
    case Create(_, d, _, _, v, _, _) =>
      if e.out.Done? {
        InsertKeepsOneFirst(s.rows, RowId(d, v), s'.rows[RowId(d, v)]);
      }
    case Add(d, _, _, r) =>
      if e.out.Done? {
        InsertKeepsOneFirst(s.rows, RowId(d, r.value.version), s'.rows[RowId(d, r.value.version)]);
      }
    case Restore(doc, recreate) =>
      var base := RestoreBase(s, doc, recreate);
      FewerFirstVersions(s.rows, base.rows);
      if e.out.Done? {
        MergeKeepsOneFirst(base.rows, s'.rows, doc);
      } else {
        FewerFirstVersions(s.rows, s'.rows);
      }
    case _ => FewerFirstVersions(s.rows, s'.rows);
  }

  lemma {:induction false} AtMostOneFirstVersion(states: seq<Stores>, events: seq<Event>, i: nat)
    requires Run(states, events) && i < |states|
    requires forall e :: e in events ==> Compensated(e)
    ensures OneFirstVersion(states[i].rows)
  {
    hide Step, Compensated;
    if i > 0 {
      var j := i - 1;
      AtMostOneFirstVersion(states, events, j);
      assert events[j] in events;
      assert Step(states[j], states[j + 1], events[j].op, events[j].out);
      StepKeepsOneFirst(states[j], states[j + 1], events[j]);
    }
  }

  // ---------------------------------------------------------- immutable history

  /**
   A version that an operation leaves in place keeps its files, and each file
   its bytes. Replacing the document by a backup is the one exception.
   */
  lemma HistoryIsImmutable(s: Stores, s': Stores, e: Event, k: RowId, n: Name)
    requires Step(s, s', e.op, e.out) && Compensated(e)
    requires Consistent(s) && CollisionFree()
    requires !(e.op.Restore? && e.op.recreate && e.op.doc.id == k.doc)
    requires k in s.rows && k in s'.rows && n in s.rows[k].files
    ensures s'.rows[k].files == s.rows[k].files
    ensures KeyOf(k.doc, s.rows[k].files[n]) in s.blobs && KeyOf(k.doc, s.rows[k].files[n]) in s'.blobs
    ensures s'.blobs[KeyOf(k.doc, s.rows[k].files[n])] == s.blobs[KeyOf(k.doc, s.rows[k].files[n])]
  {
    StepKeepsConsistent(s, s', e);
    KeptRows(s, s', e, k);
    assert RowBacked(k.doc, s.rows[k], s.blobs);
    assert RowBacked(k.doc, s'.rows[k], s'.blobs);
    var b := KeyOf(k.doc, s.rows[k].files[n]);
    assert ContentHash(s.blobs[b]) == ContentHash(s'.blobs[b]);
  }

  lemma KeptRows(s: Stores, s': Stores, e: Event, k: RowId)
    requires Step(s, s', e.op, e.out) && Compensated(e)
    requires !(e.op.Restore? && e.op.recreate && e.op.doc.id == k.doc)
    requires k in s.rows && k in s'.rows
    ensures s'.rows[k].files == s.rows[k].files
  {
    hide OnlyWrites, PutAll, AppendedFiles, Labelled, Grown, Shrunk, BlobsMerged, Describes, HashedDocument.WellFormed, RowsLeft, NothingLost, HasBlobs;
  }
}
