/** Which documents can be restored from what was read of them. */
module Restorable {
  import opened Documents
  import opened HashedDocuments
  import opened SplitStore
  import opened StoreInvariants
  import opened StoreRuns
  import opened Backups
  import opened BackEnds
  import opened ReadBack
  import LocalTree

  // ------------------------------------------------------- changeless histories

  /** v is the next version after w. */
  predicate Follows(h: History, w: VersionTime, v: VersionTime) {
    w in h && v in h && w < v && forall u :: u in h ==> !(w < u < v)
  }

  predicate SameFiles(h: History, w: VersionTime, v: VersionTime)
    requires w in h && v in h
  {
    HashesOf(h[w]) == HashesOf(h[v])
  }

  /** Some version has the files of the one before it. */
  ghost predicate Changeless(h: History) {
    exists w, v :: Follows(h, w, v) && SameFiles(h, w, v)
  }

  /** The source answers with the files of the history. */
  ghost predicate AnswersHistory(src: Source, h: History) {
    && src.versions.Success?
    && (forall v :: v in src.versions.value <==> v in h)
    && (forall v :: v in h ==> src.info(v).Success? && src.info(v).value.files == h[v])
  }

  lemma SnapshotHashes(src: Source, docID: Id, doc: HashedDocument, h: History, v: VersionTime)
    requires Snapshot(src, docID, doc) && AnswersHistory(src, h)
    ensures v in doc.versions <==> v in h
    ensures v in h ==> doc.Complete(v) && doc.versions[v].fileHashes == HashesOf(h[v])
    ensures v in h && h[v] != map[] ==> doc.versions[v].fileHashes != map[]
  {
    hide HashedDocument.WellHashed, Holds, HashedDocument.Complete;
    if v in h && h[v] != map[] {
      var n :| n in h[v];
      assert n in HashesOf(h[v]);
    }
  }

  lemma PredecessorFollows(doc: HashedDocument, h: History, w: VersionTime, v: VersionTime)
    requires doc.versions.Keys == h.Keys && v in h
    ensures doc.Predecessor(v) == Some(w) <==> Follows(h, w, v)
  {
  }

  /** The check on repeated files refuses the changeless documents and no other. */
  lemma RefusedIffChangeless(src: Source, docID: Id, doc: HashedDocument, h: History)
    requires Snapshot(src, docID, doc) && AnswersHistory(src, h)
    ensures (exists v :: v in doc.versions && doc.Predecessor(v).Some? && doc.PreviousHashes(v) == doc.versions[v].fileHashes)
      <==> Changeless(h)
  {
    forall v ensures v in doc.versions <==> v in h {
      SnapshotHashes(src, docID, doc, h, v);
    }
    assert doc.versions.Keys == h.Keys;
    hide Snapshot, AnswersHistory, HashedDocument.Predecessor, Follows;
    if v :| v in doc.versions && doc.Predecessor(v).Some? && doc.PreviousHashes(v) == doc.versions[v].fileHashes {
      var w := doc.Predecessor(v).value;
      PredecessorFollows(doc, h, w, v);
      SnapshotHashes(src, docID, doc, h, v);
      SnapshotHashes(src, docID, doc, h, w);
      assert w in h && SameFiles(h, w, v);
    }
    if Changeless(h) {
      var w, v :| Follows(h, w, v) && SameFiles(h, w, v);
      assert w in h && v in h;
      PredecessorFollows(doc, h, w, v);
      SnapshotHashes(src, docID, doc, h, v);
      SnapshotHashes(src, docID, doc, h, w);
      assert doc.PreviousHashes(v) == doc.versions[v].fileHashes;
    }
  }

  /** A changeless document cannot be restored, whichever back end it was read from. */
  lemma ChangelessIsRefused(src: Source, docID: Id, doc: HashedDocument, h: History)
    requires Snapshot(src, docID, doc) && AnswersHistory(src, h) && Changeless(h)
    ensures !doc.WellFormed()
  {
    RefusedIffChangeless(src, docID, doc, h);
    hide Snapshot, Changeless, HashedDocument.Predecessor, HashedDocument.PreviousHashes;
  }

  // ------------------------------------------------------ documents of any run

  lemma AnsweredHistory(s: Stores, d: Id, companyID: Id, versions: seq<VersionTime>, answers: map<VersionTime, VersionAnswer>)
    requires AllAnswered(versions, answers, s, d)
    ensures AnswersHistory(SourceOf(companyID, versions, answers), SplitHistory(s.rows, d))
  {
    var src, h := SourceOf(companyID, versions, answers), SplitHistory(s.rows, d);
    forall v | v in h ensures src.info(v) == Success(s.rows[RowId(d, v)]) && h[v] == s.rows[RowId(d, v)].files {
      InVersions(s.rows, d, v);
      var p :| AnsweredBy(answers[v], s, d, v, p);
    }
  }

  /**
   What was read of a document of any run can be restored exactly when document
   and company have valid identifiers and no version repeats the files of the
   one before it.
   */
  lemma SnapshotIsRestorableIff(states: seq<Stores>, events: seq<Event>, i: nat, d: Id,
                                versions: seq<VersionTime>, answers: map<VersionTime, VersionAnswer>, doc: HashedDocument)
    requires Run(states, events) && i < |states|
    requires forall e :: e in events ==> Compensated(e)
    requires HasRows(states[i].rows, d) && AllAnswered(versions, answers, states[i], d)
    requires Snapshot(SourceOf(states[i].rows[RowId(d, Latest(states[i].rows, d))].companyID, versions, answers), d, doc)
    ensures doc.WellFormed() <==>
      && ValidId(d)
      && ValidId(states[i].rows[RowId(d, Latest(states[i].rows, d))].companyID)
      && !Changeless(SplitHistory(states[i].rows, d))
  {
    var s := states[i];
    NothingDangles(states, events, i);
    RunIsHonest(states, events, i);
    hide *;
    RestorableFromStores(s, d, versions, answers, doc);
  }

  lemma RestorableFromStores(s: Stores, d: Id, versions: seq<VersionTime>, answers: map<VersionTime, VersionAnswer>, doc: HashedDocument)
    requires Consistent(s) && HonestRows(s.rows)
    requires HasRows(s.rows, d) && AllAnswered(versions, answers, s, d)
    requires Snapshot(SourceOf(s.rows[RowId(d, Latest(s.rows, d))].companyID, versions, answers), d, doc)
    ensures doc.WellFormed() <==>
      && ValidId(d)
      && ValidId(s.rows[RowId(d, Latest(s.rows, d))].companyID)
      && !Changeless(SplitHistory(s.rows, d))
  {
    var latest := RowId(d, Latest(s.rows, d));
    var src, h := SourceOf(s.rows[latest].companyID, versions, answers), SplitHistory(s.rows, d);
    AnsweredHistory(s, d, s.rows[latest].companyID, versions, answers);
    RefusedIffChangeless(src, d, doc, h);
    SnapshotIsOf(src, d, doc);
    hide *;
    InSplitHistory(s.rows, d, latest.version);
    SnapshotHashes(src, d, doc, h, latest.version);
    forall v | v in doc.versions ensures ValidVersion(v) && doc.Complete(v) && doc.versions[v].fileHashes != map[] {
      SnapshotHashes(src, d, doc, h, v);
      InSplitHistory(s.rows, d, v);
      StoredRow(s, RowId(d, v));
    }
    WellFormedIffChanging(doc);
  }

  lemma SnapshotIsOf(src: Source, docID: Id, doc: HashedDocument)
    requires Snapshot(src, docID, doc)
    ensures doc.id == docID && src.companyID == Success(doc.companyID)
  {
  }

  lemma StoredRow(s: Stores, k: RowId)
    requires Consistent(s) && HonestRows(s.rows) && k in s.rows
    ensures ValidVersion(k.version) && s.rows[k].files != map[]
  {
    assert RowWellFormed(k, s.rows[k]);
  }

  /** A document with complete versions is well formed exactly when its identifiers are valid and every version changes something. */
  lemma WellFormedIffChanging(doc: HashedDocument)
    requires doc.versions != map[]
    requires forall v :: v in doc.versions ==> ValidVersion(v) && doc.Complete(v) && doc.versions[v].fileHashes != map[]
    ensures doc.WellFormed() <==>
      && ValidId(doc.id)
      && ValidId(doc.companyID)
      && !exists v :: v in doc.versions && doc.Predecessor(v).Some? && doc.PreviousHashes(v) == doc.versions[v].fileHashes
  {
    hide HashedDocument.Predecessor, HashedDocument.Complete, HashedDocument.PreviousHashes;
  }

  // -------------------------------------------------------- where restoring fails

  /** An append makes a document changeless exactly when it leaves the hashes as they were. */
  lemma AppendIsChangelessIff(s: Stores, s': Stores, op: Operation)
    requires op.Add? && AddStep(s, s', op, Done) && RowsKeyed(s.rows)
    requires !Changeless(SplitHistory(s.rows, op.docID))
    ensures var prev := s.rows[RowId(op.docID, Latest(s.rows, op.docID))];
            Changeless(SplitHistory(s'.rows, op.docID)) <==> HashesOf(AppendedFiles(prev.files, op.result.value)) == HashesOf(prev.files)
  {
    var d, v := op.docID, op.result.value.version;
    var latest := Latest(s.rows, d);
    SplitAddAppends(s, s', op);
    LatestInHistory(s.rows, d);
    hide AddStep, RowsKeyed, SplitHistory, Latest, AppendedFiles;
    HistoryGrows(SplitHistory(s.rows, d), SplitHistory(s'.rows, d), latest, v);
  }

  lemma HistoryGrows(h: History, h': History, latest: VersionTime, v: VersionTime)
    requires latest in h && v > latest && forall w :: w in h ==> w <= latest
    requires v in h' && h' == h[v := h'[v]]
    requires !Changeless(h)
    ensures Changeless(h') <==> SameFiles(h', latest, v)
  {
    if Changeless(h') {
      var w: VersionTime, u: VersionTime :| Follows(h', w, u) && SameFiles(h', w, u);
      NeighboursGrown(h, h', latest, v, w, u);
    }
    if SameFiles(h', latest, v) {
      assert Follows(h', latest, v);
    }
  }

  /** Neighbours in a grown history were neighbours before, or are the last two. */
  lemma NeighboursGrown(h: History, h': History, latest: VersionTime, v: VersionTime, w: VersionTime, u: VersionTime)
    requires latest in h && v > latest && forall x :: x in h ==> x <= latest
    requires v in h' && h' == h[v := h'[v]]
    requires Follows(h', w, u) && SameFiles(h', w, u)
    ensures (w == latest && u == v) || (Follows(h, w, u) && SameFiles(h, w, u))
  {
    assert forall x :: x in h ==> x in h';
  }

  /** The split store accepts an append that asks for nothing. */
  lemma ChangelessAppend(s: Stores, s': Stores, d: Id, userID: Id, v: VersionTime)
    requires Consistent(s) && HasRows(s.rows, d) && ValidId(d) && ValidId(userID) && v > Latest(s.rows, d)
    ensures var op := Add(d, userID, "", Some(CreateVersionResult(v, [], [], None)));
            Addable(s, op) && (AddStep(s, s', op, Done) ==> Changeless(SplitHistory(s'.rows, d)))
  {
    var op := Add(d, userID, "", Some(CreateVersionResult(v, [], [], None)));
    var latest := RowId(d, Latest(s.rows, d));
    AskedForNothing(s.rows[latest].files, op.result.value);
    assert RowWellFormed(latest, s.rows[latest]) && RowsKeyed(s.rows);
    hide Consistent, Latest, AppendedFiles, AddStep;
    if AddStep(s, s', op, Done) {
      LatestInHistory(s.rows, d);
      SplitAddAppends(s, s', op);
      hide SplitHistory, Addable;
      GrownByNothing(SplitHistory(s.rows, d), SplitHistory(s'.rows, d), latest.version, v);
    }
  }

  lemma AskedForNothing(files: FileMap, r: CreateVersionResult)
    requires r.writeFiles == [] && r.removeFiles == []
    ensures AppendedFiles(files, r) == files
  {
    assert Without(files, []) == files && InfosOf([]) == [];
  }

  lemma GrownByNothing(h: History, h': History, latest: VersionTime, v: VersionTime)
    requires latest in h && v > latest && forall w :: w in h ==> w <= latest
    requires h' == h[v := h[latest]]
    ensures Changeless(h')
  {
    assert Follows(h', latest, v) && SameFiles(h', latest, v);
  }

  /** The version before v and the one after it have the same files. */
  ghost predicate SameAround(h: History, v: VersionTime) {
    exists w, u :: Follows(h, w, v) && Follows(h, v, u) && SameFiles(h, w, u)
  }

  /** A deletion makes a history changeless exactly when the neighbours of the deleted version have the same files. */
  lemma DeletionIsChangelessIff(h: History, v: VersionTime)
    requires v in h && !Changeless(h)
    ensures Changeless(h - {v}) <==> SameAround(h, v)
  {
    if Changeless(h - {v}) {
      var w: VersionTime, u: VersionTime :| Follows(h - {v}, w, u) && SameFiles(h - {v}, w, u);
      NeighboursBefore(h, v, w, u);
    }
    if w, u :| Follows(h, w, v) && Follows(h, v, u) && SameFiles(h, w, u) {
      assert Follows(h - {v}, w, u) && SameFiles(h - {v}, w, u);
    }
  }

  /** Neighbours without v were neighbours before, or v was between them. */
  lemma NeighboursBefore(h: History, v: VersionTime, w: VersionTime, u: VersionTime)
    requires v in h && Follows(h - {v}, w, u) && SameFiles(h - {v}, w, u)
    ensures SameFiles(h, w, u) && (Follows(h, w, u) || (Follows(h, w, v) && Follows(h, v, u)))
  {
    assert forall x :: x in h ==> x == v || x in h - {v};
  }

  lemma SplitDeletion(s: Stores, s': Stores, d: Id, v: VersionTime)
    requires DeleteVersionStep(s, s', d, v, Done)
    ensures v in SplitHistory(s.rows, d) && SplitHistory(s'.rows, d) == SplitHistory(s.rows, d) - {v}
  {
    hide SplitHistory, SoleHashes, Purged;
    InSplitHistory(s.rows, d, v);
    var h, h' := SplitHistory(s.rows, d), SplitHistory(s'.rows, d);
    forall w ensures w in h' <==> w in h && w != v ensures w in h' ==> h'[w] == h[w] {
      InSplitHistory(s.rows, d, w);
      InSplitHistory(s'.rows, d, w);
    }
  }

  lemma LocalDeletion(t: LocalTree.Tree, t': LocalTree.Tree, d: Id, v: VersionTime)
    requires LocalTree.DeleteVersionStep(t, t', LocalTree.DeleteVersion(d, v), LocalTree.Done)
    requires d in t'.documents && d in t.documents
    ensures LocalHistory(t'.documents[d]) == LocalHistory(t.documents[d]) - {v}
  {
    assert t' == LocalTree.Erased(t, d, v);
  }

  lemma SplitDeletionIsChangelessIff(s: Stores, s': Stores, d: Id, v: VersionTime)
    requires DeleteVersionStep(s, s', d, v, Done) && !Changeless(SplitHistory(s.rows, d))
    ensures Changeless(SplitHistory(s'.rows, d)) <==> SameAround(SplitHistory(s.rows, d), v)
  {
    SplitDeletion(s, s', d, v);
    DeletionIsChangelessIff(SplitHistory(s.rows, d), v);
  }

  lemma LocalDeletionIsChangelessIff(t: LocalTree.Tree, t': LocalTree.Tree, d: Id, v: VersionTime)
    requires LocalTree.DeleteVersionStep(t, t', LocalTree.DeleteVersion(d, v), LocalTree.Done)
    requires d in t'.documents && d in t.documents && v in LocalTree.Listed(t.documents[d])
    requires !Changeless(LocalHistory(t.documents[d]))
    ensures Changeless(LocalHistory(t'.documents[d])) <==> SameAround(LocalHistory(t.documents[d]), v)
  {
    LocalDeletion(t, t', d, v);
    DeletionIsChangelessIff(LocalHistory(t.documents[d]), v);
  }

  /** So deleting the middle one of three versions, of which the last restored the first, spoils the restore in both back ends. */
  lemma DeletedMiddleSpoilsRestore(h: History, first: FileMap, other: FileMap)
    requires h == map[1 := first, 2 := other, 3 := first] && HashesOf(first) != HashesOf(other)
    ensures !Changeless(h) && Changeless(h - {2})
  {
    assert Follows(h, 1, 2) && Follows(h, 2, 3) && SameFiles(h, 1, 3);
    assert 2 in h && !Follows(h, 1, 3);
    DeletionIsChangelessIff(h, 2);
  }

  /** The split store accepts a document without a company, which no restore does. */
  lemma NilCompanyIsRefused(d: Id, userID: Id, data: Bytes, s: Stores, versions: seq<VersionTime>,
                            answers: map<VersionTime, VersionAnswer>, doc: HashedDocument)
    ensures var op := Create(NIL_ID, d, userID, "", 1, [File("f", data)], None);
            && Creatable(EMPTY, op)
            && (CreateStep(EMPTY, s, op, Done) ==>
                  && HasRows(s.rows, d)
                  && (Snapshot(SourceOf(s.rows[RowId(d, Latest(s.rows, d))].companyID, versions, answers), d, doc) ==> !doc.WellFormed()))
  {
    var op := Create(NIL_ID, d, userID, "", 1, [File("f", data)], None);
    if CreateStep(EMPTY, s, op, Done) {
      assert RowId(d, 1) in s.rows;
      assert s.rows[RowId(d, Latest(s.rows, d))].companyID == NIL_ID;
    }
  }
}
