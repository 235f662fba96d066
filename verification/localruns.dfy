/** What holds after every operation of every run over the directory back end. */
module LocalRuns {
  import opened Documents
  import opened HashedDocuments
  import opened LocalTree

  /** Fit for reading, without left-overs, with at least one version and with a company. */
  ghost predicate Fit(d: Id, dd: DocDir) {
    DocCommitted(d, dd) && Paired(dd) && dd.versionDirs != map[] && dd.companyFile.Some?
  }

  ghost predicate MarkersAgree(t: Tree) {
    forall m :: m in t.markers <==> m.doc in t.documents && t.documents[m.doc].companyFile == Some(m.company)
  }

  ghost predicate Whole(t: Tree) {
    (forall d :: d in t.documents ==> Fit(d, t.documents[d])) && MarkersAgree(t)
  }

  lemma WholeMeans(t: Tree)
    ensures Whole(t) <==> Committed(t) && Tidy(t) && Indexed(t)
  {
    if Committed(t) && Tidy(t) && Indexed(t) {
      forall d | d in t.documents ensures Fit(d, t.documents[d]) {
        assert DocIndexed(t, d);
      }
    }
    if Whole(t) {
      forall d ensures DocIndexed(t, d) {
        assert d in t.documents ==> Fit(d, t.documents[d]);
      }
    }
  }

  datatype LocalEvent = LocalEvent(op: LocalOperation, out: LocalOutcome)

  /** A run in which any file operation may fail. */
  ghost predicate LocalRun(trees: seq<Tree>, events: seq<LocalEvent>) {
    && |trees| == |events| + 1
    && trees[0] == NO_TREE
    && forall i :: 0 <= i < |events| ==> LocalStep(trees[i], trees[i + 1], events[i].op, events[i].out)
  }

  /** A run in which nothing fails but validation and callbacks. */
  ghost predicate QuietRun(trees: seq<Tree>, events: seq<LocalEvent>) {
    LocalRun(trees, events) && forall i :: 0 <= i < |events| ==> events[i].out.Quiet()
  }

  // ------------------------------------------------------------- single changes

  lemma MovedKeepsWhole(t: Tree, d: Id, c: Id)
    requires Whole(t) && d in t.documents && t.documents[d].companyFile.Some?
    ensures Whole(Moved(t, d, c))
  {
    hide Fit;
    var t' := Moved(t, d, c);
    assert Fit(d, t.documents[d]);
    FitElsewhere(d, t.documents[d], c);
    forall e | e in t'.documents ensures Fit(e, t'.documents[e]) {
      assert Fit(e, t.documents[e]);
    }
  }

  lemma FitElsewhere(d: Id, dd: DocDir, c: Id)
    requires Fit(d, dd)
    ensures Fit(d, dd.(companyFile := Some(c)))
  {
    assert Listed(dd.(companyFile := Some(c))) == Listed(dd);
  }

  lemma RemovedKeepsWhole(t: Tree, d: Id)
    requires Whole(t) && d in t.documents && t.documents[d].companyFile.Some?
    ensures Whole(Removed(t, d))
  {
    hide Fit;
  }

  /** A document directory is replaced by one that is fit, and keeps its company. */
  lemma ReplacedKeepsWhole(t: Tree, d: Id, dd: DocDir)
    requires Whole(t) && d in t.documents && dd.companyFile == t.documents[d].companyFile
    requires Fit(d, dd)
    ensures Whole(SetDoc(t, d, dd))
  {
    hide Fit;
  }

  lemma InsertedKeepsWhole(t: Tree, d: Id, companyID: Id, dd: DocDir)
    requires Whole(t) && d !in t.documents && dd.companyFile == Some(companyID)
    requires Fit(d, dd)
    ensures Whole(Tree(t.documents[d := dd], t.markers + {Marker(companyID, d)}))
  {
    hide Fit;
  }

  /** With nothing left over there is nothing to erase at a later version time. */
  lemma NothingToErase(t: Tree, d: Id, v: VersionTime)
    requires d in t.documents && Paired(t.documents[d]) && v !in Listed(t.documents[d])
    ensures Erased(t, d, v) == t
  {
    var dd := t.documents[d];
    assert Listed(dd) == dd.versionDirs.Keys;
    assert dd.versionDirs - {v} == dd.versionDirs && dd.infoFiles - {v} == dd.infoFiles;
    assert t.documents[d := dd] == t.documents;
  }

  // ----------------------------------------------------------------- every step

  lemma AppendedIsFit(d: Id, dd: DocDir, dd': DocDir, userID: Id, reason: string, r: CreateVersionResult)
    requires Fit(d, dd) && Appended(dd, dd', d, userID, reason, r)
    ensures Fit(d, dd') && dd'.companyFile == dd.companyFile
  {
    hide Matches, Summarizes, LatestOf, NewFiles, FilesIn;
    var prev := dd.infoFiles[LatestOf(dd)];
    SummaryMatches(dd'.infoFiles[r.version], r.newCompanyID.GetOr(prev.companyID), d, r.version, Some(prev.version), userID, reason,
                   NewFiles(dd.versionDirs[LatestOf(dd)], prev, r), dd.versionDirs[LatestOf(dd)]);
    assert r.version in dd'.versionDirs;
    forall v | v in Listed(dd') ensures Matches(d, v, dd'.versionDirs[v], dd'.infoFiles[v]) {
      assert v != r.version ==> v in Listed(dd);
    }
  }

  lemma CreateKeepsWhole(t: Tree, t': Tree, op: LocalOperation, out: LocalOutcome)
    requires op.Create? && CreateStep(t, t', op, out) && out.Quiet() && Whole(t)
    ensures Whole(t')
  {
    if out.Done? {
      var info, dir := t'.documents[op.docID].infoFiles[op.version], WriteAll(map[], op.files);
      SummaryMatches(info, op.companyID, op.docID, op.version, None, op.userID, op.reason, dir, map[]);
      InsertedKeepsWhole(t, op.docID, op.companyID, DocDir(Some(op.companyID), map[op.version := dir], map[op.version := info]));
    } else if op.docID !in t.documents {
      assert Marker(op.companyID, op.docID) !in t.markers;
      assert t'.markers == t.markers;
    }
  }

  lemma LatestIsKeyed(d: Id, dd: DocDir)
    requires Fit(d, dd) && Listed(dd) != {}
    ensures dd.infoFiles[LatestOf(dd)].version == LatestOf(dd)
  {
    assert Matches(d, LatestOf(dd), dd.versionDirs[LatestOf(dd)], dd.infoFiles[LatestOf(dd)]);
  }

  lemma AddKeepsWhole(t: Tree, t': Tree, op: LocalOperation, out: LocalOutcome)
    requires op.Add? && AddStep(t, t', op, out) && out.Quiet() && Whole(t)
    ensures Whole(t')
  {
    hide Whole, Moved, LatestOf, Fit, Erased;
    var d := op.docID;
    if t' != t {
      var dd := t.documents[d];
      WholeDoc(t, d);
      if out.Done? {
        var dd' :| Accepted(t, t', op, dd');
        AppendedIsFit(d, dd, dd', op.userID, op.reason, op.result.value);
        ReplacedKeepsWhole(t, d, dd');
        if t' != SetDoc(t, d, dd') {
          MovedKeepsWhole(SetDoc(t, d, dd'), d, dd'.infoFiles[op.result.value.version].companyID);
        }
      } else {
        var r := op.result.value;
        LatestIsKeyed(d, dd);
        var was := dd.infoFiles[LatestOf(dd)].companyID;
        NothingToErase(t, d, r.version);
        if was != r.newCompanyID.GetOr(was) && out.error == CallbackFailed {
          MovedTwice(t, d, r.newCompanyID.GetOr(was), was);
          var moved := Moved(Moved(t, d, r.newCompanyID.GetOr(was)), d, was);
          MovedKeepsWhole(t, d, r.newCompanyID.GetOr(was));
          MovedKeepsWhole(Moved(t, d, r.newCompanyID.GetOr(was)), d, was);
          NothingToErase(moved, d, r.version);
        }
      }
    }
  }

  lemma WholeDoc(t: Tree, d: Id)
    requires Whole(t) && d in t.documents
    ensures Fit(d, t.documents[d])
    ensures DocCommitted(d, t.documents[d]) && Paired(t.documents[d]) && t.documents[d].companyFile.Some?
  {
  }

  lemma MovedTwice(t: Tree, d: Id, now: Id, was: Id)
    requires d in t.documents && t.documents[d].companyFile.Some?
    ensures d in Moved(t, d, now).documents && Moved(t, d, now).documents[d].companyFile.Some?
    ensures d in Moved(Moved(t, d, now), d, was).documents
    ensures Moved(Moved(t, d, now), d, was).documents[d] == t.documents[d].(companyFile := Some(was))
    ensures Listed(Moved(Moved(t, d, now), d, was).documents[d]) == Listed(t.documents[d])
  {
  }

  lemma DeleteVersionKeepsWhole(t: Tree, t': Tree, op: LocalOperation, out: LocalOutcome)
    requires op.DeleteVersion? && DeleteVersionStep(t, t', op, out) && out.Quiet() && Whole(t)
    ensures Whole(t')
  {
    if out.Done? {
      var dd := WithoutVersion(t.documents[op.docID], op.version);
      assert Fit(op.docID, t.documents[op.docID]);
      if Listed(dd) != {} {
        ErasedIsFit(op.docID, t.documents[op.docID], op.version);
        ReplacedKeepsWhole(t, op.docID, dd);
      } else {
        RemovedKeepsWhole(t, op.docID);
      }
    }
  }

  lemma ErasedIsFit(d: Id, dd: DocDir, v: VersionTime)
    requires Fit(d, dd) && Listed(WithoutVersion(dd, v)) != {}
    ensures Fit(d, WithoutVersion(dd, v))
  {
    var dd' := WithoutVersion(dd, v);
    assert forall w :: w in Listed(dd') ==> w in Listed(dd);
    var w :| w in Listed(dd');
    assert w in dd'.versionDirs;
  }

  lemma RestoredIsFit(doc: HashedDocument, dd: DocDir, dd': DocDir)
    requires doc.WellFormed() && VersionsRestored(dd, dd', doc, doc.versions.Keys)
    requires DocCommitted(doc.id, dd) && Paired(dd) && dd.companyFile.Some?
    ensures Fit(doc.id, dd') && dd'.companyFile == dd.companyFile
  {
    hide Matches, Summarizes, HashedDocument.Predecessor, Contents;
    forall v | v in Listed(dd') ensures Matches(doc.id, v, dd'.versionDirs[v], dd'.infoFiles[v]) {
      if v in doc.versions && v !in Listed(dd) {
        assert VersionRestored(dd, dd', doc, v);
        SummaryMatches(dd'.infoFiles[v], doc.companyID, doc.id, v, doc.Predecessor(v), doc.versions[v].commitUserID,
                       doc.versions[v].commitReason, dd'.versionDirs[v], PrevDir(dd', doc.Predecessor(v)));
      } else {
        assert v in Listed(dd);
      }
    }
    var v :| v in doc.versions;
    assert v in dd'.versionDirs;
  }

  lemma RestoreKeepsWhole(t: Tree, t': Tree, op: LocalOperation, out: LocalOutcome)
    requires op.Restore? && RestoreStep(t, t', op, out) && out.Quiet() && Whole(t)
    ensures Whole(t')
  {
    if out.Done? {
      hide Whole, HashedDocument.WellFormed, VersionsRestored, Removed, DocCommitted, Fit, Paired;
      var doc := op.doc;
      var d := doc.id;
      var base := RestoreBase(t, d, op.recreate);
      if op.recreate && d in t.documents {
        RemovedKeepsWhole(t, d);
      }
      RestoreOverWhole(base, t', doc);
    }
  }

  lemma RestoreOverWhole(base: Tree, t': Tree, doc: HashedDocument)
    requires Whole(base) && doc.WellFormed() && doc.id in t'.documents
    requires var start := RestoreStart(base, doc.id, doc.companyID);
             && start.documents[doc.id].companyFile == Some(doc.companyID)
             && t' == SetDoc(start, doc.id, t'.documents[doc.id])
             && VersionsRestored(start.documents[doc.id], t'.documents[doc.id], doc, doc.versions.Keys)
    ensures Whole(t')
  {
    hide HashedDocument.WellFormed, VersionsRestored, Whole, Fit, DocCommitted, Paired;
    var d := doc.id;
    var dd' := t'.documents[d];
    if d in base.documents {
      WholeDoc(base, d);
      RestoredIsFit(doc, base.documents[d], dd');
      ReplacedKeepsWhole(base, d, dd');
    } else {
      EmptyDirIsFit(d, doc.companyID);
      RestoredIsFit(doc, DocDir(Some(doc.companyID), map[], map[]), dd');
      InsertedKeepsWhole(base, d, doc.companyID, dd');
      assert base.documents[d := DocDir(Some(doc.companyID), map[], map[])][d := dd'] == base.documents[d := dd'];
    }
  }

  lemma EmptyDirIsFit(d: Id, companyID: Id)
    ensures DocCommitted(d, DocDir(Some(companyID), map[], map[])) && Paired(DocDir(Some(companyID), map[], map[]))
  {
  }

  lemma StepKeepsWhole(t: Tree, t': Tree, e: LocalEvent)
    requires LocalStep(t, t', e.op, e.out) && e.out.Quiet() && Whole(t)
    ensures Whole(t')
  {
    match e.op
    case Create(_, _, _, _, _, _) => CreateKeepsWhole(t, t', e.op, e.out);
    case Add(_, _, _, _) => AddKeepsWhole(t, t', e.op, e.out);
    case Delete(d) => if e.out.Done? { RemovedKeepsWhole(t, d); }
    case DeleteVersion(_, _) => DeleteVersionKeepsWhole(t, t', e.op, e.out);
    case SetCompany(d, c) => if e.out.Done? { MovedKeepsWhole(t, d, c); }
    case Restore(_, _) => RestoreKeepsWhole(t, t', e.op, e.out);
  }

  lemma NothingIsWhole()
    ensures Whole(NO_TREE)
  {
  }

  /** A quiet run leaves no left-over, and the company index agrees with the documents all along. */
  lemma {:induction false} QuietRunIsWhole(trees: seq<Tree>, events: seq<LocalEvent>, i: nat)
    requires QuietRun(trees, events) && i < |trees|
    ensures Whole(trees[i])
    ensures Committed(trees[i]) && Tidy(trees[i]) && Indexed(trees[i])
  {
    WholeMeans(trees[i]);
    NothingIsWhole();
    hide LocalStep, Whole, Committed, Tidy, Indexed;
    if i > 0 {
      QuietRunIsWhole(trees, events, i - 1);
      var e := events[i - 1];
      StepKeepsWhole(trees[i - 1], trees[i - 1 + 1], e);
    }
  }

  /** The documents marked for a company are exactly those whose company.id names it. */
  lemma CompanyIndexAgrees(trees: seq<Tree>, events: seq<LocalEvent>, i: nat, c: Id, d: Id)
    requires QuietRun(trees, events) && i < |trees|
    ensures Marker(c, d) in trees[i].markers <==> d in trees[i].documents && trees[i].documents[d].companyFile == Some(c)
  {
    QuietRunIsWhole(trees, events, i);
    WholeMeans(trees[i]);
  }

  // ------------------------------------------------------------ a failed append

  /** Nothing is at the place of version v. */
  predicate PlaceFree(t: Tree, d: Id, v: VersionTime)
    requires d in t.documents
  {
    v !in t.documents[d].versionDirs && v !in t.documents[d].infoFiles
  }

  /**
   An append that fails after its place was determined leaves the tree as it
   was exactly when nothing was left over at that place and, where a failed
   callback moves the company back, company.id agreed with the latest version.
   */
  lemma FailedAddIsInvisibleIff(t: Tree, t': Tree, op: LocalOperation, out: LocalOutcome)
    requires op.Add? && AddStep(t, t', op, out) && Indexed(t)
    requires out.Failed? && out.Quiet() && AfterPlacing(out.error)
    ensures op.docID in t.documents && Listed(t.documents[op.docID]) != {} && op.result.Some?
    ensures var dd := t.documents[op.docID];
            var was := dd.infoFiles[LatestOf(dd)].companyID;
            t' == t <==>
              && PlaceFree(t, op.docID, op.result.value.version)
              && (out.error == CallbackFailed && op.result.value.newCompanyID.GetOr(was) != was ==> dd.companyFile == Some(was))
  {
    var d, v := op.docID, op.result.value.version;
    var dd := t.documents[d];
    var was := dd.infoFiles[LatestOf(dd)].companyID;
    var now := op.result.value.newCompanyID.GetOr(was);
    assert DocIndexed(t, d);
    ErasedIsSameIffFree(t, d, v);
    if out.error == CallbackFailed && now != was {
      MovedTwice(t, d, now, was);
      var moved := Moved(Moved(t, d, now), d, was);
      assert t' == Erased(moved, d, v);
      assert t'.documents[d] == WithoutVersion(dd, v).(companyFile := Some(was));
      if dd.companyFile == Some(was) {
        MovedBack(t, d, now);
      }
    }
  }

  lemma ErasedIsSameIffFree(t: Tree, d: Id, v: VersionTime)
    requires d in t.documents
    ensures Erased(t, d, v) == t <==> PlaceFree(t, d, v)
  {
    var dd := t.documents[d];
    if PlaceFree(t, d, v) {
      assert dd.versionDirs - {v} == dd.versionDirs && dd.infoFiles - {v} == dd.infoFiles;
      assert t.documents[d := dd] == t.documents;
    } else {
      assert Erased(t, d, v).documents[d] == WithoutVersion(dd, v);
      assert WithoutVersion(dd, v).versionDirs != dd.versionDirs || WithoutVersion(dd, v).infoFiles != dd.infoFiles by {
        assert v in dd.versionDirs ==> v !in WithoutVersion(dd, v).versionDirs;
        assert v in dd.infoFiles ==> v !in WithoutVersion(dd, v).infoFiles;
      }
    }
  }

  lemma MovedBack(t: Tree, d: Id, now: Id)
    requires Indexed(t) && d in t.documents && t.documents[d].companyFile.Some?
    requires now != t.documents[d].companyFile.value
    ensures d in Moved(t, d, now).documents && Moved(t, d, now).documents[d].companyFile.Some?
    ensures Moved(Moved(t, d, now), d, t.documents[d].companyFile.value) == t
  {
    var cur := t.documents[d].companyFile.value;
    var back := Moved(Moved(t, d, now), d, cur);
    assert Marker(cur, d) in t.markers && Marker(now, d) !in t.markers;
    assert back.documents == t.documents;
    assert back.markers == t.markers;
  }

  /** In a quiet run a failed append changes nothing but, perhaps, a company that was set by hand. */
  lemma FailedAddAfterQuietRun(trees: seq<Tree>, events: seq<LocalEvent>, i: nat, t': Tree, op: LocalOperation, out: LocalOutcome)
    requires QuietRun(trees, events) && i < |trees|
    requires op.Add? && AddStep(trees[i], t', op, out) && out.Failed? && out.Quiet()
    requires out.error != CallbackFailed || (op.result.Some? && op.result.value.newCompanyID.None?)
    ensures t' == trees[i]
  {
    var t := trees[i];
    QuietRunIsWhole(trees, events, i);
    WholeMeans(t);
    if AfterPlacing(out.error) {
      FailedAddIsInvisibleIff(t, t', op, out);
      var dd := t.documents[op.docID];
      WholeDoc(t, op.docID);
      LatestIsKeyed(op.docID, dd);
      assert op.result.value.version !in Listed(dd);
      assert Listed(dd) == dd.versionDirs.Keys;
    }
  }

  /** A company set by hand is lost when the callback of an append to a third company fails. */
  lemma CompanySetByHandIsLost(t: Tree, t1: Tree, t2: Tree, d: Id, hand: Id, op: LocalOperation, uncleaned: bool)
    requires Whole(t) && d in t.documents && LatestCompany(t, d) != hand
    requires SetCompanyStep(t, t1, SetCompany(d, hand), Done)
    requires op.Add? && op.docID == d && op.result.Some? && op.result.value.newCompanyID.GetOr(LatestCompany(t, d)) != LatestCompany(t, d)
    requires AddStep(t1, t2, op, Failed(CallbackFailed, false))
    ensures d in t2.documents && t2.documents[d].companyFile == Some(LatestCompany(t, d))
    ensures t2 != t1
  {
    WholeDoc(t, d);
    MovedKeepsWhole(t, d, hand);
    assert t1 == Moved(t, d, hand);
    WholeMeans(t1);
    assert t1.documents[d] == t.documents[d].(companyFile := Some(hand));
    assert Listed(t1.documents[d]) == Listed(t.documents[d]);
    var was := LatestCompany(t, d);
    assert LatestCompany(t1, d) == was;
    FailedAddIsInvisibleIff(t1, t2, op, Failed(CallbackFailed, false));
    MovedTwice(t1, d, op.result.value.newCompanyID.GetOr(was), was);
  }

  /** The company that the latest version names. */
  function LatestCompany(t: Tree, d: Id): Id
    requires d in t.documents
  {
    if Listed(t.documents[d]) == {} then NIL_ID else t.documents[d].infoFiles[LatestOf(t.documents[d])].companyID
  }

  /** company.id follows a version that changes the company, and is left alone by one that does not. */
  lemma AppendedDocumentBelongs(t: Tree, t': Tree, op: LocalOperation)
    requires op.Add? && AddStep(t, t', op, Done) && Committed(t)
    ensures op.docID in t.documents && op.docID in t'.documents && op.result.Some?
    ensures var was := LatestCompany(t, op.docID);
            var now := op.result.value.newCompanyID.GetOr(was);
            && LatestCompany(t', op.docID) == now
            && t'.documents[op.docID].companyFile == (if now == was then t.documents[op.docID].companyFile else Some(now))
            && (now != was ==> Marker(now, op.docID) in t'.markers)
    ensures OthersUntouched(t, t', op.docID)
  {
    var d, r := op.docID, op.result.value;
    var dd := t.documents[d];
    var dd' :| Accepted(t, t', op, dd');
    assert DocCommitted(d, dd);
    AppendedIsLatest(dd, dd', d, op.userID, op.reason, r);
    FollowedHas(t, d, dd', LatestCompany(t, d), dd'.infoFiles[r.version].companyID);
    hide Appended, LatestOf, DocCommitted, Listed, Followed, OthersUntouched, SetDoc;
  }

  lemma FollowedHas(t: Tree, d: Id, dd: DocDir, was: Id, now: Id)
    requires d in t.documents && (was != now ==> dd.companyFile.Some?)
    ensures var t' := Followed(SetDoc(t, d, dd), d, was, now);
            && d in t'.documents
            && t'.documents[d] == (if now == was then dd else dd.(companyFile := Some(now)))
            && Listed(t'.documents[d]) == Listed(dd)
            && (now != was ==> Marker(now, d) in t'.markers)
            && OthersUntouched(t, t', d)
  {
  }

  lemma AppendedIsLatest(dd: DocDir, dd': DocDir, d: Id, userID: Id, reason: string, r: CreateVersionResult)
    requires Appended(dd, dd', d, userID, reason, r) && DocCommitted(d, dd)
    ensures Listed(dd) != {} && Listed(dd') != {} && LatestOf(dd') == r.version && dd'.companyFile == dd.companyFile
    ensures dd'.infoFiles[r.version].companyID == r.newCompanyID.GetOr(dd.infoFiles[LatestOf(dd)].companyID)
  {
    hide IsDiff, NewFiles, FilesIn;
    assert dd.infoFiles[LatestOf(dd)].version == LatestOf(dd);
    assert Listed(dd') == Listed(dd) + {r.version};
  }

  // ------------------------------------------------------------ after a file error

  function Target(op: LocalOperation): Id {
    match op
    case Create(_, d, _, _, _, _) => d
    case Add(d, _, _, _) => d
    case Delete(d) => d
    case DeleteVersion(d, _) => d
    case SetCompany(d, _) => d
    case Restore(doc, _) => doc.id
  }

  lemma RemovalKeepsOthers(t: Tree, d: Id, f: RemovalFaults)
    requires d in t.documents
    ensures OthersUntouched(t, RemovedUnder(t, d, f), d)
  {
  }

  lemma VersionDeletionKeepsOthers(t: Tree, d: Id, v: VersionTime, f: DeletionFaults)
    requires d in t.documents
    ensures OthersUntouched(t, VersionDeletedUnder(t, d, v, f), d)
  {
    if !f.dir {
      var half := if f.info then WithoutDir(t, d, v) else Erased(t, d, v);
      assert half.documents - {d} == t.documents - {d};
      RemovalKeepsOthers(half, d, f.removal);
    }
  }

  lemma AddKeepsOthers(t: Tree, t': Tree, op: LocalOperation, out: LocalOutcome)
    requires op.Add? && AddStep(t, t', op, out)
    ensures OthersUntouched(t, t', op.docID)
  {
    hide Appended, LatestOf, SameVersions;
  }

  lemma RestoreKeepsOthers(t: Tree, t': Tree, op: LocalOperation, out: LocalOutcome)
    requires op.Restore? && RestoreStep(t, t', op, out)
    ensures OthersUntouched(t, t', op.doc.id)
  {
    hide HashedDocument.WellFormed, VersionsRestored, StoredKept, HalfBuilt;
    if out.Done? {
      var base := RestoreBase(t, op.doc.id, op.recreate);
      assert base.documents - {op.doc.id} == t.documents - {op.doc.id};
      assert RestoreStart(base, op.doc.id, op.doc.companyID).documents - {op.doc.id} == base.documents - {op.doc.id};
    }
  }

  /** Whatever fails, an operation touches no document but its own. */
  lemma StepKeepsOthers(t: Tree, t': Tree, e: LocalEvent)
    requires LocalStep(t, t', e.op, e.out)
    ensures OthersUntouched(t, t', Target(e.op))
  {
    match e.op
    case Create(_, _, _, _, _, _) =>
    case Add(_, _, _, _) => AddKeepsOthers(t, t', e.op, e.out);
    case Delete(d) =>
      if e.out.Failed? && t' != t {
        var f :| t' == RemovedUnder(t, d, f);
        RemovalKeepsOthers(t, d, f);
      }
    case DeleteVersion(d, v) =>
      if e.out.Failed? && t' != t {
        var f :| t' == VersionDeletedUnder(t, d, v, f);
        VersionDeletionKeepsOthers(t, d, v, f);
      }
    case SetCompany(_, _) =>
    case Restore(_, _) => RestoreKeepsOthers(t, t', e.op, e.out);
  }

  /** Directory and markers of d are the same. */
  ghost predicate DocUntouched(t: Tree, t': Tree, d: Id) {
    && (d in t'.documents <==> d in t.documents)
    && (d in t.documents ==> t'.documents[d] == t.documents[d])
    && forall c: Id :: Marker(c, d) in t'.markers <==> Marker(c, d) in t.markers
  }

  lemma OtherIsUntouched(t: Tree, t': Tree, d: Id, other: Id)
    requires OthersUntouched(t, t', d) && other != d
    ensures DocUntouched(t, t', other)
  {
    assert other in t.documents - {d} <==> other in t.documents;
    assert other in t'.documents - {d} <==> other in t'.documents;
  }

  /** Along any stretch of any run, a document that no operation is for stays as it is. */
  lemma {:induction false} OnlyTargetsChange(trees: seq<Tree>, events: seq<LocalEvent>, i: nat, j: nat, d: Id)
    requires LocalRun(trees, events) && i <= j < |trees|
    requires forall k :: i <= k < j ==> Target(events[k].op) != d
    ensures DocUntouched(trees[i], trees[j], d)
    decreases j
  {
    hide LocalStep;
    if i < j {
      OnlyTargetsChange(trees, events, i, j - 1, d);
      assert LocalStep(trees[j - 1], trees[j - 1 + 1], events[j - 1].op, events[j - 1].out);
      StepKeepsOthers(trees[j - 1], trees[j], events[j - 1]);
      OtherIsUntouched(trees[j - 1], trees[j], Target(events[j - 1].op), d);
    }
  }

  // -------------------------------------------------- a delete of a version that fails

  /** A delete of a version either has changed nothing, or has put the version out of sight. */
  lemma DeletedVersionIsOutOfSight(t: Tree, d: Id, v: VersionTime, f: DeletionFaults)
    requires d in t.documents && v in Listed(t.documents[d])
    ensures var t' := VersionDeletedUnder(t, d, v, f);
            && (t' == t <==> f.dir)
            && (d in t'.documents && v in Listed(t'.documents[d]) <==> f.dir)
  {
    var t' := VersionDeletedUnder(t, d, v, f);
    if !f.dir {
      assert d in t'.documents ==> v !in t'.documents[d].versionDirs;
    }
  }

  /** The other versions stay exactly when they could be listed, or when the directory could not be removed either. */
  lemma OtherVersionsStayIff(t: Tree, d: Id, v: VersionTime, f: DeletionFaults)
    requires d in t.documents && v in t.documents[d].versionDirs && Listed(t.documents[d]) - {v} != {}
    ensures var t' := VersionDeletedUnder(t, d, v, f);
            && (d in t'.documents <==> f.dir || !f.listing || f.removal.docDir)
            && (d in t'.documents ==> forall w :: w in Listed(t.documents[d]) && w != v ==>
                  && w in Listed(t'.documents[d])
                  && t'.documents[d].versionDirs[w] == t.documents[d].versionDirs[w]
                  && t'.documents[d].infoFiles[w] == t.documents[d].infoFiles[w])
  {
    var half := if f.info then WithoutDir(t, d, v) else Erased(t, d, v);
    assert Listed(half.documents[d]) == Listed(t.documents[d]) - {v};
  }

  /** So one failure, to list the versions left, deletes the whole document. */
  lemma FailedListingDeletesDocument(t: Tree, d: Id, v: VersionTime)
    requires d in t.documents && v in t.documents[d].versionDirs && t.documents[d].companyFile.Some?
    ensures VersionDeletedUnder(t, d, v, DeletionFaults(false, false, true, NO_FAULTS)) == Removed(t, d)
    ensures DeleteVersionStep(t, Removed(t, d), DeleteVersion(d, v), Failed(IOFailed, false))
  {
    var f := DeletionFaults(false, false, true, NO_FAULTS);
    assert Erased(t, d, v).documents - {d} == t.documents - {d};
    assert VersionDeletedUnder(t, d, v, f) == Removed(t, d);
  }

  /** A delete leaves an orphaned record exactly when it fails on the record alone and keeps the document. */
  lemma DeletionOrphansIff(t: Tree, d: Id, v: VersionTime, f: DeletionFaults)
    requires d in t.documents && v in Listed(t.documents[d])
    ensures var t' := VersionDeletedUnder(t, d, v, f);
            (d in t'.documents && v in t'.documents[d].infoFiles && v !in t'.documents[d].versionDirs)
              <==> d in t'.documents && !f.dir && f.info
  {
    assert !f.dir && !f.info ==> v !in Erased(t, d, v).documents[d].infoFiles;
  }

  // ------------------------------------------------- a restore that fails at the start

  /** A directory without company.id refuses every restore, and none changes it. */
  lemma BareDirectoryRefusesRestore(t: Tree, t': Tree, doc: HashedDocument, recreate: bool, out: LocalOutcome)
    requires doc.id in t.documents && t.documents[doc.id].companyFile.None?
    ensures !Restorable(t, doc, recreate)
    ensures RestoreStep(t, t', Restore(doc, recreate), out) ==> out.Failed? && t' == t
  {
    hide HashedDocument.WellFormed, VersionsRestored;
  }

  /** Deleting it reports an error and makes way for the restore all the same. */
  lemma BareDirectoryGoesWithDelete(t: Tree, doc: HashedDocument, recreate: bool)
    requires doc.id in t.documents && t.documents[doc.id].companyFile.None?
    ensures var t' := RemovedUnder(t, doc.id, NO_FAULTS);
            && DeleteStep(t, t', Delete(doc.id), Failed(IOFailed, false))
            && !DeleteStep(t, t', Delete(doc.id), Done)
            && (Restorable(t', doc, recreate) <==> doc.WellFormed())
  {
    hide HashedDocument.WellFormed;
  }

  /** A directory with a company but without its marker takes additive restores, and its document is never listed for the company. */
  lemma UnmarkedDirectoryStaysUnlisted(t: Tree, t': Tree, doc: HashedDocument)
    requires doc.id in t.documents && t.documents[doc.id].companyFile == Some(doc.companyID)
    requires Marker(doc.companyID, doc.id) !in t.markers
    requires RestoreStep(t, t', Restore(doc, false), Done)
    ensures doc.id in t'.documents && t'.documents[doc.id].companyFile == Some(doc.companyID)
    ensures Marker(doc.companyID, doc.id) !in t'.markers && !Indexed(t')
  {
    hide HashedDocument.WellFormed, VersionRestored;
  }

  /** What the first steps of a restore leave when they fail is one of the two. */
  lemma UnfinishedStartBlocks(t: Tree, t': Tree, doc: HashedDocument)
    requires Started(t, t', doc.id, doc.companyID) && t' != t
    requires forall c: Id :: Marker(c, doc.id) !in t.markers
    ensures doc.id in t'.documents && Marker(doc.companyID, doc.id) !in t'.markers
    ensures t'.documents[doc.id].companyFile.None? || t'.documents[doc.id].companyFile == Some(doc.companyID)
    ensures t'.documents[doc.id].companyFile.None? ==> forall recreate :: !Restorable(t', doc, recreate)
  {
    hide HashedDocument.WellFormed;
  }
}
