/**
 The connection over two directories. Every file operation is one step that
 changes the tree or fails, and the tree can be read between any two steps.
 */
module LocalConn {
  import opened Documents
  import opened Ordering
  import opened HashedDocuments
  import opened LocalTree
  import VersionInfos

  // ------------------------------------------- what keeps a tree fit for reading

  lemma DocChangeKeepsCommitted(t: Tree, d: Id, dd: DocDir)
    requires Committed(t) && DocCommitted(d, dd)
    ensures Committed(SetDoc(t, d, dd))
  {
  }

  lemma UnlistedDirKeepsCommitted(t: Tree, d: Id, v: VersionTime, dir: Files)
    requires Committed(t) && d in t.documents && v !in t.documents[d].infoFiles
    ensures Committed(SetDoc(t, d, t.documents[d].(versionDirs := t.documents[d].versionDirs[v := dir])))
  {
    var dd := t.documents[d].(versionDirs := t.documents[d].versionDirs[v := dir]);
    assert forall w :: w in Listed(dd) ==> w in Listed(t.documents[d]);
    DocChangeKeepsCommitted(t, d, dd);
  }

  lemma InfoLastKeepsCommitted(t: Tree, d: Id, info: VersionInfo)
    requires Committed(t) && d in t.documents && info.version in t.documents[d].versionDirs
    requires Matches(d, info.version, t.documents[d].versionDirs[info.version], info)
    ensures Committed(SetDoc(t, d, t.documents[d].(infoFiles := t.documents[d].infoFiles[info.version := info])))
  {
    var dd := t.documents[d].(infoFiles := t.documents[d].infoFiles[info.version := info]);
    assert forall w :: w in Listed(dd) && w != info.version ==> w in Listed(t.documents[d]);
    DocChangeKeepsCommitted(t, d, dd);
  }

  lemma RemovalKeepsCommitted(t: Tree, d: Id, dirs: set<VersionTime>, infos: set<VersionTime>)
    requires Committed(t) && d in t.documents
    ensures Committed(SetDoc(t, d, t.documents[d].(versionDirs := t.documents[d].versionDirs - dirs,
                                                   infoFiles := t.documents[d].infoFiles - infos)))
  {
    var dd := t.documents[d].(versionDirs := t.documents[d].versionDirs - dirs, infoFiles := t.documents[d].infoFiles - infos);
    assert forall w :: w in Listed(dd) ==> w in Listed(t.documents[d]);
    DocChangeKeepsCommitted(t, d, dd);
  }

  lemma SameVersionsKeepCommitted(t: Tree, t': Tree)
    requires Committed(t) && SameVersions(t, t')
    ensures Committed(t')
  {
    forall d | d in t'.documents ensures DocCommitted(d, t'.documents[d]) {
      assert DocCommitted(d, t.documents[d]);
      assert Listed(t'.documents[d]) == Listed(t.documents[d]);
    }
  }

  /** No info file waits for a directory at the place of version v. */
  predicate NoOrphan(t: Tree, d: Id, v: VersionTime) {
    d in t.documents && v in t.documents[d].infoFiles ==> v in t.documents[d].versionDirs
  }

  function WithDir(t: Tree, d: Id, v: VersionTime, dir: Files): Tree
    requires d in t.documents
  {
    SetDoc(t, d, t.documents[d].(versionDirs := t.documents[d].versionDirs[v := dir]))
  }

  lemma WithDirTwice(t: Tree, d: Id, v: VersionTime, first: Files, second: Files)
    requires d in t.documents
    ensures WithDir(WithDir(t, d, v, first), d, v, second) == WithDir(t, d, v, second)
  {
    assert t.documents[d].versionDirs[v := first][v := second] == t.documents[d].versionDirs[v := second];
  }

  lemma WithDirHas(t: Tree, d: Id, v: VersionTime, dir: Files)
    requires d in t.documents
    ensures var t' := WithDir(t, d, v, dir);
            && d in t'.documents
            && v in t'.documents[d].versionDirs
            && t'.documents[d].versionDirs[v] == dir
            && t'.documents[d].infoFiles == t.documents[d].infoFiles
  {
  }

  lemma WithDirAgain(t: Tree, d: Id, v: VersionTime)
    requires d in t.documents && v in t.documents[d].versionDirs
    ensures WithDir(t, d, v, t.documents[d].versionDirs[v]) == t
  {
    var dirs := t.documents[d].versionDirs;
    assert dirs[v := dirs[v]] == dirs;
  }

  function WithInfo(t: Tree, d: Id, info: VersionInfo): Tree
    requires d in t.documents
  {
    SetDoc(t, d, t.documents[d].(infoFiles := t.documents[d].infoFiles[info.version := info]))
  }

  function WithoutInfo(t: Tree, d: Id, v: VersionTime): Tree
    requires d in t.documents
  {
    SetDoc(t, d, t.documents[d].(infoFiles := t.documents[d].infoFiles - {v}))
  }

  lemma ErasedInSteps(t: Tree, d: Id, v: VersionTime)
    requires d in t.documents
    ensures WithoutInfo(WithoutDir(t, d, v), d, v) == Erased(t, d, v)
    ensures v !in t.documents[d].infoFiles ==> WithoutDir(t, d, v) == Erased(t, d, v)
    ensures v !in t.documents[d].versionDirs ==> WithoutInfo(t, d, v) == Erased(t, d, v)
    ensures v !in t.documents[d].versionDirs && v !in t.documents[d].infoFiles ==> t == Erased(t, d, v)
    ensures Listed(Erased(t, d, v).documents[d]) == Listed(t.documents[d]) - {v}
  {
    var dd := t.documents[d];
    assert v !in dd.infoFiles ==> dd.infoFiles - {v} == dd.infoFiles;
    assert v !in dd.versionDirs ==> dd.versionDirs - {v} == dd.versionDirs;
    assert Erased(t, d, v).documents[d] == WithoutVersion(dd, v);
  }

  ghost predicate OnlyDirDiffers(t: Tree, t': Tree, d: Id, v: VersionTime)
    requires d in t.documents
  {
    exists dir :: t' == WithDir(t, d, v, dir)
  }

  /** t' is t with a document that has no info file yet. */
  ghost predicate Begun(t: Tree, t': Tree, d: Id) {
    && d in t'.documents
    && t'.documents[d].infoFiles == map[]
    && t'.documents == t.documents[d := t'.documents[d]]
  }

  lemma BegunIsCommitted(t: Tree, t': Tree, d: Id)
    requires Committed(t) && Begun(t, t', d)
    ensures Committed(t')
  {
  }

  lemma OnlyDirKeepsOthers(t: Tree, t': Tree, d: Id, v: VersionTime)
    requires d in t.documents && OnlyDirDiffers(t, t', d, v)
    ensures d in t'.documents && t'.documents - {d} == t.documents - {d} && t'.markers == t.markers
  {
  }

  lemma OnlyDirKeepsHalfBuilt(t: Tree, t': Tree, d: Id, v: VersionTime, companyID: Id)
    requires d in t.documents && OnlyDirDiffers(t, t', d, v) && HalfBuilt(t.documents[d], companyID, {v})
    ensures d in t'.documents && HalfBuilt(t'.documents[d], companyID, {v})
  {
  }

  lemma OnlyDirKeepsInfos(t: Tree, t': Tree, d: Id, v: VersionTime)
    requires d in t.documents && OnlyDirDiffers(t, t', d, v)
    ensures d in t'.documents && t'.documents[d].infoFiles == t.documents[d].infoFiles
  {
  }

  lemma StartedIsStep(t: Tree, t': Tree, doc: HashedDocument, recreate: bool)
    requires recreate && doc.id in t.documents ==> t.documents[doc.id].companyFile.Some?
    requires RestoreError(t, doc, recreate).None?
    requires doc.id !in RestoreBase(t, doc.id, recreate).documents && Started(RestoreBase(t, doc.id, recreate), t', doc.id, doc.companyID)
    ensures RestoreStep(t, t', Restore(doc, recreate), Failed(IOFailed, true))
  {
    hide HashedDocument.WellFormed;
  }

  /** A restore that is refused before anything was written. */
  lemma RefusedIsStep(s: Tree, doc: HashedDocument, error: LocalError)
    requires error == CompanyMismatch || error == IOFailed
    ensures RestoreStep(s, s, Restore(doc, false), Failed(error, false))
  {
    hide HashedDocument.WellFormed;
  }

  lemma RestoredIsStep(s: Tree, t': Tree, doc: HashedDocument, recreate: bool)
    requires doc.WellFormed() && (recreate && doc.id in s.documents ==> s.documents[doc.id].companyFile.Some?)
    requires var d, start := doc.id, RestoreStart(RestoreBase(s, doc.id, recreate), doc.id, doc.companyID);
             && start.documents[d].companyFile == Some(doc.companyID)
             && d in t'.documents && t' == SetDoc(start, d, t'.documents[d])
             && VersionsRestored(start.documents[d], t'.documents[d], doc, doc.versions.Keys)
    ensures RestoreStep(s, t', Restore(doc, recreate), Done)
  {
    hide HashedDocument.WellFormed, VersionsRestored;
  }

  /** A restore that failed while writing versions, after its undo. */
  lemma FailedRestoreIsStep(s: Tree, t': Tree, doc: HashedDocument, recreate: bool, uncleaned: bool)
    requires recreate && doc.id in s.documents ==> s.documents[doc.id].companyFile.Some?
    requires RestoreError(s, doc, recreate).None?
    requires var d, start := doc.id, RestoreStart(RestoreBase(s, doc.id, recreate), doc.id, doc.companyID);
             && start.documents[d].companyFile == Some(doc.companyID)
             && t'.documents - {d} == start.documents - {d}
             && if d in RestoreBase(s, d, recreate).documents then
                  && t'.markers == start.markers && d in t'.documents && StoredKept(start.documents[d], t'.documents[d], doc)
                  && (!uncleaned && NoLeftovers(s, doc) ==> t'.documents == s.documents)
                else
                  && (t'.markers == start.markers || t'.markers == start.markers - {Marker(doc.companyID, d)})
                  && (d in t'.documents ==> HalfBuilt(t'.documents[d], doc.companyID, doc.versions.Keys))
                  && (!uncleaned ==> t'.documents == start.documents - {d})
    ensures RestoreStep(s, t', Restore(doc, recreate), Failed(IOFailed, uncleaned))
  {
    hide HashedDocument.WellFormed, HalfBuilt, StoredKept;
    var d := doc.id;
    var base := RestoreBase(s, d, recreate);
    var start := RestoreStart(base, d, doc.companyID);
    assert base.documents - {d} == s.documents - {d};
    assert start.documents - {d} == base.documents - {d};
  }

  function MadeDirs(t: Tree, companyID: Id, d: Id, v: VersionTime): Tree {
    Tree(t.documents[d := DocDir(Some(companyID), map[v := map[]], map[])], t.markers + {Marker(companyID, d)})
  }

  lemma CreatedInSteps(t: Tree, companyID: Id, d: Id, userID: Id, reason: string, v: VersionTime, files: seq<File>, info: VersionInfo)
    requires d !in t.documents && files != [] && ValidId(companyID) && ValidVersion(v)
    requires Summarizes(info, companyID, d, v, None, userID, reason, WriteAll(map[], files), map[])
    ensures var t' := WithInfo(WithDir(MadeDirs(t, companyID, d, v), d, v, WriteAll(map[], files)), d, info);
            && CreateStep(t, t', Create(companyID, d, userID, reason, v, files), Done)
            && t'.documents - {d} == t.documents
            && HalfBuilt(t'.documents[d], companyID, {v})
            && t'.markers == t.markers + {Marker(companyID, d)}
  {
    hide IsDiff, WriteAll, FilesIn;
    var dir := WriteAll(map[], files);
    var t' := WithInfo(WithDir(MadeDirs(t, companyID, d, v), d, v, dir), d, info);
    assert t'.documents[d] == DocDir(Some(companyID), map[v := dir], map[v := info]);
    assert t'.documents == t.documents[d := t'.documents[d]];
  }

  // ------------------------------------------------------- appending a version

  /** Of the files to be copied from the previous version, those that are not pending. */
  function CarriedBut(prevDir: Files, prev: VersionInfo, r: CreateVersionResult, pending: set<Name>): Files {
    Carried(prevDir, prev, r) - pending
  }

  /** t and t' differ in version v of d at most. */
  ghost predicate SameBut(t: Tree, t': Tree, d: Id, v: VersionTime) {
    d in t.documents && d in t'.documents && Erased(t, d, v) == Erased(t', d, v)
  }

  lemma SameButHas(t: Tree, t': Tree, d: Id, v: VersionTime)
    requires SameBut(t, t', d, v)
    ensures d in t'.documents
  {
  }

  lemma WithDirIsSameBut(t: Tree, d: Id, v: VersionTime, dir: Files)
    requires d in t.documents
    ensures SameBut(t, WithDir(t, d, v, dir), d, v)
  {
    var t' := WithDir(t, d, v, dir);
    assert t'.documents[d].versionDirs - {v} == t.documents[d].versionDirs - {v};
    assert Erased(t, d, v) == Erased(t', d, v);
  }

  lemma WithInfoIsSameBut(t: Tree, d: Id, info: VersionInfo)
    requires d in t.documents
    ensures SameBut(t, WithInfo(t, d, info), d, info.version)
  {
    var t' := WithInfo(t, d, info);
    assert t'.documents[d].infoFiles - {info.version} == t.documents[d].infoFiles - {info.version};
    assert Erased(t, d, info.version) == Erased(t', d, info.version);
  }

  lemma RemovalsAreSameBut(t: Tree, d: Id, v: VersionTime)
    requires d in t.documents
    ensures SameBut(t, t, d, v) && SameBut(t, WithoutDir(t, d, v), d, v) && SameBut(t, WithoutInfo(t, d, v), d, v)
    ensures SameBut(t, Erased(t, d, v), d, v)
  {
    var dd := t.documents[d];
    assert (dd.versionDirs - {v}) - {v} == dd.versionDirs - {v} && (dd.infoFiles - {v}) - {v} == dd.infoFiles - {v};
    assert Erased(WithoutDir(t, d, v), d, v) == Erased(t, d, v);
    assert Erased(WithoutInfo(t, d, v), d, v) == Erased(t, d, v);
    assert Erased(Erased(t, d, v), d, v) == Erased(t, d, v);
  }

  lemma SameButKeepsOthers(t: Tree, t': Tree, d: Id, v: VersionTime)
    requires SameBut(t, t', d, v)
    ensures OthersUntouched(t, t', d)
  {
    assert Erased(t, d, v).documents - {d} == t.documents - {d};
    assert Erased(t', d, v).documents - {d} == t'.documents - {d};
  }

  lemma OthersUntouchedTwice(a: Tree, b: Tree, c: Tree, d: Id)
    requires OthersUntouched(a, b, d) && OthersUntouched(b, c, d)
    ensures OthersUntouched(a, c, d)
  {
  }

  /** Placing a version, moving the company, and taking the version back touches no other version and no other document. */
  lemma PlaceTakenBack(s: Tree, placed: Tree, t: Tree, t': Tree, d: Id, v: VersionTime)
    requires SameBut(s, placed, d, v) && SameVersions(placed, t) && (t == placed || OthersUntouched(placed, t, d)) && SameBut(t, t', d, v)
    ensures d in s.documents && d in t.documents && d in t'.documents && OthersUntouched(s, t', d)
    ensures SameVersions(Erased(s, d, v), Erased(t, d, v)) && Erased(t', d, v) == Erased(t, d, v)
    ensures t == placed ==> Erased(t, d, v) == Erased(s, d, v)
  {
    SameButKeepsOthers(s, placed, d, v);
    SameButKeepsOthers(t, t', d, v);
    ErasedKeepsSameVersions(placed, t, d, v);
    hide Erased, SameVersions;
    if t != placed {
      OthersUntouchedTwice(s, placed, t, d);
    }
    OthersUntouchedTwice(s, t, t', d);
  }

  lemma PlacedInSteps(t: Tree, d: Id, v: VersionTime, dir: Files, info: VersionInfo)
    requires d in t.documents && info.version == v
    ensures WithInfo(WithDir(t, d, v, dir), d, info) == SetDoc(t, d, WithVersion(t.documents[d], v, dir, info))
  {
  }

  lemma MovedKeepsVersions(t: Tree, d: Id, c: Id, v: VersionTime)
    requires d in t.documents && t.documents[d].companyFile.Some?
    ensures d in Moved(t, d, c).documents && Moved(t, d, c).documents[d] == t.documents[d].(companyFile := Some(c))
    ensures Erased(Moved(t, d, c), d, v) == Moved(Erased(t, d, v), d, c)
  {
    var cur := t.documents[d].companyFile.value;
    if cur != c {
      assert Erased(Moved(t, d, c), d, v).documents == Moved(Erased(t, d, v), d, c).documents;
    }
  }

  /** Moving there and back and erasing does not depend on the version erased. */
  lemma TakenBackInSteps(t: Tree, placed: Tree, d: Id, was: Id, now: Id, v: VersionTime)
    requires SameBut(t, placed, d, v) && placed.documents[d].companyFile.Some?
    ensures t.documents[d].companyFile.Some?
    ensures d in Moved(Moved(placed, d, now), d, was).documents
    ensures Erased(Moved(Moved(placed, d, now), d, was), d, v) == Erased(Moved(Moved(t, d, now), d, was), d, v)
  {
    hide Moved, Erased, WithoutVersion, SetDoc;
    assert t.documents[d].companyFile == placed.documents[d].companyFile by {
      ErasedKeepsCompany(t, d, v);
      ErasedKeepsCompany(placed, d, v);
    }
    ErasedKeepsCompany(t, d, v);
    MovedKeepsVersions(t, d, now, v);
    MovedKeepsVersions(placed, d, now, v);
    MovedKeepsVersions(Erased(t, d, v), d, now, v);
    MovedKeepsVersions(Moved(t, d, now), d, was, v);
    MovedKeepsVersions(Moved(placed, d, now), d, was, v);
  }

  lemma ErasedKeepsCompany(t: Tree, d: Id, v: VersionTime)
    requires d in t.documents
    ensures d in Erased(t, d, v).documents && Erased(t, d, v).documents[d].companyFile == t.documents[d].companyFile
  {
  }

  lemma OverwrittenDir(s: Tree, t: Tree, t': Tree, d: Id, v: VersionTime, dir: Files)
    requires d in s.documents && t == WithDir(s, d, v, dir) && d in t.documents && OnlyDirDiffers(t, t', d, v)
    ensures OnlyDirDiffers(s, t', d, v)
  {
    var dir' :| t' == WithDir(t, d, v, dir');
    WithDirTwice(s, d, v, dir, dir');
  }

  lemma SameButAfterFill(s: Tree, t: Tree, d: Id, v: VersionTime)
    requires d in s.documents && (t == s || OnlyDirDiffers(s, t, d, v))
    ensures SameBut(s, t, d, v)
  {
    if t != s {
      var dir :| t == WithDir(s, d, v, dir);
      WithDirIsSameBut(s, d, v, dir);
    }
  }

  lemma KeptCommitted(s: Tree, t: Tree)
    requires SameVersions(s, t)
    ensures Committed(s) ==> Committed(t)
  {
    if Committed(s) {
      SameVersionsKeepCommitted(s, t);
    }
  }

  /** Setting company.id of d and markers of d touches no version and no other document. */
  lemma CompanyStepKeeps(t: Tree, t': Tree, d: Id)
    requires d in t.documents && d in t'.documents
    requires t'.documents == t.documents[d := t.documents[d].(companyFile := t'.documents[d].companyFile)]
    requires forall m: Marker :: m.doc != d ==> (m in t'.markers <==> m in t.markers)
    ensures SameVersions(t, t') && OthersUntouched(t, t', d)
  {
  }

  lemma SameVersionsHas(t: Tree, t': Tree, d: Id)
    requires SameVersions(t, t') && d in t.documents
    ensures d in t'.documents
  {
  }

  lemma SameVersionsAsItself(t: Tree)
    ensures SameVersions(t, t)
  {
  }

  lemma ErasedKeepsSameVersions(t: Tree, t': Tree, d: Id, v: VersionTime)
    requires d in t.documents && SameVersions(t, t')
    ensures SameVersions(Erased(t, d, v), Erased(t', d, v))
  {
  }

  lemma AppendedHasCompany(dd: DocDir, dd': DocDir, d: Id, userID: Id, reason: string, r: CreateVersionResult)
    requires Appended(dd, dd', d, userID, reason, r)
    ensures Listed(dd) != {} && r.version in dd'.infoFiles && dd'.companyFile == dd.companyFile
    ensures dd'.infoFiles[r.version].companyID == r.newCompanyID.GetOr(dd.infoFiles[LatestOf(dd)].companyID)
  {
  }

  // ---------------------------------------------------------------- restoring

  /** Of the files of version v of the backup, those that are not pending, over what was there. */
  function RestoredBut(doc: HashedDocument, v: VersionTime, left: Files, pending: set<Name>): Files
    requires v in doc.versions && doc.Complete(v)
  {
    left + (Contents(doc, v) - pending)
  }

  lemma RestoredMore(doc: HashedDocument, v: VersionTime, left: Files, pending: set<Name>, n: Name)
    requires v in doc.versions && doc.Complete(v) && n in pending && n in doc.versions[v].fileHashes
    ensures RestoredBut(doc, v, left, pending - {n}) == RestoredBut(doc, v, left, pending)[n := doc.hashedFiles[doc.versions[v].fileHashes[n]]]
  {
  }

  lemma RestoredEnds(doc: HashedDocument, v: VersionTime, left: Files)
    requires v in doc.versions && doc.Complete(v)
    ensures RestoredBut(doc, v, left, doc.versions[v].fileHashes.Keys) == left
    ensures RestoredBut(doc, v, left, {}) == left + Contents(doc, v)
  {
    assert Contents(doc, v) - doc.versions[v].fileHashes.Keys == map[];
  }

  /** dd' differs from dd in the listed directories and info files at most. */
  ghost predicate DiffersOnlyAt(dd: DocDir, dd': DocDir, dirs: set<VersionTime>, infos: set<VersionTime>) {
    && dd'.companyFile == dd.companyFile
    && dd'.versionDirs - dirs == dd.versionDirs - dirs
    && dd'.infoFiles - infos == dd.infoFiles - infos
  }

  /** One more directory may go. */
  lemma DirGoes(dd: DocDir, dd1: DocDir, dirs: set<VersionTime>, v: VersionTime)
    requires DiffersOnlyAt(dd, dd1, dirs, {})
    ensures DiffersOnlyAt(dd, dd1, dirs + {v}, {})
    ensures DiffersOnlyAt(dd, dd1.(versionDirs := dd1.versionDirs - {v}), dirs + {v}, {})
  {
    assert dd.versionDirs - (dirs + {v}) == (dd.versionDirs - dirs) - {v};
    assert dd1.versionDirs - (dirs + {v}) == (dd1.versionDirs - dirs) - {v};
    assert (dd1.versionDirs - {v}) - (dirs + {v}) == (dd1.versionDirs - dirs) - {v};
  }

  lemma InfoGoes(dd: DocDir, dd1: DocDir, infos: set<VersionTime>, v: VersionTime)
    requires DiffersOnlyAt(dd, dd1, {}, infos)
    ensures DiffersOnlyAt(dd, dd1, {}, infos + {v})
    ensures DiffersOnlyAt(dd, dd1.(infoFiles := dd1.infoFiles - {v}), {}, infos + {v})
  {
    assert dd.infoFiles - (infos + {v}) == (dd.infoFiles - infos) - {v};
    assert dd1.infoFiles - (infos + {v}) == (dd1.infoFiles - infos) - {v};
    assert (dd1.infoFiles - {v}) - (infos + {v}) == (dd1.infoFiles - infos) - {v};
  }

  /** A restore and its undo, wherever they stopped, keep what the restore does not write. */
  lemma DiffersKeeps(dd: DocDir, a: DocDir, b: DocDir, c: DocDir, doc: HashedDocument, dirs: set<VersionTime>, infos: set<VersionTime>)
    requires DiffersOnlyAt(dd, a, dirs, infos) && DiffersOnlyAt(a, b, dirs, {}) && DiffersOnlyAt(b, c, {}, infos)
    requires infos <= dirs && forall v :: v in dirs ==> v in doc.versions && v !in Listed(dd)
    ensures StoredKept(dd, c, doc)
    ensures dd.versionDirs == map[] && dd.infoFiles == map[] && dd.companyFile == Some(doc.companyID) ==>
      HalfBuilt(c, doc.companyID, doc.versions.Keys)
  {
    forall v | v !in dirs
      ensures (v in c.versionDirs <==> v in dd.versionDirs) && (v in dd.versionDirs ==> c.versionDirs[v] == dd.versionDirs[v])
    {
      assert v in dd.versionDirs - dirs <==> v in dd.versionDirs;
      assert v in a.versionDirs - dirs <==> v in a.versionDirs;
      assert v in b.versionDirs - dirs <==> v in b.versionDirs;
      assert v in b.versionDirs - {} <==> v in b.versionDirs;
      assert v in c.versionDirs - {} <==> v in c.versionDirs;
    }
    forall v | v !in infos
      ensures (v in c.infoFiles <==> v in dd.infoFiles) && (v in dd.infoFiles ==> c.infoFiles[v] == dd.infoFiles[v])
    {
      assert v in dd.infoFiles - infos <==> v in dd.infoFiles;
      assert v in a.infoFiles - infos <==> v in a.infoFiles;
      assert v in a.infoFiles - {} <==> v in a.infoFiles;
      assert v in b.infoFiles - {} <==> v in b.infoFiles;
      assert v in b.infoFiles - infos <==> v in b.infoFiles;
      assert v in c.infoFiles - infos <==> v in c.infoFiles;
    }
  }

  lemma KeptRestored(dd: DocDir, dd1: DocDir, doc: HashedDocument, w: VersionTime, v: VersionTime, dir: Files, info: VersionInfo)
    requires w in doc.versions && doc.Complete(w) && w < v
    requires VersionRestored(dd, dd1, doc, w)
    ensures VersionRestored(dd, WithVersion(dd1, v, dir, info), doc, w)
  {
    hide HashedDocument.Predecessor, Summarizes, Contents;
    assert PrevDir(WithVersion(dd1, v, dir, info), doc.Predecessor(w)) == PrevDir(dd1, doc.Predecessor(w));
  }

  lemma NewlyRestored(dd: DocDir, dd1: DocDir, doc: HashedDocument, v: VersionTime, info: VersionInfo)
    requires v in doc.versions && doc.Complete(v)
    requires Summarizes(info, doc.companyID, doc.id, v, doc.Predecessor(v), doc.versions[v].commitUserID, doc.versions[v].commitReason,
                        Leftover(dd, v) + Contents(doc, v), PrevDir(dd1, doc.Predecessor(v)))
    ensures VersionRestored(dd, WithVersion(dd1, v, Leftover(dd, v) + Contents(doc, v), info), doc, v)
  {
    hide HashedDocument.Predecessor, Summarizes, Contents;
    var dd2 := WithVersion(dd1, v, Leftover(dd, v) + Contents(doc, v), info);
    assert PrevDir(dd2, doc.Predecessor(v)) == PrevDir(dd1, doc.Predecessor(v));
  }

  lemma ExtendsMore(dd: DocDir, dd1: DocDir, added: set<VersionTime>, v: VersionTime, dir: Files, info: VersionInfo)
    requires Extends(dd, dd1, added)
    ensures Extends(dd, WithVersion(dd1, v, dir, info), added + {v})
  {
  }

  lemma OneMoreRestored(dd: DocDir, dd1: DocDir, doc: HashedDocument, done: set<VersionTime>, v: VersionTime, info: VersionInfo)
    requires doc.WellFormed() && done <= doc.versions.Keys && v in doc.versions
    requires v !in Listed(dd)
    requires forall w :: w in done ==> w < v
    requires VersionsRestored(dd, dd1, doc, done)
    requires Summarizes(info, doc.companyID, doc.id, v, doc.Predecessor(v), doc.versions[v].commitUserID, doc.versions[v].commitReason,
                        Leftover(dd, v) + Contents(doc, v), PrevDir(dd1, doc.Predecessor(v)))
    ensures VersionsRestored(dd, WithVersion(dd1, v, Leftover(dd, v) + Contents(doc, v), info), doc, done + {v})
  {
    AllComplete(doc);
    hide HashedDocument.WellFormed, HashedDocument.Predecessor, Summarizes, Contents, VersionRestored, HashedDocument.Complete;
    hide Extends, WithVersion, Listed, Leftover, PrevDir;
    NewlyRestored(dd, dd1, doc, v, info);
    var dd2 := WithVersion(dd1, v, Leftover(dd, v) + Contents(doc, v), info);
    var listed := Listed(dd);
    ExtendsMore(dd, dd1, done - listed, v, Leftover(dd, v) + Contents(doc, v), info);
    OneMoreListed(done, listed, v);
    forall w | w in (done + {v}) - listed ensures VersionRestored(dd, dd2, doc, w) {
      if w != v {
        KeptRestored(dd, dd1, doc, w, v, Leftover(dd, v) + Contents(doc, v), info);
      }
    }
  }

  lemma OneMoreListed(done: set<VersionTime>, listed: set<VersionTime>, v: VersionTime)
    requires v !in listed
    ensures (done + {v}) - listed == (done - listed) + {v}
  {
  }

  /** Versions that are restored later do not touch what is at the place of an earlier left-over. */
  lemma LeftoverStays(dd: DocDir, dd1: DocDir, doc: HashedDocument, done: set<VersionTime>, v: VersionTime)
    requires doc.WellFormed() && done <= doc.versions.Keys && v !in done
    requires VersionsRestored(dd, dd1, doc, done)
    ensures Leftover(dd1, v) == Leftover(dd, v)
  {
    hide VersionRestored;
  }

  lemma OneMoreSkipped(dd: DocDir, dd1: DocDir, doc: HashedDocument, done: set<VersionTime>, v: VersionTime)
    requires doc.WellFormed() && done <= doc.versions.Keys && v in doc.versions && v in Listed(dd)
    requires VersionsRestored(dd, dd1, doc, done)
    ensures VersionsRestored(dd, dd1, doc, done + {v})
  {
    hide HashedDocument.WellFormed, Extends, VersionRestored, Listed;
    assert (done + {v}) - Listed(dd) == done - Listed(dd);
  }

  lemma NothingRestored(dd: DocDir, doc: HashedDocument)
    requires doc.WellFormed()
    ensures VersionsRestored(dd, dd, doc, {})
  {
    assert {} - Listed(dd) == {};
  }

  lemma DiffersNowhere(dd: DocDir)
    ensures DiffersOnlyAt(dd, dd, TimesIn([]), TimesIn([]))
  {
  }

  /** A version that is not listed and has no orphan is without an info file until it is its turn. */
  lemma PlaceIsFree(dd: DocDir, dd1: DocDir, doc: HashedDocument, done: set<VersionTime>, v: VersionTime)
    requires doc.WellFormed() && done <= doc.versions.Keys && v !in done
    requires VersionsRestored(dd, dd1, doc, done)
    ensures v in dd1.infoFiles <==> v in dd.infoFiles
    ensures v in dd1.versionDirs <==> v in dd.versionDirs
  {
    hide VersionRestored;
  }

  lemma DiffersMore(t: Tree, t': Tree, dd: DocDir, d: Id, v: VersionTime, dirs: set<VersionTime>, infos: set<VersionTime>)
    requires SameBut(t, t', d, v) && DiffersOnlyAt(dd, t.documents[d], dirs, infos)
    ensures DiffersOnlyAt(dd, t'.documents[d], dirs + {v}, infos + {v})
    ensures t'.documents[d].infoFiles == t.documents[d].infoFiles ==> DiffersOnlyAt(dd, t'.documents[d], dirs + {v}, infos)
    ensures t' == SetDoc(t, d, t'.documents[d])
  {
    var dd1, dd2 := t.documents[d], t'.documents[d];
    assert WithoutVersion(dd1, v) == WithoutVersion(dd2, v) by {
      assert Erased(t, d, v).documents[d] == Erased(t', d, v).documents[d];
    }
    assert dd2.versionDirs - (dirs + {v}) == (dd2.versionDirs - {v}) - dirs;
    assert dd1.versionDirs - (dirs + {v}) == (dd1.versionDirs - {v}) - dirs == (dd1.versionDirs - dirs) - {v};
    assert dd2.infoFiles - (infos + {v}) == (dd2.infoFiles - {v}) - infos;
    assert dd1.infoFiles - (infos + {v}) == (dd1.infoFiles - {v}) - infos == (dd1.infoFiles - infos) - {v};
    assert dd.versionDirs - (dirs + {v}) == (dd.versionDirs - dirs) - {v};
    assert dd.infoFiles - (infos + {v}) == (dd.infoFiles - infos) - {v};
    forall e | e in t.documents ensures e in t'.documents && (e != d ==> t'.documents[e] == t.documents[e]) {
      assert e in Erased(t, d, v).documents;
    }
    forall e | e in t'.documents ensures e in t.documents {
      assert e in Erased(t', d, v).documents;
    }
    assert t'.documents == t.documents[d := dd2];
  }

  /** t is s with the given directories and info files of the backup, made where nothing was listed. */
  ghost predicate PartRestored(s: Tree, t: Tree, doc: HashedDocument, dirs: seq<VersionTime>, infos: seq<VersionTime>) {
    && doc.id in s.documents && doc.id in t.documents
    && t == SetDoc(s, doc.id, t.documents[doc.id])
    && DiffersOnlyAt(s.documents[doc.id], t.documents[doc.id], TimesIn(dirs), TimesIn(infos))
    && (forall v :: v in infos ==> v in dirs)
    && (forall v :: v in dirs ==> v in doc.versions && v !in Listed(s.documents[doc.id]))
  }

  lemma PartBegins(s: Tree, doc: HashedDocument)
    requires doc.id in s.documents
    ensures PartRestored(s, s, doc, [], [])
  {
    DiffersNowhere(s.documents[doc.id]);
  }

  lemma PartGrows(s: Tree, t: Tree, t': Tree, doc: HashedDocument, v: VersionTime,
                  dirs: seq<VersionTime>, infos: seq<VersionTime>, madeDir: bool, madeInfo: bool)
    requires PartRestored(s, t, doc, dirs, infos) && SameBut(t, t', doc.id, v)
    requires v in doc.versions && v !in Listed(s.documents[doc.id])
    requires !madeDir ==> t' == t && !madeInfo
    requires !madeInfo ==> t'.documents[doc.id].infoFiles == t.documents[doc.id].infoFiles
    ensures PartRestored(s, t', doc, if madeDir then dirs + [v] else dirs, if madeInfo then infos + [v] else infos)
  {
    DiffersMore(t, t', s.documents[doc.id], doc.id, v, TimesIn(dirs), TimesIn(infos));
    TimesInMore(dirs, v);
    TimesInMore(infos, v);
    hide TimesIn, DiffersOnlyAt, SameBut;
  }

  /** No info file waits for a directory at the place of a version of the backup. */
  ghost predicate NoOrphans(t: Tree, doc: HashedDocument) {
    forall v :: v in doc.versions ==> NoOrphan(t, doc.id, v)
  }

  lemma ListedIsNoOrphan(t: Tree, d: Id, v: VersionTime)
    requires d in t.documents && v in Listed(t.documents[d])
    ensures NoOrphan(t, d, v)
  {
  }

  lemma NoOrphanAt(t: Tree, doc: HashedDocument, v: VersionTime)
    ensures NoOrphans(t, doc) && v in doc.versions ==> NoOrphan(t, doc.id, v)
  {
  }

  lemma NoOrphansAtStart(base: Tree, doc: HashedDocument)
    ensures NoOrphans(base, doc) <==> NoOrphans(RestoreStart(base, doc.id, doc.companyID), doc)
  {
    forall v | v in doc.versions ensures NoOrphan(base, doc.id, v) <==> NoOrphan(RestoreStart(base, doc.id, doc.companyID), doc.id, v) {
    }
  }

  lemma RecreatedIsGone(t: Tree, doc: HashedDocument, recreate: bool)
    requires recreate && doc.id in t.documents ==> t.documents[doc.id].companyFile.Some?
    ensures recreate ==> doc.id !in RestoreBase(t, doc.id, recreate).documents && NoOrphans(RestoreBase(t, doc.id, recreate), doc)
    ensures !recreate ==> RestoreBase(t, doc.id, recreate) == t
  {
  }

  lemma PartKeepsRest(s: Tree, t: Tree, doc: HashedDocument, dirs: seq<VersionTime>, infos: seq<VersionTime>)
    requires PartRestored(s, t, doc, dirs, infos)
    ensures doc.id in s.documents && doc.id in t.documents && t == SetDoc(s, doc.id, t.documents[doc.id])
  {
  }

  lemma PartDiffers(s: Tree, t: Tree, doc: HashedDocument, dirs: seq<VersionTime>, infos: seq<VersionTime>)
    requires PartRestored(s, t, doc, dirs, infos)
    ensures doc.id in s.documents && doc.id in t.documents
    ensures DiffersOnlyAt(s.documents[doc.id], t.documents[doc.id], TimesIn(dirs), TimesIn(infos))
    ensures TimesIn(infos) <= TimesIn(dirs) && forall v :: v in TimesIn(dirs) ==> v in doc.versions && v !in Listed(s.documents[doc.id])
  {
  }

  /** Where there were no left-overs, removing what a restore made gives back what was there. */
  lemma UndoRestores(s: Tree, t: Tree, t': Tree, doc: HashedDocument, dirs: seq<VersionTime>, infos: seq<VersionTime>)
    requires PartRestored(s, t, doc, dirs, infos) && NoLeftovers(s, doc)
    requires t'.documents == t.documents[doc.id := t.documents[doc.id].(
               versionDirs := t.documents[doc.id].versionDirs - TimesIn(dirs), infoFiles := t.documents[doc.id].infoFiles - TimesIn(infos))]
    ensures t'.documents == s.documents
  {
    var dd := s.documents[doc.id];
    assert dd.versionDirs - TimesIn(dirs) == dd.versionDirs;
    assert dd.infoFiles - TimesIn(infos) == dd.infoFiles;
    assert t'.documents[doc.id] == dd;
    assert t'.documents == s.documents[doc.id := dd];
  }

  // -------------------------------------------------------- why orphans matter

  lemma EmptyListing(dir: Files)
    ensures FilesIn(dir) == map[] <==> dir == map[]
  {
    if dir != map[] {
      var n :| n in dir;
      assert n in FilesIn(dir);
    }
  }

  /** An orphaned info file cannot match the directory made for it both while it is empty and when it is filled. */
  lemma OrphanShows(t: Tree, d: Id, v: VersionTime, dir: Files)
    requires d in t.documents && v !in t.documents[d].versionDirs && dir != map[]
    ensures Committed(WithDir(t, d, v, map[])) && Committed(WithDir(t, d, v, dir)) ==> NoOrphan(t, d, v)
  {
    EmptyListing(dir);
    if v in t.documents[d].infoFiles {
      var info := t.documents[d].infoFiles[v];
      OrphanMatches(t, d, v, map[]);
      OrphanMatches(t, d, v, dir);
      assert !(Matches(d, v, map[], info) && Matches(d, v, dir, info));
    }
  }

  lemma OrphanMatches(t: Tree, d: Id, v: VersionTime, dir: Files)
    requires d in t.documents && v in t.documents[d].infoFiles
    ensures Committed(WithDir(t, d, v, dir)) ==> Matches(d, v, dir, t.documents[d].infoFiles[v])
  {
    var dd := WithDir(t, d, v, dir).documents[d];
    assert v in Listed(dd);
    if Committed(WithDir(t, d, v, dir)) {
      assert DocCommitted(d, dd);
    }
  }

  lemma BackupIsNotEmpty(doc: HashedDocument, v: VersionTime, left: Files)
    requires doc.WellFormed() && v in doc.versions
    ensures doc.Complete(v) && left + Contents(doc, v) != map[]
  {
    var n :| n in doc.versions[v].fileHashes;
    assert n in Contents(doc, v);
  }

  /**
   A delete of a version that stops after the directory leaves an orphan, and
   the first step of writing that version again shows it without its files.
   */
  lemma HalfDeletedVersionMisleads(t: Tree, d: Id, v: VersionTime)
    requires Committed(t) && d in t.documents && v in Listed(t.documents[d]) && t.documents[d].versionDirs[v] != map[]
    ensures var half := WithoutDir(t, d, v);
            && Committed(half) && d in half.documents && !NoOrphan(half, d, v)
            && !Committed(WithDir(half, d, v, map[]))
  {
    RemovalKeepsCommitted(t, d, {v}, {});
    var dir, half := t.documents[d].versionDirs[v], WithoutDir(t, d, v);
    var shown := WithDir(half, d, v, map[]);
    assert DocCommitted(d, t.documents[d]) && Matches(d, v, dir, t.documents[d].infoFiles[v]);
    EmptyListing(dir);
    assert v in Listed(shown.documents[d]) && !Matches(d, v, map[], shown.documents[d].infoFiles[v]);
    assert !DocCommitted(d, shown.documents[d]);
  }

  class Conn {
    var documentsDir: map<Id, DocDir>
    var companiesDir: set<Marker>

    /** The tree was fit for reading after every step so far. */
    ghost var calm: bool

    /** No file operation ever fails. */
    const reliable: bool

    constructor (reliable: bool)
      ensures State() == NO_TREE && calm && this.reliable == reliable
    {
      documentsDir, companiesDir, calm := map[], {}, true;
      this.reliable := reliable;
    }

    /** Reading a file or listing a directory. */
    method Read() returns (ok: bool)
      ensures reliable ==> ok
    {
      ok := *;
      ok := ok || reliable;
    }

    function State(): Tree
      reads this
    {
      Tree(documentsDir, companiesDir)
    }

    /** The flag has taken the present tree into account. */
    ghost predicate CalmHere()
      reads this
    {
      calm ==> Committed(State())
    }

    /** One file operation. */
    method Attempt(next: Tree) returns (ok: bool)
      modifies this
      ensures State() == if ok then next else old(State())
      ensures calm == (old(calm) && Committed(State()))
      ensures reliable ==> ok
    {
      ok := Read();
      if ok {
        documentsDir, companiesDir := next.documents, next.markers;
      }
      calm := calm && Committed(State());
    }

    // ------------------------------------------------------------- companies

    method SetDocumentCompanyID(d: Id, companyID: Id) returns (out: LocalOutcome)
      modifies this
      ensures SetCompanyStep(old(State()), State(), SetCompany(d, companyID), out)
      ensures out.Failed? ==> !out.uncleaned
      ensures reliable ==> (out.Done? <==> ValidId(companyID) && d in old(documentsDir) && old(documentsDir)[d].companyFile.Some?)
      ensures Answers(out, if !ValidId(companyID) then Some(InvalidInput)
                           else if d !in old(documentsDir) then Some(NotFound)
                           else if old(documentsDir)[d].companyFile.None? then Some(IOFailed)
                           else None, reliable)
      ensures SameVersions(old(State()), State()) && OthersUntouched(old(State()), State(), d)
      ensures old(calm) && Committed(old(State())) ==> calm
      ensures (calm ==> old(calm)) && (old(CalmHere()) ==> CalmHere())
    {
      hide DocCommitted;
      ghost var s := State();
      var readable := Read();
      if !ValidId(companyID) {
        return Failed(InvalidInput, false);
      }
      if d !in documentsDir {
        return Failed(NotFound, false);
      }
      if !readable || documentsDir[d].companyFile.None? {
        return Failed(IOFailed, false);
      }
      var cur := documentsDir[d].companyFile.value;
      if Committed(s) {
        forall t | SameVersions(s, t) ensures Committed(t) {
          SameVersionsKeepCommitted(s, t);
        }
      }
      hide Committed, SameVersions, OthersUntouched;
      CompanyStepKeeps(s, s, d);
      if cur == companyID {
        var there := true;
        if Marker(cur, d) !in companiesDir {
          CompanyStepKeeps(s, State().(markers := companiesDir + {Marker(cur, d)}), d);
          there := Attempt(State().(markers := companiesDir + {Marker(cur, d)}));
        }
        return if there then Done else Failed(IOFailed, false);
      }
      CompanyStepKeeps(s, s.(markers := s.markers - {Marker(cur, d)}), d);
      if Marker(cur, d) in companiesDir {
        var removed := Attempt(State().(markers := companiesDir - {Marker(cur, d)}));
        if !removed {
          return Failed(IOFailed, false);
        }
      }
      assert State() == s.(markers := s.markers - {Marker(cur, d)});
      CompanyStepKeeps(s, SetDoc(State(), d, documentsDir[d].(companyFile := Some(companyID))), d);
      var written := Attempt(SetDoc(State(), d, documentsDir[d].(companyFile := Some(companyID))));
      if !written {
        return Failed(IOFailed, false);
      }
      CompanyStepKeeps(s, State().(markers := companiesDir + {Marker(companyID, d)}), d);
      var marked := Attempt(State().(markers := companiesDir + {Marker(companyID, d)}));
      return if marked then Done else Failed(IOFailed, false);
    }

    /** The marked documents of a company, sorted. */
    method CompanyDocumentIDs(companyID: Id) returns (docIDs: seq<Id>)
      ensures NoDuplicates(docIDs)
      ensures forall i, j :: 0 <= i < j < |docIDs| ==> LexLe(docIDs[i], docIDs[j])
      ensures forall d: Id :: d in docIDs <==> Marker(companyID, d) in companiesDir
    {
      var names: seq<Text> := [];
      var pending := companiesDir;
      while pending != {}
        invariant pending <= companiesDir
        invariant NoDuplicates(names)
        invariant forall n :: n in names ==> SlashFree(n)
        invariant forall d: Id :: d in names <==> Marker(companyID, d) in companiesDir - pending
      {
        var m :| m in pending;
        if m.company == companyID {
          names := names + [m.doc];
        }
        pending := pending - {m};
      }
      SameElements(names, Sorted(names));
      var sorted := Sorted(names);
      assert forall i :: 0 <= i < |sorted| ==> sorted[i] in names;
      docIDs := sorted;
    }

    // ------------------------------------------------------- version directories

    method WriteFile(d: Id, v: VersionTime, name: Name, data: Bytes) returns (ok: bool)
      requires d in documentsDir && v in documentsDir[d].versionDirs
      modifies this
      ensures State() == if ok then WithDir(old(State()), d, v, old(documentsDir)[d].versionDirs[v][name := data]) else old(State())
      ensures reliable ==> ok
      ensures old(calm) && Committed(old(State())) && v !in old(documentsDir)[d].infoFiles ==> calm && Committed(State())
      ensures (calm ==> old(calm)) && (old(CalmHere()) ==> CalmHere())
    {
      var dir := documentsDir[d].versionDirs[v][name := data];
      if Committed(State()) && v !in documentsDir[d].infoFiles {
        UnlistedDirKeepsCommitted(State(), d, v, dir);
      }
      ok := Attempt(WithDir(State(), d, v, dir));
    }

    method WriteFiles(d: Id, v: VersionTime, files: seq<File>) returns (ok: bool)
      requires d in documentsDir && v in documentsDir[d].versionDirs
      modifies this
      ensures OnlyDirDiffers(old(State()), State(), d, v)
      ensures ok ==> State() == WithDir(old(State()), d, v, WriteAll(old(documentsDir)[d].versionDirs[v], files))
      ensures reliable ==> ok
      ensures old(calm) && Committed(old(State())) && v !in old(documentsDir)[d].infoFiles ==> calm && Committed(State())
      ensures (calm ==> old(calm)) && (old(CalmHere()) ==> CalmHere())
    {
      ghost var s := State();
      ghost var dir := documentsDir[d].versionDirs[v];
      assert files[..0] == [];
      WithDirAgain(s, d, v);
      hide Committed, WithDir;
      for i := 0 to |files|
        invariant State() == WithDir(s, d, v, WriteAll(dir, files[..i]))
        invariant old(calm) && Committed(s) && v !in s.documents[d].infoFiles ==> calm && Committed(State())
        invariant (calm ==> old(calm)) && (old(CalmHere()) ==> CalmHere())
      {
        assert files[..i + 1][..i] == files[..i];
        WithDirHas(s, d, v, WriteAll(dir, files[..i]));
        WithDirTwice(s, d, v, WriteAll(dir, files[..i]), WriteAll(dir, files[..i + 1]));
        ok := WriteFile(d, v, files[i].name, files[i].data);
        if !ok {
          return;
        }
      }
      assert files[..|files|] == files;
      ok := true;
    }

    /** Lists the files of two directories and diffs them. */
    method NewVersionInfo(companyID: Id, d: Id, v: VersionTime, prev: Option<VersionTime>, userID: Id, reason: string, dir: Files, prevDir: Files)
      returns (r: Result<VersionInfo, LocalError>)
      ensures r.Success? ==> Summarizes(r.value, companyID, d, v, prev, userID, reason, dir, prevDir)
      ensures r.Failure? ==> r.error == IOFailed && !reliable
    {
      var readable := Read();
      if !readable {
        return Failure(IOFailed);
      }
      var before, after := HashesOf(FilesIn(prevDir)), HashesOf(FilesIn(dir));
      var added, modified, removed := DiffHashes(before, after);
      SortingKeepsDiff(before, after, added, modified, removed);
      r := Success(VersionInfo(companyID, d, v, prev, userID, reason, Sorted(added), Sorted(removed), Sorted(modified), FilesIn(dir)));
    }

    /** The info file is the last file of a version to be written. */
    method WriteInfo(d: Id, info: VersionInfo) returns (ok: bool)
      requires d in documentsDir && info.version in documentsDir[d].versionDirs
      requires Matches(d, info.version, documentsDir[d].versionDirs[info.version], info)
      modifies this
      ensures State() == if ok then WithInfo(old(State()), d, info) else old(State())
      ensures reliable ==> ok
      ensures old(calm) && Committed(old(State())) ==> calm && Committed(State())
      ensures (calm ==> old(calm)) && (old(CalmHere()) ==> CalmHere())
    {
      if Committed(State()) {
        InfoLastKeepsCommitted(State(), d, info);
      }
      ok := Attempt(WithInfo(State(), d, info));
    }

    // ----------------------------------------------------------------- create

    method CreateDocument(companyID: Id, d: Id, userID: Id, reason: string, version: VersionTime, files: seq<File>, accept: bool)
      returns (out: LocalOutcome)
      modifies this
      ensures CreateStep(old(State()), State(), Create(companyID, d, userID, reason, version, files), out)
      ensures Answers(out, CreateError(old(State()), Create(companyID, d, userID, reason, version, files), accept), reliable)
      ensures reliable && out.Failed? ==> !out.uncleaned
      ensures old(calm) && Committed(old(State())) ==> calm
      ensures out.Done? ==> accept
    {
      hide Committed;
      var running := Read();
      if !running {
        return Failed(IOFailed, false);
      }
      if !ValidId(companyID) || !ValidId(d) || !ValidId(userID) || !ValidVersion(version) || files == [] {
        return Failed(InvalidInput, false);
      }
      if d in documentsDir {
        return Failed(AlreadyExists, false);
      }
      var error := BuildDocument(companyID, d, userID, reason, version, files, accept);
      if error.None? {
        return Done;
      }
      hide HalfBuilt;
      var uncleaned := UndoCreate(companyID, d);
      return Failed(error.value, uncleaned);
    }

    /** A step before the document has an info file. */
    method Begin(ghost s: Tree, d: Id, next: Tree) returns (ok: bool)
      requires Begun(s, next, d)
      modifies this
      ensures State() == if ok then next else old(State())
      ensures reliable ==> ok
      ensures old(calm) && Committed(s) && Committed(old(State())) ==> calm && Committed(State())
      ensures (calm ==> old(calm)) && (old(CalmHere()) ==> CalmHere())
    {
      if Committed(s) {
        BegunIsCommitted(s, next, d);
      }
      ok := Attempt(next);
    }

    /** The directory of a new document and of its first version, its company.id, and its marker. */
    method MakeDirs(companyID: Id, d: Id, version: VersionTime) returns (ok: bool)
      requires d !in documentsDir
      modifies this
      ensures documentsDir - {d} == old(documentsDir)
      ensures companiesDir == old(companiesDir) || companiesDir == old(companiesDir) + {Marker(companyID, d)}
      ensures ok ==> State() == MadeDirs(old(State()), companyID, d, version)
      ensures d in documentsDir ==> HalfBuilt(documentsDir[d], companyID, {version})
      ensures reliable ==> ok
      ensures old(calm) && Committed(old(State())) ==> calm && Committed(State())
    {
      hide Committed;
      ghost var s := State();
      assert documentsDir - {d} == documentsDir;
      ok := Begin(s, d, SetDoc(State(), d, DocDir(None, map[], map[])));
      if !ok {
        return;
      }
      ok := Begin(s, d, SetDoc(State(), d, DocDir(None, map[version := map[]], map[])));
      if !ok {
        return;
      }
      ok := Begin(s, d, SetDoc(State(), d, DocDir(Some(companyID), map[version := map[]], map[])));
      if !ok {
        return;
      }
      ok := Begin(s, d, State().(markers := companiesDir + {Marker(companyID, d)}));
    }

    method BuildDocument(companyID: Id, d: Id, userID: Id, reason: string, version: VersionTime, files: seq<File>, accept: bool)
      returns (error: Option<LocalError>)
      requires d !in documentsDir && files != [] && ValidId(companyID) && ValidVersion(version)
      modifies this
      ensures error.None? ==> accept && CreateStep(old(State()), State(), Create(companyID, d, userID, reason, version, files), Done)
      ensures error.Some? ==> (error.value == CallbackFailed && !accept) || (error.value == IOFailed && !reliable)
      ensures d in documentsDir ==> HalfBuilt(documentsDir[d], companyID, {version})
      ensures documentsDir - {d} == old(documentsDir)
      ensures companiesDir == old(companiesDir) || companiesDir == old(companiesDir) + {Marker(companyID, d)}
      ensures old(calm) && Committed(old(State())) ==> calm && Committed(State())
    {
      hide Committed, Summarizes, WriteAll, FilesIn, CreateStep, WithDir, WithInfo;
      ghost var s := State();
      var ok := MakeDirs(companyID, d, version);
      if !ok {
        return Some(IOFailed);
      }
      ok := WriteFiles(d, version, files);
      OnlyDirKeepsOthers(MadeDirs(s, companyID, d, version), State(), d, version);
      OnlyDirKeepsHalfBuilt(MadeDirs(s, companyID, d, version), State(), d, version, companyID);
      if !ok {
        return Some(IOFailed);
      }
      var dir := WriteAll(map[], files);
      WithDirHas(MadeDirs(s, companyID, d, version), d, version, dir);
      var info := NewVersionInfo(companyID, d, version, None, userID, reason, dir, map[]);
      if info.Failure? {
        return Some(info.error);
      }
      SummaryMatches(info.value, companyID, d, version, None, userID, reason, dir, map[]);
      ok := WriteInfo(d, info.value);
      if !ok {
        return Some(IOFailed);
      }
      CreatedInSteps(s, companyID, d, userID, reason, version, files, info.value);
      return if accept then None else Some(CallbackFailed);
    }

    method UndoCreate(companyID: Id, d: Id) returns (uncleaned: bool)
      modifies this
      ensures !uncleaned ==> documentsDir == old(documentsDir) - {d} && companiesDir == old(companiesDir) - {Marker(companyID, d)}
      ensures documentsDir == old(documentsDir) || documentsDir == old(documentsDir) - {d}
      ensures companiesDir == old(companiesDir) || companiesDir == old(companiesDir) - {Marker(companyID, d)}
      ensures reliable ==> !uncleaned
      ensures old(calm) && Committed(old(State())) ==> calm && Committed(State())
    {
      uncleaned := false;
      if d in documentsDir {
        var removed := Attempt(State().(documents := documentsDir - {d}));
        uncleaned := !removed;
      }
      if Marker(companyID, d) in companiesDir {
        var removed := Attempt(State().(markers := companiesDir - {Marker(companyID, d)}));
        uncleaned := uncleaned || !removed;
      }
    }

    // ----------------------------------------------------------------- delete

    method RemoveVersionDir(d: Id, v: VersionTime) returns (ok: bool)
      requires d in documentsDir
      modifies this
      ensures State() == if ok then WithoutDir(old(State()), d, v) else old(State())
      ensures reliable ==> ok
      ensures old(calm) && Committed(old(State())) ==> calm && Committed(State())
    {
      if Committed(State()) {
        RemovalKeepsCommitted(State(), d, {v}, {});
      }
      ok := Attempt(WithoutDir(State(), d, v));
    }

    method RemoveInfoFile(d: Id, v: VersionTime) returns (ok: bool)
      requires d in documentsDir
      modifies this
      ensures State() == if ok then WithoutInfo(old(State()), d, v) else old(State())
      ensures reliable ==> ok
      ensures old(calm) && Committed(old(State())) ==> calm && Committed(State())
    {
      if Committed(State()) {
        RemovalKeepsCommitted(State(), d, {}, {v});
      }
      ok := Attempt(WithoutInfo(State(), d, v));
    }

    /** Removes the marker and then the directory; a failure of the first does not stop the second. */
    method RemoveDocument(d: Id) returns (ok: bool, ghost faults: RemovalFaults)
      requires d in documentsDir
      modifies this
      ensures State() == RemovedUnder(old(State()), d, faults)
      ensures ok <==> faults == NO_FAULTS && old(documentsDir)[d].companyFile.Some?
      ensures reliable ==> faults == NO_FAULTS
      ensures old(calm) && Committed(old(State())) ==> calm && Committed(State())
    {
      var readable := Read();
      var marked := true;
      if readable && documentsDir[d].companyFile.Some? {
        marked := Attempt(State().(markers := companiesDir - {Marker(documentsDir[d].companyFile.value, d)}));
      }
      ok := readable && documentsDir[d].companyFile.Some? && marked;
      var removed := Attempt(State().(documents := documentsDir - {d}));
      ok := ok && removed;
      faults := RemovalFaults(!readable, !marked, !removed);
    }

    method DeleteDocument(d: Id) returns (out: LocalOutcome)
      modifies this
      ensures DeleteStep(old(State()), State(), Delete(d), out)
      ensures Answers(out, if d !in old(documentsDir) then Some(NotFound)
                           else if old(documentsDir)[d].companyFile.None? then Some(IOFailed)
                           else None, reliable)
      ensures old(calm) && Committed(old(State())) ==> calm
    {
      hide Committed;
      if d !in documentsDir {
        return Failed(NotFound, false);
      }
      var ok, faults := RemoveDocument(d);
      return if ok then Done else Failed(IOFailed, false);
    }

    /** The directory goes first, so the version is out of sight once anything has changed. */
    method DeleteDocumentVersion(d: Id, version: VersionTime) returns (out: LocalOutcome, leftVersions: seq<VersionTime>, ghost faults: DeletionFaults)
      modifies this
      ensures DeleteVersionStep(old(State()), State(), DeleteVersion(d, version), out)
      ensures out.Done? ==> Lists(leftVersions, Listed(WithoutVersion(old(documentsDir)[d], version)))
      ensures d in old(documentsDir) && version in old(documentsDir)[d].versionDirs ==>
        && State() == VersionDeletedUnder(old(State()), d, version, faults)
        && (leftVersions != [] ==> d in documentsDir && Lists(leftVersions, Listed(documentsDir[d])))
      ensures Answers(out, if d !in old(documentsDir) || version !in old(documentsDir)[d].versionDirs then Some(NotFound)
                           else if Listed(WithoutVersion(old(documentsDir)[d], version)) == {} && old(documentsDir)[d].companyFile.None? then Some(IOFailed)
                           else None, reliable)
      ensures old(calm) && Committed(old(State())) ==> calm
    {
      ghost var s := State();
      hide Committed;
      leftVersions, faults := [], DeletionFaults(true, false, false, NO_FAULTS);
      if d !in documentsDir || version !in documentsDir[d].versionDirs {
        return Failed(NotFound, false), [], faults;
      }
      var ok := RemoveVersionDir(d, version);
      if !ok {
        return Failed(IOFailed, false), [], faults;
      }
      if version in documentsDir[d].infoFiles {
        ok := RemoveInfoFile(d, version);
      }
      ErasedInSteps(s, d, version);
      ghost var half := State();
      hide Erased, WithoutDir, WithoutInfo, WithoutVersion, Listed, Removed, RemovedUnder;
      var erased := ok;
      ghost var listing, removal;
      leftVersions, ok, listing, removal := KeepOrRemove(d);
      faults := DeletionFaults(false, !erased, listing, removal);
      assert State() == VersionDeletedUnder(s, d, version, faults);
      out := if erased && ok then Done else Failed(IOFailed, false);
    }

    /** Lists the versions left; with none left, or when listing them fails, the document goes. */
    method KeepOrRemove(d: Id) returns (leftVersions: seq<VersionTime>, ok: bool, ghost listing: bool, ghost removal: RemovalFaults)
      requires d in documentsDir
      modifies this
      ensures State() == KeptOrRemoved(old(State()), d, listing, removal)
      ensures if listing then leftVersions == [] else Lists(leftVersions, Listed(old(documentsDir)[d]))
      ensures leftVersions != [] ==> State() == old(State())
      ensures ok ==> Lists(leftVersions, Listed(old(documentsDir)[d]))
      ensures ok && Listed(old(documentsDir)[d]) != {} ==> State() == old(State())
      ensures ok && Listed(old(documentsDir)[d]) == {} ==> old(documentsDir)[d].companyFile.Some? && State() == Removed(old(State()), d)
      ensures reliable && (old(documentsDir)[d].companyFile.Some? || Listed(old(documentsDir)[d]) != {}) ==> ok
      ensures reliable ==> !listing
      ensures old(calm) && Committed(old(State())) ==> calm && Committed(State())
    {
      hide Committed;
      leftVersions, removal := [], NO_FAULTS;
      ok := Read();
      listing := !ok;
      if ok {
        leftVersions := Ascending(Listed(documentsDir[d]));
      }
      assert ok && leftVersions == [] ==> Listed(documentsDir[d]) == {} by {
        assert forall v :: v in Listed(documentsDir[d]) && ok ==> v in leftVersions;
      }
      assert leftVersions != [] ==> leftVersions[0] in Listed(documentsDir[d]);
      if leftVersions == [] {
        var removed;
        removed, removal := RemoveDocument(d);
        ok := ok && removed;
      }
    }

    // -------------------------------------------------------------------- add

    /** The previous version's files, less those to be written and those to be removed. */
    method CopyPrevious(d: Id, prevDir: Files, prev: VersionInfo, r: CreateVersionResult) returns (ok: bool)
      requires d in documentsDir && r.version in documentsDir[d].versionDirs && documentsDir[d].versionDirs[r.version] == map[]
      modifies this
      ensures OnlyDirDiffers(old(State()), State(), d, r.version)
      ensures ok ==> State() == WithDir(old(State()), d, r.version, Carried(prevDir, prev, r))
      ensures reliable && prev.files.Keys <= prevDir.Keys ==> ok
      ensures old(calm) && Committed(old(State())) && r.version !in old(documentsDir)[d].infoFiles ==> calm && Committed(State())
      ensures (calm ==> old(calm)) && (old(CalmHere()) ==> CalmHere())
    {
      ghost var s := State();
      var v := r.version;
      var pending := prev.files.Keys;
      assert CarriedBut(prevDir, prev, r, pending) == map[];
      WithDirAgain(s, d, v);
      hide Committed, WithDir;
      while pending != {}
        invariant pending <= prev.files.Keys
        invariant State() == WithDir(s, d, v, CarriedBut(prevDir, prev, r, pending))
        invariant old(calm) && Committed(s) && v !in s.documents[d].infoFiles ==> calm && Committed(State())
        invariant (calm ==> old(calm)) && (old(CalmHere()) ==> CalmHere())
        decreases pending
      {
        var filename :| filename in pending;
        ghost var before, after := CarriedBut(prevDir, prev, r, pending), CarriedBut(prevDir, prev, r, pending - {filename});
        if Writes(r.writeFiles, filename) || filename in r.removeFiles {
          assert after == before;
        } else {
          if filename !in prevDir {
            return false;
          }
          assert after == before[filename := prevDir[filename]];
          WithDirHas(s, d, v, before);
          WithDirTwice(s, d, v, before, after);
          ok := WriteFile(d, v, filename, prevDir[filename]);
          if !ok {
            return;
          }
        }
        pending := pending - {filename};
      }
      assert CarriedBut(prevDir, prev, r, {}) == Carried(prevDir, prev, r);
      ok := true;
    }

    /** The directory of the new version with its files. */
    method FillVersion(d: Id, prevDir: Files, prev: VersionInfo, r: CreateVersionResult) returns (ok: bool)
      requires d in documentsDir && r.version !in documentsDir[d].versionDirs
      modifies this
      ensures State() == old(State()) || OnlyDirDiffers(old(State()), State(), d, r.version)
      ensures ok ==> State() == WithDir(old(State()), d, r.version, NewFiles(prevDir, prev, r))
      ensures ok && calm ==> Committed(WithDir(old(State()), d, r.version, map[]))
      ensures reliable && prev.files.Keys <= prevDir.Keys ==> ok
      ensures old(calm) && Committed(old(State())) && r.version !in old(documentsDir)[d].infoFiles ==> calm && Committed(State())
      ensures (calm ==> old(calm)) && (old(CalmHere()) ==> CalmHere())
    {
      ghost var s := State();
      var v := r.version;
      if Committed(s) && v !in documentsDir[d].infoFiles {
        UnlistedDirKeepsCommitted(s, d, v, map[]);
      }
      ok := Attempt(WithDir(State(), d, v, map[]));
      if !ok {
        return;
      }
      WithDirHas(s, d, v, map[]);
      ghost var t := State();
      hide Committed, WithDir;
      ok := CopyPrevious(d, prevDir, prev, r);
      if !ok {
        OverwrittenDir(s, t, State(), d, v, map[]);
        return;
      }
      WithDirTwice(s, d, v, map[], Carried(prevDir, prev, r));
      WithDirHas(s, d, v, Carried(prevDir, prev, r));
      t := State();
      ok := WriteFiles(d, v, r.writeFiles);
      OverwrittenDir(s, t, State(), d, v, Carried(prevDir, prev, r));
      WithDirTwice(s, d, v, Carried(prevDir, prev, r), NewFiles(prevDir, prev, r));
    }

    /** Directory, files, and info file of the version that r asks for. */
    method PlaceVersion(d: Id, userID: Id, reason: string, r: CreateVersionResult) returns (error: Option<LocalError>)
      requires d in documentsDir && Listed(documentsDir[d]) != {} && r.Valid()
      requires r.version > documentsDir[d].infoFiles[LatestOf(documentsDir[d])].version
      requires r.version !in documentsDir[d].versionDirs
      modifies this
      ensures SameBut(old(State()), State(), d, r.version)
      ensures error.None? ==>
        && Appended(old(documentsDir)[d], documentsDir[d], d, userID, reason, r)
        && State() == SetDoc(old(State()), d, documentsDir[d])
      ensures error.Some? ==> error.value == IOFailed || (error.value in {EmptyVersion, NoChanges} && error == PlaceError(old(documentsDir)[d], r, true))
      ensures error.None? ==> PlaceError(old(documentsDir)[d], r, true).None?
      ensures error.None? && calm && old(CalmHere()) ==> NoOrphan(old(State()), d, r.version)
      ensures reliable && DocCommitted(d, old(documentsDir)[d]) ==>
        error != Some(IOFailed) && (error.None? <==> Placeable(old(documentsDir)[d], r))
      ensures old(calm) && Committed(old(State())) && r.version !in old(documentsDir)[d].infoFiles ==> calm && Committed(State())
      ensures (calm ==> old(calm)) && (old(CalmHere()) ==> CalmHere())
    {
      ghost var s := State();
      var prev, prevDir := documentsDir[d].infoFiles[LatestOf(documentsDir[d])], documentsDir[d].versionDirs[LatestOf(documentsDir[d])];
      var companyID := r.newCompanyID.GetOr(prev.companyID);
      var dir := NewFiles(prevDir, prev, r);
      hide Committed, WithDir, WithInfo, Erased, FilesIn, NewFiles, IsDiff, LatestOf;
      var ok := FillVersion(d, prevDir, prev, r);
      SameButAfterFill(s, State(), d, r.version);
      if !ok {
        return Some(IOFailed);
      }
      WithDirHas(s, d, r.version, dir);
      var info := NewVersionInfo(companyID, d, r.version, Some(prev.version), userID, reason, dir, prevDir);
      if info.Failure? {
        return Some(info.error);
      }
      SummaryMatches(info.value, companyID, d, r.version, Some(prev.version), userID, reason, dir, prevDir);
      ghost var t := State();
      error := CommitVersion(s, d, dir, prev, info.value);
      WithInfoIsSameBut(t, d, info.value);
      PlacedInSteps(s, d, r.version, dir, info.value);
    }

    /** The checks on the files of a new version, and its info file. */
    method CommitVersion(ghost s: Tree, d: Id, dir: Files, prev: VersionInfo, info: VersionInfo) returns (error: Option<LocalError>)
      requires d in s.documents && info.version !in s.documents[d].versionDirs
      requires d in documentsDir && State() == WithDir(s, d, info.version, dir) && Matches(d, info.version, dir, info)
      modifies this
      ensures State() == if error.None? then WithInfo(old(State()), d, info) else old(State())
      ensures error.None? ==> FilesIn(dir) != map[] && FilesIn(dir) != prev.files
      ensures error.Some? ==>
        || error.value == IOFailed
        || (error.value == EmptyVersion && FilesIn(dir) == map[])
        || (error.value == NoChanges && FilesIn(dir) != map[] && FilesIn(dir) == prev.files)
      ensures reliable ==> error != Some(IOFailed) && (error.None? <==> FilesIn(dir) != map[] && FilesIn(dir) != prev.files)
      ensures error.None? && calm && old(CalmHere()) && Committed(WithDir(s, d, info.version, map[])) ==> NoOrphan(s, d, info.version)
      ensures old(calm) && Committed(old(State())) ==> calm && Committed(State())
      ensures (calm ==> old(calm)) && (old(CalmHere()) ==> CalmHere())
    {
      WithDirHas(s, d, info.version, dir);
      hide Committed, WithDir, WithInfo, FilesIn;
      if info.files == map[] {
        return Some(EmptyVersion);
      }
      VersionInfos.EqualFilesMeansSameMap(info.files, prev.files);
      if VersionInfos.EqualFiles(info.files, prev.files) {
        return Some(NoChanges);
      }
      EmptyListing(dir);
      OrphanShows(s, d, info.version, dir);
      var ok := WriteInfo(d, info);
      return if ok then None else Some(IOFailed);
    }

    method UndoAdd(d: Id, v: VersionTime) returns (uncleaned: bool)
      requires d in documentsDir
      modifies this
      ensures !uncleaned ==> State() == Erased(old(State()), d, v)
      ensures SameBut(old(State()), State(), d, v)
      ensures reliable ==> !uncleaned
      ensures old(calm) && Committed(old(State())) ==> calm && Committed(State())
    {
      ErasedInSteps(State(), d, v);
      RemovalsAreSameBut(State(), d, v);
      hide Committed;
      var ok, removed := true, true;
      if v in documentsDir[d].versionDirs {
        ok := RemoveVersionDir(d, v);
      }
      if v in documentsDir[d].infoFiles {
        removed := RemoveInfoFile(d, v);
      }
      uncleaned := !ok || !removed;
    }

    /** Moves the company if the version asks for it, and moves it back when the callback fails. */
    method ConfirmVersion(d: Id, was: Id, now: Id, accept: bool) returns (error: Option<LocalError>, uncleaned: bool)
      requires d in documentsDir && (was != now ==> ValidId(now))
      modifies this
      ensures d in documentsDir && SameVersions(old(State()), State()) && OthersUntouched(old(State()), State(), d)
      ensures error.None? ==> accept && (was != now ==> old(documentsDir)[d].companyFile.Some?) && State() == Followed(old(State()), d, was, now)
      ensures error.Some? ==> error.value == IOFailed || (error.value == CallbackFailed && !accept)
      ensures reliable && old(documentsDir)[d].companyFile.Some? ==>
        error == (if accept then None else Some(CallbackFailed)) && (ValidId(was) ==> !uncleaned)
      ensures error == Some(CallbackFailed) && !uncleaned ==>
        if was == now then State() == old(State())
        else old(documentsDir)[d].companyFile.Some? && State() == Moved(Moved(old(State()), d, now), d, was)
      ensures old(calm) && Committed(old(State())) ==> calm && Committed(State())
      ensures (calm ==> old(calm)) && (old(CalmHere()) ==> CalmHere())
    {
      ghost var s := State();
      uncleaned := false;
      if was != now {
        var moved := SetDocumentCompanyID(d, now);
        if moved.Failed? {
          KeptCommitted(s, State());
          return Some(IOFailed), false;
        }
      }
      KeptCommitted(s, State());
      if accept {
        return None, false;
      }
      ghost var t := State();
      if was != now {
        hide Moved;
        var moved := SetDocumentCompanyID(d, was);
        uncleaned := moved.Failed?;
        KeptCommitted(t, State());
      }
      error := Some(CallbackFailed);
    }

    method AddDocumentVersion(d: Id, userID: Id, reason: string, result: Option<CreateVersionResult>, accept: bool) returns (out: LocalOutcome)
      modifies this
      ensures AddStep(old(State()), State(), Add(d, userID, reason, result), out)
      ensures reliable && Sound(old(State()), d) ==>
        out.Quiet() && (out.Done? <==> accept && Addable(old(State()), Add(d, userID, reason, result)))
      ensures Answers(out, AddError(old(State()), Add(d, userID, reason, result), accept), reliable && Sound(old(State()), d))
      ensures out.Done? ==> accept
      ensures old(calm) && Committed(old(State())) && (result.Some? ==> NoOrphan(old(State()), d, result.value.version)) ==> calm
      ensures old(calm) && Committed(old(State())) && out.Done? ==> (calm <==> NoOrphan(old(State()), d, result.value.version))
    {
      hide Committed, Erased, Appended, LatestOf, Moved, SameVersions;
      var running := Read();
      if !running {
        return Failed(IOFailed, false);
      }
      if !ValidId(d) || !ValidId(userID) {
        return Failed(InvalidInput, false);
      }
      if d !in documentsDir || Listed(documentsDir[d]) == {} {
        return Failed(NotFound, false);
      }
      var prev := documentsDir[d].infoFiles[LatestOf(documentsDir[d])];
      if result.None? {
        return Failed(CreateVersionFailed, false);
      }
      var r := result.value;
      if !r.Valid() {
        return Failed(InvalidInput, false);
      }
      if r.version <= prev.version {
        return Failed(NotAfterPrevious, false);
      }
      out := AddAfterPrevious(d, userID, reason, r, prev, accept);
    }

    /** From here on a failure erases whatever is at the place of the new version, left over or not. */
    method AddAfterPrevious(d: Id, userID: Id, reason: string, r: CreateVersionResult, prev: VersionInfo, accept: bool) returns (out: LocalOutcome)
      requires d in documentsDir && Listed(documentsDir[d]) != {} && prev == documentsDir[d].infoFiles[LatestOf(documentsDir[d])]
      requires ValidId(d) && ValidId(userID) && r.Valid() && r.version > prev.version
      modifies this
      ensures AddStep(old(State()), State(), Add(d, userID, reason, Some(r)), out)
      ensures reliable && Sound(old(State()), d) ==> out.Quiet() && (out.Done? <==> accept && Placeable(old(documentsDir)[d], r))
      ensures Answers(out, PlaceError(old(documentsDir)[d], r, accept), reliable && Sound(old(State()), d))
      ensures out.Done? ==> accept
      ensures old(calm) && Committed(old(State())) && NoOrphan(old(State()), d, r.version) ==> calm
      ensures old(CalmHere()) && out.Done? && calm ==> NoOrphan(old(State()), d, r.version)
    {
      ghost var s := State();
      var uncleaned: bool;
      hide Committed, Erased, LatestOf, Moved, Appended, SameVersions, OthersUntouched, SameBut;
      if r.version in documentsDir[d].versionDirs {
        uncleaned := UndoAdd(d, r.version);
        SameVersionsAsItself(s);
        RemovalsAreSameBut(s, d, r.version);
        PlaceTakenBack(s, s, s, State(), d, r.version);
        return Failed(DirectoryExists, uncleaned);
      }
      var was, now := prev.companyID, r.newCompanyID.GetOr(prev.companyID);
      var error := PlaceVersion(d, userID, reason, r);
      uncleaned := false;
      ghost var placed := State();
      SameButHas(s, placed, d, r.version);
      if error.None? {
        AppendedHasCompany(s.documents[d], documentsDir[d], d, userID, reason, r);
        error, uncleaned := ConfirmVersion(d, was, now, accept);
      }
      if error.None? {
        assert Accepted(s, State(), Add(d, userID, reason, Some(r)), placed.documents[d]);
        return Done;
      }
      if State() == placed {
        SameVersionsAsItself(placed);
      }
      out := FailAdd(s, placed, d, userID, reason, r, was, now, error.value, uncleaned);
    }

    /** Erases the version that could not be added. */
    method FailAdd(ghost s: Tree, ghost placed: Tree, d: Id, ghost userID: Id, ghost reason: string, r: CreateVersionResult,
                   ghost was: Id, ghost now: Id, error: LocalError, uncleaned: bool) returns (out: LocalOutcome)
      requires d in s.documents && Listed(s.documents[d]) != {} && r.version !in s.documents[d].versionDirs
      requires r.version > s.documents[d].infoFiles[LatestOf(s.documents[d])].version
      requires was == s.documents[d].infoFiles[LatestOf(s.documents[d])].companyID && now == r.newCompanyID.GetOr(was)
      requires SameBut(s, placed, d, r.version) && SameVersions(placed, State())
      requires State() == placed || OthersUntouched(placed, State(), d)
      requires ValidId(d) && ValidId(userID) && r.Valid()
      requires error in {IOFailed, EmptyVersion, NoChanges, CallbackFailed}
      requires error != IOFailed ==> PlaceError(s.documents[d], r, false) == Some(error)
      requires error in {EmptyVersion, NoChanges} || (error == CallbackFailed && was == now) ==> State() == placed || uncleaned
      requires error == CallbackFailed && !uncleaned && was != now ==>
        d in placed.documents && placed.documents[d].companyFile.Some? && State() == Moved(Moved(placed, d, now), d, was)
      modifies this
      ensures AddStep(s, State(), Add(d, userID, reason, Some(r)), out)
      ensures out.Failed? && out.error == error
      ensures reliable ==> out.uncleaned == uncleaned
      ensures old(calm) && Committed(old(State())) ==> calm
    {
      hide Committed, Erased, LatestOf, Moved, SameVersions, OthersUntouched, SameBut;
      ghost var t := State();
      SameButHas(s, placed, d, r.version);
      assert d in documentsDir by { SameVersionsHas(placed, t, d); }
      var left := UndoAdd(d, r.version);
      PlaceTakenBack(s, placed, t, State(), d, r.version);
      if error == CallbackFailed && !uncleaned && !left && was != now {
        TakenBackInSteps(s, placed, d, was, now, r.version);
      }
      out := Failed(error, uncleaned || left);
    }

    // ---------------------------------------------------------------- restore

    method WriteBackup(doc: HashedDocument, v: VersionTime) returns (ok: bool)
      requires doc.WellFormed() && v in doc.versions
      requires doc.id in documentsDir && v in documentsDir[doc.id].versionDirs
      modifies this
      ensures OnlyDirDiffers(old(State()), State(), doc.id, v)
      ensures ok ==> State() == WithDir(old(State()), doc.id, v, old(documentsDir)[doc.id].versionDirs[v] + Contents(doc, v))
      ensures reliable ==> ok
      ensures old(calm) && Committed(old(State())) && v !in old(documentsDir)[doc.id].infoFiles ==> calm && Committed(State())
      ensures (calm ==> old(calm)) && (old(CalmHere()) ==> CalmHere())
    {
      ghost var s := State();
      var d, hashes := doc.id, doc.versions[v].fileHashes;
      ghost var left := documentsDir[d].versionDirs[v];
      var pending := hashes.Keys;
      assert doc.Complete(v);
      RestoredEnds(doc, v, left);
      WithDirAgain(s, d, v);
      hide Committed, WithDir, HashedDocument.WellFormed, RestoredBut, Contents;
      while pending != {}
        invariant pending <= hashes.Keys
        invariant State() == WithDir(s, d, v, RestoredBut(doc, v, left, pending))
        invariant old(calm) && Committed(s) && v !in s.documents[d].infoFiles ==> calm && Committed(State())
        invariant (calm ==> old(calm)) && (old(CalmHere()) ==> CalmHere())
        decreases pending
      {
        var filename :| filename in pending;
        ghost var before, after := RestoredBut(doc, v, left, pending), RestoredBut(doc, v, left, pending - {filename});
        RestoredMore(doc, v, left, pending, filename);
        WithDirHas(s, d, v, before);
        WithDirTwice(s, d, v, before, after);
        ok := WriteFile(d, v, filename, doc.hashedFiles[hashes[filename]]);
        if !ok {
          return;
        }
        pending := pending - {filename};
      }
      ok := true;
    }

    /** Making a directory that is there already changes nothing, so its files stay. */
    method RestoreVersion(doc: HashedDocument, v: VersionTime, prev: Option<VersionTime>)
      returns (error: Option<LocalError>, madeDir: bool, madeInfo: bool)
      requires doc.WellFormed() && v in doc.versions && prev == doc.Predecessor(v) && doc.id in documentsDir
      modifies this
      ensures SameBut(old(State()), State(), doc.id, v)
      ensures error.Some? ==> error.value == IOFailed && !reliable
      ensures !madeDir ==> error.Some? && !madeInfo && State() == old(State())
      ensures !madeInfo ==> error.Some? && documentsDir[doc.id].infoFiles == old(documentsDir)[doc.id].infoFiles
      ensures error.None? ==>
        && (var dd, dir := old(documentsDir)[doc.id], Leftover(old(documentsDir)[doc.id], v) + Contents(doc, v);
            && v in documentsDir[doc.id].infoFiles
            && State() == SetDoc(old(State()), doc.id, WithVersion(dd, v, dir, documentsDir[doc.id].infoFiles[v]))
            && Summarizes(documentsDir[doc.id].infoFiles[v], doc.companyID, doc.id, v, prev,
                          doc.versions[v].commitUserID, doc.versions[v].commitReason, dir, PrevDir(dd, prev)))
      ensures error.None? && calm && old(CalmHere()) ==> NoOrphan(old(State()), doc.id, v)
      ensures old(calm) && Committed(old(State())) && v !in old(documentsDir)[doc.id].infoFiles ==> calm && Committed(State())
      ensures (calm ==> old(calm)) && (old(CalmHere()) ==> CalmHere())
    {
      ghost var s := State();
      var d := doc.id;
      madeDir, madeInfo := false, false;
      var left, prevDir := Leftover(documentsDir[d], v), PrevDir(documentsDir[d], prev);
      if Committed(s) && v !in documentsDir[d].infoFiles {
        UnlistedDirKeepsCommitted(s, d, v, left);
      }
      SameButAfterFill(s, s, d, v);
      var ok := Attempt(WithDir(State(), d, v, left));
      if !ok {
        return Some(IOFailed), false, false;
      }
      madeDir := true;
      ghost var t := State();
      WithDirHas(s, d, v, left);
      assert doc.Complete(v);
      hide Committed, WithDir, WithInfo, HashedDocument.WellFormed, HashedDocument.Predecessor, Erased, Contents, IsDiff, FilesIn;
      ok := WriteBackup(doc, v);
      OverwrittenDir(s, t, State(), d, v, left);
      SameButAfterFill(s, State(), d, v);
      OnlyDirKeepsInfos(s, State(), d, v);
      if !ok {
        return Some(IOFailed), true, false;
      }
      WithDirTwice(s, d, v, left, left + Contents(doc, v));
      var dir := left + Contents(doc, v);
      WithDirHas(s, d, v, dir);
      if v !in s.documents[d].versionDirs {
        BackupIsNotEmpty(doc, v, left);
        OrphanShows(s, d, v, dir);
      }
      var info := NewVersionInfo(doc.companyID, d, v, prev, doc.versions[v].commitUserID, doc.versions[v].commitReason, dir, prevDir);
      if info.Failure? {
        return Some(info.error), true, false;
      }
      SummaryMatches(info.value, doc.companyID, d, v, prev, doc.versions[v].commitUserID, doc.versions[v].commitReason, dir, prevDir);
      t := State();
      ok := WriteInfo(d, info.value);
      if !ok {
        return Some(IOFailed), true, false;
      }
      WithInfoIsSameBut(t, d, info.value);
      PlacedInSteps(s, d, v, dir, info.value);
      return None, true, true;
    }

    /** The first i version times of the backup are dealt with. */
    ghost predicate Restoring(s: Tree, doc: HashedDocument, times: seq<VersionTime>, i: nat, dirs: seq<VersionTime>, infos: seq<VersionTime>)
      requires i <= |times|
      reads this
    {
      && doc.WellFormed()
      && times == doc.VersionTimes()
      && TimesIn(times[..i]) <= doc.versions.Keys
      && doc.id in s.documents && doc.id in documentsDir
      && VersionsRestored(s.documents[doc.id], documentsDir[doc.id], doc, TimesIn(times[..i]))
      && PartRestored(s, State(), doc, dirs, infos)
    }

    /** The backup's versions that are not there, in time order, each against its predecessor in the backup. */
    method RestoreVersions(doc: HashedDocument, recreate: bool, existing: seq<VersionTime>)
      returns (error: Option<LocalError>, dirs: seq<VersionTime>, infos: seq<VersionTime>)
      requires doc.WellFormed() && doc.id in documentsDir
      requires forall v :: v in existing && !recreate <==> v in Listed(documentsDir[doc.id])
      modifies this
      ensures doc.id in documentsDir && PartRestored(old(State()), State(), doc, dirs, infos)
      ensures error.None? ==> VersionsRestored(old(documentsDir)[doc.id], documentsDir[doc.id], doc, doc.versions.Keys)
      ensures error.Some? ==> error.value == IOFailed && !reliable
      ensures old(calm) && Committed(old(State())) && NoOrphans(old(State()), doc) ==> calm && Committed(State())
      ensures error.None? && calm && old(CalmHere()) ==> NoOrphans(old(State()), doc)
      ensures (calm ==> old(calm)) && (old(CalmHere()) ==> CalmHere())
    {
      hide *;
      ghost var s := State();
      error, dirs, infos := None, [], [];
      var times := doc.VersionTimes();
      NoneRestored(s, doc);
      var i := 0;
      while i < |times|
        invariant 0 <= i <= |times| && error.None?
        invariant Restoring(s, doc, times, i, dirs, infos)
        invariant old(calm) && Committed(s) && NoOrphans(s, doc) ==> calm && Committed(State())
        invariant (calm ==> old(calm)) && (old(CalmHere()) ==> CalmHere())
        invariant calm && old(CalmHere()) ==> forall j :: 0 <= j < i ==> NoOrphan(s, doc.id, times[j])
      {
        var skip := !recreate && times[i] in existing;
        error, dirs, infos := RestoreOrSkip(s, doc, times, i, skip, dirs, infos);
        if error.Some? {
          return;
        }
        i := i + 1;
      }
      AllRestored(s, doc, times, dirs, infos);
      if calm && old(CalmHere()) {
        NoOrphansInAll(s, doc, times);
      }
    }

    lemma NoOrphansInAll(s: Tree, doc: HashedDocument, times: seq<VersionTime>)
      requires times == doc.VersionTimes() && forall j :: 0 <= j < |times| ==> NoOrphan(s, doc.id, times[j])
      ensures NoOrphans(s, doc)
    {
      forall v | v in doc.versions ensures NoOrphan(s, doc.id, v) {
        assert v in times;
      }
    }

    lemma NoneRestored(s: Tree, doc: HashedDocument)
      requires s == State() && doc.WellFormed() && doc.id in documentsDir
      ensures doc.id in s.documents && s.documents[doc.id] == documentsDir[doc.id]
      ensures Restoring(s, doc, doc.VersionTimes(), 0, [], [])
    {
      NothingRestored(documentsDir[doc.id], doc);
      PartBegins(s, doc);
      assert TimesIn(doc.VersionTimes()[..0]) == {};
    }

    lemma AllRestored(s: Tree, doc: HashedDocument, times: seq<VersionTime>, dirs: seq<VersionTime>, infos: seq<VersionTime>)
      requires Restoring(s, doc, times, |times|, dirs, infos)
      ensures doc.WellFormed() && doc.id in s.documents && doc.id in documentsDir && PartRestored(s, State(), doc, dirs, infos)
      ensures VersionsRestored(s.documents[doc.id], documentsDir[doc.id], doc, doc.versions.Keys)
    {
      HandledAll(times, doc.versions.Keys, TimesIn(times[..|times|]));
    }

    method RestoreOrSkip(ghost s: Tree, doc: HashedDocument, times: seq<VersionTime>, i: nat, skip: bool, dirs: seq<VersionTime>, infos: seq<VersionTime>)
      returns (error: Option<LocalError>, dirs': seq<VersionTime>, infos': seq<VersionTime>)
      requires i < |times| && Restoring(s, doc, times, i, dirs, infos)
      requires doc.id in s.documents && (skip <==> times[i] in Listed(s.documents[doc.id]))
      modifies this
      ensures doc.id in documentsDir && PartRestored(s, State(), doc, dirs', infos')
      ensures error.None? ==> Restoring(s, doc, times, i + 1, dirs', infos')
      ensures error.Some? ==> error.value == IOFailed && !reliable
      ensures old(calm) && Committed(old(State())) && NoOrphans(s, doc) ==> calm && Committed(State())
      ensures error.None? && calm && old(CalmHere()) ==> NoOrphan(s, doc.id, times[i])
      ensures (calm ==> old(calm)) && (old(CalmHere()) ==> CalmHere())
    {
      hide HashedDocument.WellFormed, HashedDocument.Predecessor, Committed, VersionsRestored, PartRestored, Listed, NoOrphans, TimesIn;
      var v := times[i];
      ghost var done := TimesIn(times[..i]);
      assert Handled(times, i, done);
      PredecessorInTimes(doc, i);
      HandledMore(times, doc.versions.Keys, i, done);
      NoOrphanAt(s, doc, v);
      if skip {
        assert NoOrphan(s, doc.id, v) by { ListedIsNoOrphan(s, doc.id, v); }
        OneMoreSkipped(s.documents[doc.id], documentsDir[doc.id], doc, done, v);
        return None, dirs, infos;
      }
      error, dirs', infos' := RestoreNext(s, doc, v, if i > 0 then Some(times[i - 1]) else None, done, dirs, infos);
    }

    method RestoreNext(ghost s: Tree, doc: HashedDocument, v: VersionTime, prev: Option<VersionTime>, ghost done: set<VersionTime>,
                       dirs: seq<VersionTime>, infos: seq<VersionTime>)
      returns (error: Option<LocalError>, dirs': seq<VersionTime>, infos': seq<VersionTime>)
      requires doc.WellFormed() && v in doc.versions && prev == doc.Predecessor(v) && done <= doc.versions.Keys
      requires forall w :: w in done ==> w < v
      requires doc.id in s.documents && doc.id in documentsDir && v !in Listed(s.documents[doc.id])
      requires VersionsRestored(s.documents[doc.id], documentsDir[doc.id], doc, done)
      requires PartRestored(s, State(), doc, dirs, infos)
      modifies this
      ensures PartRestored(s, State(), doc, dirs', infos') && doc.id in documentsDir
      ensures error.None? ==> VersionsRestored(s.documents[doc.id], documentsDir[doc.id], doc, done + {v})
      ensures error.Some? ==> error.value == IOFailed && !reliable
      ensures old(calm) && Committed(old(State())) && NoOrphan(s, doc.id, v) ==> calm && Committed(State())
      ensures error.None? && calm && old(CalmHere()) ==> NoOrphan(s, doc.id, v)
      ensures (calm ==> old(calm)) && (old(CalmHere()) ==> CalmHere())
    {
      var d := doc.id;
      ghost var t := State();
      ghost var dd := s.documents[d];
      dirs', infos' := dirs, infos;
      LeftoverStays(dd, documentsDir[d], doc, done, v);
      PlaceIsFree(dd, documentsDir[d], doc, done, v);
      assert NoOrphan(s, d, v) ==> v !in documentsDir[d].infoFiles;
      assert NoOrphan(State(), d, v) ==> NoOrphan(s, d, v);
      hide HashedDocument.WellFormed, HashedDocument.Predecessor, Committed, VersionsRestored, Summarizes, WithVersion, SameBut, PartRestored;
      hide NoOrphan, Listed;
      var madeDir, madeInfo;
      error, madeDir, madeInfo := RestoreVersion(doc, v, prev);
      assert d in documentsDir by { SameButHas(t, State(), d, v); }
      PartGrows(s, t, State(), doc, v, dirs, infos, madeDir, madeInfo);
      if madeDir {
        dirs' := dirs + [v];
      }
      if madeInfo {
        infos' := infos + [v];
      }
      if error.None? {
        OneMoreRestored(dd, t.documents[d], doc, done, v, documentsDir[d].infoFiles[v]);
      }
    }

    /** Removes what the restore made, and the document if it was not there before. */
    method UndoRestore(ghost start: Tree, ghost doc: HashedDocument, d: Id, companyID: Id, docExisted: bool,
                       dirs: seq<VersionTime>, infos: seq<VersionTime>)
      returns (uncleaned: bool)
      requires d in documentsDir && PartRestored(start, State(), doc, dirs, infos) && d == doc.id && companyID == doc.companyID
      modifies this
      ensures documentsDir - {d} == old(documentsDir) - {d} && (docExisted ==> d in documentsDir && companiesDir == old(companiesDir))
      ensures companiesDir == old(companiesDir) || companiesDir == old(companiesDir) - {Marker(companyID, d)}
      ensures d in documentsDir ==> StoredKept(start.documents[d], documentsDir[d], doc)
      ensures d in documentsDir && start.documents[d] == DocDir(Some(companyID), map[], map[]) ==> HalfBuilt(documentsDir[d], companyID, doc.versions.Keys)
      ensures !uncleaned && !docExisted ==> documentsDir == old(documentsDir) - {d}
      ensures !uncleaned && docExisted ==>
        documentsDir == old(documentsDir)[d := old(documentsDir)[d].(
          versionDirs := old(documentsDir)[d].versionDirs - TimesIn(dirs), infoFiles := old(documentsDir)[d].infoFiles - TimesIn(infos))]
      ensures old(calm) && Committed(old(State())) ==> calm && Committed(State())
    {
      ghost var s := State();
      PartDiffers(start, s, doc, dirs, infos);
      hide Committed, TimesIn, DiffersOnlyAt, StoredKept, HalfBuilt, PartRestored, Listed, SetDoc;
      uncleaned := RemoveVersionDirs(d, dirs);
      ghost var t := State();
      var failed := RemoveInfoFiles(d, infos);
      DiffersKeeps(start.documents[d], s.documents[d], t.documents[d], documentsDir[d], doc, TimesIn(dirs), TimesIn(infos));
      uncleaned := uncleaned || failed;
      assert documentsDir == (documentsDir - {d})[d := documentsDir[d]];
      assert documentsDir - {d} == old(documentsDir) - {d};
      if !docExisted {
        var removed := RemoveMarker(companyID, d);
        var gone := RemoveDocDir(d);
        uncleaned := uncleaned || !removed || !gone;
      }
    }

    method RemoveMarker(companyID: Id, d: Id) returns (ok: bool)
      modifies this
      ensures documentsDir == old(documentsDir)
      ensures companiesDir == old(companiesDir) || companiesDir == old(companiesDir) - {Marker(companyID, d)}
      ensures ok ==> companiesDir == old(companiesDir) - {Marker(companyID, d)}
      ensures old(calm) && Committed(old(State())) ==> calm && Committed(State())
    {
      ok := true;
      if Marker(companyID, d) in companiesDir {
        ok := Attempt(State().(markers := companiesDir - {Marker(companyID, d)}));
      }
    }

    method RemoveDocDir(d: Id) returns (ok: bool)
      modifies this
      ensures State() == if ok then old(State()).(documents := old(documentsDir) - {d}) else old(State())
      ensures old(calm) && Committed(old(State())) ==> calm && Committed(State())
    {
      ok := Attempt(State().(documents := documentsDir - {d}));
    }

    method RemoveVersionDirs(d: Id, dirs: seq<VersionTime>) returns (failed: bool)
      requires d in documentsDir
      modifies this
      ensures d in documentsDir && documentsDir - {d} == old(documentsDir) - {d} && companiesDir == old(companiesDir)
      ensures !failed ==> documentsDir[d] == old(documentsDir)[d].(versionDirs := old(documentsDir)[d].versionDirs - TimesIn(dirs))
      ensures DiffersOnlyAt(old(documentsDir)[d], documentsDir[d], TimesIn(dirs), {})
      ensures old(calm) && Committed(old(State())) ==> calm && Committed(State())
    {
      ghost var s := State();
      hide Committed;
      failed := false;
      assert dirs[..0] == [];
      for i := 0 to |dirs|
        invariant d in documentsDir && documentsDir - {d} == s.documents - {d} && companiesDir == s.markers
        invariant !failed ==> documentsDir[d] == s.documents[d].(versionDirs := s.documents[d].versionDirs - TimesIn(dirs[..i]))
        invariant DiffersOnlyAt(s.documents[d], documentsDir[d], TimesIn(dirs[..i]), {})
        invariant old(calm) && Committed(s) ==> calm && Committed(State())
      {
        assert dirs[..i + 1] == dirs[..i] + [dirs[i]];
        TimesInMore(dirs[..i], dirs[i]);
        DirGoes(s.documents[d], documentsDir[d], TimesIn(dirs[..i]), dirs[i]);
        var ok := RemoveVersionDir(d, dirs[i]);
        failed := failed || !ok;
      }
      assert dirs[..|dirs|] == dirs;
    }

    method RemoveInfoFiles(d: Id, infos: seq<VersionTime>) returns (failed: bool)
      requires d in documentsDir
      modifies this
      ensures d in documentsDir && documentsDir - {d} == old(documentsDir) - {d} && companiesDir == old(companiesDir)
      ensures !failed ==> documentsDir[d] == old(documentsDir)[d].(infoFiles := old(documentsDir)[d].infoFiles - TimesIn(infos))
      ensures DiffersOnlyAt(old(documentsDir)[d], documentsDir[d], {}, TimesIn(infos))
      ensures old(calm) && Committed(old(State())) ==> calm && Committed(State())
    {
      ghost var s := State();
      hide Committed;
      failed := false;
      assert infos[..0] == [];
      for i := 0 to |infos|
        invariant d in documentsDir && documentsDir - {d} == s.documents - {d} && companiesDir == s.markers
        invariant !failed ==> documentsDir[d] == s.documents[d].(infoFiles := s.documents[d].infoFiles - TimesIn(infos[..i]))
        invariant DiffersOnlyAt(s.documents[d], documentsDir[d], {}, TimesIn(infos[..i]))
        invariant old(calm) && Committed(s) ==> calm && Committed(State())
      {
        assert infos[..i + 1] == infos[..i] + [infos[i]];
        TimesInMore(infos[..i], infos[i]);
        InfoGoes(s.documents[d], documentsDir[d], TimesIn(infos[..i]), infos[i]);
        if infos[i] in documentsDir[d].infoFiles {
          var ok := RemoveInfoFile(d, infos[i]);
          failed := failed || !ok;
        }
      }
      assert infos[..|infos|] == infos;
    }

    /** Marker first, then directory; a recreate stops at the first failure. */
    method RemoveForRecreate(d: Id) returns (ok: bool)
      requires d in documentsDir
      modifies this
      ensures ok ==> old(documentsDir)[d].companyFile.Some? && State() == Removed(old(State()), d)
      ensures !ok ==> State() == old(State()) || (old(documentsDir)[d].companyFile.Some? && State() == RemovedUnder(old(State()), d, NO_FAULTS.(docDir := true)))
      ensures reliable && old(documentsDir)[d].companyFile.Some? ==> ok
      ensures old(calm) && Committed(old(State())) ==> calm && Committed(State())
    {
      var readable := Read();
      if !readable || documentsDir[d].companyFile.None? {
        return false;
      }
      ok := Attempt(State().(markers := companiesDir - {Marker(documentsDir[d].companyFile.value, d)}));
      if ok {
        ok := Attempt(State().(documents := documentsDir - {d}));
      }
    }

    /** The directory of a new document, its company.id and its marker. No failure here is undone. */
    method BeginRestore(d: Id, companyID: Id) returns (ok: bool)
      requires d !in documentsDir
      modifies this
      ensures ok ==> State() == RestoreStart(old(State()), d, companyID)
      ensures !ok ==> Started(old(State()), State(), d, companyID)
      ensures reliable ==> ok
      ensures old(calm) && Committed(old(State())) ==> calm && Committed(State())
      ensures (calm ==> old(calm)) && (old(CalmHere()) ==> CalmHere())
    {
      hide Committed;
      ghost var s := State();
      ok := Begin(s, d, SetDoc(State(), d, DocDir(None, map[], map[])));
      if !ok {
        return;
      }
      ok := Begin(s, d, SetDoc(State(), d, DocDir(Some(companyID), map[], map[])));
      if !ok {
        return;
      }
      ok := Begin(s, d, State().(markers := companiesDir + {Marker(companyID, d)}));
    }

    method RestoreDocument(doc: HashedDocument, recreate: bool) returns (out: LocalOutcome)
      modifies this
      ensures RestoreStep(old(State()), State(), Restore(doc, recreate), out)
      ensures reliable ==> (out.Done? <==> Restorable(old(State()), doc, recreate))
      ensures Answers(out, RestoreError(old(State()), doc, recreate), reliable)
      ensures old(calm) && Committed(old(State())) && (recreate || NoOrphans(old(State()), doc)) ==> calm
      ensures old(calm) && Committed(old(State())) && out.Done? ==> (calm <==> recreate || NoOrphans(old(State()), doc))
    {
      hide Committed, HashedDocument.WellFormed, Removed, NoOrphans;
      ghost var s := State();
      var running := Read();
      if !running {
        return Failed(IOFailed, false);
      }
      var problems := Validate(doc);
      if problems != {} {
        return Failed(InvalidInput, false);
      }
      if recreate && doc.id in documentsDir {
        var ok := RemoveForRecreate(doc.id);
        if !ok {
          return Failed(IOFailed, false);
        }
      }
      assert State() == RestoreBase(s, doc.id, recreate);
      RecreatedIsGone(s, doc, recreate);
      out := RestoreFromBase(s, doc, recreate);
    }

    method RestoreFromBase(ghost s: Tree, doc: HashedDocument, recreate: bool) returns (out: LocalOutcome)
      requires doc.WellFormed() && (recreate && doc.id in s.documents ==> s.documents[doc.id].companyFile.Some?)
      requires State() == RestoreBase(s, doc.id, recreate) && (recreate ==> doc.id !in documentsDir)
      modifies this
      ensures RestoreStep(s, State(), Restore(doc, recreate), out)
      ensures reliable ==> (out.Done? <==> Restorable(s, doc, recreate))
      ensures Answers(out, RestoreError(s, doc, recreate), reliable)
      ensures old(calm) && Committed(old(State())) && NoOrphans(old(State()), doc) ==> calm
      ensures out.Done? && calm && old(CalmHere()) ==> NoOrphans(old(State()), doc)
    {
      hide Committed, HashedDocument.WellFormed, VersionsRestored, PartRestored, Removed, RestoreStep, Started, StoredKept, HalfBuilt, NoLeftovers, OthersUntouched;
      var d := doc.id;
      var docExisted := d in documentsDir;
      var existing: seq<VersionTime> := [];
      if docExisted {
        var readable := Read();
        RefusedIsStep(s, doc, IOFailed);
        RefusedIsStep(s, doc, CompanyMismatch);
        if !readable || documentsDir[d].companyFile.None? {
          return Failed(IOFailed, false);
        }
        if documentsDir[d].companyFile.value != doc.companyID {
          return Failed(CompanyMismatch, false);
        }
        existing := Ascending(Listed(documentsDir[d]));
      } else {
        var ok := BeginRestore(d, doc.companyID);
        if !ok {
          StartedIsStep(s, State(), doc, recreate);
          return Failed(IOFailed, true);
        }
      }
      ghost var start := State();
      assert start == RestoreStart(old(State()), d, doc.companyID);
      NoOrphansAtStart(old(State()), doc);
      hide NoOrphans;
      assert forall v :: v in existing && !recreate <==> v in Listed(documentsDir[d]);
      hide Listed;
      var error, dirs, infos := RestoreVersions(doc, recreate, existing);
      PartKeepsRest(start, State(), doc, dirs, infos);
      if error.None? {
        RestoredIsStep(s, State(), doc, recreate);
        return Done;
      }
      out := FailRestore(s, start, doc, recreate, docExisted, dirs, infos, error.value);
    }

    /** Undoes a restore that failed while writing versions. */
    method FailRestore(ghost s: Tree, ghost start: Tree, doc: HashedDocument, ghost recreate: bool, docExisted: bool,
                       dirs: seq<VersionTime>, infos: seq<VersionTime>, error: LocalError)
      returns (out: LocalOutcome)
      requires recreate && doc.id in s.documents ==> s.documents[doc.id].companyFile.Some?
      requires RestoreError(s, doc, recreate).None?
      requires start == RestoreStart(RestoreBase(s, doc.id, recreate), doc.id, doc.companyID)
      requires start.documents[doc.id].companyFile == Some(doc.companyID)
      requires docExisted <==> doc.id in RestoreBase(s, doc.id, recreate).documents
      requires docExisted ==> !recreate
      requires doc.id in documentsDir && PartRestored(start, State(), doc, dirs, infos) && error == IOFailed
      modifies this
      ensures RestoreStep(s, State(), Restore(doc, recreate), out) && out.Failed? && out.error == error
      ensures old(calm) && Committed(old(State())) ==> calm
    {
      hide Committed, HashedDocument.WellFormed, PartRestored, Removed, RestoreStep, StoredKept, HalfBuilt, NoLeftovers, OthersUntouched, Listed;
      ghost var t := State();
      PartKeepsRest(start, t, doc, dirs, infos);
      var uncleaned := UndoRestore(start, doc, doc.id, doc.companyID, docExisted, dirs, infos);
      if !uncleaned && NoLeftovers(s, doc) && docExisted {
        UndoRestores(s, t, State(), doc, dirs, infos);
      }
      FailedRestoreIsStep(s, State(), doc, recreate, uncleaned);
      out := Failed(error, uncleaned);
    }
  }
}
