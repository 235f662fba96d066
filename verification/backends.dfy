/** The split store and the directory back end against one abstract document: version time to file map. */
module BackEnds {
  import opened Documents
  import opened Ordering
  import opened HashedDocuments
  import SplitStore
  import LocalTree
  import opened Backups

  type History = map<VersionTime, FileMap>

  /** The next version: the latest files less the removed ones, overlaid by the writes. */
  function Appended(h: History, r: CreateVersionResult): History
    requires h != map[]
  {
    h[r.version := AppendedFiles(h[Greatest(h.Keys)], r)]
  }

  function SplitHistory(rows: SplitStore.Table, d: Id): History {
    map v | v in SplitStore.Versions(rows, d) :: rows[SplitStore.RowId(d, v)].files
  }

  function LocalHistory(dd: LocalTree.DocDir): History {
    map v | v in LocalTree.Listed(dd) :: dd.infoFiles[v].files
  }

  /** What an append may be asked for on top of h. */
  ghost predicate Appendable(h: History, r: CreateVersionResult) {
    && h != map[]
    && r.Valid()
    && (forall v :: v in h ==> v < r.version)
    && AppendedFiles(h[Greatest(h.Keys)], r) != map[]
  }

  lemma GreatestIsUnique(s: set<nat>, m: nat)
    requires m in s && forall x :: x in s ==> x <= m
    ensures Greatest(s) == m
  {
  }

  lemma InSplitHistory(rows: SplitStore.Table, d: Id, v: VersionTime)
    ensures v in SplitHistory(rows, d) <==> SplitStore.RowId(d, v) in rows
    ensures v in SplitHistory(rows, d) ==> SplitHistory(rows, d)[v] == rows[SplitStore.RowId(d, v)].files
  {
    assert v in SplitStore.Versions(rows, d) <==> SplitStore.RowId(d, v) in rows;
  }

  lemma LatestInHistory(rows: SplitStore.Table, d: Id)
    requires SplitStore.HasRows(rows, d)
    ensures SplitHistory(rows, d) != map[] && Greatest(SplitHistory(rows, d).Keys) == SplitStore.Latest(rows, d)
    ensures forall v :: v in SplitHistory(rows, d) ==> v <= SplitStore.Latest(rows, d)
    ensures SplitHistory(rows, d)[SplitStore.Latest(rows, d)] == rows[SplitStore.RowId(d, SplitStore.Latest(rows, d))].files
  {
    var latest, h := SplitStore.Latest(rows, d), SplitHistory(rows, d);
    InSplitHistory(rows, d, latest);
    hide SplitHistory, SplitStore.Latest;
    forall v | v in h ensures v <= latest {
      InSplitHistory(rows, d, v);
    }
    assert latest in h.Keys;
    GreatestIsUnique(h.Keys, latest);
  }

  /** What a successful append inserts. */
  lemma SplitAddInserts(s: SplitStore.Stores, s': SplitStore.Stores, op: SplitStore.Operation)
    requires op.Add? && SplitStore.AddStep(s, s', op, SplitStore.Done) && SplitStore.RowsKeyed(s.rows)
    ensures SplitStore.HasRows(s.rows, op.docID) && op.result.Some? && op.result.value.Valid()
    ensures var r, latest := op.result.value, SplitStore.Latest(s.rows, op.docID);
            var k, files := SplitStore.RowId(op.docID, r.version), AppendedFiles(s.rows[SplitStore.RowId(op.docID, latest)].files, r);
            && r.version > latest && files != map[]
            && k in s'.rows && s'.rows == s.rows[k := s'.rows[k]] && s'.rows[k].files == files
  {
    hide AppendedFiles, SplitStore.Labelled, SplitStore.PutAll;
  }

  /** A successful append to the split store is the abstract append, whatever labels the files got. */
  lemma SplitAddAppends(s: SplitStore.Stores, s': SplitStore.Stores, op: SplitStore.Operation)
    requires op.Add? && SplitStore.AddStep(s, s', op, SplitStore.Done)
    requires SplitStore.RowsKeyed(s.rows)
    ensures op.result.Some? && Appendable(SplitHistory(s.rows, op.docID), op.result.value)
    ensures SplitHistory(s'.rows, op.docID) == Appended(SplitHistory(s.rows, op.docID), op.result.value)
  {
    var d, r := op.docID, op.result.value;
    SplitAddInserts(s, s', op);
    LatestInHistory(s.rows, d);
    hide AppendedFiles, SplitHistory, SplitStore.AddStep, SplitStore.Latest, SplitStore.RowsKeyed;
    var h, h' := SplitHistory(s.rows, d), SplitHistory(s'.rows, d);
    forall v
      ensures v in h' <==> v in h || v == r.version
      ensures v in h' ==> h'[v] == Appended(h, r)[v]
    {
      InSplitHistory(s.rows, d, v);
      InSplitHistory(s'.rows, d, v);
    }
  }

  /** A create puts one version with the files written, the last write of a name winning, in front of nothing. */
  lemma SplitCreateBegins(s: SplitStore.Stores, s': SplitStore.Stores, op: SplitStore.Operation)
    requires op.Create? && SplitStore.CreateStep(s, s', op, SplitStore.Done)
    ensures SplitStore.RowId(op.docID, op.version) in s'.rows
    ensures SplitHistory(s'.rows, op.docID) == SplitHistory(s.rows, op.docID)[op.version := Overlay(map[], InfosOf(op.files))]
    ensures var info := s'.rows[SplitStore.RowId(op.docID, op.version)];
            && info.companyID == op.companyID && info.commitUserID == op.userID && info.commitReason == op.reason
            && info.prevVersion.None? && info.removedFiles == info.modifiedFiles == []
            && forall n :: n in info.addedFiles <==> n in info.files
  {
    hide SplitStore.PutAll, SplitHistory;
    var d, v, infos := op.docID, op.version, InfosOf(op.files);
    forall w
      ensures w in SplitHistory(s'.rows, d) <==> w in SplitHistory(s.rows, d) || w == v
      ensures w in SplitHistory(s'.rows, d) ==> SplitHistory(s'.rows, d)[w] == SplitHistory(s.rows, d)[v := Overlay(map[], infos)][w]
    {
      InSplitHistory(s.rows, d, w);
      InSplitHistory(s'.rows, d, w);
    }
    forall n ensures n in NamesOf(infos) <==> n in Overlay(map[], infos) {
      OverlayKeys(map[], infos, n);
    }
  }

  // -------------------------------------------------------- directories as maps

  lemma {:induction false} WrittenFiles(dir: LocalTree.Files, files: seq<File>)
    ensures LocalTree.FilesIn(LocalTree.WriteAll(dir, files)) == Overlay(LocalTree.FilesIn(dir), InfosOf(files))
  {
    if files != [] {
      var k := |files| - 1;
      WrittenFiles(dir, files[..k]);
      assert InfosOf(files)[..k] == InfosOf(files[..k]);
    }
  }

  /** Names that are written over do not matter to an overlay. */
  lemma {:induction false} OverlayForgets(a: FileMap, b: FileMap, infos: seq<FileInfo>, n: Name)
    requires n !in NamesOf(infos) ==> (n in a <==> n in b) && (n in a ==> a[n] == b[n])
    ensures n in Overlay(a, infos) <==> n in Overlay(b, infos)
    ensures n in Overlay(a, infos) ==> Overlay(a, infos)[n] == Overlay(b, infos)[n]
  {
    if infos != [] {
      var k := |infos| - 1;
      assert NamesOf(infos) == NamesOf(infos[..k]) + [infos[k].name];
      if infos[k].name != n {
        OverlayForgets(a, b, infos[..k], n);
      }
    }
  }

  lemma WritesIsNamed(files: seq<File>, n: Name)
    ensures LocalTree.Writes(files, n) <==> n in NamesOf(InfosOf(files))
  {
    if LocalTree.Writes(files, n) {
      var f :| f in files && f.name == n;
      var i :| 0 <= i < |files| && files[i] == f;
      assert NamesOf(InfosOf(files))[i] == n;
    }
  }

  /** The directory of a new version has the files that the abstract append gives. */
  lemma NewDirectoryAppends(prevDir: LocalTree.Files, prev: VersionInfo, r: CreateVersionResult)
    requires prev.files == LocalTree.FilesIn(prevDir)
    ensures LocalTree.FilesIn(LocalTree.NewFiles(prevDir, prev, r)) == AppendedFiles(prev.files, r)
  {
    var carried := LocalTree.Carried(prevDir, prev, r);
    var infos := InfosOf(r.writeFiles);
    WrittenFiles(carried, r.writeFiles);
    var kept := Without(prev.files, r.removeFiles);
    forall n ensures (n in Overlay(LocalTree.FilesIn(carried), infos) <==> n in Overlay(kept, infos))
      && (n in Overlay(kept, infos) ==> Overlay(LocalTree.FilesIn(carried), infos)[n] == Overlay(kept, infos)[n])
    {
      WritesIsNamed(r.writeFiles, n);
      OverlayForgets(LocalTree.FilesIn(carried), kept, infos, n);
    }
  }

  lemma LatestInLocalHistory(d: Id, dd: LocalTree.DocDir)
    requires LocalTree.Listed(dd) != {} && LocalTree.DocCommitted(d, dd)
    ensures var latest, h := LocalTree.LatestOf(dd), LocalHistory(dd);
            && latest in h && Greatest(h.Keys) == latest && (forall v :: v in h ==> v <= latest)
            && h[latest] == dd.infoFiles[latest].files == LocalTree.FilesIn(dd.versionDirs[latest])
            && dd.infoFiles[latest].version == latest
  {
    var latest, h := LocalTree.LatestOf(dd), LocalHistory(dd);
    assert LocalTree.Matches(d, latest, dd.versionDirs[latest], dd.infoFiles[latest]);
    hide LocalTree.FilesIn, LocalTree.LatestOf, LocalTree.DocCommitted;
    assert latest in h && forall v :: v in h ==> v <= latest;
    GreatestIsUnique(h.Keys, latest);
  }

  lemma LocalHistoryGrows(dd: LocalTree.DocDir, dd': LocalTree.DocDir, v: VersionTime, dir: LocalTree.Files, info: VersionInfo)
    requires dd' == LocalTree.WithVersion(dd, v, dir, info)
    ensures LocalHistory(dd') == LocalHistory(dd)[v := info.files]
  {
    assert LocalTree.Listed(dd') == LocalTree.Listed(dd) + {v};
  }

  lemma LocalVersionAppends(d: Id, dd: LocalTree.DocDir, dd': LocalTree.DocDir, userID: Id, reason: string, r: CreateVersionResult)
    requires LocalTree.Appended(dd, dd', d, userID, reason, r) && LocalTree.DocCommitted(d, dd)
    ensures Appendable(LocalHistory(dd), r)
    ensures LocalHistory(dd') == Appended(LocalHistory(dd), r)
  {
    var latest := LocalTree.LatestOf(dd);
    LatestInLocalHistory(d, dd);
    NewDirectoryAppends(dd.versionDirs[latest], dd.infoFiles[latest], r);
    hide LocalHistory, AppendedFiles, LocalTree.NewFiles, LocalTree.FilesIn, IsDiff, LocalTree.DocCommitted, LocalTree.LatestOf;
    LocalHistoryGrows(dd, dd', r.version, LocalTree.NewFiles(dd.versionDirs[latest], dd.infoFiles[latest], r), dd'.infoFiles[r.version]);
  }

  /** A successful append to the directory back end is the abstract append. */
  lemma LocalAddAppends(t: LocalTree.Tree, t': LocalTree.Tree, op: LocalTree.LocalOperation)
    requires op.Add? && LocalTree.AddStep(t, t', op, LocalTree.Done) && LocalTree.Committed(t)
    ensures op.docID in t.documents && op.docID in t'.documents && op.result.Some?
    ensures Appendable(LocalHistory(t.documents[op.docID]), op.result.value)
    ensures LocalHistory(t'.documents[op.docID]) == Appended(LocalHistory(t.documents[op.docID]), op.result.value)
    ensures AppendedFiles(LocalHistory(t.documents[op.docID])[Greatest(LocalHistory(t.documents[op.docID]).Keys)], op.result.value)
         != LocalHistory(t.documents[op.docID])[Greatest(LocalHistory(t.documents[op.docID]).Keys)]
  {
    hide AppendedFiles, LocalTree.LatestOf, LocalTree.DocCommitted, LocalTree.Moved, LocalTree.NewFiles;
    var d := op.docID;
    var dd, r := t.documents[d], op.result.value;
    var dd' :| LocalTree.Accepted(t, t', op, dd');
    LocalVersionAppends(d, dd, dd', op.userID, op.reason, r);
    LocalVersionChanges(d, dd, dd', op.userID, op.reason, r);
    if t' != LocalTree.SetDoc(t, d, dd') {
      MovedKeepsHistory(LocalTree.SetDoc(t, d, dd'), d, dd'.infoFiles[r.version].companyID);
    }
  }

  /** The record of an append: who asked for it, its predecessor, and the exact difference of the two file maps of the history. */
  lemma LocalAppendIsRecorded(t: LocalTree.Tree, t': LocalTree.Tree, op: LocalTree.LocalOperation)
    requires op.Add? && LocalTree.AddStep(t, t', op, LocalTree.Done) && LocalTree.Committed(t)
    ensures op.docID in t.documents && op.docID in t'.documents && op.result.Some?
    ensures op.result.value.version in t'.documents[op.docID].infoFiles && LocalHistory(t.documents[op.docID]) != map[]
    ensures var h, r := LocalHistory(t.documents[op.docID]), op.result.value;
            var last, info := Greatest(h.Keys), t'.documents[op.docID].infoFiles[r.version];
            && info.commitUserID == op.userID && info.commitReason == op.reason
            && info.prevVersion == Some(last)
            && IsDiff(HashesOf(h[last]), HashesOf(AppendedFiles(h[last], r)), info.addedFiles, info.modifiedFiles, info.removedFiles)
  {
    var d := op.docID;
    var dd, r := t.documents[d], op.result.value;
    var dd' :| LocalTree.Accepted(t, t', op, dd');
    assert LocalTree.DocCommitted(d, dd);
    LatestInLocalHistory(d, dd);
    var latest := LocalTree.LatestOf(dd);
    NewDirectoryAppends(dd.versionDirs[latest], dd.infoFiles[latest], r);
    hide AppendedFiles, LocalTree.LatestOf, LocalTree.DocCommitted, LocalTree.NewFiles, LocalHistory, LocalTree.FilesIn, IsDiff, HashesOf;
    assert t'.documents[d].infoFiles == dd'.infoFiles;
  }

  /** A create makes a document of one version with the files written, and records all of them as added. */
  lemma LocalCreateBegins(t: LocalTree.Tree, t': LocalTree.Tree, op: LocalTree.LocalOperation)
    requires op.Create? && LocalTree.CreateStep(t, t', op, LocalTree.Done)
    ensures op.docID in t'.documents && op.version in t'.documents[op.docID].infoFiles
    ensures LocalHistory(t'.documents[op.docID]) == map[op.version := Overlay(map[], InfosOf(op.files))]
    ensures t'.documents[op.docID].companyFile == Some(op.companyID) && LocalTree.Marker(op.companyID, op.docID) in t'.markers
    ensures var info := t'.documents[op.docID].infoFiles[op.version];
            && info.companyID == op.companyID && info.commitUserID == op.userID && info.commitReason == op.reason
            && info.prevVersion.None? && info.removedFiles == info.modifiedFiles == []
            && forall n :: n in info.addedFiles <==> n in info.files
  {
    var d := op.docID;
    var dd', info := t'.documents[d], t'.documents[d].infoFiles[op.version];
    WrittenFiles(map[], op.files);
    assert LocalTree.FilesIn(map[]) == map[] && HashesOf(map[]) == map[];
    assert LocalTree.Listed(dd') == {op.version};
    hide LocalTree.WriteAll, Overlay, LocalTree.FilesIn;
    AllAdded(info.files, info);
  }

  /** Against nothing every file is added. */
  lemma AllAdded(files: FileMap, info: VersionInfo)
    requires IsDiff(map[], HashesOf(files), info.addedFiles, info.modifiedFiles, info.removedFiles)
    ensures info.removedFiles == info.modifiedFiles == [] && forall n :: n in info.addedFiles <==> n in files
  {
    NoNames(info.removedFiles);
    NoNames(info.modifiedFiles);
  }

  lemma NoNames(names: seq<Name>)
    ensures names == [] <==> forall n :: n !in names
  {
    assert names != [] ==> names[0] in names;
  }

  /** The directory back end appends no version without a change. */
  lemma LocalVersionChanges(d: Id, dd: LocalTree.DocDir, dd': LocalTree.DocDir, userID: Id, reason: string, r: CreateVersionResult)
    requires LocalTree.Appended(dd, dd', d, userID, reason, r) && LocalTree.DocCommitted(d, dd)
    ensures LocalHistory(dd) != map[]
    ensures AppendedFiles(LocalHistory(dd)[Greatest(LocalHistory(dd).Keys)], r) != LocalHistory(dd)[Greatest(LocalHistory(dd).Keys)]
  {
    var latest := LocalTree.LatestOf(dd);
    LatestInLocalHistory(d, dd);
    NewDirectoryAppends(dd.versionDirs[latest], dd.infoFiles[latest], r);
    hide LocalHistory, AppendedFiles, LocalTree.NewFiles, LocalTree.FilesIn, IsDiff, LocalTree.DocCommitted, LocalTree.LatestOf;
  }

  /** Where the place of the new version is free, the files it would have decide whether and how an append is refused. */
  lemma PlaceErrorMeans(d: Id, dd: LocalTree.DocDir, r: CreateVersionResult, accept: bool)
    requires LocalTree.Listed(dd) != {} && LocalTree.DocCommitted(d, dd)
    ensures LocalHistory(dd) != map[]
    ensures var h := LocalHistory(dd);
            var last := h[Greatest(h.Keys)];
            var next, error := AppendedFiles(last, r), LocalTree.PlaceError(dd, r, accept);
            && (error == Some(LocalTree.DirectoryExists) <==> r.version in dd.versionDirs)
            && (r.version !in dd.versionDirs ==>
                  && (error == Some(LocalTree.EmptyVersion) <==> next == map[])
                  && (error == Some(LocalTree.NoChanges) <==> next != map[] && next == last)
                  && (error == Some(LocalTree.CallbackFailed) <==> next != map[] && next != last && !accept)
                  && (error == None <==> next != map[] && next != last && accept))
  {
    var latest := LocalTree.LatestOf(dd);
    LatestInLocalHistory(d, dd);
    NewDirectoryAppends(dd.versionDirs[latest], dd.infoFiles[latest], r);
    hide LocalHistory, AppendedFiles, LocalTree.NewFiles, LocalTree.FilesIn, LocalTree.DocCommitted, LocalTree.LatestOf;
  }

  /** An append to a document with a history whose callback answered is ready to be placed exactly when its version is the latest. */
  lemma PlannedMeans(t: LocalTree.Tree, op: LocalTree.LocalOperation)
    requires op.Add? && op.docID in t.documents
    requires LocalTree.Listed(t.documents[op.docID]) != {} && LocalTree.DocCommitted(op.docID, t.documents[op.docID])
    ensures LocalTree.Planned(t, op) <==>
              && ValidId(op.docID) && ValidId(op.userID)
              && op.result.Some? && op.result.value.Valid()
              && forall v :: v in LocalHistory(t.documents[op.docID]) ==> v < op.result.value.version
  {
    LatestInLocalHistory(op.docID, t.documents[op.docID]);
    hide LocalHistory, LocalTree.FilesIn, LocalTree.DocCommitted, LocalTree.LatestOf, CreateVersionResult.Valid;
  }

  /**
   An append to the directory back end that is refused when the place of its
   version is known: the history tells why. Without a change it is NoChanges,
   and without a file it is EmptyVersion.
   */
  lemma RefusedAppendMeans(t: LocalTree.Tree, t': LocalTree.Tree, op: LocalTree.LocalOperation, out: LocalTree.LocalOutcome)
    requires op.Add? && LocalTree.AddStep(t, t', op, out) && LocalTree.Committed(t)
    requires out.Failed? && out.Quiet() && LocalTree.AfterPlacing(out.error)
    ensures op.docID in t.documents && op.result.Some? && LocalHistory(t.documents[op.docID]) != map[]
    ensures var h, r := LocalHistory(t.documents[op.docID]), op.result.value;
            var last := h[Greatest(h.Keys)];
            var next := AppendedFiles(last, r);
            && (forall v :: v in h ==> v < r.version)
            && (out.error == LocalTree.DirectoryExists <==> r.version in t.documents[op.docID].versionDirs)
            && (out.error != LocalTree.DirectoryExists ==>
                  && (out.error == LocalTree.EmptyVersion <==> next == map[])
                  && (out.error == LocalTree.NoChanges <==> next != map[] && next == last)
                  && (out.error == LocalTree.CallbackFailed <==> next != map[] && next != last))
  {
    var d := op.docID;
    hide LocalTree.LatestOf, LocalTree.PlaceError, LocalTree.Moved, LocalTree.Erased, LocalTree.DocCommitted, LocalHistory, AppendedFiles;
    assert LocalTree.Planned(t, op);
    assert LocalTree.DocCommitted(d, t.documents[d]);
    PlaceErrorMeans(d, t.documents[d], op.result.value, false);
    PlannedMeans(t, op);
  }

  ghost predicate SameHistory(t: LocalTree.Tree, d: Id, c: Id)
    requires d in t.documents && t.documents[d].companyFile.Some?
  {
    && d in LocalTree.Moved(t, d, c).documents
    && LocalHistory(LocalTree.Moved(t, d, c).documents[d]) == LocalHistory(t.documents[d])
  }

  lemma MovedKeepsHistory(t: LocalTree.Tree, d: Id, c: Id)
    requires d in t.documents && t.documents[d].companyFile.Some?
    ensures SameHistory(t, d, c)
  {
    assert LocalTree.Listed(LocalTree.Moved(t, d, c).documents[d]) == LocalTree.Listed(t.documents[d]);
  }

  /** From the same history and the same callback result both back ends end with the same history. */
  lemma BackEndsAgree(s: SplitStore.Stores, s': SplitStore.Stores, split: SplitStore.Operation,
                      t: LocalTree.Tree, t': LocalTree.Tree, local: LocalTree.LocalOperation)
    requires split.Add? && SplitStore.AddStep(s, s', split, SplitStore.Done) && SplitStore.RowsKeyed(s.rows)
    requires local.Add? && LocalTree.AddStep(t, t', local, LocalTree.Done) && LocalTree.Committed(t)
    requires split.docID == local.docID && split.result == local.result
    requires local.docID in t.documents && SplitHistory(s.rows, split.docID) == LocalHistory(t.documents[local.docID])
    ensures local.docID in t'.documents && local.result.Some?
    ensures SplitHistory(s'.rows, split.docID) == LocalHistory(t'.documents[local.docID])
    ensures Appendable(SplitHistory(s.rows, split.docID), split.result.value)
    ensures SplitHistory(s'.rows, split.docID) == Appended(SplitHistory(s.rows, split.docID), split.result.value)
  {
    SplitAddAppends(s, s', split);
    LocalAddAppends(t, t', local);
  }

  // ------------------------------------------------- round trip to a directory

  ghost predicate FileRestored(src: Source, dd: LocalTree.DocDir, v: VersionTime, n: Name)
    requires v in LocalTree.Listed(dd)
  {
    && src.info(v).Success?
    && n in src.info(v).value.files
    && n in dd.versionDirs[v]
    && src.file(v, n).Success?
    && ContentHash(dd.versionDirs[v][n]) == ContentHash(src.file(v, n).value) == src.info(v).value.files[n].hash
  }

  ghost predicate VersionRestored(src: Source, dd: LocalTree.DocDir, v: VersionTime) {
    && v in LocalTree.Listed(dd)
    && src.info(v).Success?
    && src.companyID.Success?
    && var info, origin := dd.infoFiles[v], src.info(v).value;
       && info.companyID == src.companyID.value
       && info.commitUserID == origin.commitUserID
       && info.commitReason == origin.commitReason
       && info.files.Keys == origin.files.Keys == dd.versionDirs[v].Keys
       && info.files == LocalTree.FilesIn(dd.versionDirs[v])
       && forall n :: n in origin.files ==> FileRestored(src, dd, v, n)
  }

  ghost predicate LocalReplicated(src: Source, dd: LocalTree.DocDir) {
    && src.versions.Success? && src.companyID.Success?
    && dd.companyFile == Some(src.companyID.value)
    && (forall v :: v in LocalTree.Listed(dd) <==> v in src.versions.value)
    && (forall v :: v in src.versions.value ==> VersionRestored(src, dd, v))
  }

  lemma RestoredFileIsReplicated(src: Source, doc: HashedDocument, dd': LocalTree.DocDir, v: VersionTime, n: Name)
    requires Snapshot(src, doc.id, doc) && v in doc.versions && doc.Complete(v)
    requires v in LocalTree.Listed(dd') && dd'.versionDirs[v] == LocalTree.Contents(doc, v)
    requires n in src.info(v).value.files
    ensures FileRestored(src, dd', v, n)
  {
    hide HashedDocument.Predecessor, HashedDocument.WellFormed;
    assert doc.versions[v] == VersionOf(src.info(v).value);
    assert src.VersionAgrees(v) && src.FileAgrees(v, n);
    assert doc.versions[v].fileHashes[n] in doc.hashedFiles;
  }

  /** The directory of a restored version of a new document has the files of the backup. */
  lemma RestoredDirectory(doc: HashedDocument, dd: LocalTree.DocDir, dd': LocalTree.DocDir, v: VersionTime)
    requires v in doc.versions && doc.Complete(v)
    requires dd.versionDirs == map[] && LocalTree.VersionRestored(dd, dd', doc, v)
    ensures v in LocalTree.Listed(dd') && dd'.versionDirs[v] == LocalTree.Contents(doc, v)
    ensures dd'.versionDirs[v].Keys == doc.versions[v].fileHashes.Keys
    ensures var info := dd'.infoFiles[v];
            && info.companyID == doc.companyID
            && info.commitUserID == doc.versions[v].commitUserID && info.commitReason == doc.versions[v].commitReason
            && info.files == LocalTree.FilesIn(dd'.versionDirs[v])
  {
    hide IsDiff, HashedDocument.Predecessor, HashedDocument.Complete;
    assert LocalTree.Leftover(dd, v) == map[];
    var contents := LocalTree.Contents(doc, v);
    assert map[] + contents == contents && contents.Keys == doc.versions[v].fileHashes.Keys;
  }

  lemma RestoredVersionIsReplicated(src: Source, doc: HashedDocument, dd: LocalTree.DocDir, dd': LocalTree.DocDir, v: VersionTime)
    requires Snapshot(src, doc.id, doc) && v in doc.versions && doc.Complete(v)
    requires dd.versionDirs == map[] && LocalTree.VersionRestored(dd, dd', doc, v)
    ensures VersionRestored(src, dd', v)
  {
    RestoredDirectory(doc, dd, dd', v);
    assert doc.versions[v] == VersionOf(src.info(v).value) && src.VersionAgrees(v);
    hide LocalTree.VersionRestored, LocalTree.Contents, FileRestored, HashedDocument.WellHashed, HashedDocument.Complete, Holds;
    assert doc.versions[v].fileHashes.Keys == src.info(v).value.files.Keys;
    assert LocalTree.FilesIn(dd'.versionDirs[v]).Keys == dd'.versionDirs[v].Keys;
    forall n | n in src.info(v).value.files ensures FileRestored(src, dd', v, n) {
      RestoredFileIsReplicated(src, doc, dd', v, n);
    }
  }

  /** A snapshot restored into the directory back end over whatever was there is the source again. */
  lemma LocalSnapshotRoundTrip(src: Source, t: LocalTree.Tree, t': LocalTree.Tree, doc: HashedDocument)
    requires Snapshot(src, doc.id, doc)
    requires LocalTree.RestoreStep(t, t', LocalTree.Restore(doc, true), LocalTree.Done)
    ensures doc.id in t'.documents && LocalReplicated(src, t'.documents[doc.id])
  {
    hide IsDiff, HashedDocument.Predecessor, HashedDocument.WellFormed, LocalTree.VersionRestored, VersionRestored;
    var base := LocalTree.RestoreBase(t, doc.id, true);
    var start := LocalTree.RestoreStart(base, doc.id, doc.companyID);
    var dd, dd' := start.documents[doc.id], t'.documents[doc.id];
    assert dd == LocalTree.DocDir(Some(doc.companyID), map[], map[]);
    assert doc.versions.Keys - LocalTree.Listed(dd) == doc.versions.Keys;
    assert LocalTree.Listed(dd') == doc.versions.Keys;
    forall v | v in src.versions.value ensures VersionRestored(src, dd', v) {
      RestoredVersionIsReplicated(src, doc, dd, dd', v);
    }
  }

  lemma LocalRoundTripIsByteEqual(src: Source, dd: LocalTree.DocDir, v: VersionTime, n: Name)
    requires CollisionFree()
    requires LocalReplicated(src, dd) && v in src.versions.value
    requires src.info(v).Success? && n in src.info(v).value.files
    ensures v in dd.versionDirs && n in dd.versionDirs[v] && src.file(v, n) == Success(dd.versionDirs[v][n])
  {
    assert VersionRestored(src, dd, v);
    assert FileRestored(src, dd, v, n);
  }
}
