/** Every operation keeps the two stores in agreement. */
module StoreInvariants {
  import opened Documents
  import opened HashedDocuments
  import opened SplitStore

  // ------------------------------------------------------------ writing blobs

  lemma {:induction false} PutAllAt(blobs: Blobs, d: Id, files: seq<File>, k: BlobKey)
    ensures k in PutAll(blobs, d, files) <==> k in blobs || exists f :: f in files && k == KeyOf(d, InfoOf(f))
    ensures (exists f :: f in files && k == KeyOf(d, InfoOf(f))) ==>
      exists f :: f in files && k == KeyOf(d, InfoOf(f)) && PutAll(blobs, d, files)[k] == f.data
    ensures k in blobs && (forall f :: f in files ==> k != KeyOf(d, InfoOf(f))) ==> PutAll(blobs, d, files)[k] == blobs[k]
  {
    if files != [] {
      var n := |files| - 1;
      PutAllAt(blobs, d, files[..n], k);
      assert files == files[..n] + [files[n]];
    }
  }

  lemma PutAllGrows(blobs: Blobs, d: Id, files: seq<File>)
    ensures Grown(blobs, PutAll(blobs, d, files), d)
  {
    forall k ensures k in blobs ==> k in PutAll(blobs, d, files) {
      PutAllAt(blobs, d, files, k);
    }
    forall k | k in PutAll(blobs, d, files)
      ensures (k in blobs && PutAll(blobs, d, files)[k] == blobs[k])
           || (k.doc == d && ContentHash(PutAll(blobs, d, files)[k]) == k.hash)
    {
      PutAllAt(blobs, d, files, k);
    }
  }

  lemma PutAllOnlyWrites(blobs: Blobs, d: Id, files: seq<File>, n: nat)
    requires n <= |files|
    ensures OnlyWrites(blobs, PutAll(blobs, d, files[..n]), d, files)
  {
    var blobs' := PutAll(blobs, d, files[..n]);
    forall k | k in blobs' && !(k in blobs && blobs'[k] == blobs[k])
      ensures exists f :: f in files && k == KeyOf(d, InfoOf(f)) && blobs'[k] == f.data
    {
      PutAllAt(blobs, d, files[..n], k);
      var f :| f in files[..n] && k == KeyOf(d, InfoOf(f)) && blobs'[k] == f.data;
      assert f in files;
    }
  }

  /** Nothing stands against a create, and it is not refused, exactly when the document can be created and the callback agrees. */
  lemma CreateErrorMeans(s: Stores, op: Operation)
    requires op.Create?
    ensures CreateError(s, op).None? <==> Creatable(s, op) && op.refusal.None?
    ensures Creatable(s, op) ==> CreateError(s, op) == op.refusal
  {
    hide GenesisFree, HasBlobs;
    assert (forall f :: f in op.files ==> StorableName(f.name)) <==> AllSlashFree(op.files) && !exists f :: f in op.files && f.name == "";
  }

  lemma AddErrorMeans(s: Stores, op: Operation, accept: bool)
    requires op.Add?
    ensures AddError(s, op, accept).None? <==> Addable(s, op) && accept
    ensures Addable(s, op) && !accept ==> AddError(s, op, accept) == Some(CallbackFailed)
    ensures Planned(s, op) ==> AddError(s, op, accept) in {Some(InvalidInput), Some(CallbackFailed), None}
  {
    hide AppendedFiles, NamesAllowed, AllSlashFree, CreateVersionResult.Valid;
  }

  /** A name is among the labelled ones exactly when it is written and the listing of the previous version has it, or has not. */
  lemma {:induction false} LabelledNames(blobs: Blobs, d: Id, prev: VersionInfo, infos: seq<FileInfo>, listed: bool, n: Name)
    ensures n in NamesOf(Labelled(blobs, d, prev, infos, listed)) <==> n in NamesOf(infos) && ProviderHas(blobs, d, prev, n) == listed
  {
    if infos != [] {
      var i := |infos| - 1;
      var last, head := infos[i], infos[..i];
      LabelledNames(blobs, d, prev, head, listed, n);
      hide ProviderHas;
      assert NamesOf(infos) == NamesOf(head) + [last.name];
      assert NamesOf(Labelled(blobs, d, prev, infos, listed))
          == NamesOf(Labelled(blobs, d, prev, head, listed)) + (if ProviderHas(blobs, d, prev, last.name) == listed then [last.name] else []);
    }
  }

  lemma NothingWritten(blobs: Blobs, d: Id, files: seq<File>)
    ensures OnlyWrites(blobs, blobs, d, files)
  {
  }

  lemma FewerWrites(blobs: Blobs, p: Blobs, p': Blobs, d: Id, files: seq<File>)
    requires OnlyWrites(blobs, p, d, files) && forall k :: k in p' ==> k in p && p'[k] == p[k]
    ensures OnlyWrites(blobs, p', d, files)
  {
  }

  lemma GrownKeepsAddressed(blobs: Blobs, blobs': Blobs, d: Id)
    requires Addressed(blobs) && Grown(blobs, blobs', d)
    ensures Addressed(blobs')
  {
  }

  lemma GrownKeepsBacked(rows: Table, blobs: Blobs, blobs': Blobs, d: Id)
    requires Backed(rows, blobs) && Grown(blobs, blobs', d)
    ensures Backed(rows, blobs')
  {
    forall k | k in rows ensures RowBacked(k.doc, rows[k], blobs') {
      assert RowBacked(k.doc, rows[k], blobs);
    }
  }

  /** The files a version inherits or writes all have their blobs. */
  lemma OverlayIsBacked(blobs: Blobs, d: Id, prev: FileMap, info: VersionInfo, files: seq<File>)
    requires NamedMap(prev)
    requires forall n :: n in prev ==> KeyOf(d, prev[n]) in blobs
    requires info.files == Overlay(prev, InfosOf(files))
    ensures RowBacked(d, info, PutAll(blobs, d, files))
  {
    forall n | n in info.files ensures KeyOf(d, info.files[n]) in PutAll(blobs, d, files) {
      OverlayFrom(prev, InfosOf(files), n);
      PutAllAt(blobs, d, files, KeyOf(d, info.files[n]));
      if !(n in prev && info.files[n] == prev[n]) {
        var i :| 0 <= i < |files| && InfosOf(files)[i].name == n && info.files[n] == InfosOf(files)[i];
        assert files[i] in files;
      }
    }
  }

  lemma BackedRowAdded(rows: Table, blobs: Blobs, k: RowId, info: VersionInfo)
    requires Backed(rows, blobs) && RowBacked(k.doc, info, blobs)
    ensures Backed(rows[k := info], blobs)
  {
    forall j | j in rows[k := info] ensures RowBacked(j.doc, rows[k := info][j], blobs) {
    }
  }

  /** A write that is not replaced is what the overlay has under its name. */
  lemma SurvivorIsFinal(prev: FileMap, files: seq<File>, i: nat)
    requires i < |files| && Survives(files, i)
    ensures files[i].name in Overlay(prev, InfosOf(files))
    ensures Overlay(prev, InfosOf(files))[files[i].name] == InfoOf(files[i])
  {
    var infos := InfosOf(files);
    var later := infos[i + 1..];
    forall j | 0 <= j < |later| ensures NamesOf(later)[j] != infos[i].name {
      assert later[j] == InfoOf(files[i + 1 + j]);
    }
    OverlayHit(prev, infos, i);
  }

  lemma OverlayNotEmpty(m: FileMap, infos: seq<FileInfo>)
    ensures infos != [] ==> Overlay(m, infos) != map[]
  {
    if infos != [] {
      assert infos[|infos| - 1].name in Overlay(m, infos);
    }
  }

  /** A genesis row is accepted when no written file is without a name. */
  lemma GenesisNames(files: seq<File>)
    ensures NamesAllowed(Overlay(map[], InfosOf(files))) <==> forall f :: f in files ==> f.name != ""
  {
    var infos := InfosOf(files);
    assert NamedMap(Overlay(map[], infos));
    forall f | f in files ensures f.name in Overlay(map[], infos) {
      var i :| 0 <= i < |files| && files[i] == f;
      assert infos[i].name == f.name;
      OverlayKeys(map[], infos, f.name);
    }
    forall n | n in Overlay(map[], infos) ensures exists f :: f in files && f.name == n {
      OverlayKeys(map[], infos, n);
      var i :| 0 <= i < |infos| && infos[i].name == n;
      assert files[i] in files;
    }
  }

  lemma InVersions(rows: Table, d: Id, v: VersionTime)
    ensures v in Versions(rows, d) <==> RowId(d, v) in rows
  {
  }

  // --------------------------------------------------------- one document at a time

  lemma ConsistentEverywhere(s: Stores)
    ensures Consistent(s) <==> forall d :: ConsistentAt(s, d)
  {
    if forall d :: ConsistentAt(s, d) {
      forall k | k in s.rows ensures RowWellFormed(k, s.rows[k]) && RowBacked(k.doc, s.rows[k], s.blobs) {
        assert ConsistentAt(s, k.doc);
      }
      forall k | k in s.blobs ensures ContentHash(s.blobs[k]) == k.hash {
        assert ConsistentAt(s, k.doc);
      }
    }
  }

  /** Rows and blobs of every document but d are the same. */
  ghost predicate OthersKept(s: Stores, s': Stores, d: Id) {
    && (forall k :: k in s.rows && k.doc != d ==> k in s'.rows && s'.rows[k] == s.rows[k])
    && (forall k :: k in s'.rows && k.doc != d ==> k in s.rows)
    && (forall k :: k in s.blobs && k.doc != d ==> k in s'.blobs && s'.blobs[k] == s.blobs[k])
    && (forall k :: k in s'.blobs && k.doc != d ==> k in s.blobs)
  }

  lemma OthersStayConsistent(s: Stores, s': Stores, d: Id, e: Id)
    requires OthersKept(s, s', d) && e != d && ConsistentAt(s, e)
    ensures ConsistentAt(s', e)
  {
    forall k | k in s'.rows && k.doc == e ensures RowBacked(e, s'.rows[k], s'.blobs) {
      assert RowBacked(e, s.rows[k], s.blobs);
    }
  }

  lemma BuiltOnKeepsOthers(base: Stores, p: Stores, d: Id, versions: set<VersionTime>, clean: bool)
    requires BuiltOn(base, p, d, versions, clean)
    ensures OthersKept(base, p, d)
  {
    hide Referenced;
  }

  lemma UndoneKeepsOthers(s: Stores, s': Stores, d: Id, clean: bool)
    requires Undone(s, s', d, clean)
    ensures OthersKept(s, s', d)
  {
    hide Referenced;
  }

  lemma MergedKeepsOthers(base: Stores, s': Stores, doc: HashedDocument, versions: set<VersionTime>)
    requires doc.WellFormed() && Merged(base.rows, s'.rows, doc, doc.versions.Keys) && BlobsMerged(base.blobs, s'.blobs, doc, versions)
    ensures OthersKept(base, s', doc.id)
  {
    hide HashedDocument.WellFormed, Describes, VersionFile;
  }

  lemma BaseKeepsOthers(s: Stores, base: Stores, s': Stores, doc: HashedDocument, recreate: bool)
    requires base == RestoreBase(s, doc, recreate) && OthersKept(base, s', doc.id)
    ensures OthersKept(s, s', doc.id)
  {
  }

  lemma DeleteKeepsOthers(s: Stores, s': Stores, d: Id, out: Outcome)
    requires DeleteStep(s, s', d, out)
    ensures OthersKept(s, s', d)
  {
  }

  /** A restore touches no other document, even where its own rows could not be deleted again. */
  lemma RestoreKeepsOthers(s: Stores, s': Stores, doc: HashedDocument, recreate: bool, out: Outcome)
    requires RestoreStep(s, s', doc, recreate, out)
    ensures OthersKept(s, s', doc.id)
  {
    var base := RestoreBase(s, doc, recreate);
    hide RestoreBase, Merged, BlobsMerged, Undone, BuiltOn, DeleteStep, RestoreReady, RowsDescribed, HashedDocument.WellFormed;
    if out.Done? {
      assert doc.WellFormed() by { ReadyIsWellFormed(s, doc, recreate); }
      MergedKeepsOthers(base, s', doc, Absent(base.rows, doc.id, doc.versions.Keys));
      BaseKeepsOthers(s, base, s', doc, recreate);
    } else if s' == s {
    } else if recreate && !out.metaLeft && DeleteStep(s, s', doc.id, out) {
      DeleteKeepsOthers(s, s', doc.id, out);
    } else if !out.metaLeft {
      UndoneKeepsOthers(base, s', doc.id, !out.blobsLeft);
      BaseKeepsOthers(s, base, s', doc, recreate);
    } else {
      var versions :| Stuck(base, s', doc, versions, !out.blobsLeft);
      BuiltOnKeepsOthers(base, s', doc.id, versions, !out.blobsLeft);
      BaseKeepsOthers(s, base, s', doc, recreate);
    }
  }

  lemma ReadyIsWellFormed(s: Stores, doc: HashedDocument, recreate: bool)
    requires RestoreReady(s, doc, recreate)
    ensures doc.WellFormed()
  {
  }

  // ----------------------------------------------------------- no dangling rows

  lemma CreateKeepsConsistent(s: Stores, s': Stores, op: Operation, out: Outcome)
    requires op.Create? && CreateStep(s, s', op, out)
    requires out.Failed? ==> !out.metaLeft
    requires Consistent(s)
    ensures Consistent(s')
  {
    var d := op.docID;
    hide OnlyWrites, GenesisFree, StorableName, PutAll, NamesOf, Overlay;
    if out.Done? {
      PutAllGrows(s.blobs, d, op.files);
      GrownKeepsAddressed(s.blobs, s'.blobs, d);
      GrownKeepsBacked(s.rows, s.blobs, s'.blobs, d);
      var info := GenesisRow(op.companyID, d, op.userID, op.reason, op.version, op.files);
      OverlayIsBacked(s.blobs, d, map[], info, op.files);
      OverlayNotEmpty(map[], InfosOf(op.files));
      GenesisNames(op.files);
      BackedRowAdded(s.rows, s'.blobs, RowId(d, op.version), info);
    } else {
      GrownKeepsAddressed(s.blobs, s'.blobs, d);
      GrownKeepsBacked(s.rows, s.blobs, s'.blobs, d);
    }
  }

  lemma UndoneKeepsConsistent(s: Stores, s': Stores, d: Id, clean: bool)
    requires Undone(s, s', d, clean)
    requires Consistent(s)
    ensures Consistent(s')
  {
    forall k | k in s.rows ensures RowBacked(k.doc, s.rows[k], s'.blobs) {
      var info := s.rows[k];
      assert RowBacked(k.doc, info, s.blobs);
      forall n | n in info.files ensures KeyOf(k.doc, info.files[n]) in s'.blobs {
        assert RowHas(info, info.files[n].hash);
        assert Referenced(s.rows, k.doc, info.files[n].hash);
      }
    }
  }

  lemma AppendedIsBacked(s: Stores, op: Operation, info: VersionInfo)
    requires Consistent(s) && op.Add? && Appends(s, op, info)
    ensures RowBacked(op.docID, info, PutAll(s.blobs, op.docID, op.result.value.writeFiles))
    ensures RowWellFormed(RowId(op.docID, op.result.value.version), info)
  {
    var prev := s.rows[RowId(op.docID, Latest(s.rows, op.docID))];
    assert RowBacked(op.docID, prev, s.blobs);
    OverlayIsBacked(s.blobs, op.docID, Without(prev.files, op.result.value.removeFiles), info, op.result.value.writeFiles);
  }

  lemma AddKeepsConsistent(s: Stores, s': Stores, op: Operation, out: Outcome)
    requires op.Add? && AddStep(s, s', op, out)
    requires out.Failed? ==> !out.metaLeft
    requires Consistent(s)
    ensures Consistent(s')
  {
    var d := op.docID;
    if out.Done? {
      var k := RowId(d, op.result.value.version);
      AppendedIsBacked(s, op, s'.rows[k]);
      PutAllGrows(s.blobs, d, op.result.value.writeFiles);
      GrownKeepsAddressed(s.blobs, s'.blobs, d);
      GrownKeepsBacked(s.rows, s.blobs, s'.blobs, d);
      BackedRowAdded(s.rows, s'.blobs, k, s'.rows[k]);
    } else {
      UndoneKeepsConsistent(s, s', d, false);
    }
  }

  lemma DeleteKeepsConsistent(s: Stores, s': Stores, d: Id, out: Outcome)
    requires DeleteStep(s, s', d, out)
    requires Consistent(s)
    ensures Consistent(s')
  {
    if s' != s {
      forall k | k in s'.rows ensures RowBacked(k.doc, s'.rows[k], s'.blobs) {
        assert RowBacked(k.doc, s.rows[k], s.blobs);
      }
    }
  }

  /** No blob of another version goes with a deleted version. */
  lemma DeleteVersionKeepsConsistent(s: Stores, s': Stores, d: Id, v: VersionTime, out: Outcome)
    requires DeleteVersionStep(s, s', d, v, out)
    requires Consistent(s)
    ensures Consistent(s')
  {
    if s' != s {
      assert s'.rows == s.rows - {RowId(d, v)};
      forall k | k in s'.rows ensures RowBacked(k.doc, s'.rows[k], s'.blobs) {
        var info := s.rows[k];
        assert RowBacked(k.doc, info, s.blobs);
        forall n | n in info.files ensures KeyOf(k.doc, info.files[n]) in s'.blobs {
          if k.doc == d {
            NotSole(s.rows, d, v, k, n);
          }
        }
      }
    }
  }

  /** A hash that another version has is not the deleted version's alone. */
  lemma NotSole(rows: Table, d: Id, v: VersionTime, k: RowId, n: Name)
    requires RowId(d, v) in rows && k in rows && k != RowId(d, v) && k.doc == d && n in rows[k].files
    ensures rows[k].files[n].hash !in SoleHashes(rows, d, v)
  {
    var h := rows[k].files[n].hash;
    assert RowHas(rows[k], h);
    assert Referenced(rows - {RowId(d, v)}, d, h);
  }

  lemma SetCompanyKeepsConsistent(s: Stores, s': Stores, d: Id, companyID: Id, out: Outcome)
    requires SetCompanyStep(s, s', d, companyID, out)
    requires Consistent(s)
    ensures Consistent(s')
  {
    forall k | k in s'.rows ensures RowBacked(k.doc, s'.rows[k], s'.blobs) {
      assert RowBacked(k.doc, s.rows[k], s.blobs);
    }
  }

  lemma UndoneStaysConsistent(s: Stores, s': Stores, d: Id, clean: bool)
    requires Undone(s, s', d, clean) && ConsistentAt(s, d)
    ensures ConsistentAt(s', d)
  {
    forall k, n | k in s.rows && k.doc == d && n in s.rows[k].files ensures KeyOf(d, s.rows[k].files[n]) in s'.blobs {
      assert RowBacked(d, s.rows[k], s.blobs) && RowHas(s.rows[k], s.rows[k].files[n].hash);
      assert Referenced(s.rows, d, s.rows[k].files[n].hash);
    }
  }

  /** A restore needs no more than that its own document agrees, and keeps that. */
  lemma RestoreStaysConsistent(s: Stores, s': Stores, doc: HashedDocument, recreate: bool, out: Outcome)
    requires RestoreStep(s, s', doc, recreate, out)
    requires doc.WellHashed()
    requires out.Failed? ==> !out.metaLeft
    requires ConsistentAt(s, doc.id)
    ensures ConsistentAt(s', doc.id)
  {
    var base := RestoreBase(s, doc, recreate);
    assert ConsistentAt(base, doc.id);
    if out.Done? {
      RestoredRowsAreBacked(base, s', doc);
    } else if s' != s && !(recreate && DeleteStep(s, s', doc.id, out)) {
      UndoneStaysConsistent(base, s', doc.id, !out.blobsLeft);
    }
  }

  lemma RestoreKeepsConsistent(s: Stores, s': Stores, doc: HashedDocument, recreate: bool, out: Outcome)
    requires RestoreStep(s, s', doc, recreate, out)
    requires doc.WellHashed()
    requires out.Failed? ==> !out.metaLeft
    requires Consistent(s)
    ensures Consistent(s')
  {
    ConsistentEverywhere(s);
    ConsistentEverywhere(s');
    RestoreKeepsOthers(s, s', doc, recreate, out);
    RestoreStaysConsistent(s, s', doc, recreate, out);
    hide Consistent, ConsistentAt, OthersKept, RestoreStep;
    forall d ensures ConsistentAt(s', d) {
      if d != doc.id {
        OthersStayConsistent(s, s', doc.id, d);
      }
    }
  }

  lemma RestoredRowIsBacked(base: Stores, s': Stores, doc: HashedDocument, v: VersionTime)
    requires doc.WellFormed() && v in doc.versions && RowId(doc.id, v) !in base.rows
    requires VersionFits(base.rows, doc, v)
    requires RowId(doc.id, v) in s'.rows && Describes(doc, v, s'.rows[RowId(doc.id, v)])
    requires BlobsMerged(base.blobs, s'.blobs, doc, Absent(base.rows, doc.id, doc.versions.Keys))
    ensures RowBacked(doc.id, s'.rows[RowId(doc.id, v)], s'.blobs)
    ensures RowWellFormed(RowId(doc.id, v), s'.rows[RowId(doc.id, v)])
  {
    hide HashedDocument.Predecessor, HashedDocument.PreviousHashes, IsDiff, GenesisFree, SlashFree;
    var info := s'.rows[RowId(doc.id, v)];
    forall n | n in info.files ensures KeyOf(doc.id, info.files[n]) in s'.blobs {
      assert VersionFile(doc, v, KeyOf(doc.id, info.files[n]));
      assert InBackup(doc, Absent(base.rows, doc.id, doc.versions.Keys), KeyOf(doc.id, info.files[n]));
    }
    var n :| n in doc.versions[v].fileHashes;
    assert n in info.files;
  }

  lemma RestoredBlobsAreAddressed(blobs: Blobs, blobs': Blobs, doc: HashedDocument, versions: set<VersionTime>)
    requires doc.WellHashed() && BlobsMerged(blobs, blobs', doc, versions)
    requires forall k :: k in blobs && k.doc == doc.id ==> ContentHash(blobs[k]) == k.hash
    ensures forall k :: k in blobs' && k.doc == doc.id ==> ContentHash(blobs'[k]) == k.hash
  {
    hide InBackup;
  }

  lemma RestoredRowsAreBacked(base: Stores, s': Stores, doc: HashedDocument)
    requires doc.WellFormed() && doc.WellHashed() && ConsistentAt(base, doc.id)
    requires Fits(base.rows, doc, doc.versions.Keys)
    requires Merged(base.rows, s'.rows, doc, doc.versions.Keys)
    requires BlobsMerged(base.blobs, s'.blobs, doc, Absent(base.rows, doc.id, doc.versions.Keys))
    ensures ConsistentAt(s', doc.id)
  {
    RestoredBlobsAreAddressed(base.blobs, s'.blobs, doc, Absent(base.rows, doc.id, doc.versions.Keys));
    hide *;
    forall k | k in s'.rows && k.doc == doc.id
      ensures RowBacked(doc.id, s'.rows[k], s'.blobs) && RowWellFormed(k, s'.rows[k])
    {
      MergedRowIsBacked(base, s', doc, k);
    }
    RowsMakeConsistent(s', doc.id);
  }

  lemma RowsMakeConsistent(s: Stores, d: Id)
    requires forall k :: k in s.rows && k.doc == d ==> RowBacked(d, s.rows[k], s.blobs) && RowWellFormed(k, s.rows[k])
    requires forall k :: k in s.blobs && k.doc == d ==> ContentHash(s.blobs[k]) == k.hash
    ensures ConsistentAt(s, d)
  {
  }

  lemma MergedRowIsBacked(base: Stores, s': Stores, doc: HashedDocument, k: RowId)
    requires doc.WellFormed() && ConsistentAt(base, doc.id) && k in s'.rows && k.doc == doc.id
    requires Fits(base.rows, doc, doc.versions.Keys)
    requires Merged(base.rows, s'.rows, doc, doc.versions.Keys)
    requires BlobsMerged(base.blobs, s'.blobs, doc, Absent(base.rows, doc.id, doc.versions.Keys))
    ensures RowBacked(doc.id, s'.rows[k], s'.blobs) && RowWellFormed(k, s'.rows[k])
  {
    hide HashedDocument.WellFormed, Describes, VersionFits, RowWellFormed, RowBacked, BlobsMerged;
    if k in base.rows {
      MergedRowStaysBacked(base, s', doc, k);
    } else {
      RestoredRowIsBacked(base, s', doc, k.version);
    }
  }

  lemma MergedRowStaysBacked(base: Stores, s': Stores, doc: HashedDocument, k: RowId)
    requires k in base.rows && k.doc == doc.id && RowBacked(doc.id, base.rows[k], base.blobs)
    requires BlobsMerged(base.blobs, s'.blobs, doc, Absent(base.rows, doc.id, doc.versions.Keys))
    ensures RowBacked(doc.id, base.rows[k], s'.blobs)
  {
    hide InBackup;
  }

  // --------------------------------------------------------------- no garbage

  lemma MoreRowsReferMore(rows: Table, rows': Table, d: Id, h: Hash)
    requires forall k :: k in rows ==> k in rows' && rows'[k].files == rows[k].files
    requires Referenced(rows, d, h)
    ensures Referenced(rows', d, h)
  {
    var k :| k in rows && k.doc == d && RowHas(rows[k], h);
    assert RowHas(rows'[k], h);
  }

  /** Every hash that was written is one some version of d refers to. */
  ghost predicate AllReferenced(rows: Table, d: Id, files: seq<File>) {
    forall f :: f in files ==> Referenced(rows, d, ContentHash(f.data))
  }

  /** After a successful write nothing is garbage exactly when every written hash is referred to. */
  lemma WriteCollects(s: Stores, s': Stores, d: Id, files: seq<File>)
    requires Collected(s.rows, s.blobs)
    requires forall k :: k in s.rows ==> k in s'.rows && s'.rows[k].files == s.rows[k].files
    requires s'.blobs == PutAll(s.blobs, d, files)
    ensures Collected(s'.rows, s'.blobs) <==> AllReferenced(s'.rows, d, files)
  {
    forall f | f in files ensures KeyOf(d, InfoOf(f)) in s'.blobs {
      PutAllAt(s.blobs, d, files, KeyOf(d, InfoOf(f)));
    }
    if AllReferenced(s'.rows, d, files) {
      forall k | k in s'.blobs ensures Referenced(s'.rows, k.doc, k.hash) {
        PutAllAt(s.blobs, d, files, k);
        if k in s.blobs {
          MoreRowsReferMore(s.rows, s'.rows, k.doc, k.hash);
        }
      }
    }
    if Collected(s'.rows, s'.blobs) {
      forall f | f in files ensures Referenced(s'.rows, d, ContentHash(f.data)) {
        assert Referenced(s'.rows, KeyOf(d, InfoOf(f)).doc, KeyOf(d, InfoOf(f)).hash);
      }
    }
  }

  lemma UndoneKeepsCollected(s: Stores, s': Stores, d: Id)
    requires Undone(s, s', d, true)
    requires Collected(s.rows, s.blobs)
    ensures Collected(s'.rows, s'.blobs)
  {
  }

  /** A deleted version takes along every hash that no other version refers to. */
  lemma DeleteVersionKeepsCollected(s: Stores, d: Id, v: VersionTime)
    requires RowId(d, v) in s.rows
    requires Collected(s.rows, s.blobs)
    ensures Collected(VersionDeleted(s, d, v).rows, VersionDeleted(s, d, v).blobs)
  {
    var s' := VersionDeleted(s, d, v);
    forall k | k in s'.blobs ensures Referenced(s'.rows, k.doc, k.hash) {
      var r :| r in s.rows && r.doc == k.doc && RowHas(s.rows[r], k.hash);
      if r == RowId(d, v) {
        var n :| n in s.rows[r].files && s.rows[r].files[n].hash == k.hash;
        assert Referenced(s.rows - {RowId(d, v)}, d, k.hash);
      }
    }
  }

  lemma DroppedKeepsCollected(s: Stores, d: Id)
    requires Collected(s.rows, s.blobs)
    ensures Collected(Dropped(s, d).rows, Dropped(s, d).blobs)
  {
    var s' := Dropped(s, d);
    forall k | k in s'.blobs ensures Referenced(s'.rows, k.doc, k.hash) {
      var r :| r in s.rows && r.doc == k.doc && RowHas(s.rows[r], k.hash);
      assert r in s'.rows;
    }
  }

  lemma RestoreKeepsCollected(base: Stores, s': Stores, doc: HashedDocument)
    requires doc.WellFormed()
    requires Merged(base.rows, s'.rows, doc, doc.versions.Keys)
    requires BlobsMerged(base.blobs, s'.blobs, doc, Absent(base.rows, doc.id, doc.versions.Keys))
    requires Collected(base.rows, base.blobs)
    ensures Collected(s'.rows, s'.blobs)
  {
    forall k | k in s'.blobs ensures Referenced(s'.rows, k.doc, k.hash) {
      if k in base.blobs {
        MoreRowsReferMore(base.rows, s'.rows, k.doc, k.hash);
      } else {
        var v :| v in Absent(base.rows, doc.id, doc.versions.Keys) && VersionFile(doc, v, k);
        var info := s'.rows[RowId(doc.id, v)];
        assert Describes(doc, v, info);
        assert info.files[k.name].hash == k.hash;
        assert RowHas(info, k.hash);
      }
    }
  }

  // -------------------------------------------------- what agreement amounts to

  ghost function StoredHashes(blobs: Blobs, d: Id): set<Hash> {
    set k | k in blobs && k.doc == d :: k.hash
  }

  ghost function ReferencedHashes(rows: Table, d: Id): set<Hash> {
    set k, n | k in rows && k.doc == d && n in rows[k].files :: rows[k].files[n].hash
  }

  /** For each document the stored hashes are the hashes its versions refer to. */
  lemma ExactHashes(s: Stores, d: Id)
    requires Exact(s)
    ensures StoredHashes(s.blobs, d) == ReferencedHashes(s.rows, d)
  {
    forall h | h in StoredHashes(s.blobs, d) ensures h in ReferencedHashes(s.rows, d) {
      var b :| b in s.blobs && b.doc == d && b.hash == h;
      var k :| k in s.rows && k.doc == d && RowHas(s.rows[k], h);
      var n :| n in s.rows[k].files && s.rows[k].files[n].hash == h;
    }
    forall h | h in ReferencedHashes(s.rows, d) ensures h in StoredHashes(s.blobs, d) {
      var k, n :| k in s.rows && k.doc == d && n in s.rows[k].files && s.rows[k].files[n].hash == h;
      assert RowBacked(k.doc, s.rows[k], s.blobs);
      assert KeyOf(d, s.rows[k].files[n]) in s.blobs;
    }
  }

  /** Every version of a document has a file, so it has a blob. */
  lemma RowsHaveBlobs(s: Stores, d: Id)
    requires ConsistentAt(s, d) && HasRows(s.rows, d)
    ensures HasBlobs(s.blobs, d)
  {
    var k :| k in s.rows && k.doc == d;
    assert RowWellFormed(k, s.rows[k]) && RowBacked(d, s.rows[k], s.blobs);
    var n :| n in s.rows[k].files;
    assert KeyOf(d, s.rows[k].files[n]) in s.blobs;
  }

  /** The existence test on blobs agrees with the metadata. */
  lemma ExistenceAgrees(s: Stores, d: Id)
    requires Consistent(s)
    ensures HasRows(s.rows, d) ==> HasBlobs(s.blobs, d)
    ensures Exact(s) ==> (HasRows(s.rows, d) <==> HasBlobs(s.blobs, d))
  {
    if HasRows(s.rows, d) {
      ConsistentEverywhere(s);
      RowsHaveBlobs(s, d);
    }
    if Exact(s) && HasBlobs(s.blobs, d) {
      var b :| b in s.blobs && b.doc == d;
      assert Referenced(s.rows, d, b.hash);
    }
  }
}
