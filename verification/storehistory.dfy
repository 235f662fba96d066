/** Deleting versions in any order, and rebuilding versions from their recorded changes. */
module StoreHistory {
  import opened Documents
  import opened Ordering
  import opened HashedDocuments
  import opened SplitStore
  import opened StoreInvariants
  import opened StoreRuns

  // --------------------------------------------------------- order of deletion

  function DeleteInOrder(s: Stores, d: Id, versions: seq<VersionTime>): Stores
    requires NoDuplicates(versions)
    requires forall v :: v in versions ==> RowId(d, v) in s.rows
    decreases |versions|
  {
    if versions == [] then s
    else
      var rest := versions[1..];
      assert NoDuplicates(rest) && versions[0] !in rest by {
        assert forall i :: 0 <= i < |rest| ==> rest[i] == versions[i + 1];
      }
      DeleteInOrder(VersionDeleted(s, d, versions[0]), d, rest)
  }

  /** Some version of d refers to h, and all that do are among the given ones. */
  predicate OnlyAmong(rows: Table, d: Id, versions: set<VersionTime>, h: Hash) {
    && Referenced(rows, d, h)
    && forall k :: k in rows && k.doc == d && RowHas(rows[k], h) ==> k.version in versions
  }

  function AfterDeleting(s: Stores, d: Id, versions: set<VersionTime>): Stores {
    Stores(
      map k | k in s.rows && !(k.doc == d && k.version in versions) :: s.rows[k],
      map k | k in s.blobs && !(k.doc == d && OnlyAmong(s.rows, d, versions, k.hash)) :: s.blobs[k])
  }

  lemma SoleIsOnlyAmong(rows: Table, d: Id, v: VersionTime, h: Hash)
    requires RowId(d, v) in rows
    ensures h in SoleHashes(rows, d, v) <==> OnlyAmong(rows, d, {v}, h)
  {
    var k := RowId(d, v);
    var others := rows - {k};
    if h in SoleHashes(rows, d, v) {
      assert RowHas(rows[k], h);
      assert !Referenced(others, d, h);
      forall j | j in others && j.doc == d ensures !RowHas(rows[j], h) {
        assert !RowHas(others[j], h);
      }
    }
    if OnlyAmong(rows, d, {v}, h) {
      var j :| j in rows && j.doc == d && RowHas(rows[j], h);
      assert j == k;
      assert !Referenced(others, d, h);
    }
  }

  lemma OnlyAmongFirstAndRest(rows: Table, d: Id, v: VersionTime, rest: set<VersionTime>, h: Hash)
    requires RowId(d, v) in rows && v !in rest
    ensures OnlyAmong(rows, d, {v} + rest, h)
      <==> OnlyAmong(rows, d, {v}, h) || OnlyAmong(rows - {RowId(d, v)}, d, rest, h)
  {
    var k := RowId(d, v);
    var others := rows - {k};
    if OnlyAmong(rows, d, {v} + rest, h) && !OnlyAmong(rows, d, {v}, h) {
      var j :| j in rows && j.doc == d && RowHas(rows[j], h) && j.version !in {v};
      assert j in others && RowHas(others[j], h);
      forall i | i in others && i.doc == d && RowHas(others[i], h) ensures i.version in rest {
        assert i in rows && i != k;
      }
    }
    if OnlyAmong(others, d, rest, h) {
      MoreRowsReferMore(others, rows, d, h);
      forall i | i in rows && i.doc == d && RowHas(rows[i], h) ensures i.version in {v} + rest {
        if i != k { assert i in others && RowHas(others[i], h); }
      }
    }
  }

  /**
   Whatever the order, the rows left are those not deleted, and a blob is gone
   exactly when its hash was referred to and every version that did is deleted.
   */
  lemma {:induction false} DeletionOrderIsIrrelevant(s: Stores, d: Id, versions: seq<VersionTime>)
    requires NoDuplicates(versions)
    requires forall v :: v in versions ==> RowId(d, v) in s.rows
    ensures DeleteInOrder(s, d, versions) == AfterDeleting(s, d, set v | v in versions)
    decreases |versions|
  {
    var all := set v | v in versions;
    if versions == [] {
      assert AfterDeleting(s, d, all).rows == s.rows;
      forall h ensures !OnlyAmong(s.rows, d, all, h) {
        if Referenced(s.rows, d, h) {
          var k :| k in s.rows && k.doc == d && RowHas(s.rows[k], h);
          assert k.version !in all;
        }
      }
      assert AfterDeleting(s, d, all).blobs == s.blobs;
    } else {
      var first, rest := versions[0], versions[1..];
      assert forall i :: 0 <= i < |rest| ==> rest[i] == versions[i + 1];
      var others := set v | v in rest;
      var s1 := VersionDeleted(s, d, first);
      DeletionOrderIsIrrelevant(s1, d, rest);
      assert versions == [first] + rest;
      assert all == {first} + others && first !in others;
      DeletingOneMore(s, d, first, others);
    }
  }

  lemma DeletingOneMore(s: Stores, d: Id, v: VersionTime, rest: set<VersionTime>)
    requires RowId(d, v) in s.rows && v !in rest
    ensures AfterDeleting(VersionDeleted(s, d, v), d, rest) == AfterDeleting(s, d, {v} + rest)
  {
    var a, b := AfterDeleting(VersionDeleted(s, d, v), d, rest), AfterDeleting(s, d, {v} + rest);
    forall k ensures k in a.rows <==> k in b.rows {
    }
    assert a.rows == b.rows;
    forall k ensures k in a.blobs <==> k in b.blobs {
      SoleIsOnlyAmong(s.rows, d, v, k.hash);
      OnlyAmongFirstAndRest(s.rows, d, v, rest, k.hash);
    }
    assert a.blobs == b.blobs;
  }

  // ------------------------------------------------------------- recorded changes

  predicate Touches(info: VersionInfo, n: Name) {
    n in info.addedFiles || n in info.modifiedFiles
  }

  /** The files of info are those of its predecessor as changed by its three lists. */
  ghost predicate Carries(prev: FileMap, info: VersionInfo) {
    && (forall n :: n in info.files <==> Touches(info, n) || (n in prev && n !in info.removedFiles))
    && (forall n :: n in info.files && !Touches(info, n) ==> info.files[n] == prev[n])
  }

  ghost predicate RowChains(rows: Table, k: RowId)
    requires k in rows
  {
    var info := rows[k];
    match info.prevVersion
    case None => Carries(map[], info)
    case Some(p) => p < k.version && RowId(k.doc, p) in rows && Carries(rows[RowId(k.doc, p)].files, info)
  }

  ghost predicate DeltaChain(rows: Table) {
    forall k :: k in rows ==> RowChains(rows, k)
  }

  /** The files of a version rebuilt from the first one along the recorded changes. */
  function Replay(rows: Table, k: RowId): FileMap
    requires k in rows
    decreases k.version
  {
    var info := rows[k];
    var touched := map n | n in info.files && Touches(info, n) :: info.files[n];
    match info.prevVersion
    case None => touched
    case Some(p) =>
      if p < k.version && RowId(k.doc, p) in rows
      then Without(Replay(rows, RowId(k.doc, p)), info.removedFiles) + touched
      else touched
  }

  lemma {:induction false} ReplayGivesFiles(rows: Table, k: RowId)
    requires DeltaChain(rows) && k in rows
    ensures Replay(rows, k) == rows[k].files
    decreases k.version
  {
    assert RowChains(rows, k);
    if rows[k].prevVersion.Some? {
      ReplayGivesFiles(rows, RowId(k.doc, rows[k].prevVersion.value));
    }
  }

  /** However the writes are labelled, an appended row carries its predecessor's files. */
  lemma AppendedRowCarries(s: Stores, op: Operation, info: VersionInfo)
    requires op.Add? && Appends(s, op, info)
    ensures Carries(s.rows[RowId(op.docID, Latest(s.rows, op.docID))].files, info)
  {
    var d, r := op.docID, op.result.value;
    var prev := s.rows[RowId(d, Latest(s.rows, d))];
    var infos := InfosOf(r.writeFiles);
    forall n
      ensures Touches(info, n) <==> n in NamesOf(infos)
      ensures n in info.files <==> Touches(info, n) || (n in prev.files && n !in info.removedFiles)
      ensures n in info.files && !Touches(info, n) ==> info.files[n] == prev.files[n]
    {
      LabelledNames(s.blobs, d, prev, infos, false, n);
      LabelledNames(s.blobs, d, prev, infos, true, n);
      OverlayKeys(Without(prev.files, r.removeFiles), infos, n);
      if n in NamesOf(infos) {
        var i :| 0 <= i < |infos| && NamesOf(infos)[i] == n;
        assert infos[i].name == n;
      } else {
        OverlayMiss(Without(prev.files, r.removeFiles), infos, n);
      }
    }
  }

  lemma GenesisRowCarries(op: Operation)
    requires op.Create?
    ensures Carries(map[], GenesisRow(op.companyID, op.docID, op.userID, op.reason, op.version, op.files))
  {
    var infos := InfosOf(op.files);
    var info := GenesisRow(op.companyID, op.docID, op.userID, op.reason, op.version, op.files);
    forall n ensures n in info.files <==> Touches(info, n) {
      OverlayKeys(map[], infos, n);
      if n in NamesOf(infos) {
        var i :| 0 <= i < |infos| && NamesOf(infos)[i] == n;
        assert infos[i].name == n;
      } else {
        OverlayMiss(map[], infos, n);
      }
    }
  }

  lemma InsertKeepsChain(rows: Table, k: RowId, info: VersionInfo)
    requires DeltaChain(rows) && k !in rows
    requires match info.prevVersion
      case None => Carries(map[], info)
      case Some(p) => p < k.version && RowId(k.doc, p) in rows && Carries(rows[RowId(k.doc, p)].files, info)
    ensures DeltaChain(rows[k := info])
  {
    var rows' := rows[k := info];
    forall j | j in rows' ensures RowChains(rows', j) {
      if j != k { assert RowChains(rows, j); }
    }
  }

  lemma DropKeepsChain(rows: Table, d: Id)
    requires DeltaChain(rows)
    ensures DeltaChain(RowsWithout(rows, d))
  {
    forall k | k in RowsWithout(rows, d) ensures RowChains(RowsWithout(rows, d), k) {
      assert RowChains(rows, k);
    }
  }

  lemma CompanySetKeepsChain(rows: Table, d: Id, companyID: Id)
    requires DeltaChain(rows)
    ensures DeltaChain(CompanySet(rows, d, companyID))
  {
    var rows' := CompanySet(rows, d, companyID);
    forall k | k in rows' ensures RowChains(rows', k) {
      assert RowChains(rows, k);
      if rows[k].prevVersion.Some? {
        var p := RowId(k.doc, rows[k].prevVersion.value);
        assert rows'[p].files == rows[p].files;
      }
    }
  }

  /** A backup written in full chains: each version against the one before it. */
  lemma RestoredRowsChain(rows: Table, rows': Table, doc: HashedDocument)
    requires doc.WellFormed() && DeltaChain(rows) && !HasRows(rows, doc.id)
    requires Merged(rows, rows', doc, doc.versions.Keys)
    ensures DeltaChain(rows')
  {
    forall k | k in rows' ensures RowChains(rows', k) {
      if k in rows {
        assert RowChains(rows, k);
      } else {
        var v, info := k.version, rows'[k];
        assert Describes(doc, v, info);
        var p := doc.Predecessor(v);
        if p.Some? {
          assert RowId(doc.id, p.value) !in rows;
          assert Describes(doc, p.value, rows'[RowId(doc.id, p.value)]);
          DescribedVersionCarries(doc, v, info, doc.FilesAt(p.value));
        } else {
          DescribedVersionCarries(doc, v, info, map[]);
        }
      }
    }
  }

  lemma DescribedVersionCarries(doc: HashedDocument, v: VersionTime, info: VersionInfo, prev: FileMap)
    requires doc.WellFormed() && v in doc.versions && Describes(doc, v, info)
    requires match doc.Predecessor(v) case None => prev == map[] case Some(p) => prev == doc.FilesAt(p)
    ensures Carries(prev, info)
  {
    var before, now := doc.PreviousHashes(v), doc.versions[v].fileHashes;
    assert forall n :: n in prev <==> n in before;
  }

  /** The operations that append to documents or replace them as a whole. */
  predicate Whole(op: Operation) {
    && !op.DeleteVersion?
    && (op.Restore? ==> op.recreate)
  }

  lemma StepKeepsChain(s: Stores, s': Stores, e: Event)
    requires Step(s, s', e.op, e.out) && Compensated(e) && Whole(e.op)
    requires Consistent(s) && DeltaChain(s.rows)
    ensures DeltaChain(s'.rows)
  {
    hide RestoreStep, DeltaChain, OnlyWrites, NothingLost, Grown, Shrunk, PutAll, GenesisFree;
    match e.op
    case Create(_, _, _, _, _, _, _) =>
      GenesisRowCarries(e.op);
      if e.out.Done? {
        InsertKeepsChain(s.rows, RowId(e.op.docID, e.op.version), s'.rows[RowId(e.op.docID, e.op.version)]);
      }
    case Add(d, _, _, _) =>
      if e.out.Done? {
        var k := RowId(d, e.op.result.value.version);
        AppendedRowCarries(s, e.op, s'.rows[k]);
        assert RowWellFormed(RowId(d, Latest(s.rows, d)), s.rows[RowId(d, Latest(s.rows, d))]);
        InsertKeepsChain(s.rows, k, s'.rows[k]);
      }
    case Delete(d) => DropKeepsChain(s.rows, d);
    case SetCompany(d, c) => CompanySetKeepsChain(s.rows, d, c);
    case Restore(doc, _) => RestoreKeepsChain(s, s', doc, e.out);
  }

  lemma RestoreKeepsChain(s: Stores, s': Stores, doc: HashedDocument, out: Outcome)
    requires RestoreStep(s, s', doc, true, out) && (out.Failed? ==> !out.metaLeft)
    requires Consistent(s) && DeltaChain(s.rows)
    ensures DeltaChain(s'.rows)
  {
    var base := RestoreBase(s, doc, true);
    DropKeepsChain(s.rows, doc.id);
    ExistenceAgrees(s, doc.id);
    hide DeltaChain, Consistent, BlobsMerged, HashedDocument.WellFormed, Fits, HasBlobs, HasRows, Shrunk, RowsLeft, Merged, Refused;
    if out.Done? {
      RestoredRowsChain(base.rows, s'.rows, doc);
    }
  }

  lemma NothingChains()
    ensures DeltaChain(EMPTY.rows)
  {
  }

  /** Along such a run every version can be rebuilt from the recorded changes alone. */
  lemma {:induction false} VersionsReplay(states: seq<Stores>, events: seq<Event>, i: nat)
    requires Run(states, events) && i < |states|
    requires forall e :: e in events ==> Compensated(e) && Whole(e.op)
    ensures DeltaChain(states[i].rows)
    ensures forall k :: k in states[i].rows ==> Replay(states[i].rows, k) == states[i].rows[k].files
  {
    hide Step, Compensated, Whole, DeltaChain, Consistent, Replay;
    if i == 0 {
      NothingChains();
    } else {
      var j := i - 1;
      VersionsReplay(states, events, j);
      NothingDangles(states, events, j);
      assert events[j] in events;
      StepKeepsChain(states[j], states[j + 1], events[j]);
    }
    forall k | k in states[i].rows ensures Replay(states[i].rows, k) == states[i].rows[k].files {
      ReplayGivesFiles(states[i].rows, k);
    }
  }
}
