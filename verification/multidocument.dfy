/**
 Adding a version to several documents at once, over any connection that keeps
 the contract of single appends and single deletes.
 */
module MultiDocument {
  import opened Documents
  import opened Ordering
  import opened HashedDocuments
  import opened SplitStore
  import opened StoreInvariants
  import LocalTree
  import LocalRuns

  datatype AddOutcome = Added(info: VersionInfo) | NoChanges | AddFailed

  /** A version of d that is later than all stored ones. */
  ghost predicate Later(rows: Table, d: Id, info: VersionInfo) {
    info.docID == d && forall k :: k in rows && k.doc == d ==> k.version < info.version
  }

  /**
   An append adds one later version, or changes no version at all. accepted is
   the version that was shown to the callback and that it accepted; the append
   may still fail after that.
   */
  ghost predicate AddContract(rows: Table, rows': Table, d: Id, accepted: Option<VersionInfo>, out: AddOutcome) {
    && (accepted.Some? ==> Later(rows, d, accepted.value))
    && match out
       case Added(info) => accepted == Some(info) && HasRows(rows, d) && rows' == rows[RowId(d, info.version) := info]
       case NoChanges => accepted.None? && rows' == rows
       case AddFailed => rows' == rows
  }

  /** A delete that succeeds removes one version, and one of a version that is not there fails without effect. */
  ghost predicate DeleteContract(rows: Table, rows': Table, d: Id, v: VersionTime, ok: bool) {
    && (ok ==> RowId(d, v) in rows && rows' == rows - {RowId(d, v)})
    && (RowId(d, v) !in rows ==> rows' == rows)
  }

  /** A call of the connection, what the callback accepted in it, and how it ended. */
  datatype Append = Append(doc: Id, accepted: Option<VersionInfo>, out: AddOutcome)

  datatype Deletion = Deletion(row: RowId, ok: bool)

  /** Any connection that keeps the contract: what it does beyond that is arbitrary. */
  class Conn {
    var rows: Table

    /** The appends and the deletes asked for so far. */
    ghost var appends: seq<Append>
    ghost var deletions: seq<Deletion>

    method AddDocumentVersion(d: Id) returns (accepted: Option<VersionInfo>, out: AddOutcome)
      modifies this
      ensures AddContract(old(rows), rows, d, accepted, out)
      ensures appends == old(appends) + [Append(d, accepted, out)] && deletions == old(deletions)
    {
      accepted, out := Attempt(d);
      appends := appends + [Append(d, accepted, out)];
    }

    method Attempt(d: Id) returns (accepted: Option<VersionInfo>, out: AddOutcome)
      modifies this`rows
      ensures AddContract(old(rows), rows, d, accepted, out)
    {
      var shown: bool := *;
      var noChanges: bool := *;
      if !shown || !HasRows(rows, d) {
        return None, if noChanges then NoChanges else AddFailed;
      }
      assert Latest(rows, d) < Latest(rows, d) + 1;
      var version: VersionTime :| Latest(rows, d) < version;
      var info: VersionInfo := *;
      info := info.(docID := d, version := version);
      var committed: bool := *;
      if !committed {
        return Some(info), AddFailed;
      }
      rows := rows[RowId(d, info.version) := info];
      return Some(info), Added(info);
    }

    method DeleteDocumentVersion(d: Id, v: VersionTime) returns (ok: bool)
      modifies this
      ensures DeleteContract(old(rows), rows, d, v, ok)
      ensures deletions == old(deletions) + [Deletion(RowId(d, v), ok)] && appends == old(appends)
    {
      ok := false;
      if RowId(d, v) in rows {
        ok := *;
        if ok {
          rows := rows - {RowId(d, v)};
        } else {
          rows := *;
        }
      }
      deletions := deletions + [Deletion(RowId(d, v), ok)];
    }
  }

  // ---------------------------------------------------- many appends, one after another

  function Members(keys: seq<RowId>): set<RowId> {
    set k | k in keys
  }

  /** The documents of the calls that added a version. */
  function Kept(calls: seq<Append>): seq<Id> {
    if calls == [] then []
    else
      var last := calls[|calls| - 1];
      Kept(calls[..|calls| - 1]) + (if last.out.Added? then [last.doc] else [])
  }

  /** The versions that callbacks accepted, whether or not the append went well after that. */
  function Accepted(calls: seq<Append>): seq<RowId> {
    if calls == [] then []
    else
      var last := calls[|calls| - 1];
      Accepted(calls[..|calls| - 1]) + (if last.accepted.Some? then [RowId(last.accepted.value.docID, last.accepted.value.version)] else [])
  }

  /** The deletes of the given versions, in that order, with their outcomes. */
  ghost predicate Deletes(deletions: seq<Deletion>, rows: seq<RowId>) {
    |deletions| == |rows| && forall i :: 0 <= i < |rows| ==> deletions[i].row == rows[i]
  }

  function DocsOf(created: seq<RowId>): (docs: seq<Id>)
    ensures |docs| == |created| && forall i :: 0 <= i < |docs| ==> docs[i] == created[i].doc
  {
    seq(|created|, i requires 0 <= i < |created| => created[i].doc)
  }

  /** rows' is rows with one more row for each created version. */
  ghost predicate Extended(rows: Table, rows': Table, created: seq<RowId>) {
    && (forall k :: k in rows ==> k in rows' && rows'[k] == rows[k])
    && (forall k :: k in rows' <==> k in rows || k in created)
    && (forall k :: k in created ==> k !in rows)
  }

  /** Each created version is later than those of its document that were there before it. */
  ghost predicate InOrder(rows: Table, created: seq<RowId>) {
    && NoDuplicates(created)
    && (forall i, k :: 0 <= i < |created| && k in rows && k.doc == created[i].doc ==> k.version < created[i].version)
    && (forall i, j :: 0 <= i < j < |created| && created[i].doc == created[j].doc ==> created[i].version < created[j].version)
  }

  ghost predicate Grew(rows: Table, rows': Table, created: seq<RowId>) {
    Extended(rows, rows', created) && InOrder(rows, created)
  }

  lemma GrowsMore(rows: Table, rows': Table, rows'': Table, created: seq<RowId>, d: Id, info: VersionInfo)
    requires Grew(rows, rows', created) && AddContract(rows', rows'', d, Some(info), Added(info))
    ensures Grew(rows, rows'', created + [RowId(d, info.version)])
  {
    var k := RowId(d, info.version);
    assert k !in rows';
    assert forall x :: x in created + [k] <==> x in created || x == k;
    assert Extended(rows, rows'', created + [k]);
    LaterStaysInOrder(rows, created, k);
  }

  lemma LaterStaysInOrder(rows: Table, created: seq<RowId>, k: RowId)
    requires InOrder(rows, created)
    requires forall x :: x in rows && x.doc == k.doc ==> x.version < k.version
    requires forall x :: x in created && x.doc == k.doc ==> x.version < k.version
    ensures InOrder(rows, created + [k])
  {
    var all := created + [k];
    forall i | 0 <= i < |created| ensures all[i] == created[i] && all[i] in created {
    }
  }

  datatype MultiOutcome = AllDone | NothingChanged | Undone(undoFailed: bool)

  /**
   Deletes what callbacks accepted, in that order, and goes on when a delete
   fails. stuck says that a version that is stored could not be deleted.
   */
  method Undo(conn: Conn, accepted: seq<RowId>) returns (undoFailed: bool, ghost stuck: bool, ghost deletions: seq<Deletion>)
    modifies conn
    ensures conn.appends == old(conn.appends) && conn.deletions == old(conn.deletions) + deletions
    ensures Deletes(deletions, accepted) && (undoFailed <==> exists i :: 0 <= i < |deletions| && !deletions[i].ok)
    ensures stuck ==> undoFailed
    ensures !stuck ==> conn.rows == old(conn.rows) - Members(accepted)
  {
    ghost var start := conn.rows;
    undoFailed, stuck, deletions := false, false, [];
    assert accepted[..0] == [] && start - Members([]) == start;
    for i := 0 to |accepted|
      invariant stuck ==> undoFailed
      invariant !stuck ==> conn.rows == start - Members(accepted[..i])
      invariant conn.appends == old(conn.appends) && conn.deletions == old(conn.deletions) + deletions
      invariant |deletions| == i && forall j :: 0 <= j < i ==> deletions[j].row == accepted[j]
      invariant undoFailed <==> exists j :: 0 <= j < i && !deletions[j].ok
    {
      assert accepted[..i + 1] == accepted[..i] + [accepted[i]];
      assert (start - Members(accepted[..i])) - {accepted[i]} == start - Members(accepted[..i + 1]);
      ghost var stored := accepted[i] in conn.rows;
      var ok := conn.DeleteDocumentVersion(accepted[i].doc, accepted[i].version);
      ghost var earlier := deletions;
      deletions := deletions + [Deletion(accepted[i], ok)];
      assert deletions[i].ok == ok && forall j :: 0 <= j < i ==> deletions[j] == earlier[j];
      undoFailed := undoFailed || !ok;
      stuck := stuck || (stored && !ok);
    }
    assert accepted[..|accepted|] == accepted;
  }

  /** Deleting what was created, and possibly one version that never came to be, gives back the rows. */
  lemma UndoneGrowth(rows: Table, rows': Table, created: seq<RowId>, accepted: seq<RowId>)
    requires Grew(rows, rows', created)
    requires accepted == created || (accepted != [] && accepted == created + [accepted[|accepted| - 1]] && accepted[|accepted| - 1] !in rows')
    ensures rows' - Members(accepted) == rows
  {
    assert forall k :: k in created ==> k in accepted;
    assert forall k :: k in accepted ==> k in created || k !in rows';
  }

  /** The documents are asked in their order; no append before the last one failed, so the last one decides. */
  predicate StoppedEarly(calls: seq<Append>) {
    calls != [] && calls[|calls| - 1].out.AddFailed?
  }

  ghost predicate AskedInOrder(docIDs: seq<Id>, calls: seq<Append>) {
    && |calls| <= |docIDs|
    && (forall i :: 0 <= i < |calls| ==> calls[i].doc == docIDs[i])
    && (forall i :: 0 <= i < |calls| - 1 ==> !calls[i].out.AddFailed?)
    && (!StoppedEarly(calls) ==> |calls| == |docIDs|)
  }

  /** The outcome that the single appends call for. */
  ghost predicate Concludes(docIDs: seq<Id>, calls: seq<Append>, out: MultiOutcome) {
    && AskedInOrder(docIDs, calls)
    && (out.Undone? <==> StoppedEarly(calls))
    && (out.NothingChanged? <==> |calls| == |docIDs| && forall i :: 0 <= i < |calls| ==> calls[i].out.NoChanges?)
  }

  /** All or nothing, but for documents that had nothing to change. */
  method AddMultiDocumentVersionImpl(conn: Conn, docIDs: seq<Id>)
    returns (out: MultiOutcome, ghost calls: seq<Append>, ghost deletions: seq<Deletion>, ghost stuck: bool)
    modifies conn
    ensures Concludes(docIDs, calls, out)
    ensures conn.appends == old(conn.appends) + calls && conn.deletions == old(conn.deletions) + deletions
    ensures Deletes(deletions, if out.Undone? then Accepted(calls) else [])
    ensures out.Undone? ==> (out.undoFailed <==> exists i :: 0 <= i < |deletions| && !deletions[i].ok)
    ensures out.Undone? && !stuck ==> conn.rows == old(conn.rows)
    ensures out == Undone(false) ==> !stuck
    ensures out.AllDone? ==> Grew(old(conn.rows), conn.rows, Accepted(calls)) && DocsOf(Accepted(calls)) == Kept(calls) != []
    ensures out.NothingChanged? ==> conn.rows == old(conn.rows)
  {
    ghost var rows := conn.rows;
    var undoList: seq<RowId> := [];
    calls, deletions, stuck := [], [], false;
    GrewNothing(rows);
    hide Grew, AddContract, Members, Kept, Accepted, DocsOf, Concludes, Deletes, Later, AskedSoFar;
    NothingAsked(docIDs);
    var i := 0;
    while i < |docIDs|
      invariant 0 <= i <= |docIDs| && |calls| == i && AskedSoFar(docIDs, calls)
      invariant conn.appends == old(conn.appends) + calls && conn.deletions == old(conn.deletions)
      invariant undoList == Accepted(calls) && Grew(rows, conn.rows, undoList) && DocsOf(undoList) == Kept(calls)
    {
      ghost var before, earlier, created := conn.rows, calls, undoList;
      var accepted, added := conn.AddDocumentVersion(docIDs[i]);
      ghost var call := Append(docIDs[i], accepted, added);
      calls := calls + [call];
      ContractMeans(before, conn.rows, docIDs[i], accepted, added);
      OneMoreCall(earlier, call);
      if accepted.Some? {
        undoList := undoList + [RowId(accepted.value.docID, accepted.value.version)];
      }
      match added {
        case AddFailed =>
          UndoneGrowth(rows, conn.rows, created, undoList);
          var undoFailed;
          undoFailed, stuck, deletions := Undo(conn, undoList);
          StopsHere(docIDs, earlier, call, undoFailed);
          return Undone(undoFailed), calls, deletions, stuck;
        case NoChanges =>
          AskedMore(docIDs, earlier, call);
        case Added(info) =>
          AskedMore(docIDs, earlier, call);
          GrowsMore(rows, before, conn.rows, created, docIDs[i], info);
      }
      i := i + 1;
    }
    AllWereAsked(docIDs, calls);
    NoDeletes();
    if undoList == [] {
      GrewByNothing(rows, conn.rows);
      return NothingChanged, calls, [], false;
    }
    out := AllDone;
  }

  lemma NoDeletes()
    ensures Deletes([], [])
  {
  }

  /** What one more call adds to the versions accepted and to the documents kept. */
  lemma OneMoreCall(calls: seq<Append>, a: Append)
    ensures var k := if a.accepted.Some? then [RowId(a.accepted.value.docID, a.accepted.value.version)] else [];
            && Accepted(calls + [a]) == Accepted(calls) + k
            && DocsOf(Accepted(calls) + k) == DocsOf(Accepted(calls)) + (if a.accepted.Some? then [a.accepted.value.docID] else [])
    ensures Kept(calls + [a]) == Kept(calls) + (if a.out.Added? then [a.doc] else [])
  {
    assert (calls + [a])[..|calls|] == calls;
  }

  /** The first documents were asked in their order, and no append has failed. */
  ghost predicate AskedSoFar(docIDs: seq<Id>, calls: seq<Append>) {
    |calls| <= |docIDs| && forall i :: 0 <= i < |calls| ==> calls[i].doc == docIDs[i] && !calls[i].out.AddFailed?
  }

  lemma NothingAsked(docIDs: seq<Id>)
    ensures AskedSoFar(docIDs, [])
    ensures Accepted([]) == [] && DocsOf(Accepted([])) == Kept([])
  {
  }

  lemma AskedMore(docIDs: seq<Id>, calls: seq<Append>, a: Append)
    requires AskedSoFar(docIDs, calls) && |calls| < |docIDs| && a.doc == docIDs[|calls|] && !a.out.AddFailed?
    ensures AskedSoFar(docIDs, calls + [a])
  {
  }

  lemma StopsHere(docIDs: seq<Id>, calls: seq<Append>, a: Append, undoFailed: bool)
    requires AskedSoFar(docIDs, calls) && |calls| < |docIDs| && a.doc == docIDs[|calls|] && a.out.AddFailed?
    ensures Concludes(docIDs, calls + [a], Undone(undoFailed))
  {
    assert (calls + [a])[|calls|] == a;
  }

  lemma AllWereAsked(docIDs: seq<Id>, calls: seq<Append>)
    requires |calls| == |docIDs| && AskedSoFar(docIDs, calls)
    requires DocsOf(Accepted(calls)) == Kept(calls)
    ensures Concludes(docIDs, calls, if Accepted(calls) == [] then NothingChanged else AllDone)
    ensures Accepted(calls) != [] ==> Kept(calls) != []
  {
    KeptNothingIff(calls);
  }

  lemma ContractMeans(rows: Table, rows': Table, d: Id, accepted: Option<VersionInfo>, out: AddOutcome)
    requires AddContract(rows, rows', d, accepted, out)
    ensures accepted.Some? ==> accepted.value.docID == d && RowId(d, accepted.value.version) !in rows
    ensures out.Added? ==> accepted == Some(out.info)
    ensures out.NoChanges? ==> accepted.None?
    ensures !out.Added? ==> rows' == rows
  {
  }

  lemma GrewNothing(rows: Table)
    ensures Grew(rows, rows, [])
  {
  }

  lemma GrewByNothing(rows: Table, rows': Table)
    requires Grew(rows, rows', [])
    ensures rows' == rows
  {
  }

  lemma {:induction false} KeptNothingIff(calls: seq<Append>)
    ensures Kept(calls) == [] <==> forall i :: 0 <= i < |calls| ==> !calls[i].out.Added?
  {
    if calls != [] {
      var i := |calls| - 1;
      KeptNothingIff(calls[..i]);
      assert forall j :: 0 <= j < i ==> calls[..i][j] == calls[j];
    }
  }

  // ---------------------------------------------------------------- what it means

  /** How many times x occurs in s. */
  function Count(s: seq<Id>, x: Id): nat {
    multiset(s)[x]
  }

  /** Each document gains exactly one version per occurrence that was not skipped. */
  lemma {:induction false} OneVersionPerOccurrence(rows: Table, rows': Table, created: seq<RowId>, d: Id)
    requires Grew(rows, rows', created)
    ensures |Versions(rows', d)| == |Versions(rows, d)| + Count(DocsOf(created), d)
    decreases |created|
  {
    hide *;
    if created == [] {
      GrewByNothing(rows, rows');
      CountNothing(d);
    } else {
      var k, rest := created[|created| - 1], created[..|created| - 1];
      GrewBefore(rows, rows', created);
      OneVersionPerOccurrence(rows, rows' - {k}, rest, d);
      CountLast(created, d);
      VersionsMore(rows' - {k}, rows', k, d);
    }
  }

  lemma CountNothing(d: Id)
    ensures Count(DocsOf([]), d) == 0
  {
  }

  lemma CountLast(created: seq<RowId>, d: Id)
    requires created != []
    ensures Count(DocsOf(created), d) == Count(DocsOf(created[..|created| - 1]), d) + if created[|created| - 1].doc == d then 1 else 0
  {
    var k, rest := created[|created| - 1], created[..|created| - 1];
    assert DocsOf(created) == DocsOf(rest) + [k.doc];
  }

  lemma VersionsMore(rows: Table, rows': Table, k: RowId, d: Id)
    requires k in rows' && rows == rows' - {k}
    ensures |Versions(rows', d)| == |Versions(rows, d)| + if k.doc == d then 1 else 0
  {
    hide Versions;
    forall v
      ensures v in Versions(rows', d) <==> RowId(d, v) in rows'
      ensures v in Versions(rows, d) <==> RowId(d, v) in rows
    {
      InVersions(rows, d, v);
      InVersions(rows', d, v);
    }
    var before, after := Versions(rows, d), Versions(rows', d);
    if k.doc == d {
      assert after == before + {k.version};
      assert k.version !in before;
    } else {
      assert after == before;
    }
  }

  lemma GrewBefore(rows: Table, rows': Table, created: seq<RowId>)
    requires Grew(rows, rows', created) && created != []
    ensures created[|created| - 1] in rows'
    ensures Grew(rows, rows' - {created[|created| - 1]}, created[..|created| - 1])
  {
    assert created[|created| - 1] in created;
    LastOnce(created);
    assert Extended(rows, rows' - {created[|created| - 1]}, created[..|created| - 1]);
    InOrderBefore(rows, created, |created| - 1);
  }

  lemma InOrderBefore(rows: Table, created: seq<RowId>, n: nat)
    requires InOrder(rows, created) && n <= |created|
    ensures InOrder(rows, created[..n])
  {
    var rest := created[..n];
    assert forall i :: 0 <= i < n ==> rest[i] == created[i];
  }

  lemma LastOnce(created: seq<RowId>)
    requires created != [] && NoDuplicates(created)
    ensures forall x :: x in created[..|created| - 1] <==> x in created && x != created[|created| - 1]
  {
    var i := |created| - 1;
    assert created == created[..i] + [created[i]];
  }

  // -------------------------------------------------- the back ends keep the contract

  /** Provided the row of a failed append could be deleted again. */
  lemma SplitStoreKeepsAddContract(s: Stores, s': Stores, op: Operation, out: Outcome)
    requires op.Add? && AddStep(s, s', op, out) && (out.Failed? ==> !out.metaLeft)
    ensures out.Done? ==>
      && op.result.Some? && RowId(op.docID, op.result.value.version) in s'.rows
      && AddContract(s.rows, s'.rows, op.docID, Some(s'.rows[RowId(op.docID, op.result.value.version)]),
                     Added(s'.rows[RowId(op.docID, op.result.value.version)]))
    ensures out.Failed? ==> AddContract(s.rows, s'.rows, op.docID, None, AddFailed)
  {
    hide AppendedFiles, Labelled, PutAll, NothingLost;
  }

  lemma SplitStoreKeepsDeleteContract(s: Stores, s': Stores, d: Id, v: VersionTime, out: Outcome)
    requires DeleteVersionStep(s, s', d, v, out)
    ensures DeleteContract(s.rows, s'.rows, d, v, out.Done?)
  {
  }

  /** The versions of a tree as a table. */
  function LocalTable(t: LocalTree.Tree): Table {
    map d, v | d in t.documents && v in LocalTree.Listed(t.documents[d]) :: RowId(d, v) := t.documents[d].infoFiles[v]
  }

  lemma InLocalTable(t: LocalTree.Tree, k: RowId)
    ensures k in LocalTable(t) <==> k.doc in t.documents && k.version in LocalTree.Listed(t.documents[k.doc])
    ensures k in LocalTable(t) ==> LocalTable(t)[k] == t.documents[k.doc].infoFiles[k.version]
  {
    if k.doc in t.documents && k.version in LocalTree.Listed(t.documents[k.doc]) {
      assert k == RowId(k.doc, k.version);
    }
  }

  /** Listed versions and their info files are all that a table sees of a tree. */
  ghost predicate SameListing(dd: LocalTree.DocDir, dd': LocalTree.DocDir) {
    && LocalTree.Listed(dd') == LocalTree.Listed(dd)
    && forall v :: v in LocalTree.Listed(dd) ==> dd'.infoFiles[v] == dd.infoFiles[v]
  }

  lemma SameListingSameTable(t: LocalTree.Tree, t': LocalTree.Tree)
    requires t'.documents.Keys == t.documents.Keys
    requires forall d :: d in t.documents ==> SameListing(t.documents[d], t'.documents[d])
    ensures LocalTable(t') == LocalTable(t)
  {
    hide LocalTable;
    forall k ensures (k in LocalTable(t') <==> k in LocalTable(t)) && (k in LocalTable(t) ==> LocalTable(t')[k] == LocalTable(t)[k]) {
      InLocalTable(t, k);
      InLocalTable(t', k);
      assert k.doc in t.documents ==> SameListing(t.documents[k.doc], t'.documents[k.doc]);
    }
  }

  lemma MovedSameTable(t: LocalTree.Tree, d: Id, c: Id)
    requires d in t.documents && t.documents[d].companyFile.Some?
    ensures LocalTable(LocalTree.Moved(t, d, c)) == LocalTable(t)
  {
    SameListingSameTable(t, LocalTree.Moved(t, d, c));
  }

  lemma ErasedSameTable(t: LocalTree.Tree, d: Id, v: VersionTime)
    requires d in t.documents && v !in LocalTree.Listed(t.documents[d])
    ensures LocalTable(LocalTree.Erased(t, d, v)) == LocalTable(t)
  {
    SameListingSameTable(t, LocalTree.Erased(t, d, v));
  }

  lemma PlacedMoreTable(t: LocalTree.Tree, d: Id, dd': LocalTree.DocDir, v: VersionTime)
    requires d in t.documents && v in LocalTree.Listed(dd') && v !in LocalTree.Listed(t.documents[d])
    requires LocalTree.Listed(dd') == LocalTree.Listed(t.documents[d]) + {v}
    requires forall w :: w in LocalTree.Listed(t.documents[d]) ==> dd'.infoFiles[w] == t.documents[d].infoFiles[w]
    ensures LocalTable(LocalTree.SetDoc(t, d, dd')) == LocalTable(t)[RowId(d, v) := dd'.infoFiles[v]]
  {
    hide LocalTable;
    var t' := LocalTree.SetDoc(t, d, dd');
    forall k ensures
      && (k in LocalTable(t') <==> k in LocalTable(t) || k == RowId(d, v))
      && (k in LocalTable(t') ==> LocalTable(t')[k] == LocalTable(t)[RowId(d, v) := dd'.infoFiles[v]][k])
    {
      InLocalTable(t, k);
      InLocalTable(t', k);
    }
  }

  /** Where nothing fails but validation and callbacks. */
  lemma LocalKeepsAddContract(t: LocalTree.Tree, t': LocalTree.Tree, op: LocalTree.LocalOperation, out: LocalTree.LocalOutcome)
    requires op.Add? && LocalTree.AddStep(t, t', op, out) && out.Quiet() && LocalTree.Committed(t)
    ensures out.Done? ==>
      && op.result.Some? && RowId(op.docID, op.result.value.version) in LocalTable(t')
      && AddContract(LocalTable(t), LocalTable(t'), op.docID, Some(LocalTable(t')[RowId(op.docID, op.result.value.version)]),
                     Added(LocalTable(t')[RowId(op.docID, op.result.value.version)]))
    ensures out.Failed? ==>
      AddContract(LocalTable(t), LocalTable(t'), op.docID, None, if out.error == LocalTree.NoChanges then NoChanges else AddFailed)
  {
    hide LocalTable, LocalTree.Moved, LocalTree.Erased, LocalTree.NewFiles, LocalTree.FilesIn, LocalTree.LatestOf;
    var d := op.docID;
    if out.Done? || t' != t {
      var dd, r := t.documents[d], op.result.value;
      var latest := LocalTree.LatestOf(dd);
      assert LocalTree.Matches(d, latest, dd.versionDirs[latest], dd.infoFiles[latest]) by { assert LocalTree.DocCommitted(d, dd); }
      if out.Done? {
        var dd' :| LocalTree.Accepted(t, t', op, dd');
        LocalAppendIsContract(t, dd', d, latest, op.userID, op.reason, r);
        if t' != LocalTree.SetDoc(t, d, dd') {
          MovedSameTable(LocalTree.SetDoc(t, d, dd'), d, dd'.infoFiles[r.version].companyID);
        }
      } else {
        var was := dd.infoFiles[latest].companyID;
        ErasedSameTable(t, d, r.version);
        if out.error == LocalTree.CallbackFailed && was != r.newCompanyID.GetOr(was) {
          var now := r.newCompanyID.GetOr(was);
          LocalRuns.MovedTwice(t, d, now, was);
          MovedSameTable(t, d, now);
          MovedSameTable(LocalTree.Moved(t, d, now), d, was);
          ErasedSameTable(LocalTree.Moved(LocalTree.Moved(t, d, now), d, was), d, r.version);
        }
      }
    }
  }

  lemma LocalAppendIsContract(t: LocalTree.Tree, dd': LocalTree.DocDir, d: Id, latest: VersionTime, userID: Id, reason: string, r: CreateVersionResult)
    requires d in t.documents && LocalTree.Appended(t.documents[d], dd', d, userID, reason, r)
    requires latest in LocalTree.Listed(t.documents[d]) && t.documents[d].infoFiles[latest].version == latest
    requires latest == LocalTree.LatestOf(t.documents[d])
    ensures r.version in dd'.infoFiles
    ensures AddContract(LocalTable(t), LocalTable(LocalTree.SetDoc(t, d, dd')), d, Some(dd'.infoFiles[r.version]), Added(dd'.infoFiles[r.version]))
    ensures RowId(d, r.version) in LocalTable(LocalTree.SetDoc(t, d, dd'))
    ensures LocalTable(LocalTree.SetDoc(t, d, dd'))[RowId(d, r.version)] == dd'.infoFiles[r.version]
  {
    hide LocalTable, LocalTree.NewFiles, LocalTree.FilesIn, IsDiff;
    PlacedMoreTable(t, d, dd', r.version);
    InLocalTable(t, RowId(d, latest));
    forall k | k in LocalTable(t) && k.doc == d ensures k.version < r.version {
      InLocalTable(t, k);
    }
  }

  lemma LocalKeepsDeleteContract(t: LocalTree.Tree, t': LocalTree.Tree, op: LocalTree.LocalOperation, out: LocalTree.LocalOutcome)
    requires op.DeleteVersion? && LocalTree.DeleteVersionStep(t, t', op, out)
    requires op.docID in t.documents ==> LocalTree.Paired(t.documents[op.docID])
    ensures DeleteContract(LocalTable(t), LocalTable(t'), op.docID, op.version, out.Done?)
  {
    hide LocalTable;
    var k := RowId(op.docID, op.version);
    InLocalTable(t, k);
    if out.Done? {
      InLocalTable(t, k);
      forall x ensures
        && (x in LocalTable(t') <==> x in LocalTable(t) && x != k)
        && (x in LocalTable(t') ==> LocalTable(t')[x] == LocalTable(t)[x])
      {
        InLocalTable(t, x);
        InLocalTable(t', x);
        if x.doc == op.docID && x != k && x in LocalTable(t) {
          assert x.version in LocalTree.Listed(LocalTree.WithoutVersion(t.documents[op.docID], op.version));
        }
      }
    }
  }
}
