/**
 Any number of CreateDocument calls racing for their documents. Each call is a
 small program over the two stores; a step of the system is a step of one call,
 so a call that takes no further step has stopped where it is.
 */
module GenesisRace {
  import opened Documents
  import opened SplitStore
  import opened StoreInvariants

  datatype Request = Request(companyID: Id, docID: Id, userID: Id, reason: string, version: VersionTime, files: seq<File>) {
    predicate Valid() {
      ValidVersion(version) && files != []
    }

    function Row(): VersionInfo {
      GenesisRow(companyID, docID, userID, reason, version, files)
    }

    function RowId(): RowId {
      SplitStore.RowId(docID, version)
    }
  }

  /** Refused by the existence check, Lost to the owner of the first version, or Broken by anything else. */
  datatype Cause = Refused | Lost | Broken

  datatype Phase =
    | Checking
    | Putting(done: nat)
    | Calling
    | Committed
    | UndoingBlobs(inserted: bool)
    | UndoingRow(cause: Cause)
    | Ended(cause: Cause, rowLeft: bool)
  {
    /** The row that this call inserted is in the table. */
    predicate Holds() {
      match this
      case Calling => true
      case Committed => true
      case UndoingBlobs(inserted) => inserted
      case UndoingRow(_) => true
      case Ended(_, rowLeft) => rowLeft
      case _ => false
    }

    /** The call deletes, or has deleted, the blobs of its document. */
    predicate Purges() {
      match this
      case UndoingBlobs(_) => true
      case UndoingRow(cause) => cause == Broken
      case Ended(cause, _) => cause == Broken
      case _ => false
    }
  }

  datatype Call = Call(request: Request, phase: Phase)

  type CallId = nat

  datatype System = System(stores: Stores, calls: map<CallId, Call>)

  // ------------------------------------------------------------- the steps

  ghost predicate CheckStep(c: Call, phase': Phase, s: Stores, s': Stores) {
    && c.phase.Checking?
    && s' == s
    && (phase' == Ended(Refused, false) || (phase' == Putting(0) && !HasBlobs(s.blobs, c.request.docID)))
  }

  ghost predicate PutStep(c: Call, phase': Phase, s: Stores, s': Stores) {
    && c.phase.Putting?
    && c.phase.done < |c.request.files|
    && s'.rows == s.rows
    && var f := c.request.files[c.phase.done];
       || (s'.blobs == s.blobs && phase' == UndoingBlobs(false))
       || (SlashFree(f.name) && s'.blobs == Put(s.blobs, c.request.docID, f) && phase' == Putting(c.phase.done + 1))
  }

  /** The unique indexes admit one first version of a document, and one row at a version time. */
  ghost predicate InsertStep(c: Call, phase': Phase, s: Stores, s': Stores) {
    && c.phase.Putting?
    && c.phase.done == |c.request.files|
    && s'.blobs == s.blobs
    && var free := GenesisFree(s.rows, c.request.docID, c.request.version);
       || (free && NamesAllowed(c.request.Row().files) && s'.rows == s.rows[c.request.RowId() := c.request.Row()] && phase' == Calling)
       || (!free && s'.rows == s.rows && phase' == Ended(Lost, false))
       || (s'.rows == s.rows && phase' == UndoingBlobs(false))
  }

  /** A callback may fail with any error, among them the one that spares the blobs. */
  ghost predicate CallbackStep(c: Call, phase': Phase, s: Stores, s': Stores) {
    && c.phase.Calling?
    && s' == s
    && phase' in {Committed, UndoingBlobs(true), UndoingRow(Lost)}
  }

  /** Blobs of the document go in any order and the delete may stop after any of them. */
  ghost predicate UndoBlobsStep(c: Call, phase': Phase, s: Stores, s': Stores) {
    && c.phase.UndoingBlobs?
    && s'.rows == s.rows
    && Shrunk(s.blobs, s'.blobs, c.request.docID)
    && (phase' == c.phase || phase' == if c.phase.inserted then UndoingRow(Broken) else Ended(Broken, false))
  }

  /** The row is deleted by document and version time, or its delete fails. */
  ghost predicate UndoRowStep(c: Call, phase': Phase, s: Stores, s': Stores) {
    && c.phase.UndoingRow?
    && s'.blobs == s.blobs
    && var deleted := s'.rows == s.rows - {c.request.RowId()};
       (deleted && phase' == Ended(c.phase.cause, false)) || (s'.rows == s.rows && phase' == Ended(c.phase.cause, true))
  }

  ghost predicate CallStep(c: Call, phase': Phase, s: Stores, s': Stores) {
    || CheckStep(c, phase', s, s')
    || PutStep(c, phase', s, s')
    || InsertStep(c, phase', s, s')
    || CallbackStep(c, phase', s, s')
    || UndoBlobsStep(c, phase', s, s')
    || UndoRowStep(c, phase', s, s')
  }

  ghost predicate StepOf(a: System, b: System, id: CallId) {
    && id in a.calls
    && id in b.calls
    && b.calls == a.calls[id := Call(a.calls[id].request, b.calls[id].phase)]
    && CallStep(a.calls[id], b.calls[id].phase, a.stores, b.stores)
  }

  ghost predicate Initial(a: System) {
    forall id :: id in a.calls ==> a.calls[id].request.Valid() && a.calls[id].phase == Checking
  }

  ghost predicate Next(a: System, b: System) {
    exists id :: StepOf(a, b, id)
  }

  ghost predicate Run(systems: seq<System>) {
    && systems != []
    && Initial(systems[0])
    && forall i :: 0 < i < |systems| ==> Next(systems[i - 1], systems[i])
  }

  // ---------------------------------------------------------- the invariant

  ghost predicate HeldBySome(a: System, k: RowId) {
    exists id :: id in a.calls && a.calls[id].phase.Holds() && a.calls[id].request.RowId() == k
  }

  /** Rows that were there at the start stay, and every other row is held by a call. */
  ghost predicate RowAccounted(start: Table, a: System, k: RowId) {
    && (k in start ==> k in a.stores.rows && a.stores.rows[k] == start[k])
    && (k in a.stores.rows && k !in start ==> HeldBySome(a, k))
  }

  /** Two calls that both hold a row are not for the same document. */
  ghost predicate Apart(a: System, i: CallId, j: CallId)
    requires i in a.calls && j in a.calls
  {
    i != j && a.calls[i].phase.Holds() && a.calls[j].phase.Holds() ==> a.calls[i].request.docID != a.calls[j].request.docID
  }

  ghost predicate RowsOwned(start: Table, a: System) {
    && (forall k :: RowAccounted(start, a, k))
    && (forall id :: id in a.calls && a.calls[id].phase.Holds() ==> HeldRow(start, a, id))
    && (forall i, j :: i in a.calls && j in a.calls ==> Apart(a, i, j))
  }

  ghost predicate HeldRow(start: Table, a: System, id: CallId)
    requires id in a.calls
  {
    var k := a.calls[id].request.RowId();
    k in a.stores.rows && k !in start && a.stores.rows[k] == a.calls[id].request.Row()
  }

  function Written(c: Call): nat {
    match c.phase
    case Putting(done) => done
    case Calling => |c.request.files|
    case Committed => |c.request.files|
    case _ => 0
  }

  ghost predicate SomePurges(a: System, d: Id) {
    exists id :: id in a.calls && a.calls[id].request.docID == d && a.calls[id].phase.Purges()
  }

  /** What a running or committed call has written is there, unless some call purges its document. */
  ghost predicate BlobsKept(a: System) {
    forall id, i :: id in a.calls && 0 <= i < Written(a.calls[id]) <= |a.calls[id].request.files| ==>
      BlobKept(a, a.calls[id].request.docID, a.calls[id].request.files[i])
  }

  ghost predicate BlobKept(a: System, d: Id, f: File) {
    KeyOf(d, InfoOf(f)) in a.stores.blobs || SomePurges(a, d)
  }

  ghost predicate Counted(a: System) {
    forall id :: id in a.calls ==> Written(a.calls[id]) <= |a.calls[id].request.files|
  }

  ghost predicate Invariant(start: Table, a: System) {
    RowsOwned(start, a) && Counted(a) && BlobsKept(a)
  }

  /** A step inserts the call's row, deletes the row the call holds, or leaves the table alone. */
  ghost predicate RowEffect(c: Call, phase': Phase, rows: Table, rows': Table) {
    var k := c.request.RowId();
    || (rows' == rows && phase'.Holds() == c.phase.Holds())
    || (GenesisFree(rows, k.doc, k.version) && rows' == rows[k := c.request.Row()] && !c.phase.Holds() && phase'.Holds())
    || (rows' == rows - {k} && c.phase.Holds() && !phase'.Holds())
  }

  lemma StepHasRowEffect(c: Call, phase': Phase, s: Stores, s': Stores)
    requires CallStep(c, phase', s, s')
    ensures RowEffect(c, phase', s.rows, s'.rows)
  {
  }

  lemma StepKeepsHeldRows(start: Table, a: System, b: System, id: CallId, j: CallId)
    requires RowsOwned(start, a) && StepOf(a, b, id)
    requires RowEffect(a.calls[id], b.calls[id].phase, a.stores.rows, b.stores.rows)
    requires j in b.calls
    ensures b.calls[j].phase.Holds() ==> HeldRow(start, b, j)
    ensures Apart(b, j, id) && Apart(b, id, j)
  {
    hide CallStep;
    assert Apart(a, id, j);
    if b.calls[j].phase.Holds() && (j != id || a.calls[j].phase.Holds()) {
      assert HeldRow(start, a, j);
    }
    if b.calls[id].phase.Holds() && !a.calls[id].phase.Holds() {
      assert RowAccounted(start, a, b.calls[id].request.RowId());
    }
  }

  lemma StepKeepsOtherRows(start: Table, a: System, b: System, id: CallId, k: RowId)
    requires RowsOwned(start, a) && StepOf(a, b, id)
    requires RowEffect(a.calls[id], b.calls[id].phase, a.stores.rows, b.stores.rows)
    ensures RowAccounted(start, b, k)
  {
    hide CallStep, GenesisRow;
    assert RowAccounted(start, a, k);
    if k in start && a.calls[id].phase.Holds() {
      assert HeldRow(start, a, id);
    }
    if k in b.stores.rows && k !in start {
      if k in a.stores.rows {
        var j :| j in a.calls && a.calls[j].phase.Holds() && a.calls[j].request.RowId() == k;
        assert b.calls[j].request.RowId() == k;
      } else {
        assert b.calls[id].request.RowId() == k;
      }
    }
  }

  lemma StepKeepsRowsOwned(start: Table, a: System, b: System, id: CallId)
    requires RowsOwned(start, a) && StepOf(a, b, id)
    ensures RowsOwned(start, b)
  {
    StepHasRowEffect(a.calls[id], b.calls[id].phase, a.stores, b.stores);
    hide CallStep, RowEffect, GenesisRow;
    forall k ensures RowAccounted(start, b, k) {
      StepKeepsOtherRows(start, a, b, id, k);
    }
    forall j | j in b.calls ensures b.calls[j].phase.Holds() ==> HeldRow(start, b, j) {
      StepKeepsHeldRows(start, a, b, id, j);
    }
    forall i, j | i in b.calls && j in b.calls ensures Apart(b, i, j) {
      assert Apart(a, i, j);
      if i == id || j == id {
        StepKeepsHeldRows(start, a, b, id, if i == id then j else i);
      }
    }
  }

  lemma StepKeepsBlobs(a: System, b: System, id: CallId)
    requires Counted(a) && BlobsKept(a) && StepOf(a, b, id)
    ensures Counted(b) && BlobsKept(b)
  {
    var c := a.calls[id];
    forall j | j in b.calls ensures Written(b.calls[j]) <= |b.calls[j].request.files| {
      assert Written(a.calls[j]) <= |a.calls[j].request.files|;
    }
    forall j, i | j in b.calls && 0 <= i < Written(b.calls[j]) <= |b.calls[j].request.files|
      ensures BlobKept(b, b.calls[j].request.docID, b.calls[j].request.files[i])
    {
      var d, f := b.calls[j].request.docID, b.calls[j].request.files[i];
      assert a.calls[j].request == b.calls[j].request;
      if SomePurges(a, d) {
        var q :| q in a.calls && a.calls[q].request.docID == d && a.calls[q].phase.Purges();
        assert b.calls[q].phase.Purges();
      } else if i < Written(a.calls[j]) {
        assert BlobKept(a, d, f);
        if c.phase.UndoingBlobs? {
          assert c.phase.Purges() && c.request.docID != d;
        }
      }
    }
  }

  lemma {:induction false} RunKeepsInvariant(systems: seq<System>, i: nat)
    requires Run(systems) && i < |systems|
    ensures Invariant(systems[0].stores.rows, systems[i])
  {
    if i > 0 {
      RunKeepsInvariant(systems, i - 1);
      var id :| StepOf(systems[i - 1], systems[i], id);
      StepKeepsRowsOwned(systems[0].stores.rows, systems[i - 1], systems[i], id);
      StepKeepsBlobs(systems[i - 1], systems[i], id);
    }
  }

  // ------------------------------------------------------------- the results

  lemma {:induction false} CommittedStays(systems: seq<System>, i: nat, j: nat, id: CallId)
    requires Run(systems) && i <= j < |systems|
    requires id in systems[i].calls && systems[i].calls[id].phase == Committed
    ensures id in systems[j].calls && systems[j].calls[id] == systems[i].calls[id]
  {
    if i < j {
      CommittedStays(systems, i, j - 1, id);
      var step :| StepOf(systems[j - 1], systems[j], step);
    }
  }

  /** In every interleaving at most one creator of a document ever commits. */
  lemma AtMostOneCommits(systems: seq<System>, i: nat, j: nat, p: CallId, q: CallId)
    requires Run(systems) && i <= j < |systems|
    requires p in systems[i].calls && systems[i].calls[p].phase == Committed
    requires q in systems[j].calls && systems[j].calls[q].phase == Committed
    requires systems[i].calls[p].request.docID == systems[j].calls[q].request.docID
    ensures p == q
  {
    CommittedStays(systems, i, j, p);
    RunKeepsInvariant(systems, j);
    assert Apart(systems[j], p, q);
  }

  /** The step that ends at j inserted row k for the call. */
  ghost predicate Inserted(systems: seq<System>, j: nat, id: CallId, k: RowId)
    requires 0 < j < |systems|
  {
    && StepOf(systems[j - 1], systems[j], id)
    && systems[j - 1].calls[id].request.RowId() == k
    && k !in systems[j - 1].stores.rows
    && k in systems[j].stores.rows
  }

  lemma {:induction false} HolderInserted(systems: seq<System>, i: nat, id: CallId) returns (j: nat)
    requires Run(systems) && i < |systems|
    requires id in systems[i].calls && systems[i].calls[id].phase.Holds()
    ensures 0 < j <= i && Inserted(systems, j, id, systems[i].calls[id].request.RowId())
  {
    if i == 0 {
      assert false;
    } else {
      var step :| StepOf(systems[i - 1], systems[i], step);
      var c := systems[i - 1].calls[step];
      StepHasRowEffect(c, systems[i].calls[step].phase, systems[i - 1].stores, systems[i].stores);
      if systems[i - 1].calls[id].phase.Holds() {
        j := HolderInserted(systems, i - 1, id);
      } else {
        j := i;
      }
    }
  }

  /** A row that disappears is deleted by the very call that inserted it. */
  lemma DeletedByItsInserter(systems: seq<System>, i: nat, k: RowId) returns (id: CallId, j: nat)
    requires Run(systems) && 0 < i < |systems|
    requires k in systems[i - 1].stores.rows && k !in systems[i].stores.rows
    ensures StepOf(systems[i - 1], systems[i], id) && systems[i - 1].calls[id].phase.UndoingRow?
    ensures 0 < j < i && Inserted(systems, j, id, k)
  {
    id :| StepOf(systems[i - 1], systems[i], id);
    var c := systems[i - 1].calls[id];
    StepHasRowEffect(c, systems[i].calls[id].phase, systems[i - 1].stores, systems[i].stores);
    assert c.phase.Holds() && c.request.RowId() == k;
    j := HolderInserted(systems, i - 1, id);
  }

  /**
   The row of a committed creator is in the table, and its blobs are all there
   unless another creator of the document failed for a cause other than losing.
   */
  lemma WinnerIsWhole(systems: seq<System>, i: nat, id: CallId)
    requires Run(systems) && i < |systems|
    requires id in systems[i].calls && systems[i].calls[id].phase == Committed
    ensures HeldRow(systems[0].stores.rows, systems[i], id)
    ensures !SomePurges(systems[i], systems[i].calls[id].request.docID) ==>
      RowBacked(systems[i].calls[id].request.docID, systems[i].calls[id].request.Row(), systems[i].stores.blobs)
  {
    RunKeepsInvariant(systems, i);
    var a := systems[i];
    var r := a.calls[id].request;
    var infos := InfosOf(r.files);
    if !SomePurges(a, r.docID) {
      forall n | n in r.Row().files ensures KeyOf(r.docID, r.Row().files[n]) in a.stores.blobs {
        OverlayFrom(map[], infos, n);
        var f :| 0 <= f < |infos| && infos[f].name == n && Overlay(map[], infos)[n] == infos[f];
        assert BlobKept(a, r.docID, r.files[f]);
      }
    }
  }

  // ------------------------------------------------- why the cause matters

  function At(rows: Table, blobs: Blobs, first: Call, second: Call): System {
    System(Stores(rows, blobs), map[0 := first, 1 := second])
  }

  /** Two creators of one document: the second fails to write a blob after the first has committed. */
  function BrokenRace(r: Request, rows: Table, blobs: Blobs): seq<System> {
    [ At(map[], map[], Call(r, Checking), Call(r, Checking)),
      At(map[], map[], Call(r, Putting(0)), Call(r, Checking)),
      At(map[], map[], Call(r, Putting(0)), Call(r, Putting(0))),
      At(map[], blobs, Call(r, Putting(1)), Call(r, Putting(0))),
      At(rows, blobs, Call(r, Calling), Call(r, Putting(0))),
      At(rows, blobs, Call(r, Committed), Call(r, Putting(0))),
      At(rows, blobs, Call(r, Committed), Call(r, UndoingBlobs(false))),
      At(rows, map[], Call(r, Committed), Call(r, Ended(Broken, false))) ]
  }

  lemma FirstMoves(x: System, y: System)
    requires 0 in x.calls && 0 in y.calls
    requires y.calls == x.calls[0 := Call(x.calls[0].request, y.calls[0].phase)]
    requires CallStep(x.calls[0], y.calls[0].phase, x.stores, y.stores)
    ensures Next(x, y)
  {
    assert StepOf(x, y, 0);
  }

  lemma SecondMoves(x: System, y: System)
    requires 1 in x.calls && 1 in y.calls
    requires y.calls == x.calls[1 := Call(x.calls[1].request, y.calls[1].phase)]
    requires CallStep(x.calls[1], y.calls[1].phase, x.stores, y.stores)
    ensures Next(x, y)
  {
    assert StepOf(x, y, 1);
  }

  lemma RowIsAllowed(r: Request)
    requires |r.files| == 1 && StorableName(r.files[0].name)
    ensures NamesAllowed(r.Row().files)
  {
    GenesisNames(r.files);
  }

  lemma BrokenRaceOpens(r: Request, rows: Table, blobs: Blobs)
    requires r.Valid() && |r.files| == 1
    ensures var s := BrokenRace(r, rows, blobs); Next(s[0], s[1]) && Next(s[1], s[2])
  {
    hide Next, Request.Row;
    var s := BrokenRace(r, rows, blobs);
    FirstMoves(s[0], s[1]);
    SecondMoves(s[1], s[2]);
  }

  lemma BrokenRaceStarts(r: Request, rows: Table, blobs: Blobs)
    requires r.Valid() && |r.files| == 1 && StorableName(r.files[0].name)
    requires rows == map[r.RowId() := r.Row()]
    requires blobs == Put(map[], r.docID, r.files[0])
    ensures var s := BrokenRace(r, rows, blobs); Next(s[2], s[3]) && Next(s[3], s[4])
  {
    RowIsAllowed(r);
    hide Next, Request.Row, GenesisRow, NamesAllowed;
    var s := BrokenRace(r, rows, blobs);
    FirstMoves(s[2], s[3]);
    FirstMoves(s[3], s[4]);
  }

  lemma BrokenRaceEnds(r: Request, rows: Table, blobs: Blobs)
    requires r.Valid() && |r.files| == 1
    requires forall k :: k in blobs ==> k.doc == r.docID
    ensures var s := BrokenRace(r, rows, blobs); Next(s[4], s[5]) && Next(s[5], s[6]) && Next(s[6], s[7])
  {
    hide Next, Request.Row;
    var s := BrokenRace(r, rows, blobs);
    FirstMoves(s[4], s[5]);
    SecondMoves(s[5], s[6]);
    SecondMoves(s[6], s[7]);
  }

  lemma BrokenRaceRuns(r: Request, rows: Table, blobs: Blobs)
    requires r.Valid() && |r.files| == 1 && StorableName(r.files[0].name)
    requires rows == map[r.RowId() := r.Row()]
    requires blobs == Put(map[], r.docID, r.files[0])
    ensures Run(BrokenRace(r, rows, blobs))
  {
    hide Next, Request.Row;
    BrokenRaceOpens(r, rows, blobs);
    BrokenRaceStarts(r, rows, blobs);
    BrokenRaceEnds(r, rows, blobs);
    var s := BrokenRace(r, rows, blobs);
    forall i | 0 < i < |s| ensures Next(s[i - 1], s[i]) {
      assert i == 1 || i == 2 || i == 3 || i == 4 || i == 5 || i == 6 || i == 7;
    }
  }

  ghost predicate LastIsDangling(systems: seq<System>) {
    && systems != []
    && var last := systems[|systems| - 1];
       exists id :: id in last.calls && last.calls[id].phase == Committed
                 && !RowBacked(last.calls[id].request.docID, last.calls[id].request.Row(), last.stores.blobs)
  }

  /** After a failure of another cause a committed document can be left without its file. */
  lemma BrokenCreatorRemovesWinnersBlobs(r: Request)
    requires r.Valid() && |r.files| == 1 && StorableName(r.files[0].name)
    ensures exists systems: seq<System> :: Run(systems) && systems[0].stores == EMPTY && LastIsDangling(systems)
  {
    var rows := map[r.RowId() := r.Row()];
    var blobs := Put(map[], r.docID, r.files[0]);
    var s := BrokenRace(r, rows, blobs);
    BrokenRaceRuns(r, rows, blobs);
    var infos := InfosOf(r.files);
    assert infos[1..] == [];
    OverlayHit(map[], infos, 0);
    assert r.files[0].name in r.Row().files;
    assert s[|s| - 1].calls[0] == Call(r, Committed);
    assert LastIsDangling(s);
  }
}
