/**
 The two stores behind a split-store connection as one value, what it means
 for them to agree, and what each operation may do to them.
 */
module SplitStore {
  import opened Documents
  import opened Ordering
  import opened HashedDocuments

  datatype RowId = RowId(doc: Id, version: VersionTime)

  /** The version rows of the metadata store. */
  type Table = map<RowId, VersionInfo>

  datatype BlobKey = BlobKey(doc: Id, name: Name, hash: Hash)

  /** The objects of the document store. */
  type Blobs = map<BlobKey, Bytes>

  datatype Stores = Stores(rows: Table, blobs: Blobs)

  const EMPTY := Stores(map[], map[])

  // ------------------------------------------------------------ vocabulary

  function KeyOf(d: Id, info: FileInfo): BlobKey {
    BlobKey(d, info.name, info.hash)
  }

  function Versions(rows: Table, d: Id): set<VersionTime> {
    set k | k in rows && k.doc == d :: k.version
  }

  predicate HasRows(rows: Table, d: Id) {
    exists k :: k in rows && k.doc == d
  }

  predicate HasBlobs(blobs: Blobs, d: Id) {
    exists k :: k in blobs && k.doc == d
  }

  predicate RowHas(info: VersionInfo, h: Hash) {
    exists n :: n in info.files && info.files[n].hash == h
  }

  /** Some version of d has a file with content hash h. */
  predicate Referenced(rows: Table, d: Id, h: Hash) {
    exists k :: k in rows && k.doc == d && RowHas(rows[k], h)
  }

  function RowsWithout(rows: Table, d: Id): Table {
    map k | k in rows && k.doc != d :: rows[k]
  }

  function BlobsWithout(blobs: Blobs, d: Id): Blobs {
    map k | k in blobs && k.doc != d :: blobs[k]
  }

  function Dropped(s: Stores, d: Id): Stores {
    Stores(RowsWithout(s.rows, d), BlobsWithout(s.blobs, d))
  }

  /** The file table refuses a file without a name. */
  predicate NamesAllowed(files: FileMap) {
    forall n :: n in files ==> files[n].name != ""
  }

  /** A name that both stores accept: the blob store refuses the key separator. */
  predicate StorableName(n: Name) {
    n != "" && SlashFree(n)
  }

  predicate AllSlashFree(files: seq<File>) {
    forall f :: f in files ==> SlashFree(f.name)
  }

  function Put(blobs: Blobs, d: Id, f: File): Blobs {
    blobs[KeyOf(d, InfoOf(f)) := f.data]
  }

  function PutAll(blobs: Blobs, d: Id, files: seq<File>): Blobs {
    if files == [] then blobs
    else Put(PutAll(blobs, d, files[..|files| - 1]), d, files[|files| - 1])
  }

  /** The hashes that only version v of d refers to. */
  function SoleHashes(rows: Table, d: Id, v: VersionTime): (hashes: set<Hash>)
    requires RowId(d, v) in rows
  {
    var info := rows[RowId(d, v)];
    var others := rows - {RowId(d, v)};
    set n | n in info.files && !Referenced(others, d, info.files[n].hash) :: info.files[n].hash
  }

  function Purged(blobs: Blobs, d: Id, hashes: set<Hash>): Blobs {
    map k | k in blobs && !(k.doc == d && k.hash in hashes) :: blobs[k]
  }

  // ------------------------------------------------------------- replaced writes

  /** Write i is not replaced by a later write of the same name. */
  predicate Survives(files: seq<File>, i: nat)
    requires i < |files|
  {
    forall j :: i < j < |files| ==> files[j].name != files[i].name
  }

  predicate SurvivingContent(files: seq<File>, h: Hash) {
    exists i: nat :: i < |files| && Survives(files, i) && ContentHash(files[i].data) == h
  }

  /** The content of every replaced write is also that of a surviving write or of an existing version. */
  predicate NothingLost(rows: Table, d: Id, files: seq<File>) {
    forall f :: f in files ==> SurvivingContent(files, ContentHash(f.data)) || Referenced(rows, d, ContentHash(f.data))
  }

  // ------------------------------------------------------- the two-sided invariant

  /** The key of a row is made of its own columns. */
  predicate RowsKeyed(rows: Table) {
    forall k :: k in rows ==> rows[k].docID == k.doc && rows[k].version == k.version
  }

  predicate RowWellFormed(k: RowId, info: VersionInfo) {
    && info.docID == k.doc
    && info.version == k.version
    && NamedMap(info.files)
    && NamesAllowed(info.files)
    && info.files != map[]
  }

  predicate RowsWellFormed(rows: Table) {
    forall k :: k in rows ==> RowWellFormed(k, rows[k])
  }

  predicate RowBacked(d: Id, info: VersionInfo, blobs: Blobs) {
    forall n :: n in info.files ==> KeyOf(d, info.files[n]) in blobs
  }

  /** No dangling reference: every file of every version has its blob. */
  predicate Backed(rows: Table, blobs: Blobs) {
    forall k :: k in rows ==> RowBacked(k.doc, rows[k], blobs)
  }

  /** Every blob has the content hash it is filed under. */
  ghost predicate Addressed(blobs: Blobs) {
    forall k :: k in blobs ==> ContentHash(blobs[k]) == k.hash
  }

  /** No garbage: every stored hash belongs to some version of its document. */
  ghost predicate Collected(rows: Table, blobs: Blobs) {
    forall k :: k in blobs ==> Referenced(rows, k.doc, k.hash)
  }

  ghost predicate Consistent(s: Stores) {
    RowsWellFormed(s.rows) && Backed(s.rows, s.blobs) && Addressed(s.blobs)
  }

  /** The same of one document. */
  ghost predicate ConsistentAt(s: Stores, d: Id) {
    && (forall k :: k in s.rows && k.doc == d ==> RowWellFormed(k, s.rows[k]) && RowBacked(d, s.rows[k], s.blobs))
    && (forall k :: k in s.blobs && k.doc == d ==> ContentHash(s.blobs[k]) == k.hash)
  }

  ghost predicate Exact(s: Stores) {
    Consistent(s) && Collected(s.rows, s.blobs)
  }

  // -------------------------------------------------------------- operations

  datatype Error =
    | InvalidInput
    | NotFound
    | FileNotFound
    | AlreadyExists
    | VersionExists
    | NotAfterPrevious
    | EmptyVersion
    | CompanyMismatch
    | NotAsStored
    | CallbackFailed
    | Unavailable

  /**
   The result of an operation. A delete of rows or of blobs that fails along
   the way is joined to the error: metaLeft says that rows to be deleted are
   still there, blobsLeft says that of blobs.
   */
  datatype Outcome =
    | Done
    | Failed(error: Error, metaLeft: bool, blobsLeft: bool)

  /** refusal is the error with which the callback of a create turns the new version down. */
  datatype Operation =
    | Create(companyID: Id, docID: Id, userID: Id, reason: string, version: VersionTime, files: seq<File>, refusal: Option<Error>)
    | Add(docID: Id, userID: Id, reason: string, result: Option<CreateVersionResult>)
    | Delete(docID: Id)
    | DeleteVersion(docID: Id, version: VersionTime)
    | SetCompany(docID: Id, companyID: Id)
    | Restore(doc: HashedDocument, recreate: bool)

  /** blobs' is blobs plus content of d filed under its own hash. */
  ghost predicate Grown(blobs: Blobs, blobs': Blobs, d: Id) {
    && (forall k :: k in blobs ==> k in blobs')
    && (forall k :: k in blobs' ==> (k in blobs && blobs'[k] == blobs[k]) || (k.doc == d && ContentHash(blobs'[k]) == k.hash))
  }

  /** blobs' is blobs less some content of d. */
  ghost predicate Shrunk(blobs: Blobs, blobs': Blobs, d: Id) {
    && (forall k :: k in blobs' ==> k in blobs && blobs'[k] == blobs[k])
    && (forall k :: k in blobs && k.doc != d ==> k in blobs')
  }

  /**
   A failed write was taken back: the rows are as before, no blob a row of d
   refers to is gone, and (when clean) no other hash came to stay.
   */
  ghost predicate Undone(s: Stores, s': Stores, d: Id, clean: bool) {
    && s'.rows == s.rows
    && (forall k :: k in s.blobs && (k.doc != d || Referenced(s.rows, d, k.hash)) ==> k in s'.blobs)
    && (forall k :: k in s'.blobs ==> (k in s.blobs && s'.blobs[k] == s.blobs[k]) || (k.doc == d && ContentHash(s'.blobs[k]) == k.hash))
    && (clean ==> forall k :: k in s'.blobs && k !in s.blobs ==> Referenced(s.rows, d, k.hash))
  }

  function GenesisRow(companyID: Id, d: Id, userID: Id, reason: string, v: VersionTime, files: seq<File>): VersionInfo {
    VersionInfo(companyID, d, v, None, userID, reason, NamesOf(InfosOf(files)), [], [], Overlay(map[], InfosOf(files)))
  }

  /** A document has one row without a predecessor, and one row per version time. */
  predicate GenesisFree(rows: Table, d: Id, v: VersionTime) {
    RowId(d, v) !in rows && forall k :: k in rows && k.doc == d ==> rows[k].prevVersion.Some?
  }

  /** What a first version must meet to be written and shown to the callback. */
  ghost predicate Creatable(s: Stores, op: Operation)
    requires op.Create?
  {
    && ValidVersion(op.version)
    && op.files != []
    && (forall f :: f in op.files ==> StorableName(f.name))
    && !HasBlobs(s.blobs, op.docID)
    && GenesisFree(s.rows, op.docID, op.version)
  }

  /** Whatever is stored now was stored before or is one of the files. */
  ghost predicate OnlyWrites(blobs: Blobs, blobs': Blobs, d: Id, files: seq<File>) {
    forall k :: k in blobs' ==>
      || (k in blobs && blobs'[k] == blobs[k])
      || exists f :: f in files && k == KeyOf(d, InfoOf(f)) && blobs'[k] == f.data
  }

  /** The operation succeeds where nothing is expected to stop it; a failure is the expected one, or one of an unreliable store. */
  predicate Answers(out: Outcome, expected: Option<Error>, reliable: bool) {
    match out
    case Done => expected.None?
    case Failed(error, _, _) => expected == Some(error) || (error == Unavailable && !reliable)
  }

  /** Why a create of a document without blobs fails: the blob store first, then the unique constraints, the names, and the callback. */
  ghost function GenesisError(s: Stores, op: Operation): Option<Error>
    requires op.Create?
  {
    if !AllSlashFree(op.files) then Some(InvalidInput)
    else if !GenesisFree(s.rows, op.docID, op.version) then Some(AlreadyExists)
    else if exists f :: f in op.files && f.name == "" then Some(InvalidInput)
    else op.refusal
  }

  ghost function CreateError(s: Stores, op: Operation): Option<Error>
    requires op.Create?
  {
    if !ValidVersion(op.version) || op.files == [] then Some(InvalidInput)
    else if HasBlobs(s.blobs, op.docID) then Some(AlreadyExists)
    else GenesisError(s, op)
  }

  ghost predicate CreateStep(s: Stores, s': Stores, op: Operation, out: Outcome)
    requires op.Create?
  {
    var d := op.docID;
    match out
    case Done =>
      && Creatable(s, op)
      && op.refusal.None?
      && s'.rows == s.rows[RowId(d, op.version) := GenesisRow(op.companyID, d, op.userID, op.reason, op.version, op.files)]
      && s'.blobs == PutAll(s.blobs, d, op.files)
    case Failed(error, metaLeft, blobsLeft) =>
      && (HasBlobs(s.blobs, d) || !ValidVersion(op.version) || op.files == [] ==> s' == s)
      && OnlyWrites(s.blobs, s'.blobs, d, op.files)
      && (!metaLeft ==> s'.rows == s.rows)
      && (metaLeft ==>
            && RowId(d, op.version) !in s.rows
            && s'.rows == s.rows[RowId(d, op.version) := GenesisRow(op.companyID, d, op.userID, op.reason, op.version, op.files)])
      && Grown(s.blobs, s'.blobs, d)
      && (error != AlreadyExists && !blobsLeft ==> s'.blobs == s.blobs)
      && (error == AlreadyExists && !HasBlobs(s.blobs, d) ==>
            && s'.blobs == PutAll(s.blobs, d, op.files)
            && (!GenesisFree(s.rows, d, op.version) || (Creatable(s, op) && op.refusal == Some(AlreadyExists))))
  }

  function Latest(rows: Table, d: Id): (v: VersionTime)
    requires HasRows(rows, d)
    ensures RowId(d, v) in rows
    ensures forall k :: k in rows && k.doc == d ==> k.version <= v
  {
    assert Versions(rows, d) != {} by {
      var k :| k in rows && k.doc == d;
      assert k.version in Versions(rows, d);
    }
    assert forall k :: k in rows && k.doc == d ==> k.version in Versions(rows, d);
    var v := Greatest(Versions(rows, d));
    assert exists k :: k in rows && k.doc == d && k.version == v;
    v
  }

  /** The hash-filtered listing of the previous version has the name. */
  predicate ProviderHas(blobs: Blobs, d: Id, info: VersionInfo, name: Name) {
    exists k :: k in blobs && k.doc == d && k.name == name && RowHas(info, k.hash)
  }

  /** The writes whose name the previous version's listing has, or has not. */
  function Labelled(blobs: Blobs, d: Id, prev: VersionInfo, infos: seq<FileInfo>, listed: bool): (r: seq<FileInfo>)
  {
    if infos == [] then []
    else
      var last := infos[|infos| - 1];
      Labelled(blobs, d, prev, infos[..|infos| - 1], listed) +
      (if ProviderHas(blobs, d, prev, last.name) == listed then [last] else [])
  }

  function AppendedRow(blobs: Blobs, prev: VersionInfo, d: Id, userID: Id, reason: string, r: CreateVersionResult): VersionInfo {
    var infos := InfosOf(r.writeFiles);
    VersionInfo(
      r.newCompanyID.GetOr(prev.companyID), d, r.version, Some(prev.version), userID, reason,
      NamesOf(Labelled(blobs, d, prev, infos, false)),
      r.removeFiles,
      NamesOf(Labelled(blobs, d, prev, infos, true)),
      AppendedFiles(prev.files, r))
  }

  /** What an append that gets as far as its metadata row puts into the table. */
  ghost predicate Appends(s: Stores, op: Operation, info: VersionInfo)
    requires op.Add?
  {
    && HasRows(s.rows, op.docID)
    && op.result.Some?
    && op.result.value.Valid()
    && op.result.value.version > Latest(s.rows, op.docID)
    && info == AppendedRow(s.blobs, s.rows[RowId(op.docID, Latest(s.rows, op.docID))], op.docID, op.userID, op.reason, op.result.value)
    && info.files != map[]
    && NamesAllowed(info.files)
  }

  /** What an append must meet to succeed. */
  ghost predicate Addable(s: Stores, op: Operation)
    requires op.Add?
  {
    && ValidId(op.docID) && ValidId(op.userID)
    && HasRows(s.rows, op.docID)
    && op.result.Some?
    && op.result.value.Valid()
    && op.result.value.version > Latest(s.rows, op.docID)
    && AppendedFiles(s.rows[RowId(op.docID, Latest(s.rows, op.docID))].files, op.result.value) != map[]
    && NamesAllowed(AppendedFiles(s.rows[RowId(op.docID, Latest(s.rows, op.docID))].files, op.result.value))
    && AllSlashFree(op.result.value.writeFiles)
  }

  /** What an append must meet before anything is written. */
  ghost predicate Planned(s: Stores, op: Operation)
    requires op.Add?
  {
    && ValidId(op.docID) && ValidId(op.userID)
    && HasRows(s.rows, op.docID)
    && op.result.Some?
    && op.result.value.Valid()
    && op.result.value.version > Latest(s.rows, op.docID)
    && AppendedFiles(s.rows[RowId(op.docID, Latest(s.rows, op.docID))].files, op.result.value) != map[]
  }

  /** Why an append fails, in the order in which it is found out. */
  ghost function AddError(s: Stores, op: Operation, accept: bool): Option<Error>
    requires op.Add?
  {
    if !ValidId(op.docID) || !ValidId(op.userID) then Some(InvalidInput)
    else if !HasRows(s.rows, op.docID) then Some(NotFound)
    else if op.result.None? then Some(CallbackFailed)
    else
      var r, prev := op.result.value, s.rows[RowId(op.docID, Latest(s.rows, op.docID))];
      if !r.Valid() then Some(InvalidInput)
      else if r.version <= Latest(s.rows, op.docID) then Some(NotAfterPrevious)
      else if AppendedFiles(prev.files, r) == map[] then Some(EmptyVersion)
      else if !NamesAllowed(AppendedFiles(prev.files, r)) || !AllSlashFree(r.writeFiles) then Some(InvalidInput)
      else if !accept then Some(CallbackFailed)
      else None
  }

  function WritesOf(op: Operation): seq<File>
    requires op.Add?
  {
    if op.result.Some? then op.result.value.writeFiles else []
  }

  ghost predicate AddStep(s: Stores, s': Stores, op: Operation, out: Outcome)
    requires op.Add?
  {
    var d := op.docID;
    match out
    case Done =>
      && Addable(s, op)
      && (var k := RowId(d, op.result.value.version);
          && k in s'.rows
          && Appends(s, op, s'.rows[k])
          && s'.rows == s.rows[k := s'.rows[k]])
      && s'.blobs == PutAll(s.blobs, d, op.result.value.writeFiles)
    case Failed(error, metaLeft, blobsLeft) =>
      && (!Planned(s, op) ==> s' == s)
      && OnlyWrites(s.blobs, s'.blobs, d, WritesOf(op))
      && (!metaLeft ==> Undone(s, s', d, !blobsLeft && (op.result.Some? ==> NothingLost(s.rows, d, op.result.value.writeFiles))))
      && (metaLeft ==>
            && op.result.Some?
            && (var k := RowId(d, op.result.value.version);
                && k in s'.rows
                && Appends(s, op, s'.rows[k])
                && s'.rows == s.rows[k := s'.rows[k]])
            && Grown(s.blobs, s'.blobs, d))
  }

  /** Rows first, then blobs; a failure to delete blobs leaves the rows deleted. */
  ghost predicate DeleteStep(s: Stores, s': Stores, d: Id, out: Outcome) {
    match out
    case Done => HasRows(s.rows, d) && s' == Dropped(s, d)
    case Failed(error, metaLeft, blobsLeft) =>
      if metaLeft then s' == s
      else
        && HasRows(s.rows, d)
        && s'.rows == RowsWithout(s.rows, d)
        && Shrunk(s.blobs, s'.blobs, d)
        && (!blobsLeft ==> error == NotFound && s'.blobs == BlobsWithout(s.blobs, d))
  }

  function VersionDeleted(s: Stores, d: Id, v: VersionTime): Stores
    requires RowId(d, v) in s.rows
  {
    Stores(s.rows - {RowId(d, v)}, Purged(s.blobs, d, SoleHashes(s.rows, d, v)))
  }

  ghost predicate DeleteVersionStep(s: Stores, s': Stores, d: Id, v: VersionTime, out: Outcome) {
    match out
    case Done => RowId(d, v) in s.rows && s' == VersionDeleted(s, d, v)
    case Failed(error, metaLeft, blobsLeft) =>
      if metaLeft then s' == s
      else
        && RowId(d, v) in s.rows
        && s'.rows == s.rows - {RowId(d, v)}
        && (forall k :: k in s'.blobs ==> k in s.blobs && s'.blobs[k] == s.blobs[k])
        && (forall k :: k in s.blobs && !(k.doc == d && k.hash in SoleHashes(s.rows, d, v)) ==> k in s'.blobs)
        && (!blobsLeft ==> error == NotFound && !HasBlobs(s.blobs, d))
  }

  function CompanySet(rows: Table, d: Id, companyID: Id): Table {
    map k | k in rows :: if k.doc == d then rows[k].(companyID := companyID) else rows[k]
  }

  ghost predicate SetCompanyStep(s: Stores, s': Stores, d: Id, companyID: Id, out: Outcome) {
    match out
    case Done => HasRows(s.rows, d) && s' == s.(rows := CompanySet(s.rows, d, companyID))
    case Failed(_, _, _) => s' == s
  }

  // ----------------------------------------------------------------- restore

  /** The state a restore builds on: a recreated document is deleted first. */
  function RestoreBase(s: Stores, doc: HashedDocument, recreate: bool): Stores {
    if recreate && HasBlobs(s.blobs, doc.id) then Dropped(s, doc.id) else s
  }

  /** Version v of the backup can be inserted: its names are accepted, and no unique constraint is in the way. */
  ghost predicate VersionFits(rows: Table, doc: HashedDocument, v: VersionTime)
    requires v in doc.versions
  {
    && (forall n :: n in doc.versions[v].fileHashes ==> StorableName(n))
    && RowId(doc.id, v) !in rows
    && (doc.Predecessor(v).None? ==> GenesisFree(rows, doc.id, v))
  }

  /** So can all the given versions that are not there yet. */
  ghost predicate Fits(rows: Table, doc: HashedDocument, versions: set<VersionTime>)
    requires versions <= doc.versions.Keys
  {
    forall v :: v in versions && RowId(doc.id, v) !in rows ==> VersionFits(rows, doc, v)
  }

  /** What a restore must meet to succeed. */
  ghost predicate RestoreReady(s: Stores, doc: HashedDocument, recreate: bool) {
    var base := RestoreBase(s, doc, recreate);
    && doc.WellFormed()
    && (recreate && HasBlobs(s.blobs, doc.id) ==> HasRows(s.rows, doc.id))
    && Fits(base.rows, doc, doc.versions.Keys)
    && (HasBlobs(base.blobs, doc.id) ==> BelongsTo(base.rows, doc.id, doc.companyID))
  }

  /** rows' is rows extended by exactly those of the given versions of the backup that were absent. */
  ghost predicate Merged(rows: Table, rows': Table, doc: HashedDocument, versions: set<VersionTime>)
    requires doc.WellFormed() && versions <= doc.versions.Keys
  {
    && (forall k :: k in rows' <==> k in rows || (k.doc == doc.id && k.version in versions))
    && (forall k :: k in rows ==> rows'[k] == rows[k])
    && (forall v :: v in versions && RowId(doc.id, v) !in rows ==> Describes(doc, v, rows'[RowId(doc.id, v)]))
  }

  /** k is the key of a file of one of the given versions of the backup. */
  predicate InBackup(doc: HashedDocument, versions: set<VersionTime>, k: BlobKey) {
    && k.doc == doc.id
    && exists v :: v in versions && VersionFile(doc, v, k)
  }

  predicate VersionFile(doc: HashedDocument, v: VersionTime, k: BlobKey) {
    v in doc.versions && k.name in doc.versions[v].fileHashes && doc.versions[v].fileHashes[k.name] == k.hash
  }

  function Absent(rows: Table, d: Id, versions: set<VersionTime>): set<VersionTime> {
    set v | v in versions && RowId(d, v) !in rows
  }

  /** blobs' is blobs with the content of the given versions of the backup written over it. */
  ghost predicate BlobsMerged(blobs: Blobs, blobs': Blobs, doc: HashedDocument, versions: set<VersionTime>) {
    && (forall k :: k in blobs' <==> k in blobs || InBackup(doc, versions, k))
    && (forall k :: InBackup(doc, versions, k) ==> k.hash in doc.hashedFiles && k in blobs' && blobs'[k] == doc.hashedFiles[k.hash])
    && (forall k :: k in blobs && !InBackup(doc, versions, k) ==> blobs'[k] == blobs[k])
  }

  /**
   p is base with rows of d at the given new versions. Blobs base refers to are
   in place, and (when clean) nothing new is stored that no row refers to.
   */
  ghost predicate BuiltOn(base: Stores, p: Stores, d: Id, versions: set<VersionTime>, clean: bool) {
    && (forall v :: v in versions ==> RowId(d, v) !in base.rows)
    && (forall k :: k in p.rows <==> k in base.rows || (k.doc == d && k.version in versions))
    && (forall k :: k in base.rows ==> p.rows[k] == base.rows[k])
    && (forall k :: k in base.blobs && (k.doc != d || Referenced(base.rows, d, k.hash)) ==> k in p.blobs)
    && (forall k :: k in p.blobs ==> (k in base.blobs && p.blobs[k] == base.blobs[k]) || (k.doc == d && ContentHash(p.blobs[k]) == k.hash))
    && (clean ==> forall k :: k in p.blobs && k !in base.blobs ==> Referenced(p.rows, d, k.hash))
  }

  /** The rows at the given versions are what the backup says of them. */
  ghost predicate RowsDescribed(rows: Table, doc: HashedDocument, versions: set<VersionTime>)
    requires doc.WellFormed() && versions <= doc.versions.Keys
  {
    forall v :: v in versions ==> RowId(doc.id, v) in rows && Describes(doc, v, rows[RowId(doc.id, v)])
  }

  /** A restore that failed, and whose rows at the given versions could not be deleted again. */
  ghost predicate Stuck(base: Stores, p: Stores, doc: HashedDocument, versions: set<VersionTime>, clean: bool) {
    && doc.WellFormed()
    && versions != {} && versions <= doc.versions.Keys
    && BuiltOn(base, p, doc.id, versions, clean)
    && RowsDescribed(p.rows, doc, versions)
  }

  predicate BelongsTo(rows: Table, d: Id, companyID: Id) {
    HasRows(rows, d) && rows[RowId(d, Latest(rows, d))].companyID == companyID
  }

  ghost predicate RowsLeft(base: Stores, p: Stores, doc: HashedDocument, clean: bool) {
    exists versions :: Stuck(base, p, doc, versions, clean)
  }

  /** The backup is refused before anything is touched. */
  ghost predicate Refused(s: Stores, doc: HashedDocument, recreate: bool) {
    !doc.WellFormed() || (!recreate && HasBlobs(s.blobs, doc.id) && !BelongsTo(s.rows, doc.id, doc.companyID))
  }

  function RefusalError(s: Stores, doc: HashedDocument): Error {
    if !doc.WellFormed() then InvalidInput
    else if HasRows(s.rows, doc.id) then CompanyMismatch
    else NotFound
  }

  ghost predicate RestoreStep(s: Stores, s': Stores, doc: HashedDocument, recreate: bool, out: Outcome) {
    var base := RestoreBase(s, doc, recreate);
    match out
    case Done =>
      && RestoreReady(s, doc, recreate)
      && Merged(base.rows, s'.rows, doc, doc.versions.Keys)
      && BlobsMerged(base.blobs, s'.blobs, doc, Absent(base.rows, doc.id, doc.versions.Keys))
    case Failed(_, metaLeft, blobsLeft) =>
      || s' == s
      || (!Refused(s, doc, recreate)
          && ((recreate && !metaLeft && DeleteStep(s, s', doc.id, out))
              || (!metaLeft && Undone(base, s', doc.id, !blobsLeft))
              || (metaLeft && RowsLeft(base, s', doc, !blobsLeft))))
  }

  // --------------------------------------------- copying the blobs of existing rows

  /** Version v of the backup is stored as the backup describes it, and the blob store accepts its names. */
  ghost predicate CopyFits(rows: Table, doc: HashedDocument, v: VersionTime) {
    && v in doc.versions && doc.Complete(v)
    && RowId(doc.id, v) in rows
    && Describes(doc, v, rows[RowId(doc.id, v)])
    && forall n :: n in doc.versions[v].fileHashes ==> SlashFree(n)
  }

  function CopyBase(s: Stores, doc: HashedDocument, recreate: bool): Blobs {
    if recreate && HasBlobs(s.blobs, doc.id) then BlobsWithout(s.blobs, doc.id) else s.blobs
  }

  /** What a restore in versions-exist mode must meet to succeed. */
  ghost predicate CopyReady(s: Stores, doc: HashedDocument, recreate: bool) {
    && doc.WellFormed()
    && (recreate && HasBlobs(s.blobs, doc.id) ==> HasRows(s.rows, doc.id))
    && if !recreate && HasBlobs(s.blobs, doc.id)
       then BelongsTo(s.rows, doc.id, doc.companyID) && forall v :: v in doc.versions ==> RowId(doc.id, v) in s.rows
       else forall v :: v in doc.versions ==> CopyFits(s.rows, doc, v)
  }

  /** blobs' is blobs and content of the backup. */
  ghost predicate CopiedAtMost(blobs: Blobs, blobs': Blobs, doc: HashedDocument) {
    && (forall k :: k in blobs ==> k in blobs' && blobs'[k] == blobs[k])
    && (forall k :: k in blobs' && k !in blobs ==>
          InBackup(doc, doc.versions.Keys, k) && k.hash in doc.hashedFiles && blobs'[k] == doc.hashedFiles[k.hash])
  }

  /** No row changes. Blobs are copied into an empty place or not at all; those of other documents are never touched. */
  ghost predicate CopyStep(s: Stores, s': Stores, doc: HashedDocument, recreate: bool, out: Outcome) {
    var base := CopyBase(s, doc, recreate);
    && s'.rows == s.rows
    && match out
       case Done =>
         && CopyReady(s, doc, recreate)
         && if !recreate && HasBlobs(s.blobs, doc.id) then s'.blobs == s.blobs
            else BlobsMerged(base, s'.blobs, doc, doc.versions.Keys)
       case Failed(_, metaLeft, blobsLeft) =>
         || s'.blobs == s.blobs
         || (!Refused(s, doc, recreate)
             && (recreate || !HasBlobs(s.blobs, doc.id))
             && ((recreate && blobsLeft && Shrunk(s.blobs, s'.blobs, doc.id)) || CopiedAtMost(base, s'.blobs, doc))
             && (!metaLeft && !blobsLeft ==> s'.blobs == base))
  }

  ghost predicate Step(s: Stores, s': Stores, op: Operation, out: Outcome) {
    match op
    case Create(_, _, _, _, _, _, _) => CreateStep(s, s', op, out)
    case Add(_, _, _, _) => AddStep(s, s', op, out)
    case Delete(d) => DeleteStep(s, s', d, out)
    case DeleteVersion(d, v) => DeleteVersionStep(s, s', d, v, out)
    case SetCompany(d, c) => SetCompanyStep(s, s', d, c, out)
    case Restore(doc, recreate) => RestoreStep(s, s', doc, recreate, out)
  }
}
