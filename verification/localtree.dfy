/**
 The directory back end as one value: a directory per document with a
 directory and an info file per version, and a directory of markers that says
 which company a document belongs to. What each operation does to it.
 */
module LocalTree {
  import opened Documents
  import opened Ordering
  import opened HashedDocuments

  /** The files of one version directory. */
  type Files = map<Name, Bytes>

  /** companyFile is the content of company.id, infoFiles are the JSON files beside the version directories. */
  datatype DocDir = DocDir(companyFile: Option<Id>, versionDirs: map<VersionTime, Files>, infoFiles: map<VersionTime, VersionInfo>)

  datatype Marker = Marker(company: Id, doc: Id)

  datatype Tree = Tree(documents: map<Id, DocDir>, markers: set<Marker>)

  const NO_TREE := Tree(map[], {})

  // ------------------------------------------------------------ reading a tree

  function FilesIn(files: Files): FileMap {
    map n | n in files :: FileInfo(n, |files[n]|, ContentHash(files[n]))
  }

  /** The versions that a reader sees: a version directory counts only with its info file. */
  function Listed(dd: DocDir): set<VersionTime> {
    dd.versionDirs.Keys * dd.infoFiles.Keys
  }

  ghost predicate Matches(d: Id, v: VersionTime, files: Files, info: VersionInfo) {
    info.docID == d && info.version == v && info.files == FilesIn(files)
  }

  ghost predicate DocCommitted(d: Id, dd: DocDir) {
    forall v :: v in Listed(dd) ==> Matches(d, v, dd.versionDirs[v], dd.infoFiles[v])
  }

  /** Every version that a reader sees has a directory whose files are exactly those of its info file. */
  ghost predicate Committed(t: Tree) {
    forall d :: d in t.documents ==> DocCommitted(d, t.documents[d])
  }

  /** Each document has one marker, under the company in its company.id. */
  ghost predicate DocIndexed(t: Tree, d: Id)
  {
    d in t.documents ==> t.documents[d].companyFile.Some?
  }

  ghost predicate Indexed(t: Tree) {
    && (forall d :: DocIndexed(t, d))
    && forall m :: m in t.markers <==> m.doc in t.documents && t.documents[m.doc].companyFile == Some(m.company)
  }

  /** Version directories and info files come in pairs. */
  predicate Paired(dd: DocDir) {
    dd.versionDirs.Keys == dd.infoFiles.Keys
  }

  ghost predicate Tidy(t: Tree) {
    forall d :: d in t.documents ==> Paired(t.documents[d]) && t.documents[d].versionDirs != map[]
  }

  // ---------------------------------------------------------- building versions

  function WriteAll(dir: Files, files: seq<File>): Files {
    if files == [] then dir
    else
      var last := files[|files| - 1];
      WriteAll(dir, files[..|files| - 1])[last.name := last.data]
  }

  predicate Writes(files: seq<File>, n: Name) {
    exists f :: f in files && f.name == n
  }

  /** The files copied from the previous version. */
  function Carried(prevDir: Files, prev: VersionInfo, r: CreateVersionResult): Files {
    map n | n in prevDir && n in prev.files && !Writes(r.writeFiles, n) && n !in r.removeFiles :: prevDir[n]
  }

  function NewFiles(prevDir: Files, prev: VersionInfo, r: CreateVersionResult): Files {
    WriteAll(Carried(prevDir, prev, r), r.writeFiles)
  }

  /** The info of a new version directory, with its sorted difference from the previous one. */
  ghost predicate Summarizes(info: VersionInfo, companyID: Id, d: Id, v: VersionTime, prev: Option<VersionTime>,
                             userID: Id, reason: string, dir: Files, prevDir: Files)
  {
    && info == VersionInfo(companyID, d, v, prev, userID, reason, info.addedFiles, info.removedFiles, info.modifiedFiles, FilesIn(dir))
    && IsDiff(HashesOf(FilesIn(prevDir)), HashesOf(FilesIn(dir)), info.addedFiles, info.modifiedFiles, info.removedFiles)
    && SortedNames(info.addedFiles) && SortedNames(info.modifiedFiles) && SortedNames(info.removedFiles)
  }

  lemma SummaryMatches(info: VersionInfo, companyID: Id, d: Id, v: VersionTime, prev: Option<VersionTime>,
                       userID: Id, reason: string, dir: Files, prevDir: Files)
    requires Summarizes(info, companyID, d, v, prev, userID, reason, dir, prevDir)
    ensures info.version == v && Matches(d, v, dir, info) && info.companyID == companyID
  {
  }

  function WithVersion(dd: DocDir, v: VersionTime, dir: Files, info: VersionInfo): DocDir {
    dd.(versionDirs := dd.versionDirs[v := dir], infoFiles := dd.infoFiles[v := info])
  }

  function WithoutVersion(dd: DocDir, v: VersionTime): DocDir {
    dd.(versionDirs := dd.versionDirs - {v}, infoFiles := dd.infoFiles - {v})
  }

  function LatestOf(dd: DocDir): (v: VersionTime)
    requires Listed(dd) != {}
    ensures v in Listed(dd) && forall w :: w in Listed(dd) ==> w <= v
  {
    Greatest(Listed(dd))
  }

  // ------------------------------------------------------------- the operations

  datatype LocalError =
    | InvalidInput
    | NotFound
    | AlreadyExists
    | CallbackFailed
    | CreateVersionFailed
    | NotAfterPrevious
    | DirectoryExists
    | EmptyVersion
    | NoChanges
    | CompanyMismatch
    | IOFailed

  /** uncleaned says that part of a failed operation was not undone. */
  datatype LocalOutcome = Done | Failed(error: LocalError, uncleaned: bool) {
    /** Nothing failed but validation or a callback. */
    predicate Quiet() {
      Failed? ==> error != IOFailed && !uncleaned
    }
  }

  datatype LocalOperation =
    | Create(companyID: Id, docID: Id, userID: Id, reason: string, version: VersionTime, files: seq<File>)
    | Add(docID: Id, userID: Id, reason: string, result: Option<CreateVersionResult>)
    | Delete(docID: Id)
    | DeleteVersion(docID: Id, version: VersionTime)
    | SetCompany(docID: Id, companyID: Id)
    | Restore(doc: HashedDocument, recreate: bool)

  function SetDoc(t: Tree, d: Id, dd: DocDir): Tree {
    t.(documents := t.documents[d := dd])
  }

  /** The company.id file and the marker of d are moved to company c. */
  function Moved(t: Tree, d: Id, c: Id): Tree
    requires d in t.documents && t.documents[d].companyFile.Some?
  {
    var cur := t.documents[d].companyFile.value;
    if cur == c then t.(markers := t.markers + {Marker(c, d)})
    else Tree(t.documents[d := t.documents[d].(companyFile := Some(c))], t.markers - {Marker(cur, d)} + {Marker(c, d)})
  }

  function Removed(t: Tree, d: Id): Tree
    requires d in t.documents && t.documents[d].companyFile.Some?
  {
    Tree(t.documents - {d}, t.markers - {Marker(t.documents[d].companyFile.value, d)})
  }

  function Erased(t: Tree, d: Id, v: VersionTime): Tree
    requires d in t.documents
  {
    SetDoc(t, d, WithoutVersion(t.documents[d], v))
  }

  function WithoutDir(t: Tree, d: Id, v: VersionTime): Tree
    requires d in t.documents
  {
    SetDoc(t, d, t.documents[d].(versionDirs := t.documents[d].versionDirs - {v}))
  }

  /** Directory and markers of every document but d are the same. */
  ghost predicate OthersUntouched(t: Tree, t': Tree, d: Id) {
    && t'.documents - {d} == t.documents - {d}
    && forall m: Marker :: m.doc != d ==> (m in t'.markers <==> m in t.markers)
  }

  /** A document directory that was begun and holds at most the given versions. */
  predicate HalfBuilt(dd: DocDir, companyID: Id, versions: set<VersionTime>) {
    && (dd.companyFile.None? || dd.companyFile == Some(companyID))
    && dd.versionDirs.Keys <= versions
    && dd.infoFiles.Keys <= versions
  }

  // ------------------------------------------------------------ removals that fail

  /** Which file operations of the removal of a document fail. */
  datatype RemovalFaults = RemovalFaults(company: bool, marker: bool, docDir: bool)

  const NO_FAULTS := RemovalFaults(false, false, false)

  /** The marker goes if company.id can be read, and the directory goes whether or not the marker did. */
  function RemovedUnder(t: Tree, d: Id, f: RemovalFaults): Tree
    requires d in t.documents
  {
    var company := t.documents[d].companyFile;
    Tree(if f.docDir then t.documents else t.documents - {d},
         if f.company || company.None? || f.marker then t.markers else t.markers - {Marker(company.value, d)})
  }

  /** Which file operations of the delete of a version fail; listing is that of the versions left. */
  datatype DeletionFaults = DeletionFaults(dir: bool, info: bool, listing: bool, removal: RemovalFaults)

  function KeptOrRemoved(t: Tree, d: Id, listing: bool, f: RemovalFaults): Tree
    requires d in t.documents
  {
    if !listing && Listed(t.documents[d]) != {} then t else RemovedUnder(t, d, f)
  }

  /** The directory of the version, its info file, and then the document when no version is left or listing them fails. */
  function VersionDeletedUnder(t: Tree, d: Id, v: VersionTime, f: DeletionFaults): Tree
    requires d in t.documents
  {
    if f.dir then t
    else KeptOrRemoved(if f.info then WithoutDir(t, d, v) else Erased(t, d, v), d, f.listing, f.removal)
  }

  /** Two trees that differ in companies alone. */
  ghost predicate SameVersions(t: Tree, t': Tree) {
    && t'.documents.Keys == t.documents.Keys
    && forall d :: d in t.documents ==> t'.documents[d] == t.documents[d].(companyFile := t'.documents[d].companyFile)
  }

  /** What a first version must meet for its creation to succeed. */
  ghost predicate Creatable(t: Tree, op: LocalOperation)
    requires op.Create?
  {
    && ValidId(op.companyID) && ValidId(op.docID) && ValidId(op.userID)
    && ValidVersion(op.version)
    && op.files != []
    && op.docID !in t.documents
  }

  /** The operation succeeds where nothing is expected to stop it; a failure is the expected one, or a file error. */
  predicate Answers(out: LocalOutcome, expected: Option<LocalError>, reliable: bool) {
    match out
    case Done => expected.None?
    case Failed(error, _) => expected == Some(error) || (error == IOFailed && !reliable)
  }

  predicate ValidCreate(op: LocalOperation)
    requires op.Create?
  {
    ValidId(op.companyID) && ValidId(op.docID) && ValidId(op.userID) && ValidVersion(op.version) && op.files != []
  }

  function CreateError(t: Tree, op: LocalOperation, accept: bool): Option<LocalError>
    requires op.Create?
  {
    if !ValidCreate(op) then Some(InvalidInput)
    else if op.docID in t.documents then Some(AlreadyExists)
    else if !accept then Some(CallbackFailed)
    else None
  }

  ghost predicate CreateStep(t: Tree, t': Tree, op: LocalOperation, out: LocalOutcome)
    requires op.Create?
  {
    var d := op.docID;
    match out
    case Done =>
      && ValidId(op.companyID) && ValidVersion(op.version) && op.files != []
      && d !in t.documents
      && d in t'.documents
      && op.version in t'.documents[d].infoFiles
      && (var dir, info := WriteAll(map[], op.files), t'.documents[d].infoFiles[op.version];
          && Summarizes(info, op.companyID, d, op.version, None, op.userID, op.reason, dir, map[])
          && t'.documents == t.documents[d := DocDir(Some(op.companyID), map[op.version := dir], map[op.version := info])])
      && t'.markers == t.markers + {Marker(op.companyID, d)}
    case Failed(error, uncleaned) =>
      && (d in t.documents || !ValidCreate(op) ==> t' == t)
      && OthersUntouched(t, t', d)
      && (d in t'.documents && d !in t.documents ==> HalfBuilt(t'.documents[d], op.companyID, {op.version}))
      && (!uncleaned ==> t'.documents == t.documents && (t'.markers == t.markers || t'.markers == t.markers - {Marker(op.companyID, d)}))
  }

  /** dd is extended by the version that r asks for. */
  ghost predicate Appended(dd: DocDir, dd': DocDir, d: Id, userID: Id, reason: string, r: CreateVersionResult) {
    && Listed(dd) != {}
    && var prev, prevDir := dd.infoFiles[LatestOf(dd)], dd.versionDirs[LatestOf(dd)];
       var dir := NewFiles(prevDir, prev, r);
       && r.Valid()
       && r.version > prev.version
       && r.version !in dd.versionDirs
       && r.version in dd'.infoFiles
       && dd' == WithVersion(dd, r.version, dir, dd'.infoFiles[r.version])
       && Summarizes(dd'.infoFiles[r.version], r.newCompanyID.GetOr(prev.companyID), d, r.version, Some(prev.version),
                     userID, reason, dir, prevDir)
       && FilesIn(dir) != map[]
       && FilesIn(dir) != prev.files
  }

  /** What an append must meet to succeed. */
  ghost predicate Addable(t: Tree, op: LocalOperation)
    requires op.Add?
  {
    && ValidId(op.docID) && ValidId(op.userID)
    && op.docID in t.documents && Listed(t.documents[op.docID]) != {}
    && op.result.Some? && op.result.value.Valid()
    && Placeable(t.documents[op.docID], op.result.value)
  }

  /** What an append must meet before anything is written. */
  ghost predicate Planned(t: Tree, op: LocalOperation)
    requires op.Add?
  {
    && ValidId(op.docID) && ValidId(op.userID)
    && op.docID in t.documents && Listed(t.documents[op.docID]) != {}
    && op.result.Some? && op.result.value.Valid()
    && op.result.value.version > t.documents[op.docID].infoFiles[LatestOf(t.documents[op.docID])].version
  }

  /** Why an append fails, in the order in which it is found out. */
  ghost function AddError(t: Tree, op: LocalOperation, accept: bool): Option<LocalError>
    requires op.Add?
  {
    if !ValidId(op.docID) || !ValidId(op.userID) then Some(InvalidInput)
    else if op.docID !in t.documents || Listed(t.documents[op.docID]) == {} then Some(NotFound)
    else if op.result.None? then Some(CreateVersionFailed)
    else if !op.result.value.Valid() then Some(InvalidInput)
    else if !Planned(t, op) then Some(NotAfterPrevious)
    else PlaceError(t.documents[op.docID], op.result.value, accept)
  }

  function PlaceError(dd: DocDir, r: CreateVersionResult, accept: bool): Option<LocalError>
    requires Listed(dd) != {}
  {
    var prev := dd.infoFiles[LatestOf(dd)];
    var files := FilesIn(NewFiles(dd.versionDirs[LatestOf(dd)], prev, r));
    if r.version in dd.versionDirs then Some(DirectoryExists)
    else if files == map[] then Some(EmptyVersion)
    else if files == prev.files then Some(NoChanges)
    else if !accept then Some(CallbackFailed)
    else None
  }

  /** The version is later, its place is free, and its files are some and others than before. */
  ghost predicate Placeable(dd: DocDir, r: CreateVersionResult)
    requires Listed(dd) != {}
  {
    var prev, prevDir := dd.infoFiles[LatestOf(dd)], dd.versionDirs[LatestOf(dd)];
    && r.version > prev.version
    && r.version !in dd.versionDirs
    && FilesIn(NewFiles(prevDir, prev, r)) != map[]
    && FilesIn(NewFiles(prevDir, prev, r)) != prev.files
  }

  /** The document is fit for reading and its companies can be read. */
  ghost predicate Sound(t: Tree, d: Id) {
    d in t.documents ==>
      && DocCommitted(d, t.documents[d])
      && t.documents[d].companyFile.Some?
      && (Listed(t.documents[d]) != {} ==> ValidId(t.documents[d].infoFiles[LatestOf(t.documents[d])].companyID))
  }

  /** A version of another company than the one before it takes the document along. */
  function Followed(t: Tree, d: Id, was: Id, now: Id): Tree
    requires d in t.documents && (was != now ==> t.documents[d].companyFile.Some?)
  {
    if was == now then t else Moved(t, d, now)
  }

  /** The failures that come after the place of the new version is known. */
  predicate AfterPlacing(e: LocalError) {
    e in {DirectoryExists, EmptyVersion, NoChanges, CallbackFailed}
  }

  /** What a failed callback leaves: the company moved there and back, and the version erased. */
  ghost predicate TakenBack(t: Tree, t': Tree, d: Id, was: Id, now: Id, v: VersionTime)
    requires d in t.documents
  {
    if was == now then t' == Erased(t, d, v)
    else t.documents[d].companyFile.Some? && t' == Erased(Moved(Moved(t, d, now), d, was), d, v)
  }

  /** dd' is d with the new version, and the company has followed it. */
  ghost predicate Accepted(t: Tree, t': Tree, op: LocalOperation, dd': DocDir)
    requires op.Add?
  {
    var d := op.docID;
    && d in t.documents && op.result.Some?
    && Appended(t.documents[d], dd', d, op.userID, op.reason, op.result.value)
    && var was, now := t.documents[d].infoFiles[LatestOf(t.documents[d])].companyID, dd'.infoFiles[op.result.value.version].companyID;
       && (was != now ==> dd'.companyFile.Some?)
       && t' == Followed(SetDoc(t, d, dd'), d, was, now)
  }

  ghost predicate AddStep(t: Tree, t': Tree, op: LocalOperation, out: LocalOutcome)
    requires op.Add?
  {
    var d := op.docID;
    match out
    case Done =>
      exists dd' :: Accepted(t, t', op, dd')
    case Failed(error, uncleaned) =>
      if !Planned(t, op) then t' == t && !AfterPlacing(error)
      else if !out.Quiet() then
        t' != t ==>
          && d in t'.documents
          && OthersUntouched(t, t', d)
          && SameVersions(Erased(t, d, op.result.value.version), if uncleaned then Erased(t', d, op.result.value.version) else t')
      else if !AfterPlacing(error) then t' == t
      else
        var dd, r := t.documents[d], op.result.value;
        var was := dd.infoFiles[LatestOf(dd)].companyID;
        && PlaceError(dd, r, false) == Some(error)
        && if error == CallbackFailed
           then TakenBack(t, t', d, was, r.newCompanyID.GetOr(was), r.version)
           else t' == Erased(t, d, r.version)
  }

  ghost predicate SetCompanyStep(t: Tree, t': Tree, op: LocalOperation, out: LocalOutcome)
    requires op.SetCompany?
  {
    var d := op.docID;
    match out
    case Done => ValidId(op.companyID) && d in t.documents && t.documents[d].companyFile.Some? && t' == Moved(t, d, op.companyID)
    case Failed(_, _) => if out.Quiet() then t' == t else SameVersions(t, t') && OthersUntouched(t, t', d)
  }

  ghost predicate DeleteStep(t: Tree, t': Tree, op: LocalOperation, out: LocalOutcome)
    requires op.Delete?
  {
    var d := op.docID;
    match out
    case Done => d in t.documents && t.documents[d].companyFile.Some? && t' == Removed(t, d)
    case Failed(_, _) => t' == t || (!out.Quiet() && d in t.documents && exists f :: t' == RemovedUnder(t, d, f))
  }

  /** Deleting the last version deletes the document. */
  ghost predicate DeleteVersionStep(t: Tree, t': Tree, op: LocalOperation, out: LocalOutcome)
    requires op.DeleteVersion?
  {
    var d, v := op.docID, op.version;
    match out
    case Done =>
      && d in t.documents && v in t.documents[d].versionDirs
      && if Listed(WithoutVersion(t.documents[d], v)) != {} then t' == Erased(t, d, v)
         else t.documents[d].companyFile.Some? && t' == Removed(t, d)
    case Failed(_, _) =>
      || t' == t
      || (!out.Quiet() && d in t.documents && v in t.documents[d].versionDirs && exists f :: t' == VersionDeletedUnder(t, d, v, f))
  }

  // ------------------------------------------------------------------- restore

  /** The tree a restore builds on: a recreated document is removed first, and a new one gets its company. */
  function RestoreBase(t: Tree, d: Id, recreate: bool): Tree
    requires recreate && d in t.documents ==> t.documents[d].companyFile.Some?
  {
    if recreate && d in t.documents then Removed(t, d) else t
  }

  function RestoreStart(base: Tree, d: Id, companyID: Id): Tree {
    if d in base.documents then base
    else Tree(base.documents[d := DocDir(Some(companyID), map[], map[])], base.markers + {Marker(companyID, d)})
  }

  /** What the first steps of a restore into a new directory leave when they fail: nothing, a bare directory, or one with a company but no marker. */
  ghost predicate Started(t: Tree, t': Tree, d: Id, companyID: Id) {
    || t' == t
    || t' == SetDoc(t, d, DocDir(None, map[], map[]))
    || t' == SetDoc(t, d, DocDir(Some(companyID), map[], map[]))
  }

  function Contents(doc: HashedDocument, v: VersionTime): Files
    requires v in doc.versions && doc.Complete(v)
  {
    var hashes := doc.versions[v].fileHashes;
    map n | n in hashes :: doc.hashedFiles[hashes[n]]
  }

  function Leftover(dd: DocDir, v: VersionTime): Files {
    if v in dd.versionDirs then dd.versionDirs[v] else map[]
  }

  function PrevDir(dd: DocDir, prev: Option<VersionTime>): Files {
    if prev.Some? && prev.value in dd.versionDirs then dd.versionDirs[prev.value] else map[]
  }

  /** Version v of the backup is in dd', written over what was at its place in dd. */
  ghost predicate VersionRestored(dd: DocDir, dd': DocDir, doc: HashedDocument, v: VersionTime)
    requires v in doc.versions && doc.Complete(v)
  {
    && v in dd'.versionDirs
    && v in dd'.infoFiles
    && dd'.versionDirs[v] == Leftover(dd, v) + Contents(doc, v)
    && Summarizes(dd'.infoFiles[v], doc.companyID, doc.id, v, doc.Predecessor(v),
                  doc.versions[v].commitUserID, doc.versions[v].commitReason, dd'.versionDirs[v], PrevDir(dd', doc.Predecessor(v)))
  }

  /** dd' is dd but for the added versions. */
  ghost predicate Extends(dd: DocDir, dd': DocDir, added: set<VersionTime>) {
    && dd'.companyFile == dd.companyFile
    && dd'.versionDirs.Keys == dd.versionDirs.Keys + added
    && dd'.infoFiles.Keys == dd.infoFiles.Keys + added
    && (forall v :: v in dd.versionDirs && v !in added ==> dd'.versionDirs[v] == dd.versionDirs[v])
    && (forall v :: v in dd.infoFiles && v !in added ==> dd'.infoFiles[v] == dd.infoFiles[v])
  }

  /** dd' is dd with those of the given versions of the backup that dd does not list. */
  ghost predicate VersionsRestored(dd: DocDir, dd': DocDir, doc: HashedDocument, versions: set<VersionTime>)
    requires doc.WellFormed() && versions <= doc.versions.Keys
  {
    && Extends(dd, dd', versions - Listed(dd))
    && (forall v :: v in versions - Listed(dd) ==> VersionRestored(dd, dd', doc, v))
  }

  /** What a restore must meet to succeed: a document that stays must belong to the backup's company. */
  ghost predicate Restorable(t: Tree, doc: HashedDocument, recreate: bool) {
    && doc.WellFormed()
    && (doc.id in t.documents ==>
          if recreate then t.documents[doc.id].companyFile.Some? else t.documents[doc.id].companyFile == Some(doc.companyID))
  }

  /** Why a restore is refused before it touches anything. */
  function RestoreError(t: Tree, doc: HashedDocument, recreate: bool): Option<LocalError> {
    if !doc.WellFormed() then Some(InvalidInput)
    else if doc.id !in t.documents then None
    else if t.documents[doc.id].companyFile.None? then Some(IOFailed)
    else if !recreate && t.documents[doc.id].companyFile.value != doc.companyID then Some(CompanyMismatch)
    else None
  }

  /** Nothing but listed versions is at the places of the backup's versions. */
  predicate NoLeftovers(t: Tree, doc: HashedDocument) {
    doc.id in t.documents ==>
      forall v :: v in doc.versions && v !in Listed(t.documents[doc.id]) ==>
        v !in t.documents[doc.id].versionDirs && v !in t.documents[doc.id].infoFiles
  }

  /** What a restore does not write is as it was: the company, the listed versions, and those that are not in the backup. */
  ghost predicate StoredKept(dd: DocDir, dd': DocDir, doc: HashedDocument) {
    && dd'.companyFile == dd.companyFile
    && forall v :: v in Listed(dd) || v !in doc.versions ==>
         && (v in dd'.versionDirs <==> v in dd.versionDirs) && (v in dd.versionDirs ==> dd'.versionDirs[v] == dd.versionDirs[v])
         && (v in dd'.infoFiles <==> v in dd.infoFiles) && (v in dd.infoFiles ==> dd'.infoFiles[v] == dd.infoFiles[v])
  }

  ghost predicate RestoreStep(t: Tree, t': Tree, op: LocalOperation, out: LocalOutcome)
    requires op.Restore?
  {
    var doc := op.doc;
    var d := doc.id;
    match out
    case Done =>
      && doc.WellFormed()
      && (op.recreate && d in t.documents ==> t.documents[d].companyFile.Some?)
      && (var base := RestoreBase(t, d, op.recreate);
          var start := RestoreStart(base, d, doc.companyID);
          && start.documents[d].companyFile == Some(doc.companyID)
          && d in t'.documents
          && t' == SetDoc(start, d, t'.documents[d])
          && VersionsRestored(start.documents[d], t'.documents[d], doc, doc.versions.Keys))
    case Failed(error, uncleaned) =>
      && (out.Quiet() ==> t' == t)
      && OthersUntouched(t, t', d)
      && (d in t.documents && t.documents[d].companyFile.None? ==> t' == t)
      && (RestoreError(t, doc, op.recreate).Some? ==> t' == t)
      && (d in t.documents && !op.recreate ==>
            t'.markers == t.markers && d in t'.documents && StoredKept(t.documents[d], t'.documents[d], doc))
      && (d !in t.documents || op.recreate ==>
            if uncleaned then d in t'.documents ==> HalfBuilt(t'.documents[d], doc.companyID, doc.versions.Keys)
            else t'.documents == t.documents || t'.documents == t.documents - {d})
      && (!uncleaned && !op.recreate && NoLeftovers(t, doc) ==> t'.documents == t.documents)
  }

  ghost predicate LocalStep(t: Tree, t': Tree, op: LocalOperation, out: LocalOutcome) {
    match op
    case Create(_, _, _, _, _, _) => CreateStep(t, t', op, out)
    case Add(_, _, _, _) => AddStep(t, t', op, out)
    case Delete(_) => DeleteStep(t, t', op, out)
    case DeleteVersion(_, _) => DeleteVersionStep(t, t', op, out)
    case SetCompany(_, _) => SetCompanyStep(t, t', op, out)
    case Restore(_, _) => RestoreStep(t, t', op, out)
  }
}
