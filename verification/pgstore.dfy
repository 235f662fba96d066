/** The metadata store: one atomic call per method, over a table of version rows. */
module PgStore {
  import opened Documents
  import opened Ordering
  import opened HashedDocuments
  import opened VersionInfos
  import opened SplitStore

  /** In versions-exist mode the rows are only read and verified. */
  datatype Mode = Normal | VersionsExist

  datatype CreateDocumentVersionInput = CreateDocumentVersionInput(
    docID: Id,
    companyID: Id,
    userID: Id,
    reason: string,
    newVersion: VersionTime,
    previousVersion: Option<VersionTime>,
    addedFiles: seq<FileInfo>,
    modifiedFiles: seq<FileInfo>,
    removedFiles: seq<Name>,
    files: Option<FileMap>)
  {
    function RowId(): RowId {
      SplitStore.RowId(docID, newVersion)
    }
  }

  /** The predecessor to carry files forward from is stored. */
  predicate HasPredecessor(rows: Table, input: CreateDocumentVersionInput) {
    input.previousVersion.Some? ==> RowId(input.docID, input.previousVersion.value) in rows
  }

  /** The file set of the new version: the explicit one, or the predecessor's as changed. */
  function ResolvedFiles(rows: Table, input: CreateDocumentVersionInput): FileMap
    requires input.files.None? ==> HasPredecessor(rows, input)
  {
    match input.files
    case Some(files) => files
    case None =>
      var prev := match input.previousVersion
        case None => map[]
        case Some(p) => rows[RowId(input.docID, p)].files;
      CarryForward(prev, input.addedFiles, input.modifiedFiles, input.removedFiles)
  }

  function NewInfo(rows: Table, input: CreateDocumentVersionInput): VersionInfo
    requires input.files.None? ==> HasPredecessor(rows, input)
  {
    VersionInfo(
      input.companyID, input.docID, input.newVersion, input.previousVersion, input.userID, input.reason,
      NamesOf(input.addedFiles), input.removedFiles, NamesOf(input.modifiedFiles), ResolvedFiles(rows, input))
  }

  /** The unique constraints of the table admit the row. */
  predicate Insertable(rows: Table, input: CreateDocumentVersionInput) {
    if input.previousVersion.None? then GenesisFree(rows, input.docID, input.newVersion)
    else input.RowId() !in rows
  }

  /** Carrying files forward by deleting and overlaying one by one. */
  method Resolve(prev: FileMap, added: seq<FileInfo>, modified: seq<FileInfo>, removed: seq<Name>) returns (files: FileMap)
    ensures files == CarryForward(prev, added, modified, removed)
  {
    files := prev;
    for i := 0 to |removed|
      invariant files == Without(prev, removed[..i])
    {
      assert removed[..i + 1] == removed[..i] + [removed[i]];
      files := files - {removed[i]};
    }
    assert removed[..|removed|] == removed;
    ghost var kept := files;
    for i := 0 to |added|
      invariant files == Overlay(kept, added[..i])
    {
      assert added[..i + 1][..i] == added[..i];
      files := files[added[i].name := added[i]];
    }
    assert added[..|added|] == added;
    ghost var grown := files;
    for i := 0 to |modified|
      invariant files == Overlay(grown, modified[..i])
    {
      assert modified[..i + 1][..i] == modified[..i];
      files := files[modified[i].name := modified[i]];
    }
    assert modified[..|modified|] == modified;
  }

  method ListHashes(hashes: set<Hash>) returns (list: seq<Hash>)
    ensures forall h :: h in list <==> h in hashes
    ensures NoDuplicates(list)
  {
    list := [];
    var left := hashes;
    while left != {}
      invariant left <= hashes
      invariant forall h :: h in list <==> h in hashes && h !in left
      invariant NoDuplicates(list)
    {
      var h :| h in left;
      list := list + [h];
      left := left - {h};
    }
  }

  class MetadataStore {
    var rows: Table

    /** No statement ever fails but for a constraint. */
    const reliable: bool

    ghost predicate Valid()
      reads this
    {
      RowsKeyed(rows)
    }

    constructor (reliable: bool)
      ensures Valid() && rows == map[] && this.reliable == reliable
    {
      rows := map[];
      this.reliable := reliable;
    }

    /** One statement sent to the database. */
    method Query() returns (ok: bool)
      ensures reliable ==> ok
    {
      ok := *;
      ok := ok || reliable;
    }

    method CreateDocumentVersion(input: CreateDocumentVersionInput, mode: Mode) returns (r: Result<VersionInfo, Error>)
      requires Valid()
      modifies this
      ensures Valid()
      ensures r.Success? ==>
        && (input.files.None? ==> HasPredecessor(old(rows), input))
        && r.value == NewInfo(old(rows), input)
      ensures r.Success? && mode.Normal? ==>
        && Insertable(old(rows), input)
        && NamesAllowed(r.value.files)
        && rows == old(rows)[input.RowId() := r.value]
      ensures r.Success? && mode.VersionsExist? ==> input.RowId() in rows && SameVersion(rows[input.RowId()], r.value)
      ensures r.Failure? || mode.VersionsExist? ==> rows == old(rows)
      ensures r == Failure(AlreadyExists) ==> mode.Normal? && input.previousVersion.None? && !Insertable(rows, input)
      ensures r == Failure(VersionExists) ==> mode.Normal? && input.previousVersion.Some? && !Insertable(rows, input)
      ensures r == Failure(NotAsStored) ==>
        && mode.VersionsExist?
        && input.RowId() in rows
        && (input.files.None? ==> HasPredecessor(rows, input))
        && !SameVersion(rows[input.RowId()], NewInfo(rows, input))
      ensures r == Failure(NotFound) ==>
        || (input.files.None? && !HasPredecessor(rows, input))
        || (mode.VersionsExist? && input.RowId() !in rows)
      ensures r == Failure(InvalidInput) ==>
        && mode.Normal?
        && Insertable(rows, input)
        && (input.files.None? ==> HasPredecessor(rows, input))
        && !NamesAllowed(NewInfo(rows, input).files)
      ensures r.Failure? ==> r.error in {AlreadyExists, VersionExists, InvalidInput, NotAsStored, NotFound, Unavailable}
      ensures r == Failure(Unavailable) ==> !reliable
    {
      var available := Query();
      if !available {
        return Failure(Unavailable);
      }
      var files: FileMap;
      if input.files.Some? {
        files := input.files.value;
      } else {
        var prev: FileMap := map[];
        if input.previousVersion.Some? {
          var p := RowId(input.docID, input.previousVersion.value);
          if p !in rows {
            return Failure(NotFound);
          }
          prev := rows[p].files;
        }
        files := Resolve(prev, input.addedFiles, input.modifiedFiles, input.removedFiles);
      }
      var info := VersionInfo(
        input.companyID, input.docID, input.newVersion, input.previousVersion, input.userID, input.reason,
        NamesOf(input.addedFiles), input.removedFiles, NamesOf(input.modifiedFiles), files);
      if mode.VersionsExist? {
        if input.RowId() !in rows {
          return Failure(NotFound);
        }
        EqualMeansSameVersion(rows[input.RowId()], info);
        if !Equal(rows[input.RowId()], info) {
          return Failure(NotAsStored);
        }
        return Success(info);
      }
      if !Insertable(rows, input) {
        if input.previousVersion.None? {
          return Failure(AlreadyExists);
        }
        return Failure(VersionExists);
      }
      if !NamesAllowed(info.files) {
        return Failure(InvalidInput);
      }
      rows := rows[input.RowId() := info];
      return Success(info);
    }

    /** Reports the versions left and the hashes no other version refers to; in versions-exist mode it only reports. */
    method DeleteDocumentVersion(d: Id, v: VersionTime, mode: Mode) returns (r: Result<(seq<VersionTime>, seq<Hash>), Error>)
      requires Valid()
      modifies this
      ensures Valid()
      ensures r.Success? ==>
        && RowId(d, v) in old(rows)
        && r.value.0 == Ascending(Versions(old(rows), d) - {v})
        && NoDuplicates(r.value.1)
        && forall h :: h in r.value.1 <==> h in SoleHashes(old(rows), d, v)
      ensures r.Success? && mode.Normal? ==> rows == old(rows) - {RowId(d, v)}
      ensures r.Failure? || mode.VersionsExist? ==> rows == old(rows)
      ensures r == Failure(NotFound) ==> RowId(d, v) !in rows
      ensures r.Failure? ==> r.error == NotFound || (r.error == Unavailable && !reliable)
    {
      var available := Query();
      if !available {
        return Failure(Unavailable);
      }
      if RowId(d, v) !in rows {
        return Failure(NotFound);
      }
      var left := Ascending(Versions(rows, d) - {v});
      var hashes := ListHashes(SoleHashes(rows, d, v));
      if mode.Normal? {
        rows := rows - {RowId(d, v)};
      }
      return Success((left, hashes));
    }

    method DeleteDocument(d: Id, mode: Mode) returns (r: Result<(), Error>)
      requires Valid()
      modifies this
      ensures Valid()
      ensures r.Success? ==> HasRows(old(rows), d)
      ensures r.Success? && mode.Normal? ==> rows == RowsWithout(old(rows), d)
      ensures r.Failure? || mode.VersionsExist? ==> rows == old(rows)
      ensures r == Failure(NotFound) ==> !HasRows(rows, d)
      ensures r.Failure? ==> r.error == NotFound || (r.error == Unavailable && !reliable)
    {
      var available := Query();
      if !available {
        return Failure(Unavailable);
      }
      if !HasRows(rows, d) {
        return Failure(NotFound);
      }
      if mode.Normal? {
        rows := RowsWithout(rows, d);
      }
      return Success(());
    }

    method SetDocumentCompanyID(d: Id, companyID: Id) returns (r: Result<(), Error>)
      requires Valid()
      modifies this
      ensures Valid()
      ensures r.Success? ==> HasRows(old(rows), d) && rows == CompanySet(old(rows), d, companyID)
      ensures r.Failure? ==> rows == old(rows)
      ensures r == Failure(NotFound) ==> !HasRows(rows, d)
      ensures r.Failure? ==> r.error == NotFound || (r.error == Unavailable && !reliable)
    {
      var available := Query();
      if !available {
        return Failure(Unavailable);
      }
      if !HasRows(rows, d) {
        return Failure(NotFound);
      }
      rows := CompanySet(rows, d, companyID);
      return Success(());
    }

    method DocumentCompanyID(d: Id) returns (r: Result<Id, Error>)
      ensures r.Success? ==> HasRows(rows, d) && r.value == rows[RowId(d, Latest(rows, d))].companyID
      ensures r == Failure(NotFound) ==> !HasRows(rows, d)
      ensures r.Failure? ==> r.error == NotFound || (r.error == Unavailable && !reliable)
    {
      var info := LatestDocumentVersionInfo(d);
      if info.Failure? {
        return Failure(info.error);
      }
      return Success(info.value.companyID);
    }

    method DocumentVersions(d: Id) returns (r: Result<seq<VersionTime>, Error>)
      ensures r.Success? ==> HasRows(rows, d) && r.value == Ascending(Versions(rows, d))
      ensures r == Failure(NotFound) ==> !HasRows(rows, d)
      ensures r.Failure? ==> r.error == NotFound || (r.error == Unavailable && !reliable)
    {
      var available := Query();
      if !available {
        return Failure(Unavailable);
      }
      if !HasRows(rows, d) {
        return Failure(NotFound);
      }
      return Success(Ascending(Versions(rows, d)));
    }

    method DocumentVersionInfo(d: Id, v: VersionTime) returns (r: Result<VersionInfo, Error>)
      ensures r.Success? ==> RowId(d, v) in rows && r.value == rows[RowId(d, v)]
      ensures r == Failure(NotFound) ==> RowId(d, v) !in rows
      ensures r.Failure? ==> r.error == NotFound || (r.error == Unavailable && !reliable)
    {
      var available := Query();
      if !available {
        return Failure(Unavailable);
      }
      if RowId(d, v) !in rows {
        return Failure(NotFound);
      }
      return Success(rows[RowId(d, v)]);
    }

    method LatestDocumentVersionInfo(d: Id) returns (r: Result<VersionInfo, Error>)
      ensures r.Success? ==> HasRows(rows, d) && r.value == rows[RowId(d, Latest(rows, d))]
      ensures r == Failure(NotFound) ==> !HasRows(rows, d)
      ensures r.Failure? ==> r.error == NotFound || (r.error == Unavailable && !reliable)
    {
      var available := Query();
      if !available {
        return Failure(Unavailable);
      }
      if !HasRows(rows, d) {
        return Failure(NotFound);
      }
      return Success(rows[RowId(d, Latest(rows, d))]);
    }
  }
}
