/**
 The in-memory snapshot of a whole document: its validation, the metadata it
 implies for each version, and reading it from a connection.
 */
module HashedDocuments {
  import opened Documents
  import opened Ordering

  datatype HashedVersion = HashedVersion(commitUserID: Id, commitReason: string, fileHashes: map<Name, Hash>)

  datatype HashedDocument = HashedDocument(
    id: Id,
    companyID: Id,
    hashedFiles: map<Hash, Bytes>,
    versions: map<VersionTime, HashedVersion>)
  {
    function VersionTimes(): (times: seq<VersionTime>)
      ensures Lists(times, versions.Keys)
    {
      Ascending(versions.Keys)
    }

    /** The greatest earlier version time. */
    function Predecessor(v: VersionTime): (p: Option<VersionTime>)
      ensures p.None? <==> forall w :: w in versions ==> v <= w
      ensures p.Some? ==> p.value in versions && p.value < v && forall w :: w in versions && w < v ==> w <= p.value
    {
      var earlier := Below(versions.Keys, v);
      assert forall w :: w in versions && w < v ==> w in earlier;
      if earlier == {} then None else Some(Greatest(earlier))
    }

    function PreviousHashes(v: VersionTime): map<Name, Hash> {
      var p := Predecessor(v);
      if p.Some? then versions[p.value].fileHashes else map[]
    }

    function FilesAt(v: VersionTime): FileMap
      requires v in versions
      requires Complete(v)
    {
      var hashes := versions[v].fileHashes;
      map n | n in hashes :: FileInfo(n, |hashedFiles[hashes[n]]|, hashes[n])
    }

    /** Every hash the version refers to has content. */
    predicate Complete(v: VersionTime)
      requires v in versions
    {
      forall n :: n in versions[v].fileHashes ==> versions[v].fileHashes[n] in hashedFiles
    }

    predicate WellFormed() {
      && ValidId(id)
      && ValidId(companyID)
      && versions != map[]
      && (forall v :: v in versions ==> ValidVersion(v) && Complete(v) && versions[v].fileHashes != map[])
      && (forall v :: v in versions && Predecessor(v).Some? ==> PreviousHashes(v) != versions[v].fileHashes)
    }

    /** The content is filed under its own hash. */
    ghost predicate WellHashed() {
      forall h :: h in hashedFiles ==> ContentHash(hashedFiles[h]) == h
    }
  }

  lemma AllComplete(doc: HashedDocument)
    requires doc.WellFormed()
    ensures forall v :: v in doc.versions ==> doc.Complete(v)
  {
  }

  // ------------------------------------------------------------ validation

  datatype Problem =
    | BadID
    | BadCompanyID
    | NoVersions
    | BadVersion(v: VersionTime)
    | MissingHash(v: VersionTime, filename: Name, hash: Hash)
    | NoFiles(v: VersionTime)
    | NoChange(v: VersionTime, previous: VersionTime)

  ghost predicate HasProblem(doc: HashedDocument, p: Problem) {
    match p
    case BadID => !ValidId(doc.id)
    case BadCompanyID => !ValidId(doc.companyID)
    case NoVersions => doc.versions == map[]
    case BadVersion(v) => v in doc.versions && !ValidVersion(v)
    case MissingHash(v, n, h) =>
      v in doc.versions && n in doc.versions[v].fileHashes && doc.versions[v].fileHashes[n] == h && h !in doc.hashedFiles
    case NoFiles(v) => v in doc.versions && doc.versions[v].fileHashes == map[]
    case NoChange(v, previous) =>
      v in doc.versions && doc.Predecessor(v) == Some(previous) && doc.PreviousHashes(v) == doc.versions[v].fileHashes
  }

  /** The problem concerns the version or one of its files alone. */
  predicate Single(p: Problem) {
    p.BadVersion? || p.MissingHash?
  }

  /** The problem is looked for in time order. */
  predicate Ordered(p: Problem) {
    p.NoFiles? || p.NoChange?
  }

  lemma WellFormedHasNoProblem(doc: HashedDocument, p: Problem)
    requires doc.WellFormed()
    ensures !HasProblem(doc, p)
  {
  }

  lemma NoProblemIsWellFormed(doc: HashedDocument)
    requires forall p :: !HasProblem(doc, p)
    ensures doc.WellFormed()
  {
    assert !HasProblem(doc, BadID) && !HasProblem(doc, BadCompanyID) && !HasProblem(doc, NoVersions);
    forall v | v in doc.versions
      ensures ValidVersion(v) && doc.Complete(v) && doc.versions[v].fileHashes != map[]
    {
      assert !HasProblem(doc, BadVersion(v)) && !HasProblem(doc, NoFiles(v));
      forall n | n in doc.versions[v].fileHashes ensures doc.versions[v].fileHashes[n] in doc.hashedFiles {
        assert !HasProblem(doc, MissingHash(v, n, doc.versions[v].fileHashes[n]));
      }
    }
    forall v | v in doc.versions && doc.Predecessor(v).Some?
      ensures doc.PreviousHashes(v) != doc.versions[v].fileHashes
    {
      assert !HasProblem(doc, NoChange(v, doc.Predecessor(v).value));
    }
  }

  method MissingHashes(doc: HashedDocument, v: VersionTime) returns (problems: set<Problem>)
    requires v in doc.versions
    ensures forall p :: p in problems <==> p.MissingHash? && p.v == v && HasProblem(doc, p)
  {
    var hashes := doc.versions[v].fileHashes;
    var pending := hashes.Keys;
    problems := {};
    while pending != {}
      invariant pending <= hashes.Keys
      invariant forall p :: p in problems <==>
        p.MissingHash? && p.v == v && p.filename !in pending && HasProblem(doc, p)
    {
      var filename :| filename in pending;
      if hashes[filename] !in doc.hashedFiles {
        problems := problems + {MissingHash(v, filename, hashes[filename])};
      }
      pending := pending - {filename};
    }
  }

  method SingleProblems(doc: HashedDocument) returns (problems: set<Problem>)
    ensures forall p :: p in problems <==> Single(p) && HasProblem(doc, p)
  {
    problems := {};
    var pending := doc.versions.Keys;
    while pending != {}
      invariant pending <= doc.versions.Keys
      invariant forall p :: p in problems <==> Single(p) && HasProblem(doc, p) && p.v !in pending
    {
      var v :| v in pending;
      if !ValidVersion(v) { problems := problems + {BadVersion(v)}; }
      var missing := MissingHashes(doc, v);
      problems := problems + missing;
      pending := pending - {v};
    }
  }

  /** In the ascending order of version times an entry follows its predecessor. */
  lemma PredecessorInTimes(doc: HashedDocument, i: nat)
    requires i < |doc.VersionTimes()|
    ensures doc.VersionTimes()[i] in doc.versions
    ensures doc.Predecessor(doc.VersionTimes()[i]) == if i == 0 then None else Some(doc.VersionTimes()[i - 1])
  {
    PredecessorInOrder(doc.VersionTimes(), doc.versions.Keys, i);
  }

  method OrderedProblemsAt(doc: HashedDocument, v: VersionTime, prev: Option<VersionTime>) returns (problems: set<Problem>)
    requires v in doc.versions && prev == doc.Predecessor(v)
    ensures forall p :: p in problems <==> Ordered(p) && p.v == v && HasProblem(doc, p)
  {
    problems := {};
    if doc.versions[v].fileHashes == map[] { problems := problems + {NoFiles(v)}; }
    if prev.Some? && doc.versions[v].fileHashes == doc.versions[prev.value].fileHashes {
      problems := problems + {NoChange(v, prev.value)};
    }
  }

  method OrderedProblems(doc: HashedDocument) returns (problems: set<Problem>)
    ensures forall p :: p in problems <==> Ordered(p) && HasProblem(doc, p)
  {
    problems := {};
    var sorted := doc.VersionTimes();
    ghost var seen: set<VersionTime> := {};
    for i := 0 to |sorted|
      invariant forall j :: 0 <= j < i ==> sorted[j] in seen
      invariant forall p :: p in problems <==> Ordered(p) && p.v in seen && HasProblem(doc, p)
    {
      PredecessorInTimes(doc, i);
      var here := OrderedProblemsAt(doc, sorted[i], if i == 0 then None else Some(sorted[i - 1]));
      problems := problems + here;
      seen := seen + {sorted[i]};
    }
    forall v | v in doc.versions ensures v in seen {
      assert v in sorted;
    }
  }

  lemma WellFormedMeansNoProblem(doc: HashedDocument, problems: set<Problem>)
    requires forall p :: p in problems <==> HasProblem(doc, p)
    ensures problems == {} <==> doc.WellFormed()
  {
    if problems == {} {
      NoProblemIsWellFormed(doc);
    }
    if doc.WellFormed() {
      forall p ensures p !in problems {
        WellFormedHasNoProblem(doc, p);
      }
    }
  }

  method DocumentProblems(doc: HashedDocument) returns (problems: set<Problem>)
    ensures forall p :: p in problems <==> !Single(p) && !Ordered(p) && HasProblem(doc, p)
  {
    problems := {};
    if !ValidId(doc.id) { problems := problems + {BadID}; }
    if !ValidId(doc.companyID) { problems := problems + {BadCompanyID}; }
    if doc.versions == map[] { problems := problems + {NoVersions}; }
  }

  /** Reports every problem of the document and nothing else. */
  method Validate(doc: HashedDocument) returns (problems: set<Problem>)
    ensures forall p :: p in problems <==> HasProblem(doc, p)
    ensures problems == {} <==> doc.WellFormed()
  {
    var general := DocumentProblems(doc);
    var single := SingleProblems(doc);
    var ordered := OrderedProblems(doc);
    problems := general + single + ordered;
    WellFormedMeansNoProblem(doc, problems);
  }

  // ------------------------------------------------------- version metadata

  /** The three lists name exactly the changes from prev to cur, each once. */
  ghost predicate IsDiff(prev: map<Name, Hash>, cur: map<Name, Hash>,
                         added: seq<Name>, modified: seq<Name>, removed: seq<Name>)
  {
    && NoDuplicates(added) && NoDuplicates(modified) && NoDuplicates(removed)
    && (forall n :: n in added <==> n in cur && n !in prev)
    && (forall n :: n in modified <==> n in cur && n in prev && cur[n] != prev[n])
    && (forall n :: n in removed <==> n in prev && n !in cur)
  }

  /** The metadata the snapshot implies for version v, up to the order of the three lists. */
  ghost predicate Describes(doc: HashedDocument, v: VersionTime, info: VersionInfo)
    requires v in doc.versions && doc.Complete(v)
  {
    && info.companyID == doc.companyID
    && info.docID == doc.id
    && info.version == v
    && info.prevVersion == doc.Predecessor(v)
    && info.commitUserID == doc.versions[v].commitUserID
    && info.commitReason == doc.versions[v].commitReason
    && info.files == doc.FilesAt(v)
    && IsDiff(doc.PreviousHashes(v), doc.versions[v].fileHashes, info.addedFiles, info.modifiedFiles, info.removedFiles)
  }

  datatype InfoError = VersionNotFound | Inconsistent

  /** One pass over the files of a version, sorting them against the predecessor's hashes. */
  method DiffHashes(prev: map<Name, Hash>, cur: map<Name, Hash>)
    returns (added: seq<Name>, modified: seq<Name>, removed: seq<Name>)
    ensures IsDiff(prev, cur, added, modified, removed)
  {
    added, modified, removed := [], [], [];
    var pending := cur.Keys;
    while pending != {}
      invariant pending <= cur.Keys
      invariant NoDuplicates(added) && NoDuplicates(modified)
      invariant forall n :: n in added <==> n in cur && n !in pending && n !in prev
      invariant forall n :: n in modified <==> n in cur && n !in pending && n in prev && cur[n] != prev[n]
    {
      var filename :| filename in pending;
      if filename !in prev {
        added := added + [filename];
      } else if prev[filename] != cur[filename] {
        modified := modified + [filename];
      }
      pending := pending - {filename};
    }
    pending := prev.Keys;
    while pending != {}
      invariant pending <= prev.Keys
      invariant NoDuplicates(removed)
      invariant forall n :: n in removed <==> n in prev && n !in pending && n !in cur
    {
      var filename :| filename in pending;
      if filename !in cur {
        removed := removed + [filename];
      }
      pending := pending - {filename};
    }
  }

  lemma SortingKeepsDiff(prev: map<Name, Hash>, cur: map<Name, Hash>,
                         added: seq<Name>, modified: seq<Name>, removed: seq<Name>)
    requires IsDiff(prev, cur, added, modified, removed)
    ensures IsDiff(prev, cur, Sorted(added), Sorted(modified), Sorted(removed))
  {
    SameElements(added, Sorted(added));
    SameElements(modified, Sorted(modified));
    SameElements(removed, Sorted(removed));
  }

  method FindVersion(doc: HashedDocument, v: VersionTime) returns (found: bool, prev: Option<VersionTime>)
    ensures found <==> v in doc.versions
    ensures found ==> prev == doc.Predecessor(v)
  {
    var versions := doc.VersionTimes();
    assert forall w :: w in doc.versions ==> w in versions;
    hide HashedDocument.VersionTimes, HashedDocument.Predecessor, Lists;
    found, prev := false, None;
    var i := 0;
    while i < |versions| && !found
      invariant i <= |versions|
      invariant !found ==> prev.None? && forall j :: 0 <= j < i ==> versions[j] != v
      invariant found ==> v in doc.versions && prev == doc.Predecessor(v)
    {
      if versions[i] == v {
        PredecessorInTimes(doc, i);
        if i > 0 {
          prev := Some(versions[i - 1]);
        }
        found := true;
      }
      i := i + 1;
    }
  }

  method VersionFiles(doc: HashedDocument, v: VersionTime) returns (r: Result<FileMap, InfoError>)
    requires v in doc.versions
    ensures r.Success? <==> doc.Complete(v)
    ensures r.Success? ==> r.value == doc.FilesAt(v)
    ensures r.Failure? ==> r.error == Inconsistent
  {
    var hashes := doc.versions[v].fileHashes;
    var files: FileMap := map[];
    var pending := hashes.Keys;
    while pending != {}
      invariant pending <= hashes.Keys
      invariant files.Keys == hashes.Keys - pending
      invariant forall n :: n in files ==> hashes[n] in doc.hashedFiles
      invariant forall n :: n in files ==> files[n] == FileInfo(n, |doc.hashedFiles[hashes[n]]|, hashes[n])
    {
      var filename :| filename in pending;
      var hash := hashes[filename];
      if hash !in doc.hashedFiles {
        return Failure(Inconsistent);
      }
      files := files[filename := FileInfo(filename, |doc.hashedFiles[hash]|, hash)];
      pending := pending - {filename};
    }
    return Success(files);
  }

  method VersionInfoAt(doc: HashedDocument, v: VersionTime) returns (r: Result<VersionInfo, InfoError>)
    ensures r == Failure(VersionNotFound) <==> v !in doc.versions
    ensures r == Failure(Inconsistent) <==> v in doc.versions && !doc.Complete(v)
    ensures r.Success? ==> Describes(doc, v, r.value)
    ensures r.Success? ==> SortedNames(r.value.addedFiles) && SortedNames(r.value.modifiedFiles) && SortedNames(r.value.removedFiles)
  {
    var found, prev := FindVersion(doc, v);
    if !found {
      return Failure(VersionNotFound);
    }
    var version := doc.versions[v];
    var prevHashes := if prev.Some? then doc.versions[prev.value].fileHashes else map[];
    var files := VersionFiles(doc, v);
    if files.Failure? {
      return Failure(files.error);
    }
    var added, modified, removed := DiffHashes(prevHashes, version.fileHashes);
    SortingKeepsDiff(prevHashes, version.fileHashes, added, modified, removed);
    return Success(VersionInfo(doc.companyID, doc.id, v, prev, version.commitUserID, version.commitReason,
                               Sorted(added), Sorted(removed), Sorted(modified), files.value));
  }

  /**
   In an accepted document every version has metadata; its lists are disjoint,
   and only the first version may come without a change.
   */
  lemma AcceptedVersionsChange(doc: HashedDocument, v: VersionTime, info: VersionInfo)
    requires doc.WellFormed() && v in doc.versions
    requires Describes(doc, v, info)
    ensures forall n :: !(n in info.addedFiles && n in info.modifiedFiles)
                     && !(n in info.addedFiles && n in info.removedFiles)
                     && !(n in info.modifiedFiles && n in info.removedFiles)
    ensures info.addedFiles + info.modifiedFiles + info.removedFiles != []
    ensures info.prevVersion.None? ==> info.modifiedFiles == [] && info.removedFiles == []
  {
    var prev, cur := doc.PreviousHashes(v), doc.versions[v].fileHashes;
    assert prev != cur;
    MapsAgree(prev, cur);
    var n :| (n in prev) != (n in cur) || (n in prev && n in cur && prev[n] != cur[n]);
    assert n in info.addedFiles || n in info.modifiedFiles || n in info.removedFiles;
    assert info.prevVersion.None? ==> prev == map[];
    EmptyWithoutMembers(info.modifiedFiles);
    EmptyWithoutMembers(info.removedFiles);
  }

  lemma MapsAgree<K, V>(a: map<K, V>, b: map<K, V>)
    ensures (forall k :: (k in a <==> k in b) && (k in a ==> a[k] == b[k])) ==> a == b
  {
  }

  lemma EmptyWithoutMembers<T>(s: seq<T>)
    ensures (forall x :: x !in s) ==> s == []
  {
    assert s != [] ==> s[0] in s;
  }

  // ----------------------------------------------- difference and carry-forward

  function HashesOf(m: FileMap): map<Name, Hash> {
    map n | n in m :: m[n].hash
  }

  function Pick(m: FileMap, names: seq<Name>): (infos: seq<FileInfo>)
    requires forall n :: n in names ==> n in m
    ensures |infos| == |names|
    ensures forall i :: 0 <= i < |names| ==> infos[i] == m[names[i]]
  {
    seq(|names|, i requires 0 <= i < |names| => m[names[i]])
  }

  /** The carry-forward rule of a metadata store. */
  function CarryForward(prev: FileMap, added: seq<FileInfo>, modified: seq<FileInfo>, removed: seq<Name>): FileMap {
    Overlay(Overlay(Without(prev, removed), added), modified)
  }

  lemma PickNames(m: FileMap, names: seq<Name>)
    requires NamedMap(m) && forall n :: n in names ==> n in m
    ensures NamesOf(Pick(m, names)) == names
  {
  }

  lemma {:induction false} OverlayPick(base: FileMap, m: FileMap, names: seq<Name>, n: Name)
    requires NamedMap(m) && forall k :: k in names ==> k in m
    ensures n in Overlay(base, Pick(m, names)) <==> n in base || n in names
    ensures n in names ==> Overlay(base, Pick(m, names))[n] == m[n]
    ensures n !in names && n in base ==> Overlay(base, Pick(m, names))[n] == base[n]
  {
    if names != [] {
      var k := |names| - 1;
      assert Pick(m, names)[..k] == Pick(m, names[..k]);
      assert names == names[..k] + [names[k]];
      OverlayPick(base, m, names[..k], n);
    }
  }

  /** Applying the difference of two file maps to the first gives the second. */
  lemma DiffThenCarry(prev: FileMap, cur: FileMap, added: seq<Name>, modified: seq<Name>, removed: seq<Name>)
    requires NamedMap(cur)
    requires IsDiff(HashesOf(prev), HashesOf(cur), added, modified, removed)
    requires forall n :: n in prev && n in cur && prev[n].hash == cur[n].hash ==> prev[n] == cur[n]
    ensures CarryForward(prev, Pick(cur, added), Pick(cur, modified), removed) == cur
  {
    var kept := Without(prev, removed);
    var r := CarryForward(prev, Pick(cur, added), Pick(cur, modified), removed);
    forall n ensures (n in r <==> n in cur) && (n in cur ==> r[n] == cur[n]) {
      OverlayPick(kept, cur, added, n);
      OverlayPick(Overlay(kept, Pick(cur, added)), cur, modified, n);
      assert n in HashesOf(cur) <==> n in cur;
      assert n in HashesOf(prev) <==> n in prev;
    }
  }

  /** A delta that says what it does is the difference of its result. */
  lemma CarryThenDiff(prev: FileMap, cur: FileMap, added: seq<Name>, modified: seq<Name>, removed: seq<Name>)
    requires NamedMap(cur)
    requires NoDuplicates(added) && NoDuplicates(modified) && NoDuplicates(removed)
    requires forall n :: n in added ==> n in cur && n !in prev
    requires forall n :: n in modified ==> n in cur && n in prev && n !in removed && cur[n].hash != prev[n].hash
    requires forall n :: n in removed ==> n in prev
    requires CarryForward(prev, Pick(cur, added), Pick(cur, modified), removed) == cur
    ensures IsDiff(HashesOf(prev), HashesOf(cur), added, modified, removed)
  {
    var kept := Without(prev, removed);
    forall n
      ensures n in cur <==> (n in prev && n !in removed) || n in added || n in modified
      ensures n in cur && n !in added && n !in modified ==> cur[n] == prev[n]
    {
      OverlayPick(kept, cur, added, n);
      OverlayPick(Overlay(kept, Pick(cur, added)), cur, modified, n);
    }
  }
}
