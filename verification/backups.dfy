/** Reading a whole document from a connection, and copying it to another one. */
module Backups {
  import opened Documents
  import opened Ordering
  import opened HashedDocuments
  import opened SplitStore

  /** What a connection answers about one document, of whatever back end it is. */
  datatype Source = Source(
    companyID: Result<Id, Error>,
    versions: Result<seq<VersionTime>, Error>,
    info: VersionTime -> Result<VersionInfo, Error>,
    listing: VersionTime -> Result<seq<Name>, Error>,
    file: (VersionTime, Name) -> Result<Bytes, Error>)
  {
    predicate Lists(v: VersionTime, n: Name) {
      listing(v).Success? && n in listing(v).value
    }

    /** The file is there with the size and the content hash that the version info states. */
    predicate FileAgrees(v: VersionTime, n: Name)
      requires info(v).Success?
    {
      && n in info(v).value.files
      && file(v, n).Success?
      && |file(v, n).value| == info(v).value.files[n].size
      && ContentHash(file(v, n).value) == info(v).value.files[n].hash
    }

    /** Storage and version info of one version agree in both directions. */
    ghost predicate VersionAgrees(v: VersionTime) {
      && info(v).Success?
      && listing(v).Success?
      && (forall n :: n in listing(v).value ==> FileAgrees(v, n))
      && (forall n :: n in info(v).value.files ==> n in listing(v).value)
    }

    ghost predicate Readable() {
      companyID.Success? && versions.Success? && forall v :: v in versions.value ==> VersionAgrees(v)
    }
  }

  function VersionOf(info: VersionInfo): HashedVersion {
    HashedVersion(info.commitUserID, info.commitReason, HashesOf(info.files))
  }

  /** Some file of the versions has content b. */
  ghost predicate Holds(src: Source, versions: seq<VersionTime>, b: Bytes) {
    exists v, n :: v in versions && src.Lists(v, n) && src.file(v, n) == Success(b)
  }

  /** doc is what src answered: all its versions, and the content of all their files under its hash. */
  ghost predicate Snapshot(src: Source, docID: Id, doc: HashedDocument) {
    && src.Readable()
    && doc.id == docID
    && doc.companyID == src.companyID.value
    && (forall v :: v in doc.versions <==> v in src.versions.value)
    && (forall v :: v in doc.versions ==> doc.versions[v] == VersionOf(src.info(v).value) && doc.Complete(v))
    && doc.WellHashed()
    && (forall h :: h in doc.hashedFiles ==> Holds(src, src.versions.value, doc.hashedFiles[h]))
  }

  /** The files of the version read so far, and their content. */
  ghost predicate Collects(src: Source, v: VersionTime, seen: set<Name>, hashes: map<Name, Hash>,
                           before: map<Hash, Bytes>, contents: map<Hash, Bytes>)
    requires src.info(v).Success?
  {
    && hashes.Keys == seen
    && (forall n :: n in seen ==> src.FileAgrees(v, n) && hashes[n] == src.info(v).value.files[n].hash && hashes[n] in contents)
    && (forall h :: h in before ==> h in contents)
    && (forall h :: h in contents ==>
          || (h in before && contents[h] == before[h])
          || (ContentHash(contents[h]) == h && exists n :: n in seen && src.file(v, n) == Success(contents[h])))
  }

  method ReadFile(src: Source, v: VersionTime, info: VersionInfo, filename: Name) returns (r: Result<Bytes, Error>)
    requires src.info(v) == Success(info)
    ensures r.Success? <==> src.FileAgrees(v, filename)
    ensures r.Success? ==> r == src.file(v, filename)
  {
    if filename !in info.files {
      return Failure(NotAsStored);
    }
    r := src.file(v, filename);
    if r.Failure? {
      return;
    }
    if |r.value| != info.files[filename].size || ContentHash(r.value) != info.files[filename].hash {
      return Failure(NotAsStored);
    }
  }

  method AllListed(files: FileMap, hashes: map<Name, Hash>) returns (r: bool)
    ensures r <==> forall n :: n in files ==> n in hashes
  {
    var pending := files.Keys;
    while pending != {}
      invariant pending <= files.Keys
      invariant forall n :: n in files && n !in pending ==> n in hashes
    {
      var filename :| filename in pending;
      if filename !in hashes {
        return false;
      }
      pending := pending - {filename};
    }
    r := true;
  }

  method ReadVersion(src: Source, v: VersionTime, before: map<Hash, Bytes>) returns (r: Result<HashedVersion, Error>, contents: map<Hash, Bytes>)
    ensures r.Success? <==> src.VersionAgrees(v)
    ensures r.Success? ==> r.value == VersionOf(src.info(v).value)
    ensures r.Success? ==> Collects(src, v, r.value.fileHashes.Keys, r.value.fileHashes, before, contents)
  {
    contents := before;
    var info := src.info(v);
    if info.Failure? {
      return Failure(info.error), contents;
    }
    var filenames := src.listing(v);
    if filenames.Failure? {
      return Failure(filenames.error), contents;
    }
    var hashes: map<Name, Hash> := map[];
    var i := 0;
    hide Source.FileAgrees;
    assert Collects(src, v, hashes.Keys, hashes, before, contents);
    hide Collects;
    while i < |filenames.value|
      invariant 0 <= i <= |filenames.value|
      invariant forall j :: 0 <= j < i ==> filenames.value[j] in hashes
      invariant forall n :: n in hashes ==> n in filenames.value && src.FileAgrees(v, n)
      invariant Collects(src, v, hashes.Keys, hashes, before, contents)
    {
      var filename := filenames.value[i];
      assert filename in filenames.value;
      var data := ReadFile(src, v, info.value, filename);
      if data.Failure? {
        return Failure(data.error), contents;
      }
      var hash := ContentHash(data.value);
      CollectsMore(src, v, hashes, before, contents, filename);
      contents := contents[hash := data.value];
      hashes := hashes[filename := hash];
      i := i + 1;
    }
    assert forall n :: n in filenames.value ==> n in hashes;
    var complete := AllListed(info.value.files, hashes);
    if !complete {
      return Failure(NotAsStored), contents;
    }
    CollectsAll(src, v, hashes, before, contents);
    r := Success(HashedVersion(info.value.commitUserID, info.value.commitReason, hashes));
  }

  lemma CollectsAll(src: Source, v: VersionTime, hashes: map<Name, Hash>, before: map<Hash, Bytes>, contents: map<Hash, Bytes>)
    requires src.info(v).Success?
    requires Collects(src, v, hashes.Keys, hashes, before, contents)
    requires forall n :: n in src.info(v).value.files ==> n in hashes
    ensures hashes == HashesOf(src.info(v).value.files)
  {
    forall n | n in hashes ensures n in src.info(v).value.files && hashes[n] == src.info(v).value.files[n].hash {
      assert src.FileAgrees(v, n);
    }
  }

  lemma CollectsMore(src: Source, v: VersionTime, hashes: map<Name, Hash>,
                     before: map<Hash, Bytes>, contents: map<Hash, Bytes>, n: Name)
    requires src.info(v).Success? && Collects(src, v, hashes.Keys, hashes, before, contents)
    requires src.FileAgrees(v, n)
    ensures src.file(v, n).Success?
    ensures var h := ContentHash(src.file(v, n).value);
            Collects(src, v, hashes[n := h].Keys, hashes[n := h], before, contents[h := src.file(v, n).value])
  {
    var h := ContentHash(src.file(v, n).value);
    var contents' := contents[h := src.file(v, n).value];
    var hashes' := hashes[n := h];
    assert n in hashes'.Keys;
    forall g | g in contents' ensures
      || (g in before && contents'[g] == before[g])
      || (ContentHash(contents'[g]) == g && exists m :: m in hashes'.Keys && src.file(v, m) == Success(contents'[g]))
    {
      if g == h {
        assert n in hashes'.Keys && src.file(v, n) == Success(contents'[g]);
      } else if !(g in before && contents[g] == before[g]) {
        var m :| m in hashes.Keys && src.file(v, m) == Success(contents[g]);
        assert m in hashes'.Keys && src.file(v, m) == Success(contents'[g]);
      }
    }
  }

  /** The part of a snapshot that consists of the versions done. */
  ghost predicate PartialSnapshot(src: Source, done: set<VersionTime>, doc: HashedDocument) {
    && src.versions.Success?
    && doc.versions.Keys == done
    && (forall v :: v in done ==> v in src.versions.value && src.VersionAgrees(v) && doc.versions[v] == VersionOf(src.info(v).value) && doc.Complete(v))
    && doc.WellHashed()
    && (forall h :: h in doc.hashedFiles ==> Holds(src, src.versions.value, doc.hashedFiles[h]))
  }

  lemma CollectedIsHeld(src: Source, v: VersionTime, hashes: map<Name, Hash>, before: map<Hash, Bytes>, contents: map<Hash, Bytes>, h: Hash)
    requires src.info(v).Success? && Collects(src, v, hashes.Keys, hashes, before, contents)
    requires src.versions.Success? && v in src.versions.value && src.VersionAgrees(v) && h in contents
    requires h in before ==> ContentHash(before[h]) == h && Holds(src, src.versions.value, before[h])
    ensures ContentHash(contents[h]) == h && Holds(src, src.versions.value, contents[h])
  {
    if !(h in before && contents[h] == before[h]) {
      var n :| n in hashes.Keys && src.file(v, n) == Success(contents[h]);
      assert src.FileAgrees(v, n);
      assert src.Lists(v, n);
    }
  }

  lemma CompleteStays(doc: HashedDocument, contents: map<Hash, Bytes>, v: VersionTime, hv: HashedVersion, w: VersionTime)
    requires w in doc.versions && doc.Complete(w) && (forall h :: h in doc.hashedFiles ==> h in contents)
    requires w != v
    ensures doc.(hashedFiles := contents, versions := doc.versions[v := hv]).Complete(w)
  {
  }

  lemma SnapshotGrows(src: Source, done: set<VersionTime>, doc: HashedDocument, v: VersionTime, hv: HashedVersion, contents: map<Hash, Bytes>)
    requires PartialSnapshot(src, done, doc) && v in src.versions.value && src.VersionAgrees(v)
    requires hv == VersionOf(src.info(v).value)
    requires Collects(src, v, hv.fileHashes.Keys, hv.fileHashes, doc.hashedFiles, contents)
    ensures PartialSnapshot(src, done + {v}, doc.(hashedFiles := contents, versions := doc.versions[v := hv]))
  {
    var doc' := doc.(hashedFiles := contents, versions := doc.versions[v := hv]);
    assert doc'.Complete(v) && forall h :: h in doc.hashedFiles ==> h in contents;
    hide Holds, Source.VersionAgrees, VersionOf, HashedDocument.Complete, Collects;
    forall w | w in doc'.versions ensures doc'.Complete(w) && doc'.versions[w] == VersionOf(src.info(w).value) {
      if w != v {
        CompleteStays(doc, contents, v, hv, w);
      }
    }
    forall h | h in contents ensures ContentHash(contents[h]) == h && Holds(src, src.versions.value, contents[h]) {
      CollectedIsHeld(src, v, hv.fileHashes, doc.hashedFiles, contents, h);
    }
  }

  /** Succeeds exactly when storage and metadata agree, and then misses nothing. */
  method ReadHashedDocument(src: Source, docID: Id) returns (r: Result<HashedDocument, Error>)
    ensures r.Success? <==> src.Readable()
    ensures r.Success? ==> Snapshot(src, docID, r.value)
  {
    if src.companyID.Failure? {
      return Failure(src.companyID.error);
    }
    if src.versions.Failure? {
      return Failure(src.versions.error);
    }
    hide Collects, Source.VersionAgrees, HashedDocument.Complete, HashedDocument.WellHashed;
    var versions := src.versions.value;
    var doc := HashedDocument(docID, src.companyID.value, map[], map[]);
    ghost var done: set<VersionTime> := {};
    assert PartialSnapshot(src, {}, doc) by { EmptySnapshot(src, doc); }
    var i := 0;
    while i < |versions|
      invariant 0 <= i <= |versions|
      invariant doc.id == docID && doc.companyID == src.companyID.value
      invariant forall v :: v in done <==> exists j :: 0 <= j < i && versions[j] == v
      invariant PartialSnapshot(src, done, doc)
    {
      var v := versions[i];
      var version, contents := ReadVersion(src, v, doc.hashedFiles);
      assert v in versions;
      if version.Failure? {
        return Failure(version.error);
      }
      SnapshotGrows(src, done, doc, v, version.value, contents);
      doc := doc.(hashedFiles := contents, versions := doc.versions[v := version.value]);
      done := done + {v};
      i := i + 1;
    }
    r := Success(doc);
  }

  lemma EmptySnapshot(src: Source, doc: HashedDocument)
    requires src.versions.Success? && doc.versions == map[] && doc.hashedFiles == map[]
    ensures PartialSnapshot(src, {}, doc)
  {
  }
}
