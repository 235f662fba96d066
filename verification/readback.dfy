/** Which documents of a split store can be read whole. */
module ReadBack {
  import opened Documents
  import opened HashedDocuments
  import opened Ordering
  import opened SplitStore
  import opened StoreInvariants
  import opened StoreRuns
  import opened S3Keys
  import opened S3Store
  import opened StoreConn
  import opened Backups
  import opened Providers
  import opened Syncing

  /** The size and the hash are those of one content. */
  ghost predicate Honest(f: FileInfo) {
    exists b: Bytes :: |b| == f.size && ContentHash(b) == f.hash
  }

  ghost predicate HonestFiles(m: FileMap) {
    forall n :: n in m ==> Honest(m[n])
  }

  /** The rows have valid version times and honest files. */
  ghost predicate HonestRows(rows: Table) {
    forall k :: k in rows ==> ValidVersion(k.version) && HonestFiles(rows[k].files)
  }

  lemma WrittenIsHonest(f: File)
    ensures Honest(InfoOf(f))
  {
    assert |f.data| == InfoOf(f).size;
  }

  lemma {:induction false} OverlayKeepsHonest(m: FileMap, files: seq<File>)
    requires HonestFiles(m)
    ensures HonestFiles(Overlay(m, InfosOf(files)))
  {
    hide Honest;
    if files != [] {
      var i := |files| - 1;
      OverlayKeepsHonest(m, files[..i]);
      assert InfosOf(files)[..i] == InfosOf(files[..i]);
      WrittenIsHonest(files[i]);
    }
  }

  lemma RestoredFilesAreHonest(doc: HashedDocument, v: VersionTime)
    requires doc.WellHashed() && v in doc.versions && doc.Complete(v)
    ensures HonestFiles(doc.FilesAt(v))
  {
    var hashes := doc.versions[v].fileHashes;
    forall n | n in doc.FilesAt(v) ensures Honest(doc.FilesAt(v)[n]) {
      assert |doc.hashedFiles[hashes[n]]| == doc.FilesAt(v)[n].size;
    }
  }

  lemma RestoreKeepsHonest(base: Table, rows': Table, doc: HashedDocument)
    requires doc.WellFormed() && doc.WellHashed() && HonestRows(base)
    requires Merged(base, rows', doc, doc.versions.Keys)
    ensures HonestRows(rows')
  {
    hide HonestFiles;
    forall k | k in rows' ensures ValidVersion(k.version) && HonestFiles(rows'[k].files) {
      if k !in base {
        assert Describes(doc, k.version, rows'[k]);
        RestoredFilesAreHonest(doc, k.version);
      }
    }
  }

  lemma InsertKeepsHonest(rows: Table, k: RowId, info: VersionInfo)
    requires HonestRows(rows) && ValidVersion(k.version) && HonestFiles(info.files)
    ensures HonestRows(rows[k := info])
  {
    hide HonestFiles;
  }

  lemma CreateKeepsHonest(s: Stores, s': Stores, op: Operation, out: Outcome)
    requires op.Create? && CreateStep(s, s', op, out) && (out.Failed? ==> !out.metaLeft) && HonestRows(s.rows)
    ensures HonestRows(s'.rows)
  {
    NothingIsHonest();
    OverlayKeepsHonest(map[], op.files);
    hide HonestRows, HonestFiles, Overlay, PutAll;
    if out.Done? {
      InsertKeepsHonest(s.rows, RowId(op.docID, op.version), s'.rows[RowId(op.docID, op.version)]);
    }
  }

  lemma AddKeepsHonest(s: Stores, s': Stores, op: Operation, out: Outcome)
    requires op.Add? && AddStep(s, s', op, out) && (out.Failed? ==> !out.metaLeft) && HonestRows(s.rows)
    ensures HonestRows(s'.rows)
  {
    if out.Done? {
      var r, prev := op.result.value, s.rows[RowId(op.docID, Latest(s.rows, op.docID))];
      WithoutIsHonest(prev.files, r.removeFiles);
      OverlayKeepsHonest(Without(prev.files, r.removeFiles), r.writeFiles);
      hide HonestRows, HonestFiles, Overlay, PutAll, Labelled, Latest;
      InsertKeepsHonest(s.rows, RowId(op.docID, r.version), s'.rows[RowId(op.docID, r.version)]);
    }
  }

  lemma FewerRowsAreHonest(rows: Table, rows': Table)
    requires HonestRows(rows) && forall k :: k in rows' ==> k in rows && rows'[k].files == rows[k].files
    ensures HonestRows(rows')
  {
    hide HonestFiles;
  }

  lemma RestoredStaysHonest(s: Stores, s': Stores, doc: HashedDocument, recreate: bool, out: Outcome)
    requires RestoreStep(s, s', doc, recreate, out) && doc.WellHashed() && (out.Failed? ==> !out.metaLeft) && HonestRows(s.rows)
    ensures HonestRows(s'.rows)
  {
    hide HonestRows, HashedDocument.WellFormed, HashedDocument.WellHashed, Merged, BlobsMerged, Undone, DeleteStep, Fits;
    var base := RestoreBase(s, doc, recreate);
    FewerRowsAreHonest(s.rows, base.rows);
    if out.Done? {
      RestoreKeepsHonest(base.rows, s'.rows, doc);
    } else {
      FailedRestoreKeepsRows(s, s', doc, recreate, out);
      hide RestoreStep, RestoreBase;
      FewerRowsAreHonest(s.rows, s'.rows);
    }
  }

  lemma DeletesKeepHonest(s: Stores, s': Stores, op: Operation, out: Outcome)
    requires op.Delete? || op.DeleteVersion? || op.SetCompany?
    requires Step(s, s', op, out) && HonestRows(s.rows)
    ensures HonestRows(s'.rows)
  {
    hide HonestRows, SoleHashes, Purged, Shrunk, BlobsWithout, HasBlobs, HasRows;
    FewerRowsAreHonest(s.rows, s'.rows);
  }

  lemma StepKeepsHonest(s: Stores, s': Stores, e: Event)
    requires Step(s, s', e.op, e.out) && Compensated(e) && HonestRows(s.rows)
    ensures HonestRows(s'.rows)
  {
    hide HonestRows, CreateStep, AddStep, RestoreStep, HashedDocument.WellHashed;
    match e.op
    case Create(_, _, _, _, _, _, _) => CreateKeepsHonest(s, s', e.op, e.out);
    case Add(_, _, _, _) => AddKeepsHonest(s, s', e.op, e.out);
    case Restore(doc, recreate) => RestoredStaysHonest(s, s', doc, recreate, e.out);
    case _ => DeletesKeepHonest(s, s', e.op, e.out);
  }

  lemma NothingIsHonest()
    ensures HonestFiles(map[])
  {
  }

  lemma WithoutIsHonest(m: FileMap, names: seq<Name>)
    requires HonestFiles(m)
    ensures HonestFiles(Without(m, names))
  {
  }

  lemma {:induction false} RunIsHonest(states: seq<Stores>, events: seq<Event>, i: nat)
    requires Run(states, events) && i < |states|
    requires forall e :: e in events ==> Compensated(e)
    ensures HonestRows(states[i].rows)
  {
    hide Step, HonestFiles;
    if i == 0 {
      assert states[0] == EMPTY;
    } else {
      RunIsHonest(states, events, i - 1);
      var j := i - 1;
      assert events[j] in events;
      assert Step(states[j], states[j + 1], events[j].op, events[j].out);
      StepKeepsHonest(states[j], states[j + 1], events[j]);
    }
  }

  // ------------------------------------------------------ asking a connection

  /** What a connection answered about one version: its record, its listing, and each listed file. */
  datatype VersionAnswer = VersionAnswer(info: Result<VersionInfo, Error>, listing: Result<seq<Name>, Error>, files: map<Name, Result<Bytes, Error>>)

  const NO_ANSWER := VersionAnswer(Failure(NotFound), Failure(NotFound), map[])

  function FileAnswer(a: VersionAnswer, n: Name): Result<Bytes, Error> {
    if n in a.files then a.files[n] else Failure(FileNotFound)
  }

  function AnswerFor(answers: map<VersionTime, VersionAnswer>, v: VersionTime): VersionAnswer {
    if v in answers then answers[v] else NO_ANSWER
  }

  /** a is what the provider p and the stores give for version v. */
  ghost predicate AnsweredBy(a: VersionAnswer, s: Stores, d: Id, v: VersionTime, p: FileProvider) {
    && RowId(d, v) in s.rows
    && a.info == Success(s.rows[RowId(d, v)])
    && ProvidesHashes(p, s.blobs, d, HashesIn(s.rows[RowId(d, v)]))
    && a.listing == Success(ListedNames(p.keys))
    && (forall n, k :: n in ListedNames(p.keys) && k in s.blobs && p.KeyFor(n) == KeyString(k) ==> FileAnswer(a, n) == Success(s.blobs[k]))
  }

  ghost predicate Answered(a: VersionAnswer, s: Stores, d: Id, v: VersionTime) {
    exists p :: AnsweredBy(a, s, d, v, p)
  }

  /** The answers about all versions of d, put together. */
  function SourceOf(companyID: Id, versions: seq<VersionTime>, answers: map<VersionTime, VersionAnswer>): Source {
    Source(Success(companyID), Success(versions),
           (v: VersionTime) => AnswerFor(answers, v).info, (v: VersionTime) => AnswerFor(answers, v).listing,
           (v: VersionTime, n: Name) => FileAnswer(AnswerFor(answers, v), n))
  }

  ghost predicate AllAnswered(versions: seq<VersionTime>, answers: map<VersionTime, VersionAnswer>, s: Stores, d: Id) {
    && (forall v :: v in versions <==> v in Versions(s.rows, d))
    && (forall v :: v in versions ==> v in answers && Answered(answers[v], s, d, v))
  }

  /** Reads every listed file through the provider. */
  method AskFiles(conn: Conn, p: FileProvider, filenames: seq<Name>) returns (files: map<Name, Result<Bytes, Error>>)
    requires conn.Valid()
    ensures forall n :: n in filenames ==> n in files
    ensures conn.Reliable() ==> forall n, k :: n in files && k in conn.State().blobs && p.KeyFor(n) == KeyString(k) ==>
      files[n] == Success(conn.State().blobs[k])
  {
    hide WellKeyed, Decode, KeyString, FirstNamed;
    files := map[];
    for i := 0 to |filenames|
      invariant forall j :: 0 <= j < i ==> filenames[j] in files
      invariant conn.Reliable() ==> forall n, k :: n in files && k in conn.State().blobs && p.KeyFor(n) == KeyString(k) ==>
        files[n] == Success(conn.State().blobs[k])
    {
      var data := conn.documentStore.ReadFile(p, filenames[i]);
      files := files[filenames[i] := data];
    }
  }

  method AskVersion(conn: Conn, d: Id, v: VersionTime) returns (a: VersionAnswer)
    requires conn.Valid()
    ensures conn.Reliable() && RowId(d, v) in conn.State().rows ==> Answered(a, conn.State(), d, v)
  {
    hide WellKeyed, Decode, KeyString, ProvidesHashes;
    var info := conn.metadataStore.DocumentVersionInfo(d, v);
    var provider := conn.DocumentVersionFileProvider(d, v);
    if provider.Failure? {
      return VersionAnswer(info, Failure(provider.error), map[]);
    }
    var filenames := ListFiles(provider.value);
    var files := AskFiles(conn, provider.value, filenames);
    a := VersionAnswer(info, Success(filenames), files);
    if conn.Reliable() && RowId(d, v) in conn.State().rows {
      assert AnsweredBy(a, conn.State(), d, v, provider.value);
    }
  }

  /** Keys of objects have exactly three parts, so no stored file has a name with a separator. */
  predicate NamesStored(blobs: Blobs) {
    forall k :: k in blobs ==> SlashFree(k.name)
  }

  lemma ConnStoresNames(conn: Conn)
    requires conn.Valid()
    ensures NamesStored(conn.State().blobs)
  {
    forall k | k in conn.State().blobs ensures SlashFree(k.name) {
      DecodeAt(conn.documentStore.objects, k);
    }
  }

  /** Asks a connection everything that a backup asks. */
  method AskAll(conn: Conn, d: Id, versions: seq<VersionTime>) returns (answers: map<VersionTime, VersionAnswer>)
    requires conn.Valid() && forall v :: v in versions <==> v in Versions(conn.State().rows, d)
    ensures conn.Reliable() ==> AllAnswered(versions, answers, conn.State(), d)
  {
    hide WellKeyed, Decode, Answered;
    answers := map[];
    for i := 0 to |versions|
      invariant forall j :: 0 <= j < i ==> versions[j] in answers
      invariant conn.Reliable() ==> forall v :: v in answers ==> Answered(answers[v], conn.State(), d, v)
    {
      assert versions[i] in Versions(conn.State().rows, d);
      var a := AskVersion(conn, d, versions[i]);
      answers := answers[versions[i] := a];
    }
  }

  // ------------------------------------------------------ strays spoil the read

  ghost function ProviderKeys(blobs: Blobs, d: Id, info: VersionInfo): set<string> {
    set k | k in blobs && k.doc == d && RowHas(info, k.hash) :: KeyString(k)
  }

  lemma {:induction false} Enumerated(s: set<string>) returns (q: seq<string>)
    ensures NoDuplicates(q) && forall x :: x in q <==> x in s
  {
    q := [];
    if s != {} {
      var x :| x in s;
      var rest := Enumerated(s - {x});
      q := rest + [x];
    }
  }

  /** The keys of a provider come in whatever order the store lists them. */
  lemma AnyOrderProvides(blobs: Blobs, d: Id, info: VersionInfo, keys: seq<string>)
    requires NamesStored(blobs) && NoDuplicates(keys) && forall s :: s in keys <==> s in ProviderKeys(blobs, d, info)
    ensures ProvidesHashes(FileProvider(d, keys), blobs, d, HashesIn(info))
  {
    forall s | s in keys
      ensures |Split(s)| == 3 && KeyString(ParseKey(s)) == s && ParseKey(s) in blobs && ParseKey(s).doc == d && ParseKey(s).hash in HashesIn(info)
    {
      var k :| k in blobs && k.doc == d && RowHas(info, k.hash) && KeyString(k) == s;
      KeyParts(k.doc, k.name, k.hash);
      var n :| n in info.files && info.files[n].hash == k.hash;
    }
    forall k | k in blobs && k.doc == d && k.hash in HashesIn(info) ensures KeyString(k) in keys {
      var n :| n in info.files && info.files[n].hash == k.hash;
      assert RowHas(info, k.hash);
    }
  }

  lemma ProviderExists(blobs: Blobs, d: Id, info: VersionInfo)
    requires NamesStored(blobs)
    ensures exists p :: ProvidesHashes(p, blobs, d, HashesIn(info))
  {
    var keys := Enumerated(ProviderKeys(blobs, d, info));
    AnyOrderProvides(blobs, d, info, keys);
  }

  /** Any one of its keys may come first. */
  lemma ProviderStartingWith(blobs: Blobs, d: Id, info: VersionInfo, k: BlobKey) returns (p: FileProvider)
    requires NamesStored(blobs) && k in blobs && k.doc == d && RowHas(info, k.hash)
    ensures ProvidesHashes(p, blobs, d, HashesIn(info)) && p.keys != [] && p.keys[0] == KeyString(k)
  {
    hide KeyString, ProvidesHashes;
    var rest := Enumerated(ProviderKeys(blobs, d, info) - {KeyString(k)});
    AnyOrderProvides(blobs, d, info, [KeyString(k)] + rest);
    p := FileProvider(d, [KeyString(k)] + rest);
  }

  ghost function SomeProvider(blobs: Blobs, d: Id, info: VersionInfo): (p: FileProvider)
    requires NamesStored(blobs)
    ensures ProvidesHashes(p, blobs, d, HashesIn(info))
  {
    ProviderExists(blobs, d, info);
    var p :| ProvidesHashes(p, blobs, d, HashesIn(info));
    p
  }

  ghost function ReadThrough(p: FileProvider, blobs: Blobs, n: Name): Result<Bytes, Error> {
    var k := ParseKey(p.KeyFor(n));
    if k in blobs then Success(blobs[k]) else Failure(FileNotFound)
  }

  ghost function AnswerThrough(p: FileProvider, blobs: Blobs, info: VersionInfo): VersionAnswer {
    VersionAnswer(Success(info), Success(ListedNames(p.keys)), map n | n in ListedNames(p.keys) :: ReadThrough(p, blobs, n))
  }

  lemma ThroughIsAnswered(p: FileProvider, s: Stores, d: Id, v: VersionTime)
    requires NamesStored(s.blobs) && RowId(d, v) in s.rows && ProvidesHashes(p, s.blobs, d, HashesIn(s.rows[RowId(d, v)]))
    ensures Answered(AnswerThrough(p, s.blobs, s.rows[RowId(d, v)]), s, d, v)
  {
    hide ProvidesHashes, ListedNames;
    var a := AnswerThrough(p, s.blobs, s.rows[RowId(d, v)]);
    forall n, k | n in ListedNames(p.keys) && k in s.blobs && p.KeyFor(n) == KeyString(k) ensures FileAnswer(a, n) == Success(s.blobs[k]) {
      KeyParts(k.doc, k.name, k.hash);
      assert ParseKey(KeyString(k)) == k;
    }
    assert AnsweredBy(a, s, d, v, p);
  }

  /** The answers about all versions, where version v is answered through p. */
  ghost function AnswersThrough(s: Stores, d: Id, v: VersionTime, p: FileProvider): map<VersionTime, VersionAnswer>
    requires NamesStored(s.blobs)
  {
    map w | w in Versions(s.rows, d) && RowId(d, w) in s.rows ::
      AnswerThrough(if w == v then p else SomeProvider(s.blobs, d, s.rows[RowId(d, w)]), s.blobs, s.rows[RowId(d, w)])
  }

  lemma AllAreAnswered(s: Stores, d: Id, v: VersionTime, p: FileProvider, versions: seq<VersionTime>)
    requires NamesStored(s.blobs) && RowId(d, v) in s.rows && ProvidesHashes(p, s.blobs, d, HashesIn(s.rows[RowId(d, v)]))
    requires forall w :: w in versions <==> w in Versions(s.rows, d)
    ensures AllAnswered(versions, AnswersThrough(s, d, v, p), s, d)
  {
    hide ProvidesHashes, Answered, AnswerThrough, NamesStored;
    forall w | w in versions ensures w in AnswersThrough(s, d, v, p) && Answered(AnswersThrough(s, d, v, p)[w], s, d, w) {
      assert RowId(d, w) in s.rows;
      ThroughIsAnswered(if w == v then p else SomeProvider(s.blobs, d, s.rows[RowId(d, w)]), s, d, w);
    }
  }

  /** A stray under a name that its version does not have is listed in every order, and the read refuses it. */
  lemma ForeignNameIsFatal(s: Stores, d: Id, v: VersionTime, k: BlobKey, companyID: Id,
                           versions: seq<VersionTime>, answers: map<VersionTime, VersionAnswer>)
    requires RowId(d, v) in s.rows && k in s.blobs && Stray(d, s.rows[RowId(d, v)], k) && k.name !in s.rows[RowId(d, v)].files
    requires AllAnswered(versions, answers, s, d)
    ensures !SourceOf(companyID, versions, answers).Readable()
  {
    var info := s.rows[RowId(d, v)];
    assert v in Versions(s.rows, d);
    var a := answers[v];
    var p :| AnsweredBy(a, s, d, v, p);
    ProvidedBlob(p, s.blobs, d, info, k);
    ListedFrom(p.keys, k.name);
    assert k.name in a.listing.value;
    assert !SourceOf(companyID, versions, answers).FileAgrees(v, k.name);
  }

  /** A key that comes first is the one that is read for its name. */
  lemma FirstIsRead(p: FileProvider, s: Stores, d: Id, info: VersionInfo, k: BlobKey)
    requires ProvidesHashes(p, s.blobs, d, HashesIn(info)) && p.keys != [] && p.keys[0] == KeyString(k)
    requires k in s.blobs && Stray(d, info, k)
    ensures k.name in ListedNames(p.keys)
    ensures ReadThrough(p, s.blobs, k.name) == Success(s.blobs[k])
  {
    ProvidedBlob(p, s.blobs, d, info, k);
    ListedFrom(p.keys, k.name);
    hide ProvidesHashes, KeyString, ParseKey, FilenameFromKey, ListedNames;
    assert p.keys[0] in p.keys;
  }

  /** A stray under a name that its version has for another content is read in its place when it is listed first. */
  lemma WrongContentIsFatal(s: Stores, d: Id, v: VersionTime, k: BlobKey, p: FileProvider, companyID: Id,
                            versions: seq<VersionTime>, answers: map<VersionTime, VersionAnswer>)
    requires ConsistentAt(s, d)
    requires RowId(d, v) in s.rows && k in s.blobs && Stray(d, s.rows[RowId(d, v)], k) && k.name in s.rows[RowId(d, v)].files
    requires ProvidesHashes(p, s.blobs, d, HashesIn(s.rows[RowId(d, v)])) && p.keys != [] && p.keys[0] == KeyString(k)
    requires v in versions && v in answers && answers[v] == AnswerThrough(p, s.blobs, s.rows[RowId(d, v)])
    ensures !SourceOf(companyID, versions, answers).Readable()
  {
    FirstIsRead(p, s, d, s.rows[RowId(d, v)], k);
    hide ProvidesHashes, KeyString, ListedNames, ReadThrough;
    var src := SourceOf(companyID, versions, answers);
    assert src.file(v, k.name) == Success(s.blobs[k]);
    assert ContentHash(s.blobs[k]) == k.hash;
    assert !src.FileAgrees(v, k.name);
    assert !src.VersionAgrees(v);
  }

  lemma StraySpoilsSomeRead(s: Stores, d: Id, v: VersionTime, k: BlobKey, companyID: Id, versions: seq<VersionTime>)
    returns (answers: map<VersionTime, VersionAnswer>)
    requires NamesStored(s.blobs) && ConsistentAt(s, d)
    requires RowId(d, v) in s.rows && k in s.blobs && Stray(d, s.rows[RowId(d, v)], k)
    requires forall w :: w in versions <==> w in Versions(s.rows, d)
    ensures AllAnswered(versions, answers, s, d) && !SourceOf(companyID, versions, answers).Readable()
  {
    var info := s.rows[RowId(d, v)];
    var p := ProviderStartingWith(s.blobs, d, info, k);
    assert v in Versions(s.rows, d);
    answers := AnswersThrough(s, d, v, p);
    AllAreAnswered(s, d, v, p, versions);
    hide ProvidesHashes, KeyString, NamesStored, AllAnswered, AnswerThrough, Source.Readable, ConsistentAt;
    if k.name !in info.files {
      ForeignNameIsFatal(s, d, v, k, companyID, versions, answers);
    } else {
      WrongContentIsFatal(s, d, v, k, p, companyID, versions, answers);
    }
  }

  // ------------------------------------------------ reading without any stray

  ghost predicate NoStrays(s: Stores, d: Id) {
    forall v :: RowId(d, v) in s.rows ==> NoStray(s.blobs, d, s.rows[RowId(d, v)])
  }

  /** Without strays the answers agree with the version in both directions. */
  lemma AnswersAgree(a: VersionAnswer, s: Stores, d: Id, v: VersionTime)
    requires Consistent(s) && Answered(a, s, d, v)
    requires RowId(d, v) in s.rows && NoStray(s.blobs, d, s.rows[RowId(d, v)])
    ensures a.info == Success(s.rows[RowId(d, v)]) && a.listing.Success?
    ensures forall n :: n in a.listing.value <==> n in s.rows[RowId(d, v)].files
    ensures forall n :: n in s.rows[RowId(d, v)].files ==>
      && KeyOf(d, s.rows[RowId(d, v)].files[n]) in s.blobs
      && FileAnswer(a, n) == Success(s.blobs[KeyOf(d, s.rows[RowId(d, v)].files[n])])
      && ContentHash(s.blobs[KeyOf(d, s.rows[RowId(d, v)].files[n])]) == s.rows[RowId(d, v)].files[n].hash
  {
    var k := RowId(d, v);
    var info := s.rows[k];
    var p :| AnsweredBy(a, s, d, v, p);
    assert RowWellFormed(k, info) && RowBacked(d, info, s.blobs);
    ListingIsExactIffNoStray(p, s.blobs, d, info);
    assert Addressed(s.blobs);
    hide ProvidesHashes, ListedNames, KeyString, NoStray, Consistent;
    forall n | n in info.files ensures KeyOf(d, info.files[n]) in s.blobs && FileAnswer(a, n) == Success(s.blobs[KeyOf(d, info.files[n])]) {
      ProviderReadsTheVersion(p, s.blobs, d, info, n);
    }
  }

  /** A file whose content has the recorded hash also has the recorded size. */
  lemma HonestSize(f: FileInfo, b: Bytes)
    requires CollisionFree() && Honest(f) && ContentHash(b) == f.hash
    ensures |b| == f.size
  {
    var own: Bytes :| |own| == f.size && ContentHash(own) == f.hash;
    assert own == b;
  }

  lemma EveryAnswerIsReadable(states: seq<Stores>, events: seq<Event>, i: nat, d: Id,
                              companyID: Id, versions: seq<VersionTime>, answers: map<VersionTime, VersionAnswer>)
    requires CollisionFree()
    requires Run(states, events) && i < |states|
    requires forall e :: e in events ==> Compensated(e)
    requires NoStrays(states[i], d) && AllAnswered(versions, answers, states[i], d)
    ensures SourceOf(companyID, versions, answers).Readable()
  {
    var s := states[i];
    var src := SourceOf(companyID, versions, answers);
    NothingDangles(states, events, i);
    RunIsHonest(states, events, i);
    hide Run, Compensated, CollisionFree;
    forall v | v in versions ensures src.VersionAgrees(v) {
      assert RowId(d, v) in s.rows;
      AnsweredVersionAgrees(s, d, versions, answers, companyID, v);
    }
  }

  lemma ExactAnswersAgree(src: Source, v: VersionTime, info: VersionInfo)
    requires CollisionFree() && HonestFiles(info.files)
    requires src.info(v) == Success(info) && src.listing(v).Success?
    requires forall n :: n in src.listing(v).value <==> n in info.files
    requires forall n :: n in info.files ==> src.file(v, n).Success? && ContentHash(src.file(v, n).value) == info.files[n].hash
    ensures src.VersionAgrees(v)
  {
    hide CollisionFree, Honest;
    forall n | n in info.files ensures src.FileAgrees(v, n) {
      HonestSize(info.files[n], src.file(v, n).value);
    }
  }

  lemma AnsweredVersionAgrees(s: Stores, d: Id, versions: seq<VersionTime>, answers: map<VersionTime, VersionAnswer>, companyID: Id, v: VersionTime)
    requires CollisionFree() && Consistent(s) && HonestRows(s.rows)
    requires v in answers && Answered(answers[v], s, d, v) && RowId(d, v) in s.rows && NoStray(s.blobs, d, s.rows[RowId(d, v)])
    ensures SourceOf(companyID, versions, answers).VersionAgrees(v)
  {
    assert HonestFiles(s.rows[RowId(d, v)].files);
    hide CollisionFree, Answered, NoStray, Consistent, HonestRows, HonestFiles, Source.VersionAgrees;
    AnswersAgree(answers[v], s, d, v);
    ExactAnswersAgree(SourceOf(companyID, versions, answers), v, s.rows[RowId(d, v)]);
  }

  /**
   A document of any run can be read whole from a connection whose calls do not
   fail, in whatever order the store lists its objects, exactly when no stored
   file of it pairs a hash of a version with a name that does not have it there.
   */
  lemma ReadableIffNoStrays(states: seq<Stores>, events: seq<Event>, i: nat, d: Id, companyID: Id, versions: seq<VersionTime>)
    requires CollisionFree()
    requires Run(states, events) && i < |states|
    requires forall e :: e in events ==> Compensated(e)
    requires NamesStored(states[i].blobs) && forall v :: v in versions <==> v in Versions(states[i].rows, d)
    ensures NoStrays(states[i], d) <==>
      forall answers :: AllAnswered(versions, answers, states[i], d) ==> SourceOf(companyID, versions, answers).Readable()
  {
    var s := states[i];
    NothingDangles(states, events, i);
    ConsistentEverywhere(s);
    hide Run, Compensated, CollisionFree, Consistent, ConsistentAt, AllAnswered, Source.Readable, NamesStored, NoStray;
    if NoStrays(s, d) {
      forall answers | AllAnswered(versions, answers, s, d) ensures SourceOf(companyID, versions, answers).Readable() {
        EveryAnswerIsReadable(states, events, i, d, companyID, versions, answers);
      }
    } else {
      var v :| RowId(d, v) in s.rows && !NoStray(s.blobs, d, s.rows[RowId(d, v)]);
      var k := StrayExists(s.blobs, d, s.rows[RowId(d, v)]);
      var answers := StraySpoilsSomeRead(s, d, v, k, companyID, versions);
    }
  }

  lemma StrayExists(blobs: Blobs, d: Id, info: VersionInfo) returns (k: BlobKey)
    requires !NoStray(blobs, d, info)
    ensures k in blobs && Stray(d, info, k)
  {
    k :| k in blobs && Stray(d, info, k);
  }
}
