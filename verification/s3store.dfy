/** The document store on a bucket of objects, and file providers over its keys. */
module S3Store {
  import opened Documents
  import opened Ordering
  import opened SplitStore
  import opened S3Keys

  /** Both a page of a listing and a batch of deletes hold at most this many keys. */
  const MAX_KEYS_PER_REQUEST: nat := 1000

  function Members(keys: seq<string>): set<string> {
    set k | k in keys
  }

  function HashSet(hashes: seq<Hash>): set<string> {
    set h | h in hashes
  }

  function Concat(batches: seq<seq<string>>): seq<string> {
    if batches == [] then [] else Concat(batches[..|batches| - 1]) + batches[|batches| - 1]
  }

  /** The keys whose hash component is listed, in their order. */
  function KeysWithHash(keys: seq<string>, hashes: set<string>): seq<string> {
    if keys == [] then []
    else
      var last := keys[|keys| - 1];
      KeysWithHash(keys[..|keys| - 1], hashes) + (if HashFromKey(last) in hashes then [last] else [])
  }

  lemma {:induction false} KeysWithHashMembers(keys: seq<string>, hashes: set<string>)
    ensures forall k :: k in KeysWithHash(keys, hashes) <==> k in keys && HashFromKey(k) in hashes
    ensures NoDuplicates(keys) ==> NoDuplicates(KeysWithHash(keys, hashes))
  {
    if keys != [] {
      var n := |keys| - 1;
      KeysWithHashMembers(keys[..n], hashes);
      assert keys == keys[..n] + [keys[n]];
    }
  }

  method FilterKeysByHash(keys: seq<string>, hashes: seq<Hash>) returns (matched: seq<string>)
    ensures matched == KeysWithHash(keys, HashSet(hashes))
  {
    var hashSet: set<string> := {};
    for i := 0 to |hashes|
      invariant forall h :: h in hashSet <==> h in hashes[..i]
    {
      hashSet := hashSet + {hashes[i]};
    }
    assert hashSet == HashSet(hashes);
    matched := [];
    for i := 0 to |keys|
      invariant matched == KeysWithHash(keys[..i], hashSet)
    {
      assert keys[..i + 1][..i] == keys[..i];
      if HashFromKey(keys[i]) in hashSet {
        matched := matched + [keys[i]];
      }
    }
    assert keys[..|keys|] == keys;
  }

  /** A provider is a document and a list of keys. */
  datatype FileProvider = FileProvider(docID: Id, keys: seq<string>)
  {
    /** The first key with the file name, or "". */
    function KeyFor(filename: Name): (key: string)
      ensures key == "" || (key in keys && FilenameFromKey(key) == filename)
      ensures key == "" && "" !in keys ==> forall k :: k in keys ==> FilenameFromKey(k) != filename
    {
      FirstNamed(keys, filename)
    }
  }

  function FirstNamed(keys: seq<string>, filename: Name): (key: string)
    ensures key == "" || (key in keys && FilenameFromKey(key) == filename)
    ensures key == "" && "" !in keys ==> forall k :: k in keys ==> FilenameFromKey(k) != filename
  {
    if keys == [] then ""
    else if FilenameFromKey(keys[0]) == filename then keys[0]
    else
      assert keys == [keys[0]] + keys[1..];
      FirstNamed(keys[1..], filename)
  }

  method HasFile(p: FileProvider, filename: Name) returns (has: bool)
    ensures has <==> exists k :: k in p.keys && FilenameFromKey(k) == filename
  {
    for i := 0 to |p.keys|
      invariant forall j :: 0 <= j < i ==> FilenameFromKey(p.keys[j]) != filename
    {
      if FilenameFromKey(p.keys[i]) == filename {
        return true;
      }
    }
    return false;
  }

  /** The file names of the keys in their order, leaving out keys without one. */
  function ListedNames(keys: seq<string>): seq<Name> {
    if keys == [] then []
    else
      var last := FilenameFromKey(keys[|keys| - 1]);
      ListedNames(keys[..|keys| - 1]) + (if last != "" then [last] else [])
  }

  method ListFiles(p: FileProvider) returns (filenames: seq<Name>)
    ensures filenames == ListedNames(p.keys)
  {
    filenames := [];
    for i := 0 to |p.keys|
      invariant filenames == ListedNames(p.keys[..i])
    {
      assert p.keys[..i + 1][..i] == p.keys[..i];
      if FilenameFromKey(p.keys[i]) != "" {
        filenames := filenames + [FilenameFromKey(p.keys[i])];
      }
    }
    assert p.keys[..|p.keys|] == p.keys;
  }

  method FindKey(p: FileProvider, filename: Name) returns (key: string)
    ensures key == p.KeyFor(filename)
  {
    var i := 0;
    while i < |p.keys|
      invariant i <= |p.keys|
      invariant FirstNamed(p.keys, filename) == FirstNamed(p.keys[i..], filename)
    {
      if FilenameFromKey(p.keys[i]) == filename {
        return p.keys[i];
      }
      assert p.keys[i..][1..] == p.keys[i + 1..];
      i := i + 1;
    }
    return "";
  }

  class DocStore {
    /** The bucket. */
    var objects: map<string, Bytes>

    /** No request to the service ever fails. */
    const reliable: bool

    ghost predicate Valid()
      reads this
    {
      WellKeyed(objects)
    }

    ghost function Blobs(): Blobs
      requires Valid()
      reads this
    {
      Decode(objects)
    }

    constructor (reliable: bool)
      ensures Valid() && Blobs() == map[] && this.reliable == reliable
    {
      objects := map[];
      this.reliable := reliable;
    }

    /** One request to the service. */
    method Request() returns (ok: bool)
      ensures reliable ==> ok
    {
      ok := *;
      ok := ok || reliable;
    }

    /** The service answers with some of the keys not listed yet, or fails. */
    method NextPage(remaining: set<string>) returns (ok: bool, page: seq<string>)
      ensures reliable ==> ok
      ensures ok ==> NoDuplicates(page) && Members(page) <= remaining && |page| <= MAX_KEYS_PER_REQUEST
      ensures ok && remaining != {} ==> page != []
    {
      ok := Request();
      page := [];
      var left := remaining;
      var more := true;
      while left != {} && more && |page| < MAX_KEYS_PER_REQUEST
        invariant left <= remaining && Members(page) == remaining - left
        invariant NoDuplicates(page) && |page| <= MAX_KEYS_PER_REQUEST
        invariant page == [] ==> more && left == remaining
      {
        var key :| key in left;
        assert Members(page + [key]) == Members(page) + {key};
        page := page + [key];
        left := left - {key};
        more := *;
      }
    }

    method ListObjectKeys(prefix: string) returns (r: Result<seq<string>, Error>)
      ensures r.Success? ==> NoDuplicates(r.value) && forall s :: s in r.value <==> s in objects && HasPrefix(s, prefix)
      ensures reliable ==> r.Success?
    {
      var keys: seq<string> := [];
      var remaining := set s | s in objects && HasPrefix(s, prefix);
      ghost var all := remaining;
      while remaining != {}
        invariant remaining <= all && Members(keys) == all - remaining
        invariant NoDuplicates(keys)
      {
        var ok, page := NextPage(remaining);
        if !ok {
          return Failure(Unavailable);
        }
        forall i, j | 0 <= i < |keys| && 0 <= j < |page| ensures keys[i] != page[j] {
          assert keys[i] in Members(keys) && page[j] in Members(page);
        }
        assert page[0] in Members(page);
        assert Members(keys + page) == Members(keys) + Members(page);
        keys := keys + page;
        remaining := remaining - Members(page);
      }
      assert forall s :: s in keys <==> s in Members(keys);
      return Success(keys);
    }

    /** One DeleteObjects request. A failing one may have deleted some of the keys. */
    method DeleteObjectBatch(keys: seq<string>) returns (ok: bool)
      requires |keys| <= MAX_KEYS_PER_REQUEST
      modifies this
      ensures ok ==> objects == old(objects) - Members(keys)
      ensures forall s :: s in objects ==> s in old(objects) && objects[s] == old(objects)[s]
      ensures forall s :: s in old(objects) && s !in keys ==> s in objects
      ensures reliable ==> ok
    {
      ok := Request();
      if ok {
        objects := objects - Members(keys);
        return;
      }
      for i := 0 to |keys|
        invariant forall s :: s in objects ==> s in old(objects) && objects[s] == old(objects)[s]
        invariant forall s :: s in old(objects) && s !in keys ==> s in objects
      {
        var gone: bool := *;
        if gone {
          objects := objects - {keys[i]};
        }
      }
    }

    /** Deletes the keys in batches; batches are those that were sent. */
    method DeleteObjectKeys(keys: seq<string>) returns (ok: bool, batches: seq<seq<string>>)
      modifies this
      ensures forall b :: b in batches ==> 0 < |b| <= MAX_KEYS_PER_REQUEST
      ensures Concat(batches) <= keys
      ensures ok ==> Concat(batches) == keys
      ensures reliable ==> ok
      ensures ok ==> objects == old(objects) - Members(keys)
      ensures forall s :: s in objects ==> s in old(objects) && objects[s] == old(objects)[s]
      ensures forall s :: s in old(objects) && s !in keys ==> s in objects
    {
      batches := [];
      var start := 0;
      while start < |keys|
        invariant 0 <= start <= |keys|
        invariant forall b :: b in batches ==> 0 < |b| <= MAX_KEYS_PER_REQUEST
        invariant Concat(batches) == keys[..start]
        invariant objects == old(objects) - Members(keys[..start])
      {
        var end := if start + MAX_KEYS_PER_REQUEST < |keys| then start + MAX_KEYS_PER_REQUEST else |keys|;
        var batch := keys[start..end];
        assert (batches + [batch])[..|batches|] == batches;
        assert keys[..end] == keys[..start] + batch;
        assert Members(keys[..end]) == Members(keys[..start]) + Members(batch);
        batches := batches + [batch];
        ok := DeleteObjectBatch(batch);
        if !ok {
          return;
        }
        start := end;
      }
      assert keys[..start] == keys;
      ok := true;
    }

    /** Lists and deletes page by page. */
    method DeletePrefix(prefix: string) returns (ok: bool, deleted: nat)
      modifies this
      ensures ok ==> objects == map s | s in old(objects) && !HasPrefix(s, prefix) :: old(objects)[s]
      ensures ok ==> (deleted == 0 <==> objects == old(objects))
      ensures reliable ==> ok
      ensures forall s :: s in objects ==> s in old(objects) && objects[s] == old(objects)[s]
      ensures forall s :: s in old(objects) && !HasPrefix(s, prefix) ==> s in objects
    {
      deleted := 0;
      var remaining := set s | s in objects && HasPrefix(s, prefix);
      ghost var all := remaining;
      while remaining != {}
        invariant remaining <= all
        invariant objects == old(objects) - (all - remaining)
        invariant deleted == 0 <==> remaining == all
      {
        var page;
        ok, page := NextPage(remaining);
        if !ok {
          return;
        }
        assert page[0] in Members(page);
        assert forall s :: s in page ==> s in Members(page);
        ok := DeleteObjectBatch(page);
        if !ok {
          return;
        }
        deleted := deleted + |page|;
        remaining := remaining - Members(page);
      }
      ok := true;
      if deleted > 0 {
        assert all != {};
        ghost var s :| s in all;
        assert s in old(objects) && s !in objects;
      }
    }

    method DocumentExists(d: Id) returns (r: Result<bool, Error>)
      requires Valid()
      ensures r.Success? ==> (r.value <==> HasBlobs(Blobs(), d))
      ensures r.Failure? ==> r.error == Unavailable && !reliable
    {
      var available := Request();
      if !available {
        return Failure(Unavailable);
      }
      DocumentObjects(d);
      return Success(exists s :: s in objects && HasPrefix(s, d + "/"));
    }

    /** The objects under the prefix of d are its blobs. */
    lemma DocumentObjects(d: Id)
      requires Valid()
      ensures forall s :: s in objects && HasPrefix(s, d + "/") ==> ParseKey(s) in Blobs() && ParseKey(s).doc == d
      ensures forall k :: k in Blobs() && k.doc == d ==> KeyString(k) in objects && HasPrefix(KeyString(k), d + "/")
      ensures (exists s :: s in objects && HasPrefix(s, d + "/")) <==> HasBlobs(Blobs(), d)
    {
      forall s | s in objects && HasPrefix(s, d + "/") ensures ParseKey(s) in Blobs() && ParseKey(s).doc == d {
        PrefixSelectsDocument(d, ParseKey(s));
      }
      forall k | k in Blobs() && k.doc == d ensures KeyString(k) in objects && HasPrefix(KeyString(k), d + "/") {
        DecodeAt(objects, k);
        PrefixSelectsDocument(d, k);
      }
    }

    /** Writes one object a file; a failure leaves those before it written. */
    method CreateDocumentVersion(d: Id, version: VersionTime, files: seq<File>) returns (r: Result<seq<FileInfo>, Error>)
      requires Valid()
      modifies this
      ensures Valid()
      ensures r.Success? ==> r.value == InfosOf(files) && Blobs() == PutAll(old(Blobs()), d, files)
      ensures r.Success? ==> AllSlashFree(files)
      ensures r.Failure? ==> exists n :: 0 <= n <= |files| && Blobs() == PutAll(old(Blobs()), d, files[..n])
      ensures r.Failure? ==> (r.error == InvalidInput && !AllSlashFree(files)) || (r.error == Unavailable && !reliable)
    {
      var infos: seq<FileInfo> := [];
      for i := 0 to |files|
        invariant Valid()
        invariant infos == InfosOf(files[..i])
        invariant Blobs() == PutAll(old(Blobs()), d, files[..i])
        invariant forall j :: 0 <= j < i ==> SlashFree(files[j].name)
      {
        var file := files[i];
        assert files[..i + 1][..i] == files[..i];
        if !SlashFree(file.name) {
          return Failure(InvalidInput);
        }
        var available := Request();
        if !available {
          return Failure(Unavailable);
        }
        var hash := ContentHash(file.data);
        DecodePut(objects, KeyOf(d, InfoOf(file)), file.data);
        objects := objects[Key(d, file.name, hash) := file.data];
        infos := infos + [FileInfo(file.name, |file.data|, hash)];
      }
      assert files[..|files|] == files;
      return Success(infos);
    }

    method ReadDocumentHashFile(d: Id, filename: Name, hash: Hash) returns (r: Result<Bytes, Error>)
      requires Valid()
      ensures r.Success? ==> BlobKey(d, filename, hash) in Blobs() && r.value == Blobs()[BlobKey(d, filename, hash)]
      ensures r == Failure(FileNotFound) ==> BlobKey(d, filename, hash) !in Blobs()
      ensures r.Failure? ==> r.error == FileNotFound || (r.error == Unavailable && !reliable)
    {
      var available := Request();
      if !available {
        return Failure(Unavailable);
      }
      DecodeAt(objects, BlobKey(d, filename, hash));
      var key := Key(d, filename, hash);
      if key !in objects {
        return Failure(FileNotFound);
      }
      if !SlashFree(filename) {
        MisnamedKeyIsAbsent(d, filename, hash);
      }
      return Success(objects[key]);
    }

    /** Reads the first key of the provider that has the file name, whatever its hash. */
    method ReadFile(p: FileProvider, filename: Name) returns (r: Result<Bytes, Error>)
      requires Valid()
      ensures r.Success? ==> p.KeyFor(filename) in objects && r.value == objects[p.KeyFor(filename)]
      ensures r == Failure(FileNotFound) ==> p.KeyFor(filename) == "" || p.KeyFor(filename) !in objects
      ensures forall k :: k in Blobs() && p.KeyFor(filename) == KeyString(k) ==> r == Success(Blobs()[k]) || (r == Failure(Unavailable) && !reliable)
    {
      var key := FindKey(p, filename);
      var available := Request();
      forall k | k in Blobs() && key == KeyString(k) ensures key in objects && objects[key] == Blobs()[k] && key != "" {
        DecodeAt(objects, k);
        assert '/' in KeyString(k);
      }
      if key == "" || (available && key !in objects) {
        return Failure(FileNotFound);
      }
      return if available then Success(objects[key]) else Failure(Unavailable);
    }

    /** No object has a key built from a file name with a slash. */
    lemma MisnamedKeyIsAbsent(d: Id, filename: Name, hash: Hash)
      requires Valid() && !SlashFree(filename)
      ensures Key(d, filename, hash) !in objects
    {
      TooManyParts(d, filename, hash);
    }

    method DeleteDocument(d: Id) returns (r: Result<(), Error>)
      requires Valid()
      modifies this
      ensures Valid()
      ensures r.Success? ==> HasBlobs(old(Blobs()), d) && Blobs() == BlobsWithout(old(Blobs()), d)
      ensures r == Failure(NotFound) ==> !HasBlobs(old(Blobs()), d) && Blobs() == old(Blobs())
      ensures r.Failure? ==> Shrunk(old(Blobs()), Blobs(), d) && (r.error == NotFound || (r.error == Unavailable && !reliable))
    {
      hide HasPrefix, KeyString, ParseKey, Decode, WellKeyed;
      ghost var before := objects;
      DocumentObjects(d);
      var ok, deleted := DeletePrefix(d + "/");
      PrefixRemoved(before, objects, d);
      if !ok {
        return Failure(Unavailable);
      }
      if deleted == 0 {
        return Failure(NotFound);
      }
      return Success(());
    }

    method DeleteDocumentHashes(d: Id, hashes: seq<Hash>) returns (r: Result<(), Error>)
      requires Valid()
      modifies this
      ensures Valid()
      ensures r.Success? ==> HasBlobs(old(Blobs()), d) && Blobs() == Purged(old(Blobs()), d, set h | h in hashes)
      ensures r == Failure(NotFound) ==> !HasBlobs(old(Blobs()), d) && Blobs() == old(Blobs())
      ensures forall k :: k in Blobs() ==> k in old(Blobs()) && Blobs()[k] == old(Blobs())[k]
      ensures forall k :: k in old(Blobs()) && !(k.doc == d && k.hash in hashes) ==> k in Blobs()
      ensures r.Failure? ==> r.error == NotFound || (r.error == Unavailable && !reliable)
    {
      hide HasPrefix, KeyString, ParseKey, Decode, WellKeyed, Selects, Purged, KeysWithHash, HashSet;
      ghost var before := objects;
      var keys := ListObjectKeys(d + "/");
      if keys.Failure? {
        return Failure(Unavailable);
      }
      NoKeysNoBlobs(d, keys.value);
      hide HasBlobs;
      if |keys.value| == 0 {
        return Failure(NotFound);
      }
      var objectsToDelete := FilterKeysByHash(keys.value, hashes);
      SelectedObjects(before, d, keys.value, hashes);
      if |objectsToDelete| == 0 {
        SelectionPurged(before, objects, d, objectsToDelete, hashes);
        return Success(());
      }
      var ok, batches := DeleteObjectKeys(objectsToDelete);
      SelectionPurged(before, objects, d, objectsToDelete, hashes);
      if !ok {
        return Failure(Unavailable);
      }
      return Success(());
    }

    lemma NoKeysNoBlobs(d: Id, keys: seq<string>)
      requires Valid() && forall s :: s in keys <==> s in objects && HasPrefix(s, d + "/")
      ensures keys == [] <==> !HasBlobs(Blobs(), d)
    {
      hide HasPrefix, KeyString, ParseKey, Decode, WellKeyed, HasBlobs;
      DocumentObjects(d);
      assert keys != [] ==> keys[0] in keys;
    }

    /** The keys of a document filtered by the hashes of a version. */
    method DocumentHashFileProvider(d: Id, hashes: seq<Hash>) returns (r: Result<FileProvider, Error>)
      requires Valid()
      ensures r.Success? ==> ProvidesHashes(r.value, Blobs(), d, set h | h in hashes)
      ensures r.Failure? ==> r.error == Unavailable && !reliable
    {
      if |hashes| == 0 {
        return Success(FileProvider(d, []));
      }
      var allKeys := ListObjectKeys(d + "/");
      if allKeys.Failure? {
        return Failure(Unavailable);
      }
      var keys := FilterKeysByHash(allKeys.value, hashes);
      SelectedObjects(objects, d, allKeys.value, hashes);
      return Success(FileProvider(d, keys));
    }
  }

  /** The provider's keys are those of the blobs of d with one of the hashes, each once. */
  ghost predicate ProvidesHashes(p: FileProvider, blobs: Blobs, d: Id, hashes: set<Hash>) {
    && p.docID == d
    && NoDuplicates(p.keys)
    && (forall s :: s in p.keys ==> |Split(s)| == 3 && KeyString(ParseKey(s)) == s)
    && (forall s :: s in p.keys ==> ParseKey(s) in blobs && ParseKey(s).doc == d && ParseKey(s).hash in hashes)
    && (forall k :: k in blobs && k.doc == d && k.hash in hashes ==> KeyString(k) in p.keys)
  }

  lemma {:induction false} SplitCounts(a: string, b: string)
    ensures |Split(a + "/" + b)| == |Split(a)| + |Split(b)|
  {
    var s := a + "/" + b;
    if a == [] {
      assert s == "/" + b;
      assert s[1..] == b;
    } else {
      SplitCounts(a[1..], b);
      assert s[1..] == a[1..] + "/" + b;
      assert s[0] == a[0];
    }
  }

  lemma {:induction false} SlashSplits(a: string)
    requires !SlashFree(a)
    ensures |Split(a)| >= 2
  {
    if a[0] != '/' {
      SlashSplits(a[1..]);
    }
  }

  lemma TooManyParts(d: Id, filename: Name, hash: Hash)
    requires !SlashFree(filename)
    ensures |Split(Key(d, filename, hash))| > 3
  {
    SplitCounts(d + "/" + filename, hash);
    SplitCounts(d, filename);
    SlashSplits(filename);
  }

  /** Removing objects removes the blobs they are. */
  lemma ObjectsRemoved(before: map<string, Bytes>, after: map<string, Bytes>)
    requires WellKeyed(before)
    requires forall s :: s in after ==> s in before && after[s] == before[s]
    ensures WellKeyed(after)
    ensures forall k :: k in Decode(after) <==> k in Decode(before) && KeyString(k) in after
    ensures forall k :: k in Decode(after) ==> Decode(after)[k] == Decode(before)[k]
  {
    forall k
      ensures k in Decode(after) <==> k in Decode(before) && KeyString(k) in after
      ensures k in Decode(after) ==> Decode(after)[k] == Decode(before)[k]
    {
      DecodeAt(before, k);
      DecodeAt(after, k);
    }
  }

  /** Objects that go from under the prefix of d are blobs of d. */
  lemma PrefixRemoved(before: map<string, Bytes>, after: map<string, Bytes>, d: Id)
    requires WellKeyed(before)
    requires forall s :: s in after ==> s in before && after[s] == before[s]
    requires forall s :: s in before && !HasPrefix(s, d + "/") ==> s in after
    ensures WellKeyed(after)
    ensures Shrunk(Decode(before), Decode(after), d)
    ensures (forall s :: s in after ==> !HasPrefix(s, d + "/")) ==> Decode(after) == BlobsWithout(Decode(before), d)
  {
    ObjectsRemoved(before, after);
    hide HasPrefix, KeyString, ParseKey, Decode, WellKeyed, BlobsWithout, Shrunk;
    var prefix := d + "/";
    forall k | k in Decode(before) ensures KeyString(k) in before && (HasPrefix(KeyString(k), prefix) <==> k.doc == d) {
      DecodeAt(before, k);
      PrefixSelectsDocument(d, k);
    }
    var a, b := Decode(before), Decode(after);
    assert forall k :: k in b ==> k in a && b[k] == a[k];
    assert forall k :: k in a && k.doc != d ==> k in b;
    BlobsShrink(a, b, d);
  }

  /** Nothing but blobs of d is gone; where all of them are, what is left is the rest. */
  lemma BlobsShrink(a: Blobs, b: Blobs, d: Id)
    requires forall k :: k in b ==> k in a && b[k] == a[k]
    requires forall k :: k in a && k.doc != d ==> k in b
    ensures Shrunk(a, b, d)
    ensures (forall k :: k in b ==> k.doc != d) ==> b == BlobsWithout(a, d)
  {
  }

  ghost predicate Selects(objects: map<string, Bytes>, d: Id, selected: seq<string>, hashes: seq<Hash>)
    requires WellKeyed(objects)
  {
    && NoDuplicates(selected)
    && (forall s :: s in selected ==> s in objects && ParseKey(s) in Decode(objects) && ParseKey(s).doc == d && ParseKey(s).hash in hashes)
    && (forall k :: k in Decode(objects) ==> (KeyString(k) in selected <==> k.doc == d && k.hash in hashes))
  }

  /** Deleting the selected objects purges the blobs with the hashes; deleting only some of them purges no more. */
  lemma SelectionPurged(before: map<string, Bytes>, after: map<string, Bytes>, d: Id, selected: seq<string>, hashes: seq<Hash>)
    requires WellKeyed(before) && Selects(before, d, selected, hashes)
    requires forall s :: s in after ==> s in before && after[s] == before[s]
    requires forall s :: s in before && s !in selected ==> s in after
    ensures WellKeyed(after)
    ensures after == before - Members(selected) ==> Decode(after) == Purged(Decode(before), d, set h | h in hashes)
    ensures forall k :: k in Decode(after) ==> k in Decode(before) && Decode(after)[k] == Decode(before)[k]
    ensures forall k :: k in Decode(before) && !(k.doc == d && k.hash in hashes) ==> k in Decode(after)
  {
    ObjectsRemoved(before, after);
    forall k | k in Decode(before) ensures KeyString(k) in before {
      DecodeAt(before, k);
    }
    hide WellKeyed, Decode, KeyString, ParseKey, Purged;
    if after == before - Members(selected) {
      forall k | k in Decode(before) ensures k in Decode(after) <==> !(k.doc == d && k.hash in hashes) {
      }
      PurgedExactly(Decode(before), Decode(after), d, hashes);
    }
  }

  lemma PurgedExactly(a: Blobs, b: Blobs, d: Id, hashes: seq<Hash>)
    requires forall k :: k in b ==> k in a && b[k] == a[k]
    requires forall k :: k in a ==> (k in b <==> !(k.doc == d && k.hash in hashes))
    ensures b == Purged(a, d, set h | h in hashes)
  {
  }

  /** The keys selected under a document's prefix are those of its blobs with a listed hash. */
  lemma SelectedObjects(objects: map<string, Bytes>, d: Id, keys: seq<string>, hashes: seq<Hash>)
    requires WellKeyed(objects) && NoDuplicates(keys)
    requires forall s :: s in keys <==> s in objects && HasPrefix(s, d + "/")
    ensures Selects(objects, d, KeysWithHash(keys, HashSet(hashes)), hashes)
  {
    var hashSet := HashSet(hashes);
    var selected := KeysWithHash(keys, hashSet);
    KeysWithHashMembers(keys, hashSet);
    forall s | s in selected
      ensures s in objects && ParseKey(s) in Decode(objects) && ParseKey(s).doc == d && ParseKey(s).hash in hashes
    {
      PrefixSelectsDocument(d, ParseKey(s));
      assert HashFromKey(s) == ParseKey(s).hash;
    }
    forall k | k in Decode(objects) ensures KeyString(k) in selected <==> k.doc == d && k.hash in hashes {
      DecodeAt(objects, k);
      PrefixSelectsDocument(d, k);
      KeyIsInjective(k.doc, k.name, k.hash, k.doc, k.name, k.hash);
    }
  }
}
