/** The hash-filtered listing of a version against the version itself. */
module Providers {
  import opened Documents
  import opened Ordering
  import opened SplitStore
  import opened S3Keys
  import opened S3Store
  import opened StoreConn

  /** The version has the hash, but not under the name. */
  predicate Misnames(info: VersionInfo, n: Name, h: Hash) {
    RowHas(info, h) && !(n in info.files && info.files[n].hash == h)
  }

  /** A stored file of d that pairs a hash of the version with a name the version does not map to it. */
  predicate Stray(d: Id, info: VersionInfo, k: BlobKey) {
    k.doc == d && k.name != "" && Misnames(info, k.name, k.hash)
  }

  predicate NoStray(blobs: Blobs, d: Id, info: VersionInfo) {
    forall k :: k in blobs ==> !Stray(d, info, k)
  }

  /** The listing names each file of the version once and nothing else. */
  ghost predicate ListsExactly(keys: seq<string>, info: VersionInfo) {
    && NoDuplicates(ListedNames(keys))
    && forall n :: n in ListedNames(keys) <==> n in info.files
  }

  lemma {:induction false} ListedFrom(keys: seq<string>, n: Name)
    ensures n in ListedNames(keys) <==> n != "" && exists s :: s in keys && FilenameFromKey(s) == n
  {
    if keys != [] {
      var i := |keys| - 1;
      ListedFrom(keys[..i], n);
      assert keys == keys[..i] + [keys[i]];
    }
  }

  lemma {:induction false} DistinctListing(keys: seq<string>)
    requires forall i, j :: 0 <= i < j < |keys| && FilenameFromKey(keys[i]) != "" ==> FilenameFromKey(keys[i]) != FilenameFromKey(keys[j])
    ensures NoDuplicates(ListedNames(keys))
  {
    if keys != [] {
      var i := |keys| - 1;
      DistinctListing(keys[..i]);
      var last := FilenameFromKey(keys[i]);
      if last != "" {
        ListedFrom(keys[..i], last);
      }
    }
  }

  lemma {:induction false} RepeatedListing(keys: seq<string>, i: nat, j: nat)
    requires i < j < |keys| && FilenameFromKey(keys[i]) == FilenameFromKey(keys[j]) != ""
    ensures !NoDuplicates(ListedNames(keys))
  {
    var n := |keys| - 1;
    var head := ListedNames(keys[..n]);
    if j < n {
      RepeatedListing(keys[..n], i, j);
      var a, b :| 0 <= a < b < |head| && head[a] == head[b];
      var all := ListedNames(keys);
      assert all[a] == head[a] && all[b] == head[b];
    } else {
      ListedFrom(keys[..n], FilenameFromKey(keys[i]));
      assert keys[..n][i] in keys[..n];
      var a :| 0 <= a < |head| && head[a] == FilenameFromKey(keys[i]);
      var all := ListedNames(keys);
      assert all == head + [FilenameFromKey(keys[j])];
      assert all[a] == all[|head|];
    }
  }

  /** A key of the provider and the blob it stands for. */
  lemma ProvidedKey(p: FileProvider, blobs: Blobs, d: Id, info: VersionInfo, s: string)
    requires ProvidesHashes(p, blobs, d, HashesIn(info)) && s in p.keys
    ensures ParseKey(s) in blobs && ParseKey(s).doc == d && RowHas(info, ParseKey(s).hash)
    ensures FilenameFromKey(s) == ParseKey(s).name && KeyString(ParseKey(s)) == s
  {
    assert ParseKey(s).hash in HashesIn(info);
  }

  lemma ProvidedBlob(p: FileProvider, blobs: Blobs, d: Id, info: VersionInfo, k: BlobKey)
    requires ProvidesHashes(p, blobs, d, HashesIn(info)) && k in blobs && k.doc == d && RowHas(info, k.hash)
    ensures KeyString(k) in p.keys && ParseKey(KeyString(k)) == k && FilenameFromKey(KeyString(k)) == k.name
  {
    var n :| n in info.files && info.files[n].hash == k.hash;
    assert k.hash in HashesIn(info);
    if !SlashFree(k.name) {
      TooManyParts(k.doc, k.name, k.hash);
      assert false;
    }
    KeyParts(k.doc, k.name, k.hash);
  }

  /** Given no dangling reference, the provider has every file of its version. */
  lemma ProviderHasEveryFile(p: FileProvider, blobs: Blobs, d: Id, info: VersionInfo, n: Name)
    requires ProvidesHashes(p, blobs, d, HashesIn(info))
    requires NamedMap(info.files) && RowBacked(d, info, blobs) && n in info.files
    ensures exists s :: s in p.keys && FilenameFromKey(s) == n
    ensures KeyString(KeyOf(d, info.files[n])) in p.keys
  {
    var k := KeyOf(d, info.files[n]);
    assert RowHas(info, k.hash);
    ProvidedBlob(p, blobs, d, info, k);
  }

  /** A key whose blob is no stray belongs to a file of the version. */
  lemma OwnKey(p: FileProvider, blobs: Blobs, d: Id, info: VersionInfo, s: string)
    requires ProvidesHashes(p, blobs, d, HashesIn(info)) && s in p.keys
    requires NamedMap(info.files) && NoStray(blobs, d, info) && FilenameFromKey(s) != ""
    ensures FilenameFromKey(s) in info.files && s == KeyString(KeyOf(d, info.files[FilenameFromKey(s)]))
  {
    ProvidedKey(p, blobs, d, info, s);
    assert !Stray(d, info, ParseKey(s));
  }

  lemma OwnKeysAreDistinct(p: FileProvider, blobs: Blobs, d: Id, info: VersionInfo)
    requires ProvidesHashes(p, blobs, d, HashesIn(info)) && NamedMap(info.files) && NoStray(blobs, d, info)
    ensures forall i, j :: 0 <= i < j < |p.keys| && FilenameFromKey(p.keys[i]) != "" ==> FilenameFromKey(p.keys[i]) != FilenameFromKey(p.keys[j])
  {
    assert NoDuplicates(p.keys);
    hide ProvidesHashes, NoStray, NamedMap, FilenameFromKey, KeyString;
    forall i, j | 0 <= i < j < |p.keys| && FilenameFromKey(p.keys[i]) != ""
      ensures FilenameFromKey(p.keys[i]) != FilenameFromKey(p.keys[j])
    {
      OwnKey(p, blobs, d, info, p.keys[i]);
      if FilenameFromKey(p.keys[j]) != "" {
        OwnKey(p, blobs, d, info, p.keys[j]);
      }
    }
  }

  lemma NoStrayListsExactly(p: FileProvider, blobs: Blobs, d: Id, info: VersionInfo)
    requires ProvidesHashes(p, blobs, d, HashesIn(info))
    requires NamedMap(info.files) && NamesAllowed(info.files) && RowBacked(d, info, blobs)
    requires NoStray(blobs, d, info)
    ensures ListsExactly(p.keys, info)
  {
    assert "" !in info.files;
    OwnKeysAreDistinct(p, blobs, d, info);
    hide ProvidesHashes, NoStray, RowBacked, NamedMap, NamesAllowed, FilenameFromKey, KeyString, ListedNames;
    DistinctListing(p.keys);
    forall n ensures n in ListedNames(p.keys) <==> n in info.files {
      ListedFrom(p.keys, n);
      if n in info.files {
        ProviderHasEveryFile(p, blobs, d, info, n);
      }
      if n in ListedNames(p.keys) {
        var s :| s in p.keys && FilenameFromKey(s) == n;
        OwnKey(p, blobs, d, info, s);
      }
    }
  }

  /** The listing is exactly that of the version precisely when no stray file is stored. */
  lemma ListingIsExactIffNoStray(p: FileProvider, blobs: Blobs, d: Id, info: VersionInfo)
    requires ProvidesHashes(p, blobs, d, HashesIn(info))
    requires NamedMap(info.files) && NamesAllowed(info.files) && RowBacked(d, info, blobs)
    ensures ListsExactly(p.keys, info) <==> NoStray(blobs, d, info)
  {
    if NoStray(blobs, d, info) {
      NoStrayListsExactly(p, blobs, d, info);
    } else {
      var k :| k in blobs && Stray(d, info, k);
      StraySpoilsListing(p, blobs, d, info, k);
    }
  }

  /** A stray file is listed under a name the version does not have, or besides the file that it does have. */
  lemma StraySpoilsListing(p: FileProvider, blobs: Blobs, d: Id, info: VersionInfo, k: BlobKey)
    requires ProvidesHashes(p, blobs, d, HashesIn(info))
    requires NamedMap(info.files) && RowBacked(d, info, blobs)
    requires k in blobs && Stray(d, info, k)
    ensures !ListsExactly(p.keys, info)
  {
    ProvidedBlob(p, blobs, d, info, k);
    ListedFrom(p.keys, k.name);
    if k.name in info.files {
      var own := KeyOf(d, info.files[k.name]);
      assert RowHas(info, own.hash);
      ProvidedBlob(p, blobs, d, info, own);
      hide ProvidesHashes, RowBacked, NamedMap, KeyString, ParseKey, FilenameFromKey, ListedNames, RowHas;
      var i :| 0 <= i < |p.keys| && p.keys[i] == KeyString(k);
      var j :| 0 <= j < |p.keys| && p.keys[j] == KeyString(own);
      assert i != j;
      RepeatedListing(p.keys, if i < j then i else j, if i < j then j else i);
    }
  }

  /** Without stray files the provider reads the very blob that a direct read of the version does. */
  lemma ProviderReadsTheVersion(p: FileProvider, blobs: Blobs, d: Id, info: VersionInfo, n: Name)
    requires ProvidesHashes(p, blobs, d, HashesIn(info))
    requires NamedMap(info.files) && NamesAllowed(info.files) && RowBacked(d, info, blobs)
    requires NoStray(blobs, d, info) && n in info.files
    ensures p.KeyFor(n) == KeyString(KeyOf(d, info.files[n]))
  {
    ProviderHasEveryFile(p, blobs, d, info, n);
    assert "" !in p.keys by {
      assert Split("") == [""];
    }
    var s := p.KeyFor(n);
    assert s in p.keys && FilenameFromKey(s) == n;
    ProvidedKey(p, blobs, d, info, s);
    assert !Stray(d, info, ParseKey(s));
  }
}
