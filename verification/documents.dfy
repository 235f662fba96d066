/**
 The values that both back ends exchange: identifiers, version times, files,
 and the metadata of one document version.
 */
module Documents {

  type Bytes = seq<bv8>
  type Name = string

  predicate SlashFree(s: string) {
    '/' !in s
  }

  /** A UUID in its textual form, which never contains the key separator. */
  type Id = s: string | SlashFree(s) witness ""

  const NIL_ID: Id := "00000000-0000-0000-0000-000000000000"

  predicate ValidId(id: Id) {
    id != NIL_ID
  }

  /** Milliseconds since the zero time. */
  type VersionTime = nat

  predicate ValidVersion(v: VersionTime) {
    v != 0
  }

  /** Hexadecimal text. */
  type Hash = s: string | SlashFree(s) witness ""

  /** The content hash. Nothing is known about it, so every result holds for every hash. */
  const ContentHash: Bytes -> Hash

  /** The premise of the results that speak of bytes rather than of hashes. */
  ghost predicate CollisionFree() {
    forall a: Bytes, b: Bytes :: ContentHash(a) == ContentHash(b) ==> a == b
  }

  datatype Option<+T> = None | Some(value: T) {
    function GetOr(default: T): T {
      if Some? then value else default
    }
  }

  datatype Result<+T, +E> = Success(value: T) | Failure(error: E)

  datatype File = File(name: Name, data: Bytes)

  datatype FileInfo = FileInfo(name: Name, size: nat, hash: Hash)

  type FileMap = map<Name, FileInfo>

  datatype VersionInfo = VersionInfo(
    companyID: Id,
    docID: Id,
    version: VersionTime,
    prevVersion: Option<VersionTime>,
    commitUserID: Id,
    commitReason: string,
    addedFiles: seq<Name>,
    removedFiles: seq<Name>,
    modifiedFiles: seq<Name>,
    files: FileMap)

  /** What the callback of AddDocumentVersion asks for. */
  datatype CreateVersionResult = CreateVersionResult(
    version: VersionTime,
    writeFiles: seq<File>,
    removeFiles: seq<Name>,
    newCompanyID: Option<Id>)
  {
    predicate Valid() {
      && ValidVersion(version)
      && (forall f :: f in writeFiles ==> f.name !in removeFiles)
      && (newCompanyID.Some? ==> ValidId(newCompanyID.value))
    }
  }

  function InfoOf(f: File): FileInfo {
    FileInfo(f.name, |f.data|, ContentHash(f.data))
  }

  function InfosOf(files: seq<File>): (infos: seq<FileInfo>)
    ensures |infos| == |files|
    ensures forall i :: 0 <= i < |files| ==> infos[i] == InfoOf(files[i])
  {
    seq(|files|, i requires 0 <= i < |files| => InfoOf(files[i]))
  }

  function NamesOf(infos: seq<FileInfo>): (names: seq<Name>)
    ensures |names| == |infos|
    ensures forall i :: 0 <= i < |infos| ==> names[i] == infos[i].name
  {
    seq(|infos|, i requires 0 <= i < |infos| => infos[i].name)
  }

  predicate DistinctNames(files: seq<File>) {
    forall i, j :: 0 <= i < j < |files| ==> files[i].name != files[j].name
  }

  /** Every entry of a file map is filed under its own name. */
  predicate NamedMap(m: FileMap) {
    forall n :: n in m ==> m[n].name == n
  }

  function Without(m: FileMap, names: seq<Name>): FileMap {
    map n | n in m && n !in names :: m[n]
  }

  /** infos written over m one after the other, so the last write of a name wins. */
  function Overlay(m: FileMap, infos: seq<FileInfo>): (r: FileMap)
    ensures NamedMap(m) ==> NamedMap(r)
  {
    if infos == [] then m
    else
      var last := infos[|infos| - 1];
      Overlay(m, infos[..|infos| - 1])[last.name := last]
  }

  /** The rule both back ends follow for the files of an appended version. */
  function AppendedFiles(prev: FileMap, r: CreateVersionResult): FileMap {
    Overlay(Without(prev, r.removeFiles), InfosOf(r.writeFiles))
  }

  lemma {:induction false} OverlayKeys(m: FileMap, infos: seq<FileInfo>, n: Name)
    ensures n in Overlay(m, infos) <==> n in m || exists i :: 0 <= i < |infos| && infos[i].name == n
  {
    if infos == [] {
    } else {
      var k := |infos| - 1;
      OverlayKeys(m, infos[..k], n);
      assert forall i :: 0 <= i < k ==> infos[..k][i] == infos[i];
      if exists i :: 0 <= i < |infos| && infos[i].name == n {
        var i :| 0 <= i < |infos| && infos[i].name == n;
        if i < k {
          assert infos[..k][i].name == n;
        }
      }
    }
  }

  /** A name that is not written keeps what it had. */
  lemma {:induction false} OverlayMiss(m: FileMap, infos: seq<FileInfo>, n: Name)
    requires n !in NamesOf(infos)
    ensures n in Overlay(m, infos) <==> n in m
    ensures n in m ==> Overlay(m, infos)[n] == m[n]
  {
    if infos == [] {
    } else {
      var k := |infos| - 1;
      assert NamesOf(infos)[k] == infos[k].name;
      assert NamesOf(infos[..k]) == NamesOf(infos)[..k];
      OverlayMiss(m, infos[..k], n);
    }
  }

  /** The last write of a name wins. */
  lemma {:induction false} OverlayHit(m: FileMap, infos: seq<FileInfo>, i: nat)
    requires i < |infos|
    requires infos[i].name !in NamesOf(infos[i + 1..])
    ensures infos[i].name in Overlay(m, infos)
    ensures Overlay(m, infos)[infos[i].name] == infos[i]
  {
    var k := |infos| - 1;
    if i < k {
      assert NamesOf(infos[i + 1..])[k - i - 1] == infos[k].name;
      assert infos[..k][i + 1..] == infos[i + 1..][..k - i - 1];
      assert NamesOf(infos[..k][i + 1..]) == NamesOf(infos[i + 1..])[..k - i - 1];
      OverlayHit(m, infos[..k], i);
    }
  }

  /** Every entry of an overlay was there before or was written. */
  lemma {:induction false} OverlayFrom(m: FileMap, infos: seq<FileInfo>, n: Name)
    requires n in Overlay(m, infos)
    ensures (n in m && Overlay(m, infos)[n] == m[n])
         || (exists i :: 0 <= i < |infos| && infos[i].name == n && Overlay(m, infos)[n] == infos[i])
  {
    if infos == [] {
    } else {
      var k := |infos| - 1;
      if infos[k].name != n {
        OverlayFrom(m, infos[..k], n);
        if !(n in m && Overlay(m, infos)[n] == m[n]) {
          var i :| 0 <= i < k && infos[..k][i].name == n && Overlay(m, infos[..k])[n] == infos[..k][i];
          assert infos[i].name == n;
        }
      } else {
        assert Overlay(m, infos)[n] == infos[k];
      }
    }
  }
}
