/** Object keys: "<document>/<filename>/<hash>" and back. */
module S3Keys {
  import opened Documents
  import opened SplitStore

  /** The parts of s between slashes, at least one. */
  function Split(s: string): (parts: seq<string>)
    ensures |parts| >= 1
    ensures forall i :: 0 <= i < |parts| ==> SlashFree(parts[i])
  {
    if s == [] then [""]
    else
      var rest := Split(s[1..]);
      if s[0] == '/' then [""] + rest
      else [[s[0]] + rest[0]] + rest[1..]
  }

  lemma {:induction false} SplitSlashFree(a: string)
    requires SlashFree(a)
    ensures Split(a) == [a]
  {
    if a != [] {
      assert SlashFree(a[1..]);
      SplitSlashFree(a[1..]);
      assert a == [a[0]] + a[1..];
    }
  }

  lemma {:induction false} SplitAfterSlashFree(a: string, b: string)
    requires SlashFree(a)
    ensures Split(a + "/" + b) == [a] + Split(b)
  {
    var s := a + "/" + b;
    if a == [] {
      assert s == "/" + b;
      assert s[1..] == b;
    } else {
      assert SlashFree(a[1..]);
      SplitAfterSlashFree(a[1..], b);
      assert s[1..] == a[1..] + "/" + b;
      assert s[0] == a[0] && a[0] in a;
      assert [s[0]] + a[1..] == a;
    }
  }

  function Key(d: Id, filename: string, hash: string): string {
    d + "/" + filename + "/" + hash
  }

  function HashFromKey(key: string): string {
    var parts := Split(key);
    if |parts| != 3 then "" else parts[2]
  }

  function FilenameFromKey(key: string): string {
    var parts := Split(key);
    if |parts| != 3 then "" else parts[1]
  }

  lemma KeyParts(d: Id, filename: string, hash: string)
    requires SlashFree(filename) && SlashFree(hash)
    ensures Split(Key(d, filename, hash)) == [d, filename, hash]
  {
    assert Key(d, filename, hash) == d + "/" + (filename + "/" + hash);
    SplitAfterSlashFree(d, filename + "/" + hash);
    SplitAfterSlashFree(filename, hash);
    SplitSlashFree(hash);
  }

  /** For components without a slash the key determines them, and parsing gives them back. */
  lemma KeyIsInjective(d1: Id, n1: string, h1: string, d2: Id, n2: string, h2: string)
    requires SlashFree(n1) && SlashFree(h1) && SlashFree(n2) && SlashFree(h2)
    ensures Key(d1, n1, h1) == Key(d2, n2, h2) <==> d1 == d2 && n1 == n2 && h1 == h2
    ensures HashFromKey(Key(d1, n1, h1)) == h1
    ensures FilenameFromKey(Key(d1, n1, h1)) == n1
  {
    KeyParts(d1, n1, h1);
    KeyParts(d2, n2, h2);
    if Key(d1, n1, h1) == Key(d2, n2, h2) {
      assert [d1, n1, h1] == [d2, n2, h2];
      assert [d1, n1, h1][0] == d1 && [d1, n1, h1][1] == n1 && [d1, n1, h1][2] == h1;
    }
  }

  /** A slash in a file name would make two files share a key. */
  lemma SlashInNameCollides(d: Id)
    ensures Key(d, "a/b", "c") == Key(d, "a", "b/c")
  {
    assert Key(d, "a/b", "c") == d + "/" + "a/b/c";
    assert Key(d, "a", "b/c") == d + "/" + "a/b/c";
  }

  predicate HasPrefix(s: string, prefix: string) {
    |prefix| <= |s| && s[..|prefix|] == prefix
  }

  /** The objects under a document's prefix are those of the document and of no other. */
  lemma PrefixSelectsDocument(d: Id, k: BlobKey)
    ensures HasPrefix(KeyString(k), d + "/") <==> k.doc == d
  {
    var s := KeyString(k);
    var tail := k.name + "/" + k.hash;
    assert s == k.doc + "/" + tail;
    if HasPrefix(s, d + "/") {
      var rest := s[|d| + 1..];
      assert s == d + "/" + rest;
      SplitAfterSlashFree(d, rest);
      SplitAfterSlashFree(k.doc, tail);
      assert ([d] + Split(rest))[0] == d && ([k.doc] + Split(tail))[0] == k.doc;
    }
    if k.doc == d {
      assert s[..|d + "/"|] == d + "/";
    }
  }

  // ------------------------------------------------------- objects as blobs

  function KeyString(k: BlobKey): string {
    Key(k.doc, k.name, k.hash)
  }

  function ParseKey(s: string): BlobKey {
    var parts := Split(s);
    if |parts| != 3 then BlobKey("", "", "") else BlobKey(parts[0], parts[1], parts[2])
  }

  /** Every object key has exactly three parts. */
  predicate WellKeyed(objects: map<string, Bytes>) {
    forall s :: s in objects ==> |Split(s)| == 3 && KeyString(ParseKey(s)) == s
  }

  ghost function Decode(objects: map<string, Bytes>): Blobs
    requires WellKeyed(objects)
  {
    map s | s in objects :: ParseKey(s) := objects[s]
  }

  lemma DecodeAt(objects: map<string, Bytes>, k: BlobKey)
    requires WellKeyed(objects)
    ensures k in Decode(objects) <==> SlashFree(k.name) && KeyString(k) in objects
    ensures k in Decode(objects) ==> Decode(objects)[k] == objects[KeyString(k)]
  {
    if SlashFree(k.name) {
      KeyParts(k.doc, k.name, k.hash);
      assert ParseKey(KeyString(k)) == k;
    }
    if k in Decode(objects) {
      var s :| s in objects && ParseKey(s) == k;
      assert KeyString(k) == s;
      assert SlashFree(Split(s)[1]);
    }
  }

  lemma DecodePut(objects: map<string, Bytes>, k: BlobKey, data: Bytes)
    requires WellKeyed(objects) && SlashFree(k.name)
    ensures WellKeyed(objects[KeyString(k) := data])
    ensures Decode(objects[KeyString(k) := data]) == Decode(objects)[k := data]
  {
    var objects' := objects[KeyString(k) := data];
    KeyParts(k.doc, k.name, k.hash);
    assert ParseKey(KeyString(k)) == k;
    forall j ensures j in Decode(objects') <==> j in Decode(objects)[k := data] {
      DecodeAt(objects, j);
      DecodeAt(objects', j);
      if SlashFree(j.name) {
        KeyIsInjective(j.doc, j.name, j.hash, k.doc, k.name, k.hash);
      }
    }
    forall j | j in Decode(objects') ensures Decode(objects')[j] == Decode(objects)[k := data][j] {
      DecodeAt(objects, j);
      DecodeAt(objects', j);
      if SlashFree(j.name) {
        KeyIsInjective(j.doc, j.name, j.hash, k.doc, k.name, k.hash);
      }
    }
  }
}
