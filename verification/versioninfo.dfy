/** When two version records describe the same committed version. */
module VersionInfos {
  import opened Documents
  import opened Ordering

  function EqualVersionTimes(a: Option<VersionTime>, b: Option<VersionTime>): bool {
    if a.None? || b.None? then a.None? && b.None? else a.value == b.value
  }

  function EqualStringSets(a: seq<Name>, b: seq<Name>): bool {
    if |a| != |b| then false else Sorted(a) == Sorted(b)
  }

  function EqualFiles(a: FileMap, b: FileMap): bool {
    if |a| != |b| then false
    else forall name :: name in a ==> name in b && b[name] == a[name]
  }

  function Equal(a: VersionInfo, b: VersionInfo): bool {
    if a.companyID != b.companyID || a.docID != b.docID || a.version != b.version
       || !EqualVersionTimes(a.prevVersion, b.prevVersion)
       || a.commitUserID != b.commitUserID || a.commitReason != b.commitReason
    then false
    else if !EqualStringSets(a.addedFiles, b.addedFiles)
            || !EqualStringSets(a.removedFiles, b.removedFiles)
            || !EqualStringSets(a.modifiedFiles, b.modifiedFiles)
    then false
    else EqualFiles(a.files, b.files)
  }

  /** Identical but for the order of the three name lists. */
  ghost predicate SameVersion(a: VersionInfo, b: VersionInfo) {
    && a == b.(addedFiles := a.addedFiles, removedFiles := a.removedFiles, modifiedFiles := a.modifiedFiles)
    && multiset(a.addedFiles) == multiset(b.addedFiles)
    && multiset(a.removedFiles) == multiset(b.removedFiles)
    && multiset(a.modifiedFiles) == multiset(b.modifiedFiles)
  }

  lemma EqualStringSetsIgnoresOrder(a: seq<Name>, b: seq<Name>)
    ensures EqualStringSets(a, b) <==> multiset(a) == multiset(b)
  {
    if multiset(a) == multiset(b) {
      assert |a| == |multiset(a)| == |multiset(b)| == |b|;
      SortedIsUnique(Sorted(a), Sorted(b));
    }
  }

  lemma SubsetOfSameSize<T>(a: set<T>, b: set<T>)
    requires a <= b && |a| == |b|
    ensures a == b
  {
    assert |b - a| == |b| - |a|;
  }

  /** Comparing one way suffices because the sizes agree. */
  lemma EqualFilesMeansSameMap(a: FileMap, b: FileMap)
    ensures EqualFiles(a, b) <==> a == b
  {
    if EqualFiles(a, b) {
      assert |a.Keys| == |a| && |b.Keys| == |b|;
      SubsetOfSameSize(a.Keys, b.Keys);
    }
  }

  lemma EqualMeansSameVersion(a: VersionInfo, b: VersionInfo)
    ensures Equal(a, b) <==> SameVersion(a, b)
  {
    EqualStringSetsIgnoresOrder(a.addedFiles, b.addedFiles);
    EqualStringSetsIgnoresOrder(a.removedFiles, b.removedFiles);
    EqualStringSetsIgnoresOrder(a.modifiedFiles, b.modifiedFiles);
    EqualFilesMeansSameMap(a.files, b.files);
  }
}
