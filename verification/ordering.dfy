/** Sorting of names and of version times. */
module Ordering {

  type Text = seq<char>

  predicate LexLe(a: Text, b: Text) {
    if a == [] then true
    else if b == [] then false
    else if a[0] != b[0] then a[0] < b[0]
    else LexLe(a[1..], b[1..])
  }

  lemma {:induction false} LexTotal(a: Text, b: Text)
    ensures LexLe(a, b) || LexLe(b, a)
    ensures LexLe(a, b) && LexLe(b, a) ==> a == b
  {
    if a != [] && b != [] && a[0] == b[0] {
      LexTotal(a[1..], b[1..]);
      if a[1..] == b[1..] {
        assert a == [a[0]] + a[1..] && b == [b[0]] + b[1..];
      }
    }
  }

  lemma {:induction false} LexTransitive(a: Text, b: Text, c: Text)
    requires LexLe(a, b) && LexLe(b, c)
    ensures LexLe(a, c)
  {
    if a != [] && b != [] && c != [] && a[0] == b[0] && b[0] == c[0] {
      LexTransitive(a[1..], b[1..], c[1..]);
    }
  }

  predicate SortedNames(s: seq<Text>) {
    forall i, j :: 0 <= i < j < |s| ==> LexLe(s[i], s[j])
  }

  predicate NoDuplicates<T(==)>(s: seq<T>) {
    forall i, j :: 0 <= i < j < |s| ==> s[i] != s[j]
  }

  lemma SortedWithLeast(x: Text, s: seq<Text>)
    requires SortedNames(s) && (s != [] ==> LexLe(x, s[0]))
    ensures SortedNames([x] + s)
  {
    forall j | 0 <= j < |s| ensures LexLe(x, s[j]) {
      if j > 0 { LexTransitive(x, s[0], s[j]); }
    }
  }

  lemma SortedAfterHead(x: Text, s: seq<Text>, rest: seq<Text>)
    requires s != [] && SortedNames(s) && !LexLe(x, s[0])
    requires SortedNames(rest) && multiset(rest) == multiset(s[1..]) + multiset{x}
    ensures SortedNames([s[0]] + rest)
    ensures multiset([s[0]] + rest) == multiset(s) + multiset{x}
  {
    LexTotal(x, s[0]);
    forall j | 0 <= j < |rest| ensures LexLe(s[0], rest[j]) {
      assert rest[j] in multiset(rest);
      assert rest[j] == x || rest[j] in s[1..];
    }
    hide SortedNames, LexLe;
    assert s == [s[0]] + s[1..];
  }

  function Insert(x: Text, s: seq<Text>): (r: seq<Text>)
    requires SortedNames(s)
    ensures multiset(r) == multiset(s) + multiset{x}
    ensures SortedNames(r)
  {
    if s == [] then [x]
    else if LexLe(x, s[0]) then
      SortedWithLeast(x, s);
      [x] + s
    else
      var rest := Insert(x, s[1..]);
      SortedAfterHead(x, s, rest);
      [s[0]] + rest
  }

  function Sorted(s: seq<Text>): (r: seq<Text>)
    ensures multiset(r) == multiset(s)
    ensures SortedNames(r)
  {
    if s == [] then []
    else
      assert s == [s[0]] + s[1..];
      Insert(s[0], Sorted(s[1..]))
  }

  lemma MultisetMembership<T>(s: seq<T>, x: T)
    ensures x in multiset(s) <==> x in s
  {
  }

  /** Equal multisets have the same members, and one is free of duplicates when the other is. */
  lemma SameElements<T>(a: seq<T>, b: seq<T>)
    requires multiset(a) == multiset(b)
    ensures forall x :: x in a <==> x in b
    ensures NoDuplicates(a) ==> NoDuplicates(b)
  {
    forall x ensures x in a <==> x in b {
      MultisetMembership(a, x);
      MultisetMembership(b, x);
    }
    if NoDuplicates(a) {
      forall i, j | 0 <= i < j < |b| ensures b[i] != b[j] {
        if b[i] == b[j] {
          TwiceInMultiset(b, i, j);
          OnceInMultiset(a, b[i]);
        }
      }
    }
  }

  /** Lists without duplicates that have the same members are permutations of each other. */
  lemma SameMembersDistinct<T>(a: seq<T>, b: seq<T>)
    requires NoDuplicates(a) && NoDuplicates(b) && forall x :: x in a <==> x in b
    ensures multiset(a) == multiset(b)
  {
    forall x ensures multiset(a)[x] == multiset(b)[x] {
      MultisetMembership(a, x);
      MultisetMembership(b, x);
      OnceInMultiset(a, x);
      OnceInMultiset(b, x);
    }
  }

  lemma TwiceInMultiset<T>(s: seq<T>, i: nat, j: nat)
    requires i < j < |s| && s[i] == s[j]
    ensures multiset(s)[s[i]] >= 2
  {
    assert s == s[..j] + [s[j]] + s[j + 1..];
    assert s[..j][i] == s[i];
    assert s[i] in multiset(s[..j]);
  }

  lemma {:induction false} OnceInMultiset<T>(s: seq<T>, x: T)
    requires NoDuplicates(s)
    ensures multiset(s)[x] <= 1
  {
    if s != [] {
      assert s == [s[0]] + s[1..];
      assert forall i, j :: 0 <= i < j < |s[1..]| ==> s[1..][i] == s[i + 1] && s[1..][j] == s[j + 1];
      OnceInMultiset(s[1..], x);
      assert s[0] !in s[1..];
    }
  }

  lemma HeadIsLeast(a: seq<Text>, x: Text)
    requires SortedNames(a)
    requires x in a
    ensures LexLe(a[0], x)
  {
    var j :| 0 <= j < |a| && a[j] == x;
    LexTotal(x, x);
  }

  lemma SameHead(a: seq<Text>, b: seq<Text>)
    requires SortedNames(a) && SortedNames(b)
    requires a != [] && b != []
    requires multiset(a) == multiset(b)
    ensures a[0] == b[0]
  {
    assert a[0] in multiset(b);
    assert b[0] in multiset(a);
    HeadIsLeast(a, b[0]);
    HeadIsLeast(b, a[0]);
    LexTotal(a[0], b[0]);
  }

  lemma MultisetTail(a: seq<Text>)
    requires a != []
    ensures multiset(a[1..]) == multiset(a) - multiset{a[0]}
  {
    assert a == [a[0]] + a[1..];
  }

  /** A multiset of names has one sorted listing. */
  lemma {:induction false} SortedIsUnique(a: seq<Text>, b: seq<Text>)
    requires SortedNames(a) && SortedNames(b)
    requires multiset(a) == multiset(b)
    ensures a == b
  {
    if a == [] {
      assert |multiset(b)| == 0;
    } else {
      assert b != [] by { assert |multiset(a)| == |a|; }
      SameHead(a, b);
      MultisetTail(a);
      MultisetTail(b);
      assert SortedNames(a[1..]);
      assert SortedNames(b[1..]);
      SortedIsUnique(a[1..], b[1..]);
      assert a == [a[0]] + a[1..] && b == [b[0]] + b[1..];
    }
  }

  // ---------------------------------------------------------------- times

  predicate Increasing(s: seq<nat>) {
    forall i, j :: 0 <= i < j < |s| ==> s[i] < s[j]
  }

  predicate IsLeast(s: set<nat>, m: nat) {
    m in s && forall x :: x in s ==> m <= x
  }

  predicate IsGreatest(s: set<nat>, m: nat) {
    m in s && forall x :: x in s ==> x <= m
  }

  lemma {:induction false} LeastExists(s: set<nat>)
    requires s != {}
    ensures exists m :: IsLeast(s, m)
    decreases |s|
  {
    var y :| y in s;
    var rest := s - {y};
    assert forall x :: x in s ==> x == y || x in rest;
    if rest == {} {
      assert IsLeast(s, y);
    } else {
      LeastExists(rest);
      var m :| IsLeast(rest, m);
      assert IsLeast(s, if m < y then m else y);
    }
  }

  function Least(s: set<nat>): (m: nat)
    requires s != {}
    ensures m in s && forall x :: x in s ==> m <= x
  {
    LeastExists(s);
    var m :| IsLeast(s, m);
    m
  }

  lemma {:induction false} GreatestExists(s: set<nat>)
    requires s != {}
    ensures exists m :: IsGreatest(s, m)
    decreases |s|
  {
    var y :| y in s;
    var rest := s - {y};
    assert forall x :: x in s ==> x == y || x in rest;
    if rest == {} {
      assert IsGreatest(s, y);
    } else {
      GreatestExists(rest);
      var m :| IsGreatest(rest, m);
      assert IsGreatest(s, if m < y then y else m);
    }
  }

  function Greatest(s: set<nat>): (m: nat)
    requires s != {}
    ensures m in s && forall x :: x in s ==> x <= m
  {
    GreatestExists(s);
    var m :| IsGreatest(s, m);
    m
  }

  /** The members in ascending order. */
  function Ascending(s: set<nat>): (r: seq<nat>)
    ensures Increasing(r)
    ensures forall x :: x in r <==> x in s
    ensures |r| == |s|
  {
    if s == {} then []
    else
      var m := Least(s);
      [m] + Ascending(s - {m})
  }

  /** The greatest member below v, if there is one. */
  function Below(s: set<nat>, v: nat): (earlier: set<nat>)
  {
    set x | x in s && x < v
  }

  ghost predicate Lists(r: seq<nat>, s: set<nat>) {
    Increasing(r) && forall x :: x in r <==> x in s
  }

  lemma BelowInOrder(r: seq<nat>, s: set<nat>, i: nat)
    requires Lists(r, s) && i < |r|
    ensures forall x :: x in Below(s, r[i]) <==> x in r[..i]
  {
    forall x ensures x in Below(s, r[i]) <==> x in r[..i] {
      if x in Below(s, r[i]) {
        var j :| 0 <= j < |r| && r[j] == x;
        assert j < i;
        assert r[..i][j] == x;
      }
      if x in r[..i] {
        assert x in r;
      }
    }
  }

  /** In an ascending listing the predecessor of an entry is the greatest smaller member. */
  lemma PredecessorInOrder(r: seq<nat>, s: set<nat>, i: nat)
    requires Lists(r, s) && i < |r|
    ensures i == 0 ==> Below(s, r[0]) == {}
    ensures i > 0 ==> Below(s, r[i]) != {} && Greatest(Below(s, r[i])) == r[i - 1]
  {
    BelowInOrder(r, s, i);
    if i > 0 {
      assert r[i - 1] == r[..i][i - 1];
      assert r[i - 1] in Below(s, r[i]);
      var g := Greatest(Below(s, r[i]));
      var j :| 0 <= j < i && r[..i][j] == g;
      assert r[j] == g;
    }
  }

  // ------------------------------------------------- going through a listing

  function TimesIn(times: seq<nat>): set<nat> {
    set v | v in times
  }

  lemma TimesInMore(times: seq<nat>, v: nat)
    ensures TimesIn(times + [v]) == TimesIn(times) + {v}
  {
  }

  /** done are the first i times. */
  ghost predicate Handled(times: seq<nat>, i: nat, done: set<nat>)
    requires i <= |times|
  {
    done == TimesIn(times[..i])
  }

  lemma HandledMore(times: seq<nat>, all: set<nat>, i: nat, done: set<nat>)
    requires Lists(times, all) && i < |times| && Handled(times, i, done)
    ensures times[i] in all && forall w :: w in done ==> w < times[i]
    ensures Handled(times, i + 1, done + {times[i]})
  {
    assert times[..i + 1] == times[..i] + [times[i]];
  }

  lemma HandledAll(times: seq<nat>, all: set<nat>, done: set<nat>)
    requires Lists(times, all) && Handled(times, |times|, done)
    ensures done == all
  {
    assert times[..|times|] == times;
  }
}
