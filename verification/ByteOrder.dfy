/** The order of bytes.Compare and sort.Strings on byte strings, and sorted lists. */
module ByteOrder {
  import opened VerkleTypes

  type Path = seq<byte>

  predicate Less(a: Path, b: Path) {
    if b == [] then false
    else if a == [] then true
    else a[0] < b[0] || (a[0] == b[0] && Less(a[1..], b[1..]))
  }

  predicate HasPrefix(s: Path, p: Path) {
    |p| <= |s| && s[..|p|] == p
  }

  lemma {:induction false} LessIrreflexive(a: Path)
    ensures !Less(a, a)
  {
    if a != [] {
      LessIrreflexive(a[1..]);
    }
  }

  lemma {:induction false} LessTransitive(a: Path, b: Path, c: Path)
    requires Less(a, b) && Less(b, c)
    ensures Less(a, c)
  {
    if a != [] && a[0] == b[0] == c[0] {
      LessTransitive(a[1..], b[1..], c[1..]);
    }
  }

  lemma {:induction false} LessTotal(a: Path, b: Path)
    ensures Less(a, b) || a == b || Less(b, a)
  {
    if a != [] && b != [] && a[0] == b[0] {
      LessTotal(a[1..], b[1..]);
      assert a == [a[0]] + a[1..] && b == [b[0]] + b[1..];
    }
  }

  /** Two strings that go apart at position |p| are ordered by their bytes there. */
  lemma {:induction false} LessAtFork(a: Path, b: Path, p: Path)
    requires HasPrefix(a, p) && HasPrefix(b, p) && |p| < |a| && |p| < |b|
    ensures a[|p|] < b[|p|] ==> Less(a, b)
    ensures a[|p|] > b[|p|] ==> Less(b, a)
  {
    if p != [] {
      assert a[0] == p[0] && b[0] == p[0];
      assert a[1..][..|p| - 1] == p[1..] && b[1..][..|p| - 1] == p[1..];
      LessAtFork(a[1..], b[1..], p[1..]);
    }
  }

  /** A proper prefix comes first. */
  lemma {:induction false} PrefixIsLess(p: Path, a: Path)
    requires HasPrefix(a, p) && |p| < |a|
    ensures Less(p, a)
  {
    if p != [] {
      assert a[0] == p[0];
      assert a[1..][..|p| - 1] == p[1..];
      PrefixIsLess(p[1..], a[1..]);
    }
  }

  predicate Sorted(s: seq<Path>) {
    forall i, j :: 0 <= i < j < |s| ==> !Less(s[j], s[i])
  }

  ghost predicate StrictlySorted(s: seq<Path>) {
    forall i, j :: 0 <= i < j < |s| ==> Less(s[i], s[j])
  }

  ghost predicate AllBelow(s: seq<Path>, t: seq<Path>) {
    forall i, j :: 0 <= i < |s| && 0 <= j < |t| ==> Less(s[i], t[j])
  }

  lemma ConcatStrictlySorted(s: seq<Path>, t: seq<Path>)
    requires StrictlySorted(s) && StrictlySorted(t) && AllBelow(s, t)
    ensures StrictlySorted(s + t)
  {
    var u := s + t;
    forall i, j | 0 <= i < j < |u| ensures Less(u[i], u[j]) {
      if i < |s| && j >= |s| {
        assert Less(s[i], t[j - |s|]);
      }
    }
  }

  lemma HasMember(s: seq<Path>)
    ensures s == [] || exists x :: x in s
  {
    assert s != [] ==> s[0] in s;
  }

  /** There is one strictly sorted list of the elements of a finite set. */
  lemma {:induction false} SortedListIsUnique(s: seq<Path>, t: seq<Path>)
    requires StrictlySorted(s) && StrictlySorted(t)
    requires forall x :: x in s <==> x in t
    ensures s == t
  {
    HasMember(s);
    HasMember(t);
    if s != [] && t != [] {
      assert s[0] in t;
      var i :| 0 <= i < |t| && t[i] == s[0];
      assert t[0] in s;
      var j :| 0 <= j < |s| && s[j] == t[0];
      if i > 0 {
        assert Less(t[0], t[i]);
        assert j > 0 ==> Less(s[0], s[j]);
        if j > 0 {
          LessTransitive(s[0], t[0], s[0]);
        }
        LessIrreflexive(s[0]);
      }
      assert s[0] == t[0];
      forall x ensures x in s[1..] <==> x in t[1..] {
        LessIrreflexive(s[0]);
        assert x in s[1..] ==> Less(s[0], x);
        assert x in t[1..] ==> Less(t[0], x);
        assert x in s <==> x == s[0] || x in s[1..];
        assert x in t <==> x == t[0] || x in t[1..];
      }
      SortedListIsUnique(s[1..], t[1..]);
    }
  }

  /** sort.Strings on a list without repetitions. */
  method SortStrings(s: seq<Path>) returns (t: seq<Path>)
    requires forall i, j :: 0 <= i < j < |s| ==> s[i] != s[j]
    ensures StrictlySorted(t) && (forall x :: x in t <==> x in s) && |t| == |s|
  {
    t := [];
    var i := 0;
    while i < |s|
      invariant 0 <= i <= |s| && |t| == i
      invariant StrictlySorted(t) && (forall x :: x in t <==> x in s[..i])
    {
      assert s[i] !in s[..i];
      ghost var before := t;
      t := InsertSorted(t, s[i]);
      assert s[..i + 1] == s[..i] + [s[i]];
      i := i + 1;
    }
    assert s[..i] == s;
  }

  method InsertSorted(s: seq<Path>, x: Path) returns (t: seq<Path>)
    requires StrictlySorted(s) && x !in s
    ensures StrictlySorted(t) && (forall y :: y in t <==> y == x || y in s) && |t| == |s| + 1
  {
    var k := 0;
    while k < |s| && Less(s[k], x)
      invariant 0 <= k <= |s|
      invariant forall i :: 0 <= i < k ==> Less(s[i], x)
    {
      k := k + 1;
    }
    forall j | k <= j < |s| ensures Less(x, s[j]) {
      LessTotal(s[k], x);
      if j > k {
        LessTransitive(x, s[k], s[j]);
      }
    }
    t := s[..k] + [x] + s[k..];
    assert s == s[..k] + s[k..];
    forall i, j | 0 <= i < j < |t| ensures Less(t[i], t[j]) {
      assert t[i] == if i < k then s[i] else if i == k then x else s[i - 1];
      assert t[j] == if j < k then s[j] else if j == k then x else s[j - 1];
    }
  }
}
