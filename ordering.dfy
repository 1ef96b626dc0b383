/** String orders and sorting. `sort.Strings` orders paths byte by byte;
    a NAR archive lists a directory's entries by name, depth first, which
    on whole paths is the byte order with '/' ranked below every other
    byte. Both are strict total orders, and a strictly sorted sequence is
    determined by its elements. */
module Ordering {
  import opened Strings
  import opened Paths

  datatype Order = ByteOrder | SegmentOrder

  function Rank(o: Order, c: char): int {
    if o == SegmentOrder && c == '/' then -1 else c as int
  }

  /** Lexicographic comparison under the character ranking of `o`. */
  predicate Less(o: Order, a: string, b: string)
    decreases |a|
  {
    if a == [] then b != []
    else if b == [] then false
    else if a[0] == b[0] then Less(o, a[1..], b[1..])
    else Rank(o, a[0]) < Rank(o, b[0])
  }

  lemma RankInjective(o: Order, c: char, d: char)
    requires c != d
    ensures Rank(o, c) != Rank(o, d)
  {
  }

  lemma {:induction false} LessIrreflexive(o: Order, a: string)
    ensures !Less(o, a, a)
    decreases |a|
  {
    if a != [] {
      LessIrreflexive(o, a[1..]);
    }
  }

  lemma {:induction false} LessAsymmetric(o: Order, a: string, b: string)
    ensures !(Less(o, a, b) && Less(o, b, a))
    decreases |a|
  {
    if a != [] && b != [] && a[0] == b[0] {
      LessAsymmetric(o, a[1..], b[1..]);
    }
  }

  lemma {:induction false} LessTransitive(o: Order, a: string, b: string, c: string)
    requires Less(o, a, b) && Less(o, b, c)
    ensures Less(o, a, c)
    decreases |a|
  {
    if a != [] && a[0] == b[0] && b[0] == c[0] {
      LessTransitive(o, a[1..], b[1..], c[1..]);
    }
  }

  lemma {:induction false} LessTotal(o: Order, a: string, b: string)
    requires a != b
    ensures Less(o, a, b) || Less(o, b, a)
    decreases |a|
  {
    if a != [] && b != [] {
      if a[0] == b[0] {
        assert a == [a[0]] + a[1..] && b == [b[0]] + b[1..];
        LessTotal(o, a[1..], b[1..]);
      } else {
        RankInjective(o, a[0], b[0]);
      }
    }
  }

  /** A proper prefix comes first. */
  lemma {:induction false} PrefixLess(o: Order, a: string, b: string)
    requires |a| < |b| && b[..|a|] == a
    ensures Less(o, a, b)
    decreases |a|
  {
    if a != [] {
      assert b[1..][..|a| - 1] == a[1..];
      PrefixLess(o, a[1..], b[1..]);
    }
  }

  lemma {:induction false} LessCommonPrefix(o: Order, p: string, x: string, y: string)
    ensures Less(o, p + x, p + y) == Less(o, x, y)
    decreases |p|
  {
    if p == [] {
      assert p + x == x && p + y == y;
    } else {
      assert (p + x)[1..] == p[1..] + x && (p + y)[1..] == p[1..] + y;
      LessCommonPrefix(o, p[1..], x, y);
    }
  }

  /** When `a` is below `c` but not a prefix of it, so is every extension of `a`. */
  lemma {:induction false} LessExtend(o: Order, a: string, t: string, c: string)
    requires Less(o, a, c) && !HasPrefix(c, a)
    ensures Less(o, a + t, c)
    decreases |a|
  {
    if a != [] && a[0] == c[0] {
      assert (a + t)[1..] == a[1..] + t;
      assert !HasPrefix(c[1..], a[1..]);
      LessExtend(o, a[1..], t, c[1..]);
    }
  }

  /** The root sorts before every other canonical path. */
  lemma RootFirst(o: Order, p: string)
    requires IsCanonical(p) && p != "/"
    ensures Less(o, "/", p)
  {
    assert |Segments(p)| > 0;
    assert |p| > 1 by {
      assert p == "/" + Join(Segments(p));
      assert |Join(Segments(p))| >= |Segments(p)[0]| > 0;
    }
    PrefixLess(o, "/", p);
  }

  lemma SlashPrefixLess(o: Order, a: string, b: string)
    requires HasPrefix(b, a + "/")
    ensures Less(o, a, b)
  {
    assert b[..|a|] == (a + "/")[..|a|] == a;
    PrefixLess(o, a, b);
  }

  /** An ancestor sorts before its descendants, in either order. */
  lemma AncestorFirst(o: Order, a: string, b: string)
    requires IsProperAncestor(a, b)
    ensures Less(o, a, b)
  {
    if a == "/" {
      RootFirst(o, b);
    } else {
      AncestorIsPrefix(a, b);
      SlashPrefixLess(o, a, b);
    }
  }

  /** In segment order, extending `a` by "/" keeps it below any `c` above
      `a` that does not extend `a + "/"`. */
  lemma SlashExtensionStaysBelow(a: string, t: string, c: string)
    requires Less(SegmentOrder, a, c) && !HasPrefix(c, a + "/")
    ensures Less(SegmentOrder, a + ("/" + t), c)
  {
    var o := SegmentOrder;
    if HasPrefix(c, a) {
      var u := c[|a|..];
      assert c == a + u;
      LessIrreflexive(o, a);
      assert c != a;
      assert c[..|a|] == a;
      assert |c| != |a|;
      assert u != [];
      assert u[0] != '/';
      LessCommonPrefix(o, a, "/" + t, u);
    } else {
      LessExtend(o, a, "/" + t, c);
    }
  }

  /** The same on strings: whatever extends `a + "/"` stays below a `c`
      above `a` that does not. */
  lemma SlashPrefixStaysBelow(a: string, b: string, c: string)
    requires HasPrefix(b, a + "/") && Less(SegmentOrder, a, c) && !HasPrefix(c, a + "/")
    ensures Less(SegmentOrder, b, c)
  {
    var t := b[|a| + 1..];
    assert b == a + ("/" + t) by {
      assert b[..|a| + 1] == a + "/";
    }
    SlashExtensionStaysBelow(a, t, c);
  }

  /** In segment order a whole subtree comes before anything that sorts
      after its top but lies outside it. */
  lemma SubtreeBeforeLaterOutsider(a: string, b: string, c: string)
    requires IsProperAncestor(a, b) && IsCanonical(c)
    requires Less(SegmentOrder, a, c) && !IsProperAncestor(a, c)
    ensures Less(SegmentOrder, b, c)
  {
    if a == "/" {
      LessIrreflexive(SegmentOrder, a);
      RootIsAncestor(c);
    } else {
      AncestorIsPrefix(a, b);
      if HasPrefix(c, a + "/") {
        PrefixIsAncestor(a, c);
        assert false;
      }
      SlashPrefixStaysBelow(a, b, c);
    }
  }

  predicate StrictlySorted(o: Order, s: seq<string>) {
    forall i, j :: 0 <= i < j < |s| ==> Less(o, s[i], s[j])
  }

  predicate Sorted(o: Order, s: seq<string>) {
    forall i, j :: 0 <= i < j < |s| ==> !Less(o, s[j], s[i])
  }

  predicate Distinct(s: seq<string>) {
    forall i, j :: 0 <= i < j < |s| ==> s[i] != s[j]
  }

  function Insert(o: Order, x: string, s: seq<string>): (r: seq<string>)
    ensures multiset(r) == multiset(s) + multiset{x}
    decreases |s|
  {
    if s == [] || !Less(o, s[0], x) then [x] + s
    else
      assert s == [s[0]] + s[1..];
      [s[0]] + Insert(o, x, s[1..])
  }

  lemma {:induction false} InsertKeepsSorted(o: Order, x: string, s: seq<string>)
    requires Sorted(o, s)
    ensures Sorted(o, Insert(o, x, s))
    decreases |s|
  {
    if s == [] {
    } else if !Less(o, s[0], x) {
      forall j | 0 <= j < |s|
        ensures !Less(o, s[j], x)
      {
        if Less(o, s[j], x) && s[j] != s[0] {
          LessTotal(o, s[0], s[j]);
          LessTransitive(o, s[0], s[j], x);
        }
      }
    } else {
      InsertKeepsSorted(o, x, s[1..]);
      var r := Insert(o, x, s[1..]);
      LessAsymmetric(o, s[0], x);
      forall k | 0 <= k < |r|
        ensures !Less(o, r[k], s[0])
      {
        assert r[k] in multiset(r);
        if r[k] != x {
          var m :| 0 <= m < |s[1..]| && s[1..][m] == r[k];
          assert s[m + 1] == r[k];
        }
      }
    }
  }

  lemma {:induction false} InsertKeepsStrict(o: Order, x: string, s: seq<string>)
    requires StrictlySorted(o, s) && x !in s
    ensures StrictlySorted(o, Insert(o, x, s))
    decreases |s|
  {
    if s == [] {
    } else if !Less(o, s[0], x) {
      LessTotal(o, x, s[0]);
      forall j | 0 <= j < |s|
        ensures Less(o, x, s[j])
      {
        if j > 0 {
          LessTransitive(o, x, s[0], s[j]);
        }
      }
    } else {
      InsertKeepsStrict(o, x, s[1..]);
      var r := Insert(o, x, s[1..]);
      forall k | 0 <= k < |r|
        ensures Less(o, s[0], r[k])
      {
        assert r[k] in multiset(r);
        if r[k] != x {
          var m :| 0 <= m < |s[1..]| && s[1..][m] == r[k];
          assert s[m + 1] == r[k];
        }
      }
    }
  }

  lemma DistinctTail(s: seq<string>)
    requires Distinct(s) && s != []
    ensures s[0] !in s[1..] && Distinct(s[1..])
  {
  }

  /** The model of `sort.Strings`: a permutation of its input in
      non-decreasing order, strictly increasing when the input has no
      duplicates. */
  function Sort(o: Order, s: seq<string>): (r: seq<string>)
    ensures multiset(r) == multiset(s)
    ensures Sorted(o, r)
    ensures Distinct(s) ==> StrictlySorted(o, r)
    decreases |s|
  {
    if s == [] then []
    else
      var rest := Sort(o, s[1..]);
      InsertKeepsSorted(o, s[0], rest);
      assert s == [s[0]] + s[1..];
      assert s[0] in rest <==> s[0] in multiset(s[1..]);
      if Distinct(s) then
        DistinctTail(s);
        InsertKeepsStrict(o, s[0], rest);
        Insert(o, s[0], rest)
      else
        Insert(o, s[0], rest)
  }

  lemma HeadIsLeast(o: Order, a: seq<string>, x: string)
    requires StrictlySorted(o, a) && x in a && x != a[0]
    ensures Less(o, a[0], x)
  {
    var k :| 0 <= k < |a| && a[k] == x;
    assert k != 0;
  }

  /** Two strictly sorted sequences with the same elements are equal. */
  lemma {:induction false} SortedUnique(o: Order, a: seq<string>, b: seq<string>)
    requires StrictlySorted(o, a) && StrictlySorted(o, b)
    requires forall x :: x in a <==> x in b
    ensures a == b
    decreases |a|
  {
    if a != [] || b != [] {
      assert (a + b)[0] in a + b;
      var x :| x in a + b;
      assert x in a && x in b;
      assert a != [] && b != [];
      assert a[0] in b;
      assert b[0] in a;
      if a[0] != b[0] {
        HeadIsLeast(o, a, b[0]);
        HeadIsLeast(o, b, a[0]);
        LessAsymmetric(o, a[0], b[0]);
        assert false;
      }
      forall x
        ensures x in a[1..] <==> x in b[1..]
      {
        if x in a[1..] {
          var k :| 0 <= k < |a| - 1 && a[1..][k] == x;
          assert Less(o, a[0], a[k + 1]);
          LessIrreflexive(o, a[0]);
          assert x in a;
          var m :| 0 <= m < |b| && b[m] == x;
          assert m != 0;
          assert b[1..][m - 1] == x;
        }
        if x in b[1..] {
          var k :| 0 <= k < |b| - 1 && b[1..][k] == x;
          assert Less(o, b[0], b[k + 1]);
          LessIrreflexive(o, b[0]);
          assert x in b;
          var m :| 0 <= m < |a| && a[m] == x;
          assert m != 0;
          assert a[1..][m - 1] == x;
        }
      }
      SortedUnique(o, a[1..], b[1..]);
    }
  }

  /** The order a NAR archive requires of its paths: following an entry,
      the entries below it come before anything outside it. */
  predicate NarPreorder(ps: seq<string>) {
    forall i, j, k :: 0 <= i < j < k < |ps| && IsProperAncestor(ps[i], ps[k]) ==> IsProperAncestor(ps[i], ps[j])
  }

  /** Canonical paths strictly sorted in segment order are in NAR order. */
  lemma SegmentSortedIsPreorder(ps: seq<string>)
    requires forall i :: 0 <= i < |ps| ==> IsCanonical(ps[i])
    requires StrictlySorted(SegmentOrder, ps)
    ensures NarPreorder(ps)
  {
    forall i, j, k | 0 <= i < j < k < |ps| && IsProperAncestor(ps[i], ps[k])
      ensures IsProperAncestor(ps[i], ps[j])
    {
      if !IsProperAncestor(ps[i], ps[j]) {
        SubtreeBeforeLaterOutsider(ps[i], ps[k], ps[j]);
        LessAsymmetric(SegmentOrder, ps[j], ps[k]);
      }
    }
  }

  /** In byte order a sibling whose name extends a directory's name with a
      byte below '/' (here '-') lands between the directory and its
      children, so byte-sorted paths need not be in NAR order. */
  lemma ByteSortedNotPreorder()
    ensures StrictlySorted(ByteOrder, ["/a", "/a-b", "/a/b"])
    ensures !NarPreorder(["/a", "/a-b", "/a/b"])
  {
    var ps := ["/a", "/a-b", "/a/b"];
    ExampleAncestry();
    ExampleByteOrder();
    assert ps[0] == "/a" && ps[1] == "/a-b" && ps[2] == "/a/b";
    assert !(IsProperAncestor(ps[0], ps[2]) ==> IsProperAncestor(ps[0], ps[1]));
  }

  lemma ExampleAncestry()
    ensures IsProperAncestor("/a", "/a/b") && !IsProperAncestor("/a", "/a-b")
  {
    ExampleSegments("a");
    ExampleSegments("a-b");
    SegmentsOfPath(["a", "b"]);
    assert ["a", "b"][1..] == ["b"];
    assert PathOf(["a", "b"]) == "/" + "a" + "/" + "b" == "/a/b";
    assert Segments("/a/b")[..1] == ["a"];
    assert Segments("/a-b")[..1] == ["a-b"] != ["a"];
  }

  lemma ExampleSegments(x: string)
    requires GoodSegment(x)
    ensures IsCanonical("/" + x) && Segments("/" + x) == [x]
  {
    SegmentsOfPath([x]);
    assert PathOf([x]) == "/" + x;
  }

  lemma ExampleByteOrder()
    ensures StrictlySorted(ByteOrder, ["/a", "/a-b", "/a/b"])
  {
    assert Less(ByteOrder, "/a", "/a-b") by {
      PrefixLess(ByteOrder, "/a", "/a-b");
    }
    assert Less(ByteOrder, "/a-b", "/a/b") by {
      assert "/a-b" == "/a" + "-b" && "/a/b" == "/a" + "/b";
      LessCommonPrefix(ByteOrder, "/a", "-b", "/b");
    }
    LessTransitive(ByteOrder, "/a", "/a-b", "/a/b");
  }

  /** In the NAR order "/a/b" sorts before "/a-b": the '/' ranks lowest. */
  lemma ExampleSegmentOrder()
    ensures Less(SegmentOrder, "/a/b", "/a-b")
  {
    assert "/a/b" == "/a" + "/b" && "/a-b" == "/a" + "-b";
    LessCommonPrefix(SegmentOrder, "/a", "/b", "-b");
  }

  lemma SortedDistinctAt(o: Order, s: seq<string>, a: int, b: int)
    requires StrictlySorted(o, s) && 0 <= a < |s| && 0 <= b < |s| && a != b
    ensures s[a] != s[b]
  {
    if a < b {
      LessIrreflexive(o, s[a]);
    } else {
      LessIrreflexive(o, s[b]);
    }
  }

  /** In a strictly sorted sequence the smaller of two elements comes first. */
  lemma SortedIndexOrder(o: Order, s: seq<string>, a: int, b: int)
    requires StrictlySorted(o, s) && 0 <= a < |s| && 0 <= b < |s| && Less(o, s[a], s[b])
    ensures a < b
  {
    LessIrreflexive(o, s[a]);
    LessAsymmetric(o, s[a], s[b]);
  }

  /** A sequence sorted in the byte order differs from one sorted in the
      NAR order as soon as both hold two strings the orders disagree on. */
  lemma SortedOrdersDisagree(ps: seq<string>, qs: seq<string>, x: string, y: string)
    requires StrictlySorted(ByteOrder, ps) && StrictlySorted(SegmentOrder, qs)
    requires x in ps && y in ps && x in qs && y in qs
    requires Less(ByteOrder, y, x) && Less(SegmentOrder, x, y)
    ensures ps != qs
  {
    if |ps| == |qs| {
      var i :| 0 <= i < |qs| && qs[i] == x;
      var j :| 0 <= j < |qs| && qs[j] == y;
      var i' :| 0 <= i' < |ps| && ps[i'] == x;
      var j' :| 0 <= j' < |ps| && ps[j'] == y;
      SortedIndexOrder(SegmentOrder, qs, i, j);
      SortedIndexOrder(ByteOrder, ps, j', i');
      if j' != j {
        SortedDistinctAt(SegmentOrder, qs, j', j);
        assert ps[j'] != qs[j'];
      } else {
        SortedDistinctAt(ByteOrder, ps, i, i');
        assert ps[i] != qs[i];
      }
    }
  }
}
