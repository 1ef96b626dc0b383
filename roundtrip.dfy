/** The two directions together: a well-formed NAR stream, written as tar
    by `narToTar` and read back by `tarToNar`, comes back unchanged when
    the sort of `tarToNar` agrees with the order of the NAR stream. With
    the byte order of `sort.Strings` it does not always. */
module RoundTrip {
  import opened Headers
  import opened Strings
  import opened Paths
  import opened Ordering
  import opened TarTable
  import opened Tar2Nar
  import opened Nar2Tar

  /** A non-root NAR node that carries nothing the tar side drops: a
      canonical path free of NUL bytes, a known type, and the fields that
      type does not use left at their zero values. */
  predicate CanonicalNode(n: NarRecord) {
    && ValidPath(n.hdr.path)
    && match n.hdr.nodeType
       case Directory => n.hdr.size == 0 && !n.hdr.executable && n.hdr.linkTarget == "" && n.body == []
       case Symlink => n.hdr.size == 0 && !n.hdr.executable && n.body == []
       case Regular => n.hdr.linkTarget == "" && |n.body| == n.hdr.size
       case Unknown(_) => false
  }

  /** The root Directory first, then canonical nodes. */
  predicate RootThenNodes(ns: seq<NarRecord>) {
    |ns| >= 1 && ns[0] == RootRecord && forall i :: 1 <= i < |ns| ==> CanonicalNode(ns[i])
  }

  /** Every non-root path of the stream gets through the escape test `g`:
      always for the intended test; as written, only when no first segment
      begins with "..". */
  ghost predicate NarAdmitted(g: EscapeTest, ns: seq<NarRecord>) {
    forall i :: 1 <= i < |ns| ==> Admitted(g, ns[i].hdr.path)
  }

  /** The parent directories of every node are nodes of the stream too. */
  ghost predicate ParentsPresent(ns: seq<NarRecord>) {
    forall i, a :: 1 <= i < |ns| && a != "/" && IsProperAncestor(a, ns[i].hdr.path) ==> a in PathsOf(ns)
  }

  /** A NAR stream as a NAR writer produces it: the root Directory first,
      then canonical nodes, paths strictly increasing in the NAR order,
      and the parent directories of every node present. */
  ghost predicate WellFormedNar(ns: seq<NarRecord>) {
    RootThenNodes(ns) && StrictlySorted(SegmentOrder, PathsOf(ns)) && ParentsPresent(ns)
  }

  /** The table entry the tar record of a canonical node stores. */
  function NodeEntry(n: NarRecord): TarEntry {
    match n.hdr.nodeType
    case Directory => Placeholder(n.hdr.path)
    case Symlink => TarEntry(n.hdr.path, TypeSymlink, n.hdr.linkTarget, [], false)
    case Regular => TarEntry(n.hdr.path, TypeReg, "", n.body, n.hdr.executable)
    case Unknown(_) => Placeholder(n.hdr.path)
  }

  /** One node through both directions: `narToTar` writes a record for
      it, `tarToNar` reads that record back as an entry at the node's own
      path, and emitting the entry gives the node back. */
  lemma NodeRoundTrip(g: EscapeTest, n: NarRecord)
    requires CanonicalNode(n) && Admitted(g, n.hdr.path)
    ensures MapNode(n).Ok? && MapNode(n).value.Some?
    ensures Classify(g, MapNode(n).value.value) == Ok(Put(n.hdr.path, NodeEntry(n)))
    ensures NarOf(n.hdr.path, NodeEntry(n)) == n
  {
    var p := n.hdr.path;
    CanonicalEnds(p);
    assert HasPrefix(p, "/");
    assert Stem(p) == p[1..] != "";
    var isDir := n.hdr.nodeType == Directory;
    if isDir {
      assert !HasSuffix(p[1..], "/");
    }
    NormalizeRelativeName(g, p, isDir);
    MapNodeSpec(n);
    var r := MapNode(n).value.value;
    assert r.hdr.name == if isDir then p[1..] + "/" else p[1..];
    assert NormalizeTarPath(g, r.hdr.name) == Ok(p);
    if n.hdr.nodeType == Regular {
      assert r.body == n.body;
    }
  }

  /** The action `tarToNar` takes on the record of each non-root node:
      put the node's entry at its path. */
  function NarActions(ns: seq<NarRecord>): (acts: seq<Action>)
    ensures |acts| == if ns == [] then 0 else |ns| - 1
    ensures forall j :: 0 <= j < |acts| ==> acts[j] == Put(ns[j + 1].hdr.path, NodeEntry(ns[j + 1]))
  {
    if ns == [] then [] else seq(|ns| - 1, j requires 0 <= j < |ns| - 1 => Put(ns[j + 1].hdr.path, NodeEntry(ns[j + 1])))
  }

  lemma NarActionsValid(ns: seq<NarRecord>)
    requires RootThenNodes(ns)
    ensures ValidActions(NarActions(ns))
  {
    var acts := NarActions(ns);
    forall j | 0 <= j < |acts|
      ensures ValidAction(acts[j])
    {
      assert CanonicalNode(ns[j + 1]);
    }
  }

  /** `narToTar` of a stream of canonical nodes after the root succeeds,
      and `tarToNar` reads its records back as the puts of `NarActions`. */
  lemma NarSideRecords(g: EscapeTest, ns: seq<NarRecord>)
    requires RootThenNodes(ns) && NarAdmitted(g, ns)
    ensures NarToTarSpec(ns).Ok? && |NarToTarSpec(ns).value| == |ns| - 1
    ensures forall i :: 1 <= i < |ns| ==>
      Classify(g, NarToTarSpec(ns).value[i - 1]) == Ok(Put(ns[i].hdr.path, NodeEntry(ns[i])))
  {
    forall i | 1 <= i < |ns|
      ensures MapNode(ns[i]).Ok? && MapNode(ns[i]).value.Some?
      ensures Classify(g, MapNode(ns[i]).value.value) == Ok(Put(ns[i].hdr.path, NodeEntry(ns[i])))
    {
      NodeRoundTrip(g, ns[i]);
    }
    NarToTarRecords(ns);
  }

  /** Every record `narToTar` writes for such a stream gets through the
      loop body of `tarToNar`, as the put of `NarActions`. */
  lemma NarSideAccepted(g: EscapeTest, ns: seq<NarRecord>)
    requires RootThenNodes(ns) && NarAdmitted(g, ns)
    ensures NarToTarSpec(ns).Ok? && AllAccepted(g, NarToTarSpec(ns).value)
    ensures Actions(g, NarToTarSpec(ns).value) == NarActions(ns)
  {
    NarSideRecords(g, ns);
    var ts := NarToTarSpec(ns).value;
    forall j | 0 <= j < |ts|
      ensures Classify(g, ts[j]) == Ok(NarActions(ns)[j])
    {
      assert 1 <= j + 1 < |ns|;
    }
    var acts := Actions(g, ts);
    assert acts == NarActions(ns);
  }

  /** The record loop over those records builds the fold of `NarActions`. */
  lemma NarSideTable(g: EscapeTest, ns: seq<NarRecord>)
    requires RootThenNodes(ns) && NarAdmitted(g, ns)
    ensures NarToTarSpec(ns).Ok? && ValidActions(NarActions(ns))
    ensures BuildTable(g, NarToTarSpec(ns).value) == Ok(Fold(NarActions(ns)))
  {
    NarSideAccepted(g, ns);
    NarActionsValid(ns);
    BuildTableFold(g, NarToTarSpec(ns).value);
  }

  /** Paths of a strictly sorted stream are distinct. */
  lemma SortedPathsDistinct(ns: seq<NarRecord>, i: int, j: int)
    requires StrictlySorted(SegmentOrder, PathsOf(ns))
    requires 0 <= i < |ns| && 0 <= j < |ns| && ns[i].hdr.path == ns[j].hdr.path
    ensures i == j
  {
    LessIrreflexive(SegmentOrder, ns[i].hdr.path);
  }

  /** Every key of the table is a non-root path of the stream. */
  lemma KeyIsPath(ns: seq<NarRecord>, k: string)
    requires RootThenNodes(ns) && ParentsPresent(ns)
    requires ValidActions(NarActions(ns)) && k in Fold(NarActions(ns))
    ensures k != "/" && k in PathsOf(ns)
  {
    var acts := NarActions(ns);
    FoldContents(acts);
    var j :| 0 <= j < |acts| && Reaches(acts[j], k);
    var n := ns[j + 1];
    assert CanonicalNode(n);
    if k == n.hdr.path {
      assert PathsOf(ns)[j + 1] == k;
    } else {
      assert IsProperAncestor(k, n.hdr.path);
    }
  }

  /** Every non-root path of the stream is a key of the table. */
  lemma PathIsKey(ns: seq<NarRecord>, i: int)
    requires |ns| >= 1 && 1 <= i < |ns| && ValidActions(NarActions(ns))
    ensures ns[i].hdr.path in Fold(NarActions(ns))
  {
    var acts := NarActions(ns);
    FoldContents(acts);
    assert Reaches(acts[i - 1], ns[i].hdr.path);
  }

  /** The keys of the table: the non-root paths of the stream. */
  lemma TableKeysOfNar(ns: seq<NarRecord>)
    requires RootThenNodes(ns) && ParentsPresent(ns) && ValidActions(NarActions(ns))
    ensures forall k :: k in Fold(NarActions(ns)) <==> k != "/" && k in PathsOf(ns)
  {
    var ps := PathsOf(ns);
    forall k | k in Fold(NarActions(ns))
      ensures k != "/" && k in ps
    {
      KeyIsPath(ns, k);
    }
    forall k | k != "/" && k in ps
      ensures k in Fold(NarActions(ns))
    {
      var i :| 0 <= i < |ps| && ps[i] == k;
      assert i != 0;
      PathIsKey(ns, i);
    }
  }

  /** All actions put, at pairwise different paths. */
  predicate DistinctPuts(acts: seq<Action>) {
    && (forall j :: 0 <= j < |acts| ==> acts[j].Put?)
    && (forall j, m :: 0 <= j < m < |acts| ==> acts[j].path != acts[m].path)
  }

  /** Among such actions, each action's entry is what the table holds at
      its path. */
  lemma FoldDistinctPuts(acts: seq<Action>, i: int)
    requires ValidActions(acts) && DistinctPuts(acts) && 0 <= i < |acts|
    ensures acts[i].path in Fold(acts) && Fold(acts)[acts[i].path] == acts[i].entry
  {
    var k := acts[i].path;
    FoldContents(acts);
    assert Reaches(acts[i], k);
    LastPutSpec(acts, k);
    var m :| 0 <= m < |acts| && acts[m] == Put(k, LastPut(acts, k).value);
    assert acts[m].path == k;
    assert !(m < i) && !(i < m);
  }

  /** No two nodes of the stream share a path. */
  predicate DistinctPaths(ns: seq<NarRecord>) {
    forall i, j :: 0 <= i < j < |ns| ==> ns[i].hdr.path != ns[j].hdr.path
  }

  lemma SortedDistinct(ns: seq<NarRecord>)
    requires StrictlySorted(SegmentOrder, PathsOf(ns))
    ensures DistinctPaths(ns)
  {
    forall i, j | 0 <= i < j < |ns|
      ensures ns[i].hdr.path != ns[j].hdr.path
    {
      if ns[i].hdr.path == ns[j].hdr.path {
        SortedPathsDistinct(ns, i, j);
      }
    }
  }

  /** The actions of a stream with distinct paths put at distinct paths. */
  lemma NarActionsDistinct(ns: seq<NarRecord>)
    requires DistinctPaths(ns)
    ensures DistinctPuts(NarActions(ns))
  {
    var acts := NarActions(ns);
    forall j, m | 0 <= j < m < |acts|
      ensures acts[j].path != acts[m].path
    {
      assert ns[j + 1].hdr.path != ns[m + 1].hdr.path;
    }
  }

  /** The values of the table: each node's entry at its path. */
  lemma TableValuesOfNar(ns: seq<NarRecord>)
    requires DistinctPaths(ns) && ValidActions(NarActions(ns))
    ensures forall i :: 1 <= i < |ns| ==>
      ns[i].hdr.path in Fold(NarActions(ns)) && Fold(NarActions(ns))[ns[i].hdr.path] == NodeEntry(ns[i])
  {
    var acts := NarActions(ns);
    NarActionsDistinct(ns);
    forall i | 1 <= i < |ns|
      ensures ns[i].hdr.path in Fold(acts) && Fold(acts)[ns[i].hdr.path] == NodeEntry(ns[i])
    {
      FoldDistinctPuts(acts, i - 1);
    }
  }

  /** The table `tarToNar` builds from the records `narToTar` writes: the
      non-root paths of the stream as keys, each holding its node's entry. */
  lemma TableOfNar(g: EscapeTest, ns: seq<NarRecord>)
    requires WellFormedNar(ns) && NarAdmitted(g, ns)
    ensures NarToTarSpec(ns).Ok? && BuildTable(g, NarToTarSpec(ns).value).Ok?
    ensures var t := BuildTable(g, NarToTarSpec(ns).value).value;
      && (forall k :: k in t <==> k != "/" && k in PathsOf(ns))
      && (forall i :: 1 <= i < |ns| ==> ns[i].hdr.path in t && t[ns[i].hdr.path] == NodeEntry(ns[i]))
  {
    NarSideTable(g, ns);
    TableKeysOfNar(ns);
    SortedDistinct(ns);
    TableValuesOfNar(ns);
  }

  /** Two streams with the same paths are equal when each node of the
      first is made from the table entry at its path and the table holds,
      at each path of the second, the entry its node is made from. */
  lemma SameStream(out: seq<NarRecord>, ns: seq<NarRecord>, t: Table)
    requires |ns| >= 1 && |out| == |ns| && out[0] == ns[0] && PathsOf(out) == PathsOf(ns)
    requires forall i :: 1 <= i < |out| ==> out[i].hdr.path in t && out[i] == NarOf(out[i].hdr.path, t[out[i].hdr.path])
    requires forall i :: 1 <= i < |ns| ==> ns[i].hdr.path in t && NarOf(ns[i].hdr.path, t[ns[i].hdr.path]) == ns[i]
    ensures out == ns
  {
    forall i | 0 <= i < |ns|
      ensures out[i] == ns[i]
    {
      if i > 0 {
        assert PathsOf(out)[i] == PathsOf(ns)[i];
      }
    }
  }

  /** The round trip: a well-formed NAR stream whose paths get through the
      escape test `g` and are strictly increasing in the order `o` of the
      sort comes back from `tarToNar(narToTar(ns))` unchanged. */
  lemma NarTarNar(g: EscapeTest, o: Order, ns: seq<NarRecord>)
    requires WellFormedNar(ns) && NarAdmitted(g, ns) && StrictlySorted(o, PathsOf(ns))
    ensures NarToTarSpec(ns).Ok?
    ensures TarToNarSpec(g, o, NarToTarSpec(ns).value) == Ok(ns)
  {
    TableOfNar(g, ns);
    var ts := NarToTarSpec(ns).value;
    var t := BuildTable(g, ts).value;
    TarToNarShape(g, o, ts);
    var out := TarToNarSpec(g, o, ts).value;
    SortedUnique(o, PathsOf(out), PathsOf(ns));
    forall i | 1 <= i < |ns|
      ensures NarOf(ns[i].hdr.path, t[ns[i].hdr.path]) == ns[i]
    {
      NodeRoundTrip(g, ns[i]);
    }
    SameStream(out, ns, t);
  }

  /** With the intended escape test, which refuses only a ".." segment,
      the round trip needs no condition on the names: every well-formed
      NAR stream sorted in the order `o` comes back unchanged. */
  lemma IntendedEscapeRoundTrip(o: Order, ns: seq<NarRecord>)
    requires WellFormedNar(ns) && StrictlySorted(o, PathsOf(ns))
    ensures NarToTarSpec(ns).Ok?
    ensures TarToNarSpec(DotDotSegment, o, NarToTarSpec(ns).value) == Ok(ns)
  {
    NarTarNar(DotDotSegment, o, ns);
  }

  /** The corrected program refuses only a ".." segment and sorts in the
      NAR order: every well-formed NAR stream survives the round trip, and
      what `tarToNar` writes is in NAR order. */
  lemma SegmentOrderRoundTrip(ns: seq<NarRecord>)
    requires WellFormedNar(ns)
    ensures NarToTarSpec(ns).Ok?
    ensures TarToNarSpec(DotDotSegment, SegmentOrder, NarToTarSpec(ns).value) == Ok(ns)
    ensures NarPreorder(PathsOf(ns))
  {
    IntendedEscapeRoundTrip(SegmentOrder, ns);
    forall i | 0 <= i < |ns|
      ensures IsCanonical(PathsOf(ns)[i])
    {
    }
    SegmentSortedIsPreorder(PathsOf(ns));
  }

  /** The program as written sorts with `sort.Strings`: a well-formed NAR
      stream holding both "/a/b" and "/a-b" comes back from
      `tarToNar(narToTar(ns))` with the same paths, but not as it was,
      since the byte order puts "/a-b" first and the NAR order "/a/b". */
  lemma ByteOrderReorders(g: EscapeTest, ns: seq<NarRecord>)
    requires WellFormedNar(ns) && NarAdmitted(g, ns) && "/a/b" in PathsOf(ns) && "/a-b" in PathsOf(ns)
    ensures NarToTarSpec(ns).Ok? && TarToNarSpec(g, ByteOrder, NarToTarSpec(ns).value).Ok?
    ensures var out := TarToNarSpec(g, ByteOrder, NarToTarSpec(ns).value).value;
      && (forall k :: k in PathsOf(out) <==> k in PathsOf(ns))
      && out != ns
  {
    TableOfNar(g, ns);
    var ts := NarToTarSpec(ns).value;
    TarToNarShape(g, ByteOrder, ts);
    var out := TarToNarSpec(g, ByteOrder, ts).value;
    assert ns[0] == RootRecord;
    assert "/" in PathsOf(ns) by {
      assert PathsOf(ns)[0] == "/";
    }
    ExampleByteOrder();
    assert Less(ByteOrder, "/a-b", "/a/b") by {
      var e := ["/a", "/a-b", "/a/b"];
      assert e[1] == "/a-b" && e[2] == "/a/b";
    }
    ExampleSegmentOrder();
    SortedOrdersDisagree(PathsOf(out), PathsOf(ns), "/a/b", "/a-b");
  }

  /** A one-segment path has no proper ancestor but the root. */
  lemma OnlyRootAbove(a: string, x: string)
    requires GoodSegment(x)
    ensures IsProperAncestor(a, "/" + x) ==> a == "/"
  {
    if IsProperAncestor(a, "/" + x) {
      ExampleSegments(x);
      assert Segments(a) == [];
      assert PathOf(Segments(a)) == "/";
    }
  }

  /** The stream of the root and one empty file "/..foo" is well formed. */
  lemma DotDotFooWellFormed(n: NarRecord)
    requires n == NarRecord(NarHeader("/..foo", Regular, 0, false, ""), [])
    ensures WellFormedNar([RootRecord, n])
  {
    var ns := [RootRecord, n];
    DotDotFooCanonical(n);
    RootFirst(SegmentOrder, "/..foo");
    assert PathsOf(ns) == ["/", "/..foo"];
    forall a | a != "/"
      ensures !IsProperAncestor(a, "/..foo")
    {
      OnlyRootAbove(a, "..foo");
    }
  }

  lemma DotDotFooCanonical(n: NarRecord)
    requires n == NarRecord(NarHeader("/..foo", Regular, 0, false, ""), [])
    ensures IsCanonical("/..foo") && CanonicalNode(n)
  {
    ExampleSegments("..foo");
    assert "/" + "..foo" == "/..foo";
    assert '\0' !in "/..foo";
  }

  /** `narToTar` writes that stream as the one record "..foo". */
  lemma DotDotFooWritten(n: NarRecord)
    requires n == NarRecord(NarHeader("/..foo", Regular, 0, false, ""), [])
    ensures NarToTarSpec([RootRecord, n]).Ok?
    ensures NarToTarSpec([RootRecord, n]).value == [MapNode(n).value.value]
    ensures MapNode(n).value.value.hdr.name == "..foo"
  {
    var ns := [RootRecord, n];
    MapNodeSpec(RootRecord);
    assert Stem("/..foo") == "..foo";
    MapNodeSpec(n);
    assert [RootRecord][..0] == [];
    assert NarToTarSpec([RootRecord]) == Ok([]);
    assert ns[..1] == [RootRecord];
    NarToTarAppend(ns);
  }

  /** The escape test as written breaks the round trip: a well-formed
      NAR stream with a file "/..foo" is written as tar by `narToTar`,
      and `tarToNar` refuses the name "..foo" it wrote, whatever the sort. */
  lemma DotDotNameBreaksRoundTrip(o: Order)
    ensures var ns := [RootRecord, NarRecord(NarHeader("/..foo", Regular, 0, false, ""), [])];
      && WellFormedNar(ns) && NarToTarSpec(ns).Ok?
      && TarToNarSpec(AsWritten, o, NarToTarSpec(ns).value) == Err(PathEscapesRoot)
  {
    var n := NarRecord(NarHeader("/..foo", Regular, 0, false, ""), []);
    DotDotFooWellFormed(n);
    DotDotFooWritten(n);
    var r := MapNode(n).value.value;
    DotDotPrefixedNameRejected();
    assert Classify(AsWritten, r) == Err(PathEscapesRoot);
    assert [r][..0] == [];
    assert BuildTable(AsWritten, [r]) == Err(PathEscapesRoot);
  }
}
