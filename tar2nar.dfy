/** `tarToNar`: read the whole tar stream into the entry table, sort the
    table's paths together with "/", and write a NAR stream made of a
    root Directory followed by one node per table entry. */
module Tar2Nar {
  import opened Headers
  import opened Paths
  import opened Ordering
  import opened TarTable

  /** The root node `tarToNar` always writes first. */
  const RootRecord: NarRecord := NarRecord(NarHeader("/", Directory, 0, false, ""), [])

  /** The NAR node written for the table entry `e` at `p` (total: the kind
      check is in `EmitEntry`). */
  function NarOf(p: string, e: TarEntry): NarRecord {
    if e.kind == TypeDir then NarRecord(NarHeader(p, Directory, 0, false, ""), [])
    else if e.kind == TypeSymlink then NarRecord(NarHeader(p, Symlink, 0, false, e.linkTarget), [])
    else NarRecord(NarHeader(p, Regular, |e.data|, e.executable, ""), e.data)
  }

  /** One pass of the emission loop's switch on the entry kind. */
  function EmitEntry(p: string, e: TarEntry): (r: Result<NarRecord>)
    ensures r.Ok? <==> e.kind in {TypeDir, TypeSymlink, TypeReg}
    ensures r.Ok? ==> r.value == NarOf(p, e) && r.value.hdr.path == p
    ensures r.Ok? && e.kind == TypeReg ==>
      r.value.hdr.nodeType == Regular && r.value.hdr.size == |e.data| && r.value.body == e.data && r.value.hdr.executable == e.executable
    ensures r.Err? ==> r.error == UnsupportedEntryKind(e.kind)
  {
    if e.kind in {TypeDir, TypeSymlink, TypeReg} then Ok(NarOf(p, e))
    else Err(UnsupportedEntryKind(e.kind))
  }

  /** The emission loop over `ps`: "/" and paths without an entry are
      skipped, every other path is written. */
  function EmitPaths(ps: seq<string>, t: Table): Result<seq<NarRecord>>
    decreases |ps|
  {
    if ps == [] then Ok([])
    else
      var prev := EmitPaths(ps[..|ps| - 1], t);
      var p := ps[|ps| - 1];
      if prev.Err? || p == "/" || p !in t then prev
      else
        var r := EmitEntry(p, t[p]);
        if r.Err? then Err(r.error) else Ok(prev.value + [r.value])
  }

  /** Some enumeration of a set of paths: Go's map iteration order. */
  ghost function Enumerate(ks: set<string>): (r: seq<string>)
    ensures forall x :: x in r <==> x in ks
    ensures Distinct(r)
    decreases |ks|
  {
    if ks == {} then []
    else
      var k :| k in ks;
      var rest := Enumerate(ks - {k});
      [k] + rest
  }

  /** The paths the emission loop walks: "/" and the table's keys, sorted. */
  ghost function SortedPaths(o: Order, t: Table): seq<string> {
    Sort(o, ["/"] + Enumerate(t.Keys))
  }

  /** What `tarToNar` writes for the records `rs` under the escape test
      `g` when it sorts with `o`; the program as written uses `AsWritten`
      and `ByteOrder`. */
  ghost function TarToNarSpec(g: EscapeTest, o: Order, rs: seq<TarRecord>): Result<seq<NarRecord>> {
    var b := BuildTable(g, rs);
    if b.Err? then Err(b.error)
    else
      var body := EmitPaths(SortedPaths(o, b.value), b.value);
      if body.Err? then Err(body.error) else Ok([RootRecord] + body.value)
  }

  /** The paths of a sequence of NAR records. */
  function PathsOf(ns: seq<NarRecord>): (ps: seq<string>)
    ensures |ps| == |ns| && forall i :: 0 <= i < |ns| ==> ps[i] == ns[i].hdr.path
    decreases |ns|
  {
    if ns == [] then [] else PathsOf(ns[..|ns| - 1]) + [ns[|ns| - 1].hdr.path]
  }

  // ---------------------------------------------------------------------
  // Properties of the emission

  /** Once a prefix of the emission fails, the whole emission fails with
      the same error. */
  lemma {:induction false} EmitPathsSticky(ps: seq<string>, j: nat, t: Table)
    requires j <= |ps| && EmitPaths(ps[..j], t).Err?
    ensures EmitPaths(ps, t) == EmitPaths(ps[..j], t)
    decreases |ps|
  {
    if j < |ps| {
      var pre := ps[..|ps| - 1];
      assert pre[..j] == ps[..j];
      EmitPathsSticky(pre, j, t);
    } else {
      assert ps[..j] == ps;
    }
  }

  /** Emitting "/" followed by keys of a well-formed table writes one node
      per key, in the order given, with the key's entry. */
  lemma {:induction false} EmitKeys(ps: seq<string>, t: Table)
    requires Emittable(t)
    requires |ps| >= 1 && ps[0] == "/" && forall i :: 1 <= i < |ps| ==> ps[i] in t
    ensures EmitPaths(ps, t).Ok?
    ensures |EmitPaths(ps, t).value| == |ps| - 1
    ensures forall i :: 1 <= i < |ps| ==> EmitPaths(ps, t).value[i - 1] == NarOf(ps[i], t[ps[i]])
    decreases |ps|
  {
    var n := |ps|;
    var pre := ps[..n - 1];
    if n == 1 {
      assert pre == [];
    } else {
      assert forall i :: 0 <= i < n - 1 ==> pre[i] == ps[i];
      EmitKeys(pre, t);
    }
  }

  /** The table facts emission relies on. */
  predicate Emittable(t: Table) {
    forall k :: k in t ==> IsCanonical(k) && k != "/" && t[k].kind in {TypeDir, TypeSymlink, TypeReg}
  }

  /** The emitted stream for "/" followed by keys: the root first, then
      one node per key in the order given, made from the key's entry. */
  lemma EmitStream(ps: seq<string>, t: Table)
    requires Emittable(t)
    requires |ps| >= 1 && ps[0] == "/" && forall i :: 1 <= i < |ps| ==> ps[i] in t
    ensures EmitPaths(ps, t).Ok?
    ensures var out := [RootRecord] + EmitPaths(ps, t).value;
      && PathsOf(out) == ps
      && (forall i :: 1 <= i < |out| ==> out[i] == NarOf(ps[i], t[ps[i]]))
  {
    EmitKeys(ps, t);
    var body := EmitPaths(ps, t).value;
    var out := [RootRecord] + body;
    forall i | 1 <= i < |out|
      ensures out[i] == NarOf(ps[i], t[ps[i]])
    {
      assert out[i] == body[i - 1];
    }
    RootThenPaths(out, ps);
  }

  lemma RootThenPaths(out: seq<NarRecord>, ps: seq<string>)
    requires |out| == |ps| >= 1 && out[0] == RootRecord && ps[0] == "/"
    requires forall i :: 1 <= i < |out| ==> out[i].hdr.path == ps[i]
    ensures PathsOf(out) == ps
  {
    var qs := PathsOf(out);
    forall i | 0 <= i < |ps|
      ensures qs[i] == ps[i]
    {
    }
  }

  /** A strictly sorted sequence lists its elements exactly once, so its
      length is the size of its element set. */
  lemma {:induction false} SortedCount(o: Order, ps: seq<string>, ks: set<string>)
    requires StrictlySorted(o, ps) && forall x :: x in ps <==> x in ks
    ensures |ps| == |ks|
    decreases |ps|
  {
    if ps != [] {
      var n := |ps|;
      var pre := ps[..n - 1];
      LessIrreflexive(o, ps[n - 1]);
      assert ps[n - 1] !in pre by {
        forall i | 0 <= i < n - 1
          ensures pre[i] != ps[n - 1]
        {
          assert Less(o, ps[i], ps[n - 1]);
        }
      }
      assert forall x :: x in ps <==> x in pre || x == ps[n - 1];
      SortedCount(o, pre, ks - {ps[n - 1]});
    }
  }

  /** The shape of the `tarToNar` output, whatever the sort order: the
      root Directory first and once, then every table key exactly once,
      all paths in strictly increasing order, each node made from the
      key's entry. It fails only when the record loop does. */
  lemma TarToNarShape(g: EscapeTest, o: Order, rs: seq<TarRecord>)
    requires BuildTable(g, rs).Ok?
    ensures TarToNarSpec(g, o, rs).Ok?
    ensures var out, t := TarToNarSpec(g, o, rs).value, BuildTable(g, rs).value;
      && |out| == |t| + 1
      && out[0] == RootRecord
      && StrictlySorted(o, PathsOf(out))
      && (forall k :: k in PathsOf(out) <==> k == "/" || k in t)
      && (forall i :: 1 <= i < |out| ==> out[i].hdr.path in t && out[i] == NarOf(out[i].hdr.path, t[out[i].hdr.path]))
  {
    var t := BuildTable(g, rs).value;
    TableEmittable(g, rs);
    EmitSorted(o, t);
  }

  lemma TableEmittable(g: EscapeTest, rs: seq<TarRecord>)
    requires BuildTable(g, rs).Ok?
    ensures Emittable(BuildTable(g, rs).value) && "/" !in BuildTable(g, rs).value
  {
    BuildTableWellFormed(g, rs);
  }

  /** The same shape for the emission of any emittable table. */
  lemma EmitSorted(o: Order, t: Table)
    requires Emittable(t) && "/" !in t
    ensures EmitPaths(SortedPaths(o, t), t).Ok?
    ensures var out := [RootRecord] + EmitPaths(SortedPaths(o, t), t).value;
      && |out| == |t| + 1
      && out[0] == RootRecord
      && StrictlySorted(o, PathsOf(out))
      && (forall k :: k in PathsOf(out) <==> k == "/" || k in t)
      && (forall i :: 1 <= i < |out| ==> out[i].hdr.path in t && out[i] == NarOf(out[i].hdr.path, t[out[i].hdr.path]))
  {
    var ps := SortedPaths(o, t);
    SortedPathsSpec(o, t);
    EmitStream(ps, t);
    SortedCount(o, ps, t.Keys + {"/"});
  }

  /** A strictly sorted sequence of canonical paths holding "/" starts with it. */
  lemma RootLeads(o: Order, ps: seq<string>)
    requires StrictlySorted(o, ps) && "/" in ps
    requires forall i :: 0 <= i < |ps| ==> IsCanonical(ps[i])
    ensures ps[0] == "/"
  {
    var r :| 0 <= r < |ps| && ps[r] == "/";
    if r != 0 {
      LessIrreflexive(o, "/");
      assert Less(o, ps[0], ps[r]);
      RootFirst(o, ps[0]);
      LessAsymmetric(o, ps[0], "/");
    }
  }

  lemma RootThenDistinct(e: seq<string>)
    requires Distinct(e) && "/" !in e
    ensures Distinct(["/"] + e)
  {
    var s := ["/"] + e;
    forall i, j | 0 <= i < j < |s|
      ensures s[i] != s[j]
    {
      assert s[j] == e[j - 1];
      if i > 0 {
        assert s[i] == e[i - 1];
      }
    }
  }

  /** The walked paths are "/" then the keys, strictly sorted. */
  lemma SortedPathsSpec(o: Order, t: Table)
    requires forall k :: k in t ==> IsCanonical(k) && k != "/"
    ensures var ps := SortedPaths(o, t);
      && StrictlySorted(o, ps) && |ps| >= 1 && ps[0] == "/"
      && (forall x :: x in ps <==> x == "/" || x in t)
  {
    var e := Enumerate(t.Keys);
    RootThenDistinct(e);
    var s := ["/"] + e;
    var ps := Sort(o, s);
    assert forall x :: x in ps <==> x in multiset(s);
    assert forall x :: x in s <==> x == "/" || x in e;
    forall i | 0 <= i < |ps|
      ensures IsCanonical(ps[i])
    {
      assert ps[i] in multiset(s);
      if ps[i] != "/" {
        assert ps[i] in t;
      }
    }
    assert "/" in multiset(s);
    RootLeads(o, ps);
  }

  /** The output does not depend on the order of the tar records as long
      as no two of them store different entries at one path. */
  lemma TarToNarOrderIndependent(g: EscapeTest, o: Order, rs: seq<TarRecord>, rs': seq<TarRecord>)
    requires forall r :: r in rs <==> r in rs'
    requires AllAccepted(g, rs) && UniquePuts(Actions(g, rs))
    ensures TarToNarSpec(g, o, rs') == TarToNarSpec(g, o, rs)
  {
    TableOrderIndependent(g, rs, rs');
  }

  // ---------------------------------------------------------------------
  // tarToNar

  /** A record named "a" followed by a NUL byte: its name is refused. */
  lemma NulNameRejected(g: EscapeTest, r: TarRecord)
    requires r.hdr.name == "a\0"
    ensures Classify(g, r) == Err(PathHasNullByte)
  {
    var n := "a\0";
    assert n[0] == 'a';
    assert Stripped(n) == n;
    ExampleSegments(n);
    assert "/" + n == "/a\0";
    assert Clean("/a\0") == "/a\0";
    assert ("/a\0")[2] == '\0';
  }

  /** A record named "b" with the unknown typeflag 51: its type is refused. */
  lemma UnknownTypeRejected(g: EscapeTest, r: TarRecord)
    requires r.hdr.name == "b" && r.hdr.typeflag == 51
    ensures Classify(g, r) == Err(UnsupportedTarEntry(51))
  {
    var n := "b";
    assert n[0] == 'b';
    assert Stripped(n) == n;
    NormalizeRelativeName(g, "/b", false) by {
      ExampleSegments(n);
      assert "/" + n == "/b";
    }
    assert "/b"[1..] == n;
  }

  /** Without every record accepted the output can depend on the order:
      the first rejected record decides the error. */
  lemma RejectionOrderMatters(g: EscapeTest, o: Order, r1: TarRecord, r2: TarRecord)
    requires r1.hdr.name == "a\0" && r2.hdr.name == "b" && r2.hdr.typeflag == 51
    ensures TarToNarSpec(g, o, [r1, r2]) == Err(PathHasNullByte)
    ensures TarToNarSpec(g, o, [r2, r1]) == Err(UnsupportedTarEntry(51))
  {
    NulNameRejected(g, r1);
    UnknownTypeRejected(g, r2);
    assert [r1, r2][..1] == [r1] && [r1][..0] == [];
    assert [r2, r1][..1] == [r2] && [r2][..0] == [];
    assert BuildTable(g, [r1]) == Err(PathHasNullByte);
    assert BuildTable(g, [r2]) == Err(UnsupportedTarEntry(51));
  }

  /** The body of the record loop of `tarToNar` for one record:
      normalise the name, skip "/", synthesise the parents, then store
      the entry the typeflag asks for or stop with an error. */
  method ReadEntry(g: EscapeTest, th: TarRecord, entries: Table) returns (res: Result<Table>)
    ensures res == Step(g, entries, th)
  {
    ClassifyCases(g, th);
    var np := NormalizeTarPath(g, th.hdr.name);
    if np.Err? {
      return Err(np.error);
    }
    var p := np.value;
    var updated := entries;
    if p != "/" {
      updated := EnsureParentDirs(p, updated);
      var tf := th.hdr.typeflag;
      if tf == TypeDir {
        updated := updated[p := TarEntry(p, TypeDir, "", [], false)];
      } else if tf == TypeSymlink {
        updated := updated[p := TarEntry(p, TypeSymlink, th.hdr.linkname, [], false)];
      } else if tf == TypeReg || tf == TypeRegA {
        var executable := IsExecutableMode(th.hdr.mode);
        updated := updated[p := TarEntry(p, TypeReg, "", th.body, executable)];
      } else if tf == TypeXHeader || tf == TypeXGlobalHeader || tf == TypeGNULongLink || tf == TypeGNULongName {
        // extended headers add no entry of their own
      } else {
        return Err(UnsupportedTarEntry(tf));
      }
    }
    res := Ok(updated);
  }

  /** The record loop of `tarToNar`, stopping at the first error. */
  method ReadEntries(g: EscapeTest, rs: seq<TarRecord>) returns (res: Result<Table>)
    ensures res == BuildTable(g, rs)
  {
    var entries: Table := map[];
    var i := 0;
    while i < |rs|
      invariant 0 <= i <= |rs|
      invariant BuildTable(g, rs[..i]) == Ok(entries)
    {
      BuildTableStep(g, rs, i, entries);
      var r := ReadEntry(g, rs[i], entries);
      if r.Err? {
        BuildTableSticky(g, rs, i + 1);
        return r;
      }
      entries := r.value;
      i := i + 1;
    }
    assert rs[..|rs|] == rs;
    res := Ok(entries);
  }

  /** `paths` := "/" followed by the table's keys, in some iteration order. */
  method CollectPaths(entries: Table) returns (paths: seq<string>)
    requires "/" !in entries
    ensures Distinct(paths)
    ensures forall x :: x in paths <==> x == "/" || x in entries
  {
    paths := ["/"];
    var rest := entries.Keys;
    while rest != {}
      invariant rest <= entries.Keys
      invariant forall x :: x in paths <==> x == "/" || (x in entries && x !in rest)
      invariant Distinct(paths)
      decreases |rest|
    {
      var p :| p in rest;
      forall j | 0 <= j < |paths|
        ensures paths[j] != p
      {
        assert paths[j] in paths;
      }
      paths := paths + [p];
      rest := rest - {p};
    }
  }

  /** The emission loop of `tarToNar` over the sorted paths, after the root. */
  method WriteEntries(sorted: seq<string>, entries: Table) returns (res: Result<seq<NarRecord>>)
    ensures res == EmitPaths(sorted, entries)
  {
    var out: seq<NarRecord> := [];
    var j := 0;
    while j < |sorted|
      invariant 0 <= j <= |sorted|
      invariant EmitPaths(sorted[..j], entries) == Ok(out)
    {
      var p := sorted[j];
      assert sorted[..j + 1][..j] == sorted[..j];
      if p != "/" && p in entries {
        var entry := entries[p];
        if entry.kind == TypeDir {
          out := out + [NarRecord(NarHeader(p, Directory, 0, false, ""), [])];
        } else if entry.kind == TypeSymlink {
          out := out + [NarRecord(NarHeader(p, Symlink, 0, false, entry.linkTarget), [])];
        } else if entry.kind == TypeReg {
          out := out + [NarRecord(NarHeader(p, Regular, |entry.data|, entry.executable, ""), entry.data)];
        } else {
          EmitPathsSticky(sorted, j + 1, entries);
          return Err(UnsupportedEntryKind(entry.kind));
        }
      }
      j := j + 1;
    }
    assert sorted[..|sorted|] == sorted;
    res := Ok(out);
  }

  /** `tarToNar` with the escape test `g` and the sort order `o` (the
      program as written uses `AsWritten` and `ByteOrder`); NAR writer
      failures are not modelled. */
  method TarToNar(g: EscapeTest, o: Order, rs: seq<TarRecord>) returns (res: Result<seq<NarRecord>>)
    ensures res == TarToNarSpec(g, o, rs)
  {
    var table := ReadEntries(g, rs);
    if table.Err? {
      return Err(table.error);
    }
    var entries := table.value;
    BuildTableWellFormed(g, rs);
    var paths := CollectPaths(entries);
    // sort.Strings(paths)
    var sorted := Sort(o, paths);
    SortedPathsSpec(o, entries);
    assert forall x :: x in sorted <==> x in multiset(paths);
    SortedUnique(o, sorted, SortedPaths(o, entries));
    var body := WriteEntries(sorted, entries);
    if body.Err? {
      return Err(body.error);
    }
    res := Ok([RootRecord] + body.value);
  }
}
