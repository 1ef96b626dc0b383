/** The entry table `tarToNar` assembles from a tar stream: a map from
    normalised path to staging entry, filled record by record, with the
    missing ancestor directories of every recorded path synthesised by
    `ensureParentDirs`. */
module TarTable {
  import opened Headers
  import opened Strings
  import opened Paths

  type Table = map<string, TarEntry>

  /** The Directory entry `ensureParentDirs` inserts for a missing ancestor. */
  function Placeholder(d: string): TarEntry {
    TarEntry(d, TypeDir, "", [], false)
  }

  lemma DirIsShallower(p: string)
    requires IsCanonical(p) && p != "/"
    ensures Depth(Dir(p)) == Depth(p) - 1
  {
    DirSegments(p);
  }

  lemma DirOfRoot()
    ensures Dir("/") == "/"
  {
    assert "/"[..LastSlash("/") + 1] == "/";
  }

  // ---------------------------------------------------------------------
  // ensureParentDirs

  /** The walk of `ensureParentDirs` from `dir` upward, as a function. */
  function AddParentsFrom(dir: string, t: Table): Table
    requires IsCanonical(dir)
    decreases Depth(dir)
  {
    if dir == "/" || dir == "." then t
    else
      DirIsShallower(dir);
      AddParentsFrom(Dir(dir), if dir in t then t else t[dir := Placeholder(dir)])
  }

  /** The table after `ensureParentDirs(p, t)`. */
  function AddParents(p: string, t: Table): Table
    requires IsCanonical(p)
  {
    AddParentsFrom(Dir(p), t)
  }

  /** What `AddParentsFrom(dir, t)` holds at one key `k`. */
  lemma {:induction false} AddParentsFromKey(dir: string, t: Table, k: string)
    requires IsCanonical(dir)
    ensures k in AddParentsFrom(dir, t) <==> k in t || (k != "/" && (k == dir || IsProperAncestor(k, dir)))
    ensures k in t ==> AddParentsFrom(dir, t)[k] == t[k]
    ensures k in AddParentsFrom(dir, t) && k !in t ==> AddParentsFrom(dir, t)[k] == Placeholder(k)
    decreases Depth(dir)
  {
    if dir != "/" {
      var t1 := if dir in t then t else t[dir := Placeholder(dir)];
      DirIsShallower(dir);
      AddParentsFromKey(Dir(dir), t1, k);
      AncestorOfDir(k, dir);
    }
  }

  lemma AddParentsFromSpec(dir: string, t: Table)
    requires IsCanonical(dir)
    ensures forall k :: k in AddParentsFrom(dir, t) <==> k in t || (k != "/" && (k == dir || IsProperAncestor(k, dir)))
    ensures forall k :: k in t ==> AddParentsFrom(dir, t)[k] == t[k]
    ensures forall k :: k in AddParentsFrom(dir, t) && k !in t ==> AddParentsFrom(dir, t)[k] == Placeholder(k)
  {
    forall k
      ensures k in AddParentsFrom(dir, t) <==> k in t || (k != "/" && (k == dir || IsProperAncestor(k, dir)))
      ensures k in t ==> AddParentsFrom(dir, t)[k] == t[k]
      ensures k in AddParentsFrom(dir, t) && k !in t ==> AddParentsFrom(dir, t)[k] == Placeholder(k)
    {
      AddParentsFromKey(dir, t, k);
    }
  }

  /** `ensureParentDirs(p, t)` adds exactly the proper ancestors of `p`
      other than "/" that were missing, as Directory placeholders, and
      changes no entry that was there. */
  lemma AddParentsSpec(p: string, t: Table)
    requires IsCanonical(p)
    ensures forall k :: k in AddParents(p, t) <==> k in t || (k != "/" && IsProperAncestor(k, p))
    ensures forall k :: k in t ==> AddParents(p, t)[k] == t[k]
    ensures forall k :: k in AddParents(p, t) && k !in t ==> AddParents(p, t)[k] == Placeholder(k)
    ensures "/" in AddParents(p, t) <==> "/" in t
    ensures p in AddParents(p, t) <==> p in t
  {
    AddParentsFromSpec(Dir(p), t);
    if p == "/" {
      DirOfRoot();
    } else {
      forall k
        ensures IsProperAncestor(k, p) <==> k == Dir(p) || IsProperAncestor(k, Dir(p))
      {
        AncestorOfDir(k, p);
      }
    }
  }

  /** `ensureParentDirs`: walk `path.Dir` upward from `p`, inserting a
      Directory placeholder at every missing ancestor. The Go map is
      updated in place; here the map goes in and the updated map comes
      out. */
  method EnsureParentDirs(p: string, entries: Table) returns (updated: Table)
    requires IsCanonical(p)
    ensures updated == AddParents(p, entries)
    ensures forall k :: k in updated <==> k in entries || (k != "/" && IsProperAncestor(k, p))
    ensures forall k :: k in entries ==> updated[k] == entries[k]
    ensures forall k :: k in updated && k !in entries ==> updated[k] == Placeholder(k)
  {
    var dir := Dir(p);
    updated := entries;
    while dir != "/" && dir != "."
      invariant IsCanonical(dir)
      invariant AddParentsFrom(dir, updated) == AddParents(p, entries)
      decreases Depth(dir)
    {
      DirIsShallower(dir);
      if dir !in updated {
        updated := updated[dir := Placeholder(dir)];
      }
      dir := Dir(dir);
    }
    AddParentsSpec(p, entries);
  }

  // ---------------------------------------------------------------------
  // The record loop of tarToNar

  /** The typeflags the loop accepts: the three entry kinds and the
      extended headers it ignores. */
  predicate IsKnownType(tf: Byte) {
    tf in {TypeDir, TypeSymlink, TypeReg, TypeRegA, TypeXHeader, TypeXGlobalHeader, TypeGNULongLink, TypeGNULongName}
  }

  /** The typeflags that store an entry of their own. */
  predicate StoresEntry(tf: Byte) {
    tf in {TypeDir, TypeSymlink, TypeReg, TypeRegA}
  }

  /** A non-root path `normalizeTarPath` can return under either escape test. */
  predicate ValidPath(p: string) {
    IsCanonical(p) && p != "/" && '\0' !in p
  }

  /** The entry a Dir, Symlink, Reg or RegA record stores at path `p`. */
  function EntryOf(p: string, r: TarRecord): (e: TarEntry)
    requires StoresEntry(r.hdr.typeflag)
    ensures e.path == p && e.kind in {TypeDir, TypeSymlink, TypeReg}
    ensures e.kind == TypeReg <==> r.hdr.typeflag in {TypeReg, TypeRegA}
    ensures e.kind == TypeReg ==> e.data == r.body && (e.executable <==> IsExecutableMode(r.hdr.mode))
    ensures e.kind == TypeSymlink ==> e.linkTarget == r.hdr.linkname
    ensures e.kind == TypeDir ==> e == Placeholder(p)
  {
    var tf := r.hdr.typeflag;
    if tf == TypeDir then TarEntry(p, TypeDir, "", [], false)
    else if tf == TypeSymlink then TarEntry(p, TypeSymlink, r.hdr.linkname, [], false)
    else TarEntry(p, TypeReg, "", r.body, IsExecutableMode(r.hdr.mode))
  }

  /** What one record does to the table once its name is normalised and
      its typeflag read: nothing (the name is the root), synthesise the
      parents of `path` only (an extended header), or synthesise them and
      put `entry` at `path`. */
  datatype Action = SkipRoot | ParentsOnly(path: string) | Put(path: string, entry: TarEntry)

  /** The shape of every action `Classify` returns. */
  predicate ValidAction(a: Action) {
    a.SkipRoot? || (ValidPath(a.path) && (a.Put? ==> a.entry.path == a.path && a.entry.kind in {TypeDir, TypeSymlink, TypeReg}))
  }

  /** The loop body up to the table update: `normalizeTarPath`, the skip
      of "/", and the typeflag switch. The root is skipped before the
      typeflag is looked at, so a root record of any type is accepted. */
  function Classify(g: EscapeTest, r: TarRecord): (a: Result<Action>)
    ensures a.Ok? ==> ValidAction(a.value) && (a.value.SkipRoot? || Admitted(g, a.value.path))
  {
    var np := NormalizeTarPath(g, r.hdr.name);
    if np.Err? then Err(np.error)
    else if np.value == "/" then Ok(SkipRoot)
    else
      var p := np.value;
      var tf := r.hdr.typeflag;
      if StoresEntry(tf) then Ok(Put(p, EntryOf(p, r)))
      else if IsKnownType(tf) then Ok(ParentsOnly(p))
      else Err(UnsupportedTarEntry(tf))
  }

  /** A record is rejected exactly when its name does not normalise, or
      it is not the root and its typeflag is none the loop knows; an
      accepted record other than the root acts at its normalised path and
      puts an entry exactly when its typeflag stores one. */
  lemma ClassifySpec(g: EscapeTest, r: TarRecord)
    ensures Classify(g, r).Err? <==> NormalizeTarPath(g, r.hdr.name).Err? || (NormalizeTarPath(g, r.hdr.name) != Ok("/") && !IsKnownType(r.hdr.typeflag))
    ensures Classify(g, r).Ok? && !Classify(g, r).value.SkipRoot? ==> Ok(Classify(g, r).value.path) == NormalizeTarPath(g, r.hdr.name)
    ensures Classify(g, r).Ok? ==> (Classify(g, r).value.Put? <==> NormalizeTarPath(g, r.hdr.name) != Ok("/") && StoresEntry(r.hdr.typeflag))
  {
  }

  /** `Classify` once the name is normalised, case by case. */
  lemma ClassifyCases(g: EscapeTest, r: TarRecord)
    ensures NormalizeTarPath(g, r.hdr.name).Err? ==> Classify(g, r) == Err(NormalizeTarPath(g, r.hdr.name).error)
    ensures NormalizeTarPath(g, r.hdr.name) == Ok("/") ==> Classify(g, r) == Ok(SkipRoot)
    ensures var np, tf := NormalizeTarPath(g, r.hdr.name), r.hdr.typeflag;
      np.Ok? && np.value != "/" ==>
        && (StoresEntry(tf) ==> Classify(g, r) == Ok(Put(np.value, EntryOf(np.value, r))))
        && (!StoresEntry(tf) && IsKnownType(tf) ==> Classify(g, r) == Ok(ParentsOnly(np.value)))
        && (!IsKnownType(tf) ==> Classify(g, r) == Err(UnsupportedTarEntry(tf)))
  {
  }

  /** One more record through the loop. */
  lemma BuildTableStep(g: EscapeTest, rs: seq<TarRecord>, i: int, t: Table)
    requires 0 <= i < |rs| && BuildTable(g, rs[..i]) == Ok(t)
    ensures BuildTable(g, rs[..i + 1]) == Step(g, t, rs[i])
  {
    assert rs[..i + 1][..i] == rs[..i];
  }

  /** The table update of the loop body: `ensureParentDirs`, then the
      assignment `entries[p] = ...` for the three entry kinds. */
  function Apply(t: Table, a: Action): Table
    requires ValidAction(a)
  {
    match a
    case SkipRoot => t
    case ParentsOnly(p) => AddParents(p, t)
    case Put(p, e) => AddParents(p, t)[p := e]
  }

  /** The keys an action puts into the table beyond those already there. */
  predicate Reaches(a: Action, k: string) {
    !a.SkipRoot? && ((a.Put? && k == a.path) || (k != "/" && IsProperAncestor(k, a.path)))
  }

  /** What one update does: it adds the action's entry and its missing
      parents, the entry overwriting any earlier one at its path, and
      changes nothing else. */
  lemma ApplySpec(t: Table, a: Action)
    requires ValidAction(a)
    ensures forall k :: k in Apply(t, a) <==> k in t || Reaches(a, k)
    ensures forall k :: k in Apply(t, a) ==>
      Apply(t, a)[k] == (if a.Put? && k == a.path then a.entry else if k in t then t[k] else Placeholder(k))
  {
    if !a.SkipRoot? {
      AddParentsSpec(a.path, t);
    }
  }

  /** One pass of the loop body over record `r`. */
  function Step(g: EscapeTest, t: Table, r: TarRecord): Result<Table> {
    var a := Classify(g, r);
    if a.Err? then Err(a.error) else Ok(Apply(t, a.value))
  }

  /** The table after the record loop, or the error that stops it. */
  function BuildTable(g: EscapeTest, rs: seq<TarRecord>): Result<Table>
    decreases |rs|
  {
    if rs == [] then Ok(map[])
    else
      var prev := BuildTable(g, rs[..|rs| - 1]);
      if prev.Err? then prev else Step(g, prev.value, rs[|rs| - 1])
  }

  /** Every record of `rs` gets through the loop body. */
  predicate AllAccepted(g: EscapeTest, rs: seq<TarRecord>) {
    forall i :: 0 <= i < |rs| ==> Classify(g, rs[i]).Ok?
  }

  /** Record `rs[i]` is the first rejected one, and `e` is its error. */
  predicate FirstRejected(g: EscapeTest, rs: seq<TarRecord>, e: Error) {
    exists i :: 0 <= i < |rs| && Classify(g, rs[i]).Err? && AllAccepted(g, rs[..i]) && e == Classify(g, rs[i]).error
  }

  /** The actions of a sequence of accepted records. */
  function Actions(g: EscapeTest, rs: seq<TarRecord>): (acts: seq<Action>)
    requires AllAccepted(g, rs)
    ensures |acts| == |rs| && forall i :: 0 <= i < |rs| ==> acts[i] == Classify(g, rs[i]).value
    decreases |rs|
  {
    if rs == [] then []
    else
      AllAcceptedInit(g, rs);
      Actions(g, rs[..|rs| - 1]) + [Classify(g, rs[|rs| - 1]).value]
  }

  predicate ValidActions(acts: seq<Action>) {
    forall i :: 0 <= i < |acts| ==> ValidAction(acts[i])
  }

  /** The table a sequence of actions builds from the empty one. */
  function Fold(acts: seq<Action>): Table
    requires ValidActions(acts)
    decreases |acts|
  {
    if acts == [] then map[] else Apply(Fold(acts[..|acts| - 1]), acts[|acts| - 1])
  }

  lemma AllAcceptedSnoc(g: EscapeTest, rs: seq<TarRecord>)
    requires rs != []
    ensures AllAccepted(g, rs) <==> AllAccepted(g, rs[..|rs| - 1]) && Classify(g, rs[|rs| - 1]).Ok?
  {
    if AllAccepted(g, rs) {
      AllAcceptedInit(g, rs);
    }
    if AllAccepted(g, rs[..|rs| - 1]) && Classify(g, rs[|rs| - 1]).Ok? {
      AllAcceptedExtend(g, rs);
    }
  }

  lemma AllAcceptedInit(g: EscapeTest, rs: seq<TarRecord>)
    requires rs != [] && AllAccepted(g, rs)
    ensures AllAccepted(g, rs[..|rs| - 1])
  {
    var pre := rs[..|rs| - 1];
    forall j | 0 <= j < |pre|
      ensures Classify(g, pre[j]).Ok?
    {
      assert pre[j] == rs[j];
    }
  }

  lemma AllAcceptedExtend(g: EscapeTest, rs: seq<TarRecord>)
    requires rs != [] && AllAccepted(g, rs[..|rs| - 1]) && Classify(g, rs[|rs| - 1]).Ok?
    ensures AllAccepted(g, rs)
  {
    var pre := rs[..|rs| - 1];
    forall j | 0 <= j < |rs|
      ensures Classify(g, rs[j]).Ok?
    {
      if j < |pre| {
        assert pre[j] == rs[j];
      } else {
        assert j == |rs| - 1;
      }
    }
  }

  /** `BuildTable` fails exactly when some record is rejected. */
  lemma {:induction false} BuildTableAccepts(g: EscapeTest, rs: seq<TarRecord>)
    ensures BuildTable(g, rs).Ok? <==> AllAccepted(g, rs)
    decreases |rs|
  {
    if rs != [] {
      BuildTableAccepts(g, rs[..|rs| - 1]);
      AllAcceptedSnoc(g, rs);
    }
  }

  /** When `BuildTable` fails, it fails with the error of the first
      rejected record. */
  lemma {:induction false} BuildTableFirstRejected(g: EscapeTest, rs: seq<TarRecord>)
    requires BuildTable(g, rs).Err?
    ensures FirstRejected(g, rs, BuildTable(g, rs).error)
    decreases |rs|
  {
    var pre := rs[..|rs| - 1];
    if BuildTable(g, pre).Err? {
      BuildTableFirstRejected(g, pre);
      FirstRejectedSnoc(g, rs, BuildTable(g, pre).error);
    } else {
      BuildTableAccepts(g, pre);
      FirstRejectedLast(g, rs);
    }
  }

  lemma FirstRejectedSnoc(g: EscapeTest, rs: seq<TarRecord>, e: Error)
    requires rs != [] && FirstRejected(g, rs[..|rs| - 1], e)
    ensures FirstRejected(g, rs, e)
  {
    var pre := rs[..|rs| - 1];
    var i :| 0 <= i < |pre| && Classify(g, pre[i]).Err? && AllAccepted(g, pre[..i]) && e == Classify(g, pre[i]).error;
    assert pre[..i] == rs[..i];
    assert pre[i] == rs[i];
    assert 0 <= i < |rs| && Classify(g, rs[i]).Err? && AllAccepted(g, rs[..i]) && e == Classify(g, rs[i]).error;
  }

  lemma FirstRejectedLast(g: EscapeTest, rs: seq<TarRecord>)
    requires rs != [] && AllAccepted(g, rs[..|rs| - 1]) && Classify(g, rs[|rs| - 1]).Err?
    ensures FirstRejected(g, rs, Classify(g, rs[|rs| - 1]).error)
  {
    var i := |rs| - 1;
    assert Classify(g, rs[i]).Err? && AllAccepted(g, rs[..i]);
  }

  /** When every record is accepted, the table is the fold of their actions. */
  lemma {:induction false} BuildTableFold(g: EscapeTest, rs: seq<TarRecord>)
    requires AllAccepted(g, rs)
    ensures BuildTable(g, rs) == Ok(Fold(Actions(g, rs)))
    decreases |rs|
  {
    if rs != [] {
      var pre := rs[..|rs| - 1];
      AllAcceptedInit(g, rs);
      BuildTableFold(g, pre);
      FoldActionsSnoc(g, rs);
    }
  }

  /** The fold of the actions of `rs` is the fold of those of all but the
      last record, updated by the last record's action. */
  lemma FoldActionsSnoc(g: EscapeTest, rs: seq<TarRecord>)
    requires rs != [] && AllAccepted(g, rs) && AllAccepted(g, rs[..|rs| - 1])
    ensures Fold(Actions(g, rs)) == Apply(Fold(Actions(g, rs[..|rs| - 1])), Classify(g, rs[|rs| - 1]).value)
  {
    var prev := Actions(g, rs[..|rs| - 1]);
    var a := Classify(g, rs[|rs| - 1]).value;
    assert Actions(g, rs) == prev + [a];
    assert (prev + [a])[..|prev|] == prev;
    assert (prev + [a])[|prev|] == a;
  }

  /** The entry the last action putting at `k` puts there, if any. */
  function LastPut(acts: seq<Action>, k: string): Option<TarEntry>
    decreases |acts|
  {
    if acts == [] then None
    else if acts[|acts| - 1].Put? && acts[|acts| - 1].path == k then Some(acts[|acts| - 1].entry)
    else LastPut(acts[..|acts| - 1], k)
  }

  /** Action `acts[i]` is the last one putting at `k`, and puts `e`. */
  predicate LastPutIs(acts: seq<Action>, k: string, e: TarEntry) {
    exists i :: 0 <= i < |acts| && acts[i] == Put(k, e) && (forall j :: i < j < |acts| ==> !(acts[j].Put? && acts[j].path == k))
  }

  /** Last write wins: `LastPut` is the entry of the last action putting
      at `k`, and there is one exactly when some action does. */
  lemma {:induction false} LastPutSpec(acts: seq<Action>, k: string)
    ensures LastPut(acts, k).Some? <==> PutsAt(acts, k)
    ensures LastPut(acts, k).Some? ==> LastPutIs(acts, k, LastPut(acts, k).value)
    decreases |acts|
  {
    if acts != [] {
      var n := |acts|;
      var pre := acts[..n - 1];
      LastPutSpec(pre, k);
      if acts[n - 1].Put? && acts[n - 1].path == k {
        assert acts[n - 1] == Put(k, LastPut(acts, k).value);
      } else {
        LastPutSnoc(acts, k);
        if LastPut(pre, k).Some? {
          var e := LastPut(pre, k).value;
          var i :| 0 <= i < |pre| && pre[i] == Put(k, e)
            && (forall j :: i < j < |pre| ==> !(pre[j].Put? && pre[j].path == k));
          LastPutIsSnoc(acts, k, e, i);
        }
      }
    }
  }

  /** Some action of `acts` puts at `k`. */
  predicate PutsAt(acts: seq<Action>, k: string) {
    exists i :: 0 <= i < |acts| && acts[i].Put? && acts[i].path == k
  }

  lemma LastPutSnoc(acts: seq<Action>, k: string)
    requires acts != [] && !(acts[|acts| - 1].Put? && acts[|acts| - 1].path == k)
    ensures PutsAt(acts, k) <==> PutsAt(acts[..|acts| - 1], k)
  {
    var pre := acts[..|acts| - 1];
    if PutsAt(acts, k) {
      var i :| 0 <= i < |acts| && acts[i].Put? && acts[i].path == k;
      assert pre[i] == acts[i];
    }
    if PutsAt(pre, k) {
      var i :| 0 <= i < |pre| && pre[i].Put? && pre[i].path == k;
      assert pre[i] == acts[i];
    }
  }

  lemma LastPutIsSnoc(acts: seq<Action>, k: string, e: TarEntry, i: int)
    requires acts != [] && !(acts[|acts| - 1].Put? && acts[|acts| - 1].path == k)
    requires var pre := acts[..|acts| - 1];
      0 <= i < |pre| && pre[i] == Put(k, e) && (forall j :: i < j < |pre| ==> !(pre[j].Put? && pre[j].path == k))
    ensures LastPutIs(acts, k, e)
  {
    var pre := acts[..|acts| - 1];
    assert acts[i] == pre[i];
    forall j | i < j < |acts|
      ensures !(acts[j].Put? && acts[j].path == k)
    {
      if j < |pre| {
        assert acts[j] == pre[j];
      }
    }
  }

  /** Some action of `acts` reaches `k`. */
  predicate SomeReaches(acts: seq<Action>, k: string) {
    exists i :: 0 <= i < |acts| && Reaches(acts[i], k)
  }

  lemma SomeReachesSnoc(acts: seq<Action>, k: string)
    requires acts != []
    ensures SomeReaches(acts, k) <==> SomeReaches(acts[..|acts| - 1], k) || Reaches(acts[|acts| - 1], k)
  {
    var pre := acts[..|acts| - 1];
    if SomeReaches(acts, k) && !Reaches(acts[|acts| - 1], k) {
      var i :| 0 <= i < |acts| && Reaches(acts[i], k);
      assert pre[i] == acts[i];
    }
    if SomeReaches(pre, k) {
      var i :| 0 <= i < |pre| && Reaches(pre[i], k);
      assert pre[i] == acts[i];
    }
  }

  lemma ApplyKey(t: Table, a: Action, k: string)
    requires ValidAction(a)
    ensures k in Apply(t, a) <==> k in t || Reaches(a, k)
  {
    ApplySpec(t, a);
  }

  /** `k` is a key of the table exactly when some action reaches it. */
  lemma {:induction false} FoldKey(acts: seq<Action>, k: string)
    requires ValidActions(acts)
    ensures k in Fold(acts) <==> SomeReaches(acts, k)
    decreases |acts|
  {
    if acts != [] {
      var pre := acts[..|acts| - 1];
      assert ValidActions(pre) by {
        assert forall i :: 0 <= i < |pre| ==> pre[i] == acts[i];
      }
      FoldKey(pre, k);
      ApplyKey(Fold(pre), acts[|acts| - 1], k);
      SomeReachesSnoc(acts, k);
    }
  }

  /** Each key holds the entry last put there, or a Directory placeholder
      when only its descendants were recorded. */
  lemma {:induction false} FoldValues(acts: seq<Action>)
    requires ValidActions(acts)
    ensures forall k :: k in Fold(acts) ==>
      Fold(acts)[k] == (if LastPut(acts, k).Some? then LastPut(acts, k).value else Placeholder(k))
    decreases |acts|
  {
    if acts != [] {
      var n := |acts|;
      var pre := acts[..n - 1];
      var last := acts[n - 1];
      assert ValidActions(pre) by {
        assert forall i :: 0 <= i < n - 1 ==> pre[i] == acts[i];
      }
      FoldValues(pre);
      ApplySpec(Fold(pre), last);
      forall k | k in Fold(acts) && !(last.Put? && last.path == k) && k !in Fold(pre)
        ensures LastPut(pre, k).None?
      {
        FoldKey(pre, k);
        LastPutSpec(pre, k);
      }
    }
  }

  /** The contents of the table: the keys are the paths some action
      reaches, and each holds the entry last put there, or a Directory
      placeholder when only its descendants were recorded. */
  lemma FoldContents(acts: seq<Action>)
    requires ValidActions(acts)
    ensures forall k :: k in Fold(acts) <==> exists i :: 0 <= i < |acts| && Reaches(acts[i], k)
    ensures forall k :: k in Fold(acts) ==>
      Fold(acts)[k] == (if LastPut(acts, k).Some? then LastPut(acts, k).value else Placeholder(k))
  {
    forall k
      ensures k in Fold(acts) <==> exists i :: 0 <= i < |acts| && Reaches(acts[i], k)
    {
      FoldKey(acts, k);
    }
    FoldValues(acts);
  }

  /** The shape of every table the loop builds: no root key, only paths
      `normalizeTarPath` can return, each entry filed under its own path
      with one of the three entry kinds, and every proper ancestor of a
      key other than "/" a key too. */
  ghost predicate WellFormedTable(t: Table) {
    && (forall k :: k in t ==> ValidPath(k) && t[k].path == k && t[k].kind in {TypeDir, TypeSymlink, TypeReg})
    && (forall k, a :: k in t && a != "/" && IsProperAncestor(a, k) ==> a in t)
  }

  lemma AncestorPrefix(a: string, p: string)
    requires IsProperAncestor(a, p) && a != "/"
    ensures |a| < |p| && p[..|a|] == a
  {
    AncestorIsPrefix(a, p);
    var q := p[..|a| + 1];
    assert q == a + "/";
    assert p[..|a|] == q[..|a|];
    assert (a + "/")[..|a|] == a;
  }

  /** An ancestor of a valid path, other than the root, is valid. */
  lemma AncestorValid(a: string, p: string)
    requires ValidPath(p) && a != "/" && IsProperAncestor(a, p)
    ensures ValidPath(a)
  {
    AncestorPrefix(a, p);
    assert '\0' !in a by {
      assert forall i :: 0 <= i < |a| ==> a[i] == p[i];
    }
  }

  /** An ancestor of a path the escape test lets through, other than the
      root, gets through too. */
  lemma AncestorAdmitted(g: EscapeTest, a: string, p: string)
    requires Admitted(g, p) && a != "/" && IsProperAncestor(a, p)
    ensures Admitted(g, a)
  {
    AncestorPrefix(a, p);
    if |a| >= 3 {
      assert a[..3] == p[..3];
    }
  }

  lemma ApplyWellFormed(t: Table, a: Action)
    requires WellFormedTable(t) && ValidAction(a)
    ensures WellFormedTable(Apply(t, a))
  {
    var t' := Apply(t, a);
    ApplySpec(t, a);
    forall k | k in t'
      ensures ValidPath(k) && t'[k].path == k && t'[k].kind in {TypeDir, TypeSymlink, TypeReg}
    {
      if k !in t && !(a.Put? && k == a.path) {
        AncestorValid(k, a.path);
      }
    }
    forall k, d | k in t' && d != "/" && IsProperAncestor(d, k)
      ensures d in t'
    {
      if k !in t && !(a.Put? && k == a.path) {
        AncestorTransitive(d, k, a.path);
      }
    }
  }

  lemma {:induction false} FoldWellFormed(acts: seq<Action>)
    requires ValidActions(acts)
    ensures WellFormedTable(Fold(acts))
    decreases |acts|
  {
    if acts != [] {
      var pre := acts[..|acts| - 1];
      assert ValidActions(pre) by {
        assert forall i :: 0 <= i < |pre| ==> pre[i] == acts[i];
      }
      FoldWellFormed(pre);
      ApplyWellFormed(Fold(pre), acts[|acts| - 1]);
    }
  }

  /** Every key of the table a sequence of actions builds gets through the
      escape test when every action's path does. */
  lemma {:induction false} FoldAdmitted(g: EscapeTest, acts: seq<Action>)
    requires ValidActions(acts)
    requires forall i :: 0 <= i < |acts| && !acts[i].SkipRoot? ==> Admitted(g, acts[i].path)
    ensures forall k :: k in Fold(acts) ==> Admitted(g, k)
    decreases |acts|
  {
    if acts != [] {
      var pre := acts[..|acts| - 1];
      var a := acts[|acts| - 1];
      assert ValidActions(pre) by {
        assert forall i :: 0 <= i < |pre| ==> pre[i] == acts[i];
      }
      FoldAdmitted(g, pre);
      ApplySpec(Fold(pre), a);
      forall k | k in Fold(acts)
        ensures Admitted(g, k)
      {
        if k !in Fold(pre) && !(a.Put? && k == a.path) {
          AncestorAdmitted(g, k, a.path);
        }
      }
    }
  }

  /** Once a prefix of the stream fails, the whole loop fails with the same error. */
  lemma {:induction false} BuildTableSticky(g: EscapeTest, rs: seq<TarRecord>, i: nat)
    requires i <= |rs| && BuildTable(g, rs[..i]).Err?
    ensures BuildTable(g, rs) == BuildTable(g, rs[..i])
    decreases |rs|
  {
    if i < |rs| {
      var pre := rs[..|rs| - 1];
      assert pre[..i] == rs[..i];
      BuildTableSticky(g, pre, i);
    } else {
      assert rs[..i] == rs;
    }
  }

  /** Every path put by two actions is put with the same entry. */
  predicate UniquePuts(acts: seq<Action>) {
    forall i, j :: 0 <= i < |acts| && 0 <= j < |acts| && acts[i].Put? && acts[j].Put? && acts[i].path == acts[j].path ==> acts[i] == acts[j]
  }

  lemma SomeReachesSameActions(acts: seq<Action>, acts': seq<Action>, k: string)
    requires forall a :: a in acts <==> a in acts'
    ensures SomeReaches(acts, k) <==> SomeReaches(acts', k)
  {
    if SomeReaches(acts, k) {
      var i :| 0 <= i < |acts| && Reaches(acts[i], k);
      assert acts[i] in acts';
      var j :| 0 <= j < |acts'| && acts'[j] == acts[i];
    }
    if SomeReaches(acts', k) {
      var j :| 0 <= j < |acts'| && Reaches(acts'[j], k);
      assert acts'[j] in acts;
      var i :| 0 <= i < |acts| && acts[i] == acts'[j];
    }
  }

  lemma LastPutSameActions(acts: seq<Action>, acts': seq<Action>, k: string)
    requires forall a :: a in acts <==> a in acts'
    requires UniquePuts(acts)
    ensures LastPut(acts, k) == LastPut(acts', k)
  {
    LastPutSpec(acts, k);
    LastPutSpec(acts', k);
    if LastPut(acts, k).Some? {
      var i :| 0 <= i < |acts| && acts[i].Put? && acts[i].path == k;
      assert acts[i] in acts';
    }
    if LastPut(acts', k).Some? {
      var j :| 0 <= j < |acts'| && acts'[j].Put? && acts'[j].path == k;
      assert acts'[j] in acts;
    }
    if LastPut(acts, k).Some? && LastPut(acts', k).Some? {
      var e, e' := LastPut(acts, k).value, LastPut(acts', k).value;
      var i :| 0 <= i < |acts| && acts[i] == Put(k, e) && (forall j :: i < j < |acts| ==> !(acts[j].Put? && acts[j].path == k));
      var j :| 0 <= j < |acts'| && acts'[j] == Put(k, e') && (forall m :: j < m < |acts'| ==> !(acts'[m].Put? && acts'[m].path == k));
      assert acts'[j] in acts;
      var m :| 0 <= m < |acts| && acts[m] == acts'[j];
    }
  }

  /** When no path is put twice with different entries, the table depends
      only on which actions occur, not on their order or repetition. */
  lemma FoldOrderIndependent(acts: seq<Action>, acts': seq<Action>)
    requires ValidActions(acts) && ValidActions(acts')
    requires forall a :: a in acts <==> a in acts'
    requires UniquePuts(acts)
    ensures Fold(acts) == Fold(acts')
  {
    var f, f' := Fold(acts), Fold(acts');
    forall k
      ensures k in f <==> k in f'
    {
      FoldKey(acts, k);
      FoldKey(acts', k);
      SomeReachesSameActions(acts, acts', k);
    }
    FoldValues(acts);
    FoldValues(acts');
    forall k | k in f
      ensures f[k] == f'[k]
    {
      LastPutSameActions(acts, acts', k);
    }
  }

  /** Every table the loop builds is well formed. */
  lemma BuildTableWellFormed(g: EscapeTest, rs: seq<TarRecord>)
    requires BuildTable(g, rs).Ok?
    ensures WellFormedTable(BuildTable(g, rs).value)
    ensures "/" !in BuildTable(g, rs).value
    ensures forall k :: k in BuildTable(g, rs).value ==> Admitted(g, k)
  {
    BuildTableAccepts(g, rs);
    BuildTableFold(g, rs);
    FoldWellFormed(Actions(g, rs));
    FoldAdmitted(g, Actions(g, rs));
  }

  lemma AcceptedSameRecords(g: EscapeTest, rs: seq<TarRecord>, rs': seq<TarRecord>)
    requires forall r :: r in rs <==> r in rs'
    requires AllAccepted(g, rs)
    ensures AllAccepted(g, rs')
  {
    forall j | 0 <= j < |rs'|
      ensures Classify(g, rs'[j]).Ok?
    {
      assert rs'[j] in rs;
      var i :| 0 <= i < |rs| && rs[i] == rs'[j];
    }
  }

  lemma ActionInOther(g: EscapeTest, rs: seq<TarRecord>, rs': seq<TarRecord>, i: int)
    requires forall r :: r in rs ==> r in rs'
    requires AllAccepted(g, rs) && AllAccepted(g, rs') && 0 <= i < |rs|
    ensures Actions(g, rs)[i] in Actions(g, rs')
  {
    assert rs[i] in rs';
    var j :| 0 <= j < |rs'| && rs'[j] == rs[i];
    assert Actions(g, rs')[j] == Classify(g, rs[i]).value;
  }

  lemma ActionsSameRecords(g: EscapeTest, rs: seq<TarRecord>, rs': seq<TarRecord>, a: Action)
    requires forall r :: r in rs <==> r in rs'
    requires AllAccepted(g, rs) && AllAccepted(g, rs')
    ensures a in Actions(g, rs) <==> a in Actions(g, rs')
  {
    var acts, acts' := Actions(g, rs), Actions(g, rs');
    if a in acts {
      var i :| 0 <= i < |acts| && acts[i] == a;
      ActionInOther(g, rs, rs', i);
    }
    if a in acts' {
      var j :| 0 <= j < |acts'| && acts'[j] == a;
      ActionInOther(g, rs', rs, j);
    }
  }

  /** The table does not depend on the order of the tar records, nor on
      repeated records, as long as no two of them store different entries
      at one path. */
  lemma TableOrderIndependent(g: EscapeTest, rs: seq<TarRecord>, rs': seq<TarRecord>)
    requires forall r :: r in rs <==> r in rs'
    requires AllAccepted(g, rs) && UniquePuts(Actions(g, rs))
    ensures AllAccepted(g, rs') && BuildTable(g, rs') == BuildTable(g, rs)
  {
    AcceptedSameRecords(g, rs, rs');
    var acts, acts' := Actions(g, rs), Actions(g, rs');
    forall a
      ensures a in acts <==> a in acts'
    {
      ActionsSameRecords(g, rs, rs', a);
    }
    BuildTableFold(g, rs);
    BuildTableFold(g, rs');
    FoldOrderIndependent(acts, acts');
  }
}
