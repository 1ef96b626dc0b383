/** `narToTar`: every NAR node except the root becomes at most one tar
    record, with the path's leading '/' removed, a '/' appended for
    directories, fixed modes and the epoch as modification time. */
module Nar2Tar {
  import opened Headers
  import opened Strings

  /** The tar name of a NAR path before the directory suffix. */
  function Stem(path: string): string {
    TrimPrefix(path, "/")
  }

  /** The tar record `narToTar` writes for one NAR node, `None` when the
      node is skipped. */
  function MapNode(n: NarRecord): Result<Option<TarRecord>> {
    var h := n.hdr;
    var name := Stem(h.path);
    if h.path == "/" || name == "" then Ok(None)
    else
      match h.nodeType
      case Directory =>
        var dirName := if HasSuffix(name, "/") then name else name + "/";
        Ok(Some(TarRecord(TarHeader(dirName, DirMode, TypeDir, "", 0, Epoch), [])))
      case Symlink =>
        Ok(Some(TarRecord(TarHeader(name, SymlinkMode, TypeSymlink, h.linkTarget, 0, Epoch), [])))
      case Regular =>
        if |n.body| < h.size then Err(ShortBody(h.path))
        else Ok(Some(TarRecord(TarHeader(name, PickFileMode(h.executable), TypeReg, "", h.size, Epoch), n.body[..h.size])))
      case Unknown(t) => Err(UnsupportedNarNode(t))
  }

  /** What `MapNode` writes for each node type, and when it fails. */
  lemma MapNodeSpec(n: NarRecord)
    // the root and a path empty after trimming are skipped, whatever their type
    ensures Stem(n.hdr.path) == "" ==> MapNode(n) == Ok(None)
    ensures n.hdr.path == "/" ==> MapNode(n) == Ok(None)
    // otherwise an unknown type or a short body is an error, and nothing else is
    ensures Stem(n.hdr.path) != "" ==> (MapNode(n).Err? <==> n.hdr.nodeType.Unknown? || (n.hdr.nodeType == Regular && |n.body| < n.hdr.size))
    ensures Stem(n.hdr.path) != "" && n.hdr.nodeType.Unknown? ==> MapNode(n) == Err(UnsupportedNarNode(n.hdr.nodeType.name))
    ensures MapNode(n).Ok? && MapNode(n).value.Some? ==> Stem(n.hdr.path) != "" && MapNode(n).value.value.hdr.modTime == Epoch
    ensures MapNode(n).Ok? && MapNode(n).value.Some? && n.hdr.nodeType == Directory ==>
      var r := MapNode(n).value.value;
      && r.hdr.typeflag == TypeDir && r.hdr.mode == DirMode && r.hdr.linkname == "" && r.hdr.size == 0 && r.body == []
      && HasSuffix(r.hdr.name, "/") && (r.hdr.name == Stem(n.hdr.path) || r.hdr.name == Stem(n.hdr.path) + "/")
    ensures MapNode(n).Ok? && MapNode(n).value.Some? && n.hdr.nodeType == Symlink ==>
      var r := MapNode(n).value.value;
      && r.hdr.typeflag == TypeSymlink && r.hdr.mode == SymlinkMode && r.hdr.linkname == n.hdr.linkTarget && r.hdr.size == 0
      && r.body == [] && r.hdr.name == Stem(n.hdr.path)
    ensures MapNode(n).Ok? && MapNode(n).value.Some? && n.hdr.nodeType == Regular ==>
      var r := MapNode(n).value.value;
      && r.hdr.typeflag == TypeReg && IsExecutableMode(r.hdr.mode) == n.hdr.executable && r.hdr.mode == PickFileMode(n.hdr.executable)
      && r.hdr.size == n.hdr.size == |r.body| && r.body == n.body[..n.hdr.size]
      && r.hdr.linkname == "" && r.hdr.name == Stem(n.hdr.path)
  {
    var name := Stem(n.hdr.path);
    PickFileModeSpec(n.hdr.executable);
    if name != "" && n.hdr.path != "/" && n.hdr.nodeType == Directory && !HasSuffix(name, "/") {
      assert HasSuffix(name + "/", "/");
    }
  }

  /** The tar stream `narToTar` writes for the NAR stream `ns`, or the
      error that stops it. */
  function NarToTarSpec(ns: seq<NarRecord>): Result<seq<TarRecord>>
    decreases |ns|
  {
    if ns == [] then Ok([])
    else
      var prev := NarToTarSpec(ns[..|ns| - 1]);
      if prev.Err? then prev
      else
        var m := MapNode(ns[|ns| - 1]);
        if m.Err? then Err(m.error)
        else if m.value.None? then prev
        else Ok(prev.value + [m.value.value])
  }

  lemma {:induction false} NarToTarSticky(ns: seq<NarRecord>, i: nat)
    requires i <= |ns| && NarToTarSpec(ns[..i]).Err?
    ensures NarToTarSpec(ns) == NarToTarSpec(ns[..i])
    decreases |ns|
  {
    if i < |ns| {
      var pre := ns[..|ns| - 1];
      assert pre[..i] == ns[..i];
      NarToTarSticky(pre, i);
    } else {
      assert ns[..i] == ns;
    }
  }

  /** The conversion succeeds exactly when every node maps, and then
      writes one record per node that is not skipped, in stream order. */
  lemma {:induction false} NarToTarAccepts(ns: seq<NarRecord>)
    ensures NarToTarSpec(ns).Ok? <==> forall i :: 0 <= i < |ns| ==> MapNode(ns[i]).Ok?
    decreases |ns|
  {
    if ns != [] {
      var pre := ns[..|ns| - 1];
      NarToTarAccepts(pre);
      assert forall i :: 0 <= i < |pre| ==> pre[i] == ns[i];
    }
  }

  lemma NarToTarAppend(ns: seq<NarRecord>)
    requires ns != [] && NarToTarSpec(ns[..|ns| - 1]).Ok?
    requires MapNode(ns[|ns| - 1]).Ok? && MapNode(ns[|ns| - 1]).value.Some?
    ensures NarToTarSpec(ns) == Ok(NarToTarSpec(ns[..|ns| - 1]).value + [MapNode(ns[|ns| - 1]).value.value])
  {
  }

  /** Every node but the first of `ns` yields a record. */
  predicate LaterNodesWritten(ns: seq<NarRecord>) {
    forall i :: 1 <= i < |ns| ==> MapNode(ns[i]).Ok? && MapNode(ns[i]).value.Some?
  }

  lemma LaterNodesWrittenPrefix(ns: seq<NarRecord>)
    requires |ns| >= 2 && LaterNodesWritten(ns)
    ensures LaterNodesWritten(ns[..|ns| - 1])
  {
    var pre := ns[..|ns| - 1];
    assert forall i :: 1 <= i < |pre| ==> pre[i] == ns[i];
  }

  /** When no node is skipped but the first, every later node yields the
      record at its position minus one. */
  lemma {:induction false} NarToTarRecords(ns: seq<NarRecord>)
    requires |ns| >= 1 && MapNode(ns[0]) == Ok(None) && LaterNodesWritten(ns)
    ensures NarToTarSpec(ns).Ok? && |NarToTarSpec(ns).value| == |ns| - 1
    ensures forall i :: 1 <= i < |ns| ==> NarToTarSpec(ns).value[i - 1] == MapNode(ns[i]).value.value
    decreases |ns|
  {
    var pre := ns[..|ns| - 1];
    if |ns| == 1 {
      assert pre == [];
    } else {
      assert pre[0] == ns[0];
      LaterNodesWrittenPrefix(ns);
      NarToTarRecords(pre);
      var prev := NarToTarSpec(pre).value;
      var m := MapNode(ns[|ns| - 1]).value.value;
      NarToTarAppend(ns);
      forall i | 1 <= i < |ns|
        ensures (prev + [m])[i - 1] == MapNode(ns[i]).value.value
      {
        if i < |ns| - 1 {
          assert pre[i] == ns[i];
        }
      }
    }
  }

  /** `narToTar`: one pass over the NAR stream, writing each mapped record. */
  method NarToTar(ns: seq<NarRecord>) returns (res: Result<seq<TarRecord>>)
    ensures res == NarToTarSpec(ns)
  {
    var out: seq<TarRecord> := [];
    var i := 0;
    while i < |ns|
      invariant 0 <= i <= |ns|
      invariant NarToTarSpec(ns[..i]) == Ok(out)
    {
      assert ns[..i + 1][..i] == ns[..i];
      var m := MapNode(ns[i]);
      if m.Err? {
        NarToTarSticky(ns, i + 1);
        return Err(m.error);
      }
      if m.value.Some? {
        out := out + [m.value.value];
      }
      i := i + 1;
    }
    assert ns[..|ns|] == ns;
    res := Ok(out);
  }
}
