/** Slash-separated paths: the rooted case of `path.Clean` with the
    segment split and join inside it, `path.Dir`, canonical absolute paths
    and their ancestors, and `normalizeTarPath`, which maps a tar entry
    name to an absolute NAR path. */
module Paths {
  import opened Headers
  import opened Strings

  /** A segment that can appear in a cleaned path. */
  predicate GoodSegment(s: string) {
    s != "" && s != "." && s != ".." && '/' !in s
  }

  predicate AllGood(segs: seq<string>) {
    forall i :: 0 <= i < |segs| ==> GoodSegment(segs[i])
  }

  predicate NoSlash(segs: seq<string>) {
    forall i :: 0 <= i < |segs| ==> '/' !in segs[i]
  }

  /** The segment split inside the model of `path.Clean`: the pieces of
      `s` between its '/' characters. */
  function Split(s: string): (r: seq<string>)
    ensures |r| >= 1 && NoSlash(r)
    decreases |s|
  {
    if s == [] then [""]
    else if s[0] == '/' then [""] + Split(s[1..])
    else
      var rest := Split(s[1..]);
      [[s[0]] + rest[0]] + rest[1..]
  }

  /** The segment join inside the model of `path.Clean`: the segments with
      '/' between them. */
  function Join(segs: seq<string>): string
    decreases |segs|
  {
    if segs == [] then ""
    else if |segs| == 1 then segs[0]
    else segs[0] + "/" + Join(segs[1..])
  }

  lemma {:induction false} JoinSplit(s: string)
    ensures Join(Split(s)) == s
    decreases |s|
  {
    if s == [] {
    } else if s[0] == '/' {
      JoinSplit(s[1..]);
      var r := Split(s[1..]);
      assert Split(s) == [""] + r;
      assert ([""] + r)[1..] == r;
      assert Join(Split(s)) == "" + "/" + Join(r);
      assert s == "/" + s[1..];
    } else {
      JoinSplit(s[1..]);
      var rest := Split(s[1..]);
      var r := [[s[0]] + rest[0]] + rest[1..];
      assert Split(s) == r;
      if |rest| == 1 {
        assert Join(r) == [s[0]] + rest[0];
      } else {
        assert r[1..] == rest[1..];
        assert Join(r) == ([s[0]] + rest[0]) + "/" + Join(rest[1..]);
        assert Join(rest) == rest[0] + "/" + Join(rest[1..]);
      }
      assert s == [s[0]] + s[1..];
    }
  }

  lemma {:induction false} SplitSingle(x: string)
    requires '/' !in x
    ensures Split(x) == [x]
    decreases |x|
  {
    if x != [] {
      SplitSingle(x[1..]);
      assert [x[0]] + x[1..] == x;
    }
  }

  lemma {:induction false} SplitCons(x: string, t: string)
    requires '/' !in x
    ensures Split(x + "/" + t) == [x] + Split(t)
    decreases |x|
  {
    if x == [] {
      assert x + "/" + t == "/" + t;
      assert ("/" + t)[1..] == t;
    } else {
      assert (x + "/" + t)[0] == x[0];
      assert (x + "/" + t)[1..] == x[1..] + "/" + t;
      SplitCons(x[1..], t);
      assert [x[0]] + x[1..] == x;
    }
  }

  lemma ConsAppend<T>(x: T, r: seq<T>, u: seq<T>)
    ensures [x] + (r + u) == ([x] + r) + u
  {
  }

  /** Splitting undoes joining: a run of slash-free segments followed by more text. */
  lemma {:induction false} SplitAppend(segs: seq<string>, t: string)
    requires |segs| >= 1 && NoSlash(segs)
    ensures Split(Join(segs) + "/" + t) == segs + Split(t)
    decreases |segs|
  {
    if |segs| == 1 {
      SplitCons(segs[0], t);
    } else {
      var rest := segs[1..];
      assert Join(segs) + "/" + t == segs[0] + "/" + (Join(rest) + "/" + t);
      SplitCons(segs[0], Join(rest) + "/" + t);
      SplitAppend(rest, t);
      ConsAppend(segs[0], rest, Split(t));
      assert [segs[0]] + rest == segs;
    }
  }

  lemma {:induction false} SplitJoin(segs: seq<string>)
    requires |segs| >= 1 && NoSlash(segs)
    ensures Split(Join(segs)) == segs
    decreases |segs|
  {
    if |segs| == 1 {
      SplitSingle(segs[0]);
    } else {
      SplitJoin(segs[1..]);
      SplitCons(segs[0], Join(segs[1..]));
      assert [segs[0]] + segs[1..] == segs;
    }
  }

  lemma {:induction false} JoinAppend(a: seq<string>, b: seq<string>)
    requires |a| >= 1 && |b| >= 1
    ensures Join(a + b) == Join(a) + "/" + Join(b)
    decreases |a|
  {
    if |a| == 1 {
      assert (a + b)[1..] == b;
    } else {
      JoinAppend(a[1..], b);
      assert (a + b)[1..] == a[1..] + b;
    }
  }

  /** The absolute path whose segments are `segs`; `PathOf([])` is "/". */
  function PathOf(segs: seq<string>): string {
    "/" + Join(segs)
  }

  /** A path as `path.Clean` leaves a rooted path: "/" or one or more good
      segments each preceded by a single '/', with no trailing '/'. */
  predicate IsCanonical(p: string) {
    p == "/" || (|p| > 0 && p[0] == '/' && AllGood(Split(p[1..])))
  }

  function Segments(p: string): (segs: seq<string>)
    requires IsCanonical(p)
    ensures AllGood(segs) && PathOf(segs) == p
    ensures (segs == []) == (p == "/")
  {
    if p == "/" then []
    else
      JoinSplit(p[1..]);
      assert p == "/" + p[1..];
      Split(p[1..])
  }

  lemma {:induction false} SegmentsOfPath(segs: seq<string>)
    requires AllGood(segs)
    ensures IsCanonical(PathOf(segs)) && Segments(PathOf(segs)) == segs
  {
    if segs != [] {
      SplitJoin(segs);
      assert PathOf(segs)[1..] == Join(segs);
      assert |Join(segs)| >= |segs[0]| > 0;
    }
  }

  lemma {:induction false} JoinEndsInSegment(segs: seq<string>)
    requires AllGood(segs) && segs != []
    ensures |Join(segs)| > 0 && Join(segs)[|Join(segs)| - 1] != '/'
    decreases |segs|
  {
    if |segs| == 1 {
      assert segs[0][|segs[0]| - 1] in segs[0];
    } else {
      JoinEndsInSegment(segs[1..]);
      var j := Join(segs[1..]);
      assert Join(segs) == segs[0] + "/" + j;
      assert Join(segs)[|Join(segs)| - 1] == j[|j| - 1];
    }
  }

  /** A canonical path other than "/" starts with '/' and does not end with one. */
  lemma CanonicalEnds(p: string)
    requires IsCanonical(p) && p != "/"
    ensures p[0] == '/' && |p| >= 2 && p[|p| - 1] != '/'
  {
    var segs := Segments(p);
    JoinEndsInSegment(segs);
    assert p == "/" + Join(segs);
  }

  /** Two canonical paths with the same segments are equal. */
  lemma SegmentsInjective(a: string, b: string)
    requires IsCanonical(a) && IsCanonical(b) && Segments(a) == Segments(b)
    ensures a == b
  {
    assert a == PathOf(Segments(a));
  }

  // ---------------------------------------------------------------------
  // path.Clean on a rooted path

  /** The lexical resolution of `path.Clean`: empty and "." segments vanish,
      ".." removes the previous segment or, at the root, itself. */
  function Resolve(stack: seq<string>, segs: seq<string>): seq<string>
    decreases |segs|
  {
    if segs == [] then stack
    else if segs[0] == "" || segs[0] == "." then Resolve(stack, segs[1..])
    else if segs[0] == ".." then Resolve(if stack == [] then [] else stack[..|stack| - 1], segs[1..])
    else Resolve(stack + [segs[0]], segs[1..])
  }

  lemma {:induction false} ResolveGood(stack: seq<string>, segs: seq<string>)
    requires AllGood(stack) && NoSlash(segs)
    ensures AllGood(Resolve(stack, segs))
    decreases |segs|
  {
    if segs != [] {
      if segs[0] == "" || segs[0] == "." {
        ResolveGood(stack, segs[1..]);
      } else if segs[0] == ".." {
        ResolveGood(if stack == [] then [] else stack[..|stack| - 1], segs[1..]);
      } else {
        ResolveGood(stack + [segs[0]], segs[1..]);
      }
    }
  }

  lemma {:induction false} ResolveKeeps(stack: seq<string>, segs: seq<string>)
    requires AllGood(segs)
    ensures Resolve(stack, segs) == stack + segs
    decreases |segs|
  {
    if segs != [] {
      ResolveKeeps(stack + [segs[0]], segs[1..]);
      assert stack + [segs[0]] + segs[1..] == stack + segs;
    }
  }

  lemma {:induction false} ResolveAppend(stack: seq<string>, a: seq<string>, b: seq<string>)
    ensures Resolve(stack, a + b) == Resolve(Resolve(stack, a), b)
    decreases |a|
  {
    if a == [] {
      assert a + b == b;
    } else {
      assert (a + b)[0] == a[0] && (a + b)[1..] == a[1..] + b;
      if a[0] == "" || a[0] == "." {
        ResolveAppend(stack, a[1..], b);
      } else if a[0] == ".." {
        ResolveAppend(if stack == [] then [] else stack[..|stack| - 1], a[1..], b);
      } else {
        ResolveAppend(stack + [a[0]], a[1..], b);
      }
    }
  }

  /** `path.Clean(s)` for a rooted `s`: the result is canonical, and a
      canonical path is left as it is. */
  function Clean(s: string): (c: string)
    requires |s| > 0 && s[0] == '/'
    ensures IsCanonical(c)
    ensures IsCanonical(s) ==> c == s
  {
    var segs := Resolve([], Split(s[1..]));
    ResolveGood([], Split(s[1..]));
    SegmentsOfPath(segs);
    if IsCanonical(s) then
      (if s == "/" then
         assert Split(s[1..]) == [""];
         assert [""][1..] == [];
         assert segs == Resolve([], []);
         PathOf(segs)
       else
         ResolveKeeps([], Split(s[1..]));
         assert segs == Segments(s);
         PathOf(segs))
    else PathOf(segs)
  }

  /** Cleaning drops a trailing slash. */
  lemma {:induction false} CleanTrailingSlash(p: string)
    requires IsCanonical(p)
    ensures Clean(p + "/") == p
  {
    var t := (p + "/")[1..];
    if p == "/" {
      assert t == "/";
      assert Split(t) == [""] + Split("");
      assert Split(t) == ["", ""];
      assert ["", ""][1..] == [""] && [""][1..] == [];
      assert Resolve([], Split(t)) == Resolve([], [""]) == Resolve([], []);
    } else {
      var segs := Segments(p);
      assert t == Join(segs) + "/" + "";
      SplitAppend(segs, "");
      assert Split(t) == segs + [""];
      ResolveAppend([], segs, [""]);
      ResolveKeeps([], segs);
      assert Resolve([], Split(t)) == segs;
    }
  }

  // ---------------------------------------------------------------------
  // path.Dir and ancestors

  function LastSlash(s: string): (i: nat)
    requires '/' in s
    ensures i < |s| && s[i] == '/' && '/' !in s[i + 1..]
    decreases |s|
  {
    if s[|s| - 1] == '/' then |s| - 1
    else
      var i := LastSlash(s[..|s| - 1]);
      assert s[i + 1..] == s[..|s| - 1][i + 1..] + [s[|s| - 1]];
      i
  }

  /** `path.Dir(p)` for a rooted `p`: clean everything up to the last slash. */
  function Dir(p: string): (d: string)
    requires |p| > 0 && p[0] == '/'
    ensures IsCanonical(d)
  {
    Clean(p[..LastSlash(p) + 1])
  }

  lemma {:induction false} LastSlashOf(x: string, y: string)
    requires '/' !in y
    ensures LastSlash(x + "/" + y) == |x|
    decreases |y|
  {
    var s := x + "/" + y;
    if y != [] {
      assert s[|s| - 1] == y[|y| - 1];
      assert s[..|s| - 1] == x + "/" + y[..|y| - 1];
      LastSlashOf(x, y[..|y| - 1]);
    }
  }

  lemma DirOfTopLevel(last: string)
    requires GoodSegment(last)
    ensures Dir("/" + last) == "/"
  {
    assert "/" + last == "" + "/" + last;
    LastSlashOf("", last);
    assert ("/" + last)[..1] == "/";
  }

  lemma {:induction false} DirOfNested(init: seq<string>, last: string)
    requires AllGood(init) && init != [] && GoodSegment(last)
    ensures Dir(PathOf(init + [last])) == PathOf(init)
  {
    var p := PathOf(init + [last]);
    JoinAppend(init, [last]);
    assert p == PathOf(init) + "/" + last;
    LastSlashOf(PathOf(init), last);
    assert p[..|PathOf(init)| + 1] == PathOf(init) + "/";
    SegmentsOfPath(init);
    CleanTrailingSlash(PathOf(init));
  }

  /** `path.Dir` of a canonical non-root path drops its last segment. */
  lemma {:induction false} DirSegments(p: string)
    requires IsCanonical(p) && p != "/"
    ensures Segments(Dir(p)) == Segments(p)[..|Segments(p)| - 1]
  {
    var segs := Segments(p);
    var n := |segs|;
    if n == 1 {
      assert p == "/" + Join(segs) == "/" + segs[0];
      DirOfTopLevel(segs[0]);
    } else {
      var init := segs[..n - 1];
      assert init + [segs[n - 1]] == segs;
      DirOfNested(init, segs[n - 1]);
      SegmentsOfPath(init);
    }
  }

  /** `a` names a directory strictly above `p`. */
  predicate IsProperAncestor(a: string, p: string) {
    && IsCanonical(a) && IsCanonical(p)
    && |Segments(a)| < |Segments(p)|
    && Segments(a) == Segments(p)[..|Segments(a)|]
  }

  function Depth(p: string): nat
    requires IsCanonical(p)
  {
    |Segments(p)|
  }

  lemma RootIsAncestor(p: string)
    requires IsCanonical(p) && p != "/"
    ensures IsProperAncestor("/", p)
  {
  }

  lemma AncestorTransitive(a: string, b: string, c: string)
    requires IsProperAncestor(a, b) && IsProperAncestor(b, c)
    ensures IsProperAncestor(a, c)
  {
    assert Segments(b)[..|Segments(a)|] == Segments(c)[..|Segments(a)|];
  }

  /** The proper prefixes of `sp` are its initial part and the proper
      prefixes of that. */
  lemma InitPrefix(sa: seq<string>, sp: seq<string>)
    requires |sp| >= 1
    ensures (|sa| < |sp| && sp[..|sa|] == sa) <==>
              (sa == sp[..|sp| - 1] || (|sa| < |sp| - 1 && sp[..|sp| - 1][..|sa|] == sa))
  {
    if |sa| < |sp| - 1 {
      assert sp[..|sp| - 1][..|sa|] == sp[..|sa|];
    }
  }

  /** The proper ancestors of `p` are `Dir(p)` and the proper ancestors of `Dir(p)`. */
  lemma AncestorOfDir(a: string, p: string)
    requires IsCanonical(p) && p != "/"
    ensures IsProperAncestor(a, p) <==> (a == Dir(p) || IsProperAncestor(a, Dir(p)))
  {
    DirSegments(p);
    var d := Dir(p);
    if IsCanonical(a) {
      InitPrefix(Segments(a), Segments(p));
      if Segments(a) == Segments(d) {
        SegmentsInjective(a, d);
      }
    }
  }

  lemma JoinPrefix(a: string, b: string, sa: seq<string>, sb: seq<string>)
    requires a == PathOf(sa) && b == PathOf(sb)
    requires 1 <= |sa| < |sb| && sb[..|sa|] == sa
    ensures HasPrefix(b, a + "/")
  {
    var rest := sb[|sa|..];
    assert sa + rest == sb;
    JoinAppend(sa, rest);
    var u := a + "/";
    assert b == u + Join(rest);
    assert b[..|u|] == u;
  }

  /** A proper ancestor other than the root is a string prefix followed by '/'. */
  lemma AncestorIsPrefix(a: string, b: string)
    requires IsProperAncestor(a, b) && a != "/"
    ensures HasPrefix(b, a + "/")
  {
    JoinPrefix(a, b, Segments(a), Segments(b));
  }

  /** Conversely, a canonical path extending `a + "/"` lies below `a`. */
  lemma {:induction false} PrefixIsAncestor(a: string, c: string)
    requires IsCanonical(a) && IsCanonical(c) && a != "/"
    requires HasPrefix(c, a + "/")
    ensures IsProperAncestor(a, c)
  {
    var sa := Segments(a);
    var t := c[|a| + 1..];
    assert c == a + "/" + t;
    assert c[1..] == Join(sa) + "/" + t;
    SplitAppend(sa, t);
    assert c != "/";
    assert Segments(c) == sa + Split(t);
    assert Segments(c)[..|sa|] == sa;
  }

  // ---------------------------------------------------------------------
  // normalizeTarPath

  /** The name `normalizeTarPath` cleans: without a leading "./", then without a leading "/". */
  function Stripped(name: string): string {
    TrimPrefix(TrimPrefix(name, "./"), "/")
  }

  /** The escape test `normalizeTarPath` applies to a cleaned path. As
      written it refuses every path that starts with "/..", which takes in
      a first segment such as "..foo" as well as a ".." segment; the
      evidently intended test refuses a ".." segment only. */
  datatype EscapeTest = AsWritten | DotDotSegment

  predicate Escapes(g: EscapeTest, clean: string) {
    match g
    case AsWritten => HasPrefix(clean, "/..") || Contains(clean, "/../")
    case DotDotSegment => clean == "/.." || HasPrefix(clean, "/../") || Contains(clean, "/../")
  }

  /** What the escape test `g` refuses of a canonical path that the
      refusal of a ".." segment does not: as written, a first segment that
      begins with "..". */
  predicate Admitted(g: EscapeTest, p: string) {
    g == AsWritten ==> !HasPrefix(p, "/..")
  }

  /** `normalizeTarPath`: the absolute NAR path a tar entry name denotes. */
  function NormalizeTarPath(g: EscapeTest, name: string): (r: Result<string>)
    ensures r.Ok? ==> IsCanonical(r.value)
    ensures r.Ok? && r.value != "/" ==> '\0' !in r.value && !Contains(r.value, "/../") && Admitted(g, r.value)
    ensures r.Err? ==> r.error == PathHasNullByte || r.error == PathEscapesRoot
  {
    var trimmed := Stripped(name);
    if trimmed == "" || trimmed == "." then Ok("/")
    else
      var clean := Clean("/" + trimmed);
      if clean == "/" then Ok("/")
      else if '\0' in clean then Err(PathHasNullByte)
      else if Escapes(g, clean) then Err(PathEscapesRoot)
      else Ok(clean)
  }

  /** A path that starts with a good segment does not start with "/../". */
  lemma GoodSegmentNotDotDot(s0: string, t: string)
    requires GoodSegment(s0) && (t == "" || t[0] == '/')
    ensures !HasPrefix("/" + (s0 + t), "/../")
  {
    var w := "/" + (s0 + t);
    var q := "/../";
    if |w| >= 4 {
      var v := w[..4];
      if |s0| == 1 {
        assert v[2] == t[0] != q[2];
      } else if |s0| == 2 {
        assert v[1] == s0[0] && v[2] == s0[1];
        assert v[1..3] == s0;
        assert q[1..3] == "..";
      } else {
        assert v[3] == s0[2] != q[3];
      }
    }
  }

  /** In a canonical path no ".." segment sits between two slashes. */
  lemma {:induction false} NoInnerDotDot(segs: seq<string>)
    requires AllGood(segs)
    ensures !Contains(PathOf(segs), "/../")
    decreases |segs|
  {
    if segs == [] {
      var w := PathOf(segs);
      assert !HasPrefix(w, "/../");
      assert !Contains(w[1..], "/../");
    } else {
      if |segs| > 1 {
        NoInnerDotDot(segs[1..]);
      }
      NoInnerDotDotCons(segs);
    }
  }

  lemma PathOfCons(segs: seq<string>)
    requires segs != []
    ensures PathOf(segs) == "/" + (segs[0] + (if |segs| == 1 then "" else PathOf(segs[1..])))
  {
  }

  lemma NoInnerDotDotCons(segs: seq<string>)
    requires segs != [] && GoodSegment(segs[0])
    requires |segs| > 1 ==> !Contains(PathOf(segs[1..]), "/../")
    ensures !Contains(PathOf(segs), "/../")
  {
    var s0 := segs[0];
    var t := if |segs| == 1 then "" else PathOf(segs[1..]);
    PathOfCons(segs);
    var w := "/" + (s0 + t);
    GoodSegmentNotDotDot(s0, t);
    assert w[1..] == s0 + t;
    if Contains(s0 + t, "/../") {
      ContainsSkipsPrefix(s0, t, "/../");
    }
  }

  lemma CanonicalHasNoInnerDotDot(p: string)
    requires IsCanonical(p)
    ensures !Contains(p, "/../")
  {
    NoInnerDotDot(Segments(p));
  }

  /** A name is rejected exactly when its cleaned form is not the root and
      holds a NUL byte or, as written, a first segment that begins with
      "..". A ".." segment is never found, because cleaning a rooted path
      removes every one, so the intended escape test never fires. */
  lemma NormalizeRejects(g: EscapeTest, name: string)
    ensures NormalizeTarPath(g, name).Err? <==>
              var c := Clean("/" + Stripped(name));
              c != "/" && ('\0' in c || (g == AsWritten && HasPrefix(c, "/..")))
  {
    var trimmed := Stripped(name);
    var c := Clean("/" + trimmed);
    CanonicalHasNoInnerDotDot(c);
    DotNotCanonical(c);
    if trimmed == "" {
      assert "/" + trimmed == "/";
    } else if trimmed == "." {
      var segs := Split(("/" + trimmed)[1..]);
      assert ("/" + trimmed)[1..] == ".";
      assert segs == ["."];
      assert [".."][1..] == [] && ["."][1..] == [];
      assert Resolve([], segs) == Resolve([], []);
    }
  }

  /** Normalising a successful result again returns it unchanged. */
  lemma NormalizeIdempotent(g: EscapeTest, name: string)
    requires NormalizeTarPath(g, name).Ok?
    ensures NormalizeTarPath(g, NormalizeTarPath(g, name).value) == NormalizeTarPath(g, name)
  {
    var p := NormalizeTarPath(g, name).value;
    if p == "/" {
      assert Stripped(p) == "";
    } else {
      NormalizeCanonical(g, p);
    }
  }

  /** A canonical path other than "/" that `normalizeTarPath` would accept
      normalises to itself. */
  lemma NormalizeCanonical(g: EscapeTest, p: string)
    requires IsCanonical(p) && p != "/"
    requires '\0' !in p && !Contains(p, "/../") && Admitted(g, p)
    ensures NormalizeTarPath(g, p) == Ok(p)
  {
    assert !HasPrefix(p, "./");
    assert TrimPrefix(p, "/") == p[1..];
    assert Stripped(p) == p[1..];
    DotNotCanonical(p);
    assert "/" + p[1..] == p;
    assert p != "/..";
    assert Clean("/" + p[1..]) == p;
  }

  /** Neither "/." nor "/.." is canonical. */
  lemma DotNotCanonical(p: string)
    requires |p| > 0
    ensures (p[1..] == "." || p[1..] == "..") ==> !IsCanonical(p)
  {
    if p[1..] == "." || p[1..] == ".." {
      SplitSingle(p[1..]);
      assert Split(p[1..])[0] == p[1..];
    }
  }

  /** The names that denote the root. */
  lemma NormalizeRootNames(g: EscapeTest)
    ensures NormalizeTarPath(g, "") == Ok("/")
    ensures NormalizeTarPath(g, ".") == Ok("/")
    ensures NormalizeTarPath(g, "./") == Ok("/")
    ensures NormalizeTarPath(g, "/") == Ok("/")
    ensures NormalizeTarPath(g, "./.") == Ok("/")
  {
    assert Stripped("") == "";
    assert "."[..1] == "." != "/";
    assert !HasPrefix(".", "./") && !HasPrefix(".", "/");
    assert Stripped(".") == ".";
    assert Stripped("./") == "";
    assert Stripped("/") == "";
    assert Stripped("./.") == ".";
  }

  /** A canonical path, written relative (without its leading "/") and
      optionally with a trailing "/", normalises back to itself unless it
      holds a NUL byte or, as written, its first segment begins with "..". */
  lemma NormalizeRelativeName(g: EscapeTest, p: string, trailingSlash: bool)
    requires IsCanonical(p) && p != "/"
    requires '\0' !in p && Admitted(g, p)
    ensures NormalizeTarPath(g, if trailingSlash then p[1..] + "/" else p[1..]) == Ok(p)
  {
    RelativeNameKept(p, trailingSlash);
    if trailingSlash {
      CleanTrailingSlash(p);
    }
    CanonicalHasNoInnerDotDot(p);
    DotNotCanonical(p);
  }

  /** Such a name has nothing for `normalizeTarPath` to trim, and
      rooting it gives back `p`, with the trailing '/' if any. */
  lemma RelativeNameKept(p: string, trailingSlash: bool)
    requires IsCanonical(p) && p != "/"
    ensures var name := if trailingSlash then p[1..] + "/" else p[1..];
      && Stripped(name) == name && name != "" && name != "."
      && "/" + name == if trailingSlash then p + "/" else p
  {
    var name := if trailingSlash then p[1..] + "/" else p[1..];
    var segs := Segments(p);
    var s0 := segs[0];
    assert p[1..] == Join(segs);
    if |segs| > 1 {
      assert Join(segs) == s0 + "/" + Join(segs[1..]);
    }
    assert name[..|s0|] == s0;
    assert |name| > |s0| ==> name[|s0|] == '/';
    SegmentLead(name, s0);
    assert Stripped(name) == name;
    assert name != ".";
    assert "/" + name == if trailingSlash then p + "/" else p;
  }

  /** A name that starts with a good segment, followed by nothing or a
      '/', starts with neither "./" nor '/' and is not ".". */
  lemma SegmentLead(name: string, s0: string)
    requires GoodSegment(s0) && |name| >= |s0| && name[..|s0|] == s0
    requires |name| > |s0| ==> name[|s0|] == '/'
    ensures !HasPrefix(name, "./") && name[0] != '/' && name != "."
  {
    assert name[0] == s0[0];
    if |s0| == 1 {
      assert s0 != ".";
    } else {
      assert name[1] == s0[1] != '/';
    }
  }

  /** An empty or "." first segment does not change what a rooted name
      cleans to. */
  lemma CleanSkipsSegment(x: string, t: string)
    requires x == "" || x == "."
    ensures Clean("/" + (x + "/" + t)) == Clean("/" + t)
  {
    SplitCons(x, t);
    assert ("/" + (x + "/" + t))[1..] == x + "/" + t;
    assert ("/" + t)[1..] == t;
    assert ([x] + Split(t))[1..] == Split(t);
  }

  /** The trimming before `path.Clean` changes nothing that cleaning does
      not undo anyway. */
  lemma CleanStripped(name: string)
    ensures Clean("/" + name) == Clean("/" + Stripped(name))
  {
    var y := TrimPrefix(name, "./");
    if HasPrefix(name, "./") {
      assert name == "." + "/" + y;
      CleanSkipsSegment(".", y);
    }
    if HasPrefix(y, "/") {
      assert y == "" + "/" + y[1..];
      CleanSkipsSegment("", y[1..]);
    }
  }

  /** `normalizeTarPath` depends on the name only through what the trimmed
      name cleans to: the two names it maps to "/" before cleaning clean
      to "/" too. */
  lemma NormalizeByClean(g: EscapeTest, name: string)
    ensures var c := Clean("/" + Stripped(name));
      NormalizeTarPath(g, name) ==
        if c == "/" then Ok("/")
        else if '\0' in c then Err(PathHasNullByte)
        else if Escapes(g, c) then Err(PathEscapesRoot)
        else Ok(c)
  {
    var trimmed := Stripped(name);
    if trimmed == "" {
      assert "/" + trimmed == "/";
    } else if trimmed == "." {
      var segs := Split(("/" + trimmed)[1..]);
      assert ("/" + trimmed)[1..] == ".";
      SplitSingle(".");
      assert ["."][1..] == [];
      assert Resolve([], segs) == Resolve([], []);
    }
  }

  /** A ".." at the top is folded into the root rather than refused: a name
      behind a leading "../" denotes what the name alone denotes. */
  lemma ParentOfRootIsRoot(g: EscapeTest, rest: string)
    ensures NormalizeTarPath(g, "../" + rest) == NormalizeTarPath(g, rest)
  {
    var n := "../" + rest;
    assert !HasPrefix(n, "./") by {
      assert n[1] == '.';
    }
    assert n[0] == '.';
    assert Stripped(n) == n;
    assert ("/" + n)[1..] == ".." + "/" + rest;
    SplitCons("..", rest);
    assert Resolve([], [".."] + Split(rest)) == Resolve([], Split(rest));
    assert Clean("/" + n) == Clean("/" + rest) by {
      assert ("/" + rest)[1..] == rest;
    }
    CleanStripped(rest);
    NormalizeByClean(g, n);
    NormalizeByClean(g, rest);
  }

  lemma CleanDotDotFoo()
    ensures Clean("/..foo") == "/..foo"
  {
    var n := "..foo";
    SplitSingle(n);
    assert ("/" + n)[1..] == n;
    assert Resolve([], [n]) == Resolve([n], []);
    assert PathOf([n]) == "/..foo";
  }

  /** As written, a harmless first segment that merely begins with ".." is refused. */
  lemma DotDotPrefixedNameRejected()
    ensures NormalizeTarPath(AsWritten, "..foo") == Err(PathEscapesRoot)
  {
    assert Stripped("..foo") == "..foo";
    assert "/" + "..foo" == "/..foo";
    CleanDotDotFoo();
    assert '\0' !in "/..foo";
    assert HasPrefix("/..foo", "/..");
  }

  /** The intended escape test keeps such a segment. */
  lemma DotDotPrefixedNameAccepted()
    ensures NormalizeTarPath(DotDotSegment, "..foo") == Ok("/..foo")
  {
    assert "..foo"[0] == '.' && "..foo"[1] == '.';
    assert Stripped("..foo") == "..foo";
    assert "/" + "..foo" == "/..foo";
    CleanDotDotFoo();
    CanonicalHasNoInnerDotDot("/..foo");
    assert '\0' !in "/..foo";
    assert !HasPrefix("/..foo", "/../") by {
      assert "/..foo"[3] == 'f';
    }
    assert !Escapes(DotDotSegment, "/..foo");
    NormalizeByClean(DotDotSegment, "..foo");
  }
}
