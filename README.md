# nartar conversion core, modelled in Dafny

`nartar` converts between Nix Archives (NAR) and tar streams. This project
models the two conversion functions of `cmd/nartar/main.go` and the helpers
they use, and proves their properties:

- `narToTar` writes one tar header per NAR node. It skips the root, drops the
  leading '/', gives directories a trailing '/', and uses fixed modes and the
  Unix epoch as modification time.
- `tarToNar` reads every tar record into a path-keyed table of staging entries
  (`tarEntry`). Each name goes through `normalizeTarPath`. Missing parent
  directories are added by `ensureParentDirs`. It then sorts "/" together
  with the table's keys and writes a root Directory followed by one NAR node
  per key.

The codec libraries are replaced by their decoded values. A NAR stream is a
sequence of `NarRecord`s (header plus the body bytes the reader offers). A
tar stream is a sequence of `TarRecord`s (header plus its body). The Go map
of `tarToNar` is a Dafny `map` that goes into and comes out of each step.

Files, one module each:

- `headers.dfy` (`Headers`): headers, typeflags, mode constants, `tarEntry`, errors, `pickFileMode`.
- `strings.dfy` (`Strings`): `strings.HasPrefix`, `HasSuffix`, `TrimPrefix`, `Contains`.
- `paths.dfy` (`Paths`): `path.Clean` and `path.Dir` on rooted paths, canonical paths and ancestry, and `normalizeTarPath`. `Split` and `Join` are the segment split and join inside the model of `path.Clean`; the source itself calls neither `strings.Split` nor `strings.Join`.
- `ordering.dfy` (`Ordering`): the two string orders, insertion sort, and the NAR preorder.
  - `ByteOrder` is the order of `sort.Strings`.
  - `SegmentOrder` is the canonical NAR order, in which '/' sorts below every other character.
- `table.dfy` (`TarTable`): `ensureParentDirs`, and the record loop of `tarToNar` as a fold of per-record actions.
- `tar2nar.dfy` (`Tar2Nar`): the whole of `tarToNar`: the record loop, path collection, the sort and emission.
- `nar2tar.dfy` (`Nar2Tar`): `narToTar`.
- `roundtrip.dfy` (`RoundTrip`): the two directions composed.

Two details of `tarToNar` are parameters, so that the program as written and
its evident intent can both be stated:

- the escape test of `normalizeTarPath`: `AsWritten` refuses every cleaned
  path that starts with "/..", and `DotDotSegment` refuses only a ".." segment;
- the sort order: `ByteOrder` or `SegmentOrder`.

The program as written uses `AsWritten` and `ByteOrder`.

## Model

| member | source | states |
|---|---|---|
| Headers.PickFileModeSpec | cmd/nartar/main.go:367-373 | The picked mode has some execute bit (`& 0o111`) exactly when `exec` is true. It lies in 0..511, is readable by all (`0o444` set) and writable by none (`0o222` clear). |
| Strings.TrimPrefix | cmd/nartar/main.go:332-334 | With the prefix present, the prefix followed by the result is the input. Otherwise the input is returned unchanged. |
| Paths.Split | cmd/nartar/main.go:339 | The segment split inside the model of `path.Clean` (the source calls no `strings.Split`): the segments of a name are never empty as a list, and none contains '/'. |
| Paths.JoinSplit | cmd/nartar/main.go:339 | Again inside the model of `path.Clean`: joining the segments of `Split(s)` with '/' gives `s` back. |
| Paths.Clean | cmd/nartar/main.go:339 | `path.Clean` of a rooted path is canonical. A canonical path is returned unchanged. |
| Paths.CleanTrailingSlash | cmd/nartar/main.go:339 | Cleaning a canonical path with a '/' appended gives the path. |
| Paths.Dir | cmd/nartar/main.go:357 | `path.Dir` of a rooted path is canonical. |
| Paths.DirSegments | cmd/nartar/main.go:357-363 | `path.Dir` of a canonical non-root path drops exactly its last segment. |
| Paths.AncestorOfDir | cmd/nartar/main.go:357-364 | The proper ancestors of a path are its `path.Dir` and the proper ancestors of that. |
| Paths.NormalizeTarPath | cmd/nartar/main.go:330-354 | An accepted result is canonical. A result other than "/" has no NUL and contains no "/../", and under the escape test as written it does not start with "/..". The only errors are the NUL error and the escape error. |
| Paths.NormalizeRejects | cmd/nartar/main.go:341-351 | A name is rejected exactly when its cleaned form is not "/" and holds a NUL or, under the escape test as written, starts with "/..". No ".." segment survives cleaning, so the intended escape test never fires. |
| Paths.CleanStripped | cmd/nartar/main.go:332-339 | Trimming a leading "./" and then a leading "/" does not change what the rooted name cleans to. |
| Paths.CanonicalHasNoInnerDotDot | cmd/nartar/main.go:339-349 | No canonical path contains "/../". |
| Paths.NormalizeIdempotent | cmd/nartar/main.go:330-354 | Normalising an accepted result again gives the same result. |
| Paths.NormalizeCanonical | cmd/nartar/main.go:330-354 | A canonical non-root path without NUL normalises to itself, unless under the escape test as written it starts with "/..". |
| Paths.NormalizeRootNames | cmd/nartar/main.go:332-337 | "", ".", "./", "/" and "./." all denote the root. |
| Paths.NormalizeRelativeName | cmd/nartar/main.go:330-354 | A canonical path without NUL, written without its leading '/', with or without a trailing '/', normalises back to the path; under the escape test as written, only when it does not start with "/..". This is the name `narToTar` writes for it. |
| Paths.ParentOfRootIsRoot | cmd/nartar/main.go:332-351 | A leading "../" is absorbed at the root: for every name `x`, "../" followed by `x` normalises as `x` does. |
| Paths.DotDotPrefixedNameRejected | cmd/nartar/main.go:349-350 | As written, "..foo" is rejected as an escape, because its cleaned form "/..foo" starts with "/..". |
| Paths.DotDotPrefixedNameAccepted | cmd/nartar/main.go:349-350 | Under the intended escape test, "..foo" normalises to "/..foo". |
| Ordering.LessIrreflexive | cmd/nartar/main.go:277 | Neither order puts a string before itself. |
| Ordering.LessAsymmetric | cmd/nartar/main.go:277 | Neither order puts two strings before each other. |
| Ordering.LessTransitive | cmd/nartar/main.go:277 | Both orders are transitive. |
| Ordering.LessTotal | cmd/nartar/main.go:277 | Both orders compare any two distinct strings. |
| Ordering.AncestorFirst | cmd/nartar/main.go:277-288 | In both orders a directory sorts before everything below it. |
| Ordering.SubtreeBeforeLaterOutsider | cmd/nartar/main.go:277-288 | In the NAR order, everything below `a` sorts before any later path outside `a`. |
| Ordering.Insert | cmd/nartar/main.go:277 | Inserting adds exactly one occurrence of the element. |
| Ordering.InsertKeepsStrict | cmd/nartar/main.go:277 | Inserting a new element into a strictly sorted sequence keeps it strictly sorted. |
| Ordering.Sort | cmd/nartar/main.go:277 | The sort is a permutation of its input, sorted, and strictly sorted when the input is distinct. |
| Ordering.SortedUnique | cmd/nartar/main.go:277 | Two strictly sorted sequences with the same elements are equal, so the output of the sort does not depend on the map's iteration order. |
| Ordering.SegmentSortedIsPreorder | cmd/nartar/main.go:277-288 | Canonical paths sorted in the NAR order list every subtree contiguously after its root. |
| Ordering.ByteSortedNotPreorder | cmd/nartar/main.go:277 | ["/a", "/a-b", "/a/b"] is sorted in byte order but is not a NAR preorder. |
| Ordering.SortedOrdersDisagree | cmd/nartar/main.go:277 | If a byte-sorted and a NAR-sorted sequence both hold two strings the two orders disagree on, the sequences differ. |
| TarTable.AddParentsFromKey | cmd/nartar/main.go:356-365 | Inductive proof, one key at a time, of what the `path.Dir` walk adds, starting from a given directory. |
| TarTable.AddParentsSpec | cmd/nartar/main.go:356-365 | `ensureParentDirs(p)` adds exactly the missing proper ancestors of `p` other than "/", as Directory entries. It changes no existing entry, and neither adds nor removes "/" or `p`. |
| TarTable.EnsureParentDirs | cmd/nartar/main.go:356-365 | The loop computes `AddParents`. Hence the keys afterwards are the old keys plus the proper ancestors of `p` other than "/". Old entries are kept, and every new entry is a Directory placeholder. |
| TarTable.EntryOf | cmd/nartar/main.go:242-264 | A Dir record stores a Directory entry. A Symlink record stores its link name. A Reg or RegA record stores its body, executable exactly when some execute bit is set. |
| TarTable.ClassifySpec | cmd/nartar/main.go:231-269 | One record is rejected exactly when its name does not normalise, or it is not the root and its typeflag is unknown. An accepted non-root record acts at its normalised path. It stores an entry exactly when its typeflag is Dir, Symlink, Reg or RegA. |
| TarTable.ApplySpec | cmd/nartar/main.go:240-264 | One table update adds the record's entry and its missing parents. The entry overwrites any earlier one at its path, and nothing else changes. |
| TarTable.BuildTableAccepts | cmd/nartar/main.go:221-270 | The record loop succeeds exactly when every record is accepted. |
| TarTable.BuildTableFirstRejected | cmd/nartar/main.go:221-270 | When the loop fails, it fails with the error of the first rejected record. |
| TarTable.BuildTableSticky | cmd/nartar/main.go:227-268 | Once a prefix fails, the whole loop fails with the same error. |
| TarTable.BuildTableFold | cmd/nartar/main.go:221-270 | When every record is accepted, the table is the fold of their actions. |
| TarTable.LastPutSpec | cmd/nartar/main.go:244-264 | Last write wins. The entry found for a key is the one put by the last action at that key, and there is one exactly when some action puts there. |
| TarTable.FoldKey | cmd/nartar/main.go:221-270 | A key is in the table exactly when some action reaches it, either as its own path or as an ancestor other than "/". |
| TarTable.FoldValues | cmd/nartar/main.go:221-270 | Each key holds the entry last put there, or a Directory placeholder when only descendants of it were recorded. |
| TarTable.FoldContents | cmd/nartar/main.go:221-270 | Both of the above, together: the complete contents of the table. |
| TarTable.FoldWellFormed | cmd/nartar/main.go:221-270 | Every table has the same shape: no "/" key, only canonical paths free of NUL, every entry filed under its own path with a known kind, and every ancestor of a key other than "/" a key too. |
| TarTable.FoldAdmitted | cmd/nartar/main.go:221-270 | When every action's path gets through the escape test, so does every key of the table, the added parents included. |
| TarTable.BuildTableWellFormed | cmd/nartar/main.go:221-270 | The same shape, for the table of any successful record loop, whose keys all get through the escape test it ran with. |
| TarTable.FoldOrderIndependent | cmd/nartar/main.go:221-270 | When no path is put twice with different entries, the table depends only on which actions occur. |
| TarTable.TableOrderIndependent | cmd/nartar/main.go:221-270 | When every tar record is accepted and no two of them store different entries at one path, the table does not depend on the order or repetition of the records, and every reordering is accepted too. With a rejected record the error is that of the first one, which can change with the order (`Tar2Nar.RejectionOrderMatters`). |
| Tar2Nar.EmitEntry | cmd/nartar/main.go:298-320 | Emission succeeds exactly for the three entry kinds. The node is at the entry's path. A regular node has size equal to the data length, that data, and the entry's executable bit. Any other kind is an error naming the kind. |
| Tar2Nar.Enumerate | cmd/nartar/main.go:274-276 | Map iteration yields every key exactly once. |
| Tar2Nar.PathsOf | cmd/nartar/main.go:288 | The paths of the nodes, position by position. |
| Tar2Nar.EmitKeys | cmd/nartar/main.go:288-325 | Walking "/" and then table keys writes, after the root, one node per key, in walk order. |
| Tar2Nar.SortedPathsSpec | cmd/nartar/main.go:272-277 | The walked paths are strictly sorted, start with "/", and are "/" plus the table's keys. |
| Tar2Nar.EmitSorted | cmd/nartar/main.go:272-325 | The emission of any emittable table writes the root and then each key once, in strictly increasing order, each node made from its entry. |
| Tar2Nar.TarToNarShape | cmd/nartar/main.go:216-328 | When the record loop succeeds, the output is the root Directory, then every table key exactly once, with paths strictly increasing in the sort order and each node made from its key's entry. |
| Tar2Nar.TarToNarOrderIndependent | cmd/nartar/main.go:216-328 | When every tar record is accepted and no two of them store different entries at one path, the output does not depend on the order or repetition of the records. |
| Tar2Nar.RejectionOrderMatters | cmd/nartar/main.go:221-269 | Without every record accepted the output can depend on the order: with a record named "a" plus a NUL byte and a record named "b" of the unknown typeflag 51, the first of the two in the stream decides the error. |
| Tar2Nar.ReadEntry | cmd/nartar/main.go:231-269 | One pass of the loop body (normalise, skip "/", `ensureParentDirs`, the typeflag switch) computes one `Step`. |
| Tar2Nar.ReadEntries | cmd/nartar/main.go:219-270 | The record loop computes `BuildTable`. |
| Tar2Nar.CollectPaths | cmd/nartar/main.go:272-276 | `paths` holds "/" and every table key, each exactly once. |
| Tar2Nar.WriteEntries | cmd/nartar/main.go:288-325 | The emission loop computes `EmitPaths` and stops at the first unsupported kind. |
| Tar2Nar.TarToNar | cmd/nartar/main.go:216-328 | `tarToNar` computes `TarToNarSpec`. |
| Nar2Tar.MapNodeSpec | cmd/nartar/main.go:155-210 | The root, and a path that is empty once trimmed, are skipped. Otherwise only an unknown type (typed error) or a short body fails. Each written record has mode and typeflag fixed by the node type and the epoch time. A directory name ends in '/'. A symlink keeps its target. A file's size, body and executable bit match the node's. |
| Nar2Tar.NarToTarAccepts | cmd/nartar/main.go:145-211 | `narToTar` succeeds exactly when every node maps. |
| Nar2Tar.NarToTarSticky | cmd/nartar/main.go:145-211 | The first failing node decides the error. |
| Nar2Tar.NarToTarRecords | cmd/nartar/main.go:145-211 | When only the first node is skipped, node `i` yields output record `i - 1`. |
| Nar2Tar.NarToTar | cmd/nartar/main.go:135-214 | The loop computes `NarToTarSpec`. |
| RoundTrip.NodeRoundTrip | cmd/nartar/main.go:159-317 | A canonical node whose path gets through the escape test is written by `narToTar`, read back by `tarToNar` as an entry at its own path, and emitted as the same node. |
| RoundTrip.NarSideRecords | cmd/nartar/main.go:145-264 | For the root followed by canonical nodes that get through the escape test, `narToTar` succeeds with one record per node after the root, and `tarToNar` reads record `i - 1` as the put of node `i`'s entry at node `i`'s path. |
| RoundTrip.NarSideAccepted | cmd/nartar/main.go:145-270 | Every record `narToTar` writes for such a stream is accepted by the loop body of `tarToNar`, and together they act as the puts of the nodes' entries at the nodes' paths, in stream order. |
| RoundTrip.NarSideTable | cmd/nartar/main.go:145-270 | The table those records build is the fold of the nodes' puts. |
| RoundTrip.TableKeysOfNar | cmd/nartar/main.go:221-270 | When every node's parents are in the stream, the table's keys are exactly the stream's paths other than "/". |
| RoundTrip.TableOfNar | cmd/nartar/main.go:145-270 | For a well-formed NAR stream whose paths get through the escape test, the table holds at each non-root path the entry of that path's node, and nothing else. |
| RoundTrip.NarTarNar | cmd/nartar/main.go:135-328 | A well-formed NAR stream whose paths get through the escape test and are sorted in the sort order `o` comes back from `tarToNar(narToTar(ns))` unchanged. |
| RoundTrip.IntendedEscapeRoundTrip | cmd/nartar/main.go:349-350 | Under the intended escape test the names need no condition: every well-formed NAR stream sorted in the order `o` round-trips. |
| RoundTrip.DotDotNameBreaksRoundTrip | cmd/nartar/main.go:349-350 | As written, the well-formed stream of the root and a file "/..foo" is written by `narToTar`, and `tarToNar` refuses it with the escape error, whatever the sort. |
| RoundTrip.SegmentOrderRoundTrip | cmd/nartar/main.go:272-277 | With the intended escape test and the NAR order as the sort, every well-formed NAR stream round-trips, and its paths are a NAR preorder. |
| RoundTrip.ByteOrderReorders | cmd/nartar/main.go:277 | With `sort.Strings`, a well-formed stream holding "/a/b" and "/a-b", whose paths get through the escape test, comes back with the same paths but not unchanged. |

## Left out

- Command-line handling, file opening and `exitErr` (main.go:36-133, 375-378). These are I/O.
- The codec libraries (`nar.NewReader`/`Next`, `tar.NewReader`/`Next`, `nar.NewWriter`, `tar.NewWriter`). Their parse and write errors are not modelled. Streams arrive already decoded, and writing cannot fail.
- Tar and NAR body transfer. `io.ReadAll` errors are not modelled, and a tar record carries its body already read. `io.CopyN` appears only as its short-read error, `ShortBody`.
- `filepath.ToSlash` is the identity. This is the case on Unix, the only platform where NAR paths are meaningful.
- Error messages are error tags. The wrapping text of `fmt.Errorf` is not modelled.
- Go's map iteration order is some enumeration (`Enumerate`). `SortedUnique` shows that it never affects the output.
- EnsureParentDirs: the Go map is mutated in place through a reference. Here the map goes in and the updated map comes out, so aliasing is not modelled.
- PAX and GNU long-name headers are not merged into the next header, unlike what `archive/tar` does before `tarToNar` sees a record. An extended-header record still counts as a record whose own name is normalised and whose parents are added (main.go:240, 265-266).
- `tar.Header.FileInfo().Mode()` is taken to be the header's mode. Its low nine bits decide executability as in main.go:257.
- Go strings are byte strings; here names are `seq<char>`. A name that is not valid UTF-8 cannot be represented, and `ByteOrder` compares character codes, which agrees with the byte order of `sort.Strings` only for valid UTF-8.

Notes on what the code does:

- A name such as "../../etc/passwd" is not rejected. The leading ".." segments are absorbed at the root, so it becomes "/etc/passwd" (`ParentOfRootIsRoot`). On a cleaned path the "/../" test never fires (`NormalizeRejects`).
- A name whose first segment begins with "..", such as "..foo", is rejected (`DotDotPrefixedNameRejected`); see the findings.
- Tar names map directly to NAR paths; no name is reserved for the root.
- A tar record whose name normalises to "/" is skipped whatever its typeflag.
- A NAR root that is not a directory is dropped by `narToTar`, and `tarToNar` always writes a Directory root.

## Findings

| source | as written | input that shows it | evidently intended | confidence | as-written member | corrected member |
|---|---|---|---|---|---|---|
| cmd/nartar/main.go:277 | `sort.Strings(paths)` orders the NAR paths byte by byte. Characters such as '-' and '.' sort below '/', so a sibling like "/a-b" falls between "/a" and "/a/b". | a NAR stream with the nodes "/", "/a", "/a/b", "/a-b" (in the NAR order) | NAR output in the canonical NAR order: name by name, with '/' lowest, so that each directory's subtree is contiguous and the round trip succeeds | not executed | RoundTrip.ByteOrderReorders | RoundTrip.SegmentOrderRoundTrip |
| cmd/nartar/main.go:349-350 | `strings.HasPrefix(clean, "/..")` refuses every cleaned path that starts with "/..", so a first segment that only begins with two dots, such as "..foo" or "...", is reported as escaping the root. `narToTar` writes such names, and `tarToNar` refuses them. | the NAR stream of the root Directory and an empty file "/..foo" | refuse only a ".." segment (`clean == "/.."` or a "/../" prefix), which never survives `path.Clean` of a rooted path, so every well-formed NAR stream round-trips | not executed | RoundTrip.DotDotNameBreaksRoundTrip | RoundTrip.IntendedEscapeRoundTrip |
