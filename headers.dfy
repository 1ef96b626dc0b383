/** The header-level data model shared by both conversion directions:
    the NAR and tar headers the codec libraries hand over, the tar typeflag
    and mode constants, the staging entry of the tar-to-NAR assembler, and
    the error tags. */
module Headers {

  type Byte = b: int | 0 <= b < 256

  // Tar typeflags, as archive/tar defines them (the byte values of
  // '0', '\x00', '2', '5', 'x', 'g', 'K' and 'L').
  const TypeReg: Byte := 48
  const TypeRegA: Byte := 0
  const TypeSymlink: Byte := 50
  const TypeDir: Byte := 53
  const TypeXHeader: Byte := 120
  const TypeXGlobalHeader: Byte := 103
  const TypeGNULongLink: Byte := 75
  const TypeGNULongName: Byte := 76

  // Fixed output modes (0o555, 0o444, 0o555, 0o777).
  const DirMode: int := 0x16D
  const FileMode: int := 0x124
  const ExecFileMode: int := 0x16D
  const SymlinkMode: int := 0x1FF

  /** Every written tar header carries the Unix epoch as its modification time. */
  const Epoch: int := 0

  /** The node types of the NAR reader; anything else it might report is `Unknown`. */
  datatype NodeType = Regular | Directory | Symlink | Unknown(name: string)

  datatype NarHeader = NarHeader(path: string, nodeType: NodeType, size: nat, executable: bool, linkTarget: string)

  /** A NAR header together with the body bytes the reader offers for it. */
  datatype NarRecord = NarRecord(hdr: NarHeader, body: seq<Byte>)

  datatype TarHeader = TarHeader(name: string, mode: int, typeflag: Byte, linkname: string, size: int, modTime: int)

  /** A tar header together with its already materialised body. */
  datatype TarRecord = TarRecord(hdr: TarHeader, body: seq<Byte>)

  /** The assembler's staging entry (`tarEntry`); `kind` is a tar typeflag. */
  datatype TarEntry = TarEntry(path: string, kind: Byte, linkTarget: string, data: seq<Byte>, executable: bool)

  datatype Error =
    | PathHasNullByte
    | PathEscapesRoot
    | UnsupportedTarEntry(typeflag: Byte)
    | UnsupportedNarNode(nodeType: string)
    | UnsupportedEntryKind(kind: Byte)
    | ShortBody(path: string)

  datatype Result<T> = Ok(value: T) | Err(error: Error)

  datatype Option<T> = None | Some(value: T)

  /** `FileInfo().Mode() & 0o111 != 0`: some execute bit among the low
      nine permission bits (Euclidean `%` gives the two's-complement low
      bits of a negative int64 too). */
  predicate IsExecutableMode(mode: int) {
    ((mode % 512) as bv16) & 0x49 != 0
  }

  /** `pickFileMode`. */
  function PickFileMode(executable: bool): int {
    if executable then ExecFileMode else FileMode
  }

  /** The mode `pickFileMode` picks is executable exactly when asked for,
      and readable by all and writable by none. */
  lemma PickFileModeSpec(executable: bool)
    ensures IsExecutableMode(PickFileMode(executable)) == executable
    ensures 0 <= PickFileMode(executable) < 512
    ensures var m := PickFileMode(executable) as bv16; m & 0x124 == 0x124 && m & 0x92 == 0
  {
    if executable {
      ExecFileModeBits();
    } else {
      FileModeBits();
    }
  }

  lemma ExecFileModeBits()
    ensures IsExecutableMode(ExecFileMode)
    ensures (ExecFileMode as bv16) & 0x124 == 0x124 && (ExecFileMode as bv16) & 0x92 == 0
  {
    assert ExecFileMode % 512 == 0x16D;
    assert (0x16D as bv16) & 0x49 == 0x49;
  }

  lemma FileModeBits()
    ensures !IsExecutableMode(FileMode)
    ensures (FileMode as bv16) & 0x124 == 0x124 && (FileMode as bv16) & 0x92 == 0
  {
    assert FileMode % 512 == 0x124;
    assert (0x124 as bv16) & 0x49 == 0;
  }
}
