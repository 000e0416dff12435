/**
 * Constants, macro functions and structures of the filesystem's shared header:
 * the rounding and offset arithmetic, the in-memory dentry and inode, and the
 * on-disk records (modelled as values, not bytes).
 */
module Types {

  import Arith

  datatype Option<T> = None | Some(value: T)

  // ---------------------------------------------------------------------------
  // Constants
  // ---------------------------------------------------------------------------

  const MAX_NAME_LEN: nat := 128
  const UINT32_BITS: nat := 32
  const UINT8_BITS: nat := 8
  const JFS_MAGIC: nat := 0x114514
  const JFS_ROOT_INO: nat := 0
  const JFS_INODE_PER_FILE: nat := 1
  const JFS_DATA_PER_FILE: nat := 6
  /** The segment-size macro, read as the constant 8 it is meant to be. */
  const JFS_DENTRYS_SEG_SIZE: nat := 8

  /** `(uint32_t)-1`: the ino of a dentry that has no inode yet. */
  const NO_INO: nat := 0xFFFF_FFFF
  const U64_MODULUS: nat := 0x1_0000_0000_0000_0000

  // errno values the core returns (negated) or stores
  const ENOENT: int := 2
  const ENXIO: int := 6
  const EEXIST: int := 17
  const EISDIR: int := 21
  const EINVAL: int := 22
  const ENOSPC: int := 28
  const ESPIPE: int := 29

  /** `-ENOSPC` converted to `uint64_t`, as jfs_alloc_data_blk returns it. */
  const ENOSPC_U64: nat := U64_MODULUS - ENOSPC

  const INT_MODULUS: nat := 0x1_0000_0000
  const INT_MAX_PLUS_1: nat := 0x8000_0000

  /**
   * A value converted to the driver's 32-bit `int` parameter: kept modulo 2^32
   * and read as two's complement, which is what the compiler does with the
   * `uint64_t` sum and the `off_t` it is stored in (2^32 divides 2^64).
   */
  function ToInt(x: int): (r: int)
    ensures -(INT_MAX_PLUS_1 as int) <= r < INT_MAX_PLUS_1
    ensures (x - r) % INT_MODULUS == 0
    ensures 0 <= x < INT_MAX_PLUS_1 ==> r == x
  {
    var m := x % INT_MODULUS;
    if m >= INT_MAX_PLUS_1 then m - INT_MODULUS else m
  }

  /** The failure value of jfs_alloc_data_blk plus an offset of at least 28 wraps to `offset - 28`. */
  lemma FailedSlotWraps(offset: int)
    requires ENOSPC <= offset < INT_MAX_PLUS_1 + ENOSPC
    ensures ToInt(ENOSPC_U64 + offset) == offset - ENOSPC
  {
    assert ENOSPC_U64 + offset == INT_MODULUS * INT_MODULUS + (offset - ENOSPC);
    assert (ENOSPC_U64 + offset) % INT_MODULUS == offset - ENOSPC;
  }

  // ---------------------------------------------------------------------------
  // Rounding macros
  // ---------------------------------------------------------------------------

  /** JFS_ROUND_DOWN(value, round) with single evaluated operands. */
  function RoundDown(value: nat, round: nat): (r: nat)
    requires round > 0
    ensures r % round == 0
    ensures r <= value < r + round
    ensures value % round == 0 ==> r == value
  {
    if value % round == 0 then value
    else
      Arith.MulDivMod(value / round, round);
      (value / round) * round
  }

  /** JFS_ROUND_UP(value, round) with single evaluated operands. */
  function RoundUp(value: nat, round: nat): (r: nat)
    requires round > 0
    ensures r % round == 0
    ensures value <= r < value + round
    ensures value % round == 0 ==> r == value
  {
    if value % round == 0 then value
    else
      Arith.MulDivMod(value / round + 1, round);
      (value / round + 1) * round
  }

  /**
   * What the preprocessor makes of `JFS_ROUND_UP(a+b, round)`: the macro does
   * not parenthesise its operand, so `%` and `/` bind to `b` alone.
   */
  function RoundUpOfSumExpanded(a: nat, b: nat, round: nat): int
    requires round > 0
  {
    if a + b % round == 0 then a + b else (a + b / round + 1) * round
  }

  /** With `b == 1` and `round == 8` the expansion is `(a+1)*8`, not a round-up. */
  lemma RoundUpOfSumExpandedIsScaled(a: nat)
    ensures RoundUpOfSumExpanded(a, 1, JFS_DENTRYS_SEG_SIZE) == (a + 1) * JFS_DENTRYS_SEG_SIZE
    ensures a > 0 ==> RoundUpOfSumExpanded(a, 1, JFS_DENTRYS_SEG_SIZE) != RoundUp(a + 1, JFS_DENTRYS_SEG_SIZE)
  {
  }

  // ---------------------------------------------------------------------------
  // Block size and region offsets
  // ---------------------------------------------------------------------------

  /** JFS_BLK_SZ(): a block is two device I/O units. */
  function BlkSz(ioSz: nat): nat
  {
    ioSz * 2
  }

  /** JFS_BLKS_SZ(blks). */
  function BlksSz(blks: nat, ioSz: nat): nat
  {
    blks * BlkSz(ioSz)
  }

  /** Any offset that is a whole number of blocks is also a whole number of I/O units. */
  lemma BlockAlignedIsIoAligned(ioSz: nat, x: nat)
    requires ioSz > 0
    requires x % BlkSz(ioSz) == 0
    ensures x % ioSz == 0
  {
    var k := x / BlkSz(ioSz);
    assert x == (k * 2) * ioSz;
    Arith.MulDivMod(k * 2, ioSz);
  }

  /** JFS_INO_OFS(ino): the byte position of an inode's table slot. */
  function InoOfs(inoListOffset: nat, ino: nat, ioSz: nat): nat
  {
    (inoListOffset + ino) * BlkSz(ioSz)
  }

  /** Distinct inos get disjoint block-sized slots, the first at `inoListOffset` blocks. */
  lemma InoSlotsDisjoint(inoListOffset: nat, a: nat, b: nat, ioSz: nat)
    requires ioSz > 0 && a < b
    ensures InoOfs(inoListOffset, 0, ioSz) == inoListOffset * BlkSz(ioSz)
    ensures InoOfs(inoListOffset, a, ioSz) + BlkSz(ioSz) <= InoOfs(inoListOffset, b, ioSz)
  {
    var blk := BlkSz(ioSz);
    assert InoOfs(inoListOffset, b, ioSz) == (inoListOffset + a) * blk + (b - a) * blk;
    Arith.MulAtLeast(b - a, blk);
  }

  /** JFS_DATA_OFS(blkno): the byte position of a data block. */
  function DataOfs(dataOffset: nat, blkno: nat, ioSz: nat): nat
  {
    dataOffset + BlksSz(blkno, ioSz)
  }

  /** Data blocks are laid out in increasing, non-overlapping order. */
  lemma DataOfsIncreasing(dataOffset: nat, b1: nat, b2: nat, ioSz: nat)
    requires ioSz > 0 && b1 < b2
    ensures DataOfs(dataOffset, b1, ioSz) + BlkSz(ioSz) <= DataOfs(dataOffset, b2, ioSz)
  {
    var blk := BlkSz(ioSz);
    assert b2 * blk == b1 * blk + (b2 - b1) * blk;
    Arith.MulAtLeast(b2 - b1, blk);
  }

  // ---------------------------------------------------------------------------
  // Names
  // ---------------------------------------------------------------------------

  /** A name new_dentry can copy: no NUL inside, shorter than the fixed field. */
  predicate NameOk(name: seq<char>)
  {
    |name| < MAX_NAME_LEN && forall i :: 0 <= i < |name| ==> name[i] != '\0'
  }

  function Zeros(n: nat): (z: seq<char>)
    ensures |z| == n && forall i :: 0 <= i < n ==> z[i] == '\0'
  {
    if n == 0 then [] else Zeros(n - 1) + ['\0']
  }

  /** The string a NUL-terminated character array holds (what strcmp compares). */
  function CStr(field: seq<char>): (s: seq<char>)
    ensures |s| <= |field| && s == field[..|s|]
    ensures forall i :: 0 <= i < |s| ==> s[i] != '\0'
    ensures |s| < |field| ==> field[|s|] == '\0'
  {
    if field == [] || field[0] == '\0' then [] else [field[0]] + CStr(field[1..])
  }

  /** The 128-byte name field after `memset(0)` and `memcpy(name, strlen(name))`. */
  function NameField(name: seq<char>): (field: seq<char>)
    requires NameOk(name)
  {
    name + Zeros(MAX_NAME_LEN - |name|)
  }

  lemma {:induction false} CStrOfTerminated(a: seq<char>, b: seq<char>)
    requires forall i :: 0 <= i < |a| ==> a[i] != '\0'
    requires |b| > 0 && b[0] == '\0'
    ensures CStr(a + b) == a
  {
    if a == [] {
      assert (a + b)[0] == '\0';
    } else {
      assert (a + b)[1..] == a[1..] + b;
      CStrOfTerminated(a[1..], b);
    }
  }

  /** Copying a name into its field and reading the field back as a C string gives the name. */
  lemma CStrOfNameField(name: seq<char>)
    requires NameOk(name)
    ensures |NameField(name)| == MAX_NAME_LEN
    ensures CStr(NameField(name)) == name
  {
    CStrOfTerminated(name, Zeros(MAX_NAME_LEN - |name|));
  }

  /**
   * `memcmp(field, fname, strlen(fname)) == 0` on a stored name field, for a
   * search name without NUL that fits the field.
   */
  predicate NameMatches(field: seq<char>, fname: seq<char>)
  {
    |fname| <= |field| && field[..|fname|] == fname
  }

  /** The comparison accepts exactly the prefixes of the stored name, not just the name itself. */
  lemma MatchesIffPrefix(name: seq<char>, fname: seq<char>)
    requires NameOk(name) && NameOk(fname)
    ensures NameMatches(NameField(name), fname) <==> |fname| <= |name| && name[..|fname|] == fname
  {
    var f := NameField(name);
    assert forall k :: |name| <= k < |f| ==> f[k] == '\0';
    assert f[|name|] == '\0';
    if NameMatches(f, fname) && |fname| <= |name| {
      assert name[..|fname|] == f[..|fname|];
    }
    if |fname| <= |name| && name[..|fname|] == fname {
      assert f[..|fname|] == name[..|fname|];
    }
  }

  /** The lookup scan matches a stored name by the name itself. */
  lemma NameFieldMatches(name: seq<char>)
    requires NameOk(name)
    ensures NameMatches(NameField(name), name)
  {
    assert NameField(name)[..|name|] == name;
  }

  /** For a search name without NUL the comparison sees the stored C string alone: it matches its prefixes. */
  lemma MatchesByCStr(field: seq<char>, fname: seq<char>)
    requires forall i :: 0 <= i < |fname| ==> fname[i] != '\0'
    ensures NameMatches(field, fname) <==> |fname| <= |CStr(field)| && CStr(field)[..|fname|] == fname
  {
    var cs := CStr(field);
    if |fname| <= |cs| && cs[..|fname|] == fname {
      assert field[..|fname|] == cs[..|fname|];
    }
  }

  // ---------------------------------------------------------------------------
  // In-memory structures
  // ---------------------------------------------------------------------------

  datatype FileType = File | Dir

  /** Handle of an in-memory inode in the engine's arena (stands for a `struct juzfs_inode*`). */
  type InodeId = nat

  /**
   * struct juzfs_dentry. `name` is the fixed 128-byte field; `parent` is the
   * inode of the parent dentry (what `dentry->parent->inode` reaches); `inode`
   * is None while the inode is not loaded.
   */
  datatype Dentry = Dentry(name: seq<char>, ino: nat, parent: Option<InodeId>,
                           inode: Option<InodeId>, ftype: FileType)

  /** new_dentry: a zeroed dentry with the name copied, no inode, ino `(uint32_t)-1`. */
  function NewDentry(name: seq<char>, parent: Option<InodeId>, ftype: FileType): (d: Dentry)
    requires NameOk(name)
    ensures CStr(d.name) == name && |d.name| == MAX_NAME_LEN
    ensures forall i :: |name| <= i < MAX_NAME_LEN ==> d.name[i] == '\0'
    ensures d.ino == NO_INO && d.inode == None && d.parent == parent && d.ftype == ftype
  {
    CStrOfNameField(name);
    Dentry(NameField(name), NO_INO, parent, None, ftype)
  }

  /**
   * struct juzfs_inode. `owner` is the dentry the inode points back to;
   * `dentrys` holds the `dir_cnt` used entries of the child array, whose
   * capacity is `listSize`; `dataOffsets` are the 6 `uint64_t` block slots.
   */
  datatype Inode = Inode(ino: nat, size: nat, owner: Dentry, dentrys: seq<Dentry>,
                         listSize: nat, dataOffsets: seq<nat>)

  /** JFS_IS_DIR: decided by the owning dentry's type alone. */
  predicate IsDir(i: Inode)
  {
    i.owner.ftype == Dir
  }

  /** JFS_IS_FILE. */
  predicate IsFile(i: Inode)
  {
    i.owner.ftype == File
  }

  /** Every inode is exactly one of file or directory, and only its owner's type decides which. */
  lemma StatusFollowsOwner(i: Inode, j: Inode)
    requires i.owner.ftype == j.owner.ftype
    ensures IsDir(i) != IsFile(i)
    ensures IsDir(i) == IsDir(j) && IsFile(i) == IsFile(j)
  {
  }

  // ---------------------------------------------------------------------------
  // On-disk records
  // ---------------------------------------------------------------------------

  /** struct juzfs_dentry_d. */
  datatype DentryRecord = DentryRecord(name: seq<char>, ino: nat, ftype: FileType)

  /** struct juzfs_inode_d. */
  datatype InodeRecord = InodeRecord(ino: nat, size: nat, dirCnt: nat, ftype: FileType,
                                     dataOffsets: seq<nat>)
}
