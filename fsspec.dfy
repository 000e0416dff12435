/**
 * The filesystem's operations as functions on a value of its whole in-memory
 * state: the inode arena reachable from the root dentry, the two bitmaps and
 * the device contents. The class in module Engine carries these steps out in
 * place and is proved against them; the properties of the operations are
 * stated here, as lemmas on the functions.
 *
 * An outcome of `Undefined` marks a point where the C program dereferences a
 * NULL or freed pointer, indexes past an array or passes the device a window
 * it does not have; the model says nothing about the state after that point.
 */
module FsSpec {

  import opened Types
  import Bitmap
  import Dentries
  import Paths
  import FileIo
  import Layout

  // ---------------------------------------------------------------------------
  // State
  // ---------------------------------------------------------------------------

  /** The superblock fields the operations read, which no operation changes. */
  datatype Config = Config(ioSz: nat, maxIno: nat, maxDataBlks: nat, szUsage: nat, rootId: InodeId)

  /** The superblock fields a layout supplies, with the root inode's handle. */
  function ConfigOf(l: Layout.Layout, ioSz: nat, rootId: InodeId): (c: Config)
    ensures c.ioSz == ioSz && c.maxIno == l.maxIno && c.maxDataBlks == l.maxDataBlks
    ensures c.szUsage == l.szUsage && c.rootId == rootId
  {
    Config(ioSz, l.maxIno, l.maxDataBlks, l.szUsage, rootId)
  }

  /**
   * `inodes` holds the in-memory inodes under integer handles; `nextId` is a
   * handle no inode has yet. The bitmaps are `super.map_inode` and
   * `super.map_data`; `bytes` is the device.
   */
  datatype State = State(inodes: map<InodeId, Inode>, nextId: InodeId,
                         mapInode: seq<bv8>, mapData: seq<bv8>, bytes: seq<bv8>)

  /** What an operation returns to FUSE, or that its behaviour is undefined. */
  datatype Ret = Code(code: int) | Undefined

  /** An inode whose slot array and child array have the shapes the code maintains. */
  predicate WellFormed(i: Inode)
  {
    |i.dataOffsets| == JFS_DATA_PER_FILE
      && |i.dentrys| <= i.listSize <= JFS_DATA_PER_FILE * JFS_DENTRYS_SEG_SIZE
  }

  /**
   * The invariant every operation keeps: the root is in the arena and its
   * dentry has no parent (jfs_mount makes it with a NULL parent), each inode
   * is well formed, its owning dentry points back at it (`inode->dentry->inode
   * == inode`), its number has a bit in the inode map, and its children name
   * it as their parent; handles below `nextId` are the only ones used.
   */
  predicate Inv(c: Config, s: State)
  {
    && c.rootId in s.inodes && s.inodes[c.rootId].owner.parent.None?
    && forall id :: id in s.inodes ==>
         && id < s.nextId && WellFormed(s.inodes[id]) && s.inodes[id].owner.inode == Some(id)
         && s.inodes[id].ino < |s.mapInode| * 8
         && ChildrenOf(s.inodes[id].dentrys, id, s.nextId)
  }

  /**
   * Every entry of a child list names `dir` as its parent (new_dentry is given
   * the directory's dentry) and, when loaded, points at a handle below `next`.
   */
  predicate ChildrenOf(ds: seq<Dentry>, dir: InodeId, next: InodeId)
  {
    forall j :: 0 <= j < |ds| ==> ds[j].parent == Some(dir) && (ds[j].inode.Some? ==> ds[j].inode.value < next)
  }

  const ZERO_SLOTS: seq<nat> := [0, 0, 0, 0, 0, 0]

  // ---------------------------------------------------------------------------
  // Allocators
  // ---------------------------------------------------------------------------

  /** The result of jfs_alloc_inode: the new state, the dentry as updated, the new inode's handle. */
  datatype InodeAlloc = InodeAlloc(s: State, dentry: Dentry, id: Option<InodeId>)

  /**
   * jfs_alloc_inode: take the lowest clear bit of the inode map; refuse when
   * there is none or when it is bit `max_ino` (which stays set); otherwise
   * build an empty inode with that number and link it with the dentry.
   */
  function AllocInode(c: Config, s: State, d: Dentry): (r: InodeAlloc)
  {
    var scan := Bitmap.ScanSpec(s.mapInode);
    if !scan.found || scan.cursor == c.maxIno then InodeAlloc(s.(mapInode := scan.map'), d, None)
    else
      var d' := d.(inode := Some(s.nextId), ino := scan.cursor);
      var i := Inode(scan.cursor, 0, d', [], 0, ZERO_SLOTS);
      InodeAlloc(s.(mapInode := scan.map', inodes := s.inodes[s.nextId := i], nextId := s.nextId + 1),
                 d', Some(s.nextId))
  }

  /**
   * The outcomes of jfs_alloc_inode. It succeeds exactly when the inode map
   * has a clear bit other than bit `max_ino` as its lowest. On success the
   * number is that bit's index, only that bit is set, and the new inode is
   * empty, has zeroed slots and is linked both ways with the dentry, under a
   * handle not used before. When the lowest clear bit is `max_ino`, that bit
   * is set all the same.
   */
  lemma AllocInodeOutcome(c: Config, s: State, d: Dentry)
    ensures var r := AllocInode(c, s, d);
      && (r.id.Some? <==> Bitmap.LowestClear(s.mapInode).Some? && Bitmap.LowestClear(s.mapInode).value != c.maxIno)
      && (Bitmap.LowestClear(s.mapInode).None? ==> r.s == s && r.dentry == d)
      && (Bitmap.LowestClear(s.mapInode) == Some(c.maxIno) ==>
            r.s == s.(mapInode := Bitmap.SetBit(s.mapInode, c.maxIno)) && r.dentry == d)
      && (r.id.Some? ==>
            var ino := Bitmap.LowestClear(s.mapInode).value;
            && r.id.value == s.nextId && (Inv(c, s) ==> r.id.value !in s.inodes)
            && r.s.mapInode == Bitmap.SetBit(s.mapInode, ino)
            && r.s.mapData == s.mapData && r.s.bytes == s.bytes
            && r.dentry == d.(inode := r.id, ino := ino)
            && r.s.inodes == s.inodes[r.id.value := Inode(ino, 0, r.dentry, [], 0, ZERO_SLOTS)])
    ensures Inv(c, s) ==> Inv(c, AllocInode(c, s, d).s)
  {
  }

  /**
   * jfs_alloc_data_blk: the same first-fit scan over the data map; the
   * result is the block number, or `-ENOSPC` as a `uint64_t` when no bit is
   * clear or the lowest clear bit is `max_data_blks` (which stays set).
   */
  function AllocDataBlk(c: Config, s: State): (r: (State, nat))
  {
    var scan := Bitmap.ScanSpec(s.mapData);
    var blk := if !scan.found || scan.cursor == c.maxDataBlks then ENOSPC_U64 else scan.cursor;
    (s.(mapData := scan.map'), blk)
  }

  /**
   * The outcomes of jfs_alloc_data_blk: a block other than the failure value
   * is the lowest clear bit of the data map, is not `max_data_blks`, and is
   * the only bit set; with no clear bit the map is unchanged and the result is
   * the failure value. Nothing but the data map changes.
   */
  lemma AllocDataBlkOutcome(c: Config, s: State)
    ensures var (s', blk) := AllocDataBlk(c, s);
      && s'.inodes == s.inodes && s'.nextId == s.nextId && s'.mapInode == s.mapInode && s'.bytes == s.bytes
      && |s'.mapData| == |s.mapData|
      && (blk != ENOSPC_U64 ==>
            && Some(blk) == Bitmap.LowestClear(s.mapData) && blk != c.maxDataBlks
            && s'.mapData == Bitmap.SetBit(s.mapData, blk))
      && ((Bitmap.LowestClear(s.mapData).Some? && Bitmap.LowestClear(s.mapData).value != c.maxDataBlks
           && Bitmap.LowestClear(s.mapData).value != ENOSPC_U64) ==> blk == Bitmap.LowestClear(s.mapData).value)
      && (Bitmap.LowestClear(s.mapData).None? ==> blk == ENOSPC_U64 && s'.mapData == s.mapData)
  {
  }

  /**
   * jfs_dealloc_data_blk: clear bit `blk`. The block number arrives as an
   * `int`; a number past the map (including `-ENOSPC` read back from a slot)
   * indexes outside it, which is undefined.
   */
  function DeallocDataBlk(s: State, blk: nat): (r: Option<State>)
    ensures r.Some? <==> blk < |s.mapData| * 8
    ensures r.Some? ==> r.value == s.(mapData := Bitmap.ClearBit(s.mapData, blk))
  {
    if blk < |s.mapData| * 8 then Some(s.(mapData := Bitmap.ClearBit(s.mapData, blk))) else None
  }

  /** Releasing the block an allocation has just returned gives back the data map it started from. */
  lemma AllocThenDeallocRestores(c: Config, s: State)
    requires AllocDataBlk(c, s).1 != ENOSPC_U64
    ensures var (s', blk) := AllocDataBlk(c, s);
      DeallocDataBlk(s', blk) == Some(s)
  {
    AllocDataBlkOutcome(c, s);
    var (s', blk) := AllocDataBlk(c, s);
    Bitmap.ClearAfterSet(s.mapData, blk);
  }

  /**
   * The bitmap and root-guard steps of juzfs_drop_inode: refuse the root with
   * -EINVAL; otherwise clear the inode's bit and free it.
   */
  function DropInode(c: Config, s: State, id: InodeId): (r: (State, Ret))
  {
    if id == c.rootId then (s, Code(-EINVAL))
    else if id !in s.inodes || s.inodes[id].ino >= |s.mapInode| * 8 then (s, Undefined)
    else
      (s.(mapInode := Bitmap.ClearBit(s.mapInode, s.inodes[id].ino), inodes := s.inodes - {id}), Code(0))
  }

  /**
   * The root is never dropped. Any other inode leaves the arena and exactly
   * its bit is cleared; the step is undefined only for a handle that is not in
   * the arena or a number past the map, neither of which the invariant allows.
   */
  lemma DropInodeOutcome(c: Config, s: State, id: InodeId)
    ensures var (s', r) := DropInode(c, s, id);
      && (id == c.rootId <==> r == Code(-EINVAL))
      && (r == Undefined <==> id != c.rootId && (id !in s.inodes || s.inodes[id].ino >= |s.mapInode| * 8))
      && (r != Code(0) ==> s' == s)
      && (Inv(c, s) && id in s.inodes ==> r != Undefined)
      && (r == Code(0) ==>
            && id in s.inodes && id !in s'.inodes
            && (forall other :: other in s.inodes && other != id ==> other in s'.inodes && s'.inodes[other] == s.inodes[other])
            && (forall j :: 0 <= j < |s.mapInode| * 8 ==>
                  (Bitmap.IsSet(s'.mapInode, j) <==> j != s.inodes[id].ino && Bitmap.IsSet(s.mapInode, j)))
            && s'.mapData == s.mapData && s'.bytes == s.bytes)
    ensures Inv(c, s) ==> Inv(c, DropInode(c, s, id).0)
  {
  }

  // ---------------------------------------------------------------------------
  // Child lists in the arena
  // ---------------------------------------------------------------------------

  /**
   * jfs_alloc_dentry on the inode under `dir`. With `allocD`, a new block is
   * allocated exactly when the code reaches jfs_alloc_data_blk.
   */
  function AllocEntry(c: Config, s: State, dir: InodeId, d: Dentry, allocD: bool): (r: (State, int))
    requires dir in s.inodes && WellFormed(s.inodes[dir])
  {
    var i := s.inodes[dir];
    if allocD && Dentries.AllocatesBlock(i) then
      var (s1, blk) := AllocDataBlk(c, s);
      var (i', ret) := Dentries.AllocDentry(i, d, Some(blk));
      (s1.(inodes := s1.inodes[dir := i']), ret)
    else
      var (i', ret) := Dentries.AllocDentry(i, d, None);
      (s.(inodes := s.inodes[dir := i']), ret)
  }

  /**
   * jfs_alloc_dentry with `alloc_d` on the arena: the dentry is appended
   * unless the list is full and cannot grow; growing sets the capacity to the
   * as-written `(dir_cnt + 1) * 8`, takes the lowest clear data block and
   * stores the allocator's result in slot `dir_cnt`. Nothing else changes.
   */
  lemma AllocEntryOutcome(c: Config, s: State, dir: InodeId, d: Dentry)
    requires dir in s.inodes && WellFormed(s.inodes[dir])
    ensures var s' := AllocEntry(c, s, dir, d, true).0;
      var i := s.inodes[dir];
      var grows := Dentries.AllocatesBlock(i);
      var blk := Bitmap.LowestClear(s.mapData);
      var after := if Dentries.Full(i) && !grows then i.dentrys else i.dentrys + [d];
      && s'.inodes == s.inodes[dir := s'.inodes[dir]]
      && s'.inodes[dir] == i.(dentrys := after,
                              listSize := if grows then (|i.dentrys| + 1) * JFS_DENTRYS_SEG_SIZE else i.listSize,
                              dataOffsets := if grows then i.dataOffsets[|i.dentrys| := AllocDataBlk(c, s).1] else i.dataOffsets)
      && s'.mapData == (if grows && blk.Some? then Bitmap.SetBit(s.mapData, blk.value) else s.mapData)
      && s'.mapInode == s.mapInode && s'.nextId == s.nextId && s'.bytes == s.bytes
  {
    var i := s.inodes[dir];
    if Dentries.AllocatesBlock(i) {
      AllocDataBlkOutcome(c, s);
      Dentries.AllocDentryOutcome(i, d, Some(AllocDataBlk(c, s).1));
    } else {
      Dentries.AllocDentryOutcome(i, d, None);
    }
  }

  lemma WellFormedAfterAlloc(i: Inode, d: Dentry, blk: Option<nat>)
    requires WellFormed(i)
    ensures WellFormed(Dentries.AllocDentry(i, d, blk).0)
  {
    Dentries.AllocDentryOutcome(i, d, blk);
  }

  /**
   * Appending keeps the invariant, as long as the dentry names the directory
   * as its parent and points at no inode or at one already issued.
   */
  lemma AllocEntryKeepsInv(c: Config, s: State, dir: InodeId, d: Dentry, allocD: bool)
    requires Inv(c, s) && dir in s.inodes
    requires d.parent == Some(dir) && (d.inode.Some? ==> d.inode.value < s.nextId)
    ensures Inv(c, AllocEntry(c, s, dir, d, allocD).0)
    ensures AllocEntry(c, s, dir, d, allocD).0.inodes.Keys == s.inodes.Keys
  {
    var i := s.inodes[dir];
    var blk := if allocD && Dentries.AllocatesBlock(i) then Some(AllocDataBlk(c, s).1) else None;
    WellFormedAfterAlloc(i, d, blk);
    Dentries.AllocDentryOutcome(i, d, blk);
    var i' := Dentries.AllocDentry(i, d, blk).0;
    assert ChildrenOf(i'.dentrys, dir, s.nextId) by {
      if i'.dentrys != i.dentrys {
        assert i'.dentrys == i.dentrys + [d];
      }
    }
    InvAfterReplace(c, s, AllocEntry(c, s, dir, d, allocD).0, dir, i');
  }

  /** Replacing one inode by a well-formed one with the same owner, number and valid children keeps the invariant. */
  lemma InvAfterReplace(c: Config, s: State, t: State, dir: InodeId, i': Inode)
    requires Inv(c, s) && dir in s.inodes && t.inodes == s.inodes[dir := i']
    requires t.nextId == s.nextId && |t.mapInode| == |s.mapInode|
    requires WellFormed(i') && i'.owner == s.inodes[dir].owner && i'.ino == s.inodes[dir].ino
    requires ChildrenOf(i'.dentrys, dir, s.nextId)
    ensures Inv(c, t)
  {
  }

  /** The deallocation loop of juzfs_drop_dentry, in the order it runs. */
  function FreeBlocks(s: State, blks: seq<nat>): (r: Option<State>)
    ensures r.Some? ==>
              r.value.inodes == s.inodes && r.value.nextId == s.nextId
              && r.value.mapInode == s.mapInode && r.value.bytes == s.bytes && |r.value.mapData| == |s.mapData|
    decreases |blks|
  {
    if blks == [] then Some(s)
    else match DeallocDataBlk(s, blks[0])
      case None => None
      case Some(s1) => FreeBlocks(s1, blks[1..])
  }

  /** One round of the release loop: free the block of slot `cur - 1`, then the rest. */
  lemma FreeBlocksStep(s: State, slots: seq<nat>, cur: nat, low: nat)
    requires low < cur <= |slots|
    ensures DeallocDataBlk(s, slots[cur - 1]).None? ==> FreeBlocks(s, Dentries.FreedSlots(slots, cur, low)).None?
    ensures DeallocDataBlk(s, slots[cur - 1]).Some? ==>
      FreeBlocks(s, Dentries.FreedSlots(slots, cur, low))
        == FreeBlocks(DeallocDataBlk(s, slots[cur - 1]).value, Dentries.FreedSlots(slots, cur - 1, low))
  {
    var fs := Dentries.FreedSlots(slots, cur, low);
    assert fs[0] == slots[cur - 1] && fs[1..] == Dentries.FreedSlots(slots, cur - 1, low);
  }

  /** juzfs_drop_dentry on the inode under `dir`, followed by the release of the freed slots' blocks. */
  function DropEntry(s: State, dir: InodeId, name: seq<char>): (r: (State, Ret))
    requires dir in s.inodes && WellFormed(s.inodes[dir])
  {
    var drop := Dentries.DropDentry(s.inodes[dir], name);
    var s1 := s.(inodes := s.inodes[dir := drop.inode]);
    match FreeBlocks(s1, drop.freed)
    case None => (s, Undefined)
    case Some(s2) => (s2, Code(drop.ret))
  }

  lemma RoundUpWithinSegments(n: nat)
    requires n < JFS_DATA_PER_FILE * JFS_DENTRYS_SEG_SIZE
    ensures n <= RoundUp(n, JFS_DENTRYS_SEG_SIZE) <= JFS_DATA_PER_FILE * JFS_DENTRYS_SEG_SIZE
  {
  }

  lemma DropEntryKeepsInv(c: Config, s: State, dir: InodeId, name: seq<char>)
    requires Inv(c, s) && dir in s.inodes
    ensures DropEntry(s, dir, name).1 != Undefined ==> Inv(c, DropEntry(s, dir, name).0)
    ensures DropEntry(s, dir, name).1 != Undefined ==> DropEntry(s, dir, name).0.inodes.Keys == s.inodes.Keys
  {
    var drop := Dentries.DropDentry(s.inodes[dir], name);
    DropKeepsWellFormed(s.inodes[dir], name);
    var s1 := s.(inodes := s.inodes[dir := drop.inode]);
    assert Inv(c, s1);
  }

  /** Dropping a child leaves a well-formed inode with the same owner. */
  lemma DropKeepsWellFormed(i: Inode, name: seq<char>)
    requires WellFormed(i)
    ensures var drop := Dentries.DropDentry(i, name);
      WellFormed(drop.inode) && drop.inode.owner == i.owner
  {
    Dentries.DropDentryOutcome(i, name);
    if Dentries.DropDentry(i, name).ret != -ENOENT {
      RoundUpWithinSegments(|i.dentrys| - 1);
    }
  }

  // ---------------------------------------------------------------------------
  // Path lookup
  // ---------------------------------------------------------------------------

  /**
   * Where jfs_lookup ends, with the level it ended at where that matters:
   * the root; child `idx` of directory `dir`; a miss in directory `dir` while
   * looking for component `at`; a file met at component `at` before the last
   * level; or a NULL dereference (an unloaded or freed inode on the way, or
   * the loop running out of components). The only unloaded dentry the
   * operations make is one whose inode allocation failed; it keeps ino
   * `(uint32_t)-1`, whose reload reads past the disk.
   */
  datatype Found = AtRoot | Hit(dir: InodeId, idx: nat) | Miss(dir: InodeId, at: nat)
                 | FileInPath(file: InodeId, at: nat) | Fault

  /** The handles a lookup outcome names are in the arena and its index is in range. */
  predicate FoundIn(c: Config, s: State, f: Found)
  {
    match f
    case AtRoot => c.rootId in s.inodes
    case Hit(d, j) =>
      d in s.inodes && j < |s.inodes[d].dentrys| && s.inodes[d].dentrys[j].inode.Some?
        && s.inodes[d].dentrys[j].inode.value in s.inodes
    case Miss(d, _) => d in s.inodes
    case FileInPath(d, _) => d in s.inodes
    case Fault => true
  }

  /**
   * The body of jfs_lookup's loop from the `k`-th component on, with the
   * cursor dentry's inode `cur`: a file before the last level ends the walk,
   * a directory is searched for the first child whose name has the component
   * as a prefix, and the walk ends on a miss or at the last level.
   */
  function Walk(s: State, cur: InodeId, tokens: seq<seq<char>>, k: nat, total: nat): (f: Found)
    ensures f.AtRoot? == false
    ensures f.Hit? ==>
              f.dir in s.inodes && f.idx < |s.inodes[f.dir].dentrys|
              && s.inodes[f.dir].dentrys[f.idx].inode.Some? && s.inodes[f.dir].dentrys[f.idx].inode.value in s.inodes
    ensures f.Miss? ==> f.dir in s.inodes && IsDir(s.inodes[f.dir])
    ensures f.FileInPath? ==> f.file in s.inodes && IsFile(s.inodes[f.file])
    decreases |tokens| - k
  {
    if k >= |tokens| || cur !in s.inodes then Fault
    else
      var i := s.inodes[cur];
      if IsFile(i) && k + 1 < total then FileInPath(cur, k)
      else if IsDir(i) then
        match Dentries.FirstMatch(i.dentrys, tokens[k])
        case None => Miss(cur, k)
        case Some(j) =>
          var child := i.dentrys[j].inode;
          if k + 1 == total then
            if child.Some? && child.value in s.inodes then Hit(cur, j) else Fault
          else if child.None? then Fault
          else Walk(s, child.value, tokens, k + 1, total)
      else Walk(s, cur, tokens, k + 1, total)
  }

  /** jfs_lookup on an absolute path: the root for level 0, the walk from the root otherwise. */
  function Lookup(c: Config, s: State, path: seq<char>): (f: Found)
    requires c.rootId in s.inodes
    ensures FoundIn(c, s, f)
  {
    if Paths.Lvl(path) == 0 then AtRoot
    else Walk(s, c.rootId, Paths.Components(path), 0, Paths.Lvl(path))
  }

  /**
   * The value `*is_find` holds when jfs_lookup returns. The file-before-last-level
   * exit leaves it unassigned; `stale` is what the caller's variable held.
   */
  function IsFind(f: Found, stale: bool): bool
  {
    match f
    case AtRoot => true
    case Hit(_, _) => true
    case Miss(_, _) => false
    case FileInPath(_, _) => stale
    case Fault => false
  }

  /** The dentry jfs_lookup returns. */
  function TargetDentry(c: Config, s: State, f: Found): Dentry
    requires FoundIn(c, s, f) && !f.Fault?
  {
    match f
    case AtRoot => s.inodes[c.rootId].owner
    case Hit(d, j) => s.inodes[d].dentrys[j]
    case Miss(d, _) => s.inodes[d].owner
    case FileInPath(d, _) => s.inodes[d].owner
  }

  /** The inode that dentry points at (`dentry->inode`). */
  function TargetInode(c: Config, s: State, f: Found): (id: InodeId)
    requires FoundIn(c, s, f) && !f.Fault?
    ensures id in s.inodes
    ensures Inv(c, s) ==> TargetDentry(c, s, f).inode == Some(id)
  {
    match f
    case AtRoot => c.rootId
    case Hit(d, j) => s.inodes[d].dentrys[j].inode.value
    case Miss(d, _) => d
    case FileInPath(d, _) => d
  }

  /**
   * An independent account of path resolution: follow, from the root, the
   * first child whose name has the next component as a prefix, through
   * directories only.
   */
  function Reach(c: Config, s: State, ts: seq<seq<char>>): (r: Option<InodeId>)
    decreases |ts|
  {
    if ts == [] then Some(c.rootId)
    else match Reach(c, s, ts[..|ts| - 1])
      case None => None
      case Some(m) => Step(s, m, ts[|ts| - 1])
  }

  /** One resolution step: the inode of the first child of directory `m` that the component names. */
  function Step(s: State, m: InodeId, t: seq<char>): Option<InodeId>
  {
    if m !in s.inodes || !IsDir(s.inodes[m]) then None
    else match Dentries.FirstMatch(s.inodes[m].dentrys, t)
      case None => None
      case Some(j) => s.inodes[m].dentrys[j].inode
  }

  /** The loop of jfs_lookup agrees with path resolution, component by component. */
  lemma {:induction false} WalkResolves(c: Config, s: State, cur: InodeId, tokens: seq<seq<char>>, k: nat)
    requires k < |tokens| && Reach(c, s, tokens[..k]) == Some(cur)
    ensures var f := Walk(s, cur, tokens, k, |tokens|);
      && (f.Hit? <==> Reach(c, s, tokens).Some? && Reach(c, s, tokens).value in s.inodes)
      && (f.Hit? ==>
            Reach(c, s, tokens[..|tokens| - 1]) == Some(f.dir)
            && Dentries.FirstMatch(s.inodes[f.dir].dentrys, tokens[|tokens| - 1]) == Some(f.idx)
            && s.inodes[f.dir].dentrys[f.idx].inode == Reach(c, s, tokens))
      && (f.Miss? ==>
            f.at < |tokens| && Reach(c, s, tokens[..f.at]) == Some(f.dir) && IsDir(s.inodes[f.dir])
            && forall j :: 0 <= j < |s.inodes[f.dir].dentrys| ==>
                 !NameMatches(s.inodes[f.dir].dentrys[j].name, tokens[f.at]))
      && (f.FileInPath? ==>
            f.at + 1 < |tokens| && Reach(c, s, tokens[..f.at]) == Some(f.file)
            && IsFile(s.inodes[f.file]))
    decreases |tokens| - k
  {
    var n := |tokens|;
    assert tokens[..k + 1][..k] == tokens[..k];
    assert Reach(c, s, tokens[..k + 1]) == Step(s, cur, tokens[k]);
    if cur !in s.inodes {
      ReachStuck(c, s, tokens, k + 1);
    } else {
      var i := s.inodes[cur];
      if IsFile(i) && k + 1 < n {
        ReachStuck(c, s, tokens, k + 1);
      } else if IsDir(i) {
        match Dentries.FirstMatch(i.dentrys, tokens[k])
        case None =>
          ReachStuck(c, s, tokens, k + 1);
        case Some(j) =>
          if k + 1 == n {
            assert tokens[..k + 1] == tokens;
            assert tokens[..n - 1] == tokens[..k];
          } else if i.dentrys[j].inode.None? {
            ReachStuck(c, s, tokens, k + 1);
          } else {
            WalkResolves(c, s, i.dentrys[j].inode.value, tokens, k + 1);
          }
      } else {
        assert k + 1 == n;
        assert tokens[..k + 1] == tokens;
        assert Walk(s, cur, tokens, k + 1, n) == Fault;
      }
    }
  }

  /** Once resolution has failed at some prefix it fails for every longer one. */
  lemma {:induction false} ReachStuck(c: Config, s: State, tokens: seq<seq<char>>, k: nat)
    requires k <= |tokens| && (Reach(c, s, tokens[..k]).None? || Reach(c, s, tokens[..k]).value !in s.inodes)
    ensures Reach(c, s, tokens).None? || Reach(c, s, tokens).value !in s.inodes
    decreases |tokens| - k
  {
    if k == |tokens| {
      assert tokens[..k] == tokens;
    } else {
      assert tokens[..k + 1][..k] == tokens[..k];
      ReachStuck(c, s, tokens, k + 1);
    }
  }

  /**
   * jfs_lookup on the paths FUSE passes: the root for "/"; otherwise child
   * `idx` of `dir` is returned exactly when the path resolves, and it is the
   * first child of the parent that the last component names; a miss returns
   * the directory searched, which has no child named by that component; a
   * file is returned early only before the last level.
   */
  lemma LookupResolves(c: Config, s: State, path: seq<char>)
    requires c.rootId in s.inodes && Paths.ValidPath(path)
    ensures path == "/" <==> Lookup(c, s, path) == AtRoot
    ensures path != "/" ==>
      var cs := Paths.Components(path);
      var f := Lookup(c, s, path);
      && (f.Hit? <==> Reach(c, s, cs).Some? && Reach(c, s, cs).value in s.inodes)
      && (f.Hit? ==>
            Reach(c, s, cs[..|cs| - 1]) == Some(f.dir)
            && Dentries.FirstMatch(s.inodes[f.dir].dentrys, cs[|cs| - 1]) == Some(f.idx)
            && s.inodes[f.dir].dentrys[f.idx].inode == Reach(c, s, cs))
      && (f.Miss? ==>
            f.at < |cs| && Reach(c, s, cs[..f.at]) == Some(f.dir) && IsDir(s.inodes[f.dir])
            && forall j :: 0 <= j < |s.inodes[f.dir].dentrys| ==>
                 !NameMatches(s.inodes[f.dir].dentrys[j].name, cs[f.at]))
      && (f.FileInPath? ==> f.at + 1 < |cs| && Reach(c, s, cs[..f.at]) == Some(f.file) && IsFile(s.inodes[f.file]))
  {
    Paths.LvlCountsComponents(path);
    if path != "/" {
      var cs := Paths.Components(path);
      assert cs[..0] == [];
      WalkResolves(c, s, c.rootId, cs, 0);
    }
  }

  /** Two arenas that agree on handles, child lists and types give the same lookups. */
  predicate SameTree(a: map<InodeId, Inode>, b: map<InodeId, Inode>)
  {
    a.Keys == b.Keys && forall id :: id in a ==> a[id].dentrys == b[id].dentrys && a[id].owner.ftype == b[id].owner.ftype
  }

  lemma {:induction false} WalkFrame(s: State, t: State, cur: InodeId, tokens: seq<seq<char>>, k: nat, total: nat)
    requires SameTree(s.inodes, t.inodes)
    ensures Walk(s, cur, tokens, k, total) == Walk(t, cur, tokens, k, total)
    decreases |tokens| - k
  {
    if k < |tokens| && cur in s.inodes {
      var i := s.inodes[cur];
      if !(IsFile(i) && k + 1 < total) {
        if IsDir(i) {
          match Dentries.FirstMatch(i.dentrys, tokens[k])
          case None =>
          case Some(j) =>
            if k + 1 != total && i.dentrys[j].inode.Some? {
              WalkFrame(s, t, i.dentrys[j].inode.value, tokens, k + 1, total);
            }
        } else {
          WalkFrame(s, t, cur, tokens, k + 1, total);
        }
      }
    }
  }

  lemma LookupFrame(c: Config, s: State, t: State, path: seq<char>)
    requires c.rootId in s.inodes && SameTree(s.inodes, t.inodes)
    ensures Lookup(c, s, path) == Lookup(c, t, path)
  {
    if Paths.Lvl(path) != 0 {
      WalkFrame(s, t, c.rootId, Paths.Components(path), 0, Paths.Lvl(path));
    }
  }

  // ---------------------------------------------------------------------------
  // Creating entries: juzfs_mkdir, juzfs_mknod
  // ---------------------------------------------------------------------------

  /**
   * The common tail of juzfs_mkdir and juzfs_mknod: a new dentry under `dir`,
   * an inode for it (whose failure is ignored), and its append to `dir` with
   * a data block for a new segment (whose failure is ignored too). A name
   * that does not fit the 128-byte field overflows it.
   */
  function MakeChild(c: Config, s: State, dir: InodeId, name: seq<char>, ftype: FileType): (r: (State, Ret))
    requires dir in s.inodes && WellFormed(s.inodes[dir])
  {
    if !NameOk(name) then (s, Undefined)
    else
      var a := AllocInode(c, s, NewDentry(name, Some(dir), ftype));
      var (s2, _) := AllocEntry(c, a.s, dir, a.dentry, true);
      (s2, Code(0))
  }

  const S_IFMT: bv32 := 0xF000
  const S_IFDIR: bv32 := 0x4000
  const S_IFREG: bv32 := 0x8000
  const JFS_DEFAULT_PERM: bv32 := 0x1FF

  /** The type juzfs_mknod gives a node: a directory for S_ISDIR modes, a file for every other mode. */
  function NodeType(mode: bv32): (t: FileType)
    ensures t == Dir <==> mode & S_IFMT == S_IFDIR
  {
    if mode & S_IFMT == S_IFREG then File
    else if mode & S_IFMT == S_IFDIR then Dir
    else File
  }

  /** juzfs_mkdir. */
  function Mkdir(c: Config, s: State, path: seq<char>, stale: bool): (r: (State, Ret))
    requires Inv(c, s) && |path| > 0 && path[0] == '/'
  {
    var f := Lookup(c, s, path);
    if f.Fault? then (s, Undefined)
    else if IsFind(f, stale) then (s, Code(-EEXIST))
    else
      var dir := TargetInode(c, s, f);
      if IsFile(s.inodes[dir]) then (s, Code(-ENXIO))
      else MakeChild(c, s, dir, Paths.GetName(path), Dir)
  }

  /** juzfs_mknod. */
  function Mknod(c: Config, s: State, path: seq<char>, mode: bv32, stale: bool): (r: (State, Ret))
    requires Inv(c, s) && |path| > 0 && path[0] == '/'
  {
    var f := Lookup(c, s, path);
    if f.Fault? then (s, Undefined)
    else if IsFind(f, stale) then (s, Code(-EEXIST))
    else MakeChild(c, s, TargetInode(c, s, f), Paths.GetName(path), NodeType(mode))
  }

  /** MakeChild keeps the invariant and only ever adds handles. */
  lemma MakeChildKeepsInv(c: Config, s: State, dir: InodeId, name: seq<char>, ftype: FileType)
    requires Inv(c, s) && dir in s.inodes
    ensures MakeChild(c, s, dir, name, ftype).1 != Undefined ==> Inv(c, MakeChild(c, s, dir, name, ftype).0)
    ensures s.inodes.Keys <= MakeChild(c, s, dir, name, ftype).0.inodes.Keys
  {
    if NameOk(name) {
      var a := AllocInode(c, s, NewDentry(name, Some(dir), ftype));
      AllocInodeOutcome(c, s, NewDentry(name, Some(dir), ftype));
      AllocEntryKeepsInv(c, a.s, dir, a.dentry, true);
    }
  }

  /**
   * The outcomes of juzfs_mkdir and juzfs_mknod on a found or missing name:
   * -EEXIST exactly when the lookup reports the path found; for mkdir
   * -ENXIO when the deepest node reached is a file; otherwise the directory
   * the lookup stopped at gains one child, named after the last component
   * and typed DIR for mkdir (for mknod, DIR exactly for S_ISDIR modes),
   * unless its child list is full -- and the call returns 0 either way.
   */
  lemma MkdirOutcome(c: Config, s: State, path: seq<char>, stale: bool)
    requires Inv(c, s) && |path| > 0 && path[0] == '/'
    requires !Lookup(c, s, path).Fault?
    ensures var f := Lookup(c, s, path);
      var (s', r) := Mkdir(c, s, path, stale);
      && (r == Code(-EEXIST) <==> IsFind(f, stale))
      && (r == Code(-ENXIO) <==> !IsFind(f, stale) && f.FileInPath?)
      && (r == Code(0) <==> f.Miss? && NameOk(Paths.GetName(path)))
      && (r == Undefined <==> f.Miss? && !NameOk(Paths.GetName(path)))
      && (r == Code(0) ==> ChildAdded(c, s, s', f.dir, Paths.GetName(path), Dir))
      && (r != Code(0) ==> s' == s)
  {
    var f := Lookup(c, s, path);
    if f.Miss? && NameOk(Paths.GetName(path)) {
      MakeChildAdds(c, s, f.dir, Paths.GetName(path), Dir);
    }
  }

  lemma MknodOutcome(c: Config, s: State, path: seq<char>, mode: bv32, stale: bool)
    requires Inv(c, s) && |path| > 0 && path[0] == '/'
    requires !Lookup(c, s, path).Fault?
    ensures var f := Lookup(c, s, path);
      var (s', r) := Mknod(c, s, path, mode, stale);
      && (r == Code(-EEXIST) <==> IsFind(f, stale))
      && (r == Code(0) <==> !IsFind(f, stale) && NameOk(Paths.GetName(path)))
      && (r == Undefined <==> !IsFind(f, stale) && !NameOk(Paths.GetName(path)))
      && (r == Code(0) ==> ChildAdded(c, s, s', TargetInode(c, s, f), Paths.GetName(path), NodeType(mode)))
      && (r != Code(0) ==> s' == s)
  {
    var f := Lookup(c, s, path);
    if !IsFind(f, stale) && NameOk(Paths.GetName(path)) {
      MakeChildAdds(c, s, TargetInode(c, s, f), Paths.GetName(path), NodeType(mode));
    }
  }

  /**
   * What juzfs_mkdir and juzfs_mknod do to the state once they reach the
   * allocations. The lowest clear bit of the inode map is set; unless it is
   * bit `max_ino`, a new empty inode with that number is made under the next
   * handle and the dentry points at it (otherwise the dentry stays unloaded
   * with ino `(uint32_t)-1`). The dentry, named `name`, typed `ftype` and
   * with parent `dir`, is appended to `dir` exactly when jfs_alloc_dentry does
   * not refuse; growing the list takes the lowest clear data block into the
   * slot the code writes. Every other inode and the device are unchanged.
   */
  predicate ChildAdded(c: Config, s: State, s': State, dir: InodeId, name: seq<char>, ftype: FileType)
    requires dir in s.inodes && WellFormed(s.inodes[dir]) && NameOk(name)
  {
    InodeMade(c, s, s', dir, name, ftype) && EntryAppended(c, s, s', dir, name, ftype)
  }

  /** The dentry mkdir and mknod build, as jfs_alloc_inode leaves it. */
  function MadeEntry(c: Config, s: State, dir: InodeId, name: seq<char>, ftype: FileType): (e: Dentry)
    requires NameOk(name)
    ensures CStr(e.name) == name && e.parent == Some(dir) && e.ftype == ftype
  {
    var low := Bitmap.LowestClear(s.mapInode);
    if low.Some? && low.value != c.maxIno then NewDentry(name, Some(dir), ftype).(inode := Some(s.nextId), ino := low.value)
    else NewDentry(name, Some(dir), ftype)
  }

  /** The inode-map half of ChildAdded: the bit set, and the new inode when one is made. */
  predicate InodeMade(c: Config, s: State, s': State, dir: InodeId, name: seq<char>, ftype: FileType)
    requires NameOk(name)
  {
    var low := Bitmap.LowestClear(s.mapInode);
    var made := low.Some? && low.value != c.maxIno;
    && (made ==>
          && s.nextId !in s.inodes && s'.inodes.Keys == s.inodes.Keys + {s.nextId}
          && s'.inodes[s.nextId] == Inode(low.value, 0, MadeEntry(c, s, dir, name, ftype), [], 0, ZERO_SLOTS))
    && (!made ==> s'.inodes.Keys == s.inodes.Keys && MadeEntry(c, s, dir, name, ftype).inode.None?)
    && s'.mapInode == (if low.Some? then Bitmap.SetBit(s.mapInode, low.value) else s.mapInode)
    && s'.bytes == s.bytes
  }

  /** The child-list half of ChildAdded: the append, the growth and the data map. */
  predicate EntryAppended(c: Config, s: State, s': State, dir: InodeId, name: seq<char>, ftype: FileType)
    requires dir in s.inodes && WellFormed(s.inodes[dir]) && NameOk(name)
  {
    var i := s.inodes[dir];
    var before := i.dentrys;
    var grows := Dentries.AllocatesBlock(i);
    var blk := Bitmap.LowestClear(s.mapData);
    && dir in s'.inodes
    && var after := s'.inodes[dir].dentrys;
    && (after == before <==> Dentries.Full(i) && !grows)
    && (after != before ==> after == before + [MadeEntry(c, s, dir, name, ftype)])
    && s'.inodes[dir] == i.(dentrys := after,
                            listSize := if grows then (|before| + 1) * JFS_DENTRYS_SEG_SIZE else i.listSize,
                            dataOffsets := if grows then i.dataOffsets[|before| := AllocDataBlk(c, s).1] else i.dataOffsets)
    && (forall id :: id in s.inodes && id != dir ==> id in s'.inodes && s'.inodes[id] == s.inodes[id])
    && s'.mapData == (if grows && blk.Some? then Bitmap.SetBit(s.mapData, blk.value) else s.mapData)
  }

  /** The creation step of mkdir and mknod returns 0 and changes the state as ChildAdded states. */
  lemma MakeChildAdds(c: Config, s: State, dir: InodeId, name: seq<char>, ftype: FileType)
    requires Inv(c, s) && dir in s.inodes && NameOk(name)
    ensures MakeChild(c, s, dir, name, ftype).1 == Code(0)
    ensures ChildAdded(c, s, MakeChild(c, s, dir, name, ftype).0, dir, name, ftype)
  {
    MakeChildMakesInode(c, s, dir, name, ftype);
    MakeChildAppends(c, s, dir, name, ftype);
  }

  lemma MakeChildMakesInode(c: Config, s: State, dir: InodeId, name: seq<char>, ftype: FileType)
    requires Inv(c, s) && dir in s.inodes && NameOk(name)
    ensures InodeMade(c, s, MakeChild(c, s, dir, name, ftype).0, dir, name, ftype)
  {
    var d := NewDentry(name, Some(dir), ftype);
    var a := AllocInode(c, s, d);
    AllocInodeOutcome(c, s, d);
    AllocEntryOutcome(c, a.s, dir, a.dentry);
  }

  lemma MakeChildAppends(c: Config, s: State, dir: InodeId, name: seq<char>, ftype: FileType)
    requires Inv(c, s) && dir in s.inodes && NameOk(name)
    ensures EntryAppended(c, s, MakeChild(c, s, dir, name, ftype).0, dir, name, ftype)
  {
    var d := NewDentry(name, Some(dir), ftype);
    var a := AllocInode(c, s, d);
    AllocInodeKeeps(c, s, d);
    assert a.dentry == MadeEntry(c, s, dir, name, ftype);
    assert AllocDataBlk(c, a.s).1 == AllocDataBlk(c, s).1;
    AllocEntryOutcome(c, a.s, dir, a.dentry);
  }

  /** jfs_alloc_inode leaves every existing inode, the data map and the device as they were. */
  lemma AllocInodeKeeps(c: Config, s: State, d: Dentry)
    requires Inv(c, s)
    ensures var a := AllocInode(c, s, d);
      && a.s.mapData == s.mapData && a.s.bytes == s.bytes
      && forall id :: id in s.inodes ==> id in a.s.inodes && a.s.inodes[id] == s.inodes[id]
  {
  }

  // ---------------------------------------------------------------------------
  // Removing entries: juzfs_unlink, juzfs_rmdir
  // ---------------------------------------------------------------------------

  /**
   * The common step of juzfs_unlink and juzfs_rename: drop the inode the
   * dentry points at, then remove the dentry's name from its parent's list.
   * The root dentry has no parent, which is a NULL dereference.
   */
  function UnlinkDentry(c: Config, s: State, d: Dentry): (r: (State, Ret))
  {
    if d.inode.None? then (s, Undefined)
    else
      var (s1, r1) := DropInode(c, s, d.inode.value);
      if r1 == Undefined || d.parent.None? || d.parent.value !in s1.inodes
         || !WellFormed(s1.inodes[d.parent.value]) then (s, Undefined)
      else DropEntry(s1, d.parent.value, d.name)
  }

  /** juzfs_unlink; it returns 0 whatever the two steps return. */
  function Unlink(c: Config, s: State, path: seq<char>, stale: bool): (r: (State, Ret))
    requires Inv(c, s)
  {
    var f := Lookup(c, s, path);
    if f.Fault? then (s, Undefined)
    else if !IsFind(f, stale) then (s, Code(-ENOENT))
    else
      var (s1, r1) := UnlinkDentry(c, s, TargetDentry(c, s, f));
      if r1 == Undefined then (s, Undefined) else (s1, Code(0))
  }

  /** juzfs_rmdir: juzfs_unlink, and 0 whatever it returned. */
  function Rmdir(c: Config, s: State, path: seq<char>, stale: bool): (r: (State, Ret))
    requires Inv(c, s)
  {
    var (s1, r1) := Unlink(c, s, path, stale);
    if r1 == Undefined then (s, Undefined) else (s1, Code(0))
  }

  lemma UnlinkDentryKeepsInv(c: Config, s: State, d: Dentry)
    requires Inv(c, s)
    ensures UnlinkDentry(c, s, d).1 != Undefined ==> Inv(c, UnlinkDentry(c, s, d).0)
  {
    if d.inode.Some? {
      var (s1, r1) := DropInode(c, s, d.inode.value);
      DropInodeOutcome(c, s, d.inode.value);
      if !(r1 == Undefined || d.parent.None? || d.parent.value !in s1.inodes) {
        assert Inv(c, s1);
        DropEntryKeepsInv(c, s1, d.parent.value, d.name);
      }
    }
  }

  /**
   * The outcomes of juzfs_unlink on a found child: unless undefined, 0, and
   * the parent loses the first entry with the child's name, the others kept
   * in order. A child other than the root leaves the arena with its
   * inode-map bit cleared; the root is refused by juzfs_drop_inode and stays,
   * with the inode map unchanged. Unlinking an entry that points at its own
   * directory frees the directory before its list is changed, which is
   * undefined.
   */
  lemma UnlinkHit(c: Config, s: State, path: seq<char>, stale: bool)
    requires Inv(c, s) && Lookup(c, s, path).Hit?
    ensures var f := Lookup(c, s, path);
      var id := TargetInode(c, s, f);
      var name := TargetDentry(c, s, f).name;
      var (s', r) := Unlink(c, s, path, stale);
      && (id != c.rootId && id == f.dir ==> r == Undefined)
      && (r != Undefined ==>
            && r == Code(0) && f.dir in s'.inodes
            && (id != c.rootId ==> id !in s'.inodes && !Bitmap.IsSet(s'.mapInode, s.inodes[id].ino))
            && (id == c.rootId ==> id in s'.inodes && s'.mapInode == s.mapInode)
            && s'.inodes[f.dir] == Dentries.DropDentry(s.inodes[f.dir], name).inode
            && Dentries.DropDentry(s.inodes[f.dir], name).ret == |s.inodes[f.dir].dentrys| - 1)
  {
    var f := Lookup(c, s, path);
    UnlinkEntry(c, s, f.dir, f.idx);
  }

  /** UnlinkHit on the state: the two steps of juzfs_unlink on child `idx` of `dir`. */
  lemma UnlinkEntry(c: Config, s: State, dir: InodeId, idx: nat)
    requires Inv(c, s) && dir in s.inodes && idx < |s.inodes[dir].dentrys|
    requires s.inodes[dir].dentrys[idx].inode.Some? && s.inodes[dir].dentrys[idx].inode.value in s.inodes
    ensures var d := s.inodes[dir].dentrys[idx];
      var id := d.inode.value;
      var (s', r) := UnlinkDentry(c, s, d);
      && (id != c.rootId && id == dir ==> r == Undefined)
      && (r != Undefined ==>
            && dir in s'.inodes
            && (id != c.rootId ==> id !in s'.inodes && !Bitmap.IsSet(s'.mapInode, s.inodes[id].ino))
            && (id == c.rootId ==> id in s'.inodes && s'.mapInode == s.mapInode)
            && s'.inodes[dir] == Dentries.DropDentry(s.inodes[dir], d.name).inode
            && Dentries.DropDentry(s.inodes[dir], d.name).ret == |s.inodes[dir].dentrys| - 1)
  {
    var d := s.inodes[dir].dentrys[idx];
    var id := d.inode.value;
    DropInodeOutcome(c, s, id);
    var (s1, _) := DropInode(c, s, id);
    assert d.parent == Some(dir);
    if id != dir {
      assert s1.inodes[dir] == s.inodes[dir];
    }
    assert CStr(s.inodes[dir].dentrys[idx].name) == CStr(d.name);
    Dentries.DropDentryOutcome(s.inodes[dir], d.name);
  }

  /**
   * Every outcome of juzfs_unlink and juzfs_rmdir. Unlink returns -ENOENT
   * exactly when the lookup does not report the path found, and then changes
   * nothing; at the root it dereferences the root dentry's missing parent. On
   * a found child it returns 0 exactly when the child is not its own
   * directory (other than the root) and every block the drop releases lies
   * inside the data map; the data map then loses exactly those blocks.
   * juzfs_rmdir returns 0 whenever unlink is defined, -ENOENT included, with
   * unlink's state.
   */
  lemma UnlinkOutcome(c: Config, s: State, path: seq<char>, stale: bool)
    requires Inv(c, s) && !Lookup(c, s, path).Fault?
    ensures var f := Lookup(c, s, path);
      var (s', r) := Unlink(c, s, path, stale);
      && (r == Code(-ENOENT) <==> !IsFind(f, stale))
      && (r == Code(-ENOENT) || r == Code(0) || r == Undefined)
      && (r != Code(0) ==> s' == s)
      && (f.AtRoot? ==> r == Undefined)
      && (f.Hit? ==>
            var id := TargetInode(c, s, f);
            var freed := Dentries.DropDentry(s.inodes[f.dir], TargetDentry(c, s, f).name).freed;
            && (r == Code(0) <==>
                  !(id != c.rootId && id == f.dir) && forall k :: 0 <= k < |freed| ==> freed[k] < |s.mapData| * 8)
            && (r == Code(0) ==>
                  forall j :: 0 <= j < |s.mapData| * 8 ==>
                    (Bitmap.IsSet(s'.mapData, j) <==> Bitmap.IsSet(s.mapData, j) && j !in freed)))
      && (Rmdir(c, s, path, stale).1 == Undefined <==> r == Undefined)
      && (r != Undefined ==> Rmdir(c, s, path, stale) == (s', Code(0)))
  {
    var f := Lookup(c, s, path);
    if f.Hit? {
      UnlinkEntryFrees(c, s, f.dir, f.idx);
    }
  }

  /** The block release of UnlinkEntry: defined exactly when every freed slot is inside the data map. */
  lemma UnlinkEntryFrees(c: Config, s: State, dir: InodeId, idx: nat)
    requires Inv(c, s) && dir in s.inodes && idx < |s.inodes[dir].dentrys|
    requires s.inodes[dir].dentrys[idx].inode.Some? && s.inodes[dir].dentrys[idx].inode.value in s.inodes
    ensures var d := s.inodes[dir].dentrys[idx];
      var id := d.inode.value;
      var freed := Dentries.DropDentry(s.inodes[dir], d.name).freed;
      var (s', r) := UnlinkDentry(c, s, d);
      && (r == Undefined <==>
            (id != c.rootId && id == dir) || !forall k :: 0 <= k < |freed| ==> freed[k] < |s.mapData| * 8)
      && (r != Undefined ==>
            forall j :: 0 <= j < |s.mapData| * 8 ==>
              (Bitmap.IsSet(s'.mapData, j) <==> Bitmap.IsSet(s.mapData, j) && j !in freed))
  {
    var d := s.inodes[dir].dentrys[idx];
    var id := d.inode.value;
    DropInodeOutcome(c, s, id);
    var (s1, _) := DropInode(c, s, id);
    assert d.parent == Some(dir);
    if !(id != c.rootId && id == dir) {
      assert s1.inodes[dir] == s.inodes[dir] && s1.mapData == s.mapData;
      DropEntryReleases(s1, dir, d.name);
    }
  }

  // ---------------------------------------------------------------------------
  // juzfs_rename
  // ---------------------------------------------------------------------------

  /**
   * juzfs_rename: create the destination with mknod (typed like the source),
   * look it up, drop the inode mknod made for it and point the new entry at
   * the source's inode, then remove the source's entry from whatever its
   * parent dentry names by then. Only a second lookup that ends at a child
   * entry is modelled; any other ending is treated as undefined. The code goes
   * on there with the dentry the lookup returns instead: the destination
   * directory's own dentry when it refused the new entry or when a directory
   * before the last component is missing, or a file's dentry when the walk
   * stops at a file. It drops that dentry's inode (refused for the root) and
   * repoints the dentry at the source, which the model does not follow.
   */
  function Rename(c: Config, s: State, from: seq<char>, to: seq<char>, staleFrom: bool, staleTo: bool): (r: (State, Ret))
    requires Inv(c, s) && |to| > 0 && to[0] == '/'
  {
    var f := Lookup(c, s, from);
    if f.Fault? then (s, Undefined)
    else if !IsFind(f, staleFrom) then (s, Code(-ENOENT))
    else if from == to then (s, Code(0))
    else
      var fromDentry := TargetDentry(c, s, f);
      var fromId := TargetInode(c, s, f);
      var mode := if IsDir(s.inodes[fromId]) then S_IFDIR else S_IFREG;
      var (s1, r1) := Mknod(c, s, to, mode, staleTo);
      if r1 != Code(0) then (s1, r1)
      else
        MknodKeepsInv(c, s, to, mode, staleTo);
        var g := Lookup(c, s1, to);
        if !g.Hit? then (s, Undefined)
        else RenameTail(c, s1, g, fromId, fromDentry)
  }

  /**
   * The part of juzfs_rename after the destination exists, with the
   * destination's lookup `g`. The count juzfs_drop_dentry returns is ignored:
   * rename returns mknod's 0.
   */
  function RenameTail(c: Config, s1: State, g: Found, fromId: InodeId, fromDentry: Dentry): (r: (State, Ret))
    requires FoundIn(c, s1, g) && g.Hit?
  {
    var (s2, r2) := DropInode(c, s1, TargetInode(c, s1, g));
    if r2 == Undefined || g.dir !in s2.inodes || fromId !in s2.inodes then (s1, Undefined)
    else
      var parent := s2.inodes[g.dir];
      var entry := parent.dentrys[g.idx].(ino := s2.inodes[fromId].ino, inode := Some(fromId));
      var s3 := s2.(inodes := s2.inodes[g.dir := parent.(dentrys := parent.dentrys[g.idx := entry])]);
      if fromDentry.parent.None? || fromDentry.parent.value !in s3.inodes
         || !WellFormed(s3.inodes[fromDentry.parent.value]) then (s1, Undefined)
      else
        var (s4, r4) := DropEntry(s3, fromDentry.parent.value, fromDentry.name);
        (s4, if r4 == Undefined then Undefined else Code(0))
  }

  lemma MknodKeepsInv(c: Config, s: State, path: seq<char>, mode: bv32, stale: bool)
    requires Inv(c, s) && |path| > 0 && path[0] == '/'
    ensures Mknod(c, s, path, mode, stale).1 != Undefined ==> Inv(c, Mknod(c, s, path, mode, stale).0)
  {
    var f := Lookup(c, s, path);
    if !f.Fault? && !IsFind(f, stale) {
      MakeChildKeepsInv(c, s, TargetInode(c, s, f), Paths.GetName(path), NodeType(mode));
    }
  }

  /** Renaming a path onto itself changes nothing and succeeds. */
  lemma RenameSamePath(c: Config, s: State, path: seq<char>, staleFrom: bool, staleTo: bool)
    requires Inv(c, s) && |path| > 0 && path[0] == '/'
    requires !Lookup(c, s, path).Fault? && IsFind(Lookup(c, s, path), staleFrom)
    ensures Rename(c, s, path, path, staleFrom, staleTo) == (s, Code(0))
  {
  }

  /** A source that is not found is refused with -ENOENT and changes nothing. */
  lemma RenameMissingSource(c: Config, s: State, from: seq<char>, to: seq<char>, staleFrom: bool, staleTo: bool)
    requires Inv(c, s) && |to| > 0 && to[0] == '/'
    requires !Lookup(c, s, from).Fault? && !IsFind(Lookup(c, s, from), staleFrom)
    ensures Rename(c, s, from, to, staleFrom, staleTo) == (s, Code(-ENOENT))
  {
  }

  /** When the destination is found, rename fails with mknod's -EEXIST and changes nothing. */
  lemma RenameOntoExisting(c: Config, s: State, from: seq<char>, to: seq<char>, staleFrom: bool, staleTo: bool)
    requires Inv(c, s) && |to| > 0 && to[0] == '/' && from != to
    requires !Lookup(c, s, from).Fault? && IsFind(Lookup(c, s, from), staleFrom)
    requires !Lookup(c, s, to).Fault? && IsFind(Lookup(c, s, to), staleTo)
    ensures Rename(c, s, from, to, staleFrom, staleTo) == (s, Code(-EEXIST))
  {
  }

  /**
   * After the tail of juzfs_rename, unless undefined, it returns 0; the
   * destination entry `entry` refers to the source inode and carries its
   * number, and the source's parent has lost its first child named like the
   * source. When source and destination share a directory, the drop runs on
   * the list that already holds `entry`, which moves down one place when the
   * dropped child came before it.
   */
  lemma RenameTailOutcome(c: Config, s1: State, g: Found, fromId: InodeId, fromDentry: Dentry)
    requires Inv(c, s1) && FoundIn(c, s1, g) && g.Hit?
    ensures var (s', r) := RenameTail(c, s1, g, fromId, fromDentry);
      r != Undefined ==>
        && r == Code(0)
        && fromDentry.parent.Some? && fromDentry.parent.value in s1.inodes && fromDentry.parent.value in s'.inodes
        && g.dir in s'.inodes && fromId in s1.inodes && fromId in s'.inodes
        && var p := fromDentry.parent.value;
           var dir := s1.inodes[g.dir];
           var entry := dir.dentrys[g.idx].(ino := s1.inodes[fromId].ino, inode := Some(fromId));
           var list := dir.dentrys[g.idx := entry];
           && (p != g.dir ==>
                 && s'.inodes[g.dir] == dir.(dentrys := list)
                 && s'.inodes[p] == Dentries.DropDentry(s1.inodes[p], fromDentry.name).inode)
           && (p == g.dir ==>
                 && s'.inodes[p] == Dentries.DropDentry(dir.(dentrys := list), fromDentry.name).inode
                 && match Dentries.FirstNamed(list, fromDentry.name)
                    case None => s'.inodes[p].dentrys == list
                    case Some(k) =>
                      k != g.idx ==>
                        var at := if k < g.idx then g.idx - 1 else g.idx;
                        at < |s'.inodes[p].dentrys| && s'.inodes[p].dentrys[at] == entry)
  {
    RenameTailShape(c, s1, g, fromId, fromDentry);
    var (s', r) := RenameTail(c, s1, g, fromId, fromDentry);
    if r != Undefined && fromDentry.parent.value == g.dir {
      var dir := s1.inodes[g.dir];
      var entry := dir.dentrys[g.idx].(ino := s1.inodes[fromId].ino, inode := Some(fromId));
      var list := dir.dentrys[g.idx := entry];
      match Dentries.FirstNamed(list, fromDentry.name)
      case None =>
      case Some(k) =>
        var rest := list[..k] + list[k + 1..];
        if k < g.idx {
          assert rest[g.idx - 1] == list[g.idx];
        } else if k > g.idx {
          assert rest[g.idx] == list[g.idx];
        }
    }
  }

  /**
   * The tail of juzfs_rename, unless undefined, returns 0 and leaves the
   * destination directory with `entry` in place of its slot, then the
   * source's parent with the first child named like the source dropped.
   */
  lemma RenameTailShape(c: Config, s1: State, g: Found, fromId: InodeId, fromDentry: Dentry)
    requires Inv(c, s1) && FoundIn(c, s1, g) && g.Hit?
    ensures var (s', r) := RenameTail(c, s1, g, fromId, fromDentry);
      r != Undefined ==>
        && r == Code(0)
        && fromDentry.parent.Some? && fromDentry.parent.value in s1.inodes && fromDentry.parent.value in s'.inodes
        && g.dir in s'.inodes && fromId in s1.inodes && fromId in s'.inodes
        && var p := fromDentry.parent.value;
           var dir := s1.inodes[g.dir];
           var entry := dir.dentrys[g.idx].(ino := s1.inodes[fromId].ino, inode := Some(fromId));
           var mid := s1.inodes[g.dir := dir.(dentrys := dir.dentrys[g.idx := entry])];
           && WellFormed(mid[p])
           && s'.inodes[p] == Dentries.DropDentry(mid[p], fromDentry.name).inode
           && (p != g.dir ==> s'.inodes[g.dir] == mid[g.dir])
  {
    var target := TargetInode(c, s1, g);
    var (s2, r2) := DropInode(c, s1, target);
    DropInodeOutcome(c, s1, target);
    if !(r2 == Undefined || g.dir !in s2.inodes || fromId !in s2.inodes) {
      assert s2.inodes[g.dir] == s1.inodes[g.dir] && s2.inodes[fromId] == s1.inodes[fromId];
      if fromDentry.parent.Some? && fromDentry.parent.value in s2.inodes && fromDentry.parent.value != g.dir {
        assert s2.inodes[fromDentry.parent.value] == s1.inodes[fromDentry.parent.value];
      }
    }
  }

  /** Two states whose resolution steps agree along a path resolve its prefixes alike. */
  lemma {:induction false} ReachAgree(c: Config, s: State, t: State, cs: seq<seq<char>>, n: nat)
    requires n <= |cs|
    requires forall j :: 0 <= j < n && Reach(c, s, cs[..j]).Some? ==>
               Step(s, Reach(c, s, cs[..j]).value, cs[j]) == Step(t, Reach(c, s, cs[..j]).value, cs[j])
    ensures Reach(c, s, cs[..n]) == Reach(c, t, cs[..n])
    decreases n
  {
    if n > 0 {
      ReachAgree(c, s, t, cs, n - 1);
      assert cs[..n][..n - 1] == cs[..n - 1];
    }
  }

  /** A prefix of a path that resolves to an inode of the arena resolves to one too. */
  lemma PrefixResolves(c: Config, s: State, cs: seq<seq<char>>, n: nat, j: nat)
    requires j <= n <= |cs| && Reach(c, s, cs[..n]).Some? && Reach(c, s, cs[..n]).value in s.inodes
    ensures Reach(c, s, cs[..j]).Some? && Reach(c, s, cs[..j]).value in s.inodes
  {
    if Reach(c, s, cs[..j]).None? || Reach(c, s, cs[..j]).value !in s.inodes {
      assert cs[..n][..j] == cs[..j];
      ReachStuck(c, s, cs[..n], j);
    }
  }

  /**
   * The shape a rename leaves in `t`, against the state `s` before it: the
   * destination directory `d` has gained the entry `e` at its end, the
   * source's parent `p` has lost child `k`, both keep their types, and every
   * other inode of `s` is unchanged.
   */
  predicate RenameShaped(s: State, t: State, d: InodeId, p: InodeId, k: nat, e: Dentry)
  {
    && d in s.inodes && p in s.inodes && k < |s.inodes[p].dentrys| && d in t.inodes && p in t.inodes
    && t.inodes[d].owner.ftype == s.inodes[d].owner.ftype && t.inodes[p].owner.ftype == s.inodes[p].owner.ftype
    && (forall m :: m in s.inodes && m != d && m != p ==> m in t.inodes && t.inodes[m] == s.inodes[m])
    && var rest := s.inodes[p].dentrys[..k] + s.inodes[p].dentrys[k + 1..];
       && (p != d ==> t.inodes[d].dentrys == s.inodes[d].dentrys + [e] && t.inodes[p].dentrys == rest)
       && (p == d ==> t.inodes[d].dentrys == rest + [e])
  }

  /**
   * When the lookup of `to` missed at its last component in `d` and the path
   * to `d` does not run through child `k` of `p`, then after a change shaped
   * like a rename `to` finds the entry `e` appended to `d`.
   */
  lemma DestinationResolves(c: Config, s: State, t: State, to: seq<char>, p: InodeId, k: nat, e: Dentry)
    requires c.rootId in s.inodes && c.rootId in t.inodes && Paths.ValidPath(to) && to != "/"
    requires Lookup(c, s, to).Miss? && Lookup(c, s, to).at == |Paths.Components(to)| - 1
    requires RenameShaped(s, t, Lookup(c, s, to).dir, p, k, e)
    requires var cs := Paths.Components(to);
      forall j :: 0 < j < |cs| ==> Reach(c, s, cs[..j]) != s.inodes[p].dentrys[k].inode
    requires var cs := Paths.Components(to);
      NameMatches(e.name, cs[|cs| - 1]) && e.inode.Some? && e.inode.value in t.inodes
    ensures var d := Lookup(c, s, to).dir;
      |t.inodes[d].dentrys| > 0 && Lookup(c, t, to) == Hit(d, |t.inodes[d].dentrys| - 1)
  {
    var cs := Paths.Components(to);
    var n := |cs|;
    var d := Lookup(c, s, to).dir;
    var last := cs[n - 1];
    MissAtLast(c, s, to);
    AncestorsKept(c, s, t, cs, d, p, k, e);
    LastLevelFinds(s, t, d, p, k, e, last);
    HitFromReach(c, t, to, d, |t.inodes[d].dentrys| - 1);
  }

  /**
   * In a rename-shaped change, a component no child of `d` matched before and
   * that names `e` finds `e`, last in `d`'s list.
   */
  lemma LastLevelFinds(s: State, t: State, d: InodeId, p: InodeId, k: nat, e: Dentry, last: seq<char>)
    requires RenameShaped(s, t, d, p, k, e) && IsDir(s.inodes[d])
    requires Dentries.FirstMatch(s.inodes[d].dentrys, last).None? && NameMatches(e.name, last)
    ensures var ts := t.inodes[d].dentrys;
      && |ts| > 0 && ts[|ts| - 1] == e && IsDir(t.inodes[d])
      && Dentries.FirstMatch(ts, last) == Some(|ts| - 1)
  {
    var ds := s.inodes[d].dentrys;
    if p != d {
      Dentries.FirstMatchAppend(ds, e, last);
    } else {
      var rest := ds[..k] + ds[k + 1..];
      Dentries.FirstMatchRemove(ds, k, last);
      Dentries.FirstMatchAppend(rest, e, last);
    }
  }

  /** A miss at the last component: the directory searched resolves from the path, and no child matches. */
  lemma MissAtLast(c: Config, s: State, to: seq<char>)
    requires c.rootId in s.inodes && Paths.ValidPath(to) && to != "/"
    requires Lookup(c, s, to).Miss? && Lookup(c, s, to).at == |Paths.Components(to)| - 1
    ensures var cs := Paths.Components(to);
      var d := Lookup(c, s, to).dir;
      && |cs| > 0 && Reach(c, s, cs[..|cs| - 1]) == Some(d) && d in s.inodes && IsDir(s.inodes[d])
      && Dentries.FirstMatch(s.inodes[d].dentrys, cs[|cs| - 1]).None?
  {
    LookupResolves(c, s, to);
    var cs := Paths.Components(to);
    Dentries.FirstMatchIs(s.inodes[Lookup(c, s, to).dir].dentrys, cs[|cs| - 1], None);
  }

  /** When the directory before the last component resolves and its scan finds a loaded child, the lookup hits it. */
  lemma HitFromReach(c: Config, t: State, to: seq<char>, d: InodeId, idx: nat)
    requires c.rootId in t.inodes && Paths.ValidPath(to) && to != "/"
    requires var cs := Paths.Components(to);
      && |cs| > 0 && Reach(c, t, cs[..|cs| - 1]) == Some(d) && d in t.inodes && IsDir(t.inodes[d])
      && Dentries.FirstMatch(t.inodes[d].dentrys, cs[|cs| - 1]) == Some(idx)
      && t.inodes[d].dentrys[idx].inode.Some? && t.inodes[d].dentrys[idx].inode.value in t.inodes
    ensures Lookup(c, t, to) == Hit(d, idx)
  {
    var cs := Paths.Components(to);
    assert cs[..|cs|] == cs;
    LookupResolves(c, t, to);
  }

  /** The directory a path's last component is looked up in resolves alike before and after a rename-shaped change. */
  lemma AncestorsKept(c: Config, s: State, t: State, cs: seq<seq<char>>, d: InodeId, p: InodeId, k: nat, e: Dentry)
    requires |cs| > 0 && Reach(c, s, cs[..|cs| - 1]) == Some(d) && RenameShaped(s, t, d, p, k, e)
    requires forall j :: 0 < j < |cs| ==> Reach(c, s, cs[..j]) != s.inodes[p].dentrys[k].inode
    ensures Reach(c, t, cs[..|cs| - 1]) == Some(d)
  {
    var n := |cs|;
    forall j | 0 <= j < n - 1 && Reach(c, s, cs[..j]).Some?
      ensures Step(s, Reach(c, s, cs[..j]).value, cs[j]) == Step(t, Reach(c, s, cs[..j]).value, cs[j])
    {
      PrefixResolves(c, s, cs, n - 1, j + 1);
      assert cs[..j + 1][..j] == cs[..j];
      AncestorStepKept(c, s, t, cs, j, d, p, k, e);
    }
    ReachAgree(c, s, t, cs, n - 1);
  }

  /** One resolution step before the last level, in a directory the rename touched or not, is kept. */
  lemma AncestorStepKept(c: Config, s: State, t: State, cs: seq<seq<char>>, j: nat, d: InodeId, p: InodeId, k: nat, e: Dentry)
    requires j < |cs| && Reach(c, s, cs[..j]).Some? && RenameShaped(s, t, d, p, k, e)
    requires Reach(c, s, cs[..j + 1]).Some? && cs[..j + 1][..j] == cs[..j]
    requires Reach(c, s, cs[..j + 1]) != s.inodes[p].dentrys[k].inode
    ensures Step(s, Reach(c, s, cs[..j]).value, cs[j]) == Step(t, Reach(c, s, cs[..j]).value, cs[j])
  {
    var m := Reach(c, s, cs[..j]).value;
    var tok := cs[j];
    assert Step(s, m, tok) == Reach(c, s, cs[..j + 1]);
    var j0 := Dentries.FirstMatch(s.inodes[m].dentrys, tok).value;
    if m == p {
      var ds := s.inodes[p].dentrys;
      var rest := ds[..k] + ds[k + 1..];
      Dentries.FirstMatchRemove(ds, k, tok);
      var j1 := if j0 < k then j0 else j0 - 1;
      assert rest[j1] == ds[j0];
      if p == d {
        Dentries.FirstMatchAppend(rest, e, tok);
        assert (rest + [e])[j1] == rest[j1];
      }
    } else if m == d {
      Dentries.FirstMatchAppend(s.inodes[d].dentrys, e, tok);
      assert (s.inodes[d].dentrys + [e])[j0] == s.inodes[d].dentrys[j0];
    }
  }

  /**
   * The shape a creation leaves in `t`: directory `d` keeps its own dentry,
   * its number and its children, possibly with more at the end, and every
   * other inode of `s` is unchanged.
   */
  predicate Grown(s: State, t: State, d: InodeId)
  {
    && d in s.inodes && d in t.inodes && t.inodes[d].owner == s.inodes[d].owner && t.inodes[d].ino == s.inodes[d].ino
    && |s.inodes[d].dentrys| <= |t.inodes[d].dentrys| && t.inodes[d].dentrys[..|s.inodes[d].dentrys|] == s.inodes[d].dentrys
    && (forall m :: m in s.inodes && m != d ==> m in t.inodes && t.inodes[m] == s.inodes[m])
  }

  /** The directory before a path's last component resolves alike after a creation. */
  lemma GrowAncestorsKept(c: Config, s: State, t: State, cs: seq<seq<char>>, d: InodeId)
    requires |cs| > 0 && Reach(c, s, cs[..|cs| - 1]) == Some(d) && Grown(s, t, d)
    ensures Reach(c, t, cs[..|cs| - 1]) == Some(d)
  {
    var n := |cs|;
    forall j | 0 <= j < n - 1 && Reach(c, s, cs[..j]).Some?
      ensures Step(s, Reach(c, s, cs[..j]).value, cs[j]) == Step(t, Reach(c, s, cs[..j]).value, cs[j])
    {
      PrefixResolves(c, s, cs, n - 1, j + 1);
      assert cs[..j + 1][..j] == cs[..j];
      var m := Reach(c, s, cs[..j]).value;
      assert Step(s, m, cs[j]) == Reach(c, s, cs[..j + 1]);
      if m == d {
        var ds := s.inodes[d].dentrys;
        Dentries.FirstMatchExtend(ds, t.inodes[d].dentrys, cs[j]);
        var j0 := Dentries.FirstMatch(ds, cs[j]).value;
        assert t.inodes[d].dentrys[j0] == t.inodes[d].dentrys[..|ds|][j0];
      }
    }
    ReachAgree(c, s, t, cs, n - 1);
  }

  /**
   * The mknod step of juzfs_rename, on a destination that missed at its last
   * component in `d`: its second lookup hits only when the new entry was
   * appended with a new inode, and then it hits that entry.
   */
  lemma MknodThenLookup(c: Config, s: State, to: seq<char>, mode: bv32, stale: bool)
    requires Inv(c, s) && Paths.ValidPath(to) && to != "/"
    requires Lookup(c, s, to).Miss? && Lookup(c, s, to).at == |Paths.Components(to)| - 1
    ensures '/' in to && NameOk(Paths.GetName(to))
    ensures var s1 := Mknod(c, s, to, mode, stale).0;
      var d := Lookup(c, s, to).dir;
      var e := MadeEntry(c, s, d, Paths.GetName(to), NodeType(mode));
      var before := s.inodes[d].dentrys;
      Inv(c, s1) && (Lookup(c, s1, to).Hit? ==>
            && Lookup(c, s1, to) == Hit(d, |before|)
            && s1.inodes[d].dentrys == before + [e] && e.inode == Some(s.nextId))
  {
    var cs := Paths.Components(to);
    var d := Lookup(c, s, to).dir;
    MknodGrows(c, s, to, mode, stale);
    var s1 := Mknod(c, s, to, mode, stale).0;
    MissAtLast(c, s, to);
    GrowAncestorsKept(c, s, s1, cs, d);
    var g := Lookup(c, s1, to);
    if g.Hit? {
      HitAt(c, s1, to);
      var e := MadeEntry(c, s, d, Paths.GetName(to), NodeType(mode));
      AppendedHit(s.inodes[d].dentrys, s1.inodes[d].dentrys, e, cs[|cs| - 1], g.idx);
    }
  }

  /** A scan that found nothing before an append of at most `e`, and finds a child after it, finds `e`. */
  lemma AppendedHit(before: seq<Dentry>, after: seq<Dentry>, e: Dentry, fname: seq<char>, idx: nat)
    requires after == before || after == before + [e]
    requires Dentries.FirstMatch(before, fname).None? && Dentries.FirstMatch(after, fname) == Some(idx)
    ensures after == before + [e] && idx == |before|
  {
    Dentries.FirstMatchAppend(before, e, fname);
  }

  /** The creation part of the mknod step: 0, the invariant kept, one child possibly appended to `d`. */
  lemma MknodGrows(c: Config, s: State, to: seq<char>, mode: bv32, stale: bool)
    requires Inv(c, s) && Paths.ValidPath(to) && to != "/"
    requires Lookup(c, s, to).Miss? && Lookup(c, s, to).at == |Paths.Components(to)| - 1
    ensures '/' in to && NameOk(Paths.GetName(to))
    ensures var (s1, r) := Mknod(c, s, to, mode, stale);
      var d := Lookup(c, s, to).dir;
      var e := MadeEntry(c, s, d, Paths.GetName(to), NodeType(mode));
      var before := s.inodes[d].dentrys;
      && r == Code(0) && Inv(c, s1)
      && ChildAdded(c, s, s1, d, Paths.GetName(to), NodeType(mode))
      && Grown(s, s1, d)
      && (s1.inodes[d].dentrys == before || s1.inodes[d].dentrys == before + [e])
  {
    var cs := Paths.Components(to);
    Paths.GetNameIsLastComponent(to);
    assert Paths.ComponentOk(cs[|cs| - 1]);
    MknodOutcome(c, s, to, mode, stale);
    MknodKeepsInv(c, s, to, mode, stale);
    var s1 := Mknod(c, s, to, mode, stale).0;
    ChildAddedGrows(c, s, s1, Lookup(c, s, to).dir, Paths.GetName(to), NodeType(mode));
  }

  /** A directory that gained a child as ChildAdded states has Grown, by the entry mknod made or by nothing. */
  lemma ChildAddedGrows(c: Config, s: State, s1: State, d: InodeId, name: seq<char>, ftype: FileType)
    requires d in s.inodes && WellFormed(s.inodes[d]) && NameOk(name) && ChildAdded(c, s, s1, d, name, ftype)
    ensures var before := s.inodes[d].dentrys;
      && Grown(s, s1, d)
      && (s1.inodes[d].dentrys == before || s1.inodes[d].dentrys == before + [MadeEntry(c, s, d, name, ftype)])
  {
    var before := s.inodes[d].dentrys;
    assert (before + [MadeEntry(c, s, d, name, ftype)])[..|before|] == before;
  }

  /** What a hit of a non-root path says: the parent resolves, the scan finds the child, and the child is loaded. */
  lemma HitAt(c: Config, t: State, to: seq<char>)
    requires c.rootId in t.inodes && Paths.ValidPath(to) && to != "/" && Lookup(c, t, to).Hit?
    ensures var cs := Paths.Components(to);
      var g := Lookup(c, t, to);
      && |cs| > 0 && Reach(c, t, cs[..|cs| - 1]) == Some(g.dir)
      && Dentries.FirstMatch(t.inodes[g.dir].dentrys, cs[|cs| - 1]) == Some(g.idx)
      && t.inodes[g.dir].dentrys[g.idx].inode.Some?
  {
    LookupResolves(c, t, to);
  }

  /**
   * The tail of juzfs_rename, unless undefined, removes only the handle the
   * destination pointed at (the root stays), keeps the type of every inode it
   * keeps and changes no inode but the destination's directory and the
   * source's parent.
   */
  lemma RenameTailFrame(c: Config, s1: State, g: Found, fromId: InodeId, fromDentry: Dentry)
    requires FoundIn(c, s1, g) && g.Hit?
    ensures var (s', r) := RenameTail(c, s1, g, fromId, fromDentry);
      var target := TargetInode(c, s1, g);
      r != Undefined ==>
        && fromDentry.parent.Some?
        && s'.inodes.Keys == (if target == c.rootId then s1.inodes.Keys else s1.inodes.Keys - {target})
        && (forall m :: m in s'.inodes ==> s'.inodes[m].owner == s1.inodes[m].owner)
        && (forall m :: m in s'.inodes && m != g.dir && m != fromDentry.parent.value ==> s'.inodes[m] == s1.inodes[m])
  {
    var target := TargetInode(c, s1, g);
    var (s2, r2) := DropInode(c, s1, target);
    if !(r2 == Undefined || g.dir !in s2.inodes || fromId !in s2.inodes) {
      var a2 := if target == c.rootId then s1.inodes else s1.inodes - {target};
      assert s2.inodes == a2;
      var parent := s2.inodes[g.dir];
      var entry := parent.dentrys[g.idx].(ino := s2.inodes[fromId].ino, inode := Some(fromId));
      var a3 := a2[g.dir := parent.(dentrys := parent.dentrys[g.idx := entry])];
      var s3 := s2.(inodes := a3);
      if fromDentry.parent.Some? && fromDentry.parent.value in a3 && WellFormed(a3[fromDentry.parent.value]) {
        var p := fromDentry.parent.value;
        var drop := Dentries.DropDentry(a3[p], fromDentry.name);
        DropKeepsWellFormed(a3[p], fromDentry.name);
        var s' := RenameTail(c, s1, g, fromId, fromDentry).0;
        if RenameTail(c, s1, g, fromId, fromDentry).1 != Undefined {
          assert s'.inodes == a3[p := drop.inode];
          assert a2.Keys == (if target == c.rootId then s1.inodes.Keys else s1.inodes.Keys - {target});
          assert s'.inodes.Keys == a3.Keys == a2.Keys;
          forall m | m in s'.inodes
            ensures m in s1.inodes && s'.inodes[m].owner == s1.inodes[m].owner
            ensures m != g.dir && m != p ==> s'.inodes[m] == s1.inodes[m]
          {
            if m != p && m != g.dir {
              assert s'.inodes[m] == a2[m];
            }
          }
        }
      }
    }
  }

  /**
   * juzfs_rename of a found child onto a path whose lookup misses only at its
   * last component, in directory `d`: the call returns 0 or is undefined (the
   * latter when mknod could not give the destination an inode or a place).
   * On 0 no handle is gained or lost, the inode map is as before, and the
   * state is shaped like a rename against the state before the call: `d` has
   * gained at its end an entry named after the destination, typed like the
   * source, that refers to the source's inode and carries its number, the
   * source's parent has lost the source's entry, and no other inode changed.
   * When the path to `d` does not run through the source's inode, looking the
   * destination up afterwards finds that entry.
   */
  lemma RenameOutcome(c: Config, s: State, from: seq<char>, to: seq<char>, staleFrom: bool, staleTo: bool)
    requires Inv(c, s) && Paths.ValidPath(from) && Paths.ValidPath(to) && to != "/"
    requires Lookup(c, s, from).Hit?
    requires Lookup(c, s, to).Miss? && Lookup(c, s, to).at == |Paths.Components(to)| - 1
    ensures var f := Lookup(c, s, from);
      var (s', r) := Rename(c, s, from, to, staleFrom, staleTo);
      && (r == Code(0) || r == Undefined)
      && (r == Code(0) ==> Renamed(c, s, s', to, Lookup(c, s, to).dir, f.dir, f.idx, TargetInode(c, s, f)))
  {
    var f := Lookup(c, s, from);
    var fname := SourceEntry(c, s, from);
    var fromId := TargetInode(c, s, f);
    var d := Lookup(c, s, to).dir;
    RenameReachesTail(c, s, from, to, staleFrom, staleTo);
    var mode := if IsDir(s.inodes[fromId]) then S_IFDIR else S_IFREG;
    var s1 := Mknod(c, s, to, mode, staleTo).0;
    var g := Lookup(c, s1, to);
    if g.Hit? {
      RenameTailRenames(c, s, to, s1, g, fromId, f.dir, f.idx, fname, mode);
    }
  }

  /**
   * What a rename into directory `d` that returned 0 leaves: no handle is
   * gained or lost and the inode map is as before; the state is shaped like
   * a rename of child `fi` of `fd` against `s`, its moved entry last in `d`,
   * named after the destination, typed like the source, pointing at the
   * source's inode `fromId` and carrying its number; and when the path to `d`
   * does not run through `fromId`, looking the destination up finds it.
   */
  predicate Renamed(c: Config, s: State, s': State, to: seq<char>, d: InodeId, fd: InodeId, fi: nat, fromId: InodeId)
  {
    var cs := Paths.Components(to);
    && fromId in s.inodes && '/' in to && c.rootId in s.inodes
    && s'.inodes.Keys == s.inodes.Keys && s'.mapInode == s.mapInode
    && d in s'.inodes && |s'.inodes[d].dentrys| > 0
    && var e := s'.inodes[d].dentrys[|s'.inodes[d].dentrys| - 1];
       && RenameShaped(s, s', d, fd, fi, e)
       && e.inode == Some(fromId) && e.ino == s.inodes[fromId].ino
       && CStr(e.name) == Paths.GetName(to) && e.parent == Some(d)
       && (e.ftype == Dir <==> IsDir(s.inodes[fromId]))
       && ((forall j :: 0 <= j < |cs| ==> Reach(c, s, cs[..j]) != Some(fromId)) ==>
             Lookup(c, s', to) == Hit(d, |s'.inodes[d].dentrys| - 1))
  }

  /**
   * juzfs_rename does not refuse a destination inside the source: renaming
   * `/a` to `/a/y` that returns 0 leaves `a`'s inode with a last child that
   * refers to that inode itself.
   */
  lemma RenameIntoOwnChild(c: Config, s: State, staleFrom: bool, staleTo: bool)
    requires Inv(c, s) && Lookup(c, s, "/a").Hit?
    requires Lookup(c, s, "/a/y").Miss? && Lookup(c, s, "/a/y").at == 1
    ensures var id := TargetInode(c, s, Lookup(c, s, "/a"));
      var (s', r) := Rename(c, s, "/a", "/a/y", staleFrom, staleTo);
      r == Code(0) ==>
        && id in s'.inodes && |s'.inodes[id].dentrys| > 0
        && s'.inodes[id].dentrys[|s'.inodes[id].dentrys| - 1].inode == Some(id)
  {
    OwnChildPaths();
    var id := TargetInode(c, s, Lookup(c, s, "/a"));
    LookupResolves(c, s, "/a");
    assert Reach(c, s, ["a"]) == Some(id);
    MissAtLast(c, s, "/a/y");
    assert Lookup(c, s, "/a/y").dir == id;
    RenameOutcome(c, s, "/a", "/a/y", staleFrom, staleTo);
  }

  lemma OwnChildPaths()
    ensures Paths.ValidPath("/a") && Paths.Components("/a") == ["a"]
    ensures Paths.ValidPath("/a/y") && Paths.Components("/a/y") == ["a", "y"] && ["a", "y"][..1] == ["a"]
  {
    assert Paths.JoinPath(["a"]) == "/a";
    assert Paths.JoinPath(["a", "y"]) == "/a/y";
    Paths.ComponentsOfJoin(["a"]);
    Paths.ComponentsOfJoin(["a", "y"]);
  }

  /**
   * The blocks juzfs_drop_dentry releases when juzfs_rename removes the
   * source's entry: those of the source's parent as mknod left it (mknod
   * changes only the destination directory, which may be that parent).
   */
  function RenameFreed(c: Config, s: State, from: seq<char>, to: seq<char>, staleTo: bool): seq<nat>
    requires Inv(c, s) && Paths.ValidPath(to) && to != "/" && Lookup(c, s, from).Hit?
    requires Lookup(c, s, to).Miss? && Lookup(c, s, to).at == |Paths.Components(to)| - 1
  {
    var f := Lookup(c, s, from);
    var fromId := TargetInode(c, s, f);
    var mode := if IsDir(s.inodes[fromId]) then S_IFDIR else S_IFREG;
    MknodGrows(c, s, to, mode, staleTo);
    var s1 := Mknod(c, s, to, mode, staleTo).0;
    Dentries.DropDentry(s1.inodes[f.dir], TargetDentry(c, s, f).name).freed
  }

  /**
   * When juzfs_rename of a found child onto a path missing at its last
   * component goes through: jfs_alloc_inode finds a clear bit other than
   * `max_ino`, the destination directory takes the new entry, and every block
   * the removal of the source's entry releases lies inside the data map.
   */
  predicate RenameProceeds(c: Config, s: State, from: seq<char>, to: seq<char>, staleTo: bool)
    requires Inv(c, s) && Paths.ValidPath(to) && to != "/" && Lookup(c, s, from).Hit?
    requires Lookup(c, s, to).Miss? && Lookup(c, s, to).at == |Paths.Components(to)| - 1
  {
    var i := s.inodes[Lookup(c, s, to).dir];
    var low := Bitmap.LowestClear(s.mapInode);
    var freed := RenameFreed(c, s, from, to, staleTo);
    && low.Some? && low.value != c.maxIno
    && !(Dentries.Full(i) && !Dentries.AllocatesBlock(i))
    && forall k :: 0 <= k < |freed| ==> freed[k] < |s.mapData| * 8
  }

  /**
   * The data map after such a rename: the lowest clear block is taken when
   * the destination's list grew a segment, and the released blocks are clear.
   */
  predicate RenameMapData(c: Config, s: State, s': State, from: seq<char>, to: seq<char>, staleTo: bool)
    requires Inv(c, s) && Paths.ValidPath(to) && to != "/" && Lookup(c, s, from).Hit?
    requires Lookup(c, s, to).Miss? && Lookup(c, s, to).at == |Paths.Components(to)| - 1
  {
    var i := s.inodes[Lookup(c, s, to).dir];
    var blk := Bitmap.LowestClear(s.mapData);
    var took := Dentries.AllocatesBlock(i) && blk.Some?;
    var freed := RenameFreed(c, s, from, to, staleTo);
    && |s'.mapData| == |s.mapData|
    && forall j :: 0 <= j < |s.mapData| * 8 ==>
         (Bitmap.IsSet(s'.mapData, j) <==> (Bitmap.IsSet(s.mapData, j) || (took && j == blk.value)) && j !in freed)
  }

  /**
   * juzfs_rename of a found child onto a path missing at its last component
   * returns 0 exactly when it proceeds as RenameProceeds states, and the data
   * map then changes as RenameMapData states.
   */
  lemma RenameCompletes(c: Config, s: State, from: seq<char>, to: seq<char>, staleFrom: bool, staleTo: bool)
    requires Inv(c, s) && Paths.ValidPath(from) && Paths.ValidPath(to) && to != "/"
    requires Lookup(c, s, from).Hit?
    requires Lookup(c, s, to).Miss? && Lookup(c, s, to).at == |Paths.Components(to)| - 1
    ensures var (s', r) := Rename(c, s, from, to, staleFrom, staleTo);
      && (r == Code(0) <==> RenameProceeds(c, s, from, to, staleTo))
      && (r == Code(0) ==> RenameMapData(c, s, s', from, to, staleTo))
  {
    var fromId := TargetInode(c, s, Lookup(c, s, from));
    var mode := if IsDir(s.inodes[fromId]) then S_IFDIR else S_IFREG;
    MknodForRename(c, s, to, mode, staleTo);
    RenameAfterSecondLookup(c, s, from, to, staleFrom, staleTo);
  }

  /**
   * RenameCompletes in terms of the second lookup: rename returns 0 exactly
   * when that lookup hits and the released blocks lie inside the data map,
   * which then loses them against what mknod left.
   */
  lemma RenameAfterSecondLookup(c: Config, s: State, from: seq<char>, to: seq<char>, staleFrom: bool, staleTo: bool)
    requires Inv(c, s) && Paths.ValidPath(from) && Paths.ValidPath(to) && to != "/"
    requires Lookup(c, s, from).Hit?
    requires Lookup(c, s, to).Miss? && Lookup(c, s, to).at == |Paths.Components(to)| - 1
    ensures var fromId := TargetInode(c, s, Lookup(c, s, from));
      var mode := if IsDir(s.inodes[fromId]) then S_IFDIR else S_IFREG;
      var s1 := Mknod(c, s, to, mode, staleTo).0;
      var freed := RenameFreed(c, s, from, to, staleTo);
      var (s', r) := Rename(c, s, from, to, staleFrom, staleTo);
      && c.rootId in s1.inodes && |s1.mapData| == |s.mapData|
      && (r == Code(0) <==> Lookup(c, s1, to).Hit? && forall k :: 0 <= k < |freed| ==> freed[k] < |s.mapData| * 8)
      && (r == Code(0) ==>
            && |s'.mapData| == |s.mapData|
            && forall j :: 0 <= j < |s.mapData| * 8 ==>
                 (Bitmap.IsSet(s'.mapData, j) <==> Bitmap.IsSet(s1.mapData, j) && j !in freed))
  {
    var f := Lookup(c, s, from);
    var fromId := TargetInode(c, s, f);
    RenameReachesTail(c, s, from, to, staleFrom, staleTo);
    var mode := if IsDir(s.inodes[fromId]) then S_IFDIR else S_IFREG;
    MknodGrows(c, s, to, mode, staleTo);
    var s1 := Mknod(c, s, to, mode, staleTo).0;
    var g := Lookup(c, s1, to);
    if g.Hit? {
      var fromDentry := TargetDentry(c, s, f);
      assert fromDentry.parent == Some(f.dir);
      assert TargetInode(c, s1, g) == s.nextId;
      RenameTailReleases(c, s1, g, fromId, f.dir, fromDentry);
    }
  }

  /**
   * The mknod step of juzfs_rename onto a path missing at its last component:
   * the destination's second lookup hits exactly when jfs_alloc_inode found a
   * bit other than `max_ino` and the directory took the entry, and the data
   * map gains the lowest clear block exactly when the list grew a segment.
   */
  lemma MknodForRename(c: Config, s: State, to: seq<char>, mode: bv32, stale: bool)
    requires Inv(c, s) && Paths.ValidPath(to) && to != "/"
    requires Lookup(c, s, to).Miss? && Lookup(c, s, to).at == |Paths.Components(to)| - 1
    ensures var s1 := Mknod(c, s, to, mode, stale).0;
      var low := Bitmap.LowestClear(s.mapInode);
      var i := s.inodes[Lookup(c, s, to).dir];
      var blk := Bitmap.LowestClear(s.mapData);
      var took := Dentries.AllocatesBlock(i) && blk.Some?;
      && (Lookup(c, s1, to).Hit? <==> low.Some? && low.value != c.maxIno && !(Dentries.Full(i) && !Dentries.AllocatesBlock(i)))
      && |s1.mapData| == |s.mapData|
      && forall j :: 0 <= j < |s.mapData| * 8 ==>
           (Bitmap.IsSet(s1.mapData, j) <==> Bitmap.IsSet(s.mapData, j) || (took && j == blk.value))
  {
    var d := Lookup(c, s, to).dir;
    MknodGrows(c, s, to, mode, stale);
    MknodThenLookup(c, s, to, mode, stale);
    MknodThenHit(c, s, to, mode, stale);
    var s1 := Mknod(c, s, to, mode, stale).0;
    if Lookup(c, s1, to).Hit? {
      assert s1.inodes[d].dentrys != s.inodes[d].dentrys;
    }
  }

  /** When jfs_alloc_inode succeeds and the directory takes the entry, the destination's lookup after mknod hits it. */
  lemma MknodThenHit(c: Config, s: State, to: seq<char>, mode: bv32, stale: bool)
    requires Inv(c, s) && Paths.ValidPath(to) && to != "/"
    requires Lookup(c, s, to).Miss? && Lookup(c, s, to).at == |Paths.Components(to)| - 1
    ensures var low := Bitmap.LowestClear(s.mapInode);
      var i := s.inodes[Lookup(c, s, to).dir];
      low.Some? && low.value != c.maxIno && !(Dentries.Full(i) && !Dentries.AllocatesBlock(i)) ==>
        Lookup(c, Mknod(c, s, to, mode, stale).0, to).Hit?
  {
    var low := Bitmap.LowestClear(s.mapInode);
    var cs := Paths.Components(to);
    var d := Lookup(c, s, to).dir;
    var i := s.inodes[d];
    if low.Some? && low.value != c.maxIno && !(Dentries.Full(i) && !Dentries.AllocatesBlock(i)) {
      MknodGrows(c, s, to, mode, stale);
      var s1 := Mknod(c, s, to, mode, stale).0;
      MissAtLast(c, s, to);
      GrowAncestorsKept(c, s, s1, cs, d);
      var e := MadeEntry(c, s, d, Paths.GetName(to), NodeType(mode));
      var before := s.inodes[d].dentrys;
      assert s1.inodes[d].dentrys == before + [e];
      Paths.GetNameIsLastComponent(to);
      assert Paths.ComponentOk(cs[|cs| - 1]);
      MatchesByCStr(e.name, cs[|cs| - 1]);
      Dentries.FirstMatchAppend(before, e, cs[|cs| - 1]);
      HitFromReach(c, s1, to, d, |before|);
    }
  }

  /**
   * The tail of juzfs_rename on what mknod left returns 0 exactly when every
   * block the removal of the source's entry releases lies inside the data
   * map, and is undefined otherwise; on 0 exactly those blocks are cleared.
   */
  lemma RenameTailReleases(c: Config, s1: State, g: Found, fromId: InodeId, fd: InodeId, fromDentry: Dentry)
    requires FoundIn(c, s1, g) && g.Hit?
    requires var n := TargetInode(c, s1, g);
      && n != c.rootId && n != g.dir && n != fromId && n != fd && s1.inodes[n].ino < |s1.mapInode| * 8
    requires fromId in s1.inodes && fd in s1.inodes && WellFormed(s1.inodes[fd]) && WellFormed(s1.inodes[g.dir])
    requires fromDentry.parent == Some(fd)
    ensures var (s', r) := RenameTail(c, s1, g, fromId, fromDentry);
      var freed := Dentries.DropDentry(s1.inodes[fd], fromDentry.name).freed;
      && (r == Code(0) || r == Undefined)
      && (r == Code(0) <==> forall k :: 0 <= k < |freed| ==> freed[k] < |s1.mapData| * 8)
      && (r == Code(0) ==>
            && |s'.mapData| == |s1.mapData|
            && forall j :: 0 <= j < |s1.mapData| * 8 ==>
                 (Bitmap.IsSet(s'.mapData, j) <==> Bitmap.IsSet(s1.mapData, j) && j !in freed))
  {
    var target := TargetInode(c, s1, g);
    DropInodeOutcome(c, s1, target);
    var s2 := DropInode(c, s1, target).0;
    var parent := s2.inodes[g.dir];
    var entry := parent.dentrys[g.idx].(ino := s2.inodes[fromId].ino, inode := Some(fromId));
    var s3 := s2.(inodes := s2.inodes[g.dir := parent.(dentrys := parent.dentrys[g.idx := entry])]);
    assert fd in s3.inodes && s3.mapData == s1.mapData;
    Dentries.DropDentryByNames(s1.inodes[fd], s3.inodes[fd], fromDentry.name);
    DropEntryReleases(s3, fd, fromDentry.name);
  }

  /** juzfs_drop_dentry and its release loop: defined exactly when every freed slot is inside the data map, which then loses exactly those blocks. */
  lemma DropEntryReleases(s: State, dir: InodeId, name: seq<char>)
    requires dir in s.inodes && WellFormed(s.inodes[dir])
    ensures var (s', r) := DropEntry(s, dir, name);
      var freed := Dentries.DropDentry(s.inodes[dir], name).freed;
      && (r == Undefined <==> !forall k :: 0 <= k < |freed| ==> freed[k] < |s.mapData| * 8)
      && (r != Undefined ==>
            && |s'.mapData| == |s.mapData|
            && forall j :: 0 <= j < |s.mapData| * 8 ==>
                 (Bitmap.IsSet(s'.mapData, j) <==> Bitmap.IsSet(s.mapData, j) && j !in freed))
  {
    var drop := Dentries.DropDentry(s.inodes[dir], name);
    FreeBlocksOutcome(s.(inodes := s.inodes[dir := drop.inode]), drop.freed);
  }

  /** The tail of juzfs_rename on what mknod left returns 0 or is undefined, and on 0 the state is Renamed. */
  lemma RenameTailRenames(c: Config, s: State, to: seq<char>, s1: State, g: Found, fromId: InodeId, fd: InodeId, fi: nat,
                          fname: seq<char>, mode: bv32)
    requires c.rootId in s.inodes && Paths.ValidPath(to) && to != "/" && '/' in to && NameOk(Paths.GetName(to))
    requires Lookup(c, s, to).Miss? && Lookup(c, s, to).at == |Paths.Components(to)| - 1
    requires MadeFor(c, s, s1, g) && g.dir == Lookup(c, s, to).dir && fromId in s.inodes
    requires mode == if IsDir(s.inodes[fromId]) then S_IFDIR else S_IFREG
    requires s1.inodes[g.dir].dentrys[g.idx] == MadeEntry(c, s, g.dir, Paths.GetName(to), NodeType(mode))
    requires s1.inodes[s.nextId].ino < |s.mapInode| * 8 && !Bitmap.IsSet(s.mapInode, s1.inodes[s.nextId].ino)
    requires s1.mapInode == Bitmap.SetBit(s.mapInode, s1.inodes[s.nextId].ino)
    requires fd in s.inodes && fi < |s.inodes[fd].dentrys| && s.inodes[fd].dentrys[fi].parent == Some(fd)
    requires s.inodes[fd].dentrys[fi].inode == Some(fromId)
    requires Dentries.FirstMatch(s.inodes[fd].dentrys, fname) == Some(fi) && forall i :: 0 <= i < |fname| ==> fname[i] != '\0'
    ensures var (s', r) := RenameTail(c, s1, g, fromId, s.inodes[fd].dentrys[fi]);
      (r == Code(0) || r == Undefined) && (r == Code(0) ==> Renamed(c, s, s', to, g.dir, fd, fi, fromId))
  {
    var cs := Paths.Components(to);
    var d := g.dir;
    var e := MadeEntry(c, s, d, Paths.GetName(to), NodeType(mode));
    RenameAfterMknod(c, s, s1, g, fromId, fd, fi, fname, e);
    var (s', r) := RenameTail(c, s1, g, fromId, s.inodes[fd].dentrys[fi]);
    if r == Code(0) && forall j :: 0 <= j < |cs| ==> Reach(c, s, cs[..j]) != Some(fromId) {
      RenameFinds(c, s, s', to, fd, fi, fromId);
    }
  }

  /**
   * The tail of juzfs_rename on what mknod left, for the entry `e` mknod
   * made: unless undefined, it returns 0 with the handles and the inode map
   * of `s`, in a state shaped like a rename whose moved entry is `e` pointed
   * at the source's inode and carrying its number.
   */
  lemma RenameAfterMknod(c: Config, s: State, s1: State, g: Found, fromId: InodeId, fd: InodeId, fi: nat, fname: seq<char>, e: Dentry)
    requires MadeFor(c, s, s1, g) && fromId in s.inodes && s1.inodes[g.dir].dentrys[g.idx] == e
    requires s1.inodes[s.nextId].ino < |s.mapInode| * 8 && !Bitmap.IsSet(s.mapInode, s1.inodes[s.nextId].ino)
    requires s1.mapInode == Bitmap.SetBit(s.mapInode, s1.inodes[s.nextId].ino)
    requires fd in s.inodes && fi < |s.inodes[fd].dentrys| && s.inodes[fd].dentrys[fi].parent == Some(fd)
    requires Dentries.FirstMatch(s.inodes[fd].dentrys, fname) == Some(fi) && forall i :: 0 <= i < |fname| ==> fname[i] != '\0'
    ensures var (s', r) := RenameTail(c, s1, g, fromId, s.inodes[fd].dentrys[fi]);
      r != Undefined ==>
        && r == Code(0) && s'.inodes.Keys == s.inodes.Keys && s'.mapInode == s.mapInode
        && g.dir in s'.inodes && |s'.inodes[g.dir].dentrys| > 0
        && var t := s'.inodes[g.dir].dentrys;
           && t[|t| - 1] == e.(ino := s.inodes[fromId].ino, inode := Some(fromId))
           && RenameShaped(s, s', g.dir, fd, fi, t[|t| - 1])
  {
    var fromDentry := s.inodes[fd].dentrys[fi];
    RenameOnMade(c, s, s1, g, fromId, fd, fi, fname);
    RenameOnMadeMap(c, s, s1, g, fromId, fromDentry);
    var (s', r) := RenameTail(c, s1, g, fromId, fromDentry);
    if r != Undefined {
      ShapedLast(s, s', g.dir, fd, fi, e.(ino := s.inodes[fromId].ino, inode := Some(fromId)));
    }
  }

  /** In a rename-shaped change the moved entry is last in the destination directory. */
  lemma ShapedLast(s: State, t: State, d: InodeId, p: InodeId, k: nat, e: Dentry)
    requires RenameShaped(s, t, d, p, k, e)
    ensures |t.inodes[d].dentrys| > 0 && t.inodes[d].dentrys[|t.inodes[d].dentrys| - 1] == e
  {
  }

  /**
   * After a rename-shaped change that moved child `fi` of `fd` to the end of
   * the directory the destination missed in, named after the destination,
   * the destination's lookup finds it, provided the path to that directory
   * does not run through the moved inode.
   */
  lemma RenameFinds(c: Config, s: State, t: State, to: seq<char>, fd: InodeId, fi: nat, fromId: InodeId)
    requires c.rootId in s.inodes && Paths.ValidPath(to) && to != "/"
    requires Lookup(c, s, to).Miss? && Lookup(c, s, to).at == |Paths.Components(to)| - 1
    requires var d := Lookup(c, s, to).dir;
      && d in t.inodes && |t.inodes[d].dentrys| > 0
      && RenameShaped(s, t, d, fd, fi, t.inodes[d].dentrys[|t.inodes[d].dentrys| - 1])
    requires t.inodes.Keys == s.inodes.Keys && fromId in s.inodes && s.inodes[fd].dentrys[fi].inode == Some(fromId)
    requires var d := Lookup(c, s, to).dir;
      var e := t.inodes[d].dentrys[|t.inodes[d].dentrys| - 1];
      '/' in to && e.inode == Some(fromId) && CStr(e.name) == Paths.GetName(to)
    requires var cs := Paths.Components(to);
      forall j :: 0 <= j < |cs| ==> Reach(c, s, cs[..j]) != Some(fromId)
    ensures var d := Lookup(c, s, to).dir;
      Lookup(c, t, to) == Hit(d, |t.inodes[d].dentrys| - 1)
  {
    var cs := Paths.Components(to);
    var d := Lookup(c, s, to).dir;
    var e := t.inodes[d].dentrys[|t.inodes[d].dentrys| - 1];
    Paths.GetNameIsLastComponent(to);
    assert Paths.ComponentOk(cs[|cs| - 1]);
    MatchesByCStr(e.name, cs[|cs| - 1]);
    DestinationResolves(c, s, t, to, fd, fi, e);
  }

  /**
   * The steps of juzfs_rename up to its tail, for a found source and a
   * destination missing at its last component: rename is undefined unless
   * the second lookup hits, and then it is its tail on what mknod left, which
   * is the entry mknod made appended to `d` with the new handle, its inode's
   * number taken from the inode map.
   */
  lemma RenameReachesTail(c: Config, s: State, from: seq<char>, to: seq<char>, staleFrom: bool, staleTo: bool)
    requires Inv(c, s) && Paths.ValidPath(to) && to != "/"
    requires Lookup(c, s, from).Hit?
    requires Lookup(c, s, to).Miss? && Lookup(c, s, to).at == |Paths.Components(to)| - 1
    ensures '/' in to && NameOk(Paths.GetName(to))
    ensures var f := Lookup(c, s, from);
      var fromId := TargetInode(c, s, f);
      var mode := if IsDir(s.inodes[fromId]) then S_IFDIR else S_IFREG;
      var s1 := Mknod(c, s, to, mode, staleTo).0;
      var g := Lookup(c, s1, to);
      var d := Lookup(c, s, to).dir;
      && Rename(c, s, from, to, staleFrom, staleTo)
           == (if g.Hit? then RenameTail(c, s1, g, fromId, TargetDentry(c, s, f)) else (s, Undefined))
      && (g.Hit? ==>
            && MadeFor(c, s, s1, g) && g.dir == d
            && s1.inodes[d].dentrys[g.idx] == MadeEntry(c, s, d, Paths.GetName(to), NodeType(mode))
            && s1.inodes[s.nextId].ino < |s.mapInode| * 8 && !Bitmap.IsSet(s.mapInode, s1.inodes[s.nextId].ino)
            && s1.mapInode == Bitmap.SetBit(s.mapInode, s1.inodes[s.nextId].ino))
  {
    var f := Lookup(c, s, from);
    var fromId := TargetInode(c, s, f);
    var mode := if IsDir(s.inodes[fromId]) then S_IFDIR else S_IFREG;
    MknodGrows(c, s, to, mode, staleTo);
    MknodThenLookup(c, s, to, mode, staleTo);
  }

  /** The tail of rename after mknod gives the inode map back: the bit mknod took is cleared with the inode. */
  lemma RenameOnMadeMap(c: Config, s: State, s1: State, g: Found, fromId: InodeId, fromDentry: Dentry)
    requires FoundIn(c, s1, g) && g.Hit? && c.rootId in s.inodes && s.nextId !in s.inodes
    requires s1.inodes[g.dir].dentrys[g.idx].inode == Some(s.nextId) && s.nextId in s1.inodes
    requires s1.inodes[s.nextId].ino < |s.mapInode| * 8 && !Bitmap.IsSet(s.mapInode, s1.inodes[s.nextId].ino)
    requires s1.mapInode == Bitmap.SetBit(s.mapInode, s1.inodes[s.nextId].ino)
    ensures var (s', r) := RenameTail(c, s1, g, fromId, fromDentry);
      r != Undefined ==> s'.mapInode == s.mapInode
  {
    Bitmap.ClearAfterSet(s.mapInode, s1.inodes[s.nextId].ino);
  }

  /**
   * What a hit of the source gives rename: the entry names its directory as
   * parent and points at the inode found, and it is the first child matching
   * the path's last component `fname`, which holds no NUL.
   */
  lemma SourceEntry(c: Config, s: State, from: seq<char>) returns (fname: seq<char>)
    requires Inv(c, s) && Paths.ValidPath(from) && Lookup(c, s, from).Hit?
    ensures var f := Lookup(c, s, from);
      && f.dir in s.inodes && f.idx < |s.inodes[f.dir].dentrys|
      && TargetDentry(c, s, f) == s.inodes[f.dir].dentrys[f.idx]
      && TargetDentry(c, s, f).parent == Some(f.dir)
      && Dentries.FirstMatch(s.inodes[f.dir].dentrys, fname) == Some(f.idx)
      && forall i :: 0 <= i < |fname| ==> fname[i] != '\0'
  {
    HitAt(c, s, from);
    var cs := Paths.Components(from);
    fname := cs[|cs| - 1];
    assert Paths.ComponentOk(fname);
  }

  /**
   * The tail of juzfs_rename after mknod appended entry `g` with a new inode
   * to the state `s`: unless undefined it returns 0, the new handle is gone
   * again, and the result is shaped like a rename of child `fi` of `fd` (the
   * first child the drop scan finds by its name) into `g.dir`.
   */
  lemma RenameOnMade(c: Config, s: State, s1: State, g: Found, fromId: InodeId, fd: InodeId, fi: nat, fname: seq<char>)
    requires MadeFor(c, s, s1, g) && fromId in s.inodes
    requires fd in s.inodes && fi < |s.inodes[fd].dentrys| && s.inodes[fd].dentrys[fi].parent == Some(fd)
    requires Dentries.FirstMatch(s.inodes[fd].dentrys, fname) == Some(fi) && forall i :: 0 <= i < |fname| ==> fname[i] != '\0'
    ensures var fromDentry := s.inodes[fd].dentrys[fi];
      var (s', r) := RenameTail(c, s1, g, fromId, fromDentry);
      var e := s1.inodes[g.dir].dentrys[g.idx];
      var entry := e.(ino := s.inodes[fromId].ino, inode := Some(fromId));
      r != Undefined ==>
        && r == Code(0) && s'.inodes.Keys == s.inodes.Keys
        && RenameShaped(s, s', g.dir, fd, fi, entry)
  {
    RenameOnMadeFrame(c, s, s1, g, fromId, s.inodes[fd].dentrys[fi]);
    RenameOnMadeLists(c, s, s1, g, fromId, fd, fi, fname);
  }

  /**
   * What mknod left for the tail of rename: `s1` is `s` with the entry `g`
   * appended to `g.dir`, pointing at the new handle `s.nextId`.
   */
  predicate MadeFor(c: Config, s: State, s1: State, g: Found)
  {
    && Inv(c, s) && Inv(c, s1) && FoundIn(c, s1, g) && g.Hit? && Grown(s, s1, g.dir)
    && g.idx == |s.inodes[g.dir].dentrys| && s1.inodes[g.dir].dentrys == s.inodes[g.dir].dentrys + [s1.inodes[g.dir].dentrys[g.idx]]
    && s1.inodes[g.dir].dentrys[g.idx].inode == Some(s.nextId)
    && s.nextId !in s.inodes && s1.inodes.Keys == s.inodes.Keys + {s.nextId}
  }

  /** The frame half of RenameOnMade: the handles of `s`, their types, and every inode but two unchanged. */
  lemma RenameOnMadeFrame(c: Config, s: State, s1: State, g: Found, fromId: InodeId, fromDentry: Dentry)
    requires FoundIn(c, s1, g) && g.Hit? && Grown(s, s1, g.dir) && c.rootId in s.inodes
    requires s1.inodes[g.dir].dentrys[g.idx].inode == Some(s.nextId)
    requires s.nextId !in s.inodes && s1.inodes.Keys == s.inodes.Keys + {s.nextId}
    requires fromDentry.parent.Some? && fromDentry.parent.value in s.inodes
    ensures var (s', r) := RenameTail(c, s1, g, fromId, fromDentry);
      var p := fromDentry.parent.value;
      r != Undefined ==>
        && s'.inodes.Keys == s.inodes.Keys
        && s'.inodes[g.dir].owner == s.inodes[g.dir].owner && s'.inodes[p].owner == s.inodes[p].owner
        && (forall m :: m in s.inodes && m != g.dir && m != p ==> s'.inodes[m] == s.inodes[m])
  {
    RenameTailFrame(c, s1, g, fromId, fromDentry);
    assert s.nextId != c.rootId;
  }

  /** The list half of RenameOnMade: the destination gains the entry last, the source's parent loses child `fi`. */
  lemma RenameOnMadeLists(c: Config, s: State, s1: State, g: Found, fromId: InodeId, fd: InodeId, fi: nat, fname: seq<char>)
    requires MadeFor(c, s, s1, g) && fromId in s.inodes
    requires fd in s.inodes && fi < |s.inodes[fd].dentrys| && s.inodes[fd].dentrys[fi].parent == Some(fd)
    requires Dentries.FirstMatch(s.inodes[fd].dentrys, fname) == Some(fi) && forall i :: 0 <= i < |fname| ==> fname[i] != '\0'
    ensures var fromDentry := s.inodes[fd].dentrys[fi];
      var (s', r) := RenameTail(c, s1, g, fromId, fromDentry);
      var entry := s1.inodes[g.dir].dentrys[g.idx].(ino := s.inodes[fromId].ino, inode := Some(fromId));
      var before := s.inodes[g.dir].dentrys;
      var rest := s.inodes[fd].dentrys[..fi] + s.inodes[fd].dentrys[fi + 1..];
      r != Undefined ==>
        && r == Code(0) && g.dir in s'.inodes && fd in s'.inodes
        && (fd != g.dir ==> s'.inodes[g.dir].dentrys == before + [entry] && s'.inodes[fd].dentrys == rest)
        && (fd == g.dir ==> s'.inodes[g.dir].dentrys == rest + [entry])
  {
    assert fromId != s.nextId && s1.inodes[fromId].ino == s.inodes[fromId].ino;
    if fd == g.dir {
      RenameWithinDir(c, s, s1, g, fromId, fi, fname);
    } else {
      assert s1.inodes[fd] == s.inodes[fd];
      RenameAcrossDirs(c, s, s1, g, fromId, fd, fi, fname);
    }
  }

  /** RenameOnMadeLists when the source's parent is another directory. */
  lemma RenameAcrossDirs(c: Config, s: State, s1: State, g: Found, fromId: InodeId, fd: InodeId, fi: nat, fname: seq<char>)
    requires Inv(c, s1) && FoundIn(c, s1, g) && g.Hit? && g.dir in s.inodes && g.idx == |s.inodes[g.dir].dentrys| && fromId in s1.inodes
    requires s1.inodes[g.dir].dentrys == s.inodes[g.dir].dentrys + [s1.inodes[g.dir].dentrys[g.idx]]
    requires fd != g.dir && fd in s.inodes && fd in s1.inodes && s1.inodes[fd] == s.inodes[fd]
    requires fi < |s.inodes[fd].dentrys| && s.inodes[fd].dentrys[fi].parent == Some(fd)
    requires Dentries.FirstMatch(s.inodes[fd].dentrys, fname) == Some(fi) && forall i :: 0 <= i < |fname| ==> fname[i] != '\0'
    ensures var fromDentry := s.inodes[fd].dentrys[fi];
      var (s', r) := RenameTail(c, s1, g, fromId, fromDentry);
      var entry := s1.inodes[g.dir].dentrys[g.idx].(ino := s1.inodes[fromId].ino, inode := Some(fromId));
      r != Undefined ==>
        && g.dir in s'.inodes && fd in s'.inodes
        && s'.inodes[g.dir].dentrys == s.inodes[g.dir].dentrys + [entry]
        && s'.inodes[fd].dentrys == s.inodes[fd].dentrys[..fi] + s.inodes[fd].dentrys[fi + 1..]
  {
    var fromDentry := s.inodes[fd].dentrys[fi];
    RenameTailShape(c, s1, g, fromId, fromDentry);
    var (s', r) := RenameTail(c, s1, g, fromId, fromDentry);
    if r != Undefined {
      var entry := s1.inodes[g.dir].dentrys[g.idx].(ino := s1.inodes[fromId].ino, inode := Some(fromId));
      assert s1.inodes[g.dir].dentrys[g.idx := entry] == s.inodes[g.dir].dentrys + [entry];
      Dentries.DropMatched(s.inodes[fd], s.inodes[fd].dentrys, fname, fi);
    }
  }

  /** RenameOnMadeLists when the source's parent is the destination directory: the drop runs on the list holding the entry. */
  lemma RenameWithinDir(c: Config, s: State, s1: State, g: Found, fromId: InodeId, fi: nat, fname: seq<char>)
    requires Inv(c, s1) && FoundIn(c, s1, g) && g.Hit? && g.dir in s.inodes && g.idx == |s.inodes[g.dir].dentrys| && fromId in s1.inodes
    requires s1.inodes[g.dir].dentrys == s.inodes[g.dir].dentrys + [s1.inodes[g.dir].dentrys[g.idx]]
    requires fi < |s.inodes[g.dir].dentrys| && s.inodes[g.dir].dentrys[fi].parent == Some(g.dir)
    requires Dentries.FirstMatch(s.inodes[g.dir].dentrys, fname) == Some(fi) && forall i :: 0 <= i < |fname| ==> fname[i] != '\0'
    ensures var fromDentry := s.inodes[g.dir].dentrys[fi];
      var (s', r) := RenameTail(c, s1, g, fromId, fromDentry);
      var entry := s1.inodes[g.dir].dentrys[g.idx].(ino := s1.inodes[fromId].ino, inode := Some(fromId));
      var before := s.inodes[g.dir].dentrys;
      r != Undefined ==> g.dir in s'.inodes && s'.inodes[g.dir].dentrys == before[..fi] + before[fi + 1..] + [entry]
  {
    var d := g.dir;
    var fromDentry := s.inodes[d].dentrys[fi];
    RenameTailShape(c, s1, g, fromId, fromDentry);
    var (s', r) := RenameTail(c, s1, g, fromId, fromDentry);
    if r != Undefined {
      var before := s.inodes[d].dentrys;
      var entry := s1.inodes[d].dentrys[g.idx].(ino := s1.inodes[fromId].ino, inode := Some(fromId));
      var list := s1.inodes[d].dentrys[g.idx := entry];
      assert list == before + [entry];
      var mi := s1.inodes[d].(dentrys := list);
      assert fromDentry.parent.value == d;
      assert s1.inodes[d := mi][d] == mi;
      Dentries.DropMatched(mi, before, fname, fi);
      DropAppended(before, entry, fi);
    }
  }

  /** Removing an early child from a list with one appended is removing it before the append. */
  lemma DropAppended(before: seq<Dentry>, entry: Dentry, k: nat)
    requires k < |before|
    ensures var ms := before + [entry];
      ms[..k] + ms[k + 1..] == before[..k] + before[k + 1..] + [entry]
  {
    var ms := before + [entry];
    assert ms[..k] == before[..k];
    assert ms[k + 1..] == before[k + 1..] + [entry];
  }

  // ---------------------------------------------------------------------------
  // juzfs_readdir, juzfs_getattr
  // ---------------------------------------------------------------------------

  /** What juzfs_readdir hands to the filler: a name and the next offset. */
  datatype Entry = Entry(name: seq<char>, next: nat)

  /** juzfs_readdir: the child at position `offset` of the node found, if there is one. */
  function Readdir(c: Config, s: State, path: seq<char>, offset: nat, stale: bool): (r: (Ret, Option<Entry>))
    requires Inv(c, s)
  {
    var f := Lookup(c, s, path);
    if f.Fault? then (Undefined, None)
    else if !IsFind(f, stale) then (Code(-ENOENT), None)
    else
      match Dentries.GetDentry(s.inodes[TargetInode(c, s, f)], offset)
      case None => (Code(0), None)
      case Some(d) => (Code(0), Some(Entry(CStr(d.name), offset + 1)))
  }

  /**
   * juzfs_readdir on a found node emits the child at `offset` with next offset
   * `offset + 1` exactly when `offset` is below the child count.
   */
  lemma ReaddirOutcome(c: Config, s: State, path: seq<char>, offset: nat, stale: bool)
    requires Inv(c, s) && !Lookup(c, s, path).Fault? && IsFind(Lookup(c, s, path), stale)
    ensures var kids := s.inodes[TargetInode(c, s, Lookup(c, s, path))].dentrys;
      var (r, e) := Readdir(c, s, path, offset, stale);
      && r == Code(0)
      && (e.Some? <==> offset < |kids|)
      && (e.Some? ==> e.value == Entry(CStr(kids[offset].name), offset + 1))
  {
  }

  /** The attributes juzfs_getattr fills in (owner and times aside). */
  datatype Attr = Attr(mode: bv32, size: int, nlink: nat, blksize: nat, blocks: nat)

  /** sizeof(struct juzfs_dentry_d): a 128-byte name, a 4-byte ino and a 4-byte type. */
  const DENTRY_RECORD_SIZE: nat := 136

  /** juzfs_getattr. */
  function GetAttr(c: Config, s: State, path: seq<char>, stale: bool): (r: (Ret, Option<Attr>))
    requires Inv(c, s)
  {
    var f := Lookup(c, s, path);
    if f.Fault? then (Undefined, None)
    else if !IsFind(f, stale) then (Code(-ENOENT), None)
    else
      var i := s.inodes[TargetInode(c, s, f)];
      var base :=
        if IsDir(i) then Attr(S_IFDIR | JFS_DEFAULT_PERM, |i.dentrys| * DENTRY_RECORD_SIZE, 1, BlkSz(c.ioSz), 0)
        else Attr(S_IFREG | JFS_DEFAULT_PERM, i.size, 1, BlkSz(c.ioSz), 0);
      if !f.AtRoot? then (Code(0), Some(base))
      else if BlkSz(c.ioSz) == 0 then (Undefined, None)
      else (Code(0), Some(base.(size := c.szUsage, blocks := |s.bytes| / BlkSz(c.ioSz), nlink := 2)))
  }

  /**
   * juzfs_getattr: -ENOENT when not found; otherwise a directory reports 136
   * bytes per child, a file its size, and the root reports the usage, the
   * device's block count and two links. For the root the block count divides
   * by the block size, so a zero I/O unit is undefined there.
   */
  lemma GetAttrOutcome(c: Config, s: State, path: seq<char>, stale: bool)
    requires Inv(c, s) && !Lookup(c, s, path).Fault?
    ensures var f := Lookup(c, s, path);
      var (r, a) := GetAttr(c, s, path, stale);
      && (r == Code(-ENOENT) <==> !IsFind(f, stale))
      && (r == Undefined <==> IsFind(f, stale) && f.AtRoot? && c.ioSz == 0)
      && (a.Some? <==> r == Code(0))
    ensures var f := Lookup(c, s, path);
      var (r, a) := GetAttr(c, s, path, stale);
      IsFind(f, stale) && !(f.AtRoot? && c.ioSz == 0) ==>
      var i := s.inodes[TargetInode(c, s, f)];
      && r == Code(0) && a.Some?
      && (a.value.mode & S_IFMT == S_IFDIR <==> IsDir(i))
      && (!f.AtRoot? ==> a.value.nlink == 1 && a.value.size == (if IsDir(i) then |i.dentrys| * 136 else i.size))
      && (f.AtRoot? ==>
            a.value.nlink == 2 && a.value.size == c.szUsage
            && a.value.blocks == |s.bytes| / (2 * c.ioSz))
  {
  }

  // ---------------------------------------------------------------------------
  // File data: juzfs_write, juzfs_read, juzfs_truncate
  // ---------------------------------------------------------------------------

  /** The guards juzfs_write and juzfs_read share, and the file's handle when they pass. */
  datatype Opened = Opened(id: InodeId) | Refused(ret: Ret)

  function OpenFile(c: Config, s: State, path: seq<char>, offset: nat, stale: bool): (o: Opened)
    requires Inv(c, s)
    ensures o.Opened? ==> o.id in s.inodes && IsFile(s.inodes[o.id]) && offset <= s.inodes[o.id].size
  {
    var f := Lookup(c, s, path);
    if f.Fault? then Refused(Undefined)
    else if !IsFind(f, stale) then Refused(Code(-ENOENT))
    else
      var id := TargetInode(c, s, f);
      if IsDir(s.inodes[id]) then Refused(Code(-EISDIR))
      else if s.inodes[id].size < offset then Refused(Code(-ESPIPE))
      else Opened(id)
  }

  /** The operational conditions of the split: it reads only the six slots and every transfer fits the device. */
  predicate SplitDefined(c: Config, s: State, id: InodeId, offset: nat, size: nat)
    requires id in s.inodes && WellFormed(s.inodes[id])
  {
    && c.ioSz > 0 && FileIo.SplitInSlots(offset, size, BlkSz(c.ioSz))
    && FileIo.Transferable(FileIo.Pieces(offset, size, BlkSz(c.ioSz), s.inodes[id].dataOffsets), c.ioSz, |s.bytes|)
  }

  /** juzfs_write: the transfers of the split, then the size update; returns `size`. */
  function Write(c: Config, s: State, path: seq<char>, buf: seq<bv8>, offset: nat, stale: bool): (r: (State, Ret))
    requires Inv(c, s)
  {
    match OpenFile(c, s, path, offset, stale)
    case Refused(ret) => (s, ret)
    case Opened(id) =>
      var i := s.inodes[id];
      if !SplitDefined(c, s, id, offset, |buf|) then (s, Undefined)
      else
        var ps := FileIo.Pieces(offset, |buf|, BlkSz(c.ioSz), i.dataOffsets);
        FileIo.PiecesSumAtMost(offset, |buf|, BlkSz(c.ioSz), i.dataOffsets);
        var newSize := if offset + |buf| > i.size then offset + |buf| else i.size;
        (s.(bytes := FileIo.WriteAll(s.bytes, ps, buf), inodes := s.inodes[id := i.(size := newSize)]),
         Code(|buf|))
  }

  /** juzfs_read: the bytes of the split's transfers, in order; returns `size`. */
  function Read(c: Config, s: State, path: seq<char>, size: nat, offset: nat, stale: bool): (r: (Ret, seq<bv8>))
    requires Inv(c, s)
  {
    match OpenFile(c, s, path, offset, stale)
    case Refused(ret) => (ret, [])
    case Opened(id) =>
      if !SplitDefined(c, s, id, offset, size) then (Undefined, [])
      else
        var ps := FileIo.Pieces(offset, size, BlkSz(c.ioSz), s.inodes[id].dataOffsets);
        (Code(size), FileIo.ReadAll(s.bytes, ps))
  }

  /**
   * The outcomes of juzfs_write: -ENOENT exactly when not found, -EISDIR
   * exactly for a directory, -ESPIPE exactly when the offset is past the end
   * of a file, and `size` exactly when the file is open at that offset and
   * the split is defined. A write that is carried out puts the buffer on the
   * device through the split's transfers and leaves the size at
   * `max(size, offset+size)`; nothing else changes, and a refusal changes nothing.
   */
  lemma WriteOutcome(c: Config, s: State, path: seq<char>, buf: seq<bv8>, offset: nat, stale: bool)
    requires Inv(c, s) && !Lookup(c, s, path).Fault?
    ensures var f := Lookup(c, s, path);
      var (s', r) := Write(c, s, path, buf, offset, stale);
      && (r == Code(-ENOENT) <==> !IsFind(f, stale))
      && (r != Code(|buf|) ==> s' == s)
      && (IsFind(f, stale) ==>
            var id := TargetInode(c, s, f);
            var i := s.inodes[id];
            && (r == Code(-EISDIR) <==> IsDir(i))
            && (r == Code(-ESPIPE) <==> IsFile(i) && i.size < offset)
            && (r == Code(|buf|) <==> IsFile(i) && offset <= i.size && SplitDefined(c, s, id, offset, |buf|))
            && (r == Code(|buf|) ==>
                  var ps := FileIo.Pieces(offset, |buf|, BlkSz(c.ioSz), i.dataOffsets);
                  FileIo.PiecesSumAtMost(offset, |buf|, BlkSz(c.ioSz), i.dataOffsets);
                  && s'.bytes == FileIo.WriteAll(s.bytes, ps, buf)
                  && s'.inodes == s.inodes[id := i.(size := if offset + |buf| > i.size then offset + |buf| else i.size)]
                  && s'.nextId == s.nextId && s'.mapInode == s.mapInode && s'.mapData == s.mapData))
  {
  }

  /**
   * The outcomes of juzfs_read: -ENOENT exactly when not found, -EISDIR
   * exactly for a directory, -ESPIPE exactly when the offset is past the end
   * of a file; otherwise, when the split is defined, it returns `size` with
   * the bytes the split's transfers read, never more than `size` of them and
   * all `size` when the request starts in the first block. A refusal returns
   * no data.
   */
  lemma ReadOutcome(c: Config, s: State, path: seq<char>, size: nat, offset: nat, stale: bool)
    requires Inv(c, s) && !Lookup(c, s, path).Fault?
    ensures var f := Lookup(c, s, path);
      var (r, data) := Read(c, s, path, size, offset, stale);
      && (r == Code(-ENOENT) <==> !IsFind(f, stale))
      && (r != Code(size) ==> data == [])
      && (IsFind(f, stale) ==>
            var id := TargetInode(c, s, f);
            var i := s.inodes[id];
            && (r == Code(-EISDIR) <==> IsDir(i))
            && (r == Code(-ESPIPE) <==> IsFile(i) && i.size < offset)
            && (r == Code(size) <==> IsFile(i) && offset <= i.size && SplitDefined(c, s, id, offset, size))
            && (r == Code(size) ==>
                  && data == FileIo.ReadAll(s.bytes, FileIo.Pieces(offset, size, BlkSz(c.ioSz), i.dataOffsets))
                  && |data| <= size
                  && (offset < BlkSz(c.ioSz) ==> |data| == size)))
  {
    var f := Lookup(c, s, path);
    if IsFind(f, stale) {
      var id := TargetInode(c, s, f);
      var i := s.inodes[id];
      if IsFile(i) && offset <= i.size && SplitDefined(c, s, id, offset, size) {
        FileIo.PiecesSumAtMost(offset, size, BlkSz(c.ioSz), i.dataOffsets);
        if offset < BlkSz(c.ioSz) {
          FileIo.PiecesCoverFromFirstBlock(offset, size, BlkSz(c.ioSz), i.dataOffsets);
        }
      }
    }
  }

  /**
   * Writing a request that fits in one block and reading the same range back
   * returns the bytes written.
   */
  lemma WriteThenReadSingleBlock(c: Config, s: State, path: seq<char>, buf: seq<bv8>, offset: nat, stale: bool)
    requires Inv(c, s) && c.ioSz > 0 && Write(c, s, path, buf, offset, stale).1 == Code(|buf|)
    requires offset / BlkSz(c.ioSz) == (|buf| + offset) / BlkSz(c.ioSz)
    ensures var s' := Write(c, s, path, buf, offset, stale).0;
      Inv(c, s') && Read(c, s', path, |buf|, offset, stale) == (Code(|buf|), buf)
  {
    var id := OpenFile(c, s, path, offset, stale).id;
    var i := s.inodes[id];
    var blk := BlkSz(c.ioSz);
    var ps := FileIo.Pieces(offset, |buf|, blk, i.dataOffsets);
    WriteReopens(c, s, path, buf, offset, stale);
    FileIo.SingleBlockPiece(offset, |buf|, blk, i.dataOffsets);
    FileIo.SinglePieceRoundTrip(s.bytes, ps[0], buf);
  }

  /** After a write that is carried out, the same path opens the same file, whose slots are unchanged. */
  lemma WriteReopens(c: Config, s: State, path: seq<char>, buf: seq<bv8>, offset: nat, stale: bool)
    requires Inv(c, s) && Write(c, s, path, buf, offset, stale).1 == Code(|buf|)
    ensures OpenFile(c, s, path, offset, stale).Opened?
    ensures var id := OpenFile(c, s, path, offset, stale).id;
      var s' := Write(c, s, path, buf, offset, stale).0;
      && Inv(c, s') && OpenFile(c, s', path, offset, stale) == Opened(id)
      && s'.inodes[id].dataOffsets == s.inodes[id].dataOffsets
  {
    var s' := Write(c, s, path, buf, offset, stale).0;
    var id := OpenFile(c, s, path, offset, stale).id;
    WriteKeepsInv(c, s, path, buf, offset, stale);
    var i := s.inodes[id];
    assert s'.inodes == s.inodes[id := i.(size := if offset + |buf| > i.size then offset + |buf| else i.size)];
    assert SameTree(s.inodes, s'.inodes);
    LookupFrame(c, s, s', path);
    assert TargetInode(c, s', Lookup(c, s', path)) == id;
  }

  /** The blocks the grow loop of juzfs_truncate allocates, one per slot in `[lo, hi)`, in order. */
  function AllocRun(c: Config, s: State, slots: seq<nat>, lo: nat, hi: nat): (r: (State, seq<nat>))
    requires lo <= hi <= |slots|
    ensures |r.1| == |slots| && r.0.inodes == s.inodes && r.0.nextId == s.nextId
    ensures r.0.mapInode == s.mapInode && r.0.bytes == s.bytes
    ensures forall k :: 0 <= k < |slots| && !(lo <= k < hi) ==> r.1[k] == slots[k]
    decreases hi - lo
  {
    if lo == hi then (s, slots)
    else
      var (s1, blk) := AllocDataBlk(c, s);
      AllocRun(c, s1, slots[lo := blk], lo + 1, hi)
  }

  /** Each successful allocation of the grow loop returns a block that is distinct from the others. */
  lemma {:induction false} AllocRunDistinct(c: Config, s: State, slots: seq<nat>, lo: nat, hi: nat)
    requires lo <= hi <= |slots|
    ensures var (s', out) := AllocRun(c, s, slots, lo, hi);
      && |s'.mapData| == |s.mapData|
      && (forall k :: lo <= k < hi && out[k] != ENOSPC_U64 ==>
            out[k] < |s.mapData| * 8 && !Bitmap.IsSet(s.mapData, out[k]) && Bitmap.IsSet(s'.mapData, out[k]))
      && (forall j :: 0 <= j < |s.mapData| * 8 && Bitmap.IsSet(s.mapData, j) ==> Bitmap.IsSet(s'.mapData, j))
      && (forall k, l :: lo <= k < l < hi && out[k] != ENOSPC_U64 ==> out[k] != out[l])
    decreases hi - lo
  {
    if lo < hi {
      var (s1, blk) := AllocDataBlk(c, s);
      AllocDataBlkOutcome(c, s);
      AllocRunDistinct(c, s1, slots[lo := blk], lo + 1, hi);
    }
  }

  /**
   * juzfs_truncate: -EEXIST when not found, -EISDIR for a directory, -ENOSPC
   * beyond six blocks; when growing, slots `file_blks .. new_blks-1` receive
   * fresh blocks; the size becomes `offset`.
   */
  function Truncate(c: Config, s: State, path: seq<char>, offset: nat, stale: bool): (r: (State, Ret))
    requires Inv(c, s)
  {
    var f := Lookup(c, s, path);
    if f.Fault? then (s, Undefined)
    else if !IsFind(f, stale) then (s, Code(-EEXIST))
    else
      var id := TargetInode(c, s, f);
      var i := s.inodes[id];
      if IsDir(i) then (s, Code(-EISDIR))
      else if c.ioSz == 0 then (s, Undefined)
      else
        var newBlks := FileIo.BlocksFor(offset, BlkSz(c.ioSz));
        var fileBlks := FileIo.BlocksFor(i.size, BlkSz(c.ioSz));
        if newBlks > JFS_DATA_PER_FILE then (s, Code(-ENOSPC))
        else
          var (s1, slots) :=
            if newBlks > fileBlks then AllocRun(c, s, i.dataOffsets, fileBlks, newBlks)
            else (s, i.dataOffsets);
          (s1.(inodes := s1.inodes[id := i.(dataOffsets := slots, size := offset)]), Code(0))
  }

  /**
   * The outcomes of juzfs_truncate: -EEXIST exactly when the path is not
   * found, -EISDIR exactly for a directory, -ENOSPC exactly beyond six blocks,
   * 0 otherwise; a refusal changes nothing. On 0 the size becomes `offset` and
   * only that inode's size and slots change. A grow puts into each slot from
   * the old block count up to the new one the block the allocation loop
   * returns, and the data map is the one that loop leaves. Any other call,
   * a shrink included, leaves every slot and the data map as they were.
   */
  lemma TruncateOutcome(c: Config, s: State, path: seq<char>, offset: nat, stale: bool)
    requires Inv(c, s) && c.ioSz > 0 && !Lookup(c, s, path).Fault?
    ensures var f := Lookup(c, s, path);
      var (s', r) := Truncate(c, s, path, offset, stale);
      && (r == Code(-EEXIST) <==> !IsFind(f, stale))
      && (r != Code(0) ==> s' == s)
      && (IsFind(f, stale) ==>
            var id := TargetInode(c, s, f);
            var i := s.inodes[id];
            var newBlks := FileIo.BlocksFor(offset, BlkSz(c.ioSz));
            var fileBlks := FileIo.BlocksFor(i.size, BlkSz(c.ioSz));
            && (r == Code(-EISDIR) <==> IsDir(i))
            && (r == Code(-ENOSPC) <==> IsFile(i) && newBlks > JFS_DATA_PER_FILE)
            && (r == Code(0) <==> IsFile(i) && newBlks <= JFS_DATA_PER_FILE)
            && (r == Code(0) ==>
                  && id in s'.inodes && |s'.inodes[id].dataOffsets| == JFS_DATA_PER_FILE
                  && s'.inodes == s.inodes[id := i.(size := offset, dataOffsets := s'.inodes[id].dataOffsets)]
                  && s'.mapInode == s.mapInode && s'.bytes == s.bytes && s'.nextId == s.nextId
                  && (forall k :: 0 <= k < JFS_DATA_PER_FILE && !FileIo.GrowSlot(k, fileBlks, newBlks) ==>
                        s'.inodes[id].dataOffsets[k] == i.dataOffsets[k])
                  && (newBlks > fileBlks ==>
                        var run := AllocRun(c, s, i.dataOffsets, fileBlks, newBlks);
                        && s'.mapData == run.0.mapData
                        && forall k :: 0 <= k && FileIo.GrowSlot(k, fileBlks, newBlks) ==> s'.inodes[id].dataOffsets[k] == run.1[k])
                  && (newBlks <= fileBlks ==> s'.mapData == s.mapData)))
  {
  }

  /**
   * A grow takes fresh blocks: every grown slot that does not hold the
   * failure value names a block that was clear and is now set, no two grown
   * slots name the same block, and no block that was set is cleared.
   */
  lemma TruncateGrowsFresh(c: Config, s: State, path: seq<char>, offset: nat, stale: bool)
    requires Inv(c, s) && c.ioSz > 0 && Truncate(c, s, path, offset, stale).1 == Code(0)
    ensures var f := Lookup(c, s, path);
      var id := TargetInode(c, s, f);
      var i := s.inodes[id];
      var newBlks := FileIo.BlocksFor(offset, BlkSz(c.ioSz));
      var fileBlks := FileIo.BlocksFor(i.size, BlkSz(c.ioSz));
      var s' := Truncate(c, s, path, offset, stale).0;
      var slots := s'.inodes[id].dataOffsets;
      && |s'.mapData| == |s.mapData| && |slots| == JFS_DATA_PER_FILE
      && (forall k :: 0 <= k && FileIo.GrowSlot(k, fileBlks, newBlks) && slots[k] != ENOSPC_U64 ==>
            slots[k] < |s.mapData| * 8 && !Bitmap.IsSet(s.mapData, slots[k]) && Bitmap.IsSet(s'.mapData, slots[k]))
      && (forall k, l ::
            (0 <= k < l && FileIo.GrowSlot(k, fileBlks, newBlks) && FileIo.GrowSlot(l, fileBlks, newBlks) && slots[k] != ENOSPC_U64)
            ==> slots[k] != slots[l])
      && (forall j :: 0 <= j < |s.mapData| * 8 && Bitmap.IsSet(s.mapData, j) ==> Bitmap.IsSet(s'.mapData, j))
  {
    var f := Lookup(c, s, path);
    var i := s.inodes[TargetInode(c, s, f)];
    var newBlks := FileIo.BlocksFor(offset, BlkSz(c.ioSz));
    var fileBlks := FileIo.BlocksFor(i.size, BlkSz(c.ioSz));
    TruncateOutcome(c, s, path, offset, stale);
    if newBlks > fileBlks {
      AllocRunDistinct(c, s, i.dataOffsets, fileBlks, newBlks);
    }
  }

  /**
   * As written, shrinking a file releases nothing: the loop of the shrink
   * branch runs from `file_blks` while below `new_blks`, so the data map and
   * the slots stay as they were. The shrink the code evidently intends
   * (IntendedShrink) clears the bit of every dropped slot's block.
   */
  lemma ShrinkKeepsBlocks(c: Config, s: State, path: seq<char>, offset: nat, stale: bool)
    requires Inv(c, s) && c.ioSz > 0 && Truncate(c, s, path, offset, stale).1 == Code(0)
    ensures var f := Lookup(c, s, path);
      var id := TargetInode(c, s, f);
      var i := s.inodes[id];
      var newBlks := FileIo.BlocksFor(offset, BlkSz(c.ioSz));
      var fileBlks := FileIo.BlocksFor(i.size, BlkSz(c.ioSz));
      var s' := Truncate(c, s, path, offset, stale).0;
      var intended := IntendedShrink(s, i.dataOffsets, newBlks, fileBlks);
      newBlks < fileBlks ==>
        && s'.mapData == s.mapData && s'.inodes[id].dataOffsets == i.dataOffsets
        && (fileBlks <= |i.dataOffsets| && (forall k :: newBlks <= k < fileBlks ==> i.dataOffsets[k] < |s.mapData| * 8) ==>
              && intended.Some?
              && forall k :: newBlks <= k < fileBlks && Bitmap.IsSet(s.mapData, i.dataOffsets[k]) ==>
                   Bitmap.IsSet(s'.mapData, i.dataOffsets[k]) && !Bitmap.IsSet(intended.value.mapData, i.dataOffsets[k]))
  {
    var f := Lookup(c, s, path);
    var i := s.inodes[TargetInode(c, s, f)];
    TruncateOutcome(c, s, path, offset, stale);
    IntendedShrinkReleases(s, i.dataOffsets, FileIo.BlocksFor(offset, BlkSz(c.ioSz)), FileIo.BlocksFor(i.size, BlkSz(c.ioSz)));
  }

  /**
   * The shrink juzfs_truncate evidently intends: release the blocks of slots
   * `new_blks .. file_blks-1`, in order. Slots past the six are outside the
   * array, which is undefined.
   */
  function IntendedShrink(s: State, slots: seq<nat>, newBlks: nat, fileBlks: nat): Option<State>
  {
    if fileBlks > |slots| then None
    else if newBlks >= fileBlks then Some(s)
    else FreeBlocks(s, slots[newBlks..fileBlks])
  }

  /**
   * The intended shrink is defined exactly when the dropped slots lie in the
   * array and name blocks inside the map; then each of their blocks is clear
   * afterwards, every other bit is kept, and nothing but the data map changes.
   */
  lemma IntendedShrinkReleases(s: State, slots: seq<nat>, newBlks: nat, fileBlks: nat)
    ensures var r := IntendedShrink(s, slots, newBlks, fileBlks);
      && (r.Some? <==> fileBlks <= |slots| && forall k :: newBlks <= k < fileBlks ==> slots[k] < |s.mapData| * 8)
      && (r.Some? ==>
            && r.value.inodes == s.inodes && r.value.mapInode == s.mapInode && r.value.bytes == s.bytes
            && |r.value.mapData| == |s.mapData|
            && (forall k :: newBlks <= k < fileBlks ==> !Bitmap.IsSet(r.value.mapData, slots[k]))
            && (forall j :: 0 <= j < |s.mapData| * 8 && (forall k :: newBlks <= k < fileBlks ==> slots[k] != j) ==>
                  (Bitmap.IsSet(r.value.mapData, j) <==> Bitmap.IsSet(s.mapData, j))))
  {
    if fileBlks <= |slots| && newBlks < fileBlks {
      var blks := slots[newBlks..fileBlks];
      FreeBlocksOutcome(s, blks);
      assert forall k :: newBlks <= k < fileBlks ==> slots[k] == blks[k - newBlks];
    }
  }

  /**
   * The release loop is defined exactly when every block is inside the map;
   * then the bits of the released blocks are clear and every other bit is kept.
   */
  lemma {:induction false} FreeBlocksOutcome(s: State, blks: seq<nat>)
    ensures FreeBlocks(s, blks).Some? <==> forall k :: 0 <= k < |blks| ==> blks[k] < |s.mapData| * 8
    ensures FreeBlocks(s, blks).Some? ==>
      forall j :: 0 <= j < |s.mapData| * 8 ==>
        (Bitmap.IsSet(FreeBlocks(s, blks).value.mapData, j) <==> Bitmap.IsSet(s.mapData, j) && j !in blks)
    decreases |blks|
  {
    if blks != [] {
      match DeallocDataBlk(s, blks[0])
      case None =>
      case Some(s1) =>
        FreeBlocksOutcome(s1, blks[1..]);
        assert forall j :: j in blks <==> j == blks[0] || j in blks[1..];
    }
  }

  /** Truncating to the same size twice: the second call allocates nothing and changes neither the slots nor the data map. */
  lemma TruncateTwice(c: Config, s: State, path: seq<char>, offset: nat, stale: bool)
    requires Inv(c, s) && c.ioSz > 0 && Truncate(c, s, path, offset, stale).1 == Code(0)
    ensures var s1 := Truncate(c, s, path, offset, stale).0;
      Inv(c, s1) && Truncate(c, s1, path, offset, stale) == (s1, Code(0))
  {
    var f := Lookup(c, s, path);
    var id := TargetInode(c, s, f);
    var s1 := Truncate(c, s, path, offset, stale).0;
    TruncateOutcome(c, s, path, offset, stale);
    TruncateKeepsInv(c, s, path, offset, stale);
    assert SameTree(s.inodes, s1.inodes);
    LookupFrame(c, s, s1, path);
    TruncateToOwnSize(c, s1, path, offset, stale);
  }

  /** Truncating a file within six blocks to the size it already has changes nothing. */
  lemma TruncateToOwnSize(c: Config, t: State, path: seq<char>, offset: nat, stale: bool)
    requires Inv(c, t) && c.ioSz > 0
    requires var f := Lookup(c, t, path);
      && !f.Fault? && IsFind(f, stale)
      && IsFile(t.inodes[TargetInode(c, t, f)]) && t.inodes[TargetInode(c, t, f)].size == offset
      && FileIo.BlocksFor(offset, BlkSz(c.ioSz)) <= JFS_DATA_PER_FILE
    ensures Truncate(c, t, path, offset, stale) == (t, Code(0))
  {
    var id := TargetInode(c, t, Lookup(c, t, path));
    var i := t.inodes[id];
    assert i.(dataOffsets := i.dataOffsets, size := offset) == i;
    assert t.inodes[id := i] == t.inodes;
  }

  /** The invariant holds after every operation that does not end in undefined behaviour. */
  lemma WriteKeepsInv(c: Config, s: State, path: seq<char>, buf: seq<bv8>, offset: nat, stale: bool)
    requires Inv(c, s)
    ensures Inv(c, Write(c, s, path, buf, offset, stale).0)
  {
  }

  lemma TruncateKeepsInv(c: Config, s: State, path: seq<char>, offset: nat, stale: bool)
    requires Inv(c, s)
    ensures Inv(c, Truncate(c, s, path, offset, stale).0)
  {
    if c.ioSz > 0 && !Lookup(c, s, path).Fault? {
      TruncateOutcome(c, s, path, offset, stale);
    }
  }

  lemma MkdirKeepsInv(c: Config, s: State, path: seq<char>, stale: bool)
    requires Inv(c, s) && |path| > 0 && path[0] == '/'
    ensures Mkdir(c, s, path, stale).1 != Undefined ==> Inv(c, Mkdir(c, s, path, stale).0)
  {
    var f := Lookup(c, s, path);
    if !f.Fault? && !IsFind(f, stale) {
      MakeChildKeepsInv(c, s, TargetInode(c, s, f), Paths.GetName(path), Dir);
    }
  }

  lemma UnlinkKeepsInv(c: Config, s: State, path: seq<char>, stale: bool)
    requires Inv(c, s)
    ensures Unlink(c, s, path, stale).1 != Undefined ==> Inv(c, Unlink(c, s, path, stale).0)
    ensures Rmdir(c, s, path, stale).1 != Undefined ==> Inv(c, Rmdir(c, s, path, stale).0)
  {
    var f := Lookup(c, s, path);
    if !f.Fault? && IsFind(f, stale) {
      UnlinkDentryKeepsInv(c, s, TargetDentry(c, s, f));
    }
  }

  lemma RenameKeepsInv(c: Config, s: State, from: seq<char>, to: seq<char>, staleFrom: bool, staleTo: bool)
    requires Inv(c, s) && |to| > 0 && to[0] == '/'
    ensures Rename(c, s, from, to, staleFrom, staleTo).1 != Undefined ==> Inv(c, Rename(c, s, from, to, staleFrom, staleTo).0)
  {
    var f := Lookup(c, s, from);
    if !f.Fault? && IsFind(f, staleFrom) && from != to {
      var fromId := TargetInode(c, s, f);
      var mode := if IsDir(s.inodes[fromId]) then S_IFDIR else S_IFREG;
      var (s1, r1) := Mknod(c, s, to, mode, staleTo);
      MknodKeepsInv(c, s, to, mode, staleTo);
      if r1 == Code(0) {
        var g := Lookup(c, s1, to);
        if g.Hit? {
          RenameTailKeepsInv(c, s1, g, fromId, TargetDentry(c, s, f));
        }
      }
    }
  }

  lemma RenameTailKeepsInv(c: Config, s1: State, g: Found, fromId: InodeId, fromDentry: Dentry)
    requires Inv(c, s1) && FoundIn(c, s1, g) && g.Hit?
    ensures RenameTail(c, s1, g, fromId, fromDentry).1 != Undefined ==> Inv(c, RenameTail(c, s1, g, fromId, fromDentry).0)
  {
    var toId := TargetInode(c, s1, g);
    var (s2, r2) := DropInode(c, s1, toId);
    DropInodeOutcome(c, s1, toId);
    if !(r2 == Undefined || g.dir !in s2.inodes || fromId !in s2.inodes) {
      var parent := s2.inodes[g.dir];
      var entry := parent.dentrys[g.idx].(ino := s2.inodes[fromId].ino, inode := Some(fromId));
      var s3 := s2.(inodes := s2.inodes[g.dir := parent.(dentrys := parent.dentrys[g.idx := entry])]);
      RepointKeepsInv(c, s2, g.dir, g.idx, s2.inodes[fromId].ino, fromId);
      if !(fromDentry.parent.None? || fromDentry.parent.value !in s3.inodes) {
        DropEntryKeepsInv(c, s3, fromDentry.parent.value, fromDentry.name);
      }
    }
  }

  /** Pointing one child of a directory at an inode of the arena keeps the invariant. */
  lemma RepointKeepsInv(c: Config, s: State, dir: InodeId, idx: nat, ino: nat, id: InodeId)
    requires Inv(c, s) && dir in s.inodes && idx < |s.inodes[dir].dentrys| && id in s.inodes
    ensures var i := s.inodes[dir];
      Inv(c, s.(inodes := s.inodes[dir := i.(dentrys := i.dentrys[idx := i.dentrys[idx].(ino := ino, inode := Some(id))])]))
  {
    var i := s.inodes[dir];
    var ds := i.dentrys[idx := i.dentrys[idx].(ino := ino, inode := Some(id))];
    assert ChildrenOf(ds, dir, s.nextId);
    assert WellFormed(i.(dentrys := ds));
  }
}
