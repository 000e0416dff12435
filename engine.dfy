/**
 * The mounted filesystem as an object: the superblock fields that stay fixed
 * after mount, the two bitmaps as arrays the allocators change in place, the
 * device, and the arena of in-memory inodes. Every operation is a method
 * proved against the function of the same name in module FsSpec: it returns
 * what that function returns and, unless the outcome is undefined, leaves the
 * object in the state that function computes.
 */
module Engine {

  import opened Types
  import opened FsSpec
  import Bitmap
  import Dentries
  import Paths
  import FileIo
  import Driver
  import Layout
  import Arith

  /** The child scan of jfs_lookup: the first entry whose name field starts with `fname`. */
  method FindChild(ds: seq<Dentry>, fname: seq<char>) returns (r: Option<nat>)
    ensures r == Dentries.FirstMatch(ds, fname)
  {
    var k := 0;
    while k < |ds|
      invariant 0 <= k <= |ds|
      invariant Dentries.FirstMatchFrom(ds, fname, k) == Dentries.FirstMatch(ds, fname)
    {
      if NameMatches(ds[k].name, fname) {
        return Some(k);
      }
      k := k + 1;
    }
    return None;
  }

  /** The strcmp scan of juzfs_drop_dentry: the first entry whose name equals `name`. */
  method FindNamed(ds: seq<Dentry>, name: seq<char>) returns (r: Option<nat>)
    ensures r == Dentries.FirstNamed(ds, name)
  {
    var k := 0;
    while k < |ds|
      invariant 0 <= k <= |ds|
      invariant Dentries.FirstNamedFrom(ds, name, k) == Dentries.FirstNamed(ds, name)
    {
      if CStr(ds[k].name) == CStr(name) {
        return Some(k);
      }
      k := k + 1;
    }
    return None;
  }

  /**
   * The loop of juzfs_write: one driver write per piece of the split, each
   * taking the next bytes of the buffer.
   */
  method WritePieces(dev: Driver.Device, ps: seq<FileIo.Piece>, buf: seq<bv8>)
    requires FileIo.Transferable(ps, dev.ioSz, |dev.bytes|) && FileIo.SumLengths(ps) <= |buf|
    modifies dev
    ensures dev.bytes == FileIo.WriteAll(old(dev.bytes), ps, buf)
  {
    ghost var b0 := dev.bytes;
    var done := 0;
    var m := 0;
    while m < |ps|
      invariant 0 <= m <= |ps|
      invariant FileIo.Fits(ps[..m], |b0|)
      invariant done == FileIo.SumLengths(ps[..m]) <= |buf|
      invariant dev.bytes == FileIo.WriteAll(b0, ps[..m], buf) && |dev.bytes| == |b0|
    {
      FileIo.WriteAllStep(b0, ps, m, buf);
      var p := ps[m];
      Driver.DriverWrite(dev, p.loc, buf[done .. done + p.length]);
      done := done + p.length;
      m := m + 1;
    }
    assert ps[..m] == ps;
  }

  /** The loop of juzfs_read: one driver read per piece of the split, appended in order. */
  method ReadPieces(dev: Driver.Device, ps: seq<FileIo.Piece>) returns (out: seq<bv8>)
    requires FileIo.Transferable(ps, dev.ioSz, |dev.bytes|)
    ensures out == FileIo.ReadAll(dev.bytes, ps)
  {
    out := [];
    var m := 0;
    while m < |ps|
      invariant 0 <= m <= |ps|
      invariant FileIo.Fits(ps[..m], |dev.bytes|)
      invariant out == FileIo.ReadAll(dev.bytes, ps[..m])
    {
      FileIo.ReadAllStep(dev.bytes, ps, m);
      var chunk := Driver.DriverRead(dev, ps[m].loc, ps[m].length);
      out := out + chunk;
      m := m + 1;
    }
    assert ps[..m] == ps;
  }

  class Fs {
    const ioSz: nat
    const maxIno: nat
    const maxDataBlks: nat
    const szUsage: nat
    /** The handle of the root dentry's inode. */
    const rootId: InodeId
    /** `super.map_inode` and `super.map_data`. */
    const mapInode: array<bv8>
    const mapData: array<bv8>
    const dev: Driver.Device
    /** The in-memory inodes, under handles that stand for their addresses. */
    var inodes: map<InodeId, Inode>
    var nextId: InodeId

    function Cfg(): Config
    {
      Config(ioSz, maxIno, maxDataBlks, szUsage, rootId)
    }

    /** The whole state as a value. */
    function Abs(): State
      reads this, mapInode, mapData, dev
    {
      State(inodes, nextId, mapInode[..], mapData[..], dev.bytes)
    }

    /** The two bitmaps are distinct buffers. */
    predicate Separate()
    {
      mapInode != mapData
    }

    predicate Valid()
      reads this, mapInode, mapData, dev
    {
      Separate() && ioSz > 0 && dev.ioSz == ioSz && Inv(Cfg(), Abs())
    }

    /**
     * jfs_mount on a disk without the magic number: lay the disk out, start
     * from zeroed bitmaps and allocate the root inode (number 0) for the
     * root dentry "/".
     */
    constructor (contents: seq<bv8>, io: nat)
      requires Layout.FormatFits(|contents|, io) && Layout.Format(|contents|, io).maxIno > 0
      ensures Valid()
      ensures Cfg() == ConfigOf(Layout.Format(|contents|, io), io, rootId)
      ensures mapInode.Length == BlksSz(Layout.Format(|contents|, io).mapInodeBlks, io)
      ensures mapData.Length == BlksSz(Layout.Format(|contents|, io).mapDataBlks, io)
      ensures dev.bytes == contents
      ensures inodes.Keys == {rootId}
      ensures var root := inodes[rootId];
        && root.ino == JFS_ROOT_INO && root.size == 0 && IsDir(root) && root.dentrys == []
        && CStr(root.owner.name) == "/" && root.owner.parent.None?
      ensures 0 < maxIno <= mapInode.Length * 8 && maxDataBlks <= mapData.Length * 8
      ensures Bitmap.IsSet(mapInode[..], 0)
      ensures forall j :: 0 < j < mapInode.Length * 8 ==> !Bitmap.IsSet(mapInode[..], j)
      ensures forall j :: 0 <= j < mapData.Length * 8 ==> !Bitmap.IsSet(mapData[..], j)
    {
      var l := Layout.Format(|contents|, io);
      Layout.FormatBitmapsCover(|contents|, io);
      ioSz := io;
      maxIno := l.maxIno;
      maxDataBlks := l.maxDataBlks;
      szUsage := l.szUsage;
      rootId := 0;
      mapInode := new bv8[BlksSz(l.mapInodeBlks, io)](_ => 0);
      mapData := new bv8[BlksSz(l.mapDataBlks, io)](_ => 0);
      dev := new Driver.Device(contents, io);
      inodes := map[];
      nextId := 0;
      new;
      ghost var m0 := mapInode[..];
      Bitmap.ZeroBytesClear(m0);
      Bitmap.ZeroBytesClear(mapData[..]);
      assert |m0| * 8 >= maxIno > 0;
      Bitmap.LowestClearUnique(m0, 0);
      assert Bitmap.ScanSpec(m0) == Bitmap.Scan(Bitmap.SetBit(m0, 0), true, 0);
      var rootDentry := NewDentry("/", None, Dir).(ino := JFS_ROOT_INO);
      CStrOfNameField("/");
      var _, id := AllocInode(rootDentry);
      assert mapInode[..] == Bitmap.SetBit(m0, 0);
      assert id == Some(0);
    }

    // -------------------------------------------------------------------------
    // Allocators
    // -------------------------------------------------------------------------

    /** jfs_alloc_inode. */
    method AllocInode(d: Dentry) returns (d': Dentry, id: Option<InodeId>)
      requires Separate()
      modifies this, mapInode
      ensures var a := FsSpec.AllocInode(Cfg(), old(Abs()), d);
        Abs() == a.s && d' == a.dentry && id == a.id
    {
      var found, cursor := Bitmap.ScanAndSet(mapInode);
      if !found || cursor == maxIno {
        return d, None;
      }
      d' := d.(inode := Some(nextId), ino := cursor);
      inodes := inodes[nextId := Inode(cursor, 0, d', [], 0, ZERO_SLOTS)];
      id := Some(nextId);
      nextId := nextId + 1;
    }

    /** jfs_alloc_data_blk. */
    method AllocDataBlk() returns (blk: nat)
      requires Separate()
      modifies mapData
      ensures (Abs(), blk) == FsSpec.AllocDataBlk(Cfg(), old(Abs()))
    {
      var found, cursor := Bitmap.ScanAndSet(mapData);
      if !found || cursor == maxDataBlks {
        blk := ENOSPC_U64;
      } else {
        blk := cursor;
      }
    }

    /** jfs_dealloc_data_blk; `false` stands for a write outside the map. */
    method DeallocDataBlk(blk: nat) returns (ok: bool)
      requires Separate()
      modifies mapData
      ensures ok == FsSpec.DeallocDataBlk(old(Abs()), blk).Some?
      ensures ok ==> Abs() == FsSpec.DeallocDataBlk(old(Abs()), blk).value
    {
      if blk >= mapData.Length * 8 {
        return false;
      }
      Bitmap.ClearBitAt(mapData, blk);
      ok := true;
    }

    /** The root guard and the bitmap step of juzfs_drop_inode, then the release of the inode. */
    method DropInode(id: InodeId) returns (r: Ret)
      requires Separate()
      modifies this, mapInode
      ensures (Abs(), r) == FsSpec.DropInode(Cfg(), old(Abs()), id)
    {
      if id == rootId {
        return Code(-EINVAL);
      }
      if id !in inodes || inodes[id].ino >= mapInode.Length * 8 {
        return Undefined;
      }
      Bitmap.ClearBitAt(mapInode, inodes[id].ino);
      inodes := inodes - {id};
      r := Code(0);
    }

    // -------------------------------------------------------------------------
    // Child lists
    // -------------------------------------------------------------------------

    /** jfs_alloc_dentry on the inode under `dir`. */
    method AllocEntry(dir: InodeId, d: Dentry, allocD: bool) returns (ret: int)
      requires Separate() && dir in inodes && WellFormed(inodes[dir])
      modifies this, mapData
      ensures (Abs(), ret) == FsSpec.AllocEntry(Cfg(), old(Abs()), dir, d, allocD)
    {
      var i := inodes[dir];
      var n := |i.dentrys|;
      var slots := i.dataOffsets;
      var listSize := i.listSize;
      if listSize < n + 1 {
        var newListSize := Dentries.GrownListSize(n);
        if newListSize / JFS_DENTRYS_SEG_SIZE > JFS_DATA_PER_FILE {
          assert inodes[dir := i] == inodes;
          return -ENOSPC;
        }
        if allocD {
          var blk := AllocDataBlk();
          slots := slots[newListSize / JFS_DENTRYS_SEG_SIZE - 1 := blk];
        }
        listSize := newListSize;
      }
      inodes := inodes[dir := i.(dentrys := i.dentrys + [d], listSize := listSize, dataOffsets := slots)];
      ret := n + 1;
    }

    /** The release loop of juzfs_drop_dentry: the blocks of slots `top-1` down to `low`, highest first. */
    method ReleaseSlots(slots: seq<nat>, top: nat, low: nat) returns (ok: bool)
      requires Separate() && top <= |slots|
      modifies mapData
      ensures ok == FreeBlocks(old(Abs()), Dentries.FreedSlots(slots, top, low)).Some?
      ensures ok ==> Abs() == FreeBlocks(old(Abs()), Dentries.FreedSlots(slots, top, low)).value
    {
      ghost var goal := FreeBlocks(Abs(), Dentries.FreedSlots(slots, top, low));
      ghost var st := Abs();
      var cur: nat := top;
      while cur > low
        invariant cur <= top && st == Abs()
        invariant goal == FreeBlocks(st, Dentries.FreedSlots(slots, cur, low))
        decreases cur
      {
        FreeBlocksStep(st, slots, cur, low);
        ghost var next := FsSpec.DeallocDataBlk(st, slots[cur - 1]);
        ok := DeallocDataBlk(slots[cur - 1]);
        if !ok {
          return;
        }
        st := next.value;
        cur := cur - 1;
      }
      ok := true;
    }

    /**
     * juzfs_drop_dentry on the inode under `dir`: find the entry, close the
     * gap, shrink the capacity, then release the blocks of the segments past
     * the new capacity, from the highest down.
     */
    method DropEntry(dir: InodeId, name: seq<char>) returns (r: Ret)
      requires Separate() && dir in inodes && WellFormed(inodes[dir])
      modifies this, mapData
      ensures r == FsSpec.DropEntry(old(Abs()), dir, name).1
      ensures r != Undefined ==> Abs() == FsSpec.DropEntry(old(Abs()), dir, name).0
    {
      ghost var s0 := Abs();
      var i := inodes[dir];
      ghost var drop := Dentries.DropDentry(i, name);
      var hit := FindNamed(i.dentrys, name);
      if hit.None? {
        assert inodes[dir := i] == inodes;
        assert drop == Dentries.Drop(i, -ENOENT, []);
        return Code(-ENOENT);
      }
      var k := hit.value;
      var n := |i.dentrys|;
      var newListSize := RoundUp(n - 1, JFS_DENTRYS_SEG_SIZE);
      inodes := inodes[dir := i.(dentrys := i.dentrys[..k] + i.dentrys[k + 1..], listSize := newListSize)];
      var low := newListSize / JFS_DENTRYS_SEG_SIZE;
      var top := i.listSize / JFS_DENTRYS_SEG_SIZE;
      assert drop == Dentries.Drop(inodes[dir], n - 1, Dentries.FreedSlots(i.dataOffsets, top, low));
      assert Abs() == s0.(inodes := s0.inodes[dir := drop.inode]);
      var ok := ReleaseSlots(i.dataOffsets, top, low);
      if !ok {
        return Undefined;
      }
      r := Code(n - 1);
    }

    // -------------------------------------------------------------------------
    // Lookup
    // -------------------------------------------------------------------------

    /**
     * jfs_lookup: the level count, then one loop step per component from the
     * root, ending where FsSpec.Lookup says.
     */
    method Lookup(path: seq<char>) returns (f: Found)
      requires Valid()
      ensures f == FsSpec.Lookup(Cfg(), Abs(), path)
    {
      var total := Paths.CalcLvl(path);
      if total == 0 {
        return AtRoot;
      }
      var tokens := Paths.Components(path);
      var cur := rootId;
      var k := 0;
      while k < |tokens|
        invariant 0 <= k <= |tokens|
        invariant Walk(Abs(), rootId, tokens, 0, total) == Walk(Abs(), cur, tokens, k, total)
        decreases |tokens| - k
      {
        if cur !in inodes {
          return Fault;
        }
        var i := inodes[cur];
        if IsFile(i) && k + 1 < total {
          return FileInPath(cur, k);
        }
        if IsDir(i) {
          var hit := FindChild(i.dentrys, tokens[k]);
          if hit.None? {
            return Miss(cur, k);
          }
          var child := i.dentrys[hit.value].inode;
          if k + 1 == total {
            if child.Some? && child.value in inodes {
              return Hit(cur, hit.value);
            }
            return Fault;
          }
          if child.None? {
            return Fault;
          }
          cur := child.value;
        }
        k := k + 1;
      }
      f := Fault;
    }

    // -------------------------------------------------------------------------
    // Namespace operations
    // -------------------------------------------------------------------------

    /** The tail shared by juzfs_mkdir and juzfs_mknod. */
    method MakeChild(dir: InodeId, name: seq<char>, ftype: FileType) returns (r: Ret)
      requires Separate() && dir in inodes && WellFormed(inodes[dir])
      modifies this, mapInode, mapData
      ensures (Abs(), r) == FsSpec.MakeChild(Cfg(), old(Abs()), dir, name, ftype)
    {
      if !NameOk(name) {
        return Undefined;
      }
      var d := NewDentry(name, Some(dir), ftype);
      var d', _ := AllocInode(d);
      var _ := AllocEntry(dir, d', true);
      r := Code(0);
    }

    /** juzfs_mkdir. */
    method Mkdir(path: seq<char>, stale: bool) returns (r: Ret)
      requires Valid() && |path| > 0 && path[0] == '/'
      modifies this, mapInode, mapData
      ensures r == FsSpec.Mkdir(Cfg(), old(Abs()), path, stale).1
      ensures r != Undefined ==> Abs() == FsSpec.Mkdir(Cfg(), old(Abs()), path, stale).0 && Valid()
    {
      MkdirKeepsInv(Cfg(), Abs(), path, stale);
      var f := Lookup(path);
      if f.Fault? {
        return Undefined;
      }
      if IsFind(f, stale) {
        return Code(-EEXIST);
      }
      var dir := TargetInode(Cfg(), Abs(), f);
      if IsFile(inodes[dir]) {
        return Code(-ENXIO);
      }
      r := MakeChild(dir, Paths.GetName(path), Dir);
    }

    /** juzfs_mknod. */
    method Mknod(path: seq<char>, mode: bv32, stale: bool) returns (r: Ret)
      requires Valid() && |path| > 0 && path[0] == '/'
      modifies this, mapInode, mapData
      ensures r == FsSpec.Mknod(Cfg(), old(Abs()), path, mode, stale).1
      ensures r != Undefined ==> Abs() == FsSpec.Mknod(Cfg(), old(Abs()), path, mode, stale).0 && Valid()
    {
      MknodKeepsInv(Cfg(), Abs(), path, mode, stale);
      var f := Lookup(path);
      if f.Fault? {
        return Undefined;
      }
      if IsFind(f, stale) {
        return Code(-EEXIST);
      }
      r := MakeChild(TargetInode(Cfg(), Abs(), f), Paths.GetName(path), NodeType(mode));
    }

    /** Drop the inode a dentry points at, then the dentry from its parent's list. */
    method UnlinkDentry(d: Dentry) returns (r: Ret)
      requires Separate()
      modifies this, mapInode, mapData
      ensures r == FsSpec.UnlinkDentry(Cfg(), old(Abs()), d).1
      ensures r != Undefined ==> Abs() == FsSpec.UnlinkDentry(Cfg(), old(Abs()), d).0
    {
      if d.inode.None? {
        return Undefined;
      }
      var r1 := DropInode(d.inode.value);
      if r1 == Undefined || d.parent.None? || d.parent.value !in inodes || !WellFormed(inodes[d.parent.value]) {
        return Undefined;
      }
      r := DropEntry(d.parent.value, d.name);
    }

    /** juzfs_unlink. */
    method Unlink(path: seq<char>, stale: bool) returns (r: Ret)
      requires Valid()
      modifies this, mapInode, mapData
      ensures r == FsSpec.Unlink(Cfg(), old(Abs()), path, stale).1
      ensures r != Undefined ==> Abs() == FsSpec.Unlink(Cfg(), old(Abs()), path, stale).0 && Valid()
    {
      UnlinkKeepsInv(Cfg(), Abs(), path, stale);
      var f := Lookup(path);
      if f.Fault? {
        return Undefined;
      }
      if !IsFind(f, stale) {
        return Code(-ENOENT);
      }
      var r1 := UnlinkDentry(TargetDentry(Cfg(), Abs(), f));
      if r1 == Undefined {
        return Undefined;
      }
      r := Code(0);
    }

    /** juzfs_rmdir. */
    method Rmdir(path: seq<char>, stale: bool) returns (r: Ret)
      requires Valid()
      modifies this, mapInode, mapData
      ensures r == FsSpec.Rmdir(Cfg(), old(Abs()), path, stale).1
      ensures r != Undefined ==> Abs() == FsSpec.Rmdir(Cfg(), old(Abs()), path, stale).0 && Valid()
    {
      UnlinkKeepsInv(Cfg(), Abs(), path, stale);
      var r1 := Unlink(path, stale);
      if r1 == Undefined {
        return Undefined;
      }
      r := Code(0);
    }

    /** juzfs_rename. */
    method Rename(from: seq<char>, to: seq<char>, staleFrom: bool, staleTo: bool) returns (r: Ret)
      requires Valid() && |to| > 0 && to[0] == '/'
      modifies this, mapInode, mapData
      ensures r == FsSpec.Rename(Cfg(), old(Abs()), from, to, staleFrom, staleTo).1
      ensures r != Undefined ==> Abs() == FsSpec.Rename(Cfg(), old(Abs()), from, to, staleFrom, staleTo).0 && Valid()
    {
      RenameKeepsInv(Cfg(), Abs(), from, to, staleFrom, staleTo);
      var f := Lookup(from);
      if f.Fault? {
        return Undefined;
      }
      if !IsFind(f, staleFrom) {
        return Code(-ENOENT);
      }
      if from == to {
        return Code(0);
      }
      var fromDentry := TargetDentry(Cfg(), Abs(), f);
      var fromId := TargetInode(Cfg(), Abs(), f);
      var mode := if IsDir(inodes[fromId]) then S_IFDIR else S_IFREG;
      var r1 := Mknod(to, mode, staleTo);
      if r1 != Code(0) {
        return r1;
      }
      var g := Lookup(to);
      if !g.Hit? {
        return Undefined;
      }
      r := RenameTail(g, fromId, fromDentry);
    }

    /** The part of juzfs_rename after the destination exists. */
    method RenameTail(g: Found, fromId: InodeId, fromDentry: Dentry) returns (r: Ret)
      requires Separate() && FoundIn(Cfg(), Abs(), g) && g.Hit?
      modifies this, mapInode, mapData
      ensures r == FsSpec.RenameTail(Cfg(), old(Abs()), g, fromId, fromDentry).1
      ensures r != Undefined ==> Abs() == FsSpec.RenameTail(Cfg(), old(Abs()), g, fromId, fromDentry).0
    {
      var r2 := DropInode(TargetInode(Cfg(), Abs(), g));
      if r2 == Undefined || g.dir !in inodes || fromId !in inodes {
        return Undefined;
      }
      var parent := inodes[g.dir];
      var entry := parent.dentrys[g.idx].(ino := inodes[fromId].ino, inode := Some(fromId));
      inodes := inodes[g.dir := parent.(dentrys := parent.dentrys[g.idx := entry])];
      if fromDentry.parent.None? || fromDentry.parent.value !in inodes || !WellFormed(inodes[fromDentry.parent.value]) {
        return Undefined;
      }
      var r3 := DropEntry(fromDentry.parent.value, fromDentry.name);
      r := if r3 == Undefined then Undefined else Code(0);
    }

    // -------------------------------------------------------------------------
    // Queries
    // -------------------------------------------------------------------------

    /** juzfs_readdir. */
    method Readdir(path: seq<char>, offset: nat, stale: bool) returns (r: Ret, e: Option<Entry>)
      requires Valid()
      ensures (r, e) == FsSpec.Readdir(Cfg(), Abs(), path, offset, stale)
    {
      var f := Lookup(path);
      if f.Fault? {
        return Undefined, None;
      }
      if !IsFind(f, stale) {
        return Code(-ENOENT), None;
      }
      var sub := Dentries.GetDentry(inodes[TargetInode(Cfg(), Abs(), f)], offset);
      r := Code(0);
      e := if sub.Some? then Some(Entry(CStr(sub.value.name), offset + 1)) else None;
    }

    /** juzfs_getattr. */
    method GetAttr(path: seq<char>, stale: bool) returns (r: Ret, a: Option<Attr>)
      requires Valid()
      ensures (r, a) == FsSpec.GetAttr(Cfg(), Abs(), path, stale)
    {
      var f := Lookup(path);
      if f.Fault? {
        return Undefined, None;
      }
      if !IsFind(f, stale) {
        return Code(-ENOENT), None;
      }
      var i := inodes[TargetInode(Cfg(), Abs(), f)];
      var attr;
      if IsDir(i) {
        attr := Attr(S_IFDIR | JFS_DEFAULT_PERM, |i.dentrys| * DENTRY_RECORD_SIZE, 1, BlkSz(ioSz), 0);
      } else {
        attr := Attr(S_IFREG | JFS_DEFAULT_PERM, i.size, 1, BlkSz(ioSz), 0);
      }
      if f.AtRoot? {
        attr := attr.(size := szUsage, blocks := |dev.bytes| / BlkSz(ioSz), nlink := 2);
      }
      r, a := Code(0), Some(attr);
    }

    // -------------------------------------------------------------------------
    // File data
    // -------------------------------------------------------------------------

    /** juzfs_write. */
    method Write(path: seq<char>, buf: seq<bv8>, offset: nat, stale: bool) returns (r: Ret)
      requires Valid()
      modifies this, dev
      ensures r == FsSpec.Write(Cfg(), old(Abs()), path, buf, offset, stale).1
      ensures r != Undefined ==> Abs() == FsSpec.Write(Cfg(), old(Abs()), path, buf, offset, stale).0 && Valid()
    {
      WriteKeepsInv(Cfg(), Abs(), path, buf, offset, stale);
      var f := Lookup(path);
      if f.Fault? {
        return Undefined;
      }
      if !IsFind(f, stale) {
        return Code(-ENOENT);
      }
      var id := TargetInode(Cfg(), Abs(), f);
      var i := inodes[id];
      if IsDir(i) {
        return Code(-EISDIR);
      }
      if i.size < offset {
        return Code(-ESPIPE);
      }
      if !SplitDefined(Cfg(), Abs(), id, offset, |buf|) {
        return Undefined;
      }
      ghost var s0 := Abs();
      assert OpenFile(Cfg(), s0, path, offset, stale) == Opened(id);
      FileIo.PiecesSumAtMost(offset, |buf|, BlkSz(ioSz), i.dataOffsets);
      var ps := FileIo.Pieces(offset, |buf|, BlkSz(ioSz), i.dataOffsets);
      WritePieces(dev, ps, buf);
      inodes := inodes[id := i.(size := if offset + |buf| > i.size then offset + |buf| else i.size)];
      r := Code(|buf|);
      assert Abs() == s0.(bytes := FileIo.WriteAll(s0.bytes, ps, buf), inodes := s0.inodes[id := inodes[id]]);
    }

    /** juzfs_read. */
    method Read(path: seq<char>, size: nat, offset: nat, stale: bool) returns (r: Ret, out: seq<bv8>)
      requires Valid()
      ensures (r, out) == FsSpec.Read(Cfg(), Abs(), path, size, offset, stale)
    {
      var f := Lookup(path);
      if f.Fault? {
        return Undefined, [];
      }
      if !IsFind(f, stale) {
        return Code(-ENOENT), [];
      }
      var id := TargetInode(Cfg(), Abs(), f);
      var i := inodes[id];
      if IsDir(i) {
        return Code(-EISDIR), [];
      }
      if i.size < offset {
        return Code(-ESPIPE), [];
      }
      if !SplitDefined(Cfg(), Abs(), id, offset, size) {
        return Undefined, [];
      }
      var ps := FileIo.Pieces(offset, size, BlkSz(ioSz), i.dataOffsets);
      out := ReadPieces(dev, ps);
      r := Code(size);
    }

    /** juzfs_truncate. The shrink branch's loop runs from `file_blks` while below `new_blks`, so it does nothing. */
    method Truncate(path: seq<char>, offset: nat, stale: bool) returns (r: Ret)
      requires Valid()
      modifies this, mapData
      ensures r == FsSpec.Truncate(Cfg(), old(Abs()), path, offset, stale).1
      ensures r != Undefined ==> Abs() == FsSpec.Truncate(Cfg(), old(Abs()), path, offset, stale).0 && Valid()
    {
      TruncateKeepsInv(Cfg(), Abs(), path, offset, stale);
      var f := Lookup(path);
      if f.Fault? {
        return Undefined;
      }
      if !IsFind(f, stale) {
        return Code(-EEXIST);
      }
      var id := TargetInode(Cfg(), Abs(), f);
      var i := inodes[id];
      if IsDir(i) {
        return Code(-EISDIR);
      }
      var blk := BlkSz(ioSz);
      var newBlks := FileIo.BlocksFor(offset, blk);
      var fileBlks := FileIo.BlocksFor(i.size, blk);
      if newBlks > JFS_DATA_PER_FILE {
        return Code(-ENOSPC);
      }
      var slots: seq<nat> := i.dataOffsets;
      ghost var s0 := Abs();
      if newBlks > fileBlks {
        slots := GrowSlots(slots, fileBlks, newBlks);
      }
      assert (Abs(), slots) == if newBlks > fileBlks then AllocRun(Cfg(), s0, i.dataOffsets, fileBlks, newBlks)
        else (s0, i.dataOffsets);
      inodes := inodes[id := i.(dataOffsets := slots, size := offset)];
      r := Code(0);
    }

    /** The grow loop of juzfs_truncate: one block allocated into each slot of `[lo, hi)`. */
    method GrowSlots(slots0: seq<nat>, lo: nat, hi: nat) returns (slots: seq<nat>)
      requires Separate() && lo <= hi <= |slots0|
      modifies mapData
      ensures (Abs(), slots) == AllocRun(Cfg(), old(Abs()), slots0, lo, hi)
    {
      ghost var goal := AllocRun(Cfg(), Abs(), slots0, lo, hi);
      slots := slots0;
      var k := lo;
      while k < hi
        invariant lo <= k <= hi && |slots| == |slots0|
        invariant goal == AllocRun(Cfg(), Abs(), slots, k, hi)
        decreases hi - k
      {
        var b := AllocDataBlk();
        slots := slots[k := b];
        k := k + 1;
      }
    }
  }
}
