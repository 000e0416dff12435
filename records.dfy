/**
 * The inode records jfs_sync_inode writes and jfs_read_inode reads back,
 * modelled as record values rather than bytes: an inode record per inode
 * number, and the dentry records of a directory in segments of eight, one
 * segment per data block.
 */
module Records {

  import opened Types
  import Dentries

  /**
   * The records on the device: inode records under their inode number (the
   * inode table slot) and dentry segments under the number of the data block
   * that holds them.
   */
  datatype Store = Store(inodeRecs: map<nat, InodeRecord>, segments: map<nat, seq<DentryRecord>>)

  /** The inode_d jfs_sync_inode fills in from an inode. */
  function RecordOf(i: Inode): InodeRecord
  {
    InodeRecord(i.ino, i.size, |i.dentrys|, i.owner.ftype, i.dataOffsets)
  }

  /** The dentry_d of one child: the whole name field, the ino and the type. */
  function DentryRecordOf(d: Dentry): DentryRecord
  {
    DentryRecord(d.name, d.ino, d.ftype)
  }

  function DentryRecords(ds: seq<Dentry>): (rs: seq<DentryRecord>)
    ensures |rs| == |ds| && forall k :: 0 <= k < |ds| ==> rs[k] == DentryRecordOf(ds[k])
  {
    seq(|ds|, k requires 0 <= k < |ds| => DentryRecordOf(ds[k]))
  }

  function Min(a: nat, b: nat): nat
  {
    if a <= b then a else b
  }

  /** Segment `b` of a record array: the (up to) eight records from index 8*b on. */
  function Segment(recs: seq<DentryRecord>, b: nat): (seg: seq<DentryRecord>)
    requires b * JFS_DENTRYS_SEG_SIZE < |recs|
    ensures |seg| == Min(JFS_DENTRYS_SEG_SIZE, |recs| - b * JFS_DENTRYS_SEG_SIZE)
    ensures forall j :: 0 <= j < |seg| ==> seg[j] == recs[b * JFS_DENTRYS_SEG_SIZE + j]
  {
    var lo := b * JFS_DENTRYS_SEG_SIZE;
    recs[lo .. lo + Min(JFS_DENTRYS_SEG_SIZE, |recs| - lo)]
  }

  /** The segment loop of jfs_sync_inode from segment `b` to `count - 1`: segment b goes to the block in slot b. */
  function WriteSegments(segs: map<nat, seq<DentryRecord>>, recs: seq<DentryRecord>, slots: seq<nat>,
                         b: nat, count: nat): map<nat, seq<DentryRecord>>
    requires count <= |slots| && (count == 0 || (count - 1) * JFS_DENTRYS_SEG_SIZE < |recs|)
    decreases count - b
  {
    if b >= count then segs
    else WriteSegments(segs[slots[b] := Segment(recs, b)], recs, slots, b + 1, count)
  }

  /**
   * With distinct slots, the block of every slot the loop visits ends up
   * holding that slot's segment, and every other block keeps what it held.
   */
  lemma {:induction false} WriteSegmentsContents(segs: map<nat, seq<DentryRecord>>, recs: seq<DentryRecord>,
                                                 slots: seq<nat>, b: nat, count: nat)
    requires count <= |slots| && (count == 0 || (count - 1) * JFS_DENTRYS_SEG_SIZE < |recs|)
    requires forall x, y :: b <= x < y < count ==> slots[x] != slots[y]
    ensures var w := WriteSegments(segs, recs, slots, b, count);
      && (forall x :: b <= x < count ==> slots[x] in w && w[slots[x]] == Segment(recs, x))
      && (forall key :: key in segs && (forall x :: b <= x < count ==> slots[x] != key) ==>
            key in w && w[key] == segs[key])
    decreases count - b
  {
    if b < count {
      var segs' := segs[slots[b] := Segment(recs, b)];
      WriteSegmentsContents(segs', recs, slots, b + 1, count);
    }
  }

  /** The inodes jfs_sync_inode handles: six slots, at most six segments of children. */
  predicate Syncable(i: Inode)
  {
    |i.dataOffsets| == JFS_DATA_PER_FILE && |i.dentrys| <= JFS_DATA_PER_FILE * JFS_DENTRYS_SEG_SIZE
  }

  /**
   * jfs_sync_inode on one inode, as written: the inode record, then for a
   * directory only `dir_cnt / 8` segments, the full ones. The recursive sync
   * of loaded children is the same step applied to each child.
   */
  function SyncInode(st: Store, i: Inode): Store
    requires Syncable(i)
  {
    var st1 := st.(inodeRecs := st.inodeRecs[i.ino := RecordOf(i)]);
    if IsDir(i) then
      st1.(segments := WriteSegments(st.segments, DentryRecords(i.dentrys), i.dataOffsets,
                                     0, |i.dentrys| / JFS_DENTRYS_SEG_SIZE))
    else st1
  }

  // ---------------------------------------------------------------------------
  // Reloading, as written
  // ---------------------------------------------------------------------------

  /**
   * An inode as jfs_read_inode leaves it. The reload does not keep the child
   * count equal to the number of children, so the child array is kept slot by
   * slot: `entries` are the first `dirCnt` slots once the array exists (empty,
   * with `listSize` 0, while it is still NULL), and None marks a slot holding
   * uninitialised memory.
   */
  datatype Reloaded = Reloaded(ino: nat, size: nat, owner: Dentry, dirCnt: nat,
                               entries: seq<Option<Dentry>>, listSize: nat, dataOffsets: seq<nat>)

  function Nones(n: nat): (r: seq<Option<Dentry>>)
    ensures |r| == n && forall k :: 0 <= k < n ==> r[k].None?
  {
    seq(n, _ => None)
  }

  /** The first `n` slots of an array after realloc: the old contents, then uninitialised slots. */
  function Pad(e: seq<Option<Dentry>>, n: nat): (r: seq<Option<Dentry>>)
    ensures |r| == n
  {
    if |e| <= n then e + Nones(n - |e|) else e[..n]
  }

  /**
   * Entry `k` of the buffer jfs_read_inode fills: the record at position
   * k % 8 of segment k / 8 when that segment was read and holds it, otherwise
   * uninitialised.
   */
  function BufferEntry(segs: map<nat, seq<DentryRecord>>, slots: seq<nat>, count: nat, k: nat): Option<DentryRecord>
    requires count <= |slots|
  {
    var b := k / JFS_DENTRYS_SEG_SIZE;
    if b < count && slots[b] in segs && k % JFS_DENTRYS_SEG_SIZE < |segs[slots[b]]|
    then Some(segs[slots[b]][k % JFS_DENTRYS_SEG_SIZE])
    else None
  }

  /** The buffer of `dirCnt` records after reading `count` segments. */
  function ReadBuffer(segs: map<nat, seq<DentryRecord>>, slots: seq<nat>, dirCnt: nat, count: nat)
    : (buf: seq<Option<DentryRecord>>)
    requires count <= |slots|
    ensures |buf| == dirCnt && forall k :: 0 <= k < dirCnt ==> buf[k] == BufferEntry(segs, slots, count, k)
  {
    seq(dirCnt, k requires 0 <= k < dirCnt => BufferEntry(segs, slots, count, k))
  }

  /**
   * The dentry new_dentry builds from a buffer entry, with the ino copied
   * over; None when the entry or the type it is given is uninitialised or the
   * name field holds no terminated name.
   */
  function ChildFrom(rec: Option<DentryRecord>, ftype: Option<FileType>, parent: Option<InodeId>): Option<Dentry>
  {
    if rec.Some? && ftype.Some? && NameOk(CStr(rec.value.name))
    then Some(NewDentry(CStr(rec.value.name), parent, ftype.value).(ino := rec.value.ino))
    else None
  }

  /**
   * jfs_alloc_dentry without a data block on a reloaded inode: the same
   * capacity rule as Dentries.AllocDentry, on the slot-level array.
   */
  function AllocSlot(l: Reloaded, child: Option<Dentry>): Reloaded
  {
    var n := l.dirCnt;
    if l.listSize < n + 1 then
      var newListSize := Dentries.GrownListSize(n);
      if newListSize / JFS_DENTRYS_SEG_SIZE > JFS_DATA_PER_FILE then l
      else l.(entries := Pad(l.entries, n) + [child], listSize := newListSize, dirCnt := n + 1)
    else l.(entries := Pad(l.entries, n) + [child], dirCnt := n + 1)
  }

  /** The child loop of jfs_read_inode from entry `k` on: every child typed `ftype`, the first record's type. */
  function AddChildren(l: Reloaded, buf: seq<Option<DentryRecord>>, ftype: Option<FileType>,
                       parent: Option<InodeId>, k: nat): Reloaded
    requires k <= |buf|
    decreases |buf| - k
  {
    if k == |buf| then l
    else AddChildren(AllocSlot(l, ChildFrom(buf[k], ftype, parent)), buf, ftype, parent, k + 1)
  }

  /**
   * jfs_read_inode, as written, for `dentry` and inode number `ino`; the new
   * inode gets the handle `handle`, which its children take as their parent.
   * The child count is set to the record's count before the children are
   * appended, only `dir_cnt / 8` segments are read, and every child takes
   * the first record's type. None when the record was never written or the
   * segment loop would read past the six slots.
   */
  function ReadInode(st: Store, dentry: Dentry, ino: nat, handle: InodeId): Option<Reloaded>
  {
    if ino !in st.inodeRecs then None
    else
      var rec := st.inodeRecs[ino];
      var base := Reloaded(rec.ino, rec.size, dentry, 0, [], 0, rec.dataOffsets);
      if dentry.ftype != Dir then Some(base)
      else if rec.dirCnt / JFS_DENTRYS_SEG_SIZE > |rec.dataOffsets| then None
      else
        var buf := ReadBuffer(st.segments, rec.dataOffsets, rec.dirCnt, rec.dirCnt / JFS_DENTRYS_SEG_SIZE);
        var ftype := if rec.dirCnt > 0 && buf[0].Some? then Some(buf[0].value.ftype) else None;
        Some(AddChildren(base.(dirCnt := rec.dirCnt), buf, ftype, Some(handle), 0))
  }

  /** Once growth is refused, every further append is refused too and nothing changes. */
  lemma {:induction false} AddChildrenRefused(l: Reloaded, buf: seq<Option<DentryRecord>>, ftype: Option<FileType>,
                                              parent: Option<InodeId>, k: nat)
    requires k <= |buf| && l.listSize == 0 && l.dirCnt >= JFS_DATA_PER_FILE
    ensures AddChildren(l, buf, ftype, parent, k) == l
    decreases |buf| - k
  {
    if k < |buf| {
      assert AllocSlot(l, ChildFrom(buf[k], ftype, parent)) == l;
      AddChildrenRefused(l, buf, ftype, parent, k + 1);
    }
  }

  /** Within the capacity, uninitialised entries are appended one by one. */
  lemma {:induction false} AddChildrenUninitialised(l: Reloaded, buf: seq<Option<DentryRecord>>,
                                                    ftype: Option<FileType>, parent: Option<InodeId>, k: nat)
    requires k <= |buf| && |l.entries| == l.dirCnt && l.dirCnt + (|buf| - k) <= l.listSize
    requires forall j :: k <= j < |buf| ==> buf[j].None?
    ensures var r := AddChildren(l, buf, ftype, parent, k);
      && r.dirCnt == l.dirCnt + (|buf| - k) && r.entries == l.entries + Nones(|buf| - k)
      && r.listSize == l.listSize && r.ino == l.ino && r.size == l.size && r.dataOffsets == l.dataOffsets
    decreases |buf| - k
  {
    if k < |buf| {
      var l' := AllocSlot(l, ChildFrom(buf[k], ftype, parent));
      assert Pad(l.entries, l.dirCnt) == l.entries;
      assert l' == l.(entries := l.entries + [None], dirCnt := l.dirCnt + 1);
      AddChildrenUninitialised(l', buf, ftype, parent, k + 1);
      assert l.entries + [None] + Nones(|buf| - (k + 1)) == l.entries + Nones(|buf| - k);
    } else {
      assert l.entries + Nones(0) == l.entries;
    }
  }

  /**
   * Syncing a directory with children and reading it back does not give the
   * children back. With one to five children no segment is written, the
   * count is doubled and every slot is uninitialised; with six or more the
   * first append already needs a seventh segment, so the count stays while
   * the child array is never allocated.
   */
  lemma ReloadLosesChildren(st: Store, i: Inode, handle: InodeId)
    requires Syncable(i) && IsDir(i) && |i.dentrys| > 0
    ensures var r := ReadInode(SyncInode(st, i), i.owner, i.ino, handle);
      && r.Some? && r.value.ino == i.ino && r.value.size == i.size && r.value.dataOffsets == i.dataOffsets
      && (|i.dentrys| < JFS_DATA_PER_FILE ==>
            && r.value.dirCnt == 2 * |i.dentrys| && |r.value.entries| == 2 * |i.dentrys|
            && forall k :: 0 <= k < |r.value.entries| ==> r.value.entries[k].None?)
      && (|i.dentrys| >= JFS_DATA_PER_FILE ==>
            r.value.dirCnt == |i.dentrys| && r.value.entries == [] && r.value.listSize == 0)
  {
    var n := |i.dentrys|;
    var st' := SyncInode(st, i);
    var rec := st'.inodeRecs[i.ino];
    assert rec == RecordOf(i);
    var base := Reloaded(rec.ino, rec.size, i.owner, 0, [], 0, rec.dataOffsets);
    var buf := ReadBuffer(st'.segments, rec.dataOffsets, n, n / JFS_DENTRYS_SEG_SIZE);
    var ftype := if buf[0].Some? then Some(buf[0].value.ftype) else None;
    var l0 := base.(dirCnt := n);
    if n < JFS_DATA_PER_FILE {
      assert n / JFS_DENTRYS_SEG_SIZE == 0;
      assert forall j :: 0 <= j < n ==> buf[j].None?;
      var l1 := AllocSlot(l0, ChildFrom(buf[0], ftype, Some(handle)));
      assert l1 == l0.(entries := Nones(n) + [None], listSize := (n + 1) * JFS_DENTRYS_SEG_SIZE, dirCnt := n + 1);
      AddChildrenUninitialised(l1, buf, ftype, Some(handle), 1);
    } else {
      AddChildrenRefused(l0, buf, ftype, Some(handle), 0);
    }
  }

  // ---------------------------------------------------------------------------
  // Syncing and reloading, as intended
  // ---------------------------------------------------------------------------

  /** The number of segments `n` children occupy: `n` rounded up to whole segments. */
  function SegmentCount(n: nat): (c: nat)
    ensures n <= c * JFS_DENTRYS_SEG_SIZE < n + JFS_DENTRYS_SEG_SIZE
    ensures c == 0 || (c - 1) * JFS_DENTRYS_SEG_SIZE < n
    ensures n <= JFS_DATA_PER_FILE * JFS_DENTRYS_SEG_SIZE ==> c <= JFS_DATA_PER_FILE
  {
    var r := RoundUp(n, JFS_DENTRYS_SEG_SIZE);
    assert r == (r / JFS_DENTRYS_SEG_SIZE) * JFS_DENTRYS_SEG_SIZE;
    r / JFS_DENTRYS_SEG_SIZE
  }

  /** jfs_sync_inode writing every segment that holds a child, the last one possibly partial. */
  function IntendedSyncInode(st: Store, i: Inode): Store
    requires Syncable(i)
  {
    var st1 := st.(inodeRecs := st.inodeRecs[i.ino := RecordOf(i)]);
    if IsDir(i) then
      st1.(segments := WriteSegments(st.segments, DentryRecords(i.dentrys), i.dataOffsets,
                                     0, SegmentCount(|i.dentrys|)))
    else st1
  }

  /** Buffer entries that all hold a record with a terminated name. */
  predicate Loadable(buf: seq<Option<DentryRecord>>)
  {
    forall k :: 0 <= k < |buf| ==> buf[k].Some? && NameOk(CStr(buf[k].value.name))
  }

  /** The dentry new_dentry builds from a loadable record, with the ino copied over. */
  function ChildOf(rec: DentryRecord, parent: Option<InodeId>): Dentry
    requires NameOk(CStr(rec.name))
  {
    NewDentry(CStr(rec.name), parent, rec.ftype).(ino := rec.ino)
  }

  /** The child loop from entry `k` on, each child with its own record's type, appended with the intended capacity. */
  function IntendedChildren(i: Inode, buf: seq<Option<DentryRecord>>, parent: Option<InodeId>, k: nat): Inode
    requires k <= |buf| && Loadable(buf) && |i.dataOffsets| == JFS_DATA_PER_FILE
    decreases |buf| - k
  {
    if k == |buf| then i
    else
      var (i', _) := Dentries.IntendedAllocDentry(i, ChildOf(buf[k].value, parent), None);
      IntendedChildren(i', buf, parent, k + 1)
  }

  /**
   * jfs_read_inode as intended: the count starts at zero and grows with each
   * appended child, every segment holding a child is read, and each child
   * keeps its own type. None when the record was never written, the count
   * exceeds six segments or an entry cannot be loaded.
   */
  function IntendedReadInode(st: Store, dentry: Dentry, ino: nat, handle: InodeId): Option<Inode>
  {
    if ino !in st.inodeRecs then None
    else
      var rec := st.inodeRecs[ino];
      var base := Inode(rec.ino, rec.size, dentry, [], 0, rec.dataOffsets);
      if dentry.ftype != Dir then Some(base)
      else if |rec.dataOffsets| != JFS_DATA_PER_FILE || rec.dirCnt > JFS_DATA_PER_FILE * JFS_DENTRYS_SEG_SIZE then None
      else
        var buf := ReadBuffer(st.segments, rec.dataOffsets, rec.dirCnt, SegmentCount(rec.dirCnt));
        if !Loadable(buf) then None
        else Some(IntendedChildren(base, buf, Some(handle), 0))
  }

  /** The reloaded child `k`: the name, ino and type of its record, not loaded, under the new parent. */
  predicate ReloadedChild(d: Dentry, rec: DentryRecord, parent: Option<InodeId>)
  {
    CStr(d.name) == CStr(rec.name) && d.ino == rec.ino && d.ftype == rec.ftype
    && d.inode.None? && d.parent == parent
  }

  /** One step of the child loop: the reloaded child is appended and the capacity stays at whole segments. */
  lemma AppendReloaded(i: Inode, rec: DentryRecord, parent: Option<InodeId>)
    requires |i.dataOffsets| == JFS_DATA_PER_FILE && Dentries.SegmentsFit(i)
    requires |i.dentrys| < JFS_DATA_PER_FILE * JFS_DENTRYS_SEG_SIZE && NameOk(CStr(rec.name))
    ensures var i' := Dentries.IntendedAllocDentry(i, ChildOf(rec, parent), None).0;
      && i'.dentrys == i.dentrys + [ChildOf(rec, parent)] && Dentries.SegmentsFit(i')
      && i'.ino == i.ino && i'.size == i.size && i'.owner == i.owner && i'.dataOffsets == i.dataOffsets
      && ReloadedChild(ChildOf(rec, parent), rec, parent)
  {
    Dentries.IntendedCapacity(i, ChildOf(rec, parent), None);
  }

  /** The child loop from `k` is one append followed by the loop from `k + 1`. */
  lemma ChildrenStep(i: Inode, buf: seq<Option<DentryRecord>>, parent: Option<InodeId>, k: nat)
    requires k < |buf| <= JFS_DATA_PER_FILE * JFS_DENTRYS_SEG_SIZE && Loadable(buf)
    requires |i.dataOffsets| == JFS_DATA_PER_FILE && |i.dentrys| == k && Dentries.SegmentsFit(i)
    ensures var i' := Dentries.IntendedAllocDentry(i, ChildOf(buf[k].value, parent), None).0;
      && IntendedChildren(i, buf, parent, k) == IntendedChildren(i', buf, parent, k + 1)
      && i'.dentrys == i.dentrys + [ChildOf(buf[k].value, parent)] && Dentries.SegmentsFit(i')
      && i'.ino == i.ino && i'.size == i.size && i'.owner == i.owner && i'.dataOffsets == i.dataOffsets
      && ReloadedChild(ChildOf(buf[k].value, parent), buf[k].value, parent)
  {
    AppendReloaded(i, buf[k].value, parent);
  }

  /** The child loop appends one reloaded child per entry and keeps the capacity at whole segments. */
  lemma {:induction false} IntendedChildrenOutcome(i: Inode, buf: seq<Option<DentryRecord>>,
                                                   parent: Option<InodeId>, k: nat)
    requires k <= |buf| <= JFS_DATA_PER_FILE * JFS_DENTRYS_SEG_SIZE && Loadable(buf)
    requires |i.dataOffsets| == JFS_DATA_PER_FILE && |i.dentrys| == k && Dentries.SegmentsFit(i)
    ensures var r := IntendedChildren(i, buf, parent, k);
      && |r.dentrys| == |buf| && r.dentrys[..k] == i.dentrys && Dentries.SegmentsFit(r)
      && r.ino == i.ino && r.size == i.size && r.owner == i.owner && r.dataOffsets == i.dataOffsets
      && forall j :: k <= j < |buf| ==> ReloadedChild(r.dentrys[j], buf[j].value, parent)
    decreases |buf| - k
  {
    if k < |buf| {
      var child := ChildOf(buf[k].value, parent);
      var i' := Dentries.IntendedAllocDentry(i, child, None).0;
      ChildrenStep(i, buf, parent, k);
      IntendedChildrenOutcome(i', buf, parent, k + 1);
      var r := IntendedChildren(i', buf, parent, k + 1);
      assert r.dentrys[..k + 1] == i.dentrys + [child];
      assert r.dentrys[k] == child by {
        assert r.dentrys[k] == r.dentrys[..k + 1][k];
      }
      assert r.dentrys[..k] == i.dentrys by {
        assert r.dentrys[..k] == r.dentrys[..k + 1][..k];
      }
      forall j | k <= j < |buf|
        ensures ReloadedChild(r.dentrys[j], buf[j].value, parent)
      {
        if j == k {
          assert r.dentrys[j] == child;
        }
      }
    } else {
      assert i.dentrys[..k] == i.dentrys;
    }
  }

  /** Reading back the segments the intended sync wrote yields the records of the children, in order. */
  lemma IntendedBufferIsRecords(st: Store, i: Inode)
    requires Syncable(i) && IsDir(i)
    requires forall x, y :: 0 <= x < y < SegmentCount(|i.dentrys|) ==> i.dataOffsets[x] != i.dataOffsets[y]
    ensures var st' := IntendedSyncInode(st, i);
      ReadBuffer(st'.segments, i.dataOffsets, |i.dentrys|, SegmentCount(|i.dentrys|))
        == seq(|i.dentrys|, k requires 0 <= k < |i.dentrys| => Some(DentryRecordOf(i.dentrys[k])))
  {
    var n := |i.dentrys|;
    var c := SegmentCount(n);
    var recs := DentryRecords(i.dentrys);
    var st' := IntendedSyncInode(st, i);
    WriteSegmentsContents(st.segments, recs, i.dataOffsets, 0, c);
    var buf := ReadBuffer(st'.segments, i.dataOffsets, n, c);
    forall k | 0 <= k < n
      ensures buf[k] == Some(DentryRecordOf(i.dentrys[k]))
    {
      SegmentEntry(st'.segments, recs, i.dataOffsets, c, k);
    }
  }

  /** Record `k` is found at its place in segment `k / 8` once every segment is written. */
  lemma SegmentEntry(segs: map<nat, seq<DentryRecord>>, recs: seq<DentryRecord>, slots: seq<nat>, c: nat, k: nat)
    requires c <= |slots| && c == SegmentCount(|recs|) && k < |recs|
    requires forall x :: 0 <= x < c ==> slots[x] in segs && segs[slots[x]] == Segment(recs, x)
    ensures BufferEntry(segs, slots, c, k) == Some(recs[k])
  {
    var b := k / JFS_DENTRYS_SEG_SIZE;
    var j := k % JFS_DENTRYS_SEG_SIZE;
    assert k == b * JFS_DENTRYS_SEG_SIZE + j;
    assert b < c;
    assert segs[slots[b]] == Segment(recs, b);
  }

  /**
   * The intended sync and reload round-trip: a file comes back with its
   * number, size and slots; a directory whose segments sit in distinct blocks
   * and whose children carry terminated names comes back with the same
   * children, in order, each with its name, ino and type, not loaded and
   * under the new parent, and with a capacity of whole segments.
   */
  lemma IntendedSyncReadRoundTrip(st: Store, i: Inode, handle: InodeId)
    requires Syncable(i)
    requires forall k :: 0 <= k < |i.dentrys| ==> NameOk(CStr(i.dentrys[k].name))
    requires forall x, y :: 0 <= x < y < SegmentCount(|i.dentrys|) ==> i.dataOffsets[x] != i.dataOffsets[y]
    ensures var r := IntendedReadInode(IntendedSyncInode(st, i), i.owner, i.ino, handle);
      && r.Some? && r.value.ino == i.ino && r.value.size == i.size && r.value.owner == i.owner
      && r.value.dataOffsets == i.dataOffsets
      && (IsFile(i) ==> r.value.dentrys == [] && r.value.listSize == 0)
      && (IsDir(i) ==>
            && |r.value.dentrys| == |i.dentrys| && Dentries.SegmentsFit(r.value)
            && forall k :: 0 <= k < |i.dentrys| ==>
                 ReloadedChild(r.value.dentrys[k], DentryRecordOf(i.dentrys[k]), Some(handle)))
  {
    var st' := IntendedSyncInode(st, i);
    assert st'.inodeRecs[i.ino] == RecordOf(i);
    if IsDir(i) {
      var n := |i.dentrys|;
      IntendedBufferIsRecords(st, i);
      var buf := ReadBuffer(st'.segments, i.dataOffsets, n, SegmentCount(n));
      assert Loadable(buf);
      var base := Inode(i.ino, i.size, i.owner, [], 0, i.dataOffsets);
      IntendedChildrenOutcome(base, buf, Some(handle), 0);
    }
  }
}
