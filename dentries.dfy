/**
 * A directory inode's child list: the name scans, appending a child with the
 * segment-wise growth of jfs_alloc_dentry, removal with juzfs_drop_dentry,
 * and positional access with jfs_get_dentry. Children live in segments of
 * JFS_DENTRYS_SEG_SIZE entries, one data block per segment, at most
 * JFS_DATA_PER_FILE segments.
 */
module Dentries {

  import opened Types

  // ---------------------------------------------------------------------------
  // Scans
  // ---------------------------------------------------------------------------

  function FirstMatchFrom(ds: seq<Dentry>, fname: seq<char>, from: nat): (r: Option<nat>)
    requires from <= |ds|
    ensures r.Some? ==> from <= r.value < |ds| && NameMatches(ds[r.value].name, fname)
    ensures r.Some? ==> forall j :: from <= j < r.value ==> !NameMatches(ds[j].name, fname)
    ensures r.None? ==> forall j :: from <= j < |ds| ==> !NameMatches(ds[j].name, fname)
    decreases |ds| - from
  {
    if from == |ds| then None
    else if NameMatches(ds[from].name, fname) then Some(from)
    else FirstMatchFrom(ds, fname, from + 1)
  }

  /** The scan in jfs_lookup: the first child whose name field starts with `fname`. */
  function FirstMatch(ds: seq<Dentry>, fname: seq<char>): (r: Option<nat>)
    ensures r.Some? ==> r.value < |ds| && NameMatches(ds[r.value].name, fname)
    ensures r.Some? ==> forall j :: 0 <= j < r.value ==> !NameMatches(ds[j].name, fname)
    ensures r.None? ==> forall j :: 0 <= j < |ds| ==> !NameMatches(ds[j].name, fname)
  {
    FirstMatchFrom(ds, fname, 0)
  }

  /** The first match is the one position that matches with no match before it. */
  lemma FirstMatchIs(ds: seq<Dentry>, fname: seq<char>, r: Option<nat>)
    requires r.Some? ==> r.value < |ds| && NameMatches(ds[r.value].name, fname)
                         && forall j :: 0 <= j < r.value ==> !NameMatches(ds[j].name, fname)
    requires r.None? ==> forall j :: 0 <= j < |ds| ==> !NameMatches(ds[j].name, fname)
    ensures FirstMatch(ds, fname) == r
  {
  }

  /** The scan reads names only: two lists with the same names give the same first match. */
  lemma FirstMatchByNames(ds: seq<Dentry>, es: seq<Dentry>, fname: seq<char>)
    requires |ds| == |es| && forall j :: 0 <= j < |ds| ==> ds[j].name == es[j].name
    ensures FirstMatch(ds, fname) == FirstMatch(es, fname)
  {
    FirstMatchIs(es, fname, FirstMatch(ds, fname));
  }

  /**
   * Appending a child keeps a match already found; on a miss the appended
   * child is found, at the end, exactly when the component names it.
   */
  lemma FirstMatchAppend(ds: seq<Dentry>, e: Dentry, fname: seq<char>)
    ensures FirstMatch(ds, fname).Some? ==> FirstMatch(ds + [e], fname) == FirstMatch(ds, fname)
    ensures FirstMatch(ds, fname).None? ==>
      FirstMatch(ds + [e], fname) == (if NameMatches(e.name, fname) then Some(|ds|) else None)
  {
    var es := ds + [e];
    assert forall j :: 0 <= j < |ds| ==> es[j] == ds[j];
    if FirstMatch(ds, fname).Some? {
      FirstMatchIs(es, fname, FirstMatch(ds, fname));
    } else {
      FirstMatchIs(es, fname, if NameMatches(e.name, fname) then Some(|ds|) else None);
    }
  }

  /** Children added at the end never change a match already found. */
  lemma FirstMatchExtend(ds: seq<Dentry>, es: seq<Dentry>, fname: seq<char>)
    requires |ds| <= |es| && es[..|ds|] == ds && FirstMatch(ds, fname).Some?
    ensures FirstMatch(es, fname) == FirstMatch(ds, fname)
  {
    assert forall j :: 0 <= j < |ds| ==> es[j] == ds[j];
    FirstMatchIs(es, fname, FirstMatch(ds, fname));
  }

  /**
   * Removing child `k` keeps a miss a miss and every other match, one place
   * lower when it lay past `k`.
   */
  lemma FirstMatchRemove(ds: seq<Dentry>, k: nat, fname: seq<char>)
    requires k < |ds|
    ensures var rest := ds[..k] + ds[k + 1..];
      var m := FirstMatch(ds, fname);
      && (m.None? ==> FirstMatch(rest, fname).None?)
      && (m.Some? && m.value != k ==> FirstMatch(rest, fname) == Some(if m.value < k then m.value else m.value - 1))
  {
    var rest := ds[..k] + ds[k + 1..];
    assert forall j :: 0 <= j < |rest| ==> rest[j] == (if j < k then ds[j] else ds[j + 1]);
    var m := FirstMatch(ds, fname);
    if m.None? {
      FirstMatchIs(rest, fname, None);
    } else if m.value != k {
      FirstMatchIs(rest, fname, Some(if m.value < k then m.value else m.value - 1));
    }
  }

  /**
   * The child the lookup scan finds for a component without NUL is also the
   * first child the drop scan finds by that child's own name, in any list
   * that agrees on the names up to it.
   */
  lemma FirstNamedOfMatch(ds: seq<Dentry>, es: seq<Dentry>, fname: seq<char>, k: nat)
    requires FirstMatch(ds, fname) == Some(k) && forall i :: 0 <= i < |fname| ==> fname[i] != '\0'
    requires k < |es| && forall j :: 0 <= j <= k ==> es[j].name == ds[j].name
    ensures FirstNamed(es, ds[k].name) == Some(k)
  {
    MatchesByCStr(ds[k].name, fname);
    forall j | 0 <= j < k
      ensures CStr(es[j].name) != CStr(ds[k].name)
    {
      MatchesByCStr(ds[j].name, fname);
    }
  }

  function FirstNamedFrom(ds: seq<Dentry>, name: seq<char>, from: nat): (r: Option<nat>)
    requires from <= |ds|
    ensures r.Some? ==> from <= r.value < |ds| && CStr(ds[r.value].name) == CStr(name)
    ensures r.Some? ==> forall j :: from <= j < r.value ==> CStr(ds[j].name) != CStr(name)
    ensures r.None? ==> forall j :: from <= j < |ds| ==> CStr(ds[j].name) != CStr(name)
    decreases |ds| - from
  {
    if from == |ds| then None
    else if CStr(ds[from].name) == CStr(name) then Some(from)
    else FirstNamedFrom(ds, name, from + 1)
  }

  /** The scan in juzfs_drop_dentry: the first child whose name equals `name` by strcmp. */
  function FirstNamed(ds: seq<Dentry>, name: seq<char>): (r: Option<nat>)
    ensures r.Some? ==> r.value < |ds| && CStr(ds[r.value].name) == CStr(name)
    ensures r.Some? ==> forall j :: 0 <= j < r.value ==> CStr(ds[j].name) != CStr(name)
    ensures r.None? ==> forall j :: 0 <= j < |ds| ==> CStr(ds[j].name) != CStr(name)
  {
    FirstNamedFrom(ds, name, 0)
  }

  // ---------------------------------------------------------------------------
  // Appending a child
  // ---------------------------------------------------------------------------

  /** The capacity jfs_alloc_dentry grows to, as the unparenthesised macro computes it. */
  function GrownListSize(dirCnt: nat): (n: nat)
    ensures n == (dirCnt + 1) * JFS_DENTRYS_SEG_SIZE
  {
    RoundUpOfSumExpandedIsScaled(dirCnt);
    RoundUpOfSumExpanded(dirCnt, 1, JFS_DENTRYS_SEG_SIZE)
  }

  /** The capacity the growth step is meant to reach: `dir_cnt + 1` rounded up to whole segments. */
  function IntendedListSize(dirCnt: nat): (n: nat)
    ensures n % JFS_DENTRYS_SEG_SIZE == 0 && dirCnt + 1 <= n < dirCnt + 1 + JFS_DENTRYS_SEG_SIZE
  {
    RoundUp(dirCnt + 1, JFS_DENTRYS_SEG_SIZE)
  }

  /** The capacity check of jfs_alloc_dentry: the array has no room for one more child. */
  predicate Full(i: Inode)
  {
    i.listSize < |i.dentrys| + 1
  }

  /**
   * jfs_alloc_dentry's logic once the new capacity is known: when the array is
   * full, fail with -ENOSPC if the capacity needs more than six segments,
   * otherwise grow it and, if a block was allocated, store it in the last
   * segment's slot; then append the child and return the new count.
   */
  function AppendWith(i: Inode, d: Dentry, blk: Option<nat>, newListSize: nat): (r: (Inode, int))
    requires |i.dataOffsets| == JFS_DATA_PER_FILE && newListSize >= JFS_DENTRYS_SEG_SIZE
  {
    if Full(i) then
      if newListSize / JFS_DENTRYS_SEG_SIZE > JFS_DATA_PER_FILE then (i, -ENOSPC)
      else
        var slots := if blk.Some? then i.dataOffsets[newListSize / JFS_DENTRYS_SEG_SIZE - 1 := blk.value]
                     else i.dataOffsets;
        (i.(dentrys := i.dentrys + [d], listSize := newListSize, dataOffsets := slots), |i.dentrys| + 1)
    else
      (i.(dentrys := i.dentrys + [d]), |i.dentrys| + 1)
  }

  /** jfs_alloc_dentry: `blk` is what jfs_alloc_data_blk returned, if it was called. */
  function AllocDentry(i: Inode, d: Dentry, blk: Option<nat>): (r: (Inode, int))
    requires |i.dataOffsets| == JFS_DATA_PER_FILE
  {
    AppendWith(i, d, blk, GrownListSize(|i.dentrys|))
  }

  /** Whether jfs_alloc_dentry reaches its call of jfs_alloc_data_blk (given `alloc_d`). */
  predicate AllocatesBlock(i: Inode)
  {
    Full(i) && GrownListSize(|i.dentrys|) / JFS_DENTRYS_SEG_SIZE <= JFS_DATA_PER_FILE
  }

  /**
   * The outcomes of jfs_alloc_dentry: -ENOSPC exactly when the array is full
   * and a seventh segment would be needed, leaving the inode as it was;
   * otherwise the child is appended after the existing ones, the count is
   * returned, and only the capacity and the new segment's slot change.
   */
  lemma AllocDentryOutcome(i: Inode, d: Dentry, blk: Option<nat>)
    requires |i.dataOffsets| == JFS_DATA_PER_FILE
    ensures var (i', ret) := AllocDentry(i, d, blk);
      && (ret == -ENOSPC <==> Full(i) && !AllocatesBlock(i))
      && (ret == -ENOSPC ==> i' == i)
      && (ret != -ENOSPC ==>
            && ret == |i.dentrys| + 1 && i'.dentrys == i.dentrys + [d]
            && i'.ino == i.ino && i'.size == i.size && i'.owner == i.owner
            && |i'.dataOffsets| == JFS_DATA_PER_FILE)
      && (!Full(i) ==> i'.listSize == i.listSize && i'.dataOffsets == i.dataOffsets)
      && (AllocatesBlock(i) ==> i'.listSize == (|i.dentrys| + 1) * JFS_DENTRYS_SEG_SIZE)
      && (AllocatesBlock(i) && blk.Some? ==> i'.dataOffsets == i.dataOffsets[|i.dentrys| := blk.value])
      && (AllocatesBlock(i) && blk.None? ==> i'.dataOffsets == i.dataOffsets)
  {
    var n := |i.dentrys|;
    assert GrownListSize(n) / JFS_DENTRYS_SEG_SIZE == n + 1;
  }

  /** jfs_alloc_dentry with the capacity it is meant to compute. */
  function IntendedAllocDentry(i: Inode, d: Dentry, blk: Option<nat>): (r: (Inode, int))
    requires |i.dataOffsets| == JFS_DATA_PER_FILE
  {
    AppendWith(i, d, blk, IntendedListSize(|i.dentrys|))
  }

  /** The capacity is the child count rounded up to whole segments. */
  predicate SegmentsFit(i: Inode)
  {
    i.listSize == RoundUp(|i.dentrys|, JFS_DENTRYS_SEG_SIZE)
  }

  /**
   * As written, a directory whose capacity matches its children never holds
   * more than one segment: appending is refused exactly at the ninth child.
   */
  lemma AsWrittenCapacity(i: Inode, d: Dentry, blk: Option<nat>)
    requires |i.dataOffsets| == JFS_DATA_PER_FILE
    requires SegmentsFit(i) && |i.dentrys| <= JFS_DENTRYS_SEG_SIZE
    ensures AllocDentry(i, d, blk).1 == -ENOSPC <==> |i.dentrys| == JFS_DENTRYS_SEG_SIZE
    ensures AllocDentry(i, d, blk).1 != -ENOSPC ==>
      SegmentsFit(AllocDentry(i, d, blk).0) && |AllocDentry(i, d, blk).0.dentrys| <= JFS_DENTRYS_SEG_SIZE
  {
    AllocDentryOutcome(i, d, blk);
  }

  /** The ninth child of a directory holding eight is refused. */
  lemma NinthChildRefused(i: Inode, d: Dentry, blk: Option<nat>)
    requires |i.dataOffsets| == JFS_DATA_PER_FILE
    requires |i.dentrys| == 8 && i.listSize == 8
    ensures AllocDentry(i, d, blk) == (i, -ENOSPC)
    ensures IntendedAllocDentry(i, d, blk).1 == 9
  {
  }

  /**
   * With the intended capacity the segments stay matched to the children and
   * a directory holds up to 48 children (six segments of eight); a new
   * segment's block goes into the slot of that segment.
   */
  lemma IntendedCapacity(i: Inode, d: Dentry, blk: Option<nat>)
    requires |i.dataOffsets| == JFS_DATA_PER_FILE
    requires SegmentsFit(i) && |i.dentrys| <= JFS_DATA_PER_FILE * JFS_DENTRYS_SEG_SIZE
    ensures var (i', ret) := IntendedAllocDentry(i, d, blk);
      && (ret == -ENOSPC <==> |i.dentrys| == JFS_DATA_PER_FILE * JFS_DENTRYS_SEG_SIZE)
      && (ret != -ENOSPC ==> SegmentsFit(i') && i'.dentrys == i.dentrys + [d] && ret == |i'.dentrys|)
      && (ret != -ENOSPC && Full(i) && blk.Some? ==>
            i'.dataOffsets == i.dataOffsets[|i.dentrys| / JFS_DENTRYS_SEG_SIZE := blk.value])
      && (ret != -ENOSPC && Full(i) && blk.None? ==> i'.dataOffsets == i.dataOffsets)
  {
    var n := |i.dentrys|;
    var m := IntendedListSize(n);
    if Full(i) {
      // a full array holds whole segments, so one more child needs a new one
      assert i.listSize == n && n % JFS_DENTRYS_SEG_SIZE == 0;
      assert m == n + JFS_DENTRYS_SEG_SIZE;
      assert m / JFS_DENTRYS_SEG_SIZE - 1 == n / JFS_DENTRYS_SEG_SIZE;
    } else {
      // otherwise the last segment has room and the capacity stays
      assert RoundUp(n + 1, JFS_DENTRYS_SEG_SIZE) == i.listSize;
    }
  }

  /** Below the ninth child the code as written and the intended capacity agree. */
  lemma AllocDentryAgreesBelowNine(i: Inode, d: Dentry, blk: Option<nat>)
    requires |i.dataOffsets| == JFS_DATA_PER_FILE
    requires SegmentsFit(i) && |i.dentrys| < JFS_DENTRYS_SEG_SIZE
    ensures AllocDentry(i, d, blk) == IntendedAllocDentry(i, d, blk)
  {
  }

  // ---------------------------------------------------------------------------
  // Removing a child
  // ---------------------------------------------------------------------------

  /** Slots `top-1` down to `low`: the blocks juzfs_drop_dentry releases, in release order. */
  function FreedSlots(slots: seq<nat>, top: nat, low: nat): (r: seq<nat>)
    requires top <= |slots|
    ensures |r| == if top > low then top - low else 0
    ensures forall k :: 0 <= k < |r| ==> r[k] == slots[top - 1 - k]
    decreases top
  {
    if top <= low then [] else [slots[top - 1]] + FreedSlots(slots, top - 1, low)
  }

  /** The outcome of juzfs_drop_dentry: the updated inode, the return value, the blocks released. */
  datatype Drop = Drop(inode: Inode, ret: int, freed: seq<nat>)

  /** The capacity is a whole number of segments, at most six. */
  predicate SegmentsInRange(i: Inode)
  {
    |i.dataOffsets| == JFS_DATA_PER_FILE && i.listSize <= JFS_DATA_PER_FILE * JFS_DENTRYS_SEG_SIZE
  }

  /**
   * juzfs_drop_dentry: remove the first child named `name`, close the gap,
   * shrink the capacity to `dir_cnt - 1` rounded up to segments and release
   * the blocks of the segments beyond it.
   */
  function DropDentry(i: Inode, name: seq<char>): (r: Drop)
    requires SegmentsInRange(i)
  {
    match FirstNamed(i.dentrys, name)
    case None => Drop(i, -ENOENT, [])
    case Some(k) =>
      var n := |i.dentrys|;
      var newListSize := RoundUp(n - 1, JFS_DENTRYS_SEG_SIZE);
      Drop(i.(dentrys := i.dentrys[..k] + i.dentrys[k + 1..], listSize := newListSize), n - 1,
           FreedSlots(i.dataOffsets, i.listSize / JFS_DENTRYS_SEG_SIZE, newListSize / JFS_DENTRYS_SEG_SIZE))
  }

  /**
   * The outcomes of juzfs_drop_dentry: -ENOENT exactly when no child has the
   * name, changing nothing; otherwise the first such child is removed with
   * the others kept in order, the new count is returned and only the
   * capacity changes besides.
   */
  lemma DropDentryOutcome(i: Inode, name: seq<char>)
    requires SegmentsInRange(i)
    ensures var r := DropDentry(i, name);
      && (r.ret == -ENOENT <==> forall j :: 0 <= j < |i.dentrys| ==> CStr(i.dentrys[j].name) != CStr(name))
      && (r.ret == -ENOENT ==> r.inode == i && r.freed == [])
      && (r.ret != -ENOENT ==>
            exists k :: 0 <= k < |i.dentrys| && CStr(i.dentrys[k].name) == CStr(name)
              && (forall j :: 0 <= j < k ==> CStr(i.dentrys[j].name) != CStr(name))
              && r.inode == i.(dentrys := i.dentrys[..k] + i.dentrys[k + 1..],
                               listSize := RoundUp(|i.dentrys| - 1, JFS_DENTRYS_SEG_SIZE))
              && r.ret == |i.dentrys| - 1)
  {
    match FirstNamed(i.dentrys, name)
    case None =>
    case Some(k) =>
  }

  /** The name search reads names only: two lists with the same names give the same first child named. */
  lemma FirstNamedByNames(ds: seq<Dentry>, es: seq<Dentry>, name: seq<char>)
    requires |ds| == |es| && forall j :: 0 <= j < |ds| ==> ds[j].name == es[j].name
    ensures FirstNamed(ds, name) == FirstNamed(es, name)
  {
    var a, b := FirstNamed(ds, name), FirstNamed(es, name);
    if a.Some? {
      assert CStr(es[a.value].name) == CStr(name);
    }
    if b.Some? {
      assert CStr(ds[b.value].name) == CStr(name);
    }
  }

  /**
   * juzfs_drop_dentry reads the children's names, their count, the capacity
   * and the slots: two directories that agree on those return the same count
   * and release the same blocks.
   */
  lemma DropDentryByNames(i: Inode, j: Inode, name: seq<char>)
    requires SegmentsInRange(i) && SegmentsInRange(j)
    requires |i.dentrys| == |j.dentrys| && forall k :: 0 <= k < |i.dentrys| ==> i.dentrys[k].name == j.dentrys[k].name
    requires i.listSize == j.listSize && i.dataOffsets == j.dataOffsets
    ensures DropDentry(i, name).ret == DropDentry(j, name).ret
    ensures DropDentry(i, name).freed == DropDentry(j, name).freed
  {
    FirstNamedByNames(i.dentrys, j.dentrys, name);
  }

  /**
   * Dropping, by its own name, the child the lookup scan found for a
   * component without NUL, from a list that agrees on the names up to it,
   * removes exactly that child.
   */
  lemma DropMatched(i: Inode, ds: seq<Dentry>, fname: seq<char>, k: nat)
    requires SegmentsInRange(i) && FirstMatch(ds, fname) == Some(k) && forall j :: 0 <= j < |fname| ==> fname[j] != '\0'
    requires k < |i.dentrys| && forall j :: 0 <= j <= k ==> i.dentrys[j].name == ds[j].name
    ensures DropDentry(i, ds[k].name).inode.dentrys == i.dentrys[..k] + i.dentrys[k + 1..]
  {
    FirstNamedOfMatch(ds, i.dentrys, fname, k);
  }

  /** Appending a child with a fresh name and removing it again restores the directory and releases the block appended with it. */
  lemma AllocThenDrop(i: Inode, d: Dentry, blk: nat)
    requires SegmentsInRange(i) && SegmentsFit(i)
    requires forall j :: 0 <= j < |i.dentrys| ==> CStr(i.dentrys[j].name) != CStr(d.name)
    requires IntendedAllocDentry(i, d, Some(blk)).1 != -ENOSPC
    ensures var i' := IntendedAllocDentry(i, d, Some(blk)).0;
      SegmentsInRange(i') &&
      var r := DropDentry(i', d.name);
      && r.ret == |i.dentrys|
      && r.inode == i.(dataOffsets := i'.dataOffsets)
      && r.freed == (if Full(i) then [blk] else [])
  {
    var i' := IntendedAllocDentry(i, d, Some(blk)).0;
    var n := |i.dentrys|;
    assert FirstNamed(i'.dentrys, d.name) == Some(n) by {
      assert i'.dentrys[n] == d;
      assert forall j :: 0 <= j < n ==> i'.dentrys[j] == i.dentrys[j];
    }
    assert (i.dentrys + [d])[..n] + (i.dentrys + [d])[n + 1..] == i.dentrys;
  }

  // ---------------------------------------------------------------------------
  // Positional access
  // ---------------------------------------------------------------------------

  /** jfs_get_dentry: the child at position `dir`, None past the last one. */
  function GetDentry(i: Inode, dir: nat): (r: Option<Dentry>)
    ensures r.Some? <==> dir < |i.dentrys|
    ensures r.Some? ==> r.value == i.dentrys[dir]
  {
    if dir > |i.dentrys| - 1 then None else Some(i.dentrys[dir])
  }
}
