/**
 * Growing a file: which sectors a file owns, how `inode_extend_length`
 * adds index and data sectors to them from the free map, and what a
 * write leaves in the file's bytes.
 */
module Growth {

  import opened BlockDevice
  import opened InodeLayout
  import opened DiskFormat

  lemma DistinctSnoc(s: seq<Sector>, x: Sector)
    requires Distinct(s) && x !in Elems(s)
    ensures Distinct(s + [x])
  {
    assert (s + [x])[..|s|] == s;
  }

  lemma DistinctCons(x: Sector, s: seq<Sector>)
    requires Distinct(s) && x !in Elems(s)
    ensures Distinct([x] + s)
  {
    var xs := [x] + s;
    DistinctPairwise(s);
    DistinctPairwise(xs);
    forall i, j | 0 <= i < j < |xs|
      ensures xs[i] != xs[j]
    {
      assert xs[j] == s[j - 1] && s[j - 1] in Elems(s);
      if i > 0 {
        assert xs[i] == s[i - 1];
      }
    }
  }

  lemma {:induction false} DataUpToAt(disk: Disk, d: InodeDisk, n: nat)
    ensures |DataUpTo(disk, d, n)| == n
    ensures forall k :: 0 <= k < n ==> DataUpTo(disk, d, n)[k] == BlockSector(disk, d, k)
  {
    if n > 0 {
      DataUpToAt(disk, d, n - 1);
    }
  }

  /** The index sectors of a file whose last block is `index` number `IndexBlocks(index)`. */
  lemma IndexCount(d: InodeDisk, t2l1: map<nat, Sector>, index: nat)
    ensures |TopIndex(d, index)| + |Seconds(t2l1, index)| == IndexBlocks(index)
  {
  }

  /**
   * Sectors in three groups — the inode's own sector with the singly and
   * doubly indirect blocks, the second-level blocks, the data blocks — of
   * which none appears twice, none is in two groups, and none is free.
   */
  ghost predicate Separated(top: seq<Sector>, secs: seq<Sector>, data: seq<Sector>, free: set<Sector>)
  {
    && Distinct(top) && Distinct(secs) && Distinct(data)
    && Elems(top) !! Elems(secs) && Elems(top) !! Elems(data) && Elems(secs) !! Elems(data)
    && Elems(top) !! free && Elems(secs) !! free && Elems(data) !! free
  }

  lemma SeparatedCard(top: seq<Sector>, secs: seq<Sector>, data: seq<Sector>, free: set<Sector>)
    requires Separated(top, secs, data, free)
    ensures |Elems(top) + Elems(secs) + Elems(data)| == |top| + |secs| + |data|
  {
    DistinctCard(top);
    DistinctCard(secs);
    DistinctCard(data);
    assert Elems(top) * Elems(secs) == {};
    assert (Elems(top) + Elems(secs)) * Elems(data) == {};
  }

  /** Separate data and second-level sectors are `Apart`. */
  lemma SeparatedApart(top: seq<Sector>, t2l1: map<nat, Sector>, index: nat, data: seq<Sector>, free: set<Sector>)
    requires Separated(top, Seconds(t2l1, index), data, free)
    ensures Apart(t2l1, index, data)
  {
    var secs := Seconds(t2l1, index);
    DistinctPairwise(data);
    DistinctPairwise(secs);
    if index >= DOUBLE_START {
      forall o, p | 0 <= o < p <= Outer(index)
        ensures Get(t2l1, o) != Get(t2l1, p)
      {
        assert secs[o] == Get(t2l1, o) && secs[p] == Get(t2l1, p);
      }
      forall k, o | 0 <= k < |data| && 0 <= o <= Outer(index)
        ensures data[k] != Get(t2l1, o)
      {
        assert secs[o] == Get(t2l1, o) && secs[o] in Elems(secs) && data[k] in Elems(data);
      }
    }
  }

  /** The singly and doubly indirect blocks in use, and the inode's sector,
      are apart from each other and from the second-level and data sectors. */
  lemma SeparatedTop(sector: Sector, d: InodeDisk, index: nat, secs: seq<Sector>, data: seq<Sector>, free: set<Sector>)
    requires Separated([sector] + TopIndex(d, index), secs, data, free)
    ensures var rest := Elems(secs) + Elems(data);
            && sector !in rest && sector !in free
            && (index >= DIR_LEN ==> SingleAt(d, 0) !in rest && SingleAt(d, 0) != sector)
            && (index >= SINGLE2_START ==> SingleAt(d, 1) !in rest && SingleAt(d, 1) != sector && SingleAt(d, 1) != SingleAt(d, 0))
            && (index >= DOUBLE_START ==> d.double !in rest && d.double != sector &&
                                          d.double != SingleAt(d, 0) && d.double != SingleAt(d, 1))
  {
    var top := [sector] + TopIndex(d, index);
    DistinctPairwise(top);
    assert top[0] == sector && sector in Elems(top);
    if index >= DOUBLE_START {
      assert top[1] == SingleAt(d, 0) && top[2] == SingleAt(d, 1) && top[3] == d.double;
      assert top[1] in Elems(top) && top[2] in Elems(top) && top[3] in Elems(top);
    } else if index >= SINGLE2_START {
      assert top[1] == SingleAt(d, 0) && top[2] == SingleAt(d, 1);
      assert top[1] in Elems(top) && top[2] in Elems(top);
    } else if index >= DIR_LEN {
      assert top[1] == SingleAt(d, 0) && top[1] in Elems(top);
    }
  }

  /**
   * The sectors of `top`, `secs` and `data` are separate and are exactly
   * those of `owned0` and those since taken from the free map `free0`,
   * one at a time.
   */
  ghost predicate Ledger(top: seq<Sector>, secs: seq<Sector>, data: seq<Sector>,
                         free0: set<Sector>, free: set<Sector>, owned0: set<Sector>)
  {
    && Separated(top, secs, data, free) && free <= free0
    && Elems(top) + Elems(secs) + Elems(data) == owned0 + (free0 - free)
    && |free| + |top| + |secs| + |data| == |free0| + |owned0|
  }

  lemma LedgerStart(top: seq<Sector>, secs: seq<Sector>, data: seq<Sector>, free: set<Sector>)
    requires Separated(top, secs, data, free)
    ensures Ledger(top, secs, data, free, free, Elems(top) + Elems(secs) + Elems(data))
  {
    SeparatedCard(top, secs, data, free);
  }

  /** A free sector taken as an index block. */
  lemma LedgerTop(top: seq<Sector>, secs: seq<Sector>, data: seq<Sector>,
                  free0: set<Sector>, free: set<Sector>, owned0: set<Sector>, s: Sector)
    requires Ledger(top, secs, data, free0, free, owned0) && s in free
    ensures Ledger(top + [s], secs, data, free0, free - {s}, owned0)
  {
    ElemsSnoc(top, s);
    DistinctSnoc(top, s);
  }

  /** A free sector taken as a second-level block. */
  lemma LedgerSecond(top: seq<Sector>, secs: seq<Sector>, data: seq<Sector>,
                     free0: set<Sector>, free: set<Sector>, owned0: set<Sector>, s: Sector)
    requires Ledger(top, secs, data, free0, free, owned0) && s in free
    ensures Ledger(top, secs + [s], data, free0, free - {s}, owned0)
  {
    ElemsSnoc(secs, s);
    DistinctSnoc(secs, s);
  }

  /** A free sector taken as a data block. */
  lemma LedgerData(top: seq<Sector>, secs: seq<Sector>, data: seq<Sector>,
                   free0: set<Sector>, free: set<Sector>, owned0: set<Sector>, s: Sector)
    requires Ledger(top, secs, data, free0, free, owned0) && s in free
    ensures Ledger(top, secs, data + [s], free0, free - {s}, owned0)
  {
    ElemsSnoc(data, s);
    DistinctSnoc(data, s);
  }

  /**
   * A file whose last block is `index` and whose inode is at `sector` owns
   * its sectors alone: the inode's sector, the index sectors and the data
   * sectors are all different, and none of them is free.
   */
  ghost predicate Consistent(disk: Disk, free: set<Sector>, sector: Sector, d: InodeDisk, index: nat)
  {
    Shaped(d) &&
    Separated([sector] + TopIndex(d, index), Seconds(Entries(disk, d.double), index), DataUpTo(disk, d, index + 1), free)
  }

  /** The footprint of a file, group by group. */
  lemma FootprintParts(disk: Disk, d: InodeDisk, index: nat)
    ensures Elems(Footprint(disk, d, index))
              == Elems(TopIndex(d, index)) + Elems(Seconds(Entries(disk, d.double), index)) + Elems(DataUpTo(disk, d, index + 1))
  {
    var secs := Seconds(Entries(disk, d.double), index);
    if index >= DOUBLE_START {
      SecondLevelIs(disk, d, Entries(disk, d.double), Outer(index) + 1);
    }
    ElemsAppend(TopIndex(d, index), secs);
    ElemsAppend(TopIndex(d, index) + secs, DataUpTo(disk, d, index + 1));
  }

  lemma DistinctHead(x: Sector, s: seq<Sector>)
    requires Distinct([x] + s)
    ensures x !in Elems(s) && Elems([x] + s) == {x} + Elems(s)
  {
    var xs := [x] + s;
    DistinctPairwise(xs);
    ElemsAppend([x], s);
    forall j | 0 <= j < |s|
      ensures s[j] != x
    {
      assert xs[j + 1] == s[j] && xs[0] == x;
    }
  }

  /** Separate groups, counted. */
  lemma PartsCard(x: Sector, ti: seq<Sector>, secs: seq<Sector>, data: seq<Sector>, free: set<Sector>, fp: set<Sector>)
    requires Separated([x] + ti, secs, data, free)
    requires fp == Elems(ti) + Elems(secs) + Elems(data)
    ensures {x} + fp == Elems([x] + ti) + Elems(secs) + Elems(data)
    ensures x !in fp && fp !! free && |fp| == |ti| + |secs| + |data|
  {
    var top, s, d := Elems([x] + ti), Elems(secs), Elems(data);
    DistinctHead(x, ti);
    SeparatedCard([x] + ti, secs, data, free);
    assert x in top && Elems(ti) <= top;
    assert x !in s && x !in d;
    assert top + s + d == {x} + fp;
    assert x !in fp;
  }

  /** Distinct groups with nothing free are separate. */
  lemma DistinctParts(x: Sector, ti: seq<Sector>, secs: seq<Sector>, data: seq<Sector>, free: set<Sector>)
    requires Distinct(ti + (secs + data)) && x !in Elems(ti + (secs + data)) && x !in free
    requires Elems(ti + (secs + data)) !! free
    ensures Separated([x] + ti, secs, data, free)
  {
    DistinctSplit(ti, secs + data);
    DistinctSplit(secs, data);
    ElemsAppend(secs, data);
    ElemsAppend(ti, secs + data);
    ElemsAppend([x], ti);
    DistinctCons(x, ti);
  }

  /** The sectors a consistent file owns besides its inode: `SectorsNeeded`
      of them, none free. */
  lemma ConsistentFootprint(disk: Disk, free: set<Sector>, sector: Sector, d: InodeDisk, index: nat)
    requires Consistent(disk, free, sector, d, index)
    ensures var fp := Elems(Footprint(disk, d, index));
            && {sector} + fp == Elems([sector] + TopIndex(d, index)) + Elems(Seconds(Entries(disk, d.double), index))
                                + Elems(DataUpTo(disk, d, index + 1))
            && sector !in fp && fp !! free && |fp| == SectorsNeeded(index)
  {
    FootprintParts(disk, d, index);
    PartsCard(sector, TopIndex(d, index), Seconds(Entries(disk, d.double), index), DataUpTo(disk, d, index + 1),
              free, Elems(Footprint(disk, d, index)));
    DataUpToAt(disk, d, index + 1);
    IndexCount(d, Entries(disk, d.double), index);
  }

  /** A file whose footprint has no sector twice, and neither it nor the
      inode's sector free, is consistent. */
  lemma DistinctConsistent(disk: Disk, free: set<Sector>, sector: Sector, d: InodeDisk, index: nat)
    requires Shaped(d) && Distinct(Footprint(disk, d, index))
    requires sector !in Elems(Footprint(disk, d, index)) && sector !in free
    requires Elems(Footprint(disk, d, index)) !! free
    ensures Consistent(disk, free, sector, d, index)
  {
    var ti := TopIndex(d, index);
    var secs := Seconds(Entries(disk, d.double), index);
    var data := DataUpTo(disk, d, index + 1);
    if index >= DOUBLE_START {
      SecondLevelIs(disk, d, Entries(disk, d.double), Outer(index) + 1);
    }
    assert Footprint(disk, d, index) == ti + (secs + data);
    DistinctParts(sector, ti, secs, data, free);
  }

  /** A file `inode_create` made owns its sectors alone, unless its inode
      sector was free, and the rest of its last block reads as zero. */
  lemma CreatedConsistent(disk0: Disk, disk: Disk, free0: set<Sector>, free: set<Sector>, sector: Sector, length: nat)
    requires Created(disk0, disk, free0, free, sector, length) && sector !in free0
    ensures Consistent(disk, free, sector, InodeAt(disk, sector), length / SECTOR_SIZE)
    ensures TailZero(disk, InodeAt(disk, sector))
  {
    DistinctConsistent(disk, free, sector, InodeAt(disk, sector), length / SECTOR_SIZE);
  }

  /** The inode's sector, index sectors and data sectors of a file. */
  ghost function Owned(disk: Disk, sector: Sector, d: InodeDisk, index: nat): set<Sector>
  {
    Elems([sector] + TopIndex(d, index)) + Elems(Seconds(Entries(disk, d.double), index)) + Elems(DataUpTo(disk, d, index + 1))
  }

  /** Every block of the doubly indirect tier among `blocks` is reached
      through its second-level block on disk. */
  ghost predicate PagesPlaced(disk: Disk, t2l1: map<nat, Sector>, blocks: seq<Sector>)
  {
    forall k :: DOUBLE_START <= k < |blocks| ==> Entry(disk, Get(t2l1, Outer(k)), Inner(k)) == blocks[k]
  }

  /** The data sectors of `blocks` from `first` on are zeroed and were taken from `free0`. */
  ghost predicate NewZeroed(disk: Disk, blocks: seq<Sector>, first: nat, free0: set<Sector>)
  {
    forall k :: first <= k < |blocks| ==> Zeroed(disk, blocks[k]) && blocks[k] in free0
  }

  /**
   * One turn of the data loop of `inode_extend_length` on block `i`: the
   * sector `s` allocated into the block's slot is zeroed on disk; in the
   * doubly indirect tier the block's second-level page is read back (or
   * cleared at its first entry), takes `s`, and is written out at once.
   */
  ghost predicate GrowStep(db: Disk, disk: Disk, dir: seq<Sector>, t1: map<nat, Sector>, t2: map<nat, Sector>,
                           t2l1: map<nat, Sector>, dir': seq<Sector>, t1': map<nat, Sector>, t2': map<nat, Sector>,
                           i: nat, s: Sector)
  {
    var zeroed := db[s := Data(Zeros(SECTOR_SIZE))];
    if i < DIR_LEN then
      i < |dir| && dir' == dir[i := s] && t1' == t1 && t2' == t2 && disk == zeroed
    else if i < SINGLE2_START then
      dir' == dir && t1' == t1[i - DIR_LEN := s] && t2' == t2 && disk == zeroed
    else if i < DOUBLE_START then
      dir' == dir && t1' == t1 && t2' == t2[i - SINGLE2_START := s] && disk == zeroed
    else
      var g := Get(t2l1, Outer(i));
      var page := if Inner(i) == 0 then map[] else Entries(db, g);
      dir' == dir && t1' == t1 && t2' == t2 && disk == zeroed[g := Index(page[Inner(i) := s])]
  }

  /**
   * The invariant of the data loop of `inode_extend_length` growing the
   * file at `sector` to last block `index`, started on disk `diskP`: the
   * blocks `want` (the old ones up to `first`, then the new ones) are in
   * their slots, the new ones zeroed, taken from the free map and apart
   * from every other sector the file owns, and only second-level and new
   * data sectors were written.
   */
  ghost predicate Growing(disk: Disk, diskP: Disk, free0: set<Sector>, free: set<Sector>, owned0: set<Sector>,
                          sector: Sector, d: InodeDisk, dir: seq<Sector>, t1: map<nat, Sector>, t2: map<nat, Sector>,
                          t2l1: map<nat, Sector>, want: seq<Sector>, first: nat, index: nat)
  {
    && first <= |want| <= index + 1 && index + 1 - |want| <= |free|
    && Ledger([sector] + TopIndex(d, index), Seconds(t2l1, index), want, free0, free, owned0)
    && LowPlaced(dir, t1, t2, want) && PagesPlaced(disk, t2l1, want)
    && NewZeroed(disk, want, first, free0)
    && Agree(disk, diskP, Elems(Seconds(t2l1, index)) + Elems(want[first..]))
  }

  lemma GrowLow(db: Disk, disk: Disk, dir: seq<Sector>, t1: map<nat, Sector>, t2: map<nat, Sector>,
                t2l1: map<nat, Sector>, dir': seq<Sector>, t1': map<nat, Sector>, t2': map<nat, Sector>,
                want: seq<Sector>, s: Sector)
    requires LowPlaced(dir, t1, t2, want)
    requires GrowStep(db, disk, dir, t1, t2, t2l1, dir', t1', t2', |want|, s)
    ensures LowPlaced(dir', t1', t2', want + [s])
  {
  }

  lemma GrowPages(db: Disk, disk: Disk, dir: seq<Sector>, t1: map<nat, Sector>, t2: map<nat, Sector>,
                  t2l1: map<nat, Sector>, dir': seq<Sector>, t1': map<nat, Sector>, t2': map<nat, Sector>,
                  want: seq<Sector>, index: nat, s: Sector)
    requires |want| <= index
    requires PagesPlaced(db, t2l1, want)
    requires GrowStep(db, disk, dir, t1, t2, t2l1, dir', t1', t2', |want|, s)
    requires Apart(t2l1, index, want + [s])
    ensures PagesPlaced(disk, t2l1, want + [s])
  {
    var i := |want|;
    var nb := want + [s];
    if i >= DOUBLE_START {
      var g := Get(t2l1, Outer(i));
      OuterMonotone(i, index);
      assert nb[i] == s;
      forall k | DOUBLE_START <= k < i + 1
        ensures Entry(disk, Get(t2l1, Outer(k)), Inner(k)) == nb[k]
      {
        if k < i {
          SameGroupBefore(k, i);
          OuterMonotone(k, index);
          var h := Get(t2l1, Outer(k));
          assert nb[k] == want[k];
          if Outer(k) != Outer(i) {
            assert h != g && h != s;
            assert Entries(disk, h) == Entries(db, h);
          }
        }
      }
    }
  }

  lemma GrowZeroed(db: Disk, disk: Disk, dir: seq<Sector>, t1: map<nat, Sector>, t2: map<nat, Sector>,
                   t2l1: map<nat, Sector>, dir': seq<Sector>, t1': map<nat, Sector>, t2': map<nat, Sector>,
                   want: seq<Sector>, first: nat, index: nat, free0: set<Sector>, s: Sector)
    requires first <= |want| <= index && s in free0
    requires NewZeroed(db, want, first, free0)
    requires GrowStep(db, disk, dir, t1, t2, t2l1, dir', t1', t2', |want|, s)
    requires Apart(t2l1, index, want + [s])
    ensures NewZeroed(disk, want + [s], first, free0)
  {
    var i := |want|;
    var nb := want + [s];
    assert nb[i] == s;
    if i >= DOUBLE_START {
      OuterMonotone(i, index);
    }
    forall k | first <= k < i + 1
      ensures Zeroed(disk, nb[k]) && nb[k] in free0
    {
      if k < i {
        assert nb[k] == want[k] && nb[k] != s;
      }
    }
  }

  lemma GrowAgree(db: Disk, disk: Disk, diskP: Disk, dir: seq<Sector>, t1: map<nat, Sector>, t2: map<nat, Sector>,
                  t2l1: map<nat, Sector>, dir': seq<Sector>, t1': map<nat, Sector>, t2': map<nat, Sector>,
                  want: seq<Sector>, first: nat, index: nat, s: Sector)
    requires first <= |want| <= index
    requires Agree(db, diskP, Elems(Seconds(t2l1, index)) + Elems(want[first..]))
    requires GrowStep(db, disk, dir, t1, t2, t2l1, dir', t1', t2', |want|, s)
    ensures Agree(disk, diskP, Elems(Seconds(t2l1, index)) + Elems((want + [s])[first..]))
  {
    var i := |want|;
    var sec := Elems(Seconds(t2l1, index));
    assert (want + [s])[first..] == want[first..] + [s];
    ElemsSnoc(want[first..], s);
    if i >= DOUBLE_START {
      OuterMonotone(i, index);
      assert Seconds(t2l1, index)[Outer(i)] == Get(t2l1, Outer(i));
      AgreeTrans(disk, db, diskP, {s, Get(t2l1, Outer(i))}, sec + Elems(want[first..]), sec + Elems((want + [s])[first..]));
    } else {
      AgreeTrans(disk, db, diskP, {s}, sec + Elems(want[first..]), sec + Elems((want + [s])[first..]));
    }
  }

  /** One turn of the data loop of `inode_extend_length` keeps its invariant. */
  lemma GrowingStep(db: Disk, disk: Disk, diskP: Disk, free0: set<Sector>, fb: set<Sector>, free: set<Sector>,
                    owned0: set<Sector>, sector: Sector, d: InodeDisk, dir: seq<Sector>, t1: map<nat, Sector>,
                    t2: map<nat, Sector>, t2l1: map<nat, Sector>, dir': seq<Sector>, t1': map<nat, Sector>,
                    t2': map<nat, Sector>, want: seq<Sector>, first: nat, index: nat, s: Sector)
    requires |want| <= index
    requires Growing(db, diskP, free0, fb, owned0, sector, d, dir, t1, t2, t2l1, want, first, index)
    requires fb != {} ==> s in fb && free == fb - {s}
    requires GrowStep(db, disk, dir, t1, t2, t2l1, dir', t1', t2', |want|, s)
    ensures Growing(disk, diskP, free0, free, owned0, sector, d, dir', t1', t2', t2l1, want + [s], first, index)
  {
    var top := [sector] + TopIndex(d, index);
    var secs := Seconds(t2l1, index);
    assert |fb| > 0;
    LedgerData(top, secs, want, free0, fb, owned0, s);
    SeparatedApart(top, t2l1, index, want + [s], free);
    GrowLow(db, disk, dir, t1, t2, t2l1, dir', t1', t2', want, s);
    GrowPages(db, disk, dir, t1, t2, t2l1, dir', t1', t2', want, index, s);
    GrowZeroed(db, disk, dir, t1, t2, t2l1, dir', t1', t2', want, first, index, free0, s);
    GrowAgree(db, disk, diskP, dir, t1, t2, t2l1, dir', t1', t2', want, first, index, s);
  }

  /** The data loop writes only data and index blocks, so every inode on disk stays sane. */
  lemma GrowSane(db: Disk, disk: Disk, dir: seq<Sector>, t1: map<nat, Sector>, t2: map<nat, Sector>,
                 t2l1: map<nat, Sector>, dir': seq<Sector>, t1': map<nat, Sector>, t2': map<nat, Sector>,
                 i: nat, s: Sector)
    requires InodesSane(db)
    requires GrowStep(db, disk, dir, t1, t2, t2l1, dir', t1', t2', i, s)
    ensures InodesSane(disk)
  {
  }

  /** The old blocks sit in the direct and singly indirect slots when the
      data loop of `inode_extend_length` starts. */
  lemma GrowingStartLow(disk0: Disk, diskP: Disk, sector: Sector, d0: InodeDisk, d: InodeDisk,
                        t2l1: map<nat, Sector>, secs: seq<Sector>, want: seq<Sector>, free: set<Sector>, oi: nat, ni: nat)
    requires oi <= ni && Shaped(d) && d.dir == d0.dir
    requires oi >= DIR_LEN ==> SingleAt(d, 0) == SingleAt(d0, 0)
    requires oi >= SINGLE2_START ==> SingleAt(d, 1) == SingleAt(d0, 1)
    requires ni >= DOUBLE_START ==> diskP == disk0[d.double := Index(t2l1)]
    requires ni < DOUBLE_START ==> diskP == disk0
    requires Separated([sector] + TopIndex(d, ni), secs, want, free)
    requires |want| == oi + 1 && forall k :: 0 <= k <= oi ==> want[k] == BlockSector(disk0, d0, k)
    ensures LowPlaced(d.dir, if ni >= DIR_LEN then Entries(diskP, SingleAt(d, 0)) else map[],
                      if ni >= SINGLE2_START then Entries(diskP, SingleAt(d, 1)) else map[], want)
  {
    SeparatedTop(sector, d, ni, secs, want, free);
  }

  /** The old blocks of the doubly indirect tier are reached on disk when
      the data loop of `inode_extend_length` starts. */
  lemma GrowingStartPages(disk0: Disk, diskP: Disk, sector: Sector, d0: InodeDisk, d: InodeDisk,
                          t2l1: map<nat, Sector>, want: seq<Sector>, free: set<Sector>, oi: nat, ni: nat)
    requires oi <= ni
    requires oi >= DOUBLE_START ==> (d.double == d0.double &&
               forall o :: 0 <= o <= Outer(oi) ==> Get(t2l1, o) == Entry(disk0, d0.double, o))
    requires ni >= DOUBLE_START ==> diskP == disk0[d.double := Index(t2l1)]
    requires ni < DOUBLE_START ==> diskP == disk0
    requires Separated([sector] + TopIndex(d, ni), Seconds(t2l1, ni), want, free)
    requires |want| == oi + 1 && forall k :: 0 <= k <= oi ==> want[k] == BlockSector(disk0, d0, k)
    ensures PagesPlaced(diskP, t2l1, want)
  {
    SeparatedTop(sector, d, ni, Seconds(t2l1, ni), want, free);
    forall k | DOUBLE_START <= k < |want|
      ensures Entry(diskP, Get(t2l1, Outer(k)), Inner(k)) == want[k]
    {
      OuterMonotone(k, oi);
      OuterMonotone(k, ni);
      var h := Get(t2l1, Outer(k));
      assert Seconds(t2l1, ni)[Outer(k)] == h;
      assert h in Elems(Seconds(t2l1, ni));
      assert Entries(diskP, h) == Entries(disk0, h);
    }
  }

  /** The invariant of the data loop of `inode_extend_length` holds when it starts. */
  lemma GrowingStart(disk0: Disk, diskP: Disk, free0: set<Sector>, free: set<Sector>, owned0: set<Sector>,
                     sector: Sector, d0: InodeDisk, d: InodeDisk, t2l1: map<nat, Sector>, oi: nat, ni: nat)
    requires oi <= ni && Shaped(d) && d.dir == d0.dir
    requires oi >= DIR_LEN ==> SingleAt(d, 0) == SingleAt(d0, 0)
    requires oi >= SINGLE2_START ==> SingleAt(d, 1) == SingleAt(d0, 1)
    requires oi >= DOUBLE_START ==> (d.double == d0.double &&
               forall o :: 0 <= o <= Outer(oi) ==> Get(t2l1, o) == Entry(disk0, d0.double, o))
    requires ni >= DOUBLE_START ==> diskP == disk0[d.double := Index(t2l1)]
    requires ni < DOUBLE_START ==> diskP == disk0
    requires Ledger([sector] + TopIndex(d, ni), Seconds(t2l1, ni), DataUpTo(disk0, d0, oi + 1), free0, free, owned0)
    requires ni - oi <= |free|
    ensures Growing(diskP, diskP, free0, free, owned0, sector, d, d.dir,
                    if ni >= DIR_LEN then Entries(diskP, SingleAt(d, 0)) else map[],
                    if ni >= SINGLE2_START then Entries(diskP, SingleAt(d, 1)) else map[],
                    t2l1, DataUpTo(disk0, d0, oi + 1), oi + 1, ni)
  {
    var want := DataUpTo(disk0, d0, oi + 1);
    DataUpToAt(disk0, d0, oi + 1);
    GrowingStartLow(disk0, diskP, sector, d0, d, t2l1, Seconds(t2l1, ni), want, free, oi, ni);
    GrowingStartPages(disk0, diskP, sector, d0, d, t2l1, want, free, oi, ni);
    assert want[oi + 1..] == [];
  }

  /**
   * What `inode_extend_length` leaves when it grows the file at `sector`
   * from inode `d0` on disk `disk0` to inode `d` with last block `index`:
   * the file still owns its sectors alone; it now owns exactly its old
   * sectors and those taken from the free map, as many as the longer
   * file needs; the bytes of its old blocks are as they were and those of
   * its new blocks are zero; and nothing but the inode's sector, the
   * index sectors and the sectors taken was written.
   */
  ghost predicate Grew(disk0: Disk, disk: Disk, free0: set<Sector>, free: set<Sector>, sector: Sector,
                       d0: InodeDisk, d: InodeDisk, index: nat)
  {
    var oi := d0.length / SECTOR_SIZE;
    && Consistent(disk, free, sector, d, index)
    && free <= free0
    && Elems(Footprint(disk, d, index)) == Elems(Footprint(disk0, d0, oi)) + (free0 - free)
    && |free0 - free| == SectorsNeeded(index) - SectorsNeeded(oi)
    && (forall p: nat :: p / SECTOR_SIZE <= oi ==> FileByte(disk, d, p) == FileByte(disk0, d0, p))
    && (forall p: nat :: oi < p / SECTOR_SIZE <= index ==> FileByte(disk, d, p) == 0)
    && Agree(disk, disk0, {sector} + Elems(IndexSectors(disk, d, index)) + (free0 - free))
  }

  /** A bridge to the placement `inode_create` leaves, once every block is in. */
  lemma PagesFlushed(disk: Disk, t2l1: map<nat, Sector>, blocks: seq<Sector>, index: nat)
    requires |blocks| == index + 1 && PagesPlaced(disk, t2l1, blocks)
    ensures FlushedPlaced(disk, t2l1, blocks, index)
  {
  }

  /** The final writes keep the second-level pages and the new zeroed blocks. */
  lemma GrewKept(diskL: Disk, diskF: Disk, changed: set<Sector>, t2l1: map<nat, Sector>,
                 want: seq<Sector>, first: nat, index: nat, free0: set<Sector>)
    requires Agree(diskF, diskL, changed)
    requires changed !! (Elems(Seconds(t2l1, index)) + Elems(want))
    requires NewZeroed(diskL, want, first, free0)
    ensures NewZeroed(diskF, want, first, free0)
    ensures index >= DOUBLE_START ==>
              forall o :: 0 <= o <= Outer(index) ==> Entries(diskF, Get(t2l1, o)) == Entries(diskL, Get(t2l1, o))
  {
    forall k | first <= k < |want|
      ensures Zeroed(diskF, want[k])
    {
      assert want[k] in Elems(want);
    }
    if index >= DOUBLE_START {
      forall o | 0 <= o <= Outer(index)
        ensures Entries(diskF, Get(t2l1, o)) == Entries(diskL, Get(t2l1, o))
      {
        assert Seconds(t2l1, index)[o] == Get(t2l1, o);
        assert Get(t2l1, o) in Elems(Seconds(t2l1, index));
      }
    }
  }

  /** After the final writes of `inode_extend_length`, block `k` of the
      file is `want[k]`, and the new ones are zeroed. */
  lemma GrewBlocks(diskL: Disk, diskF: Disk, d: InodeDisk, t1: map<nat, Sector>, t2: map<nat, Sector>,
                   t2l1: map<nat, Sector>, want: seq<Sector>, first: nat, index: nat, sector: Sector,
                   free0: set<Sector>, free: set<Sector>)
    requires diskF == WriteTables(diskL, d, t1, t2, index, sector)
    requires Separated([sector] + TopIndex(d, index), Seconds(t2l1, index), want, free)
    requires |want| == index + 1 && first <= |want|
    requires LowPlaced(d.dir, t1, t2, want) && PagesPlaced(diskL, t2l1, want) && NewZeroed(diskL, want, first, free0)
    requires index >= DOUBLE_START ==> Entries(diskL, d.double) == t2l1
    ensures forall k :: 0 <= k <= index ==> BlockSector(diskF, d, k) == want[k]
    ensures NewZeroed(diskF, want, first, free0)
    ensures index >= DOUBLE_START ==> Entries(diskF, d.double) == t2l1
  {
    SeparatedTop(sector, d, index, Seconds(t2l1, index), want, free);
    WriteTablesAt(diskL, d, t1, t2, index, sector);
    var changed := {sector} + (if index >= DIR_LEN then {SingleAt(d, 0)} else {})
                            + (if index >= SINGLE2_START then {SingleAt(d, 1)} else {});
    GrewKept(diskL, diskF, changed, t2l1, want, first, index, free0);
    CreatedLow(diskF, d, t1, t2, want, index);
    if index >= DOUBLE_START {
      assert d.double !in changed;
      PagesFlushed(diskL, t2l1, want, index);
      CreatedDouble(diskL, diskF, d, t2l1, want, index);
    }
  }

  /** Once every block is in place, the grown file owns its sectors alone. */
  lemma GrewConsistent(diskF: Disk, free: set<Sector>, sector: Sector, d: InodeDisk, t2l1: map<nat, Sector>,
                       want: seq<Sector>, index: nat)
    requires Shaped(d) && |want| == index + 1
    requires Separated([sector] + TopIndex(d, index), Seconds(t2l1, index), want, free)
    requires forall k :: 0 <= k <= index ==> BlockSector(diskF, d, k) == want[k]
    requires index >= DOUBLE_START ==> Entries(diskF, d.double) == t2l1
    ensures Consistent(diskF, free, sector, d, index)
    ensures DataUpTo(diskF, d, index + 1) == want
    ensures Seconds(Entries(diskF, d.double), index) == Seconds(t2l1, index)
  {
    DataUpToIs(diskF, d, want, index + 1);
    assert want[..index + 1] == want;
  }

  /** The grown file owns its old sectors and those taken from the free map, as many as it needs. */
  lemma GrewFootprint(disk0: Disk, diskF: Disk, free0: set<Sector>, free: set<Sector>, sector: Sector,
                      d0: InodeDisk, d: InodeDisk, oi: nat, ni: nat)
    requires Consistent(disk0, free0, sector, d0, oi) && Consistent(diskF, free, sector, d, ni)
    requires Ledger([sector] + TopIndex(d, ni), Seconds(Entries(diskF, d.double), ni), DataUpTo(diskF, d, ni + 1),
                    free0, free, Owned(disk0, sector, d0, oi))
    ensures Elems(Footprint(diskF, d, ni)) == Elems(Footprint(disk0, d0, oi)) + (free0 - free)
    ensures |free0 - free| == SectorsNeeded(ni) - SectorsNeeded(oi)
  {
    ConsistentFootprint(disk0, free0, sector, d0, oi);
    ConsistentFootprint(diskF, free, sector, d, ni);
    SeparatedTop(sector, d0, oi, Seconds(Entries(disk0, d0.double), oi), DataUpTo(disk0, d0, oi + 1), free0);
    var fp0 := Elems(Footprint(disk0, d0, oi));
    var fpF := Elems(Footprint(diskF, d, ni));
    var owned0 := Owned(disk0, sector, d0, oi);
    SetsGrow(sector, fp0, fpF, free0, free, owned0);
    IndexCount(d, Entries(diskF, d.double), ni);
    DataUpToAt(diskF, d, ni + 1);
    CountGrow(free0, free, owned0, |[sector] + TopIndex(d, ni)| + |Seconds(Entries(diskF, d.double), ni)| + |DataUpTo(diskF, d, ni + 1)|,
              SectorsNeeded(oi), SectorsNeeded(ni));
  }

  lemma SetsGrow(x: Sector, fp0: set<Sector>, fpF: set<Sector>, free0: set<Sector>, free: set<Sector>, owned0: set<Sector>)
    requires {x} + fpF == owned0 + (free0 - free) && owned0 == {x} + fp0
    requires x !in fpF && x !in fp0 && x !in free0
    ensures fpF == fp0 + (free0 - free)
  {
  }

  lemma CountGrow(free0: set<Sector>, free: set<Sector>, owned0: set<Sector>, used: nat, n0: nat, nF: nat)
    requires free <= free0 && |free| + used == |free0| + |owned0|
    requires used == nF + 1 && |owned0| == n0 + 1
    ensures |free0 - free| == nF - n0
  {
    assert free0 == (free0 - free) + free;
  }

  /** The old bytes of the grown file are kept and its new blocks read as zero. */
  lemma GrewBytes(disk0: Disk, diskF: Disk, d0: InodeDisk, d: InodeDisk, want: seq<Sector>,
                  changed: set<Sector>, free0: set<Sector>, oi: nat, ni: nat)
    requires oi <= ni && |want| == ni + 1
    requires forall k :: 0 <= k <= ni ==> BlockSector(diskF, d, k) == want[k]
    requires want[..oi + 1] == DataUpTo(disk0, d0, oi + 1)
    requires NewZeroed(diskF, want, oi + 1, free0)
    requires Agree(diskF, disk0, changed) && Elems(DataUpTo(disk0, d0, oi + 1)) !! changed
    ensures forall p: nat :: p / SECTOR_SIZE <= oi ==> FileByte(diskF, d, p) == FileByte(disk0, d0, p)
    ensures forall p: nat :: oi < p / SECTOR_SIZE <= ni ==> FileByte(diskF, d, p) == 0
  {
    DataUpToAt(disk0, d0, oi + 1);
    forall p: nat | p / SECTOR_SIZE <= oi
      ensures FileByte(diskF, d, p) == FileByte(disk0, d0, p)
    {
      var k := p / SECTOR_SIZE;
      assert want[..oi + 1][k] == want[k];
      assert want[k] in Elems(DataUpTo(disk0, d0, oi + 1));
    }
  }

  /** The data sectors taken while growing are exactly the free sectors used for data. */
  lemma GrewTaken(want: seq<Sector>, first: nat, free0: set<Sector>, free: set<Sector>, diskF: Disk)
    requires first <= |want| && NewZeroed(diskF, want, first, free0) && Elems(want) !! free
    ensures Elems(want[first..]) <= free0 - free
  {
    forall x | x in Elems(want[first..])
      ensures x in free0 - free
    {
      var j :| 0 <= j < |want[first..]| && want[first..][j] == x;
      assert want[first + j] in Elems(want);
    }
  }

  /** `inode_extend_length` wrote nothing but the inode's sector, its index sectors and the sectors it took. */
  lemma GrewFrame(disk0: Disk, diskP: Disk, diskL: Disk, diskF: Disk, d: InodeDisk, t1: map<nat, Sector>,
                  t2: map<nat, Sector>, t2l1: map<nat, Sector>, want: seq<Sector>, taken: set<Sector>,
                  first: nat, ni: nat, sector: Sector)
    requires diskF == WriteTables(diskL, d, t1, t2, ni, sector)
    requires ni >= DIR_LEN ==> SingleAt(d, 0) != sector
    requires ni >= SINGLE2_START ==> SingleAt(d, 1) != sector && SingleAt(d, 1) != SingleAt(d, 0)
    requires ni >= DOUBLE_START ==> diskP == disk0[d.double := Index(t2l1)]
    requires ni < DOUBLE_START ==> diskP == disk0
    requires first <= |want| && Agree(diskL, diskP, Elems(Seconds(t2l1, ni)) + Elems(want[first..]))
    requires Elems(want[first..]) <= taken
    requires ni >= DOUBLE_START ==> Entries(diskF, d.double) == t2l1
    ensures Agree(diskF, disk0, {sector} + Elems(IndexSectors(diskF, d, ni)) + taken)
    ensures Elems(IndexSectors(diskF, d, ni)) == Elems(TopIndex(d, ni)) + Elems(Seconds(t2l1, ni))
  {
    WriteTablesAt(diskL, d, t1, t2, ni, sector);
    TopIndexElems(d, ni);
    if ni >= DOUBLE_START {
      SecondLevelIs(diskF, d, t2l1, Outer(ni) + 1);
    }
    ElemsAppend(TopIndex(d, ni), if ni >= DOUBLE_START then SecondLevel(diskF, d, Outer(ni) + 1) else []);
    assert Elems(IndexSectors(diskF, d, ni)) == Elems(TopIndex(d, ni)) + Elems(Seconds(t2l1, ni));
  }

  /** The final writes of `inode_extend_length` leave every block in place
      and touch only the inode's sector, its index sectors and the sectors taken. */
  lemma ExtendPlaced(disk0: Disk, diskP: Disk, diskL: Disk, diskF: Disk, free0: set<Sector>, free: set<Sector>,
                     owned0: set<Sector>, sector: Sector, d: InodeDisk, t1: map<nat, Sector>, t2: map<nat, Sector>,
                     t2l1: map<nat, Sector>, want: seq<Sector>, first: nat, ni: nat)
    requires diskF == WriteTables(diskL, d, t1, t2, ni, sector)
    requires ni >= DOUBLE_START ==> diskP == disk0[d.double := Index(t2l1)]
    requires ni < DOUBLE_START ==> diskP == disk0
    requires Growing(diskL, diskP, free0, free, owned0, sector, d, d.dir, t1, t2, t2l1, want, first, ni)
    requires |want| == ni + 1
    ensures forall k :: 0 <= k <= ni ==> BlockSector(diskF, d, k) == want[k]
    ensures NewZeroed(diskF, want, first, free0)
    ensures ni >= DOUBLE_START ==> Entries(diskF, d.double) == t2l1
    ensures Agree(diskF, disk0, {sector} + Elems(IndexSectors(diskF, d, ni)) + (free0 - free))
    ensures Elems(IndexSectors(diskF, d, ni)) == Elems(TopIndex(d, ni)) + Elems(Seconds(t2l1, ni))
  {
    SeparatedTop(sector, d, ni, Seconds(t2l1, ni), want, free);
    ElemsSlice(want, first, |want|);
    if ni >= DOUBLE_START {
      assert d.double !in Elems(Seconds(t2l1, ni)) + Elems(want[first..]);
      assert Entries(diskL, d.double) == t2l1;
    }
    GrewBlocks(diskL, diskF, d, t1, t2, t2l1, want, first, ni, sector, free0, free);
    GrewTaken(want, first, free0, free, diskF);
    GrewFrame(disk0, diskP, diskL, diskF, d, t1, t2, t2l1, want, free0 - free, first, ni, sector);
  }

  /**
   * The end of `inode_extend_length`: once the data loop has placed every
   * block and the singly indirect pages and the inode are written out,
   * the file has grown.
   */
  lemma ExtendDone(disk0: Disk, diskP: Disk, diskL: Disk, diskF: Disk, free0: set<Sector>, free: set<Sector>,
                   sector: Sector, d0: InodeDisk, d: InodeDisk, t1: map<nat, Sector>, t2: map<nat, Sector>,
                   t2l1: map<nat, Sector>, want: seq<Sector>, oi: nat, ni: nat)
    requires oi == d0.length / SECTOR_SIZE && oi <= ni
    requires diskF == WriteTables(diskL, d, t1, t2, ni, sector)
    requires Consistent(disk0, free0, sector, d0, oi) && Shaped(d)
    requires ni >= DOUBLE_START ==> diskP == disk0[d.double := Index(t2l1)]
    requires ni < DOUBLE_START ==> diskP == disk0
    requires Growing(diskL, diskP, free0, free, Owned(disk0, sector, d0, oi), sector, d, d.dir, t1, t2, t2l1,
                     want, oi + 1, ni)
    requires |want| == ni + 1 && want[..oi + 1] == DataUpTo(disk0, d0, oi + 1)
    ensures Grew(disk0, diskF, free0, free, sector, d0, d, ni)
  {
    ExtendPlaced(disk0, diskP, diskL, diskF, free0, free, Owned(disk0, sector, d0, oi), sector, d, t1, t2, t2l1,
                 want, oi + 1, ni);
    GrewOwned(disk0, diskF, free0, free, sector, d0, d, t2l1, want, oi, ni);
  }

  /** What the grown file owns and holds, from where its blocks are. */
  lemma GrewOwned(disk0: Disk, diskF: Disk, free0: set<Sector>, free: set<Sector>, sector: Sector,
                  d0: InodeDisk, d: InodeDisk, t2l1: map<nat, Sector>, want: seq<Sector>, oi: nat, ni: nat)
    requires oi == d0.length / SECTOR_SIZE && oi <= ni
    requires Consistent(disk0, free0, sector, d0, oi) && Shaped(d)
    requires Ledger([sector] + TopIndex(d, ni), Seconds(t2l1, ni), want, free0, free, Owned(disk0, sector, d0, oi))
    requires |want| == ni + 1 && want[..oi + 1] == DataUpTo(disk0, d0, oi + 1)
    requires forall k :: 0 <= k <= ni ==> BlockSector(diskF, d, k) == want[k]
    requires NewZeroed(diskF, want, oi + 1, free0)
    requires ni >= DOUBLE_START ==> Entries(diskF, d.double) == t2l1
    requires Agree(diskF, disk0, {sector} + Elems(IndexSectors(diskF, d, ni)) + (free0 - free))
    requires Elems(IndexSectors(diskF, d, ni)) == Elems(TopIndex(d, ni)) + Elems(Seconds(t2l1, ni))
    ensures Grew(disk0, diskF, free0, free, sector, d0, d, ni)
  {
    var top := [sector] + TopIndex(d, ni);
    var secs := Seconds(t2l1, ni);
    GrewConsistent(diskF, free, sector, d, t2l1, want, ni);
    GrewFootprint(disk0, diskF, free0, free, sector, d0, d, oi, ni);
    var changed := {sector} + Elems(IndexSectors(diskF, d, ni)) + (free0 - free);
    ElemsSlice(want, 0, oi + 1);
    assert want[0..oi + 1] == want[..oi + 1];
    ElemsCons(sector, TopIndex(d, ni));
    assert Elems(DataUpTo(disk0, d0, oi + 1)) <= Elems(want);
    ApartFromChanged(Elems(DataUpTo(disk0, d0, oi + 1)), Elems(want), Elems(top), Elems(TopIndex(d, ni)),
                     Elems(secs), sector, free0, free);
    GrewBytes(disk0, diskF, d0, d, want, changed, free0, oi, ni);
  }

  lemma ElemsSlice(s: seq<Sector>, a: nat, b: nat)
    requires a <= b <= |s|
    ensures Elems(s[a..b]) <= Elems(s)
  {
    forall x | x in Elems(s[a..b])
      ensures x in Elems(s)
    {
      var j :| 0 <= j < b - a && s[a..b][j] == x;
      assert s[a + j] == x;
    }
  }

  /** Old data sectors lie outside what growing a file may write. */
  lemma ApartFromChanged(old0: set<Sector>, want: set<Sector>, top: set<Sector>, ti: set<Sector>, secs: set<Sector>,
                         x: Sector, free0: set<Sector>, free: set<Sector>)
    requires old0 !! free0 && old0 <= want && want !! top && want !! secs
    requires top == {x} + ti
    ensures old0 !! {x} + (ti + secs) + (free0 - free)
  {
  }

  lemma ElemsCons(x: Sector, s: seq<Sector>)
    ensures Elems([x] + s) == {x} + Elems(s)
  {
    ElemsAppend([x], s);
    assert Elems([x]) == {x};
  }

  /** Singly indirect blocks `inode_extend_length` allocates when the last block moves from `oi` to `ni`. */
  function NewSingles(oi: nat, ni: nat): nat
  {
    (if oi < DIR_LEN <= ni then 1 else 0) + (if oi < SINGLE2_START <= ni then 1 else 0)
  }

  /** The doubly indirect block and the second-level blocks it allocates for the same move. */
  function NewSeconds(oi: nat, ni: nat): nat
  {
    if ni < DOUBLE_START then 0
    else if oi < DOUBLE_START then 2 + Outer(ni)
    else if Outer(oi) <= Outer(ni) then Outer(ni) - Outer(oi) else 0
  }

  /** Growing allocates exactly the index blocks the longer file needs beyond the shorter one's. */
  lemma NewIndexCount(oi: nat, ni: nat)
    requires oi <= ni
    ensures IndexBlocks(oi) <= IndexBlocks(ni)
    ensures IndexBlocks(ni) - IndexBlocks(oi) == NewSingles(oi, ni) + NewSeconds(oi, ni)
  {
    OuterMonotone(oi, ni);
  }

  /** The file at `sector` may grow to `newLen` bytes with every allocation succeeding. */
  ghost predicate Growable(disk: Disk, free: set<Sector>, sector: Sector, d: InodeDisk, newLen: nat)
  {
    && Consistent(disk, free, sector, d, d.length / SECTOR_SIZE)
    && SectorsNeeded(newLen / SECTOR_SIZE) - SectorsNeeded(d.length / SECTOR_SIZE) <= |free|
  }

  /** The direct pointers play no part in the loop invariant's inode. */
  lemma GrowingDir(disk: Disk, diskP: Disk, free0: set<Sector>, free: set<Sector>, owned0: set<Sector>,
                   sector: Sector, d: InodeDisk, dir: seq<Sector>, t1: map<nat, Sector>, t2: map<nat, Sector>,
                   t2l1: map<nat, Sector>, want: seq<Sector>, first: nat, index: nat)
    requires Growing(disk, diskP, free0, free, owned0, sector, d, dir, t1, t2, t2l1, want, first, index)
    ensures Growing(disk, diskP, free0, free, owned0, sector, d.(dir := dir), dir, t1, t2, t2l1, want, first, index)
  {
    assert TopIndex(d.(dir := dir), index) == TopIndex(d, index);
  }

  /** The index blocks `inode_extend_length` allocates come after the old
      ones, in the order `TopIndex` lists them. */
  lemma TopGrows(sector: Sector, d0: InodeDisk, d: InodeDisk, oi: nat, ni: nat, top1: seq<Sector>, top2: seq<Sector>)
    requires oi <= ni && Shaped(d0) && Shaped(d)
    requires oi >= DIR_LEN ==> SingleAt(d, 0) == SingleAt(d0, 0)
    requires oi >= SINGLE2_START ==> SingleAt(d, 1) == SingleAt(d0, 1)
    requires oi >= DOUBLE_START ==> d.double == d0.double
    requires top1 == [sector] + TopIndex(d0, oi) + (if oi < DIR_LEN <= ni then [SingleAt(d, 0)] else [])
                                                 + (if oi < SINGLE2_START <= ni then [SingleAt(d, 1)] else [])
    requires top2 == top1 + (if oi < DOUBLE_START <= ni then [d.double] else [])
    ensures top2 == [sector] + TopIndex(d, ni)
  {
  }
}
