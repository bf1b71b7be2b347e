/**
 * The on-disk format of the extensible file system: the inode with its
 * three-tier block index, the device as it appears through the sector
 * cache (a map from sector numbers to typed blocks), the sectors a file
 * occupies, and the bookkeeping of the free map as sectors are allocated
 * and released.
 */
module DiskFormat {

  import opened BlockDevice
  import opened InodeLayout

  /** `INODE_MAGIC`. */
  const INODE_MAGIC: nat := 0x494e4f44
  /** `(block_sector_t) -1`, what `byte_to_sector` returns past the end. */
  const NO_SECTOR: Sector := 0xFFFF_FFFF

  /** `struct inode_disk`. */
  datatype InodeDisk = InodeDisk(
    length: nat,
    magic: nat,
    dir: seq<Sector>,       // DIR_LEN direct pointers
    single: seq<Sector>,    // the two singly indirect pointers
    double: Sector)         // the doubly indirect pointer

  /** A zero-filled `struct inode_disk`, as `calloc` returns it. */
  function ZeroInodeDisk(): InodeDisk
  {
    InodeDisk(0, 0, seq(DIR_LEN, _ => 0), [0, 0], 0)
  }

  predicate Shaped(d: InodeDisk)
  {
    |d.dir| == DIR_LEN && |d.single| == 2
  }

  /** What a sector holds: file data, an index block of sector numbers
      (unset entries read as 0), or an inode. */
  datatype Block =
    | Data(bytes: seq<byte>)
    | Index(entries: map<nat, Sector>)
    | Meta(inode: InodeDisk)

  type Disk = map<Sector, Block>

  /** Entry `k` of an index block held in memory. */
  function Get(m: map<nat, Sector>, k: nat): Sector
  {
    if k in m then m[k] else 0
  }

  /** The index block at sector `s`, as `buffer_read` fills a zeroed page. */
  function Entries(disk: Disk, s: Sector): map<nat, Sector>
  {
    if s in disk && disk[s].Index? then disk[s].entries else map[]
  }

  function Entry(disk: Disk, s: Sector, k: nat): Sector
  {
    Get(Entries(disk, s), k)
  }

  /** The bytes of data sector `s`. */
  function DataOf(disk: Disk, s: Sector): (b: seq<byte>)
    ensures |b| == SECTOR_SIZE
  {
    if s in disk && disk[s].Data? && |disk[s].bytes| == SECTOR_SIZE then disk[s].bytes else Zeros(SECTOR_SIZE)
  }

  /** The inode stored at sector `s`, as `inode_open` reads it. */
  function InodeAt(disk: Disk, s: Sector): InodeDisk
  {
    if s in disk && disk[s].Meta? then disk[s].inode else ZeroInodeDisk()
  }

  function DirAt(d: InodeDisk, i: nat): Sector
  {
    if i < |d.dir| then d.dir[i] else 0
  }

  function SingleAt(d: InodeDisk, which: nat): Sector
  {
    if which < |d.single| then d.single[which] else 0
  }

  /** The sector number stored at a location of the index. */
  function SectorAt(disk: Disk, d: InodeDisk, loc: Location): Sector
  {
    match loc
    case Direct(slot) => DirAt(d, slot)
    case Single(which, entry) => Entry(disk, SingleAt(d, which), entry)
    case Double(outer, inner) => Entry(disk, Entry(disk, d.double, outer), inner)
  }

  /** The sector that holds data block `index` of the file. */
  function BlockSector(disk: Disk, d: InodeDisk, index: nat): Sector
  {
    SectorAt(disk, d, Locate(index))
  }

  /**
   * `byte_to_sector_helper`: the sector holding byte `pos` of a file of
   * `len` bytes, or `NO_SECTOR` at or past the end.
   */
  function ByteToSector(disk: Disk, d: InodeDisk, pos: nat, len: nat): (r: Sector)
    ensures pos >= len ==> r == NO_SECTOR
    ensures pos < len ==> r == SectorAt(disk, d, Locate(pos / SECTOR_SIZE))
  {
    if pos < len then
      var index := pos / SECTOR_SIZE;
      if index < DIR_LEN then DirAt(d, index)
      else if index < DIR_LEN + PTRS then Entry(disk, SingleAt(d, 0), index - DIR_LEN)
      else if index < DIR_LEN + 2 * PTRS then Entry(disk, SingleAt(d, 1), index - DIR_LEN - PTRS)
      else
        var k := index - DOUBLE_START;
        Entry(disk, Entry(disk, d.double, k / PTRS), k % PTRS)
    else
      NO_SECTOR
  }

  /** Byte `pos` of the file as the index and the data sectors hold it. */
  function FileByte(disk: Disk, d: InodeDisk, pos: nat): byte
  {
    DataOf(disk, BlockSector(disk, d, pos / SECTOR_SIZE))[pos % SECTOR_SIZE]
  }

  /**
   * The bytes of a file's last block past its length read as zero. Blocks
   * are zeroed whole when they are allocated and writes stay below the
   * new length, so this holds of every file the inode layer leaves.
   */
  ghost predicate TailZero(disk: Disk, d: InodeDisk)
  {
    forall p: nat :: d.length <= p && p / SECTOR_SIZE == d.length / SECTOR_SIZE ==> FileByte(disk, d, p) == 0
  }

  function Min(a: nat, b: nat): nat
  {
    if a < b then a else b
  }

  function Max(a: nat, b: nat): nat
  {
    if a > b then a else b
  }

  function Elems(s: seq<Sector>): set<Sector>
  {
    set x | x in s
  }

  /** No sector appears twice in `s`. */
  predicate Distinct(s: seq<Sector>)
  {
    |s| == 0 || (s[|s| - 1] !in s[..|s| - 1] && Distinct(s[..|s| - 1]))
  }

  lemma {:induction false} DistinctAt(s: seq<Sector>, i: nat, j: nat)
    requires Distinct(s) && i < j < |s|
    ensures s[i] != s[j]
  {
    var n := |s| - 1;
    if j == n {
      assert s[i] == s[..n][i];
    } else {
      DistinctAt(s[..n], i, j);
    }
  }

  /** Second-level blocks named by the first `n` entries of the doubly
      indirect block. */
  function SecondLevel(disk: Disk, d: InodeDisk, n: nat): seq<Sector>
  {
    if n == 0 then [] else SecondLevel(disk, d, n - 1) + [Entry(disk, d.double, n - 1)]
  }

  /** Index sectors reached before the second level, for last block `index`. */
  function TopIndex(d: InodeDisk, index: nat): seq<Sector>
  {
    (if index >= DIR_LEN then [SingleAt(d, 0)] else [])
    + (if index >= SINGLE2_START then [SingleAt(d, 1)] else [])
    + (if index >= DOUBLE_START then [d.double] else [])
  }

  /** Every index sector of a file whose last block is `index`. */
  function IndexSectors(disk: Disk, d: InodeDisk, index: nat): seq<Sector>
  {
    TopIndex(d, index) + (if index >= DOUBLE_START then SecondLevel(disk, d, Outer(index) + 1) else [])
  }

  /** Sectors of the first `n` data blocks. */
  function DataUpTo(disk: Disk, d: InodeDisk, n: nat): seq<Sector>
  {
    if n == 0 then [] else DataUpTo(disk, d, n - 1) + [BlockSector(disk, d, n - 1)]
  }

  /** Every sector a file whose last block is `index` occupies besides its
      inode: index sectors first, then data sectors, in allocation order. */
  function Footprint(disk: Disk, d: InodeDisk, index: nat): seq<Sector>
  {
    IndexSectors(disk, d, index) + DataUpTo(disk, d, index + 1)
  }

  lemma ElemsAppend(a: seq<Sector>, b: seq<Sector>)
    ensures Elems(a + b) == Elems(a) + Elems(b)
  {
    assert forall x :: x in a + b <==> x in a || x in b;
  }

  lemma ElemsSnoc(a: seq<Sector>, x: Sector)
    ensures Elems(a + [x]) == Elems(a) + {x}
  {
    ElemsAppend(a, [x]);
  }

  /** Bytes `pos` and `pos + t` lie in the same sector when `t` does not
      cross its end. */
  lemma SameSector(pos: nat, t: nat)
    requires t < SECTOR_SIZE - pos % SECTOR_SIZE
    ensures (pos + t) / SECTOR_SIZE == pos / SECTOR_SIZE
    ensures (pos + t) % SECTOR_SIZE == pos % SECTOR_SIZE + t
  {
    var q := pos / SECTOR_SIZE;
    var r := pos % SECTOR_SIZE;
    assert pos + t == q * SECTOR_SIZE + (r + t);
    DivModSector(pos + t, q, r + t);
  }

  /** The bytes of one chunk of `inode_read_at` are the file's bytes. */
  lemma SectorPiece(disk: Disk, d: InodeDisk, pos: nat, len: nat, chunk: nat)
    requires pos < len && chunk <= SECTOR_SIZE - pos % SECTOR_SIZE
    ensures var piece := DataOf(disk, ByteToSector(disk, d, pos, len))[pos % SECTOR_SIZE..pos % SECTOR_SIZE + chunk];
            forall t :: 0 <= t < chunk ==> piece[t] == FileByte(disk, d, pos + t)
  {
    var piece := DataOf(disk, ByteToSector(disk, d, pos, len))[pos % SECTOR_SIZE..pos % SECTOR_SIZE + chunk];
    forall t | 0 <= t < chunk
      ensures piece[t] == FileByte(disk, d, pos + t)
    {
      SameSector(pos, t);
    }
  }

  /** A chunk read at byte `pos` extends a prefix of the file read from `offset`. */
  lemma ReadChunk(disk: Disk, d: InodeDisk, pos: nat, len: nat, chunk: nat, offset: nat, buffer: seq<byte>)
    requires pos == offset + |buffer| && pos < len && chunk <= SECTOR_SIZE - pos % SECTOR_SIZE
    requires forall j :: 0 <= j < |buffer| ==> buffer[j] == FileByte(disk, d, offset + j)
    ensures var piece := DataOf(disk, ByteToSector(disk, d, pos, len))[pos % SECTOR_SIZE..pos % SECTOR_SIZE + chunk];
            forall j :: 0 <= j < |buffer + piece| ==> (buffer + piece)[j] == FileByte(disk, d, offset + j)
  {
    var piece := DataOf(disk, ByteToSector(disk, d, pos, len))[pos % SECTOR_SIZE..pos % SECTOR_SIZE + chunk];
    SectorPiece(disk, d, pos, len, chunk);
    forall j | |buffer| <= j < |buffer + piece|
      ensures (buffer + piece)[j] == FileByte(disk, d, offset + j)
    {
      assert (buffer + piece)[j] == piece[j - |buffer|];
    }
  }

  lemma DivModSector(n: nat, q: nat, r: nat)
    requires r < SECTOR_SIZE && n == q * SECTOR_SIZE + r
    ensures n / SECTOR_SIZE == q && n % SECTOR_SIZE == r
  {
  }

  /** Every inode stored on the disk is shaped and shorter than `MAX_LEN`. */
  ghost predicate InodesSane(disk: Disk)
  {
    forall s :: s in disk && disk[s].Meta? ==> Shaped(disk[s].inode) && disk[s].inode.length < MAX_LEN
  }

  /** Second-level blocks already released once blocks `0..i-1` of a file
      whose last block is `index` are released. */
  function Flushed(i: nat, index: nat): nat
  {
    if i > index && index >= DOUBLE_START then Outer(index) + 1 else Outer(i)
  }

  lemma FlushedStep(i: nat, index: nat)
    requires i <= index
    ensures i < DOUBLE_START ==> Flushed(i + 1, index) == 0 == Flushed(i, index)
    ensures i >= DOUBLE_START ==> Flushed(i, index) == Outer(i)
    ensures i >= DOUBLE_START && (Inner(i) == PTRS - 1 || i == index) ==> Flushed(i + 1, index) == Outer(i) + 1
    ensures i >= DOUBLE_START && Inner(i) != PTRS - 1 && i != index ==>
      Flushed(i + 1, index) == Outer(i) && Outer(i + 1) == Outer(i) && Inner(i + 1) == Inner(i) + 1
  {
    if i >= DOUBLE_START {
      NextInner(i);
    }
  }

  /** The second-level block released together with data block `i`, if any. */
  function FlushSet(disk: Disk, d: InodeDisk, i: nat, index: nat): set<Sector>
  {
    if i >= DOUBLE_START && (Inner(i) == PTRS - 1 || i == index) then {Entry(disk, d.double, Outer(i))} else {}
  }

  /** The index tables `inode_close` reads before releasing data blocks. */
  predicate TablesRead(dk: Disk, d: InodeDisk, index: nat, t1: map<nat, Sector>, t2: map<nat, Sector>, t2l1: map<nat, Sector>)
  {
    && (index >= DIR_LEN ==> t1 == Entries(dk, SingleAt(d, 0)))
    && (index >= SINGLE2_START ==> t2 == Entries(dk, SingleAt(d, 1)))
    && (index >= DOUBLE_START ==> t2l1 == Entries(dk, d.double))
  }

  /** `cur` holds the second-level block of data block `i` once that block
      is past the first of its group. */
  predicate CurrentGroup(dk: Disk, d: InodeDisk, i: nat, index: nat, cur: map<nat, Sector>)
  {
    DOUBLE_START <= i <= index && Inner(i) != 0 ==> cur == Entries(dk, Entry(dk, d.double, Outer(i)))
  }

  /** Sectors of the first `n` data blocks, as a set. */
  function DataSet(disk: Disk, d: InodeDisk, n: nat): set<Sector>
  {
    if n == 0 then {} else DataSet(disk, d, n - 1) + {BlockSector(disk, d, n - 1)}
  }

  /** The first `n` second-level blocks, as a set. */
  function SecondSet(disk: Disk, d: InodeDisk, n: nat): set<Sector>
  {
    if n == 0 then {} else SecondSet(disk, d, n - 1) + {Entry(disk, d.double, n - 1)}
  }

  lemma {:induction false} DataSetElems(disk: Disk, d: InodeDisk, n: nat)
    ensures DataSet(disk, d, n) == Elems(DataUpTo(disk, d, n))
  {
    if n > 0 {
      DataSetElems(disk, d, n - 1);
      ElemsSnoc(DataUpTo(disk, d, n - 1), BlockSector(disk, d, n - 1));
    }
  }

  lemma {:induction false} SecondSetElems(disk: Disk, d: InodeDisk, n: nat)
    ensures SecondSet(disk, d, n) == Elems(SecondLevel(disk, d, n))
  {
    if n > 0 {
      SecondSetElems(disk, d, n - 1);
      ElemsSnoc(SecondLevel(disk, d, n - 1), Entry(disk, d.double, n - 1));
    }
  }

  /** What `inode_close` has returned to the free map once blocks
      `0..i-1` of a file whose last block is `index` are released. */
  function Released(disk: Disk, d: InodeDisk, sector: Sector, i: nat, index: nat): set<Sector>
  {
    if i == 0 then {sector} + Elems(TopIndex(d, index))
    else Released(disk, d, sector, i - 1, index) + ({BlockSector(disk, d, i - 1)} + FlushSet(disk, d, i - 1, index))
  }

  /** The same set, tier by tier. */
  lemma {:induction false} ReleasedTiers(disk: Disk, d: InodeDisk, sector: Sector, i: nat, index: nat)
    requires i <= index + 1
    ensures Released(disk, d, sector, i, index)
      == {sector} + Elems(TopIndex(d, index)) + DataSet(disk, d, i) + SecondSet(disk, d, Flushed(i, index))
  {
    if i > 0 {
      var j := i - 1;
      ReleasedUnfold(disk, d, sector, j, index);
      FlushedSet(disk, d, j, index);
      ReleasedTiers(disk, d, sector, j, index);
      TierStep(Released(disk, d, sector, j + 1, index), Released(disk, d, sector, j, index),
               {sector} + Elems(TopIndex(d, index)),
               DataSet(disk, d, j), DataSet(disk, d, j + 1),
               SecondSet(disk, d, Flushed(j, index)), SecondSet(disk, d, Flushed(j + 1, index)),
               {BlockSector(disk, d, j)}, FlushSet(disk, d, j, index));
    }
  }

  lemma ReleasedUnfold(disk: Disk, d: InodeDisk, sector: Sector, j: nat, index: nat)
    ensures Released(disk, d, sector, j + 1, index) == Released(disk, d, sector, j, index) + ({BlockSector(disk, d, j)} + FlushSet(disk, d, j, index))
    ensures DataSet(disk, d, j + 1) == DataSet(disk, d, j) + {BlockSector(disk, d, j)}
  {
  }

  /** Releasing block `i` adds its second-level block, if any, to those flushed. */
  lemma FlushedSet(disk: Disk, d: InodeDisk, i: nat, index: nat)
    requires i <= index
    ensures SecondSet(disk, d, Flushed(i + 1, index)) == SecondSet(disk, d, Flushed(i, index)) + FlushSet(disk, d, i, index)
  {
    FlushedStep(i, index);
  }

  lemma TierStep(r1: set<Sector>, r0: set<Sector>, top: set<Sector>, data0: set<Sector>, data1: set<Sector>,
                 second0: set<Sector>, second1: set<Sector>, block: set<Sector>, flush: set<Sector>)
    requires r1 == r0 + (block + flush) && r0 == top + data0 + second0
    requires data1 == data0 + block && second1 == second0 + flush
    ensures r1 == top + data1 + second1
  {
  }

  /** Once every block is released, the whole footprint is. */
  lemma ReleasedFootprint(disk: Disk, d: InodeDisk, sector: Sector, index: nat, f0: set<Sector>)
    ensures f0 + Released(disk, d, sector, index + 1, index) == f0 + {sector} + Elems(Footprint(disk, d, index))
  {
    ReleasedTiers(disk, d, sector, index + 1, index);
    DataSetElems(disk, d, index + 1);
    SecondSetElems(disk, d, Flushed(index + 1, index));
    FootprintElems(disk, d, index);
  }

  lemma UnionShift(a: set<Sector>, b: set<Sector>, c: set<Sector>)
    ensures a + b + c == a + (b + c)
  {
  }

  /** The released sets add up to the whole footprint. */
  lemma FootprintElems(disk: Disk, d: InodeDisk, index: nat)
    ensures Elems(Footprint(disk, d, index))
      == Elems(TopIndex(d, index)) + Elems(DataUpTo(disk, d, index + 1))
         + Elems(SecondLevel(disk, d, Flushed(index + 1, index)))
  {
    var second := if index >= DOUBLE_START then SecondLevel(disk, d, Outer(index) + 1) else [];
    ElemsAppend(TopIndex(d, index), second);
    ElemsAppend(TopIndex(d, index) + second, DataUpTo(disk, d, index + 1));
    if index < DOUBLE_START {
      assert Flushed(index + 1, index) == 0;
      assert SecondLevel(disk, d, 0) == [];
    }
  }

  /** The free map `free0` after allocating the sectors of `fp` in order. */
  function Remaining(free0: set<Sector>, fp: seq<Sector>): set<Sector>
  {
    if |fp| == 0 then free0 else Remaining(free0, fp[..|fp| - 1]) - {fp[|fp| - 1]}
  }

  lemma {:induction false} RemainingIsDifference(free0: set<Sector>, fp: seq<Sector>)
    ensures Remaining(free0, fp) == free0 - Elems(fp)
  {
    if |fp| > 0 {
      var n := |fp| - 1;
      RemainingIsDifference(free0, fp[..n]);
      assert fp == fp[..n] + [fp[n]];
      ElemsSnoc(fp[..n], fp[n]);
    }
  }

  /** Sectors allocated from the free map `free0` so far, in order: all
      distinct, each taken from what was free at the time. */
  ghost predicate Taken(free0: set<Sector>, free: set<Sector>, fp: seq<Sector>)
  {
    free == Remaining(free0, fp) && Distinct(fp) && |free| + |fp| == |free0|
  }

  lemma TakenSnoc(free0: set<Sector>, free: set<Sector>, fp: seq<Sector>, s: Sector)
    requires Taken(free0, free, fp) && s in free
    ensures Taken(free0, free - {s}, fp + [s])
  {
    RemainingIsDifference(free0, fp);
    assert (fp + [s])[..|fp|] == fp;
  }

  /** What `Taken` says about the free map as a set. */
  lemma TakenElems(free0: set<Sector>, free: set<Sector>, fp: seq<Sector>)
    requires Taken(free0, free, fp)
    ensures free == free0 - Elems(fp) && Elems(fp) <= free0
  {
    RemainingIsDifference(free0, fp);
    TakenWithin(free0, fp);
  }

  lemma TakenWithin(free0: set<Sector>, fp: seq<Sector>)
    requires |Remaining(free0, fp)| + |fp| == |free0| && Distinct(fp)
    ensures Elems(fp) <= free0
  {
    RemainingIsDifference(free0, fp);
    DistinctCard(fp);
    var inside := Elems(fp) * free0;
    assert free0 - Elems(fp) == free0 - inside;
    assert (free0 - inside) + inside == free0 && (free0 - inside) * inside == {};
    SameCardSubset(inside, Elems(fp));
  }

  lemma {:induction false} DistinctCard(s: seq<Sector>)
    requires Distinct(s)
    ensures |Elems(s)| == |s|
  {
    if |s| > 0 {
      var n := |s| - 1;
      DistinctCard(s[..n]);
      assert s == s[..n] + [s[n]];
      ElemsSnoc(s[..n], s[n]);
    }
  }

  /** A subset as large as its superset is the superset. */
  lemma SameCardSubset(a: set<Sector>, b: set<Sector>)
    requires a <= b && |a| == |b|
    ensures a == b
  {
    if !(b <= a) {
      var x :| x in b && x !in a;
      SubsetSmaller(a, b - {x});
    }
  }

  lemma {:induction false} SubsetSmaller(a: set<Sector>, b: set<Sector>)
    requires a <= b
    ensures |a| <= |b|
    decreases |b|
  {
    if a != {} {
      var x :| x in a;
      SubsetSmaller(a - {x}, b - {x});
    }
  }

  /** The second-level sectors as `inode_create` lists them in the doubly
      indirect block. */
  function Seconds(t2l1: map<nat, Sector>, index: nat): seq<Sector>
  {
    if index >= DOUBLE_START then seq(Outer(index) + 1, (o: nat) => Get(t2l1, o)) else []
  }

  /** Sector `s` holds a zero-filled data block. */
  ghost predicate Zeroed(disk: Disk, s: Sector)
  {
    s in disk && disk[s] == Data(Zeros(SECTOR_SIZE))
  }

  /** The second-level sectors of `t2l1` in use for last block `index` lie
      apart from each other and from the data sectors `blocks`, which are
      all distinct. */
  ghost predicate Apart(t2l1: map<nat, Sector>, index: nat, blocks: seq<Sector>)
  {
    (forall k, j :: 0 <= k < j < |blocks| ==> blocks[k] != blocks[j]) &&
    (index >= DOUBLE_START ==>
      (forall o, p :: 0 <= o < p <= Outer(index) ==> Get(t2l1, o) != Get(t2l1, p)) &&
      (forall k, o :: 0 <= k < |blocks| && 0 <= o <= Outer(index) ==> blocks[k] != Get(t2l1, o)))
  }

  /** Distinct allocations keep the second-level sectors and the data sectors apart. */
  lemma ApartFromDistinct(pre: seq<Sector>, t2l1: map<nat, Sector>, index: nat, blocks: seq<Sector>)
    requires Distinct(pre + Seconds(t2l1, index) + blocks)
    ensures Apart(t2l1, index, blocks)
  {
    var all := pre + Seconds(t2l1, index) + blocks;
    var base := |pre| + |Seconds(t2l1, index)|;
    forall k, j | 0 <= k < j < |blocks|
      ensures blocks[k] != blocks[j]
    {
      assert all[base + k] == blocks[k] && all[base + j] == blocks[j];
      DistinctAt(all, base + k, base + j);
    }
    if index >= DOUBLE_START {
      forall o, q | 0 <= o < q <= Outer(index)
        ensures Get(t2l1, o) != Get(t2l1, q)
      {
        assert all[|pre| + o] == Get(t2l1, o) && all[|pre| + q] == Get(t2l1, q);
        DistinctAt(all, |pre| + o, |pre| + q);
      }
      forall k, o | 0 <= k < |blocks| && 0 <= o <= Outer(index)
        ensures blocks[k] != Get(t2l1, o)
      {
        assert all[|pre| + o] == Get(t2l1, o) && all[base + k] == blocks[k];
        DistinctAt(all, |pre| + o, base + k);
      }
    }
  }

  /** The direct and single-indirect slots hold `blocks`' first entries. */
  ghost predicate LowPlaced(dir: seq<Sector>, t1: map<nat, Sector>, t2: map<nat, Sector>, blocks: seq<Sector>)
  {
    var i := |blocks|;
    |dir| == DIR_LEN &&
    (forall k :: 0 <= k < i && k < DIR_LEN ==> dir[k] == blocks[k]) &&
    (forall k :: DIR_LEN <= k < i && k < SINGLE2_START ==> Get(t1, k - DIR_LEN) == blocks[k]) &&
    (forall k :: SINGLE2_START <= k < i && k < DOUBLE_START ==> Get(t2, k - SINGLE2_START) == blocks[k])
  }

  /** Doubly-indirect blocks of groups already written out are reachable on disk. */
  ghost predicate FlushedPlaced(disk: Disk, t2l1: map<nat, Sector>, blocks: seq<Sector>, index: nat)
  {
    forall k :: DOUBLE_START <= k < |blocks| && Outer(k) < Flushed(|blocks|, index) ==>
      Entry(disk, Get(t2l1, Outer(k)), Inner(k)) == blocks[k]
  }

  /** Doubly-indirect blocks of the group still being filled sit in `cur`. */
  ghost predicate CurrentPlaced(cur: map<nat, Sector>, blocks: seq<Sector>, index: nat)
  {
    forall k :: DOUBLE_START <= k < |blocks| && Flushed(|blocks|, index) <= Outer(k) ==> Get(cur, Inner(k)) == blocks[k]
  }

  ghost predicate AllZeroed(disk: Disk, blocks: seq<Sector>)
  {
    forall k :: 0 <= k < |blocks| ==> Zeroed(disk, blocks[k])
  }

  /**
   * Where the loop of `inode_create` has put the data sectors `blocks`
   * allocated so far: in the direct pointers `dir`, in the singly indirect
   * pages `t1` and `t2` still held in memory, in second-level blocks
   * already written out for groups before `Flushed`, or in the page `cur`
   * of the group being filled; and every one of them is zeroed on disk.
   */
  ghost predicate Placed(disk: Disk, dir: seq<Sector>, t1: map<nat, Sector>, t2: map<nat, Sector>,
                         t2l1: map<nat, Sector>, cur: map<nat, Sector>, blocks: seq<Sector>, index: nat)
  {
    LowPlaced(dir, t1, t2, blocks) && FlushedPlaced(disk, t2l1, blocks, index) &&
    CurrentPlaced(cur, blocks, index) && AllZeroed(disk, blocks)
  }

  lemma PlacedEmpty(disk: Disk, dir: seq<Sector>, t2l1: map<nat, Sector>, index: nat)
    requires |dir| == DIR_LEN
    ensures Placed(disk, dir, map[], map[], t2l1, map[], [], index)
  {
  }

  /** A turn of the loop in the direct tier. */
  lemma PlaceDirect(disk: Disk, dir: seq<Sector>, t1: map<nat, Sector>, t2: map<nat, Sector>,
                    t2l1: map<nat, Sector>, cur: map<nat, Sector>, blocks: seq<Sector>, index: nat, s: Sector)
    requires Placed(disk, dir, t1, t2, t2l1, cur, blocks, index)
    requires |blocks| < DIR_LEN && |blocks| <= index
    requires forall k :: 0 <= k < |blocks| ==> blocks[k] != s
    ensures Placed(disk[s := Data(Zeros(SECTOR_SIZE))], dir[|blocks| := s], t1, t2, t2l1, cur, blocks + [s], index)
  {
    FlushedStep(|blocks|, index);
  }

  /** A turn of the loop in the first singly indirect tier. */
  lemma PlaceSingle1(disk: Disk, dir: seq<Sector>, t1: map<nat, Sector>, t2: map<nat, Sector>,
                     t2l1: map<nat, Sector>, cur: map<nat, Sector>, blocks: seq<Sector>, index: nat, s: Sector)
    requires Placed(disk, dir, t1, t2, t2l1, cur, blocks, index)
    requires DIR_LEN <= |blocks| < SINGLE2_START && |blocks| <= index
    requires forall k :: 0 <= k < |blocks| ==> blocks[k] != s
    ensures Placed(disk[s := Data(Zeros(SECTOR_SIZE))], dir, t1[|blocks| - DIR_LEN := s], t2, t2l1, cur, blocks + [s], index)
  {
    FlushedStep(|blocks|, index);
  }

  /** A turn of the loop in the second singly indirect tier. */
  lemma PlaceSingle2(disk: Disk, dir: seq<Sector>, t1: map<nat, Sector>, t2: map<nat, Sector>,
                     t2l1: map<nat, Sector>, cur: map<nat, Sector>, blocks: seq<Sector>, index: nat, s: Sector)
    requires Placed(disk, dir, t1, t2, t2l1, cur, blocks, index)
    requires SINGLE2_START <= |blocks| < DOUBLE_START && |blocks| <= index
    requires forall k :: 0 <= k < |blocks| ==> blocks[k] != s
    ensures Placed(disk[s := Data(Zeros(SECTOR_SIZE))], dir, t1, t2[|blocks| - SINGLE2_START := s], t2l1, cur, blocks + [s], index)
  {
    FlushedStep(|blocks|, index);
  }

  /**
   * A turn of the loop in the doubly indirect tier: the page of the group
   * is zeroed at the group's first block, the new sector goes into it, and
   * at the group's last block, or the file's, the page is written to its
   * second-level sector.
   */
  lemma PlaceDouble(disk: Disk, dir: seq<Sector>, t1: map<nat, Sector>, t2: map<nat, Sector>,
                    t2l1: map<nat, Sector>, cur: map<nat, Sector>, blocks: seq<Sector>, index: nat, s: Sector,
                    page: map<nat, Sector>, disk': Disk)
    requires Placed(disk, dir, t1, t2, t2l1, cur, blocks, index)
    requires DOUBLE_START <= |blocks| <= index
    requires Apart(t2l1, index, blocks + [s])
    requires page == (if Inner(|blocks|) == 0 then map[] else cur)[Inner(|blocks|) := s]
    requires Inner(|blocks|) == PTRS - 1 || |blocks| == index ==>
               disk' == disk[s := Data(Zeros(SECTOR_SIZE))][Get(t2l1, Outer(|blocks|)) := Index(page)]
    requires Inner(|blocks|) != PTRS - 1 && |blocks| != index ==> disk' == disk[s := Data(Zeros(SECTOR_SIZE))]
    ensures Placed(disk', dir, t1, t2, t2l1, page, blocks + [s], index)
  {
    var i := |blocks|;
    OuterMonotone(i, index);
    assert (blocks + [s])[i] == s;
    assert s != Get(t2l1, Outer(i));
    DoubleKeepsZeroed(disk, blocks, t2l1, index, s, page, disk');
    LowerTiersKept(dir, t1, t2, blocks, s);
    DoubleFlushed(disk, dir, t1, t2, t2l1, cur, blocks, index, s, page, disk');
    DoubleCurrent(disk, dir, t1, t2, t2l1, cur, blocks, index, s, page);
  }

  lemma LowerTiersKept(dir: seq<Sector>, t1: map<nat, Sector>, t2: map<nat, Sector>, blocks: seq<Sector>, s: Sector)
    requires |blocks| >= DOUBLE_START && LowPlaced(dir, t1, t2, blocks)
    ensures LowPlaced(dir, t1, t2, blocks + [s])
  {
  }

  lemma DoubleKeepsZeroed(disk: Disk, blocks: seq<Sector>, t2l1: map<nat, Sector>, index: nat, s: Sector,
                          page: map<nat, Sector>, disk': Disk)
    requires AllZeroed(disk, blocks)
    requires DOUBLE_START <= |blocks| <= index
    requires Apart(t2l1, index, blocks + [s])
    requires s != Get(t2l1, Outer(|blocks|)) && Outer(|blocks|) <= Outer(index)
    requires disk' == disk[s := Data(Zeros(SECTOR_SIZE))] ||
             disk' == disk[s := Data(Zeros(SECTOR_SIZE))][Get(t2l1, Outer(|blocks|)) := Index(page)]
    ensures AllZeroed(disk', blocks + [s])
  {
    var nb := blocks + [s];
    assert nb[|blocks|] == s;
    forall k | 0 <= k < |blocks| + 1
      ensures Zeroed(disk', nb[k])
    {
      assert nb[k] != Get(t2l1, Outer(|blocks|));
      if k < |blocks| {
        assert nb[k] == blocks[k] && nb[k] != s;
      }
    }
  }

  lemma DoubleFlushed(disk: Disk, dir: seq<Sector>, t1: map<nat, Sector>, t2: map<nat, Sector>,
                      t2l1: map<nat, Sector>, cur: map<nat, Sector>, blocks: seq<Sector>, index: nat, s: Sector,
                      page: map<nat, Sector>, disk': Disk)
    requires FlushedPlaced(disk, t2l1, blocks, index) && CurrentPlaced(cur, blocks, index)
    requires DOUBLE_START <= |blocks| <= index
    requires Apart(t2l1, index, blocks + [s])
    requires page == (if Inner(|blocks|) == 0 then map[] else cur)[Inner(|blocks|) := s]
    requires Inner(|blocks|) == PTRS - 1 || |blocks| == index ==>
               disk' == disk[s := Data(Zeros(SECTOR_SIZE))][Get(t2l1, Outer(|blocks|)) := Index(page)]
    requires Inner(|blocks|) != PTRS - 1 && |blocks| != index ==> disk' == disk[s := Data(Zeros(SECTOR_SIZE))]
    ensures FlushedPlaced(disk', t2l1, blocks + [s], index)
  {
    var i := |blocks|;
    var nb := blocks + [s];
    var g := Get(t2l1, Outer(i));
    FlushedStep(i, index);
    OuterMonotone(i, index);
    forall k | DOUBLE_START <= k < i + 1 && Outer(k) < Flushed(i + 1, index)
      ensures Entry(disk', Get(t2l1, Outer(k)), Inner(k)) == nb[k]
    {
      if k < i {
        SameGroupBefore(k, i);
        OuterMonotone(k, index);
        if Outer(k) < Outer(i) {
          var h := Get(t2l1, Outer(k));
          assert nb[i] == s;
          assert h != g && h != s;
          assert Entries(disk', h) == Entries(disk, h);
        } else {
          assert Get(page, Inner(k)) == Get(cur, Inner(k));
        }
      }
    }
  }

  lemma DoubleCurrent(disk: Disk, dir: seq<Sector>, t1: map<nat, Sector>, t2: map<nat, Sector>,
                      t2l1: map<nat, Sector>, cur: map<nat, Sector>, blocks: seq<Sector>, index: nat, s: Sector,
                      page: map<nat, Sector>)
    requires CurrentPlaced(cur, blocks, index)
    requires DOUBLE_START <= |blocks| <= index
    requires page == (if Inner(|blocks|) == 0 then map[] else cur)[Inner(|blocks|) := s]
    ensures CurrentPlaced(page, blocks + [s], index)
  {
    var i := |blocks|;
    FlushedStep(i, index);
    forall k | DOUBLE_START <= k < i + 1 && Flushed(i + 1, index) <= Outer(k)
      ensures Get(page, Inner(k)) == (blocks + [s])[k]
    {
      if k < i {
        SameGroupBefore(k, i);
      }
    }
  }

  /** Disks `a` and `b` agree on every sector outside `changed`. */
  ghost predicate Agree(a: Disk, b: Disk, changed: set<Sector>)
  {
    forall x :: x !in changed ==> (x in a <==> x in b) && (x in a ==> a[x] == b[x])
  }

  /** The tail of `inode_create`: the singly indirect pages the length
      needs, then the inode itself, are written out. */
  function WriteTables(disk: Disk, d: InodeDisk, t1: map<nat, Sector>, t2: map<nat, Sector>,
                       index: nat, sector: Sector): Disk
  {
    var a := if index >= DIR_LEN then disk[SingleAt(d, 0) := Index(t1)] else disk;
    var b := if index >= SINGLE2_START then a[SingleAt(d, 1) := Index(t2)] else a;
    b[sector := Meta(d)]
  }

  /** `Distinct` is pairwise distinctness. */
  lemma {:induction false} DistinctPairwise(s: seq<Sector>)
    ensures Distinct(s) <==> forall i, j :: 0 <= i < j < |s| ==> s[i] != s[j]
  {
    if |s| > 0 {
      var n := |s| - 1;
      DistinctPairwise(s[..n]);
      if Distinct(s) {
        forall i, j | 0 <= i < j < |s|
          ensures s[i] != s[j]
        {
          DistinctAt(s, i, j);
        }
      }
      if forall i, j :: 0 <= i < j < |s| ==> s[i] != s[j] {
        assert forall i, j :: 0 <= i < j < n ==> s[..n][i] != s[..n][j];
        assert s[n] !in s[..n];
      }
    }
  }

  /** The parts of a distinct sequence are distinct and share nothing. */
  lemma DistinctSplit(a: seq<Sector>, b: seq<Sector>)
    requires Distinct(a + b)
    ensures Distinct(a) && Distinct(b) && Elems(a) !! Elems(b)
  {
    var ab := a + b;
    DistinctPairwise(ab);
    DistinctPairwise(a);
    DistinctPairwise(b);
    forall i, j | 0 <= i < j < |a|
      ensures a[i] != a[j]
    {
      assert a[i] == ab[i] && a[j] == ab[j];
    }
    forall i, j | 0 <= i < j < |b|
      ensures b[i] != b[j]
    {
      assert b[i] == ab[|a| + i] && b[j] == ab[|a| + j];
    }
    forall x | x in Elems(a)
      ensures x !in Elems(b)
    {
      var i :| 0 <= i < |a| && a[i] == x;
      assert ab[i] == x;
      if j :| 0 <= j < |b| && b[j] == x {
        assert ab[|a| + j] == x;
      }
    }
  }

  /** The layout `inode_create` leaves: what the sectors it allocated,
      index sectors `top` and then data sectors `blocks`, have in common. */
  ghost predicate Laid(d: InodeDisk, t2l1: map<nat, Sector>, blocks: seq<Sector>, index: nat, sector: Sector)
  {
    var top := TopIndex(d, index) + Seconds(t2l1, index);
    Distinct(top + blocks) && sector !in Elems(top + blocks)
  }

  /** The sectors that the final writes of `inode_create` overwrite lie
      apart from the second-level and data sectors. */
  lemma LaidApart(d: InodeDisk, t2l1: map<nat, Sector>, blocks: seq<Sector>, index: nat, sector: Sector)
    requires Laid(d, t2l1, blocks, index, sector)
    ensures Apart(t2l1, index, blocks)
    ensures var rest := Elems(Seconds(t2l1, index)) + Elems(blocks);
            && sector !in rest
            && (index >= DIR_LEN ==> SingleAt(d, 0) !in rest && SingleAt(d, 0) != sector)
            && (index >= SINGLE2_START ==> SingleAt(d, 1) !in rest && SingleAt(d, 1) != sector && SingleAt(d, 1) != SingleAt(d, 0))
            && (index >= DOUBLE_START ==> d.double !in rest && d.double != sector &&
                                          d.double != SingleAt(d, 0) && d.double != SingleAt(d, 1))
  {
    var ti := TopIndex(d, index);
    var sec := Seconds(t2l1, index);
    ApartFromDistinct(ti, t2l1, index, blocks);
    assert ti + sec + blocks == ti + (sec + blocks);
    DistinctSplit(ti, sec + blocks);
    ElemsAppend(sec, blocks);
    ElemsAppend(ti + sec, blocks);
    ElemsAppend(ti, sec);
    DistinctPairwise(ti);
    if index >= DOUBLE_START {
      assert ti == [SingleAt(d, 0), SingleAt(d, 1), d.double];
      assert ti[0] == SingleAt(d, 0) && ti[1] == SingleAt(d, 1) && ti[2] == d.double;
    } else if index >= SINGLE2_START {
      assert ti == [SingleAt(d, 0), SingleAt(d, 1)];
      assert ti[0] == SingleAt(d, 0) && ti[1] == SingleAt(d, 1);
    } else if index >= DIR_LEN {
      assert ti == [SingleAt(d, 0)];
    }
  }

  /** Sector `x` is not among those the tail of `inode_create` overwrites. */
  predicate Untouched(d: InodeDisk, index: nat, sector: Sector, x: Sector)
  {
    x != sector && (index >= DIR_LEN ==> x != SingleAt(d, 0)) && (index >= SINGLE2_START ==> x != SingleAt(d, 1))
  }

  lemma WriteTablesAt(disk: Disk, d: InodeDisk, t1: map<nat, Sector>, t2: map<nat, Sector>, index: nat, sector: Sector)
    requires index >= DIR_LEN ==> SingleAt(d, 0) != sector
    requires index >= SINGLE2_START ==> SingleAt(d, 1) != sector && SingleAt(d, 1) != SingleAt(d, 0)
    ensures var diskF := WriteTables(disk, d, t1, t2, index, sector);
            && InodeAt(diskF, sector) == d
            && (index >= DIR_LEN ==> Entries(diskF, SingleAt(d, 0)) == t1)
            && (index >= SINGLE2_START ==> Entries(diskF, SingleAt(d, 1)) == t2)
            && Agree(diskF, disk, {sector} + (if index >= DIR_LEN then {SingleAt(d, 0)} else {})
                                            + (if index >= SINGLE2_START then {SingleAt(d, 1)} else {}))
  {
  }

  /** Every block in the direct and singly indirect tiers reaches its data sector. */
  lemma CreatedLow(diskF: Disk, d: InodeDisk, t1: map<nat, Sector>, t2: map<nat, Sector>, blocks: seq<Sector>, index: nat)
    requires |blocks| == index + 1 && LowPlaced(d.dir, t1, t2, blocks)
    requires index >= DIR_LEN ==> Entries(diskF, SingleAt(d, 0)) == t1
    requires index >= SINGLE2_START ==> Entries(diskF, SingleAt(d, 1)) == t2
    ensures forall k :: 0 <= k <= index && k < DOUBLE_START ==> BlockSector(diskF, d, k) == blocks[k]
  {
  }

  /** Sectors outside what the tail of `inode_create` overwrites keep their contents. */
  lemma KeptOutside(diskL: Disk, diskF: Disk, changed: set<Sector>, t2l1: map<nat, Sector>,
                    blocks: seq<Sector>, index: nat)
    requires Agree(diskF, diskL, changed)
    requires changed !! (Elems(Seconds(t2l1, index)) + Elems(blocks))
    requires AllZeroed(diskL, blocks)
    ensures AllZeroed(diskF, blocks)
    ensures index >= DOUBLE_START ==>
              forall o :: 0 <= o <= Outer(index) ==> Entries(diskF, Get(t2l1, o)) == Entries(diskL, Get(t2l1, o))
  {
    forall k | 0 <= k < |blocks|
      ensures Zeroed(diskF, blocks[k])
    {
      assert blocks[k] in Elems(blocks);
    }
    if index >= DOUBLE_START {
      forall o | 0 <= o <= Outer(index)
        ensures Entries(diskF, Get(t2l1, o)) == Entries(diskL, Get(t2l1, o))
      {
        assert Seconds(t2l1, index)[o] == Get(t2l1, o);
        assert Get(t2l1, o) in Elems(Seconds(t2l1, index));
      }
    }
  }

  /** Every block past the singly indirect tiers reaches its data sector. */
  lemma CreatedDouble(diskL: Disk, diskF: Disk, d: InodeDisk, t2l1: map<nat, Sector>, blocks: seq<Sector>, index: nat)
    requires |blocks| == index + 1 && index >= DOUBLE_START
    requires FlushedPlaced(diskL, t2l1, blocks, index)
    requires Entries(diskF, d.double) == t2l1
    requires forall o :: 0 <= o <= Outer(index) ==> Entries(diskF, Get(t2l1, o)) == Entries(diskL, Get(t2l1, o))
    ensures forall k :: DOUBLE_START <= k <= index ==> BlockSector(diskF, d, k) == blocks[k]
  {
    forall k | DOUBLE_START <= k <= index
      ensures BlockSector(diskF, d, k) == blocks[k]
    {
      OuterMonotone(k, index);
      assert Entry(diskF, Get(t2l1, Outer(k)), Inner(k)) == Entry(diskL, Get(t2l1, Outer(k)), Inner(k));
    }
  }

  /** After the final writes of `inode_create`, block `k` of the new file
      is the `k`-th data sector allocated, and it is zeroed. */
  lemma CreatedBlocks(diskL: Disk, d: InodeDisk, t1: map<nat, Sector>, t2: map<nat, Sector>,
                      t2l1: map<nat, Sector>, cur: map<nat, Sector>, blocks: seq<Sector>, index: nat, sector: Sector)
    requires |blocks| == index + 1
    requires Placed(diskL, d.dir, t1, t2, t2l1, cur, blocks, index)
    requires index >= DOUBLE_START ==> Entries(diskL, d.double) == t2l1
    requires Laid(d, t2l1, blocks, index, sector)
    ensures var diskF := WriteTables(diskL, d, t1, t2, index, sector);
            && (forall k :: 0 <= k <= index ==> BlockSector(diskF, d, k) == blocks[k] && Zeroed(diskF, blocks[k]))
            && (index >= DOUBLE_START ==> Entries(diskF, d.double) == t2l1)
  {
    var diskF := WriteTables(diskL, d, t1, t2, index, sector);
    LaidApart(d, t2l1, blocks, index, sector);
    WriteTablesAt(diskL, d, t1, t2, index, sector);
    var changed := {sector} + (if index >= DIR_LEN then {SingleAt(d, 0)} else {})
                            + (if index >= SINGLE2_START then {SingleAt(d, 1)} else {});
    KeptOutside(diskL, diskF, changed, t2l1, blocks, index);
    CreatedLow(diskF, d, t1, t2, blocks, index);
    if index >= DOUBLE_START {
      assert d.double !in changed;
      CreatedDouble(diskL, diskF, d, t2l1, blocks, index);
    }
  }

  /** The second-level blocks as the doubly indirect block on disk lists them. */
  lemma {:induction false} SecondLevelIs(disk: Disk, d: InodeDisk, t2l1: map<nat, Sector>, n: nat)
    requires Entries(disk, d.double) == t2l1
    ensures SecondLevel(disk, d, n) == seq(n, (o: nat) => Get(t2l1, o))
  {
    if n > 0 {
      SecondLevelIs(disk, d, t2l1, n - 1);
    }
  }

  lemma {:induction false} DataUpToIs(disk: Disk, d: InodeDisk, blocks: seq<Sector>, n: nat)
    requires n <= |blocks| && forall k :: 0 <= k < n ==> BlockSector(disk, d, k) == blocks[k]
    ensures DataUpTo(disk, d, n) == blocks[..n]
  {
    if n > 0 {
      DataUpToIs(disk, d, blocks, n - 1);
      assert blocks[..n] == blocks[..n - 1] + [blocks[n - 1]];
    }
  }

  /** The footprint of the new file is exactly what `inode_create` allocated, in order. */
  lemma CreatedFootprint(disk: Disk, d: InodeDisk, t2l1: map<nat, Sector>, blocks: seq<Sector>, index: nat)
    requires |blocks| == index + 1
    requires forall k :: 0 <= k <= index ==> BlockSector(disk, d, k) == blocks[k]
    requires index >= DOUBLE_START ==> Entries(disk, d.double) == t2l1
    ensures Footprint(disk, d, index) == TopIndex(d, index) + Seconds(t2l1, index) + blocks
  {
    DataUpToIs(disk, d, blocks, index + 1);
    assert blocks[..index + 1] == blocks;
    if index >= DOUBLE_START {
      SecondLevelIs(disk, d, t2l1, Outer(index) + 1);
    }
  }

  /** Every byte of every block of a file whose blocks are all zeroed
      reads as zero, up to the end of its last block. */
  lemma CreatedZero(disk: Disk, d: InodeDisk, blocks: seq<Sector>, length: nat)
    requires |blocks| == length / SECTOR_SIZE + 1
    requires forall k :: 0 <= k < |blocks| ==> BlockSector(disk, d, k) == blocks[k] && Zeroed(disk, blocks[k])
    ensures forall pos: nat :: pos / SECTOR_SIZE <= length / SECTOR_SIZE ==> FileByte(disk, d, pos) == 0
  {
    forall pos: nat | pos / SECTOR_SIZE <= length / SECTOR_SIZE
      ensures FileByte(disk, d, pos) == 0
    {
      var k := pos / SECTOR_SIZE;
      assert DataOf(disk, blocks[k]) == Zeros(SECTOR_SIZE);
    }
  }

  /**
   * The invariant of the data loop of `inode_create`, started on disk
   * `disk0` with free map `free0`: the index sectors and the data sectors
   * `blocks` are taken from the free map in that order, the data sectors
   * are placed, and only second-level and data sectors were written.
   */
  ghost predicate Filling(disk: Disk, disk0: Disk, free0: set<Sector>, free: set<Sector>, d: InodeDisk,
                          dir: seq<Sector>, t1: map<nat, Sector>, t2: map<nat, Sector>, t2l1: map<nat, Sector>,
                          cur: map<nat, Sector>, blocks: seq<Sector>, index: nat)
  {
    var top := TopIndex(d, index) + Seconds(t2l1, index);
    && |top| == IndexBlocks(index) && SectorsNeeded(index) <= |free0|
    && Taken(free0, free, top + blocks)
    && Placed(disk, dir, t1, t2, t2l1, cur, blocks, index)
    && Agree(disk, disk0, Elems(Seconds(t2l1, index)) + Elems(blocks))
  }

  lemma AgreeTrans(a: Disk, b: Disk, c: Disk, s1: set<Sector>, s2: set<Sector>, s: set<Sector>)
    requires Agree(a, b, s1) && Agree(b, c, s2) && s1 + s2 <= s
    ensures Agree(a, c, s)
  {
  }

  /** Sector `s` allocated from what is left after `top + blocks` extends the allocation. */
  lemma TakenStep(free0: set<Sector>, fb: set<Sector>, free: set<Sector>, top: seq<Sector>, blocks: seq<Sector>, s: Sector)
    requires Taken(free0, fb, top + blocks) && |top| + |blocks| < |free0|
    requires fb != {} ==> s in fb && free == fb - {s}
    ensures Taken(free0, free, top + (blocks + [s]))
  {
    assert |fb| > 0;
    TakenSnoc(free0, fb, top + blocks, s);
    assert top + blocks + [s] == top + (blocks + [s]);
  }

  /** How one turn of the data loop of `inode_create` updates the slots and the disk. */
  ghost predicate Stepped(db: Disk, disk: Disk, dir: seq<Sector>, t1: map<nat, Sector>, t2: map<nat, Sector>,
                          t2l1: map<nat, Sector>, cur: map<nat, Sector>, dir': seq<Sector>, t1': map<nat, Sector>,
                          t2': map<nat, Sector>, cur': map<nat, Sector>, i: nat, index: nat, s: Sector)
  {
    var zeroed := db[s := Data(Zeros(SECTOR_SIZE))];
    if i < DIR_LEN then
      i < |dir| && dir' == dir[i := s] && t1' == t1 && t2' == t2 && cur' == cur && disk == zeroed
    else if i < SINGLE2_START then
      dir' == dir && t1' == t1[i - DIR_LEN := s] && t2' == t2 && cur' == cur && disk == zeroed
    else if i < DOUBLE_START then
      dir' == dir && t1' == t1 && t2' == t2[i - SINGLE2_START := s] && cur' == cur && disk == zeroed
    else
      dir' == dir && t1' == t1 && t2' == t2 && cur' == (if Inner(i) == 0 then map[] else cur)[Inner(i) := s]
      && (Inner(i) == PTRS - 1 || i == index ==> disk == zeroed[Get(t2l1, Outer(i)) := Index(cur')])
      && (Inner(i) != PTRS - 1 && i != index ==> disk == zeroed)
  }

  /** One turn of the data loop keeps the placement of the data sectors. */
  lemma PlacedStep(db: Disk, disk: Disk, dir: seq<Sector>, t1: map<nat, Sector>, t2: map<nat, Sector>,
                   t2l1: map<nat, Sector>, cur: map<nat, Sector>, dir': seq<Sector>, t1': map<nat, Sector>,
                   t2': map<nat, Sector>, cur': map<nat, Sector>, blocks: seq<Sector>, index: nat, s: Sector)
    requires |blocks| <= index
    requires Placed(db, dir, t1, t2, t2l1, cur, blocks, index)
    requires Stepped(db, disk, dir, t1, t2, t2l1, cur, dir', t1', t2', cur', |blocks|, index, s)
    requires Apart(t2l1, index, blocks + [s])
    ensures Placed(disk, dir', t1', t2', t2l1, cur', blocks + [s], index)
  {
    var i := |blocks|;
    forall k | 0 <= k < i
      ensures blocks[k] != s
    {
      assert (blocks + [s])[k] == blocks[k] && (blocks + [s])[i] == s;
    }
    if i < DIR_LEN {
      PlaceDirect(db, dir, t1, t2, t2l1, cur, blocks, index, s);
    } else if i < SINGLE2_START {
      PlaceSingle1(db, dir, t1, t2, t2l1, cur, blocks, index, s);
    } else if i < DOUBLE_START {
      PlaceSingle2(db, dir, t1, t2, t2l1, cur, blocks, index, s);
    } else {
      PlaceDouble(db, dir, t1, t2, t2l1, cur, blocks, index, s, cur', disk);
    }
  }

  /** One turn of the data loop writes only the new data sector and
      second-level sectors in use. */
  lemma AgreeStep(db: Disk, disk: Disk, disk0: Disk, dir: seq<Sector>, t1: map<nat, Sector>, t2: map<nat, Sector>,
                  t2l1: map<nat, Sector>, cur: map<nat, Sector>, dir': seq<Sector>, t1': map<nat, Sector>,
                  t2': map<nat, Sector>, cur': map<nat, Sector>, blocks: seq<Sector>, index: nat, s: Sector)
    requires |blocks| <= index
    requires Agree(db, disk0, Elems(Seconds(t2l1, index)) + Elems(blocks))
    requires Stepped(db, disk, dir, t1, t2, t2l1, cur, dir', t1', t2', cur', |blocks|, index, s)
    ensures Agree(disk, disk0, Elems(Seconds(t2l1, index)) + Elems(blocks + [s]))
  {
    var i := |blocks|;
    var sec := Elems(Seconds(t2l1, index));
    ElemsSnoc(blocks, s);
    if i >= DOUBLE_START {
      OuterMonotone(i, index);
      assert Seconds(t2l1, index)[Outer(i)] == Get(t2l1, Outer(i));
      AgreeTrans(disk, db, disk0, {s, Get(t2l1, Outer(i))}, sec + Elems(blocks), sec + Elems(blocks + [s]));
    } else {
      AgreeTrans(disk, db, disk0, {s}, sec + Elems(blocks), sec + Elems(blocks + [s]));
    }
  }

  /** One turn of the data loop of `inode_create` keeps its invariant. */
  lemma FillingStep(db: Disk, disk: Disk, disk0: Disk, free0: set<Sector>, fb: set<Sector>, free: set<Sector>,
                    d: InodeDisk, dir: seq<Sector>, t1: map<nat, Sector>, t2: map<nat, Sector>,
                    t2l1: map<nat, Sector>, cur: map<nat, Sector>, dir': seq<Sector>, t1': map<nat, Sector>,
                    t2': map<nat, Sector>, cur': map<nat, Sector>, blocks: seq<Sector>, index: nat, s: Sector)
    requires |blocks| <= index
    requires Filling(db, disk0, free0, fb, d, dir, t1, t2, t2l1, cur, blocks, index)
    requires fb != {} ==> s in fb && free == fb - {s}
    requires Stepped(db, disk, dir, t1, t2, t2l1, cur, dir', t1', t2', cur', |blocks|, index, s)
    ensures Filling(disk, disk0, free0, free, d, dir', t1', t2', t2l1, cur', blocks + [s], index)
  {
    var top := TopIndex(d, index) + Seconds(t2l1, index);
    TakenStep(free0, fb, free, top, blocks, s);
    ApartFromDistinct(TopIndex(d, index), t2l1, index, blocks + [s]);
    PlacedStep(db, disk, dir, t1, t2, t2l1, cur, dir', t1', t2', cur', blocks, index, s);
    AgreeStep(db, disk, disk0, dir, t1, t2, t2l1, cur, dir', t1', t2', cur', blocks, index, s);
  }

  /** The data loop writes only data and index blocks, so every inode on disk stays sane. */
  lemma SteppedSane(db: Disk, disk: Disk, dir: seq<Sector>, t1: map<nat, Sector>, t2: map<nat, Sector>,
                    t2l1: map<nat, Sector>, cur: map<nat, Sector>, dir': seq<Sector>, t1': map<nat, Sector>,
                    t2': map<nat, Sector>, cur': map<nat, Sector>, i: nat, index: nat, s: Sector)
    requires InodesSane(db)
    requires Stepped(db, disk, dir, t1, t2, t2l1, cur, dir', t1', t2', cur', i, index, s)
    ensures InodesSane(disk)
  {
  }

  /** The invariant of the data loop holds when it starts. */
  lemma FillingStart(disk: Disk, free0: set<Sector>, free: set<Sector>, d: InodeDisk, t2l1: map<nat, Sector>, index: nat)
    requires |d.dir| == DIR_LEN && SectorsNeeded(index) <= |free0|
    requires Taken(free0, free, TopIndex(d, index) + Seconds(t2l1, index))
    requires |TopIndex(d, index) + Seconds(t2l1, index)| == IndexBlocks(index)
    ensures Filling(disk, disk, free0, free, d, d.dir, map[], map[], t2l1, map[], [], index)
  {
    assert TopIndex(d, index) + Seconds(t2l1, index) + [] == TopIndex(d, index) + Seconds(t2l1, index);
    PlacedEmpty(disk, d.dir, t2l1, index);
  }

  /**
   * What a successful `inode_create` of `length` bytes at `sector` leaves,
   * from disk `disk0` and free map `free0`: the inode at `sector`, a
   * footprint of `SectorsNeeded` distinct sectors taken from the free map,
   * every byte of every block of the file zero (past the length too, up
   * to the end of the last block), and every other sector as it was.
   */
  ghost predicate Created(disk0: Disk, disk: Disk, free0: set<Sector>, free: set<Sector>, sector: Sector, length: nat)
  {
    var d := InodeAt(disk, sector);
    var fp := Footprint(disk, d, length / SECTOR_SIZE);
    && d.length == length && d.magic == INODE_MAGIC && Shaped(d)
    && Distinct(fp) && |fp| == SectorsNeeded(length / SECTOR_SIZE) && sector !in Elems(fp)
    && Elems(fp) <= free0 && free == free0 - Elems(fp)
    && (forall pos: nat :: pos / SECTOR_SIZE <= length / SECTOR_SIZE ==> FileByte(disk, d, pos) == 0)
    && Agree(disk, disk0, {sector} + Elems(fp))
  }

  /** The end of `inode_create`: once the data loop is done and the final
      writes are made, the file is created. */
  lemma CreateDone(disk0: Disk, disk1: Disk, diskL: Disk, diskF: Disk, free0: set<Sector>, free: set<Sector>,
                   d: InodeDisk, dir: seq<Sector>, t1: map<nat, Sector>, t2: map<nat, Sector>, t2l1: map<nat, Sector>,
                   cur: map<nat, Sector>, blocks: seq<Sector>, sector: Sector, length: nat)
    requires diskF == WriteTables(diskL, d.(dir := dir), t1, t2, length / SECTOR_SIZE, sector)
    requires sector !in free0 && |blocks| == length / SECTOR_SIZE + 1
    requires d.length == length && d.magic == INODE_MAGIC && Shaped(d)
    requires length / SECTOR_SIZE >= DOUBLE_START ==> disk1 == disk0[d.double := Index(t2l1)]
    requires length / SECTOR_SIZE < DOUBLE_START ==> disk1 == disk0
    requires Filling(diskL, disk1, free0, free, d, dir, t1, t2, t2l1, cur, blocks, length / SECTOR_SIZE)
    ensures Created(disk0, diskF, free0, free, sector, length)
  {
    var index := length / SECTOR_SIZE;
    var dF := d.(dir := dir);
    var ti := TopIndex(d, index);
    var sec := Seconds(t2l1, index);
    assert TopIndex(dF, index) == ti;
    TakenElems(free0, free, ti + sec + blocks);
    assert Laid(dF, t2l1, blocks, index, sector);
    LaidApart(dF, t2l1, blocks, index, sector);
    if index >= DOUBLE_START {
      assert d.double !in Elems(sec) + Elems(blocks);
      assert Entries(diskL, dF.double) == t2l1;
    }
    CreatedBlocks(diskL, dF, t1, t2, t2l1, cur, blocks, index, sector);
    CreatedFootprint(diskF, dF, t2l1, blocks, index);
    CreatedZero(diskF, dF, blocks, length);
    WriteTablesAt(diskL, dF, t1, t2, index, sector);
    ElemsAppend(ti, sec);
    ElemsAppend(ti + sec, blocks);
    TopIndexElems(dF, index);
    CreateFrame(disk0, disk1, diskL, diskF, dF, t2l1, blocks, index, sector);
  }

  /** The final writes of `inode_create` store a sane inode and index blocks only. */
  lemma WriteTablesSane(disk: Disk, d: InodeDisk, t1: map<nat, Sector>, t2: map<nat, Sector>, index: nat, sector: Sector)
    requires InodesSane(disk) && Shaped(d) && d.length < MAX_LEN
    ensures InodesSane(WriteTables(disk, d, t1, t2, index, sector))
  {
  }

  lemma TopIndexElems(d: InodeDisk, index: nat)
    ensures Elems(TopIndex(d, index)) == (if index >= DIR_LEN then {SingleAt(d, 0)} else {})
                                          + (if index >= SINGLE2_START then {SingleAt(d, 1)} else {})
                                          + (if index >= DOUBLE_START then {d.double} else {})
  {
  }

  /** The final writes and the loop of `inode_create` touch only the inode's sector and its footprint. */
  lemma CreateFrame(disk0: Disk, disk1: Disk, diskL: Disk, diskF: Disk, d: InodeDisk, t2l1: map<nat, Sector>,
                    blocks: seq<Sector>, index: nat, sector: Sector)
    requires index >= DOUBLE_START ==> disk1 == disk0[d.double := Index(t2l1)]
    requires index < DOUBLE_START ==> disk1 == disk0
    requires Agree(diskL, disk1, Elems(Seconds(t2l1, index)) + Elems(blocks))
    requires Agree(diskF, diskL, {sector} + (if index >= DIR_LEN then {SingleAt(d, 0)} else {})
                                          + (if index >= SINGLE2_START then {SingleAt(d, 1)} else {}))
    requires Elems(TopIndex(d, index)) == (if index >= DIR_LEN then {SingleAt(d, 0)} else {})
                                          + (if index >= SINGLE2_START then {SingleAt(d, 1)} else {})
                                          + (if index >= DOUBLE_START then {d.double} else {})
    requires Elems(TopIndex(d, index) + Seconds(t2l1, index) + blocks)
               == Elems(TopIndex(d, index) + Seconds(t2l1, index)) + Elems(blocks)
    requires Elems(TopIndex(d, index) + Seconds(t2l1, index)) == Elems(TopIndex(d, index)) + Elems(Seconds(t2l1, index))
    ensures Agree(diskF, disk0, {sector} + Elems(TopIndex(d, index) + Seconds(t2l1, index) + blocks))
  {
  }
}
