/**
 * What `inode_write_at` does to a file once it has grown: the chunk
 * writes into the file's data sectors and the final write of the inode
 * with its new length.
 */
module Writing {

  import opened BlockDevice
  import opened InodeLayout
  import opened DiskFormat
  import opened Growth

  /**
   * `buffer_write` of `piece` at byte `ofs` of sector `s`, through to the
   * disk: the sector then holds a data block whose bytes in the written
   * range are `piece` and whose other bytes are those it held before.
   */
  function WriteBytes(disk: Disk, s: Sector, ofs: nat, piece: seq<byte>): (r: Disk)
    requires ofs + |piece| <= SECTOR_SIZE
    ensures forall t :: 0 <= t < SECTOR_SIZE ==>
              DataOf(r, s)[t] == if ofs <= t < ofs + |piece| then piece[t - ofs] else DataOf(disk, s)[t]
    ensures Agree(r, disk, {s}) && s in r && r[s].Data?
  {
    var old_ := DataOf(disk, s);
    disk[s := Data(old_[..ofs] + piece + old_[ofs + |piece|..])]
  }

  /** Writing a data block leaves every stored inode as it was. */
  lemma WriteBytesSane(disk: Disk, s: Sector, ofs: nat, piece: seq<byte>)
    requires InodesSane(disk) && ofs + |piece| <= SECTOR_SIZE
    ensures InodesSane(WriteBytes(disk, s, ofs, piece))
  {
  }

  /** A consistent file's data sectors are distinct and apart from its
      inode's sector and its index sectors. */
  lemma ConsistentApart(disk: Disk, free: set<Sector>, sector: Sector, d: InodeDisk, index: nat)
    requires Consistent(disk, free, sector, d, index)
    ensures var data := Elems(DataUpTo(disk, d, index + 1));
            && Distinct(DataUpTo(disk, d, index + 1))
            && data !! Elems(IndexSectors(disk, d, index))
            && sector !in data && sector !in Elems(IndexSectors(disk, d, index))
  {
    var ti := TopIndex(d, index);
    var secs := Seconds(Entries(disk, d.double), index);
    if index >= DOUBLE_START {
      SecondLevelIs(disk, d, Entries(disk, d.double), Outer(index) + 1);
    }
    assert IndexSectors(disk, d, index) == ti + secs;
    ElemsAppend(ti, secs);
    ElemsCons(sector, ti);
    DistinctHead(sector, ti);
  }

  /** A sector outside the written ones holds what it held. */
  lemma EntriesKept(disk: Disk, disk': Disk, changed: set<Sector>, x: Sector)
    requires Agree(disk', disk, changed) && x !in changed
    ensures Entries(disk', x) == Entries(disk, x)
  {
  }

  /** Entry `o` of the doubly indirect block is among the second-level sectors. */
  lemma {:induction false} SecondLevelAt(disk: Disk, d: InodeDisk, n: nat, o: nat)
    requires o < n
    ensures |SecondLevel(disk, d, n)| == n && SecondLevel(disk, d, n)[o] == Entry(disk, d.double, o)
  {
    if o < n - 1 {
      SecondLevelAt(disk, d, n - 1, o);
    } else if n > 1 {
      SecondLevelAt(disk, d, n - 1, 0);
    }
  }

  /** The index sectors read to find the sector at `loc`. */
  ghost function Consulted(disk: Disk, d: InodeDisk, loc: Location): set<Sector>
  {
    match loc
    case Direct(_) => {}
    case Single(which, _) => {SingleAt(d, which)}
    case Double(outer, _) => {d.double, Entry(disk, d.double, outer)}
  }

  /** A location whose index sectors are unchanged names the same sector. */
  lemma SectorAtKept(disk: Disk, disk': Disk, d: InodeDisk, d': InodeDisk, loc: Location, changed: set<Sector>)
    requires Agree(disk', disk, changed) && Consulted(disk, d, loc) !! changed
    requires d'.dir == d.dir && d'.single == d.single && d'.double == d.double
    ensures SectorAt(disk', d', loc) == SectorAt(disk, d, loc)
  {
    match loc
    case Direct(_) =>
    case Single(which, _) =>
      EntriesKept(disk, disk', changed, SingleAt(d, which));
    case Double(outer, _) =>
      EntriesKept(disk, disk', changed, d.double);
      EntriesKept(disk, disk', changed, Entry(disk, d.double, outer));
  }

  /** Finding block `k <= index` reads only the file's index sectors. */
  lemma ConsultedIndex(disk: Disk, d: InodeDisk, index: nat, k: nat)
    requires k <= index
    ensures Consulted(disk, d, Locate(k)) <= Elems(IndexSectors(disk, d, index))
  {
    var ti := TopIndex(d, index);
    var xs := IndexSectors(disk, d, index);
    assert xs[..|ti|] == ti;
    if DIR_LEN <= k < SINGLE2_START {
      assert SingleAt(d, 0) == xs[0];
    } else if SINGLE2_START <= k < DOUBLE_START {
      assert SingleAt(d, 1) == xs[1];
    } else if k >= DOUBLE_START {
      var o := Outer(k);
      OuterMonotone(k, index);
      SecondLevelAt(disk, d, Outer(index) + 1, o);
      assert d.double == xs[2];
      assert xs[3 + o] == Entry(disk, d.double, o);
    }
  }

  /**
   * A write that leaves the index sectors alone leaves block `k` of the
   * file in the sector it was in, for an inode with the same pointers.
   */
  lemma BlockKept(disk: Disk, disk': Disk, d: InodeDisk, d': InodeDisk, index: nat, changed: set<Sector>, k: nat)
    requires Agree(disk', disk, changed) && changed !! Elems(IndexSectors(disk, d, index))
    requires d'.dir == d.dir && d'.single == d.single && d'.double == d.double && k <= index
    ensures BlockSector(disk', d', k) == BlockSector(disk, d, k)
  {
    ConsultedIndex(disk, d, index, k);
    SectorAtKept(disk, disk', d, d', Locate(k), changed);
  }

  /** The same, for every block up to `index` and the lists built from them. */
  lemma IndexKept(disk: Disk, disk': Disk, d: InodeDisk, d': InodeDisk, index: nat, changed: set<Sector>)
    requires Agree(disk', disk, changed) && changed !! Elems(IndexSectors(disk, d, index))
    requires d'.dir == d.dir && d'.single == d.single && d'.double == d.double
    ensures forall k :: 0 <= k <= index ==> BlockSector(disk', d', k) == BlockSector(disk, d, k)
    ensures Seconds(Entries(disk', d'.double), index) == Seconds(Entries(disk, d.double), index)
    ensures DataUpTo(disk', d', index + 1) == DataUpTo(disk, d, index + 1)
    ensures IndexSectors(disk', d', index) == IndexSectors(disk, d, index)
  {
    forall k | 0 <= k <= index
      ensures BlockSector(disk', d', k) == BlockSector(disk, d, k)
    {
      BlockKept(disk, disk', d, d', index, changed, k);
    }
    DataUpToKept(disk, disk', d, d', index + 1);
    if index >= DOUBLE_START {
      SecondsKept(disk, disk', d, d', index, changed);
    }
  }

  /** Data sector lists built from the same block sectors are equal. */
  lemma DataUpToKept(disk: Disk, disk': Disk, d: InodeDisk, d': InodeDisk, n: nat)
    requires forall k :: 0 <= k < n ==> BlockSector(disk', d', k) == BlockSector(disk, d, k)
    ensures DataUpTo(disk', d', n) == DataUpTo(disk, d, n)
  {
    DataUpToAt(disk, d, n);
    DataUpToAt(disk', d', n);
  }

  /** An untouched doubly indirect block keeps the second-level sectors. */
  lemma SecondsKept(disk: Disk, disk': Disk, d: InodeDisk, d': InodeDisk, index: nat, changed: set<Sector>)
    requires index >= DOUBLE_START
    requires Agree(disk', disk, changed) && changed !! Elems(IndexSectors(disk, d, index))
    requires d'.dir == d.dir && d'.single == d.single && d'.double == d.double
    ensures Seconds(Entries(disk', d'.double), index) == Seconds(Entries(disk, d.double), index)
    ensures IndexSectors(disk', d', index) == IndexSectors(disk, d, index)
  {
    var t := Entries(disk, d.double);
    assert IndexSectors(disk, d, index)[2] == d.double;
    EntriesKept(disk, disk', changed, d.double);
    SecondLevelIs(disk, d, t, Outer(index) + 1);
    SecondLevelIs(disk', d', t, Outer(index) + 1);
    assert TopIndex(d', index) == TopIndex(d, index);
  }

  /** Consistency depends only on the file's index and data sector lists. */
  lemma ConsistentSame(disk: Disk, disk': Disk, free: set<Sector>, sector: Sector, d: InodeDisk, d': InodeDisk, index: nat)
    requires Consistent(disk, free, sector, d, index) && Shaped(d')
    requires TopIndex(d', index) == TopIndex(d, index)
    requires Seconds(Entries(disk', d'.double), index) == Seconds(Entries(disk, d.double), index)
    requires DataUpTo(disk', d', index + 1) == DataUpTo(disk, d, index + 1)
    ensures Consistent(disk', free, sector, d', index)
  {
  }

  /**
   * A byte of the file after `piece` is written at byte `ofs` of sector
   * `s0`, which holds block `k0` of the file and no other block, and
   * which the write does not move.
   */
  lemma ChunkByte(disk: Disk, disk': Disk, d: InodeDisk, s0: Sector, k0: nat, ofs: nat, piece: seq<byte>, p: nat)
    requires ofs + |piece| <= SECTOR_SIZE && disk' == WriteBytes(disk, s0, ofs, piece)
    requires BlockSector(disk', d, p / SECTOR_SIZE) == BlockSector(disk, d, p / SECTOR_SIZE)
    requires (BlockSector(disk, d, p / SECTOR_SIZE) == s0) == (p / SECTOR_SIZE == k0)
    ensures var pos := k0 * SECTOR_SIZE + ofs;
            FileByte(disk', d, p) == if pos <= p < pos + |piece| then piece[p - pos] else FileByte(disk, d, p)
  {
    var pos := k0 * SECTOR_SIZE + ofs;
    var k := p / SECTOR_SIZE;
    var r := p % SECTOR_SIZE;
    assert p == k * SECTOR_SIZE + r;
    if k == k0 {
      assert (pos <= p < pos + |piece|) == (ofs <= r < ofs + |piece|);
    } else {
      assert !(pos <= p < pos + |piece|);
    }
  }

  /**
   * The write loop of `inode_write_at` after `done` bytes of `buffer`:
   * only the file's data sectors have changed since `diskE`, the bytes
   * written read back as `buffer`, and every other byte is as it was.
   */
  ghost predicate Written(diskE: Disk, disk: Disk, d: InodeDisk, index: nat, buffer: seq<byte>, offset: nat, done: nat)
  {
    && done <= |buffer|
    && Agree(disk, diskE, Elems(DataUpTo(diskE, d, index + 1)))
    && (forall p: nat :: p / SECTOR_SIZE <= index ==>
          FileByte(disk, d, p) == if offset <= p < offset + done then buffer[p - offset] else FileByte(diskE, d, p))
  }

  lemma WrittenStart(disk: Disk, d: InodeDisk, index: nat, buffer: seq<byte>, offset: nat)
    ensures Written(disk, disk, d, index, buffer, offset, 0)
  {
  }

  /** One chunk of the loop: `chunk` bytes written at byte `ofs` of block
      `k0`, where byte `offset + done` of the file lies. */
  lemma WrittenStep(diskE: Disk, disk: Disk, free: set<Sector>, sector: Sector, d: InodeDisk, index: nat,
                    buffer: seq<byte>, offset: nat, done: nat, chunk: nat, k0: nat, ofs: nat)
    requires Consistent(diskE, free, sector, d, index)
    requires Written(diskE, disk, d, index, buffer, offset, done)
    requires offset + done == k0 * SECTOR_SIZE + ofs && k0 <= index
    requires 0 < chunk && ofs + chunk <= SECTOR_SIZE && done + chunk <= |buffer|
    ensures Written(diskE, WriteBytes(disk, BlockSector(disk, d, k0), ofs, buffer[done..done + chunk]),
                    d, index, buffer, offset, done + chunk)
  {
    var data := DataUpTo(diskE, d, index + 1);
    var piece := buffer[done..done + chunk];
    StepFrame(diskE, disk, free, sector, d, index, k0, ofs, piece);
    StepBytes(diskE, disk, WriteBytes(disk, data[k0], ofs, piece), d, data, index, buffer, offset, done, chunk, k0, ofs);
  }

  /** One pass of the chunk loop of `inode_write_at`, at byte `pos` of a
      file of `len` bytes, keeps the loop invariant. */
  lemma ChunkStep(diskE: Disk, disk: Disk, free: set<Sector>, sector: Sector, d: InodeDisk, len: nat,
                  buffer: seq<byte>, offset: nat, done: nat, chunk: nat, pos: nat)
    requires Consistent(diskE, free, sector, d, len / SECTOR_SIZE)
    requires Written(diskE, disk, d, len / SECTOR_SIZE, buffer, offset, done)
    requires pos == offset + done && pos < len
    requires 0 < chunk && pos % SECTOR_SIZE + chunk <= SECTOR_SIZE && done + chunk <= |buffer|
    ensures Written(diskE, WriteBytes(disk, ByteToSector(disk, d, pos, len), pos % SECTOR_SIZE, buffer[done..done + chunk]),
                    d, len / SECTOR_SIZE, buffer, offset, done + chunk)
  {
    var k0 := pos / SECTOR_SIZE;
    assert pos == k0 * SECTOR_SIZE + pos % SECTOR_SIZE;
    assert k0 <= len / SECTOR_SIZE;
    assert ByteToSector(disk, d, pos, len) == BlockSector(disk, d, k0);
    WrittenStep(diskE, disk, free, sector, d, len / SECTOR_SIZE, buffer, offset, done, chunk, k0, pos % SECTOR_SIZE);
  }

  /** A disk that differs from `diskE` only in a consistent file's data
      sectors keeps every block of the file where it was. */
  lemma DataKept(diskE: Disk, disk: Disk, free: set<Sector>, sector: Sector, d: InodeDisk, index: nat)
    requires Consistent(diskE, free, sector, d, index)
    requires Agree(disk, diskE, Elems(DataUpTo(diskE, d, index + 1)))
    ensures var data := DataUpTo(diskE, d, index + 1);
            && |data| == index + 1 && Distinct(data)
            && (forall k :: 0 <= k <= index ==> BlockSector(disk, d, k) == data[k])
  {
    ConsistentApart(diskE, free, sector, d, index);
    DataApartKept(diskE, disk, d, index);
  }

  lemma DataApartKept(diskE: Disk, disk: Disk, d: InodeDisk, index: nat)
    requires Elems(DataUpTo(diskE, d, index + 1)) !! Elems(IndexSectors(diskE, d, index))
    requires Agree(disk, diskE, Elems(DataUpTo(diskE, d, index + 1)))
    ensures var data := DataUpTo(diskE, d, index + 1);
            && |data| == index + 1
            && (forall k :: 0 <= k <= index ==> BlockSector(disk, d, k) == data[k])
  {
    IndexKept(diskE, disk, d, d, index, Elems(DataUpTo(diskE, d, index + 1)));
    DataUpToAt(diskE, d, index + 1);
  }

  /** A chunk written into a data sector of a consistent file moves none of
      its blocks and changes nothing but a data sector. */
  lemma StepFrame(diskE: Disk, disk: Disk, free: set<Sector>, sector: Sector, d: InodeDisk, index: nat,
                  k0: nat, ofs: nat, piece: seq<byte>)
    requires Consistent(diskE, free, sector, d, index)
    requires Agree(disk, diskE, Elems(DataUpTo(diskE, d, index + 1)))
    requires k0 <= index && ofs + |piece| <= SECTOR_SIZE
    ensures var data := DataUpTo(diskE, d, index + 1);
            var disk' := WriteBytes(disk, BlockSector(disk, d, k0), ofs, piece);
            && |data| == index + 1 && Distinct(data) && BlockSector(disk, d, k0) == data[k0]
            && Agree(disk', diskE, Elems(data))
            && (forall k :: 0 <= k <= index ==> BlockSector(disk, d, k) == data[k])
            && (forall k :: 0 <= k <= index ==> BlockSector(disk', d, k) == data[k])
  {
    var data := DataUpTo(diskE, d, index + 1);
    var ds := Elems(data);
    DataKept(diskE, disk, free, sector, d, index);
    var disk' := WriteBytes(disk, data[k0], ofs, piece);
    assert data[k0] in ds;
    AgreeTrans(disk', disk, diskE, {data[k0]}, ds, ds);
    DataKept(diskE, disk', free, sector, d, index);
  }

  /** The bytes after one chunk of the loop, block by block. */
  lemma StepBytes(diskE: Disk, disk: Disk, disk': Disk, d: InodeDisk, data: seq<Sector>, index: nat,
                  buffer: seq<byte>, offset: nat, done: nat, chunk: nat, k0: nat, ofs: nat)
    requires Distinct(data) && |data| == index + 1 && k0 <= index
    requires offset + done == k0 * SECTOR_SIZE + ofs && ofs + chunk <= SECTOR_SIZE && done + chunk <= |buffer|
    requires disk' == WriteBytes(disk, data[k0], ofs, buffer[done..done + chunk])
    requires forall k :: 0 <= k <= index ==> BlockSector(disk, d, k) == data[k]
    requires forall k :: 0 <= k <= index ==> BlockSector(disk', d, k) == data[k]
    requires forall p: nat :: p / SECTOR_SIZE <= index ==>
               FileByte(disk, d, p) == if offset <= p < offset + done then buffer[p - offset] else FileByte(diskE, d, p)
    ensures forall p: nat :: p / SECTOR_SIZE <= index ==>
              FileByte(disk', d, p) == if offset <= p < offset + done + chunk then buffer[p - offset] else FileByte(diskE, d, p)
  {
    forall p: nat | p / SECTOR_SIZE <= index
      ensures FileByte(disk', d, p)
              == if offset <= p < offset + done + chunk then buffer[p - offset] else FileByte(diskE, d, p)
    {
      var k := p / SECTOR_SIZE;
      assert BlockSector(disk, d, k) == data[k] && BlockSector(disk', d, k) == data[k];
      if k < k0 {
        DistinctAt(data, k, k0);
      } else if k0 < k {
        DistinctAt(data, k0, k);
      }
      ChunkByte(disk, disk', d, data[k0], k0, ofs, buffer[done..done + chunk], p);
      StepByte(diskE, disk, disk', d, buffer, offset, done, chunk, k0, ofs, p);
    }
  }

  lemma StepByte(diskE: Disk, disk: Disk, disk': Disk, d: InodeDisk,
                 buffer: seq<byte>, offset: nat, done: nat, chunk: nat, k0: nat, ofs: nat, p: nat)
    requires offset + done == k0 * SECTOR_SIZE + ofs && done + chunk <= |buffer|
    requires var pos := k0 * SECTOR_SIZE + ofs;
             FileByte(disk', d, p) == if pos <= p < pos + chunk then buffer[done..done + chunk][p - pos] else FileByte(disk, d, p)
    requires FileByte(disk, d, p) == if offset <= p < offset + done then buffer[p - offset] else FileByte(diskE, d, p)
    ensures FileByte(disk', d, p) == if offset <= p < offset + done + chunk then buffer[p - offset] else FileByte(diskE, d, p)
  {
  }

  /** The data writes keep the file consistent and its footprint unchanged. */
  lemma WrittenConsistent(diskE: Disk, disk: Disk, free: set<Sector>, sector: Sector, d: InodeDisk, index: nat,
                          buffer: seq<byte>, offset: nat, done: nat)
    requires Consistent(diskE, free, sector, d, index) && Written(diskE, disk, d, index, buffer, offset, done)
    ensures Consistent(disk, free, sector, d, index)
    ensures Footprint(disk, d, index) == Footprint(diskE, d, index)
  {
    ConsistentApart(diskE, free, sector, d, index);
    IndexKept(diskE, disk, d, d, index, Elems(DataUpTo(diskE, d, index + 1)));
    ConsistentSame(diskE, disk, free, sector, d, d, index);
  }

  /** Writing the inode with a new length keeps the file consistent, its
      footprint and its bytes. */
  lemma MetaKept(disk: Disk, free: set<Sector>, sector: Sector, d: InodeDisk, index: nat, len: nat)
    requires Consistent(disk, free, sector, d, index)
    ensures var d' := d.(length := len);
            var disk' := disk[sector := Meta(d')];
            && Consistent(disk', free, sector, d', index)
            && Footprint(disk', d', index) == Footprint(disk, d, index)
            && forall p: nat :: p / SECTOR_SIZE <= index ==> FileByte(disk', d', p) == FileByte(disk, d, p)
  {
    var d' := d.(length := len);
    var disk' := disk[sector := Meta(d')];
    ConsistentApart(disk, free, sector, d, index);
    IndexKept(disk, disk', d, d', index, {sector});
    ConsistentSame(disk, disk', free, sector, d, d', index);
    MetaBytes(disk, sector, d, index, len);
  }

  lemma MetaBytes(disk: Disk, sector: Sector, d: InodeDisk, index: nat, len: nat)
    requires sector !in Elems(IndexSectors(disk, d, index)) && sector !in Elems(DataUpTo(disk, d, index + 1))
    ensures forall p: nat :: p / SECTOR_SIZE <= index ==>
              FileByte(disk[sector := Meta(d.(length := len))], d.(length := len), p) == FileByte(disk, d, p)
  {
    var d' := d.(length := len);
    var disk' := disk[sector := Meta(d')];
    IndexKept(disk, disk', d, d', index, {sector});
    DataUpToAt(disk, d, index + 1);
    forall p: nat | p / SECTOR_SIZE <= index
      ensures FileByte(disk', d', p) == FileByte(disk, d, p)
    {
      var k := p / SECTOR_SIZE;
      assert BlockSector(disk, d, k) == DataUpTo(disk, d, index + 1)[k];
      assert BlockSector(disk, d, k) in Elems(DataUpTo(disk, d, index + 1));
      MetaByte(disk, sector, d, d', p);
    }
  }

  lemma MetaByte(disk: Disk, sector: Sector, d: InodeDisk, d': InodeDisk, p: nat)
    requires BlockSector(disk[sector := Meta(d')], d', p / SECTOR_SIZE) == BlockSector(disk, d, p / SECTOR_SIZE) != sector
    ensures FileByte(disk[sector := Meta(d')], d', p) == FileByte(disk, d, p)
  {
  }

  /**
   * What `inode_write_at` leaves, for a file that owned its sectors alone
   * and could take every sector its growth needed: the file still owns
   * its sectors alone, now its old ones and those taken from the free
   * map; the written bytes read back as `buffer`; every other byte below
   * the old length is as it was, and every other byte from the old length
   * on is zero, so a write past the end leaves no hole; the rest of the
   * last block past the new length still reads as zero; and nothing
   * outside the inode's sector and the file's sectors was written.
   */
  ghost predicate Wrote(disk0: Disk, disk: Disk, free0: set<Sector>, free: set<Sector>, sector: Sector,
                        d0: InodeDisk, d: InodeDisk, buffer: seq<byte>, offset: nat)
  {
    var oi := d0.length / SECTOR_SIZE;
    var ni := d.length / SECTOR_SIZE;
    && Consistent(disk, free, sector, d, ni)
    && free <= free0
    && Elems(Footprint(disk, d, ni)) == Elems(Footprint(disk0, d0, oi)) + (free0 - free)
    && |free0 - free| == SectorsNeeded(ni) - SectorsNeeded(oi)
    && (forall j :: 0 <= j < |buffer| ==> FileByte(disk, d, offset + j) == buffer[j])
    && (forall p: nat :: p < d.length && !(offset <= p < offset + |buffer|) ==>
          FileByte(disk, d, p) == if p < d0.length then FileByte(disk0, d0, p) else 0)
    && TailZero(disk, d)
    && Agree(disk, disk0, {sector} + Elems(Footprint(disk, d, ni)))
  }

  /** The growth `inode_write_at` asks for before writing up to byte `end`:
      the file's blocks reach the block of the larger of the old length and `end`. */
  ghost predicate GrewTo(disk0: Disk, disk: Disk, free0: set<Sector>, free: set<Sector>, sector: Sector,
                         d0: InodeDisk, d: InodeDisk, end: nat)
  {
    Grew(disk0, disk, free0, free, sector, d0, d, Max(d0.length, end) / SECTOR_SIZE)
  }

  /** A file that needs no growth has grown by nothing. */
  lemma GrewNothing(disk: Disk, free: set<Sector>, sector: Sector, d: InodeDisk)
    requires Consistent(disk, free, sector, d, d.length / SECTOR_SIZE)
    ensures Grew(disk, disk, free, free, sector, d, d, d.length / SECTOR_SIZE)
  {
  }

  /** The last steps of `inode_write_at`: after the growth and the chunk
      writes, the inode is written with its new length. */
  lemma {:induction false} WroteDone(disk0: Disk, diskE: Disk, diskW: Disk, free0: set<Sector>, free: set<Sector>,
                                     sector: Sector, d0: InodeDisk, d: InodeDisk, len: nat, buffer: seq<byte>, offset: nat)
    requires d.length == d0.length <= len && offset + |buffer| <= len
    requires TailZero(disk0, d0)
    requires Grew(disk0, diskE, free0, free, sector, d0, d, len / SECTOR_SIZE)
    requires Written(diskE, diskW, d, len / SECTOR_SIZE, buffer, offset, |buffer|)
    ensures Wrote(disk0, diskW[sector := Meta(d.(length := len))], free0, free, sector, d0, d.(length := len), buffer, offset)
  {
    var ni := len / SECTOR_SIZE;
    var d' := d.(length := len);
    var diskF := diskW[sector := Meta(d')];
    WrittenConsistent(diskE, diskW, free, sector, d, ni, buffer, offset, |buffer|);
    MetaKept(diskW, free, sector, d, ni, len);
    WroteBytes(disk0, diskE, diskW, diskF, free0, free, sector, d0, d, len, buffer, offset);
    WroteFrame(disk0, diskE, diskW, diskF, free0, free, sector, d0, d, len);
  }

  lemma WroteBytes(disk0: Disk, diskE: Disk, diskW: Disk, diskF: Disk, free0: set<Sector>, free: set<Sector>,
                   sector: Sector, d0: InodeDisk, d: InodeDisk, len: nat, buffer: seq<byte>, offset: nat)
    requires d.length == d0.length <= len && offset + |buffer| <= len
    requires TailZero(disk0, d0)
    requires forall p: nat :: p / SECTOR_SIZE <= d0.length / SECTOR_SIZE ==> FileByte(diskE, d, p) == FileByte(disk0, d0, p)
    requires forall p: nat :: d0.length / SECTOR_SIZE < p / SECTOR_SIZE <= len / SECTOR_SIZE ==> FileByte(diskE, d, p) == 0
    requires forall p: nat :: p / SECTOR_SIZE <= len / SECTOR_SIZE ==>
               FileByte(diskW, d, p) == if offset <= p < offset + |buffer| then buffer[p - offset] else FileByte(diskE, d, p)
    requires forall p: nat :: p / SECTOR_SIZE <= len / SECTOR_SIZE ==>
               FileByte(diskF, d.(length := len), p) == FileByte(diskW, d, p)
    ensures forall j :: 0 <= j < |buffer| ==> FileByte(diskF, d.(length := len), offset + j) == buffer[j]
    ensures forall p: nat :: p < len && !(offset <= p < offset + |buffer|) ==>
              FileByte(diskF, d.(length := len), p) == if p < d0.length then FileByte(disk0, d0, p) else 0
    ensures TailZero(diskF, d.(length := len))
  {
    var ni := len / SECTOR_SIZE;
    forall j | 0 <= j < |buffer|
      ensures FileByte(diskF, d.(length := len), offset + j) == buffer[j]
    {
      assert (offset + j) / SECTOR_SIZE <= ni;
    }
    forall p: nat | p / SECTOR_SIZE <= ni && d0.length <= p && !(offset <= p < offset + |buffer|)
      ensures FileByte(diskF, d.(length := len), p) == 0
    {
      if p / SECTOR_SIZE <= d0.length / SECTOR_SIZE {
        assert p / SECTOR_SIZE == d0.length / SECTOR_SIZE;
      }
    }
    forall p: nat | p < len && !(offset <= p < offset + |buffer|)
      ensures FileByte(diskF, d.(length := len), p) == if p < d0.length then FileByte(disk0, d0, p) else 0
    {
      assert p / SECTOR_SIZE <= ni;
      if p < d0.length {
        assert p / SECTOR_SIZE <= d0.length / SECTOR_SIZE;
      }
    }
  }

  lemma WroteFrame(disk0: Disk, diskE: Disk, diskW: Disk, diskF: Disk, free0: set<Sector>, free: set<Sector>,
                   sector: Sector, d0: InodeDisk, d: InodeDisk, len: nat)
    requires diskF == diskW[sector := Meta(d.(length := len))]
    requires Elems(Footprint(diskE, d, len / SECTOR_SIZE)) == Elems(Footprint(disk0, d0, d0.length / SECTOR_SIZE)) + (free0 - free)
    requires Agree(diskE, disk0, {sector} + Elems(IndexSectors(diskE, d, len / SECTOR_SIZE)) + (free0 - free))
    requires Agree(diskW, diskE, Elems(DataUpTo(diskE, d, len / SECTOR_SIZE + 1)))
    requires Footprint(diskF, d.(length := len), len / SECTOR_SIZE) == Footprint(diskE, d, len / SECTOR_SIZE)
    ensures Agree(diskF, disk0, {sector} + Elems(Footprint(diskF, d.(length := len), len / SECTOR_SIZE)))
  {
    var ni := len / SECTOR_SIZE;
    var fp := Elems(Footprint(diskE, d, ni));
    ElemsAppend(IndexSectors(diskE, d, ni), DataUpTo(diskE, d, ni + 1));
    AgreeTrans(diskF, diskW, diskE, {sector}, Elems(DataUpTo(diskE, d, ni + 1)), {sector} + fp);
    AgreeTrans(diskF, diskE, disk0, {sector} + fp,
               {sector} + Elems(IndexSectors(diskE, d, ni)) + (free0 - free), {sector} + fp);
  }
}
