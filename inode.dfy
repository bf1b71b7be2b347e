/**
 * Inodes of the extensible file system: open inodes and their registry,
 * and creating, reading, writing, growing and releasing a file's sectors.
 * The device is seen through the disk format's typed blocks and the free
 * map is the set of free sectors.
 */
module Inodes {

  import opened BlockDevice
  import opened InodeLayout
  import opened DiskFormat
  import opened Growth
  import opened Writing

  /** `open_inodes` without `x`, in the same order. */
  function Unlink(s: seq<Inode>, x: Inode): (r: seq<Inode>)
  {
    if s == [] then []
    else if s[0] == x then Unlink(s[1..], x)
    else [s[0]] + Unlink(s[1..], x)
  }

  lemma UnlinkAbsent(s: seq<Inode>, x: Inode)
    requires forall i :: 0 <= i < |s| ==> s[i] != x
    ensures Unlink(s, x) == s
  {
  }

  lemma UnlinkAt(s: seq<Inode>, x: Inode, p: nat)
    requires p < |s| && s[p] == x && forall i :: 0 <= i < |s| && i != p ==> s[i] != x
    ensures Unlink(s, x) == s[..p] + s[p + 1..]
  {
    if p == 0 {
      UnlinkAbsent(s[1..], x);
    } else {
      var t := s[1..];
      assert t[p - 1] == x;
      UnlinkAt(t, x, p - 1);
      calc {
        Unlink(s, x);
        [s[0]] + Unlink(t, x);
        [s[0]] + (t[..p - 1] + t[p..]);
        { assert t[..p - 1] == s[1..p] && t[p..] == s[p + 1..]; }
        [s[0]] + (s[1..p] + s[p + 1..]);
        ([s[0]] + s[1..p]) + s[p + 1..];
        { assert [s[0]] + s[1..p] == s[..p]; }
        s[..p] + s[p + 1..];
      }
    }
  }

  /** `struct inode`: an open inode. */
  class Inode {
    var sector: Sector
    var openCnt: nat
    var removed: bool
    var denyWriteCnt: nat
    /** The in-memory copy of the on-disk inode. */
    var data: InodeDisk

    ghost predicate Valid()
      reads this
    {
      1 <= openCnt && denyWriteCnt <= openCnt && Shaped(data) && data.length < MAX_LEN
    }

    constructor (sector: Sector, data: InodeDisk)
      ensures this.sector == sector && openCnt == 1 && denyWriteCnt == 0 && !removed && this.data == data
    {
      this.sector := sector;
      openCnt := 1;
      denyWriteCnt := 0;
      removed := false;
      this.data := data;
    }

    /** `inode_length`: the file's length, which never reaches `MAX_LEN`. */
    function Length(): (n: nat)
      reads this
      requires Valid()
      ensures n == data.length && n < MAX_LEN
    {
      data.length
    }

    /** `inode_remove`: marks the inode for deletion at its last close. */
    method Remove()
      modifies this
      ensures removed && sector == old(sector) && openCnt == old(openCnt)
      ensures denyWriteCnt == old(denyWriteCnt) && data == old(data)
    {
      removed := true;
    }

    /** `inode_deny_write`: one more opener refuses writes; at most one per opener. */
    method DenyWrite()
      requires Valid() && denyWriteCnt < openCnt
      modifies this
      ensures Valid() && denyWriteCnt == old(denyWriteCnt) + 1
      ensures sector == old(sector) && openCnt == old(openCnt) && removed == old(removed) && data == old(data)
    {
      denyWriteCnt := denyWriteCnt + 1;
    }

    /** `inode_allow_write`: undoes one `DenyWrite`. */
    method AllowWrite()
      requires Valid() && 0 < denyWriteCnt
      modifies this
      ensures Valid() && denyWriteCnt == old(denyWriteCnt) - 1
      ensures sector == old(sector) && openCnt == old(openCnt) && removed == old(removed) && data == old(data)
    {
      denyWriteCnt := denyWriteCnt - 1;
    }
  }

  /** The file system's view of the device, the free map and `open_inodes`. */
  class FileSystem {
    var disk: Disk
    /** Sectors the free map marks free. */
    var free: set<Sector>
    /** `open_inodes`, most recently opened first. */
    var openInodes: seq<Inode>

    ghost predicate Valid()
      reads this, openInodes
    {
      InodesSane(disk) && Registered()
    }

    /** Every open inode is valid, and no two are open on the same sector. */
    ghost predicate Registered()
      reads this`openInodes, openInodes
    {
      && (forall i :: 0 <= i < |openInodes| ==> openInodes[i].Valid())
      && (forall i, j :: 0 <= i < j < |openInodes| ==> openInodes[i].sector != openInodes[j].sector)
    }

    /** `inode_init`: an empty registry over the given device and free map. */
    constructor (disk: Disk, free: set<Sector>)
      requires InodesSane(disk)
      ensures Valid() && this.disk == disk && this.free == free && openInodes == []
    {
      this.disk := disk;
      this.free := free;
      openInodes := [];
    }

    /** `free_map_allocate (1, &s)`: takes any free sector; fails only when none is left. */
    method Allocate() returns (ok: bool, s: Sector)
      modifies this`free
      ensures ok == (old(free) != {})
      ensures ok ==> s in old(free) && free == old(free) - {s}
      ensures !ok ==> free == old(free)
    {
      if free == {} {
        return false, 0;
      }
      s :| s in free;
      free := free - {s};
      ok := true;
    }

    /** `free_map_release (s, 1)`. */
    method Release(s: Sector)
      modifies this`free
      ensures free == old(free) + {s}
    {
      free := free + {s};
    }

    /**
     * `inode_read_at`: copies up to `size` bytes from byte `offset` on,
     * stopping at the end of the file.
     */
    method ReadAt(inode: Inode, size: nat, offset: nat) returns (bytesRead: nat, buffer: seq<byte>)
      ensures bytesRead == (if offset < inode.data.length then Min(size, inode.data.length - offset) else 0)
      ensures |buffer| == bytesRead
      ensures forall j :: 0 <= j < bytesRead ==> buffer[j] == FileByte(disk, inode.data, offset + j)
    {
      var len := inode.data.length;
      var rem: nat := size;
      var pos: nat := offset;
      bytesRead := 0;
      buffer := [];
      while rem > 0
        invariant pos == offset + bytesRead && bytesRead + rem == size && |buffer| == bytesRead
        invariant offset < len ==> pos <= len
        invariant offset >= len ==> bytesRead == 0
        invariant forall j :: 0 <= j < bytesRead ==> buffer[j] == FileByte(disk, inode.data, offset + j)
        decreases rem
      {
        var sectorIdx := ByteToSector(disk, inode.data, pos, len);
        var sectorOfs := pos % SECTOR_SIZE;
        var inodeLeft: int := len - pos;
        var sectorLeft: int := SECTOR_SIZE - sectorOfs;
        var minLeft := if inodeLeft < sectorLeft then inodeLeft else sectorLeft;
        var chunk := if rem < minLeft then rem else minLeft;
        if chunk <= 0 {
          break;
        }
        var piece := DataOf(disk, sectorIdx)[sectorOfs..sectorOfs + chunk];
        ReadChunk(disk, inode.data, pos, len, chunk, offset, buffer);
        buffer := buffer + piece;
        rem := rem - chunk;
        pos := pos + chunk;
        bytesRead := bytesRead + chunk;
      }
    }

    /**
     * `inode_open`: the registered inode for `sector` with one more opener,
     * or else a new inode read from the sector and registered at the
     * front; null when `memory` says the allocation fails.
     */
    method Open(sector: Sector, memory: bool) returns (inode: Inode?)
      requires Valid()
      modifies this, openInodes
      ensures Valid() && disk == old(disk) && free == old(free)
      ensures forall x :: x in old(openInodes) && x != inode ==> unchanged(x)
      ensures old(exists i :: 0 <= i < |openInodes| && openInodes[i].sector == sector) ==>
        inode != null && inode in old(openInodes) && inode.sector == sector
        && inode.openCnt == old(inode.openCnt) + 1 && inode.denyWriteCnt == old(inode.denyWriteCnt)
        && inode.removed == old(inode.removed) && inode.data == old(inode.data)
        && openInodes == old(openInodes)
      ensures old(forall i :: 0 <= i < |openInodes| ==> openInodes[i].sector != sector) && !memory ==>
        inode == null && openInodes == old(openInodes)
      ensures old(forall i :: 0 <= i < |openInodes| ==> openInodes[i].sector != sector) && memory ==>
        inode != null && fresh(inode) && openInodes == [inode] + old(openInodes)
        && inode.sector == sector && inode.openCnt == 1 && inode.denyWriteCnt == 0 && !inode.removed
        && inode.data == InodeAt(disk, sector)
    {
      var i := 0;
      while i < |openInodes|
        invariant 0 <= i <= |openInodes|
        invariant forall j :: 0 <= j < i ==> openInodes[j].sector != sector
      {
        var e := openInodes[i];
        if e.sector == sector {
          e.openCnt := e.openCnt + 1;
          return e;
        }
        i := i + 1;
      }
      if !memory {
        return null;
      }
      inode := new Inode(sector, InodeAt(disk, sector));
      openInodes := [inode] + openInodes;
    }

    /** `inode_reopen`: one more opener for a registered inode; null is passed through. */
    method Reopen(inode: Inode?) returns (r: Inode?)
      requires Valid() && (inode != null ==> inode in openInodes)
      modifies inode
      ensures Valid() && r == inode
      ensures inode != null ==>
        inode.openCnt == old(inode.openCnt) + 1 && inode.denyWriteCnt == old(inode.denyWriteCnt)
        && inode.sector == old(inode.sector) && inode.removed == old(inode.removed) && inode.data == old(inode.data)
    {
      if inode != null {
        inode.openCnt := inode.openCnt + 1;
      }
      r := inode;
    }

    /**
     * `inode_close`: one opener fewer; the last one unlinks the inode from
     * `open_inodes` and, when it was removed, returns its inode sector and
     * every index and data sector to the free map.
     */
    method Close(inode: Inode?)
      requires Valid() && (inode != null ==> inode in openInodes && inode.denyWriteCnt < inode.openCnt)
      modifies this, inode
      ensures Valid() && disk == old(disk)
      ensures inode == null ==> openInodes == old(openInodes) && free == old(free)
      ensures inode != null ==>
        inode.openCnt == old(inode.openCnt) - 1 && inode.sector == old(inode.sector)
        && inode.removed == old(inode.removed) && inode.data == old(inode.data)
        && inode.denyWriteCnt == old(inode.denyWriteCnt)
      ensures inode != null && old(inode.openCnt) > 1 ==> openInodes == old(openInodes) && free == old(free)
      ensures inode != null && old(inode.openCnt) == 1 ==> openInodes == Unlink(old(openInodes), inode)
      ensures inode != null && old(inode.openCnt) == 1 && !inode.removed ==> free == old(free)
      ensures inode != null && old(inode.openCnt) == 1 && inode.removed ==>
        free == old(free) + {inode.sector} + Elems(Footprint(disk, inode.data, inode.data.length / SECTOR_SIZE))
    {
      if inode == null {
        return;
      }
      inode.openCnt := inode.openCnt - 1;
      if inode.openCnt != 0 {
        return;
      }
      Unregister(inode);
      if inode.removed {
        ReleaseAll(inode.sector, inode.data);
      }
    }

    /** The first half of the release in `inode_close`: the inode's own
        sector, then the singly and doubly indirect blocks in use, each
        read before it is released. */
    method ReleaseTop(dk: Disk, sector: Sector, d: InodeDisk, index: nat)
      returns (t1: map<nat, Sector>, t2: map<nat, Sector>, t2l1: map<nat, Sector>)
      modifies this`free
      ensures free == old(free) + {sector} + Elems(TopIndex(d, index))
      ensures TablesRead(dk, d, index, t1, t2, t2l1)
    {
      Release(sector);
      t1, t2, t2l1 := map[], map[], map[];
      if index >= DIR_LEN {
        t1 := Entries(dk, SingleAt(d, 0));
        Release(SingleAt(d, 0));
      }
      if index >= SINGLE2_START {
        t2 := Entries(dk, SingleAt(d, 1));
        Release(SingleAt(d, 1));
      }
      if index >= DOUBLE_START {
        t2l1 := Entries(dk, d.double);
        Release(d.double);
      }
    }

    /** One turn of the release loop of `inode_close`: data block `i`, and
        its second-level block when `i` ends one. */
    method ReleaseBlock(dk: Disk, d: InodeDisk, index: nat, i: nat, t1: map<nat, Sector>, t2: map<nat, Sector>,
                        t2l1: map<nat, Sector>, cur: map<nat, Sector>) returns (cur': map<nat, Sector>)
      requires i <= index
      requires TablesRead(dk, d, index, t1, t2, t2l1)
      requires CurrentGroup(dk, d, i, index, cur)
      modifies this`free
      ensures free == old(free) + ({BlockSector(dk, d, i)} + FlushSet(dk, d, i, index))
      ensures CurrentGroup(dk, d, i + 1, index, cur')
    {
      cur' := cur;
      if i < DIR_LEN {
        Release(DirAt(d, i));
      } else if i < DIR_LEN + PTRS {
        Release(Get(t1, i - DIR_LEN));
      } else if i < DIR_LEN + 2 * PTRS {
        Release(Get(t2, i - DIR_LEN - PTRS));
      } else {
        var e := i - DOUBLE_START;
        var o := e / PTRS;
        var inn := e % PTRS;
        NextInner(i);
        if inn == 0 {
          cur' := Entries(dk, Get(t2l1, o));
        }
        Release(Get(cur', inn));
        if inn == PTRS - 1 {
          Release(Get(t2l1, o));
        } else if i == index {
          Release(Get(t2l1, o));
        }
      }
    }

    /** A turn of the release loop, accounted against what is released so far. */
    method ReleaseStep(dk: Disk, sector: Sector, d: InodeDisk, index: nat, i: nat, t1: map<nat, Sector>,
                       t2: map<nat, Sector>, t2l1: map<nat, Sector>, cur: map<nat, Sector>, ghost f0: set<Sector>)
      returns (cur': map<nat, Sector>)
      requires i <= index && free == f0 + Released(dk, d, sector, i, index)
      requires TablesRead(dk, d, index, t1, t2, t2l1)
      requires CurrentGroup(dk, d, i, index, cur)
      modifies this`free
      ensures free == f0 + Released(dk, d, sector, i + 1, index)
      ensures CurrentGroup(dk, d, i + 1, index, cur')
    {
      ghost var before := Released(dk, d, sector, i, index);
      cur' := ReleaseBlock(dk, d, index, i, t1, t2, t2l1, cur);
      UnionShift(f0, before, {BlockSector(dk, d, i)} + FlushSet(dk, d, i, index));
    }

    /** `list_remove (&inode->elem)`: the registry without `inode`; the
        other inodes stay valid. */
    method Unregister(inode: Inode)
      requires inode in openInodes && InodesSane(disk)
      requires forall i :: 0 <= i < |openInodes| && openInodes[i] != inode ==> openInodes[i].Valid()
      requires forall i, j :: 0 <= i < j < |openInodes| ==> openInodes[i].sector != openInodes[j].sector
      modifies this`openInodes
      ensures openInodes == Unlink(old(openInodes), inode) && Valid()
    {
      ghost var s0 := openInodes;
      ghost var p :| 0 <= p < |s0| && s0[p] == inode;
      UnlinkAt(s0, inode, p);
      openInodes := Unlink(openInodes, inode);
      assert openInodes == s0[..p] + s0[p + 1..];
      forall i | 0 <= i < |openInodes|
        ensures openInodes[i] == s0[if i < p then i else i + 1]
      {
      }
    }

    /** The release half of `inode_close`: the inode's sector, then the
        index sectors, then data blocks in order, each second-level block
        once its last data block is released. */
    method ReleaseAll(sector: Sector, d: InodeDisk)
      modifies this`free
      ensures free == old(free) + {sector} + Elems(Footprint(disk, d, d.length / SECTOR_SIZE))
    {
      var dk := disk;
      var index := d.length / SECTOR_SIZE;
      ghost var f0 := free;
      var t1, t2, t2l1 := ReleaseTop(dk, sector, d, index);
      var cur: map<nat, Sector> := map[];
      var i: nat := 0;
      while i <= index
        invariant i <= index + 1
        invariant free == f0 + Released(dk, d, sector, i, index)
        invariant TablesRead(dk, d, index, t1, t2, t2l1)
        invariant CurrentGroup(dk, d, i, index, cur)
      {
        cur := ReleaseStep(dk, sector, d, index, i, t1, t2, t2l1, cur, f0);
        i := i + 1;
      }
      ReleasedFootprint(dk, d, sector, index, f0);
    }

    /** `free_map_allocate (1, &p)`: `p` keeps its value when no sector is free. */
    method AllocInto(p: Sector) returns (r: Sector)
      modifies this`free
      ensures old(free) != {} ==> r in old(free) && free == old(free) - {r}
      ensures old(free) == {} ==> r == p && free == old(free)
    {
      var ok, s := Allocate();
      r := if ok then s else p;
    }

    /** The singly indirect blocks `inode_create` allocates for last block `index`. */
    method AllocSingles(index: nat, ghost good: bool) returns (single: seq<Sector>, ghost top: seq<Sector>)
      requires good ==> IndexBlocks(index) <= |free|
      modifies this`free
      ensures |single| == 2
      ensures index < DIR_LEN ==> single[0] == 0
      ensures index < SINGLE2_START ==> single[1] == 0
      ensures good ==> Taken(old(free), free, top)
      ensures good ==> top == (if index >= DIR_LEN then [single[0]] else []) + (if index >= SINGLE2_START then [single[1]] else [])
    {
      single := [0, 0];
      top := [];
      if index >= DIR_LEN {
        var s := AllocInto(single[0]);
        if good { TakenSnoc(old(free), old(free), [], s); }
        single := single[0 := s];
        top := [s];
      }
      if index >= SINGLE2_START {
        ghost var fb := free;
        var s := AllocInto(single[1]);
        if good { TakenSnoc(old(free), fb, top, s); }
        single := single[1 := s];
        top := top + [s];
      }
    }

    /** The loop of `inode_create` that allocates second-level blocks
        `0..outer` into a zeroed doubly indirect block. */
    method AllocSeconds(outer: nat, ghost good: bool, ghost free0: set<Sector>, ghost top0: seq<Sector>)
      returns (t2l1: map<nat, Sector>, ghost top: seq<Sector>)
      requires good ==> Taken(free0, free, top0) && |top0| + outer + 1 <= |free0|
      modifies this`free
      ensures good ==> |top| == |top0| + outer + 1 && top[..|top0|] == top0 && Taken(free0, free, top)
      ensures good ==> forall o :: 0 <= o <= outer ==> Get(t2l1, o) == top[|top0| + o]
    {
      t2l1 := map[];
      top := top0;
      var i: nat := 0;
      while i <= outer
        invariant i <= outer + 1
        invariant good ==> |top| == |top0| + i && top[..|top0|] == top0 && Taken(free0, free, top)
        invariant good ==> forall o :: 0 <= o < i ==> Get(t2l1, o) == top[|top0| + o]
      {
        ghost var fb := free;
        ghost var tb := top;
        ghost var mb := t2l1;
        var s := AllocInto(Get(t2l1, i));
        if good { TakenSnoc(free0, fb, top, s); }
        t2l1 := t2l1[i := s];
        top := top + [s];
        if good {
          forall o | 0 <= o <= i
            ensures Get(t2l1, o) == top[|top0| + o]
          {
            if o < i {
              assert Get(t2l1, o) == Get(mb, o) && top[|top0| + o] == tb[|top0| + o];
            }
          }
        }
        i := i + 1;
      }
    }

    /**
     * The first part of `inode_create`: a zeroed on-disk inode with the
     * singly and doubly indirect blocks and the second-level blocks the
     * length needs, and the doubly indirect block written out.
     */
    method CreateIndex(length: nat, index: nat, ghost good: bool)
      returns (d: InodeDisk, t2l1: map<nat, Sector>, ghost top: seq<Sector>)
      requires good ==> IndexBlocks(index) <= |free|
      requires InodesSane(disk)
      modifies this`disk, this`free
      ensures InodesSane(disk)
      ensures d.length == length && d.magic == INODE_MAGIC && Shaped(d) && d.dir == seq(DIR_LEN, _ => 0)
      ensures index >= DOUBLE_START ==> disk == old(disk)[d.double := Index(t2l1)]
      ensures index < DOUBLE_START ==> disk == old(disk)
      ensures good ==> top == TopIndex(d, index) + Seconds(t2l1, index) && Taken(old(free), free, top)
      ensures good ==> |top| == IndexBlocks(index)
    {
      ghost var free0 := free;
      var single;
      single, top := AllocSingles(index, good);
      ghost var top1 := top;
      var double: Sector := 0;
      t2l1 := map[];
      if index >= DOUBLE_START {
        double, t2l1, top := AllocDouble(index, good, free0, top);
      }
      d := InodeDisk(length, INODE_MAGIC, seq(DIR_LEN, _ => 0), single, double);
      if good {
        assert SingleAt(d, 0) == single[0] && SingleAt(d, 1) == single[1];
        if index >= DOUBLE_START {
          assert TopIndex(d, index) == top1 + [double];
          assert |Seconds(t2l1, index)| == Outer(index) + 1;
        } else {
          assert TopIndex(d, index) == top1 && Seconds(t2l1, index) == [];
        }
      }
    }

    /** The doubly indirect block of `inode_create`, its second-level
        blocks, and the doubly indirect block written out. */
    method AllocDouble(index: nat, ghost good: bool, ghost free0: set<Sector>, ghost top0: seq<Sector>)
      returns (double: Sector, t2l1: map<nat, Sector>, ghost top: seq<Sector>)
      requires index >= DOUBLE_START
      requires good ==> Taken(free0, free, top0) && |top0| + 2 + Outer(index) <= |free0|
      requires InodesSane(disk)
      modifies this`disk, this`free
      ensures InodesSane(disk) && disk == old(disk)[double := Index(t2l1)]
      ensures good ==> top == top0 + [double] + Seconds(t2l1, index) && Taken(free0, free, top)
    {
      ghost var fb := free;
      double := AllocInto(0);
      if good { TakenSnoc(free0, fb, top0, double); }
      top := top0 + [double];
      var outer := (index - DOUBLE_START) / PTRS;
      assert outer == Outer(index);
      ghost var top3 := top;
      t2l1, top := AllocSeconds(outer, good, free0, top);
      if good {
        assert top == top3 + top[|top3|..];
        assert top[|top3|..] == Seconds(t2l1, index);
      }
      disk := disk[double := Index(t2l1)];
    }

    /**
     * One turn of the data loop of `inode_create`: allocate the sector of
     * block `i` into its slot, zero it on disk, and write the current
     * second-level page out when it is full or `i` is the last block.
     */
    method CreateStep(i: nat, index: nat, dir: seq<Sector>, t1: map<nat, Sector>, t2: map<nat, Sector>,
                      t2l1: map<nat, Sector>, cur: map<nat, Sector>)
      returns (dir': seq<Sector>, t1': map<nat, Sector>, t2': map<nat, Sector>, cur': map<nat, Sector>, s: Sector)
      requires i <= index && |dir| == DIR_LEN
      modifies this`disk, this`free
      ensures |dir'| == DIR_LEN
      ensures old(free) != {} ==> s in old(free) && free == old(free) - {s}
      ensures Stepped(old(disk), disk, dir, t1, t2, t2l1, cur, dir', t1', t2', cur', i, index, s)
    {
      dir', t1', t2', cur' := dir, t1, t2, cur;
      if i < DIR_LEN {
        s := AllocInto(dir[i]);
        dir' := dir[i := s];
      } else if i < SINGLE2_START {
        s := AllocInto(Get(t1, i - DIR_LEN));
        t1' := t1[i - DIR_LEN := s];
      } else if i < DOUBLE_START {
        s := AllocInto(Get(t2, i - SINGLE2_START));
        t2' := t2[i - SINGLE2_START := s];
      } else {
        var page := if Inner(i) == 0 then map[] else cur;
        s := AllocInto(Get(page, Inner(i)));
        cur' := page[Inner(i) := s];
      }
      disk := disk[s := Data(Zeros(SECTOR_SIZE))];
      if i >= DOUBLE_START && (Inner(i) == PTRS - 1 || i == index) {
        disk := disk[Get(t2l1, Outer(i)) := Index(cur')];
      }
    }

    /** The data loop of `inode_create`: blocks `0..index`, each allocated and zeroed. */
    method CreateData(index: nat, d: InodeDisk, t2l1: map<nat, Sector>, ghost good: bool, ghost free0: set<Sector>)
      returns (dir: seq<Sector>, t1: map<nat, Sector>, t2: map<nat, Sector>, cur: map<nat, Sector>, ghost blocks: seq<Sector>)
      requires |d.dir| == DIR_LEN && InodesSane(disk)
      requires good ==> Filling(disk, disk, free0, free, d, d.dir, map[], map[], t2l1, map[], [], index)
      modifies this`disk, this`free
      ensures |dir| == DIR_LEN && |blocks| == index + 1 && InodesSane(disk)
      ensures good ==> Filling(disk, old(disk), free0, free, d, dir, t1, t2, t2l1, cur, blocks, index)
    {
      dir, t1, t2, cur := d.dir, map[], map[], map[];
      blocks := [];
      var i: nat := 0;
      while i <= index
        invariant i == |blocks| <= index + 1 && |dir| == DIR_LEN && InodesSane(disk)
        invariant good ==> Filling(disk, old(disk), free0, free, d, dir, t1, t2, t2l1, cur, blocks, index)
      {
        ghost var db := disk;
        ghost var fb := free;
        var dir', t1', t2', cur', s := CreateStep(i, index, dir, t1, t2, t2l1, cur);
        SteppedSane(db, disk, dir, t1, t2, t2l1, cur, dir', t1', t2', cur', i, index, s);
        if good {
          FillingStep(db, disk, old(disk), free0, fb, free, d, dir, t1, t2, t2l1, cur, dir', t1', t2', cur', blocks, index, s);
        }
        dir, t1, t2, cur := dir', t1', t2', cur';
        blocks := blocks + [s];
        i := i + 1;
      }
    }

    /**
     * `inode_create`: refuses a length the index cannot address and fails
     * when memory runs out; otherwise allocates the index and data sectors
     * the length needs, zeroes the data, writes the index and the inode
     * at `sector`, and reports success. When the inode's sector is not
     * free and enough sectors are, the new file is laid out as `Created`
     * describes.
     */
    method Create(sector: Sector, length: nat, memory: bool) returns (success: bool)
      requires Valid()
      modifies this`disk, this`free
      ensures Valid()
      ensures success == (memory && Admits(length))
      ensures !success ==> disk == old(disk) && free == old(free)
      ensures success && sector !in old(free) && SectorsNeeded(length / SECTOR_SIZE) <= |old(free)| ==>
                Created(old(disk), disk, old(free), free, sector, length)
    {
      if !Admits(length) {
        return false;
      }
      if !memory {
        return false;
      }
      var index := length / SECTOR_SIZE;
      ghost var good := sector !in free && SectorsNeeded(index) <= |free|;
      ghost var free0 := free;
      ghost var disk0 := disk;
      var d, t2l1, top := CreateIndex(length, index, good);
      ghost var disk1 := disk;
      if good {
        FillingStart(disk, free0, free, d, t2l1, index);
      }
      var dir, t1, t2, cur, blocks := CreateData(index, d, t2l1, good, free0);
      ghost var diskL := disk;
      ghost var d0 := d;
      d := d.(dir := dir);
      WriteInode(d, t1, t2, index, sector);
      success := true;
      if good {
        CreateDone(old(disk), disk1, diskL, disk, old(free), free, d0, dir, t1, t2, t2l1, cur, blocks, sector, length);
      }
    }

    /** `free_map_allocate` of one index block of a growing file, recorded in the ledger. */
    method AllocTop(p: Sector, ghost good: bool, ghost room: nat, ghost free0: set<Sector>,
                    ghost owned0: set<Sector>, ghost top0: seq<Sector>, ghost secs: seq<Sector>, ghost data: seq<Sector>)
      returns (s: Sector, ghost top: seq<Sector>)
      requires good ==> Ledger(top0, secs, data, free0, free, owned0) && 1 <= room <= |free|
      modifies this`free
      ensures free <= old(free) && top == top0 + [s]
      ensures good ==> Ledger(top, secs, data, free0, free, owned0) && room - 1 <= |free|
    {
      ghost var fb := free;
      s := AllocInto(p);
      if good { LedgerTop(top0, secs, data, free0, fb, owned0, s); }
      top := top0 + [s];
    }

    /** The singly indirect blocks `inode_extend_length` allocates when the
        last block moves from `oi` to `ni`; the others keep their pointers. */
    method ExtendSingles(single0: seq<Sector>, oi: nat, ni: nat, ghost good: bool, ghost room: nat,
                         ghost free0: set<Sector>, ghost owned0: set<Sector>, ghost top0: seq<Sector>,
                         ghost secs: seq<Sector>, ghost data: seq<Sector>)
      returns (single: seq<Sector>, ghost top: seq<Sector>)
      requires |single0| == 2
      requires good ==> Ledger(top0, secs, data, free0, free, owned0) && NewSingles(oi, ni) <= room <= |free|
      modifies this`free
      ensures |single| == 2 && free <= old(free)
      ensures !(oi < DIR_LEN <= ni) ==> single[0] == single0[0]
      ensures !(oi < SINGLE2_START <= ni) ==> single[1] == single0[1]
      ensures good ==> Ledger(top, secs, data, free0, free, owned0) && room - NewSingles(oi, ni) <= |free|
      ensures top == top0 + (if oi < DIR_LEN <= ni then [single[0]] else [])
                          + (if oi < SINGLE2_START <= ni then [single[1]] else [])
    {
      single := single0;
      top := top0;
      ghost var rest := room;
      if ni >= DIR_LEN && oi < DIR_LEN {
        var s;
        s, top := AllocTop(single[0], good, rest, free0, owned0, top, secs, data);
        single := single[0 := s];
        rest := if good then rest - 1 else 0;
      }
      if ni >= SINGLE2_START && oi < SINGLE2_START {
        var s;
        s, top := AllocTop(single[1], good, rest, free0, owned0, top, secs, data);
        single := single[1 := s];
      }
    }

    /** The loop of `inode_extend_length` that allocates second-level
        blocks `from..last` into the doubly indirect page `t`. */
    method ExtendSeconds(t: map<nat, Sector>, from: nat, last: nat, ghost good: bool, ghost room: nat,
                         ghost free0: set<Sector>, ghost owned0: set<Sector>, ghost top: seq<Sector>,
                         ghost secs0: seq<Sector>, ghost data: seq<Sector>)
      returns (t2l1: map<nat, Sector>, ghost secs: seq<Sector>)
      requires from <= last + 1
      requires good ==> Ledger(top, secs0, data, free0, free, owned0) && last + 1 - from <= room <= |free|
      requires good ==> |secs0| == from && forall o :: 0 <= o < from ==> secs0[o] == Get(t, o)
      modifies this`free
      ensures free <= old(free)
      ensures forall o :: 0 <= o < from ==> Get(t2l1, o) == Get(t, o)
      ensures good ==> Ledger(top, secs, data, free0, free, owned0) && room - (last + 1 - from) <= |free|
      ensures good ==> |secs| == last + 1 && forall o :: 0 <= o <= last ==> secs[o] == Get(t2l1, o)
    {
      t2l1 := t;
      secs := secs0;
      var o := from;
      while o <= last
        invariant from <= o <= last + 1 && free <= old(free)
        invariant forall k :: 0 <= k < from ==> Get(t2l1, k) == Get(t, k)
        invariant good ==> Ledger(top, secs, data, free0, free, owned0) && room - (o - from) <= |free|
        invariant good ==> |secs| == o && forall k :: 0 <= k < o ==> secs[k] == Get(t2l1, k)
      {
        ghost var fb := free;
        var s := AllocInto(Get(t2l1, o));
        if good { LedgerSecond(top, secs, data, free0, fb, owned0, s); }
        t2l1 := t2l1[o := s];
        secs := secs + [s];
        o := o + 1;
      }
    }

    /** The doubly indirect part of `inode_extend_length`: the doubly
        indirect block when the file first needs it, the second-level
        blocks the new length adds, and the doubly indirect block written out. */
    method ExtendDouble(double0: Sector, oi: nat, ni: nat, ghost good: bool, ghost room: nat,
                        ghost free0: set<Sector>, ghost owned0: set<Sector>, ghost top0: seq<Sector>,
                        ghost secs0: seq<Sector>, ghost data: seq<Sector>)
      returns (double: Sector, t2l1: map<nat, Sector>, ghost top: seq<Sector>, ghost secs: seq<Sector>)
      requires DOUBLE_START <= ni && oi <= ni && InodesSane(disk)
      requires good ==> Ledger(top0, secs0, data, free0, free, owned0) && NewSeconds(oi, ni) <= room <= |free|
      requires good ==> secs0 == Seconds(Entries(disk, double0), oi)
      modifies this`disk, this`free
      ensures InodesSane(disk) && disk == old(disk)[double := Index(t2l1)] && free <= old(free)
      ensures oi >= DOUBLE_START ==> (double == double0 &&
                forall o :: 0 <= o <= Outer(oi) ==> Get(t2l1, o) == Entry(old(disk), double0, o))
      ensures good ==> Ledger(top, secs, data, free0, free, owned0) && room - NewSeconds(oi, ni) <= |free|
      ensures good ==> top == top0 + (if oi < DOUBLE_START then [double] else []) && secs == Seconds(t2l1, ni)
    {
      double := double0;
      top := top0;
      ghost var rest := room;
      if oi < DOUBLE_START {
        double, top := AllocTop(double0, good, rest, free0, owned0, top0, secs0, data);
        rest := if good then room - 1 else 0;
      }
      var t := Entries(disk, double);
      var from := if oi < DOUBLE_START then 0 else (oi - DOUBLE_START) / PTRS + 1;
      var last := (ni - DOUBLE_START) / PTRS;
      assert last == Outer(ni);
      OuterMonotone(oi, ni);
      t2l1, secs := ExtendSeconds(t, from, last, good, rest, free0, owned0, top, secs0, data);
      if good {
        assert secs == Seconds(t2l1, ni);
      }
      disk := disk[double := Index(t2l1)];
    }

    /** The singly and doubly indirect parts of `inode_extend_length`. */
    method ExtendTops(d0: InodeDisk, oi: nat, ni: nat, ghost good: bool, ghost free0: set<Sector>,
                      ghost owned0: set<Sector>, ghost top0: seq<Sector>, ghost secs0: seq<Sector>, ghost data: seq<Sector>)
      returns (d: InodeDisk, t2l1: map<nat, Sector>, ghost top: seq<Sector>, ghost secs: seq<Sector>)
      requires oi <= ni && Shaped(d0) && InodesSane(disk)
      requires good ==> Ledger(top0, secs0, data, free0, free, owned0)
      requires good ==> (ni - oi) + NewSingles(oi, ni) + NewSeconds(oi, ni) <= |free|
      requires good ==> secs0 == Seconds(Entries(disk, d0.double), oi)
      modifies this`disk, this`free
      ensures InodesSane(disk) && free <= old(free)
      ensures Shaped(d) && d.length == d0.length && d.magic == d0.magic && d.dir == d0.dir
      ensures oi >= DIR_LEN ==> SingleAt(d, 0) == SingleAt(d0, 0)
      ensures oi >= SINGLE2_START ==> SingleAt(d, 1) == SingleAt(d0, 1)
      ensures oi >= DOUBLE_START ==> (d.double == d0.double &&
                forall o :: 0 <= o <= Outer(oi) ==> Get(t2l1, o) == Entry(old(disk), d0.double, o))
      ensures ni >= DOUBLE_START ==> disk == old(disk)[d.double := Index(t2l1)]
      ensures ni < DOUBLE_START ==> disk == old(disk)
      ensures good ==> ni - oi <= |free| && Ledger(top, secs, data, free0, free, owned0)
      ensures good ==> secs == Seconds(t2l1, ni)
      ensures good ==> top == top0 + (if oi < DIR_LEN <= ni then [SingleAt(d, 0)] else [])
                                   + (if oi < SINGLE2_START <= ni then [SingleAt(d, 1)] else [])
                                   + (if oi < DOUBLE_START <= ni then [d.double] else [])
    {
      ghost var room := if good then (ni - oi) + NewSingles(oi, ni) + NewSeconds(oi, ni) else 0;
      var single;
      single, top := ExtendSingles(d0.single, oi, ni, good, room, free0, owned0, top0, secs0, data);
      room := if good then room - NewSingles(oi, ni) else 0;
      d := d0.(single := single);
      t2l1 := map[];
      secs := secs0;
      if ni >= DOUBLE_START {
        var double;
        ghost var top1 := top;
        double, t2l1, top, secs := ExtendDouble(d0.double, oi, ni, good, room, free0, owned0, top1, secs0, data);
        d := d.(double := double);
      }
    }

    /**
     * The index part of `inode_extend_length`, growing the file whose
     * inode is `d0` from last block `oi` to last block `ni`: the singly
     * and doubly indirect blocks and the second-level blocks the longer
     * file needs are allocated, and the doubly indirect block is written
     * out. When the file owns its sectors alone and enough are free,
     * every allocation succeeds and is recorded in the ledger.
     */
    method ExtendIndex(d0: InodeDisk, oi: nat, ni: nat, ghost sector: Sector, ghost good: bool)
      returns (d: InodeDisk, t2l1: map<nat, Sector>)
      requires oi <= ni && Shaped(d0) && InodesSane(disk)
      requires good ==> Consistent(disk, free, sector, d0, oi) && SectorsNeeded(ni) - SectorsNeeded(oi) <= |free|
      modifies this`disk, this`free
      ensures InodesSane(disk) && free <= old(free)
      ensures Shaped(d) && d.length == d0.length && d.magic == d0.magic && d.dir == d0.dir
      ensures oi >= DIR_LEN ==> SingleAt(d, 0) == SingleAt(d0, 0)
      ensures oi >= SINGLE2_START ==> SingleAt(d, 1) == SingleAt(d0, 1)
      ensures oi >= DOUBLE_START ==> (d.double == d0.double &&
                forall o :: 0 <= o <= Outer(oi) ==> Get(t2l1, o) == Entry(old(disk), d0.double, o))
      ensures ni >= DOUBLE_START ==> disk == old(disk)[d.double := Index(t2l1)]
      ensures ni < DOUBLE_START ==> disk == old(disk)
      ensures good ==> (ni - oi <= |free| &&
                Ledger([sector] + TopIndex(d, ni), Seconds(t2l1, ni), DataUpTo(old(disk), d0, oi + 1),
                       old(free), free, Owned(old(disk), sector, d0, oi)))
    {
      ghost var top0 := [sector] + TopIndex(d0, oi);
      ghost var secs0 := Seconds(Entries(disk, d0.double), oi);
      ghost var data := DataUpTo(disk, d0, oi + 1);
      if good {
        LedgerStart(top0, secs0, data, free);
        NewIndexCount(oi, ni);
        SectorsNeededMonotone(oi, ni);
      }
      ghost var top, secs;
      d, t2l1, top, secs := ExtendTops(d0, oi, ni, good, free, Owned(disk, sector, d0, oi), top0, secs0, data);
      if good {
        TopGrows(sector, d0, d, oi, ni, top0 + (if oi < DIR_LEN <= ni then [SingleAt(d, 0)] else [])
                                              + (if oi < SINGLE2_START <= ni then [SingleAt(d, 1)] else []), top);
      }
    }

    /**
     * One turn of the data loop of `inode_extend_length`: allocate the
     * sector of block `i` into its slot and zero it on disk; in the doubly
     * indirect tier the block's second-level page is read back (or cleared
     * at its first entry) and written out again at once.
     */
    method ExtendStep(i: nat, dir: seq<Sector>, t1: map<nat, Sector>, t2: map<nat, Sector>, t2l1: map<nat, Sector>)
      returns (dir': seq<Sector>, t1': map<nat, Sector>, t2': map<nat, Sector>, s: Sector)
      requires |dir| == DIR_LEN
      modifies this`disk, this`free
      ensures |dir'| == DIR_LEN
      ensures old(free) != {} ==> s in old(free) && free == old(free) - {s}
      ensures free <= old(free)
      ensures GrowStep(old(disk), disk, dir, t1, t2, t2l1, dir', t1', t2', i, s)
    {
      dir', t1', t2' := dir, t1, t2;
      if i < DIR_LEN {
        s := AllocInto(dir[i]);
        dir' := dir[i := s];
        disk := disk[s := Data(Zeros(SECTOR_SIZE))];
      } else if i < SINGLE2_START {
        s := AllocInto(Get(t1, i - DIR_LEN));
        t1' := t1[i - DIR_LEN := s];
        disk := disk[s := Data(Zeros(SECTOR_SIZE))];
      } else if i < DOUBLE_START {
        s := AllocInto(Get(t2, i - SINGLE2_START));
        t2' := t2[i - SINGLE2_START := s];
        disk := disk[s := Data(Zeros(SECTOR_SIZE))];
      } else {
        var g := Get(t2l1, Outer(i));
        var page := if Inner(i) == 0 then map[] else Entries(disk, g);
        s := AllocInto(Get(page, Inner(i)));
        page := page[Inner(i) := s];
        disk := disk[s := Data(Zeros(SECTOR_SIZE))];
        disk := disk[g := Index(page)];
      }
    }

    /** One turn of the data loop of `inode_extend_length`, with the loop invariant carried across it. */
    method ExtendTurn(i: nat, dir: seq<Sector>, t1: map<nat, Sector>, t2: map<nat, Sector>, t2l1: map<nat, Sector>,
                      ghost diskP: Disk, ghost sector: Sector, ghost d: InodeDisk, ghost good: bool,
                      ghost free0: set<Sector>, ghost owned0: set<Sector>, ghost want: seq<Sector>,
                      ghost first: nat, ghost ni: nat)
      returns (dir': seq<Sector>, t1': map<nat, Sector>, t2': map<nat, Sector>, ghost want': seq<Sector>)
      requires |dir| == DIR_LEN && InodesSane(disk)
      requires good ==> (i == |want| <= ni && first <= |want| &&
                 Growing(disk, diskP, free0, free, owned0, sector, d, dir, t1, t2, t2l1, want, first, ni))
      modifies this`disk, this`free
      ensures |dir'| == DIR_LEN && InodesSane(disk) && free <= old(free)
      ensures good ==> (|want'| == |want| + 1 && want'[..first] == want[..first])
      ensures good ==> Growing(disk, diskP, free0, free, owned0, sector, d, dir', t1', t2', t2l1, want', first, ni)
    {
      ghost var db := disk;
      ghost var fb := free;
      var s;
      dir', t1', t2', s := ExtendStep(i, dir, t1, t2, t2l1);
      GrowSane(db, disk, dir, t1, t2, t2l1, dir', t1', t2', i, s);
      if good {
        GrowingStep(db, disk, diskP, free0, fb, free, owned0, sector, d, dir, t1, t2, t2l1,
                    dir', t1', t2', want, first, ni, s);
      }
      want' := want + [s];
      if first <= |want| {
        assert want'[..first] == want[..first];
      }
    }

    /** The data loop of `inode_extend_length`: blocks `oi + 1..ni`, each allocated and zeroed. */
    method ExtendData(d: InodeDisk, t1: map<nat, Sector>, t2: map<nat, Sector>, t2l1: map<nat, Sector>,
                      oi: nat, ni: nat, ghost sector: Sector, ghost good: bool, ghost free0: set<Sector>,
                      ghost owned0: set<Sector>, ghost want0: seq<Sector>)
      returns (dir: seq<Sector>, t1': map<nat, Sector>, t2': map<nat, Sector>, ghost want: seq<Sector>)
      requires oi <= ni && Shaped(d) && InodesSane(disk)
      requires good ==> (|want0| == oi + 1 &&
                 Growing(disk, disk, free0, free, owned0, sector, d, d.dir, t1, t2, t2l1, want0, oi + 1, ni))
      modifies this`disk, this`free
      ensures |dir| == DIR_LEN && InodesSane(disk) && free <= old(free)
      ensures good ==> (|want| == ni + 1 && want[..oi + 1] == want0 &&
                Growing(disk, old(disk), free0, free, owned0, sector, d, dir, t1', t2', t2l1, want, oi + 1, ni))
    {
      dir, t1', t2' := d.dir, t1, t2;
      want := want0;
      var i := oi + 1;
      while i <= ni
        invariant oi + 1 <= i <= ni + 1 && |dir| == DIR_LEN && InodesSane(disk) && free <= old(free)
        invariant good ==> (|want| == i && want[..oi + 1] == want0[..oi + 1] &&
                    Growing(disk, old(disk), free0, free, owned0, sector, d, dir, t1', t2', t2l1, want, oi + 1, ni))
      {
        dir, t1', t2', want := ExtendTurn(i, dir, t1', t2', t2l1, old(disk), sector, d, good, free0, owned0,
                                          want, oi + 1, ni);
        i := i + 1;
      }
      if good {
        assert want0[..oi + 1] == want0;
      }
    }

    /**
     * The data part of `inode_extend_length` and its final writes: blocks
     * `oi + 1..ni` allocated and zeroed, then the singly indirect pages and
     * the inode `d` written out at `sector`.
     */
    method ExtendRest(d: InodeDisk, t2l1: map<nat, Sector>, oi: nat, ni: nat, sector: Sector,
                      ghost good: bool, ghost disk0: Disk, ghost free0: set<Sector>, ghost d0: InodeDisk)
      returns (d': InodeDisk)
      requires oi <= ni && Shaped(d) && InodesSane(disk) && d.length < MAX_LEN
      requires good ==> (oi == d0.length / SECTOR_SIZE && Consistent(disk0, free0, sector, d0, oi))
      requires good ==> (ni >= DOUBLE_START ==> disk == disk0[d.double := Index(t2l1)])
      requires good ==> (ni < DOUBLE_START ==> disk == disk0)
      requires good ==> |DataUpTo(disk0, d0, oi + 1)| == oi + 1
      requires good ==> Growing(disk, disk, free0, free, Owned(disk0, sector, d0, oi), sector, d, d.dir,
                                if ni >= DIR_LEN then Entries(disk, SingleAt(d, 0)) else map[],
                                if ni >= SINGLE2_START then Entries(disk, SingleAt(d, 1)) else map[],
                                t2l1, DataUpTo(disk0, d0, oi + 1), oi + 1, ni)
      modifies this`disk, this`free
      ensures InodesSane(disk) && free <= old(free) && InodeAt(disk, sector) == d'
      ensures Shaped(d') && d' == d.(dir := d'.dir)
      ensures good ==> Grew(disk0, disk, free0, free, sector, d0, d', ni)
    {
      var t1 := if ni >= DIR_LEN then Entries(disk, SingleAt(d, 0)) else map[];
      var t2 := if ni >= SINGLE2_START then Entries(disk, SingleAt(d, 1)) else map[];
      ghost var diskP := disk;
      var dir, t1', t2', want := ExtendData(d, t1, t2, t2l1, oi, ni, sector, good, free0,
                                            Owned(disk0, sector, d0, oi), DataUpTo(disk0, d0, oi + 1));
      d' := ExtendFinish(d, dir, t1', t2', t2l1, oi, ni, sector, good, disk0, diskP, free0, d0, want);
    }

    /** The final writes of `inode_extend_length`: the singly indirect
        pages in use, then the inode with its new direct pointers. */
    method ExtendFinish(d: InodeDisk, dir: seq<Sector>, t1: map<nat, Sector>, t2: map<nat, Sector>,
                        t2l1: map<nat, Sector>, oi: nat, ni: nat, sector: Sector, ghost good: bool,
                        ghost disk0: Disk, ghost diskP: Disk, ghost free0: set<Sector>, ghost d0: InodeDisk,
                        ghost want: seq<Sector>)
      returns (d': InodeDisk)
      requires oi <= ni && Shaped(d) && |dir| == DIR_LEN && InodesSane(disk) && d.length < MAX_LEN
      requires good ==> (oi == d0.length / SECTOR_SIZE && Consistent(disk0, free0, sector, d0, oi))
      requires good ==> (ni >= DOUBLE_START ==> diskP == disk0[d.double := Index(t2l1)])
      requires good ==> (ni < DOUBLE_START ==> diskP == disk0)
      requires good ==> (|want| == ni + 1 && want[..oi + 1] == DataUpTo(disk0, d0, oi + 1))
      requires good ==> Growing(disk, diskP, free0, free, Owned(disk0, sector, d0, oi), sector, d, dir, t1, t2,
                                t2l1, want, oi + 1, ni)
      modifies this`disk
      ensures InodesSane(disk) && InodeAt(disk, sector) == d' && d' == d.(dir := dir)
      ensures good ==> Grew(disk0, disk, free0, free, sector, d0, d', ni)
    {
      ghost var diskL := disk;
      d' := d.(dir := dir);
      WriteInode(d', t1, t2, ni, sector);
      if good {
        GrowingDir(diskL, diskP, free0, free, Owned(disk0, sector, d0, oi), sector, d, dir, t1, t2, t2l1,
                   want, oi + 1, ni);
        ExtendDone(disk0, diskP, diskL, disk, free0, free, sector, d0, d', t1, t2, t2l1, want, oi, ni);
      }
    }

    /** `inode_extend_length` on the inode `d0` at `sector`, growing its last block from `oi` to `ni`. */
    method ExtendFile(d0: InodeDisk, oi: nat, ni: nat, sector: Sector, ghost good: bool) returns (d: InodeDisk)
      requires oi <= ni && oi == d0.length / SECTOR_SIZE && Shaped(d0) && d0.length < MAX_LEN && InodesSane(disk)
      requires good ==> Consistent(disk, free, sector, d0, oi) && SectorsNeeded(ni) - SectorsNeeded(oi) <= |free|
      modifies this`disk, this`free
      ensures InodesSane(disk) && free <= old(free) && InodeAt(disk, sector) == d
      ensures Shaped(d) && d.length == d0.length && d.magic == d0.magic
      ensures good ==> Grew(old(disk), disk, old(free), free, sector, d0, d, ni)
    {
      var d1, t2l1 := ExtendIndex(d0, oi, ni, sector, good);
      if good {
        GrowingStart(old(disk), disk, old(free), free, Owned(old(disk), sector, d0, oi), sector, d0, d1, t2l1, oi, ni);
        DataUpToAt(old(disk), d0, oi + 1);
      }
      d := ExtendRest(d1, t2l1, oi, ni, sector, good, old(disk), old(free), d0);
    }

    /**
     * `inode_extend_length`: when the write ending at `offset + size`
     * reaches past the end of the file, allocates the index and data
     * sectors the longer file needs, zeroes the new data sectors, and
     * writes the index and the inode out; the recorded length is left for
     * `inode_write_at` to update. Its one caller has already refused
     * lengths the index cannot address. When the file owned its sectors
     * alone and enough sectors were free (`good`, judged on the state
     * `disk0`, `free0`, `d0` the call starts from), the file has grown as
     * `Grew` describes.
     */
    method ExtendLength(inode: Inode, size: nat, offset: nat, ghost good: bool,
                        ghost disk0: Disk, ghost free0: set<Sector>, ghost d0: InodeDisk)
      requires Valid() && inode in openInodes && Admits(offset + size)
      requires disk0 == disk && free0 == free && d0 == inode.data
      requires good == Growable(disk0, free0, inode.sector, d0, offset + size)
      modifies this`disk, this`free, inode`data
      ensures Valid() && free <= old(free)
      ensures inode.data.length == old(inode.data.length) && inode.data.magic == old(inode.data.magic)
      ensures offset + size <= old(inode.data.length) ==>
                disk == old(disk) && free == old(free) && inode.data == old(inode.data)
      ensures old(inode.data.length) < offset + size ==> InodeAt(disk, inode.sector) == inode.data
      ensures good ==> GrewTo(disk0, disk, free0, free, inode.sector, d0, inode.data, offset + size)
    {
      var newLen := offset + size;
      var oldLen := inode.Length();
      if oldLen < newLen {
        var ni := newLen / SECTOR_SIZE;
        assert Max(d0.length, offset + size) / SECTOR_SIZE == ni;
        var d := ExtendFile(inode.data, oldLen / SECTOR_SIZE, ni, inode.sector, good);
        assert good ==> Grew(disk0, disk, free0, free, inode.sector, d0, d, ni);
        SetData(inode, d);
      } else {
        assert Max(d0.length, offset + size) == d0.length;
        if good {
          GrewNothing(disk, free, inode.sector, inode.data);
        }
      }
    }

    /** Replaces the in-memory copy of an open inode's disk inode. */
    method SetData(inode: Inode, d: InodeDisk)
      requires Valid() && inode in openInodes && Shaped(d) && d.length < MAX_LEN
      modifies inode`data
      ensures Valid() && inode.data == d
    {
      inode.data := d;
    }

    /**
     * `inode_write_at`: writes `buffer` from byte `offset` on. Nothing is
     * written while writes are denied or when the file would not be
     * shorter than `MAX_LEN`; otherwise the file grows to cover the write,
     * every byte is written sector by sector, and the inode is written
     * back with the new length. When the file owned its sectors alone,
     * the rest of its last block read as zero and enough sectors were
     * free, the result is as `Wrote` describes.
     */
    method WriteAt(inode: Inode, buffer: seq<byte>, offset: nat) returns (written: nat)
      requires Valid() && inode in openInodes
      modifies this`disk, this`free, inode`data
      ensures Valid() && free <= old(free)
      ensures inode.denyWriteCnt > 0 || !Admits(offset + |buffer|) ==>
                written == 0 && disk == old(disk) && free == old(free) && inode.data == old(inode.data)
      ensures inode.denyWriteCnt == 0 && Admits(offset + |buffer|) ==>
                && written == |buffer|
                && inode.data.length == (if old(inode.data.length) < offset + |buffer| then offset + |buffer|
                                         else old(inode.data.length))
                && InodeAt(disk, inode.sector) == inode.data
      ensures inode.denyWriteCnt == 0 && Admits(offset + |buffer|) &&
              old(Growable(disk, free, inode.sector, inode.data, offset + |buffer|) && TailZero(disk, inode.data)) ==>
                Wrote(old(disk), disk, old(free), free, inode.sector, old(inode.data), inode.data, buffer, offset)
    {
      if inode.denyWriteCnt > 0 {
        return 0;
      }
      var size := |buffer|;
      var newLen := offset + size;
      if !Admits(newLen) {
        return 0;
      }
      written := WriteAdmitted(inode, buffer, offset);
    }

    /** `inode_write_at` past its guards: the growth, then the writes. */
    method WriteAdmitted(inode: Inode, buffer: seq<byte>, offset: nat) returns (written: nat)
      requires Valid() && inode in openInodes && Admits(offset + |buffer|)
      modifies this`disk, this`free, inode`data
      ensures Valid() && free <= old(free) && written == |buffer|
      ensures inode.data.length == Max(old(inode.data.length), offset + |buffer|)
      ensures InodeAt(disk, inode.sector) == inode.data
      ensures old(Growable(disk, free, inode.sector, inode.data, offset + |buffer|) && TailZero(disk, inode.data)) ==>
                Wrote(old(disk), disk, old(free), free, inode.sector, old(inode.data), inode.data, buffer, offset)
    {
      ghost var grow := Growable(disk, free, inode.sector, inode.data, offset + |buffer|);
      ghost var disk0, free0, d0 := disk, free, inode.data;
      ExtendLength(inode, |buffer|, offset, grow, disk0, free0, d0);
      ghost var good := grow && TailZero(disk0, d0);
      written := WriteTail(inode, buffer, offset, good, disk0, free0, d0);
    }

    /** The rest of `inode_write_at` once the file has grown: the new
        length, the chunk writes and the inode written back. */
    method WriteTail(inode: Inode, buffer: seq<byte>, offset: nat, ghost good: bool,
                     ghost disk0: Disk, ghost free0: set<Sector>, ghost d0: InodeDisk) returns (written: nat)
      requires Valid() && inode in openInodes && Admits(offset + |buffer|)
      requires inode.data.length == d0.length
      requires good ==> GrewTo(disk0, disk, free0, free, inode.sector, d0, inode.data, offset + |buffer|)
      requires good ==> TailZero(disk0, d0)
      modifies this`disk, inode`data
      ensures Valid() && written == |buffer|
      ensures inode.data.length == Max(d0.length, offset + |buffer|)
      ensures InodeAt(disk, inode.sector) == inode.data
      ensures good ==> Wrote(disk0, disk, free0, free, inode.sector, d0, inode.data, buffer, offset)
    {
      var size := |buffer|;
      var inodeLen := inode.Length();
      var newLen := Max(inodeLen, offset + size);
      assert newLen == Max(d0.length, offset + |buffer|);
      var d := WriteFile(inode.data, newLen, buffer, offset, inode.sector, good, disk0, free0, d0);
      assert good ==> Wrote(disk0, disk, free0, free, inode.sector, d0, d, buffer, offset);
      SetData(inode, d);
      written := size;
    }

    /**
     * `inode_write_at` after the growth: the chunk loop, then the inode
     * written back at `sector` with length `len`.
     */
    method WriteFile(d: InodeDisk, len: nat, buffer: seq<byte>, offset: nat, sector: Sector, ghost good: bool,
                     ghost disk0: Disk, ghost free0: set<Sector>, ghost d0: InodeDisk)
      returns (d': InodeDisk)
      requires Valid() && Shaped(d) && len < MAX_LEN && offset + |buffer| <= len
      requires good ==> d.length == d0.length <= len && Grew(disk0, disk, free0, free, sector, d0, d, len / SECTOR_SIZE)
      requires good ==> TailZero(disk0, d0)
      modifies this`disk
      ensures Valid() && d' == d.(length := len) && InodeAt(disk, sector) == d'
      ensures good ==> Wrote(disk0, disk, free0, free, sector, d0, d', buffer, offset)
    {
      ghost var diskE := disk;
      var written := WriteChunks(d, len, buffer, offset, sector, good);
      ghost var diskW := disk;
      d' := d.(length := len);
      disk := disk[sector := Meta(d')];
      if good {
        WroteDone(disk0, diskE, diskW, free0, free, sector, d0, d, len, buffer, offset);
      }
    }

    /**
     * The loop of `inode_write_at`: `buffer` goes out chunk by chunk, each
     * chunk the rest of the buffer or of the sector, whichever is less,
     * into the sector holding byte `offset + written` of a file `len`
     * bytes long. The write ends within the file, so no chunk is empty
     * and every byte is written.
     */
    method WriteChunks(d: InodeDisk, len: nat, buffer: seq<byte>, offset: nat, ghost sector: Sector, ghost good: bool)
      returns (written: nat)
      requires InodesSane(disk) && offset + |buffer| <= len
      requires good ==> Consistent(disk, free, sector, d, len / SECTOR_SIZE)
      modifies this`disk
      ensures InodesSane(disk) && written == |buffer|
      ensures good ==> Written(old(disk), disk, d, len / SECTOR_SIZE, buffer, offset, |buffer|)
    {
      ghost var diskE := disk;
      var size: nat := |buffer|;
      written := 0;
      if good {
        WrittenStart(disk, d, len / SECTOR_SIZE, buffer, offset);
      }
      while size > 0
        invariant written + size == |buffer| && InodesSane(disk)
        invariant good ==> Written(diskE, disk, d, len / SECTOR_SIZE, buffer, offset, written)
        decreases size
      {
        var chunk := WriteChunk(d, len, buffer, offset, written, diskE, sector, good);
        size := size - chunk;
        written := written + chunk;
      }
    }

    /** One pass of the chunk loop of `inode_write_at`: as many bytes from
        `buffer[done..]` as fit in the sector holding byte `offset + done`. */
    method WriteChunk(d: InodeDisk, len: nat, buffer: seq<byte>, offset: nat, done: nat,
                      ghost diskE: Disk, ghost sector: Sector, ghost good: bool) returns (chunk: nat)
      requires InodesSane(disk) && done < |buffer| && offset + |buffer| <= len
      requires good ==> Consistent(diskE, free, sector, d, len / SECTOR_SIZE)
      requires good ==> Written(diskE, disk, d, len / SECTOR_SIZE, buffer, offset, done)
      modifies this`disk
      ensures InodesSane(disk) && 0 < chunk <= |buffer| - done
      ensures good ==> Written(diskE, disk, d, len / SECTOR_SIZE, buffer, offset, done + chunk)
    {
      var size := |buffer| - done;
      var pos := offset + done;
      var sectorIdx := ByteToSector(disk, d, pos, len);
      var sectorOfs := pos % SECTOR_SIZE;
      var inodeLeft := len - pos;
      var sectorLeft := SECTOR_SIZE - sectorOfs;
      var minLeft := if inodeLeft < sectorLeft then inodeLeft else sectorLeft;
      chunk := if size < minLeft then size else minLeft;
      if good {
        ChunkStep(diskE, disk, free, sector, d, len, buffer, offset, done, chunk, pos);
      }
      WriteBytesSane(disk, sectorIdx, sectorOfs, buffer[done..done + chunk]);
      disk := WriteBytes(disk, sectorIdx, sectorOfs, buffer[done..done + chunk]);
    }

    /** The final writes of `inode_create`: the singly indirect pages in
        use, then the inode at `sector`. */
    method WriteInode(d: InodeDisk, t1: map<nat, Sector>, t2: map<nat, Sector>, index: nat, sector: Sector)
      requires InodesSane(disk) && Shaped(d) && d.length < MAX_LEN
      modifies this`disk
      ensures disk == WriteTables(old(disk), d, t1, t2, index, sector) && InodesSane(disk)
    {
      ghost var dk := disk;
      if index >= DIR_LEN {
        disk := disk[d.single[0] := Index(t1)];
      }
      if index >= SINGLE2_START {
        disk := disk[d.single[1] := Index(t2)];
      }
      disk := disk[sector := Meta(d)];
      WriteTablesSane(dk, d, t1, t2, index, sector);
    }
  }
}
