/**
 * The sector cache: 64 slots, each holding one device sector, linked into a
 * recency list whose head is the most recently used slot.  A read scans the
 * list from the head, stops at the first invalid slot (valid slots are kept
 * in front of invalid ones), serves a hit from the slot, and on a miss refills
 * that invalid slot, or the least recently used one when every slot is valid;
 * either way the slot used moves to the head of the list.
 */
module SectorCache {

  import opened BlockDevice

  const CACHE_SLOTS: nat := 64

  /** Which block device (`struct block *`). */
  type DeviceId = nat
  /** The block devices' contents, by device and sector; a sector never written reads as zeros. */
  type Devices = map<(DeviceId, Sector), seq<byte>>

  /** What `block_read` delivers for a sector: always one sector's worth of bytes. */
  function DeviceSector(dev: Devices, block: DeviceId, sector: Sector): (r: seq<byte>)
    ensures |r| == SECTOR_SIZE
    ensures (block, sector) in dev && |dev[(block, sector)]| == SECTOR_SIZE ==> r == dev[(block, sector)]
  {
    if (block, sector) in dev && |dev[(block, sector)]| == SECTOR_SIZE then dev[(block, sector)] else Zeros(SECTOR_SIZE)
  }

  /** One `struct sector_cache` together with the sector memory it holds. */
  datatype Slot = Slot(valid: bool, dirty: bool, blockId: DeviceId, sectorId: Sector, content: seq<byte>)

  /** A slot as `calloc` leaves it. */
  function EmptySlot(): Slot
  {
    Slot(false, false, 0, 0, Zeros(SECTOR_SIZE))
  }

  predicate Holds(s: Slot, block: DeviceId, sector: Sector)
  {
    s.valid && s.sectorId == sector && s.blockId == block
  }

  /**
   * The cache as a value: the slot array and the recency list, which names
   * slots by their index in the array, head first.
   */
  datatype CacheView = CacheView(slots: seq<Slot>, order: seq<nat>)

  ghost predicate IsPermutation(order: seq<nat>, n: nat)
  {
    |order| == n &&
    (forall i :: 0 <= i < n ==> order[i] < n) &&
    (forall i, j :: 0 <= i < j < n ==> order[i] != order[j]) &&
    (forall x :: 0 <= x < n ==> x in order)
  }

  /** Every slot is in the list once, and every slot holds one sector's worth of bytes. */
  ghost predicate WellShaped(c: CacheView)
  {
    |c.slots| == CACHE_SLOTS && IsPermutation(c.order, CACHE_SLOTS) &&
    forall i :: 0 <= i < |c.slots| ==> |c.slots[i].content| == SECTOR_SIZE
  }

  /**
   * The invariants the scan relies on: valid slots come before invalid ones
   * in the list, and no two valid slots cache the same sector of the same device.
   */
  ghost predicate Coherent(c: CacheView)
  {
    WellShaped(c) &&
    (forall i, j :: 0 <= i < j < |c.order| && c.slots[c.order[j]].valid ==> c.slots[c.order[i]].valid) &&
    (forall a, b :: 0 <= a < b < |c.slots| && c.slots[a].valid && c.slots[b].valid ==>
        (c.slots[a].blockId, c.slots[a].sectorId) != (c.slots[b].blockId, c.slots[b].sectorId))
  }

  /**
   * Where the scan from the head stops: the first list position whose slot
   * is invalid or holds the sector, or the length of the list when none does.
   */
  function ScanStop(c: CacheView, block: DeviceId, sector: Sector, from: nat): (k: nat)
    requires WellShaped(c) && from <= |c.order|
    ensures from <= k <= |c.order|
    ensures forall j :: from <= j < k ==> c.slots[c.order[j]].valid && !Holds(c.slots[c.order[j]], block, sector)
    ensures k < |c.order| ==> !c.slots[c.order[k]].valid || Holds(c.slots[c.order[k]], block, sector)
    decreases |c.order| - from
  {
    if from == |c.order| then from
    else
      var s := c.slots[c.order[from]];
      if !s.valid || Holds(s, block, sector) then from else ScanStop(c, block, sector, from + 1)
  }

  /** A hit: the scan stopped at a valid slot, so that slot holds the sector. */
  ghost predicate Hit(c: CacheView, block: DeviceId, sector: Sector)
    requires WellShaped(c)
  {
    var k := ScanStop(c, block, sector, 0);
    k < |c.order| && c.slots[c.order[k]].valid
  }

  /** The list position refilled on a miss: the invalid slot the scan stopped at, else the tail. */
  function Victim(c: CacheView, block: DeviceId, sector: Sector): (v: nat)
    requires WellShaped(c)
    ensures v < |c.order|
  {
    var k := ScanStop(c, block, sector, 0);
    if k < |c.order| then k else |c.order| - 1
  }

  /** The list with its `k`-th element unlinked and pushed on the front. */
  function MoveToFront(order: seq<nat>, k: nat): seq<nat>
    requires k < |order|
  {
    [order[k]] + order[..k] + order[k + 1..]
  }

  /** A refilled slot: it now holds `data` as the given sector of the given device. */
  function Refill(s: Slot, block: DeviceId, sector: Sector, data: seq<byte>): Slot
  {
    s.(valid := true, blockId := block, sectorId := sector, content := data)
  }

  /** The slot at list position `v` replaced by `s` and moved to the head. */
  function Touch(c: CacheView, v: nat, s: Slot): CacheView
    requires WellShaped(c) && v < |c.order|
  {
    CacheView(c.slots[c.order[v] := s], MoveToFront(c.order, v))
  }

  /** The cache after a read of `sector` on `block`, whose device content is `data`. */
  ghost function AfterRead(c: CacheView, block: DeviceId, sector: Sector, data: seq<byte>): (r: CacheView)
    requires WellShaped(c)
    ensures |r.slots| == CACHE_SLOTS && |r.order| == CACHE_SLOTS
    ensures r.order[0] == c.order[if Hit(c, block, sector) then ScanStop(c, block, sector, 0) else Victim(c, block, sector)]
    ensures Holds(r.slots[r.order[0]], block, sector)
    ensures forall a :: 0 <= a < CACHE_SLOTS && a != r.order[0] ==> r.slots[a] == c.slots[a]
  {
    var k := ScanStop(c, block, sector, 0);
    if Hit(c, block, sector) then Touch(c, k, c.slots[c.order[k]])
    else
      var v := Victim(c, block, sector);
      Touch(c, v, Refill(c.slots[c.order[v]], block, sector, data))
  }

  /** The bytes a read hands to its caller. */
  ghost function ReadOut(c: CacheView, block: DeviceId, sector: Sector, data: seq<byte>): seq<byte>
    requires WellShaped(c)
  {
    if Hit(c, block, sector) then c.slots[c.order[ScanStop(c, block, sector, 0)]].content else data
  }

  /** The position in the old list of what position `i` of MoveToFront(order, k) holds. */
  function FromPos(k: nat, i: nat): nat
  {
    if i == 0 then k else if i <= k then i - 1 else i
  }

  lemma MoveToFrontAt(order: seq<nat>, k: nat, i: nat)
    requires k < |order| && i < |order|
    ensures |MoveToFront(order, k)| == |order|
    ensures MoveToFront(order, k)[i] == order[FromPos(k, i)]
  {
  }

  /** Moving one element to the front keeps the others in their relative order, and the same elements. */
  lemma MoveToFrontShape(order: seq<nat>, k: nat)
    requires k < |order|
    ensures MoveToFront(order, k)[0] == order[k]
    ensures MoveToFront(order, k)[1..] == order[..k] + order[k + 1..]
    ensures multiset(MoveToFront(order, k)) == multiset(order)
  {
    var m := MoveToFront(order, k);
    assert m == [order[k]] + (order[..k] + order[k + 1..]);
    assert order == order[..k] + ([order[k]] + order[k + 1..]);
  }

  /** Moving one element to the front keeps the list a permutation. */
  lemma MoveToFrontPermutes(order: seq<nat>, n: nat, k: nat)
    requires IsPermutation(order, n) && k < n
    ensures IsPermutation(MoveToFront(order, k), n)
  {
    var m := MoveToFront(order, k);
    forall i | 0 <= i < n ensures m[i] < n {
      MoveToFrontAt(order, k, i);
    }
    forall i, j | 0 <= i < j < n ensures m[i] != m[j] {
      MoveToFrontAt(order, k, i);
      MoveToFrontAt(order, k, j);
    }
    forall x | 0 <= x < n ensures x in m {
      assert x in order;
      var p :| 0 <= p < n && order[p] == x;
      var q := if p == k then 0 else if p < k then p + 1 else p;
      MoveToFrontAt(order, k, q);
    }
  }

  lemma TouchShaped(c: CacheView, v: nat, s: Slot)
    requires WellShaped(c) && v < |c.order| && |s.content| == SECTOR_SIZE
    ensures WellShaped(Touch(c, v, s))
  {
    MoveToFrontPermutes(c.order, CACHE_SLOTS, v);
  }

  /** The slot at position `i` of the touched list, in terms of the old list. */
  lemma TouchAt(c: CacheView, v: nat, s: Slot, i: nat)
    requires WellShaped(c) && v < |c.order| && i < |c.order|
    ensures var t := Touch(c, v, s);
            t.order[i] == c.order[FromPos(v, i)] &&
            t.slots[t.order[i]] == if FromPos(v, i) == v then s else c.slots[c.order[FromPos(v, i)]]
  {
    MoveToFrontAt(c.order, v, i);
  }

  /** Touching a position all of whose predecessors are valid, with a valid slot, keeps valid slots in front. */
  lemma TouchKeepsPrefix(c: CacheView, v: nat, s: Slot)
    requires Coherent(c) && v < |c.order| && s.valid && |s.content| == SECTOR_SIZE
    requires forall j :: 0 <= j < v ==> c.slots[c.order[j]].valid
    ensures var t := Touch(c, v, s);
            forall i, j :: 0 <= i < j < |t.order| && t.slots[t.order[j]].valid ==> t.slots[t.order[i]].valid
  {
    var t := Touch(c, v, s);
    TouchShaped(c, v, s);
    forall i, j | 0 <= i < j < |t.order| && t.slots[t.order[j]].valid ensures t.slots[t.order[i]].valid {
      TouchAt(c, v, s, i);
      TouchAt(c, v, s, j);
    }
  }

  /** Touching with a slot whose sector no other valid slot holds keeps sectors unique. */
  lemma TouchKeepsUnique(c: CacheView, v: nat, s: Slot)
    requires Coherent(c) && v < |c.order| && |s.content| == SECTOR_SIZE
    requires forall a :: 0 <= a < |c.slots| && a != c.order[v] && c.slots[a].valid ==>
               (c.slots[a].blockId, c.slots[a].sectorId) != (s.blockId, s.sectorId)
    ensures var t := Touch(c, v, s);
            forall a, b :: 0 <= a < b < |t.slots| && t.slots[a].valid && t.slots[b].valid ==>
              (t.slots[a].blockId, t.slots[a].sectorId) != (t.slots[b].blockId, t.slots[b].sectorId)
  {
  }

  /** A read keeps the cache coherent and well shaped. */
  lemma {:induction false} AfterReadCoherent(c: CacheView, block: DeviceId, sector: Sector, data: seq<byte>)
    requires Coherent(c) && |data| == SECTOR_SIZE
    ensures Coherent(AfterRead(c, block, sector, data))
  {
    var k := ScanStop(c, block, sector, 0);
    if Hit(c, block, sector) {
      var s := c.slots[c.order[k]];
      TouchShaped(c, k, s);
      TouchKeepsPrefix(c, k, s);
      TouchKeepsUnique(c, k, s);
    } else {
      var v := Victim(c, block, sector);
      var s := Refill(c.slots[c.order[v]], block, sector, data);
      TouchShaped(c, v, s);
      TouchKeepsPrefix(c, v, s);
      forall a | 0 <= a < |c.slots| && a != c.order[v] && c.slots[a].valid
        ensures (c.slots[a].blockId, c.slots[a].sectorId) != (block, sector)
      {
        assert a in c.order;
        var p :| 0 <= p < |c.order| && c.order[p] == a;
        assert p < k;
      }
      TouchKeepsUnique(c, v, s);
    }
  }

  /** On a coherent cache the scan finds the slot holding the sector whenever there is one: stopping at an invalid slot loses no hit. */
  lemma ScanFindsResident(c: CacheView, block: DeviceId, sector: Sector, p: nat)
    requires Coherent(c) && p < |c.order| && Holds(c.slots[c.order[p]], block, sector)
    ensures Hit(c, block, sector) && ScanStop(c, block, sector, 0) == p
  {
  }

  /** Right after a read, the sector sits in the head slot: a second read of it is a hit served from the head. */
  lemma ReadThenHit(c: CacheView, block: DeviceId, sector: Sector, data: seq<byte>)
    requires Coherent(c) && |data| == SECTOR_SIZE
    ensures var c' := AfterRead(c, block, sector, data);
            Coherent(c') && Hit(c', block, sector) && ScanStop(c', block, sector, 0) == 0 &&
            ReadOut(c', block, sector, data) == ReadOut(c, block, sector, data)
  {
    var k := ScanStop(c, block, sector, 0);
    var v := if Hit(c, block, sector) then k else Victim(c, block, sector);
    var c' := AfterRead(c, block, sector, data);
    MoveToFrontPermutes(c.order, CACHE_SLOTS, v);
    AfterReadCoherent(c, block, sector, data);
    assert c'.order[0] == c.order[v];
    assert Holds(c'.slots[c'.order[0]], block, sector);
    ScanFindsResident(c', block, sector, 0);
  }

  /** When every slot is valid and none holds the sector, the miss evicts the least recently used slot. */
  lemma FullMissEvictsTail(c: CacheView, block: DeviceId, sector: Sector, data: seq<byte>)
    requires Coherent(c)
    requires forall i :: 0 <= i < |c.slots| ==> c.slots[i].valid && !Holds(c.slots[i], block, sector)
    ensures !Hit(c, block, sector) && Victim(c, block, sector) == CACHE_SLOTS - 1
    ensures AfterRead(c, block, sector, data).order == [c.order[CACHE_SLOTS - 1]] + c.order[..CACHE_SLOTS - 1]
  {
  }

  /** Every valid slot holds exactly what the device holds for its block and sector. */
  ghost predicate Agrees(c: CacheView, dev: Devices)
  {
    forall i :: 0 <= i < |c.slots| && c.slots[i].valid ==>
      c.slots[i].content == DeviceSector(dev, c.slots[i].blockId, c.slots[i].sectorId)
  }

  /** A read of a cache that agrees with the device, refilling from that device, keeps it agreeing. */
  lemma AfterReadAgrees(c: CacheView, dev: Devices, block: DeviceId, sector: Sector)
    requires WellShaped(c) && Agrees(c, dev)
    ensures Agrees(AfterRead(c, block, sector, DeviceSector(dev, block, sector)), dev)
  {
    var data := DeviceSector(dev, block, sector);
    var c' := AfterRead(c, block, sector, data);
    var k := ScanStop(c, block, sector, 0);
    var v := if Hit(c, block, sector) then k else Victim(c, block, sector);
    assert c'.slots == c.slots[c.order[v] := c'.slots[c.order[v]]];
    if !Hit(c, block, sector) {
      assert c'.slots[c.order[v]] == Refill(c.slots[c.order[v]], block, sector, data);
    }
  }

  /** A cache that agrees with the device hands out the device's bytes, hit or miss. */
  lemma ReadOutIsDevice(c: CacheView, dev: Devices, block: DeviceId, sector: Sector)
    requires WellShaped(c) && Agrees(c, dev)
    ensures ReadOut(c, block, sector, DeviceSector(dev, block, sector)) == DeviceSector(dev, block, sector)
  {
    if Hit(c, block, sector) {
      var a := c.order[ScanStop(c, block, sector, 0)];
      assert Holds(c.slots[a], block, sector);
    }
  }

  /** The cache `buffer_init` builds agrees with any device: it holds nothing. */
  lemma InitialAgrees(dev: Devices)
    ensures Agrees(InitialView(), dev)
  {
  }

  // ---------------------------------------------------------------------------
  // The miss path as written: the victim gets the device bytes but keeps its
  // `valid`, `sector_id` and `block_id`.

  function RefillAsWritten(s: Slot, data: seq<byte>): Slot
  {
    s.(content := data)
  }

  ghost function AfterReadAsWritten(c: CacheView, block: DeviceId, sector: Sector, data: seq<byte>): (r: CacheView)
    requires WellShaped(c)
    ensures |r.slots| == CACHE_SLOTS
    ensures forall a :: 0 <= a < CACHE_SLOTS ==>
              r.slots[a].valid == c.slots[a].valid && r.slots[a].blockId == c.slots[a].blockId &&
              r.slots[a].sectorId == c.slots[a].sectorId
  {
    if Hit(c, block, sector) then
      CacheView(c.slots, MoveToFront(c.order, ScanStop(c, block, sector, 0)))
    else
      var v := Victim(c, block, sector);
      CacheView(c.slots[c.order[v] := RefillAsWritten(c.slots[c.order[v]], data)], MoveToFront(c.order, v))
  }

  /** The list `buffer_init` builds: slots 63, 62, ..., 0, all invalid. */
  function InitialView(): CacheView
  {
    CacheView(seq(CACHE_SLOTS, _ => EmptySlot()), seq(CACHE_SLOTS, j => CACHE_SLOTS - 1 - j))
  }

  lemma InitialCoherent()
    ensures Coherent(InitialView())
  {
    var c := InitialView();
    forall x | 0 <= x < CACHE_SLOTS ensures x in c.order {
      assert c.order[CACHE_SLOTS - 1 - x] == x;
    }
  }

  /** As written, reading a sector twice from a fresh cache misses both times: no read ever hits. */
  lemma AsWrittenRereadMisses(block: DeviceId, sector: Sector, data: seq<byte>)
    requires |data| == SECTOR_SIZE
    ensures WellShaped(InitialView()) && !Hit(InitialView(), block, sector)
    ensures var c1 := AfterReadAsWritten(InitialView(), block, sector, data);
            WellShaped(c1) && !Hit(c1, block, sector)
  {
    var c := InitialView();
    InitialCoherent();
    assert ScanStop(c, block, sector, 0) == 0;
    var c1 := AfterReadAsWritten(c, block, sector, data);
    MoveToFrontPermutes(c.order, CACHE_SLOTS, 0);
    assert !c1.slots[c1.order[0]].valid;
    assert ScanStop(c1, block, sector, 0) == 0;
  }

  class BufferCache {
    /** The 64 `struct sector_cache` records with their sector memory. */
    var slots: array<Slot>
    /** `open_sectors`: slot indices, most recently used first. */
    var order: seq<nat>

    ghost function View(): CacheView
      reads this, slots
    {
      CacheView(slots[..], order)
    }

    ghost predicate Valid()
      reads this, slots
    {
      Coherent(View())
    }

    /** The cache before `buffer_init`: an empty list and no slots. */
    constructor ()
      ensures order == [] && slots.Length == 0
    {
      slots := new Slot[0];
      order := [];
    }

    /**
     * `buffer_init`: on success, 64 invalid slots linked into the list; when
     * either allocation fails (the two flags say whether the sector memory
     * and the slot records can be allocated), false with an empty list.
     */
    method Init(sectorMemory: bool, slotMemory: bool) returns (ok: bool)
      modifies this
      ensures ok == (sectorMemory && slotMemory)
      ensures !ok ==> order == []
      ensures ok ==> fresh(slots) && Valid() && View() == InitialView()
    {
      order := [];
      if !sectorMemory {
        return false;
      }
      if !slotMemory {
        return false;
      }
      slots := new Slot[CACHE_SLOTS](_ => EmptySlot());
      var i := 0;
      while i < CACHE_SLOTS
        invariant 0 <= i <= CACHE_SLOTS && slots.Length == CACHE_SLOTS && fresh(slots)
        invariant forall j :: 0 <= j < CACHE_SLOTS ==> slots[j] == EmptySlot()
        invariant order == seq(i, j requires 0 <= j < i => i - 1 - j)
      {
        slots[i] := slots[i].(valid := false);
        order := [i] + order;
        i := i + 1;
      }
      assert slots[..] == InitialView().slots;
      assert order == InitialView().order;
      InitialCoherent();
      ok := true;
    }

    /**
     * The scan of `buffer_read`: walks the recency list from the head and
     * stops at the first slot that is invalid or holds the sector.
     */
    method Scan(block: DeviceId, sector: Sector) returns (e: nat)
      requires Valid()
      ensures e == ScanStop(View(), block, sector, 0)
      ensures e < |order| ==> !slots[order[e]].valid || Holds(slots[order[e]], block, sector)
    {
      e := 0;
      while e < |order|
        invariant 0 <= e <= |order|
        invariant forall j :: 0 <= j < e ==> slots[order[j]].valid && !Holds(slots[order[j]], block, sector)
      {
        var entry := slots[order[e]];
        if entry.valid {
          if entry.sectorId == sector && entry.blockId == block {
            return;
          }
        } else {
          return;
        }
        e := e + 1;
      }
    }

    /**
     * `buffer_read`: hands back the sector's bytes, from its slot on a hit
     * and from the device on a miss, and updates the slots and the recency
     * list as `AfterRead` says.
     */
    method BufferRead(block: DeviceId, sector: Sector, dev: Devices) returns (buffer: seq<byte>)
      requires Valid() && Agrees(View(), dev)
      modifies this, slots
      ensures slots == old(slots) && Valid() && Agrees(View(), dev)
      ensures buffer == DeviceSector(dev, block, sector)
      ensures View() == AfterRead(old(View()), block, sector, DeviceSector(dev, block, sector))
      ensures buffer == ReadOut(old(View()), block, sector, DeviceSector(dev, block, sector))
    {
      ghost var c := View();
      var e := Scan(block, sector);
      if e < |order| && slots[order[e]].valid {
        // hit: the slot moves to the head of the list
        buffer := slots[order[e]].content;
        order := MoveToFront(order, e);
      } else {
        if e == |order| {
          // list_pop_back: the tail slot is the victim
          e := |order| - 1;
        }
        var data := DeviceSector(dev, block, sector);
        slots[order[e]] := Refill(slots[order[e]], block, sector, data);
        buffer := data;
        order := MoveToFront(order, e);
      }
      AfterReadCoherent(c, block, sector, DeviceSector(dev, block, sector));
      AfterReadAgrees(c, dev, block, sector);
      ReadOutIsDevice(c, dev, block, sector);
    }
  }
}
