/**
 * The shape of an inode's block index: 123 direct pointers, two singly
 * indirect blocks of 128 pointers each, and one doubly indirect block
 * whose 128 entries point at blocks of 128 pointers each.
 */
module InodeLayout {

  import opened BlockDevice

  /** Direct pointers in the on-disk inode (`DIR_LEN`). */
  const DIR_LEN: nat := 123
  /** Sector numbers per index block (`BLOCK_SECTOR_SIZE / 4`). */
  const PTRS: nat := 128
  /** First block index reached through the second singly indirect block. */
  const SINGLE2_START: nat := DIR_LEN + PTRS
  /** First block index reached through the doubly indirect block. */
  const DOUBLE_START: nat := DIR_LEN + 2 * PTRS
  /** Number of data blocks the index can address. */
  const MAX_BLOCKS: nat := DOUBLE_START + PTRS * PTRS
  /** `MAX_LEN`: the bytes those blocks hold. */
  const MAX_LEN: nat := MAX_BLOCKS * SECTOR_SIZE

  /** Where the sector number of a data block is stored. */
  datatype Location =
    | Direct(slot: nat)                  // `dir[slot]`
    | Single(which: nat, entry: nat)     // entry `entry` of `single_indir[which]`
    | Double(outer: nat, inner: nat)     // entry `inner` of entry `outer` of `double_indir`

  predicate ValidLocation(loc: Location)
  {
    match loc
    case Direct(slot) => slot < DIR_LEN
    case Single(which, entry) => which < 2 && entry < PTRS
    case Double(outer, inner) => outer < PTRS && inner < PTRS
  }

  /** The case split of `byte_to_sector_helper` on a block index. */
  function Locate(index: nat): Location
  {
    if index < DIR_LEN then Direct(index)
    else if index < SINGLE2_START then Single(0, index - DIR_LEN)
    else if index < DOUBLE_START then Single(1, index - SINGLE2_START)
    else Double(Outer(index), Inner(index))
  }

  /** Entry of the doubly indirect block that covers block `index`. */
  function Outer(index: nat): nat
  {
    if index < DOUBLE_START then 0 else (index - DOUBLE_START) / PTRS
  }

  /** Entry of the second-level block that holds block `index`. */
  function Inner(index: nat): nat
  {
    if index < DOUBLE_START then 0 else (index - DOUBLE_START) % PTRS
  }

  /** The block index a location stands for: the inverse of `Locate`. */
  function IndexOf(loc: Location): nat
  {
    match loc
    case Direct(slot) => slot
    case Single(which, entry) => DIR_LEN + which * PTRS + entry
    case Double(outer, inner) => DOUBLE_START + outer * PTRS + inner
  }

  lemma OuterInner(index: nat)
    requires index >= DOUBLE_START
    ensures index == DOUBLE_START + Outer(index) * PTRS + Inner(index)
    ensures Inner(index) < PTRS
  {
  }

  /** Every addressable block has exactly one valid location. */
  lemma LocateRoundTrip(index: nat)
    ensures ValidLocation(Locate(index)) <==> index < MAX_BLOCKS
    ensures IndexOf(Locate(index)) == index
  {
    if index >= DOUBLE_START {
      OuterInner(index);
      if index < MAX_BLOCKS {
        assert Outer(index) < PTRS;
      } else {
        assert Outer(index) >= PTRS;
      }
    }
  }

  /** Every valid location is reached from exactly one block index. */
  lemma IndexOfRoundTrip(loc: Location)
    requires ValidLocation(loc)
    ensures IndexOf(loc) < MAX_BLOCKS && Locate(IndexOf(loc)) == loc
  {
    match loc
    case Direct(_) =>
    case Single(which, entry) =>
    case Double(outer, inner) =>
      var k := IndexOf(loc);
      assert k - DOUBLE_START == outer * PTRS + inner;
      DivModUnique(k - DOUBLE_START, outer, inner);
  }

  lemma DivModUnique(n: nat, q: nat, r: nat)
    requires r < PTRS && n == q * PTRS + r
    ensures n / PTRS == q && n % PTRS == r
  {
  }

  /** The two inner indices of consecutive blocks: the next block either
      continues the same second-level block or starts the next one. */
  lemma NextInner(index: nat)
    requires index >= DOUBLE_START
    ensures Inner(index) < PTRS - 1 ==> Outer(index + 1) == Outer(index) && Inner(index + 1) == Inner(index) + 1
    ensures Inner(index) == PTRS - 1 ==> Outer(index + 1) == Outer(index) + 1 && Inner(index + 1) == 0
  {
    OuterInner(index);
    if Inner(index) < PTRS - 1 {
      DivModUnique(index + 1 - DOUBLE_START, Outer(index), Inner(index) + 1);
    } else {
      DivModUnique(index + 1 - DOUBLE_START, Outer(index) + 1, 0);
    }
  }

  /** Index blocks a file whose last block is `index` needs: one per singly
      indirect block in use, the doubly indirect block and one second-level
      block per group of 128 data blocks it covers. */
  function IndexBlocks(index: nat): (n: nat)
    ensures index < DIR_LEN ==> n == 0
    ensures index >= DOUBLE_START ==> n == 4 + Outer(index)
  {
    (if index >= DIR_LEN then 1 else 0)
    + (if index >= SINGLE2_START then 1 else 0)
    + (if index >= DOUBLE_START then 2 + Outer(index) else 0)
  }

  /** Sectors `inode_create` allocates for a file whose last block is
      `index`, not counting the inode's own sector. */
  function SectorsNeeded(index: nat): nat
  {
    index + 1 + IndexBlocks(index)
  }

  /** An earlier block of the doubly indirect tier is in an earlier group,
      or earlier in the same group. */
  lemma SameGroupBefore(k: nat, i: nat)
    requires DOUBLE_START <= k < i
    ensures Outer(k) <= Outer(i)
    ensures Outer(k) == Outer(i) ==> Inner(k) < Inner(i)
  {
    OuterInner(k);
    OuterInner(i);
    OuterMonotone(k, i);
  }

  lemma OuterMonotone(a: nat, b: nat)
    requires a <= b
    ensures Outer(a) <= Outer(b)
  {
    if a >= DOUBLE_START {
      assert (a - DOUBLE_START) / PTRS <= (b - DOUBLE_START) / PTRS;
    }
  }

  /** A longer file never needs fewer sectors, and growing it from block
      `a` to block `b` needs exactly the difference. */
  lemma {:induction false} SectorsNeededMonotone(a: nat, b: nat)
    requires a <= b
    ensures IndexBlocks(a) <= IndexBlocks(b)
    ensures SectorsNeeded(a) <= SectorsNeeded(b)
    ensures SectorsNeeded(b) - SectorsNeeded(a) == (b - a) + (IndexBlocks(b) - IndexBlocks(a))
  {
    OuterMonotone(a, b);
  }

  /** Guard on a length as `inode_create` and `inode_write_at` write it:
      only lengths strictly above `MAX_LEN` are refused. */
  predicate AdmitsAsWritten(length: nat)
  {
    !(length > MAX_LEN)
  }

  /** The guard the index can honour: the last block of the file must be
      addressable. */
  predicate Admits(length: nat)
  {
    length < MAX_LEN
  }

  /** As written, a file of exactly `MAX_LEN` bytes is admitted, yet its
      last block would sit at entry 128 of the 128-entry doubly indirect
      block. */
  lemma AsWrittenAdmitsUnaddressable()
    ensures AdmitsAsWritten(MAX_LEN) && !Admits(MAX_LEN)
    ensures Locate(MAX_LEN / SECTOR_SIZE) == Double(PTRS, 0)
    ensures !ValidLocation(Locate(MAX_LEN / SECTOR_SIZE))
  {
    assert MAX_LEN / SECTOR_SIZE == MAX_BLOCKS;
    DivModUnique(MAX_BLOCKS - DOUBLE_START, PTRS, 0);
  }

  /** With the corrected guard every block of an admitted file, up to the
      one holding its length, has a valid location. */
  lemma AdmittedIsAddressable(length: nat, index: nat)
    requires Admits(length) && index <= length / SECTOR_SIZE
    ensures index < MAX_BLOCKS && ValidLocation(Locate(index))
  {
    assert length / SECTOR_SIZE < MAX_BLOCKS;
    LocateRoundTrip(index);
  }

  /** The two guards differ at `MAX_LEN` alone. */
  lemma GuardsDifferOnlyAtMax(length: nat)
    ensures AdmitsAsWritten(length) && !Admits(length) <==> length == MAX_LEN
  {
  }
}
