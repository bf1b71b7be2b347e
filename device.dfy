/**
 * What the file system layers share about the block device: bytes, sector
 * numbers and the sector size.
 */
module BlockDevice {

  newtype byte = x: int | 0 <= x < 256

  /** A sector number on a block device (`block_sector_t`). */
  type Sector = nat

  /** Bytes per sector (`BLOCK_SECTOR_SIZE`). */
  const SECTOR_SIZE: nat := 512

  /** `n` zero bytes, as `calloc` hands them out. */
  function Zeros(n: nat): (z: seq<byte>)
    ensures |z| == n && forall i :: 0 <= i < n ==> z[i] == 0
  {
    seq(n, _ => 0)
  }
}
