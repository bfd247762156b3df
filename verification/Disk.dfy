// The root device as an array of bytes in 512-byte sectors, the buffer of the
// file system, and the layout that mkfs writes (fs/fs.c:74-86).
module Disk {
  import opened Bits

  const FSBUF_SIZE := 0x100000
  const NR_DEFAULT_FILE_SECTS := 2048
  const INSTALL_FIRST_SECTOR := 0x8000
  const INODE_SIZE := 32
  const NR_DISK_INODES := 4096

  const NR_IMAP_SECTS := 1
  const NR_INODE_SECTS := NR_DISK_INODES * INODE_SIZE / 512
  const IMAP_BLK0 := 2
  const SMAP_BLK0 := IMAP_BLK0 + NR_IMAP_SECTS

  class Device {
    const data: array<Byte>
    const fsbuf: array<Byte>
    const smapSects: nat      // nr_smap_sects of the super block

    predicate Valid() {
      && data != fsbuf && fsbuf.Length == FSBUF_SIZE && smapSects > 0
      && data.Length >= 512 * FirstSect()
    }

    // First sector of the inode array.
    function InodeBlk0(): nat { SMAP_BLK0 + smapSects }

    // n_1st_sect: the first sector of the data area.
    function FirstSect(): nat { InodeBlk0() + NR_INODE_SECTS }

    // Sector map and inode map, as bytes.
    function Smap(): (m: seq<Byte>)
      requires Valid()
      reads data
      ensures |m| == 512 * smapSects
    {
      data[512 * SMAP_BLK0..512 * InodeBlk0()]
    }

    function Imap(): (m: seq<Byte>)
      requires Valid()
      reads data
      ensures |m| == 512
    {
      data[512 * IMAP_BLK0..512 * SMAP_BLK0]
    }

    constructor (sectors: nat, smapSects: nat)
      requires smapSects > 0 && sectors >= SMAP_BLK0 + smapSects + NR_INODE_SECTS
      ensures Valid() && fresh(data) && fresh(fsbuf)
      ensures this.smapSects == smapSects && data.Length == 512 * sectors
    {
      data := new Byte[512 * sectors];
      fsbuf := new Byte[FSBUF_SIZE];
      this.smapSects := smapSects;
    }

    // rw_sector with DEV_READ (fs/fs.c:12-21): a copy into the buffer.
    method ReadSectors(pos: nat, bytes: nat)
      requires Valid() && 512 * pos + bytes <= data.Length && bytes <= FSBUF_SIZE
      modifies fsbuf
      ensures forall k :: 0 <= k < bytes ==> fsbuf[k] == data[512 * pos + k]
      ensures forall k :: bytes <= k < FSBUF_SIZE ==> fsbuf[k] == old(fsbuf[k])
    {
      forall k | 0 <= k < bytes {
        fsbuf[k] := data[512 * pos + k];
      }
    }

    // rw_sector with DEV_WRITE: a copy out of the buffer.
    method WriteSectors(pos: nat, bytes: nat)
      requires Valid() && 512 * pos + bytes <= data.Length && bytes <= FSBUF_SIZE
      modifies data
      ensures forall i :: 512 * pos <= i < 512 * pos + bytes ==> data[i] == fsbuf[i - 512 * pos]
      ensures forall i :: 0 <= i < data.Length && !(512 * pos <= i < 512 * pos + bytes) ==> data[i] == old(data[i])
    {
      forall k | 0 <= k < bytes {
        data[512 * pos + k] := fsbuf[k];
      }
    }
  }
}
