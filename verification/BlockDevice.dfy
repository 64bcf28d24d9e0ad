/** The 32 MiB block device: 65536 sectors of 512 bytes. A transfer fails
    exactly when its sector number is out of range. */
module BlockDevice {
  import opened Words

  const SECTOR_BYTES := 512
  const SECTOR_COUNT := 65536

  type Sector = s: seq<u8> | |s| == SECTOR_BYTES witness seq(SECTOR_BYTES, _ => 0)
  const ZERO_SECTOR: Sector := seq(SECTOR_BYTES, _ => 0)
  type Disk = d: seq<Sector> | |d| == SECTOR_COUNT witness seq<Sector>(SECTOR_COUNT, _ => ZERO_SECTOR)

  class Device {
    var disk: Disk

    constructor (image: Disk)
      ensures disk == image
    {
      disk := image;
    }

    method Read(lba: int, buffer: array<u8>) returns (ok: bool)
      requires 0 <= lba && buffer.Length == SECTOR_BYTES
      modifies buffer
      ensures ok <==> lba < SECTOR_COUNT
      ensures ok ==> buffer[..] == disk[lba]
      ensures !ok ==> buffer[..] == old(buffer[..])
    {
      if lba >= SECTOR_COUNT {
        return false;
      }
      var s: Sector := disk[lba];
      forall i | 0 <= i < SECTOR_BYTES {
        buffer[i] := s[i];
      }
      return true;
    }

    method Write(lba: int, buffer: array<u8>) returns (ok: bool)
      requires 0 <= lba && buffer.Length == SECTOR_BYTES
      modifies this
      ensures ok <==> lba < SECTOR_COUNT
      ensures disk == if ok then old(disk)[lba := buffer[..]] else old(disk)
    {
      if lba >= SECTOR_COUNT {
        return false;
      }
      disk := disk[lba := buffer[..]];
      return true;
    }
  }
}
