/** SimpleFS on-disk layout: one superblock sector, eight sectors of packed
    64-byte entries, then file data. The C structs are packed, so their memory
    image is exactly the byte image given here. */
module SfsLayout {
  import opened Words
  import opened BlockDevice

  const SFS_MAGIC: u32 := 0x31534653
  const SFS_VERSION: u32 := 1
  const SUPER_LBA := 128
  const TABLE_LBA := 129
  const TABLE_SECTORS := 8
  const DATA_LBA := 137
  const MAX_ENTRIES := 64
  const NAME_MAX := 31

  const TYPE_FILE: u8 := 1
  const TYPE_DIR: u8 := 2
  const PERM_READ: u8 := 1
  const PERM_WRITE: u8 := 2
  const PERM_EXEC: u8 := 4

  type Bytes488 = s: seq<u8> | |s| == 488 witness seq(488, _ => 0)
  type Bytes64 = s: seq<u8> | |s| == 64 witness seq(64, _ => 0)
  type Bytes32 = s: seq<u8> | |s| == 32 witness seq(32, _ => 0)
  type Bytes12 = s: seq<u8> | |s| == 12 witness seq(12, _ => 0)

  function Zeros(n: nat): seq<u8> {
    seq(n, _ => 0)
  }

  datatype Super = Super(magic: u32, version: u32, totalSectors: u32, maxEntries: u32,
                         nextFree: u32, rootId: u32, reserved: Bytes488)

  datatype Entry = Entry(used: u8, typ: u8, perm: u8, reserved0: u8,
                         parent: u32, start: u32, size: u32, cap: u32,
                         name: Bytes32, reserved1: Bytes12)

  type Table = t: seq<Entry> | |t| == MAX_ENTRIES witness seq(MAX_ENTRIES, _ => ZeroEntry())

  /** A zeroed entry: not in use. */
  function ZeroEntry(): Entry {
    Entry(0, 0, 0, 0, 0, 0, 0, 0, Zeros(32), Zeros(12))
  }

  predicate Readable(perm: u8) { perm % 2 == 1 }
  predicate Writable(perm: u8) { (perm / 2) % 2 == 1 }

  function SuperWords(s: Super): seq<u32> {
    [s.magic, s.version, s.totalSectors, s.maxEntries, s.nextFree, s.rootId]
  }

  function EntryWords(e: Entry): seq<u32> {
    [e.parent, e.start, e.size, e.cap]
  }

  function EntryHead(e: Entry): seq<u8> {
    [e.used, e.typ, e.perm, e.reserved0]
  }

  function PackSuper(s: Super): Sector {
    Le32s(SuperWords(s)) + s.reserved
  }

  function UnpackSuper(b: Sector): Super {
    Super(FromLe32(b[0..4]), FromLe32(b[4..8]), FromLe32(b[8..12]), FromLe32(b[12..16]),
          FromLe32(b[16..20]), FromLe32(b[20..24]), b[24..512])
  }

  function PackEntry(e: Entry): Bytes64 {
    EntryHead(e) + Le32s(EntryWords(e)) + (e.name + e.reserved1)
  }

  function UnpackEntry(b: Bytes64): Entry {
    Entry(b[0], b[1], b[2], b[3], FromLe32(b[4..8]), FromLe32(b[8..12]), FromLe32(b[12..16]),
          FromLe32(b[16..20]), b[20..52], b[52..64])
  }

  lemma SuperWord(s: Super, i: nat)
    requires i < 6
    ensures FromLe32(PackSuper(s)[4 * i..4 * i + 4]) == SuperWords(s)[i]
  {
    var ws := SuperWords(s);
    WordOfLe32s(ws, i);
    FieldOfPacked([], Le32s(ws), s.reserved, 4 * i, 4 * i + 4);
    assert [] + Le32s(ws) + s.reserved == PackSuper(s);
    Le32RoundTrip(ws[i]);
  }

  lemma SuperRoundTrip(s: Super)
    ensures UnpackSuper(PackSuper(s)) == s
  {
    SuperWord(s, 0);
    SuperWord(s, 1);
    SuperWord(s, 2);
    SuperWord(s, 3);
    SuperWord(s, 4);
    SuperWord(s, 5);
    assert PackSuper(s)[24..512] == s.reserved;
  }

  lemma EntryWord(e: Entry, i: nat)
    requires i < 4
    ensures FromLe32(PackEntry(e)[4 + 4 * i..8 + 4 * i]) == EntryWords(e)[i]
  {
    var ws := EntryWords(e);
    WordOfLe32s(ws, i);
    FieldOfPacked(EntryHead(e), Le32s(ws), e.name + e.reserved1, 4 * i, 4 * i + 4);
    Le32RoundTrip(ws[i]);
  }

  lemma EntryRoundTrip(e: Entry)
    ensures UnpackEntry(PackEntry(e)) == e
  {
    EntryWord(e, 0);
    EntryWord(e, 1);
    EntryWord(e, 2);
    EntryWord(e, 3);
    var front, tail := EntryHead(e) + Le32s(EntryWords(e)), e.name + e.reserved1;
    assert PackEntry(e)[0..4] == EntryHead(e);
    FieldOfPacked(front, tail, [], 0, 32);
    FieldOfPacked(front, tail, [], 32, 44);
    assert front + tail + [] == PackEntry(e);
  }

  /** The superblock's fields in their places, byte 0 to byte 24. */
  lemma SuperImage(s: Super)
    ensures PackSuper(s) == Le32(s.magic) + Le32(s.version) + Le32(s.totalSectors) + Le32(s.maxEntries)
                            + Le32(s.nextFree) + Le32(s.rootId) + s.reserved
  {
    var last := [s.maxEntries, s.nextFree, s.rootId];
    assert SuperWords(s) == [s.magic, s.version, s.totalSectors] + last && last + [] == last;
    Le32sOfThree(s.magic, s.version, s.totalSectors, last);
    Le32sOfThree(s.maxEntries, s.nextFree, s.rootId, []);
    Le32sNext(0, []);
  }

  /** An entry's fields in their places. */
  lemma EntryImage(e: Entry)
    ensures PackEntry(e) == [e.used, e.typ, e.perm, e.reserved0] + Le32(e.parent) + Le32(e.start) + Le32(e.size)
                            + Le32(e.cap) + e.name + e.reserved1
  {
    assert EntryWords(e) == [e.parent, e.start, e.size] + [e.cap] && [e.cap] + [] == [e.cap];
    Le32sOfThree(e.parent, e.start, e.size, [e.cap]);
    Le32sNext(e.cap, []);
  }

  /** The i-th 512-byte row of the entry table in memory. */
  function TableRow(t: Table, i: nat): Sector
    requires i < TABLE_SECTORS
  {
    seq(SECTOR_BYTES, b requires 0 <= b < SECTOR_BYTES => PackEntry(t[8 * i + b / 64])[b % 64])
  }

  function FlushedSector(super: Super, t: Table, disk: Disk, l: nat): Sector
    requires l < SECTOR_COUNT
  {
    if l == SUPER_LBA then PackSuper(super)
    else if TABLE_LBA <= l < DATA_LBA then TableRow(t, l - TABLE_LBA)
    else disk[l]
  }

  /** What the disk holds once superblock and table have been written out. */
  function Flushed(super: Super, t: Table, disk: Disk): Disk {
    seq(SECTOR_COUNT, l requires 0 <= l < SECTOR_COUNT => FlushedSector(super, t, disk, l))
  }

  /** The disk while the first n metadata sectors have been written out. */
  function PartlyFlushed(super: Super, t: Table, disk: Disk, n: nat): Disk {
    seq(SECTOR_COUNT, l requires 0 <= l < SECTOR_COUNT =>
      if l < SUPER_LBA + n then FlushedSector(super, t, disk, l) else disk[l])
  }

  lemma FlushSteps(super: Super, t: Table, disk: Disk, n: nat)
    requires n <= TABLE_SECTORS
    ensures PartlyFlushed(super, t, disk, n)[SUPER_LBA + n := FlushedSector(super, t, disk, SUPER_LBA + n)]
            == PartlyFlushed(super, t, disk, n + 1)
    ensures PartlyFlushed(super, t, disk, 0) == disk
    ensures PartlyFlushed(super, t, disk, 1 + TABLE_SECTORS) == Flushed(super, t, disk)
  {
  }

  function EntryOnDisk(disk: Disk, i: nat): Entry
    requires i < MAX_ENTRIES
  {
    UnpackEntry(disk[TABLE_LBA + i / 8][64 * (i % 8)..64 * (i % 8) + 64])
  }

  function LoadedTable(disk: Disk): Table {
    seq(MAX_ENTRIES, i requires 0 <= i < MAX_ENTRIES => EntryOnDisk(disk, i))
  }

  function LoadedSuper(disk: Disk): Super {
    UnpackSuper(disk[SUPER_LBA])
  }

  lemma RowHoldsEntry(t: Table, i: nat)
    requires i < MAX_ENTRIES
    ensures TableRow(t, i / 8)[64 * (i % 8)..64 * (i % 8) + 64] == PackEntry(t[i])
  {
    var row := TableRow(t, i / 8);
    var lo := 64 * (i % 8);
    forall k | 0 <= k < 64
      ensures row[lo..lo + 64][k] == PackEntry(t[i])[k]
    {
      assert (lo + k) / 64 == i % 8 && (lo + k) % 64 == k;
    }
  }

  /** Loading after a flush gives back the same superblock and all 64 entries. */
  lemma FlushThenLoad(super: Super, t: Table, disk: Disk)
    ensures LoadedSuper(Flushed(super, t, disk)) == super
    ensures LoadedTable(Flushed(super, t, disk)) == t
  {
    SuperRoundTrip(super);
    var d := Flushed(super, t, disk);
    forall i | 0 <= i < MAX_ENTRIES
      ensures EntryOnDisk(d, i) == t[i]
    {
      RowHoldsEntry(t, i);
      EntryRoundTrip(t[i]);
    }
  }

  /** Where everything lies on a flushed disk: the superblock in sector 128, entry i in sector
      129 + i / 8 at byte 64 * (i % 8), and from sector 137 on, and below 128, what was there. */
  lemma DiskImage(super: Super, t: Table, disk: Disk, i: nat)
    requires i < 64
    ensures var d := Flushed(super, t, disk);
            && d[128] == PackSuper(super)
            && d[129 + i / 8][64 * (i % 8)..64 * (i % 8) + 64] == PackEntry(t[i])
            && d[..128] == disk[..128] && d[137..] == disk[137..]
  {
    RowHoldsEntry(t, i);
  }
}
