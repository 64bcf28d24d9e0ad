/** SimpleFS file data: extents handed out by a bump allocator, relocation of
    files that outgrow their extent, and what a write does to every file. */
module SfsData {
  import opened Words
  import opened BlockDevice
  import opened SfsLayout

  datatype State = State(super: Super, table: Table, disk: Disk)

  predicate Used(e: Entry) { e.used != 0 }
  predicate IsFile(e: Entry) { Used(e) && e.typ == TYPE_FILE }

  function SectorsFor(bytes: nat): nat { (bytes + 511) / 512 }

  // ---- extents ------------------------------------------------------------

  /** Every byte of the file lies on a sector the device has. */
  predicate OnDevice(e: Entry) {
    e.size == 0 || e.start + SectorsFor(e.size) <= SECTOR_COUNT
  }

  /** A file without an extent is empty; an extent lies in the data area below
      the bump pointer and is large enough for the file. */
  predicate ExtentOk(e: Entry, nextFree: int) {
    if e.start == 0 then e.cap == 0 && e.size == 0
    else DATA_LBA <= e.start && e.start + e.cap <= nextFree && e.size <= 512 * e.cap && OnDevice(e)
  }

  predicate Apart(a: Entry, b: Entry) {
    a.start == 0 || b.start == 0 || a.start + a.cap <= b.start || b.start + b.cap <= a.start
  }

  predicate Extents(super: Super, t: Table) {
    && DATA_LBA <= super.nextFree
    && (forall i {:trigger ExtentOk(t[i], super.nextFree)} | 0 <= i < MAX_ENTRIES && Used(t[i]) ::
          ExtentOk(t[i], super.nextFree))
    && (forall i, j {:trigger Apart(t[i], t[j])} | 0 <= i < j < MAX_ENTRIES && Used(t[i]) && Used(t[j]) ::
          Apart(t[i], t[j]))
  }

  /** The bytes of a file, as its extent on the disk spells them. */
  function Bytes(disk: Disk, e: Entry): (b: seq<u8>)
    requires OnDevice(e)
    ensures |b| == e.size
  {
    seq(e.size, k requires 0 <= k < e.size => disk[e.start + k / 512][k % 512])
  }

  /** n bytes from file position `offset` of the extent at `start`. */
  function RawBytes(disk: Disk, start: nat, offset: nat, n: nat): (b: seq<u8>)
    requires n > 0 ==> start + (offset + n - 1) / 512 < SECTOR_COUNT
  {
    seq(n, k requires 0 <= k < n => disk[start + (offset + k) / 512][(offset + k) % 512])
  }

  function Contents(s: State, i: nat): seq<u8>
    requires Extents(s.super, s.table) && i < MAX_ENTRIES && Used(s.table[i])
  {
    assert ExtentOk(s.table[i], s.super.nextFree);
    Bytes(s.disk, s.table[i])
  }

  lemma BytesFrame(disk: Disk, disk': Disk, e: Entry)
    requires OnDevice(e)
    requires forall l | e.start <= l < e.start + e.cap && l < SECTOR_COUNT :: disk'[l] == disk[l]
    requires e.size <= 512 * e.cap
    ensures Bytes(disk', e) == Bytes(disk, e)
  {
  }

  // ---- the two copying loops, stated sector by sector ----------------------

  function CopiedRun(disk: Disk, from: nat, to: nat, n: nat): Disk
    requires from <= to
  {
    seq(SECTOR_COUNT, l requires 0 <= l < SECTOR_COUNT =>
      if to <= l < to + n then disk[l - to + from] else disk[l])
  }

  /** Byte b of a sector takes data[at + b] where that exists. */
  function OverlaidSector(sector: Sector, at: int, data: seq<u8>): Sector {
    seq(SECTOR_BYTES, b requires 0 <= b < SECTOR_BYTES =>
      if 0 <= at + b < |data| then data[at + b] else sector[b])
  }

  /** The disk with `data` laid over file position `offset` of the extent at `start`. */
  function Overlaid(disk: Disk, start: nat, offset: nat, data: seq<u8>): Disk {
    seq(SECTOR_COUNT, l requires 0 <= l < SECTOR_COUNT =>
      OverlaidSector(disk[l], (l - start) * 512 - offset, data))
  }

  // ---- sfs_write ----------------------------------------------------------

  predicate WriteFits(start: nat, offset: nat, len: nat) {
    len == 0 || start + (offset + len - 1) / 512 < SECTOR_COUNT
  }

  predicate NoWrap(super: Super, offset: nat, len: nat) {
    offset + len + 511 < TWO_32 && super.nextFree + SectorsFor(offset + len) < TWO_32
  }

  predicate MayWrite(s: State, id: nat) {
    id < MAX_ENTRIES && IsFile(s.table[id]) && Writable(s.table[id].perm)
  }

  /** First half of a write: make sure the extent has `need` sectors. */
  function Place(s: State, id: nat, need: nat): (State, bool)
    requires Extents(s.super, s.table) && id < MAX_ENTRIES && Used(s.table[id])
    requires s.super.nextFree + need < TWO_32
  {
    var e := s.table[id];
    var next := s.super.nextFree;
    var moved := s.(super := s.super.(nextFree := next + need),
                    table := s.table[id := e.(start := next, cap := need)]);
    if e.start == 0 then (moved, true)
    else if need > e.cap then
      assert ExtentOk(e, next);
      var disk := CopiedRun(s.disk, e.start, next, e.cap);
      if e.cap == 0 || next + e.cap <= SECTOR_COUNT then (moved.(disk := disk), true)
      else (s.(disk := disk), false)
    else (s, true)
  }

  function Write(s: State, id: nat, offset: nat, data: seq<u8>): (State, bool)
    requires Extents(s.super, s.table) && NoWrap(s.super, offset, |data|)
  {
    if !MayWrite(s, id) then (s, false)
    else
      var (p, placed) := Place(s, id, SectorsFor(offset + |data|));
      if !placed then (p, false)
      else
        var e := p.table[id];
        var disk := Overlaid(p.disk, e.start, offset, data);
        if !WriteFits(e.start, offset, |data|) then (p.(disk := disk), false)
        else
          var t: Table := p.table[id := e.(size := Max(e.size, offset + |data|))];
          (State(p.super, t, Flushed(p.super, t, disk)), true)
  }

  /** `data` put at `offset` of a byte sequence, growing it when it runs past the end. */
  function Splice(old_: seq<u8>, offset: nat, data: seq<u8>): seq<u8>
    requires offset <= |old_|
  {
    old_[..offset] + data + (if offset + |data| < |old_| then old_[offset + |data|..] else [])
  }

  lemma SpliceIs(old_: seq<u8>, offset: nat, data: seq<u8>, new_: seq<u8>)
    requires offset <= |old_| && |new_| == Max(|old_|, offset + |data|)
    requires forall k | 0 <= k < |old_| && !(offset <= k < offset + |data|) :: new_[k] == old_[k]
    requires forall k | offset <= k < offset + |data| :: new_[k] == data[k - offset]
    ensures new_ == Splice(old_, offset, data)
  {
  }

  lemma GapIs(old_: seq<u8>, gap: seq<u8>, data: seq<u8>, new_: seq<u8>)
    requires |new_| == |old_| + |gap| + |data|
    requires forall k | 0 <= k < |old_| :: new_[k] == old_[k]
    requires forall k | |old_| <= k < |old_| + |gap| :: new_[k] == gap[k - |old_|]
    requires forall k | |old_| + |gap| <= k < |new_| :: new_[k] == data[k - |old_| - |gap|]
    ensures new_ == old_ + gap + data
  {
  }

  lemma TornIs(old_: seq<u8>, offset: nat, data: seq<u8>, new_: seq<u8>)
    requires offset <= |old_| == |new_|
    requires forall k | 0 <= k < |old_| && !(offset <= k < offset + |data|) :: new_[k] == old_[k]
    requires forall k | offset <= k < offset + |data| && k < |new_| :: new_[k] == data[k - offset]
    ensures new_ == Splice(old_, offset, data)[..|old_|]
  {
  }

  lemma PlaceKeepsExtents(s: State, id: nat, need: nat)
    requires Extents(s.super, s.table) && id < MAX_ENTRIES && Used(s.table[id])
    requires s.super.nextFree + need < TWO_32
    ensures var (p, ok) := Place(s, id, need);
            && Extents(p.super, p.table)
            && (ok ==> need <= p.table[id].cap && p.table[id].start != 0)
            && p.super.nextFree >= s.super.nextFree
            && p.table == s.table[id := p.table[id]]
            && p.table[id] == s.table[id].(start := p.table[id].start, cap := p.table[id].cap)
            && p.table[id].size <= 512 * p.table[id].cap
  {
    var (p, ok) := Place(s, id, need);
    var e := s.table[id];
    assert ExtentOk(e, s.super.nextFree);
    if p.table != s.table {
      forall i | 0 <= i < MAX_ENTRIES && Used(p.table[i])
        ensures ExtentOk(p.table[i], p.super.nextFree)
      {
        assert ExtentOk(s.table[i], s.super.nextFree);
      }
      forall i, j | 0 <= i < j < MAX_ENTRIES && Used(p.table[i]) && Used(p.table[j])
        ensures Apart(p.table[i], p.table[j])
      {
        assert ExtentOk(s.table[i], s.super.nextFree) && ExtentOk(s.table[j], s.super.nextFree);
        assert Apart(s.table[i], s.table[j]);
      }
    }
  }

  /** Moving or allocating an extent changes no byte of any file. */
  lemma PlaceKeepsBytes(s: State, id: nat, need: nat, i: nat)
    requires Extents(s.super, s.table) && id < MAX_ENTRIES && Used(s.table[id])
    requires s.super.nextFree + need < TWO_32
    requires i < MAX_ENTRIES && Used(s.table[i])
    ensures Extents(Place(s, id, need).0.super, Place(s, id, need).0.table)
    ensures Contents(Place(s, id, need).0, i) == Contents(s, i)
  {
    PlaceKeepsExtents(s, id, need);
    var (p, ok) := Place(s, id, need);
    assert ExtentOk(s.table[i], s.super.nextFree);
    if i != id || p.table == s.table {
      BytesFrame(s.disk, p.disk, s.table[i]);
    }
  }

  /** Laying data over an extent that can hold it changes no sector outside the extent. */
  lemma OverlaidFrame(disk: Disk, start: nat, cap: nat, offset: nat, data: seq<u8>, l: nat)
    requires l < SECTOR_COUNT && SectorsFor(offset + |data|) <= cap
    requires l < start || start + cap <= l
    ensures Overlaid(disk, start, offset, data)[l] == disk[l]
  {
    assert Overlaid(disk, start, offset, data)[l] == OverlaidSector(disk[l], (l - start) * 512 - offset, data);
  }

  /** Where an extent of `need` sectors for entry id starts after Place. */
  function PlacedAt(s: State, id: nat, need: nat): nat
    requires id < MAX_ENTRIES
  {
    if s.table[id].start == 0 || need > s.table[id].cap then s.super.nextFree else s.table[id].start
  }

  /** What a write needs to leave the table in order: no 32-bit overflow, and, when it is
      empty and past the end of the file, that the sectors it claims exist. */
  predicate Sound(s: State, id: nat, offset: nat, data: seq<u8>) {
    && Extents(s.super, s.table)
    && NoWrap(s.super, offset, |data|)
    && (MayWrite(s, id) && data == [] && offset > s.table[id].size ==>
          PlacedAt(s, id, SectorsFor(offset)) + SectorsFor(offset) <= SECTOR_COUNT)
  }

  /** In every case, including a full disk, extents stay disjoint, in range and large enough. */
  lemma WriteKeepsExtents(s: State, id: nat, offset: nat, data: seq<u8>)
    requires Sound(s, id, offset, data)
    ensures Extents(Write(s, id, offset, data).0.super, Write(s, id, offset, data).0.table)
  {
    if MayWrite(s, id) {
      var need := SectorsFor(offset + |data|);
      PlaceKeepsExtents(s, id, need);
      var (p, placed) := Place(s, id, need);
      var (w, ok) := Write(s, id, offset, data);
      assert ExtentOk(s.table[id], s.super.nextFree) && ExtentOk(p.table[id], p.super.nextFree);
      if ok {
        forall i | 0 <= i < MAX_ENTRIES && Used(w.table[i])
          ensures ExtentOk(w.table[i], w.super.nextFree)
        {
          assert ExtentOk(p.table[i], p.super.nextFree);
        }
        forall i, j | 0 <= i < j < MAX_ENTRIES && Used(w.table[i]) && Used(w.table[j])
          ensures Apart(w.table[i], w.table[j])
        {
          assert Apart(p.table[i], p.table[j]);
        }
      }
    }
  }

  /** Sound asks no more of an empty write past the end than it must: such a write touches
      no sector, so nothing stops it when the sectors it claims do not exist. */
  lemma EmptyWritePastEnd(s: State, id: nat, offset: nat)
    requires Extents(s.super, s.table) && NoWrap(s.super, offset, 0) && MayWrite(s, id)
    requires s.table[id].size < offset && Write(s, id, offset, []).1
    ensures var w := Write(s, id, offset, []).0;
            Extents(w.super, w.table) <==> PlacedAt(s, id, SectorsFor(offset)) + SectorsFor(offset) <= SECTOR_COUNT
  {
    var need := SectorsFor(offset);
    PlaceKeepsExtents(s, id, need);
    var (p, w) := (Place(s, id, need).0, Write(s, id, offset, []).0);
    assert ExtentOk(s.table[id], s.super.nextFree) && ExtentOk(p.table[id], p.super.nextFree);
    assert w.table[id].start == PlacedAt(s, id, need) && w.table[id].size == offset;
    if PlacedAt(s, id, need) + need <= SECTOR_COUNT {
      forall i | 0 <= i < MAX_ENTRIES && Used(w.table[i])
        ensures ExtentOk(w.table[i], w.super.nextFree)
      {
        assert ExtentOk(p.table[i], p.super.nextFree);
      }
      forall i, j | 0 <= i < j < MAX_ENTRIES && Used(w.table[i]) && Used(w.table[j])
        ensures Apart(w.table[i], w.table[j])
      {
        assert Apart(p.table[i], p.table[j]);
      }
    } else {
      assert !ExtentOk(w.table[id], w.super.nextFree);
    }
  }

  /** A write, whether it succeeds or fails, leaves every other file's bytes alone. */
  lemma WriteKeepsOthers(s: State, id: nat, offset: nat, data: seq<u8>, i: nat)
    requires Sound(s, id, offset, data)
    requires i < MAX_ENTRIES && i != id && Used(s.table[i])
    ensures var w := Write(s, id, offset, data).0;
            Extents(w.super, w.table) && w.table[i] == s.table[i] && Contents(w, i) == Contents(s, i)
  {
    WriteKeepsExtents(s, id, offset, data);
    if MayWrite(s, id) {
      var need := SectorsFor(offset + |data|);
      PlaceKeepsExtents(s, id, need);
      PlaceKeepsBytes(s, id, need, i);
      var (p, placed) := Place(s, id, need);
      if placed {
        var (w, ok) := Write(s, id, offset, data);
        var (e, f) := (p.table[id], p.table[i]);
        assert ExtentOk(f, p.super.nextFree);
        assert if i < id then Apart(f, e) else Apart(e, f);
        forall l | f.start <= l < f.start + f.cap && l < SECTOR_COUNT
          ensures w.disk[l] == p.disk[l]
        {
          OverlaidFrame(p.disk, e.start, e.cap, offset, data, l);
        }
        BytesFrame(p.disk, w.disk, f);
      }
    }
  }

  /** One byte of an extent that data has been laid over. */
  lemma OverlaidByte(disk: Disk, start: nat, offset: nat, data: seq<u8>, k: nat)
    requires start + k / 512 < SECTOR_COUNT
    ensures Overlaid(disk, start, offset, data)[start + k / 512][k % 512]
         == if offset <= k < offset + |data| then data[k - offset] else disk[start + k / 512][k % 512]
  {
    var l := start + k / 512;
    assert Overlaid(disk, start, offset, data)[l] == OverlaidSector(disk[l], (l - start) * 512 - offset, data);
    assert (l - start) * 512 - offset + k % 512 == k - offset;
  }

  /** Once the extent is in place: data in the written range, old sector bytes elsewhere. */
  lemma PlacedWriteBytes(s: State, id: nat, offset: nat, data: seq<u8>)
    requires Sound(s, id, offset, data) && MayWrite(s, id) && Place(s, id, SectorsFor(offset + |data|)).1
    ensures var (p, w) := (Place(s, id, SectorsFor(offset + |data|)).0, Write(s, id, offset, data).0);
            && Extents(w.super, w.table) && Used(w.table[id])
            && forall k | 0 <= k < |Contents(w, id)| ::
                 && p.table[id].start + k / 512 < SECTOR_COUNT
                 && Contents(w, id)[k] == if offset <= k < offset + |data| then data[k - offset]
                                          else p.disk[p.table[id].start + k / 512][k % 512]
  {
    WriteKeepsExtents(s, id, offset, data);
    PlaceKeepsExtents(s, id, SectorsFor(offset + |data|));
    var (p, w) := (Place(s, id, SectorsFor(offset + |data|)).0, Write(s, id, offset, data).0);
    var (e, n) := (p.table[id], w.table[id].size);
    assert ExtentOk(e, p.super.nextFree) && ExtentOk(w.table[id], w.super.nextFree);
    forall k | 0 <= k < n
      ensures e.start + k / 512 < SECTOR_COUNT
      ensures w.disk[e.start + k / 512][k % 512]
           == if offset <= k < offset + |data| then data[k - offset] else p.disk[e.start + k / 512][k % 512]
    {
      OverlaidByte(p.disk, e.start, offset, data, k);
      assert w.disk[e.start + k / 512] == Overlaid(p.disk, e.start, offset, data)[e.start + k / 512];
    }
  }

  /** Every byte of a file after a write to it. The size changes only when the write
      succeeds. Once the extent is in place the data is in the written range, as far as
      the file goes, even if the device then ends; a gap past the old end keeps what its
      sectors held; no other byte changes. */
  lemma WriteBytes(s: State, id: nat, offset: nat, data: seq<u8>)
    requires Sound(s, id, offset, data) && MayWrite(s, id)
    ensures var (p, placed) := Place(s, id, SectorsFor(offset + |data|));
            var (w, ok) := Write(s, id, offset, data);
            var end := offset + |data|;
            && Extents(w.super, w.table) && Used(w.table[id])
            && var old_, new_ := Contents(s, id), Contents(w, id);
            && |new_| == (if ok then Max(|old_|, end) else |old_|)
            && (ok ==> placed)
            && (forall k | 0 <= k < |old_| && !(placed && offset <= k < end) :: new_[k] == old_[k])
            && (placed ==> forall k | offset <= k < end && k < |new_| :: new_[k] == data[k - offset])
            && forall k | |old_| <= k < offset && k < |new_| ::
                 p.table[id].start + k / 512 < SECTOR_COUNT
                 && new_[k] == p.disk[p.table[id].start + k / 512][k % 512]
  {
    WriteKeepsExtents(s, id, offset, data);
    PlaceKeepsExtents(s, id, SectorsFor(offset + |data|));
    PlaceKeepsBytes(s, id, SectorsFor(offset + |data|), id);
    if Place(s, id, SectorsFor(offset + |data|)).1 {
      PlacedWriteBytes(s, id, offset, data);
    }
  }

  /** What the sectors of a write's gap hold when the file grows over them. */
  function GapBytes(s: State, id: nat, offset: nat, data: seq<u8>): seq<u8>
    requires Sound(s, id, offset, data) && MayWrite(s, id) && Write(s, id, offset, data).1
  {
    WriteBytes(s, id, offset, data);
    var (p, size) := (Place(s, id, SectorsFor(offset + |data|)).0, s.table[id].size);
    GapSectorsExist(s, id, offset, data);
    if offset <= size then [] else RawBytes(p.disk, p.table[id].start, size, offset - size)
  }

  lemma GapSectorsExist(s: State, id: nat, offset: nat, data: seq<u8>)
    requires Sound(s, id, offset, data) && MayWrite(s, id) && Write(s, id, offset, data).1
    ensures s.table[id].size < offset ==>
              Place(s, id, SectorsFor(offset + |data|)).0.table[id].start + (offset - 1) / 512 < SECTOR_COUNT
  {
    WriteBytes(s, id, offset, data);
    var w := Write(s, id, offset, data).0;
    assert s.table[id].size < offset ==> |Contents(w, id)| > offset - 1 >= |Contents(s, id)|;
  }

  lemma GapWritten(s: State, id: nat, offset: nat, data: seq<u8>)
    requires Sound(s, id, offset, data) && MayWrite(s, id) && Write(s, id, offset, data).1
    requires s.table[id].size < offset
    ensures var w := Write(s, id, offset, data).0;
            && Extents(w.super, w.table) && Used(w.table[id])
            && Contents(w, id) == Contents(s, id) + GapBytes(s, id, offset, data) + data
  {
    WriteBytes(s, id, offset, data);
    GapIs(Contents(s, id), GapBytes(s, id, offset, data), data, Contents(Write(s, id, offset, data).0, id));
  }

  /** What a write does to its file: a successful one splices its data in, after a gap of old
      sector bytes if it starts past the end; one that runs off the device after placing the
      extent leaves the data as far as the file went; one that cannot be placed changes nothing. */
  lemma WriteSplices(s: State, id: nat, offset: nat, data: seq<u8>)
    requires Sound(s, id, offset, data) && MayWrite(s, id)
    ensures var placed := Place(s, id, SectorsFor(offset + |data|)).1;
            var (w, ok) := Write(s, id, offset, data);
            && Extents(w.super, w.table) && Used(w.table[id])
            && var c := Contents(s, id);
               Contents(w, id) == if ok && offset <= |c| then Splice(c, offset, data)
                                  else if ok then c + GapBytes(s, id, offset, data) + data
                                  else if placed && offset <= |c| then Splice(c, offset, data)[..|c|]
                                  else c
  {
    WriteBytes(s, id, offset, data);
    var placed := Place(s, id, SectorsFor(offset + |data|)).1;
    var (w, ok) := Write(s, id, offset, data);
    var c := Contents(s, id);
    if ok && offset <= |c| {
      SpliceIs(c, offset, data, Contents(w, id));
    } else if ok {
      GapWritten(s, id, offset, data);
    } else if placed && offset <= |c| {
      TornIs(c, offset, data, Contents(w, id));
    }
  }

  /** A write that the caller may make fails only when the device is full. */
  lemma FailedWriteMeansFull(s: State, id: nat, offset: nat, data: seq<u8>)
    requires Sound(s, id, offset, data) && MayWrite(s, id) && !Write(s, id, offset, data).1
    ensures Write(s, id, offset, data).0.super.nextFree + SectorsFor(offset + |data|) > SECTOR_COUNT
  {
    PlaceKeepsExtents(s, id, SectorsFor(offset + |data|));
    var p := Place(s, id, SectorsFor(offset + |data|)).0;
    assert ExtentOk(p.table[id], p.super.nextFree) && ExtentOk(s.table[id], s.super.nextFree);
  }

  /** The space a successful write claims: none while the file still fits its extent, and
      otherwise a new extent at the bump pointer, just large enough for the file. */
  lemma WriteClaims(s: State, id: nat, offset: nat, data: seq<u8>)
    requires Extents(s.super, s.table) && NoWrap(s.super, offset, |data|) && Write(s, id, offset, data).1
    ensures var w := Write(s, id, offset, data).0;
            var (e, e', end) := (s.table[id], w.table[id], offset + |data|);
            if e.start != 0 && end <= 512 * e.cap then
              e' == e.(size := e'.size) && w.super == s.super
            else
              && e' == e.(start := s.super.nextFree, cap := e'.cap, size := e'.size)
              && 512 * (e'.cap - 1) < end <= 512 * e'.cap
              && w.super == s.super.(nextFree := s.super.nextFree + e'.cap)
  {
  }

  /** A successful write leaves the disk able to reproduce the tables in memory. */
  lemma WritePersists(s: State, id: nat, offset: nat, data: seq<u8>)
    requires Extents(s.super, s.table) && NoWrap(s.super, offset, |data|)
    requires Write(s, id, offset, data).1
    ensures var w := Write(s, id, offset, data).0;
            LoadedSuper(w.disk) == w.super && LoadedTable(w.disk) == w.table
  {
    var w := Write(s, id, offset, data).0;
    var (p, _) := Place(s, id, SectorsFor(offset + |data|));
    FlushThenLoad(w.super, w.table, Overlaid(p.disk, p.table[id].start, offset, data));
  }
}
