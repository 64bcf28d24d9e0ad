/** SimpleFS itself: the superblock and entry table in memory, the device below,
    and the sector-by-sector loops of every operation. */
module SimpleFs {
  import opened Words
  import opened BlockDevice
  import opened SfsLayout
  import opened SfsPath
  import opened SfsData
  import opened SfsTree
  import opened SfsOps

  /** A string held in a character array ends at the array's first NUL. */
  lemma {:induction false} CStrEnd(b: seq<u8>)
    requires 0 in b
    ensures var n := |CStr(b)|; n < |b| && b[n] == 0 && CStr(b) == b[..n]
  {
    if b[0] != 0 {
      CStrEnd(b[1..]);
      assert b[..|CStr(b)|] == [b[0]] + b[1..][..|CStr(b[1..])|];
    }
  }

  /** The last component of a path, empty when there is none. */
  ghost function LastOf(comps: seq<Name>): seq<u8> {
    if comps == [] then [] else comps[|comps| - 1]
  }

  lemma LastOfMore(name: Name, rest: seq<Name>)
    ensures LastOf([name] + rest) == if rest == [] then name else LastOf(rest)
  {
  }

  /** Equality of two NUL-terminated strings. */
  method StringsEqual(a: seq<u8>, b: seq<u8>) returns (same: bool)
    requires 0 in a && 0 in b
    ensures same <==> CStr(a) == CStr(b)
  {
    CStrEnd(a);
    CStrEnd(b);
    ghost var (s, t) := (CStr(a), CStr(b));
    var i := 0;
    while a[i] != 0 && b[i] != 0
      invariant i <= |s| && i <= |t|
      invariant forall k | 0 <= k < i :: s[k] == t[k]
      decreases |s| - i
    {
      assert i < |s| && i < |t|;
      if a[i] != b[i] {
        assert s[i] != t[i];
        return false;
      }
      i := i + 1;
    }
    if a[i] == b[i] {
      assert i == |s| == |t| && s == t;
      return true;
    }
    assert |s| != |t|;
    return false;
  }

  /** Copies n bytes between two different buffers. */
  method MemCopy(dst: array<u8>, at: nat, src: array<u8>, from: nat, n: nat)
    requires dst != src && at + n <= dst.Length && from + n <= src.Length
    modifies dst
    ensures dst[..] == old(dst[..at]) + src[from..from + n] + old(dst[at + n..])
    ensures forall k | 0 <= k < dst.Length ::
              dst[k] == if at <= k < at + n then src[from + (k - at)] else old(dst[k])
  {
    var i := 0;
    while i < n
      invariant i <= n
      invariant forall k | 0 <= k < dst.Length ::
                  dst[k] == if at <= k < at + i then src[from + (k - at)] else old(dst[k])
    {
      dst[at + i] := src[from + i];
      i := i + 1;
    }
  }

  // ---- one chunk of a read-modify-write loop ------------------------------------

  lemma OverlaidChunk(disk: Disk, start: nat, offset: nat, data: seq<u8>, copied: nat, chunk: nat, sector: Sector)
    requires copied + chunk <= |data|
    requires var abs := offset + copied;
             var lba := start + abs / 512;
             && lba < SECTOR_COUNT && abs % 512 + chunk <= 512
             && var was := Overlaid(disk, start, offset, data[..copied])[lba];
             sector == was[..abs % 512] + data[copied..copied + chunk] + was[abs % 512 + chunk..]
    ensures Overlaid(disk, start, offset, data[..copied + chunk])
            == Overlaid(disk, start, offset, data[..copied])[start + (offset + copied) / 512 := sector]
  {
    var abs := offset + copied;
    var lba := start + abs / 512;
    var was, now := Overlaid(disk, start, offset, data[..copied]), Overlaid(disk, start, offset, data[..copied + chunk]);
    forall l | 0 <= l < SECTOR_COUNT
      ensures now[l] == if l == lba then sector else was[l]
    {
      var at := (l - start) * 512 - offset;
      assert now[l] == OverlaidSector(disk[l], at, data[..copied + chunk]);
      assert was[l] == OverlaidSector(disk[l], at, data[..copied]);
      assert l == lba ==> at + abs % 512 == copied;
      forall b | 0 <= b < SECTOR_BYTES
        ensures now[l][b] == if l == lba then sector[b] else was[l][b]
      {
      }
    }
  }

  lemma OverlaidNothing(disk: Disk, start: nat, offset: nat)
    ensures Overlaid(disk, start, offset, []) == disk
  {
    forall l | 0 <= l < SECTOR_COUNT
      ensures Overlaid(disk, start, offset, [])[l] == disk[l]
    {
      assert Overlaid(disk, start, offset, [])[l] == OverlaidSector(disk[l], (l - start) * 512 - offset, []);
    }
  }

  /** Bytes whose sector lies beyond the device leave no trace. */
  lemma OverlaidBeyond(disk: Disk, start: nat, offset: nat, data: seq<u8>, copied: nat)
    requires copied < |data| && start + (offset + copied) / 512 >= SECTOR_COUNT
    ensures Overlaid(disk, start, offset, data[..copied]) == Overlaid(disk, start, offset, data)
    ensures !WriteFits(start, offset, |data|)
  {
    var was, now := Overlaid(disk, start, offset, data[..copied]), Overlaid(disk, start, offset, data);
    forall l | 0 <= l < SECTOR_COUNT
      ensures now[l] == was[l]
    {
      var at := (l - start) * 512 - offset;
      assert now[l] == OverlaidSector(disk[l], at, data);
      assert was[l] == OverlaidSector(disk[l], at, data[..copied]);
    }
  }

  lemma ChunkRead(disk: Disk, start: nat, offset: nat, before: seq<u8>, after: seq<u8>, copied: nat, chunk: nat)
    requires 0 < chunk && copied + chunk <= |before|
    requires var at := offset + copied;
             && start + at / 512 < SECTOR_COUNT && at % 512 + chunk <= 512
             && before[..copied] == RawBytes(disk, start, offset, copied)
             && after == before[..copied] + disk[start + at / 512][at % 512..at % 512 + chunk] + before[copied + chunk..]
    ensures start + (offset + copied + chunk - 1) / 512 < SECTOR_COUNT
    ensures after[..copied + chunk] == RawBytes(disk, start, offset, copied + chunk)
  {
    var at := offset + copied;
    forall k | 0 <= k < copied + chunk
      ensures after[k] == RawBytes(disk, start, offset, copied + chunk)[k]
    {
      if k < copied {
        assert after[k] == before[..copied][k];
      } else {
        assert (offset + k) / 512 == at / 512 && (offset + k) % 512 == at % 512 + (k - copied);
      }
    }
  }

  lemma SliceOfPrefix(s: seq<u8>, n: nat, a: nat, b: nat)
    requires a <= b <= n <= |s|
    ensures s[..n][a..b] == s[a..b]
  {
  }

  /** The bytes a read collects from the file's sectors are what it promises. */
  lemma ReadDelivers(s: State, id: nat, offset: nat, len: nat, n: nat)
    requires Extents(s.super, s.table) && id < MAX_ENTRIES && IsFile(s.table[id]) && Readable(s.table[id].perm)
    requires offset < s.table[id].size && n == Min(len, s.table[id].size - offset)
    ensures ExtentOk(s.table[id], s.super.nextFree)
    ensures n > 0 ==> s.table[id].start + (offset + n - 1) / 512 < SECTOR_COUNT
    ensures SfsOps.Read(s, id, offset, len) == Some(RawBytes(s.disk, s.table[id].start, offset, n))
  {
    assert ExtentOk(s.table[id], s.super.nextFree);
    var c := Contents(s, id);
    assert RawBytes(s.disk, s.table[id].start, offset, n) == c[offset..offset + n];
    assert c[offset..] == c[offset..|c|];
  }

  class FileSystem {
    var super: Super
    const entries: array<Entry>
    const dev: Device

    constructor (device: Device)
      ensures dev == device && entries.Length == MAX_ENTRIES && fresh(entries)
    {
      dev := device;
      super := Super(0, 0, 0, 0, 0, 0, Zeros(488));
      entries := new Entry[MAX_ENTRIES](_ => ZeroEntry());
    }

    ghost function View(): State
      requires entries.Length == MAX_ENTRIES
      reads this, entries, dev
    {
      State(super, entries[..], dev.disk)
    }

    /** The part of the invariant that walking a path relies on. */
    ghost predicate Walkable()
      reads this, entries
    {
      && entries.Length == MAX_ENTRIES
      && LiveDir(entries[..], super.rootId)
      && ParentsLive(entries[..])
      && forall i | 0 <= i < MAX_ENTRIES && Used(entries[i]) :: 0 in entries[i].name
    }

    lemma ValidIsWalkable()
      requires Valid()
      ensures Walkable()
    {
      forall i | 0 <= i < MAX_ENTRIES && Used(entries[i])
        ensures 0 in entries[i].name
      {
        assert Live(entries[..], i);
      }
    }

    ghost predicate Valid()
      reads this, entries, dev
    {
      entries.Length == MAX_ENTRIES && Inv(View())
    }

    method TableSector(i: nat) returns (sector: array<u8>)
      requires entries.Length == MAX_ENTRIES && i < TABLE_SECTORS
      ensures fresh(sector) && sector.Length == SECTOR_BYTES && sector[..] == TableRow(entries[..], i)
    {
      sector := new u8[SECTOR_BYTES];
      var k := 0;
      while k < SECTOR_BYTES
        invariant k <= SECTOR_BYTES
        invariant forall b | 0 <= b < k :: sector[b] == TableRow(entries[..], i)[b]
      {
        sector[k] := PackEntry(entries[8 * i + k / 64])[k % 64];
        k := k + 1;
      }
    }

    method Flush() returns (ok: bool)
      requires entries.Length == MAX_ENTRIES
      modifies dev
      ensures ok && View() == Commit(super, entries[..], old(dev.disk))
    {
      ghost var (was, t) := (dev.disk, entries[..]);
      var superSector := new u8[SECTOR_BYTES](i requires 0 <= i < SECTOR_BYTES reads this => PackSuper(super)[i]);
      assert superSector[..] == PackSuper(super);
      FlushSteps(super, t, was, 0);
      ok := dev.Write(SUPER_LBA, superSector);
      var i := 0;
      while ok && i < TABLE_SECTORS
        invariant ok && i <= TABLE_SECTORS && entries[..] == t
        invariant dev.disk == PartlyFlushed(super, t, was, 1 + i)
      {
        var sector := TableSector(i);
        FlushSteps(super, t, was, 1 + i);
        ok := dev.Write(TABLE_LBA + i, sector);
        i := i + 1;
      }
      FlushSteps(super, t, was, 0);
    }

    /** Unpacks the i-th table sector into its eight entries. */
    method LoadRow(i: nat, sector: array<u8>)
      requires entries.Length == MAX_ENTRIES && sector.Length == SECTOR_BYTES && i < TABLE_SECTORS
      requires sector[..] == dev.disk[TABLE_LBA + i]
      modifies entries
      ensures forall j | 0 <= j < MAX_ENTRIES ::
                entries[j] == if 8 * i <= j < 8 * i + 8 then EntryOnDisk(dev.disk, j) else old(entries[j])
    {
      var k := 0;
      while k < 8
        invariant k <= 8
        invariant forall j | 0 <= j < MAX_ENTRIES ::
                    entries[j] == if 8 * i <= j < 8 * i + k then EntryOnDisk(dev.disk, j) else old(entries[j])
      {
        assert (8 * i + k) / 8 == i && (8 * i + k) % 8 == k;
        entries[8 * i + k] := UnpackEntry(sector[64 * k..64 * k + 64]);
        k := k + 1;
      }
    }

    method Load() returns (ok: bool)
      requires entries.Length == MAX_ENTRIES
      modifies this, entries
      ensures ok && super == LoadedSuper(dev.disk) && entries[..] == LoadedTable(dev.disk)
    {
      var sector := new u8[SECTOR_BYTES];
      ok := dev.Read(SUPER_LBA, sector);
      super := UnpackSuper(sector[..]);
      var i := 0;
      while ok && i < TABLE_SECTORS
        invariant ok && i <= TABLE_SECTORS
        invariant super == LoadedSuper(dev.disk)
        invariant forall j | 0 <= j < 8 * i :: entries[j] == EntryOnDisk(dev.disk, j)
      {
        ok := dev.Read(TABLE_LBA + i, sector);
        LoadRow(i, sector);
        i := i + 1;
      }
    }

    /** Mounts the device, formatting it when it carries no SimpleFS. */
    method Init() returns (ok: bool)
      requires entries.Length == MAX_ENTRIES
      modifies this, entries, dev
      ensures ok && View() == Mounted(old(dev.disk))
    {
      ok := Load();
      if !ok || super.magic != SFS_MAGIC || super.version != SFS_VERSION {
        super := Super(SFS_MAGIC, SFS_VERSION, SECTOR_COUNT, MAX_ENTRIES, DATA_LBA, 0, Zeros(488));
        var i := 0;
        while i < MAX_ENTRIES
          invariant i <= MAX_ENTRIES && super == FreshSuper() && dev.disk == old(dev.disk)
          invariant forall j | 0 <= j < i :: entries[j] == ZeroEntry()
        {
          entries[i] := ZeroEntry();
          i := i + 1;
        }
        entries[0] := RootEntry();
        assert entries[..] == FreshTable();
        assert super == FreshSuper();
        ok := Flush();
      }
    }

    method FindFreeEntry() returns (r: Option<nat>)
      requires entries.Length == MAX_ENTRIES
      ensures r == FreeFrom(entries[..], 0)
    {
      var i := 0;
      while i < MAX_ENTRIES
        invariant i <= MAX_ENTRIES
        invariant FreeFrom(entries[..], i) == FreeFrom(entries[..], 0)
      {
        if entries[i].used == 0 {
          return Some(i);
        }
        i := i + 1;
      }
      return None;
    }

    method FindChildEntry(parent: nat, name: CString) returns (r: Option<nat>)
      requires Walkable()
      ensures r == FindChild(entries[..], parent, name)
    {
      CStrPrefix(name, []);
      assert name + [0] + [] == name + [0];
      var i := 0;
      while i < MAX_ENTRIES
        invariant i <= MAX_ENTRIES
        invariant FindFrom(entries[..], parent, name, i) == FindFrom(entries[..], parent, name, 0)
      {
        if entries[i].used != 0 && entries[i].parent == parent {
          var same := StringsEqual(entries[i].name, name + [0]);
          if same {
            return Some(i);
          }
        }
        i := i + 1;
      }
      return None;
    }

    method Resolve(path: CString, cwd: nat) returns (r: Option<nat>)
      requires Walkable() && Live(entries[..], cwd)
      ensures r == Lookup(entries[..], super.rootId, path, cwd)
    {
      var current := if path != [] && path[0] == SLASH then super.rootId else cwd;
      var pos := 0;
      var found, name, next := PathNext(path, pos);
      while found
        invariant pos <= next <= |path|
        invariant found ==> pos < next && [name] + Components(path, next) == Components(path, pos)
        invariant !found ==> Components(path, pos) == []
        invariant Live(entries[..], current)
        invariant ResolveFrom(entries[..], Components(path, pos), current)
                  == Lookup(entries[..], super.rootId, path, cwd)
        decreases |path| - pos
      {
        ghost var comps := Components(path, pos);
        assert comps[0] == name && comps[1..] == Components(path, next);
        if name == DOTDOT {
          current := entries[current].parent;
        } else if name != DOT {
          var child := FindChildEntry(current, name);
          if child.None? {
            return None;
          }
          current := child.value;
        }
        pos := next;
        found, name, next := PathNext(path, pos);
      }
      return Some(current);
    }

    /** Finds the directory a new entry goes into, and its name. */
    method WalkToParent(path: CString, cwd: nat) returns (dir: Option<nat>, last: seq<u8>)
      requires Walkable() && LiveDir(entries[..], cwd)
      ensures dir == CreateDir(entries[..], Components(path, 0), StartDir(path, super.rootId, cwd), Slashed(path))
      ensures dir.Some? ==> last == LastOf(Components(path, 0))
    {
      var current := if path != [] && path[0] == SLASH then super.rootId else cwd;
      last := [];
      var pos := 0;
      ghost var (t, all) := (entries[..], Components(path, 0));
      ghost var want := CreateDir(t, all, StartDir(path, super.rootId, cwd), Slashed(path));
      var found, name, next := PathNext(path, pos);
      while found
        invariant pos <= next <= |path|
        invariant found ==> pos < next && path[next - 1] != SLASH
        invariant found ==> [name] + Components(path, next) == Components(path, pos)
        invariant !found ==> Components(path, pos) == []
        invariant LiveDir(t, current)
        invariant CreateDir(t, Components(path, pos), current, Slashed(path)) == want
        invariant LastOf(all) == if Components(path, pos) == [] then last else LastOf(Components(path, pos))
        decreases |path| - pos
      {
        ghost var comps := Components(path, pos);
        assert comps[0] == name && comps[1..] == Components(path, next);
        assert Live(t, current);
        AtEnd(path, next);
        LastOfMore(name, Components(path, next));
        last := name;
        if name == DOTDOT {
          current := entries[current].parent;
        } else if name != DOT {
          if next == |path| {
            return Some(current), last;
          }
          var child := FindChildEntry(current, name);
          if child.None? || entries[child.value].typ != TYPE_DIR {
            return None, last;
          }
          current := child.value;
        }
        pos := next;
        found, name, next := PathNext(path, pos);
      }
      return Some(current), last;
    }

    /** Bounded copy of a string into a name field. */
    method StoreName(old_: Bytes32, s: CString) returns (b: Bytes32)
      requires |s| <= NAME_MAX
      ensures b == StoredName(old_, s)
    {
      b := old_;
      var i := 0;
      while i < |s|
        invariant i <= |s|
        invariant b == s[..i] + old_[i..]
      {
        b := b[i := s[i]];
        i := i + 1;
      }
      b := b[i := 0];
    }

    method Insert(dir: nat, last: Name, typ: u8, perm: u8) returns (id: Option<nat>)
      requires Walkable() && dir < MAX_ENTRIES
      modifies entries, dev
      ensures (View(), id) == old(SfsOps.Insert(View(), dir, last, typ, perm))
    {
      var taken := FindChildEntry(dir, last);
      if taken.Some? {
        return None;
      }
      id := FindFreeEntry();
      if id.None? {
        return None;
      }
      var name := StoreName(entries[id.value].name, last);
      entries[id.value] := entries[id.value].(used := 1, typ := typ, perm := perm, parent := dir,
                                              start := 0, size := 0, cap := 0, name := name);
      assert entries[..] == old(entries[..])[id.value := NewEntry(old(entries[..])[id.value], typ, perm, dir, last)];
      var ok := Flush();
    }

    method MakeEntry(path: CString, cwd: nat, typ: u8, perm: u8) returns (id: Option<nat>)
      requires Valid() && Walkable() && LiveDir(entries[..], cwd)
      modifies entries, dev
      ensures (View(), id) == old(SfsOps.Create(View(), path, cwd, typ, perm))
    {
      ghost var target := Target(View(), path, cwd);
      if path == [] {
        return None;
      }
      var dir, last := WalkToParent(path, cwd);
      if dir.None? || last == [] {
        return None;
      }
      assert target == Some((dir.value, last));
      id := Insert(dir.value, last, typ, perm);
    }

    method Create(path: CString, cwd: nat, typ: u8, perm: u8) returns (id: Option<nat>)
      requires Valid() && LiveDir(entries[..], cwd)
      modifies entries, dev
      ensures (View(), id) == old(SfsOps.Create(View(), path, cwd, typ, perm))
      ensures Valid()
    {
      CreateKeepsInv(View(), path, cwd, typ, perm);
      ValidIsWalkable();
      id := MakeEntry(path, cwd, typ, perm);
    }

    method Remove(path: CString, cwd: nat) returns (ok: bool)
      requires Valid() && Live(entries[..], cwd)
      modifies entries, dev
      ensures (View(), ok) == old(SfsOps.Remove(View(), path, cwd))
      ensures Valid()
    {
      RemoveKeepsInv(View(), path, cwd);
      ValidIsWalkable();
      var id := Resolve(path, cwd);
      if id.None? || id.value == super.rootId {
        return false;
      }
      if entries[id.value].typ == TYPE_DIR {
        var i := 0;
        while i < MAX_ENTRIES
          invariant i <= MAX_ENTRIES && View() == old(View())
          invariant forall j | 0 <= j < i :: Used(entries[j]) ==> entries[j].parent != id.value
        {
          if entries[i].used != 0 && entries[i].parent == id.value {
            assert !Childless(entries[..], id.value);
            return false;
          }
          i := i + 1;
        }
        assert Childless(entries[..], id.value);
      }
      entries[id.value] := ZeroEntry();
      ok := Flush();
    }

    method Truncate(id: nat) returns (ok: bool)
      requires Valid()
      modifies entries, dev
      ensures (View(), ok) == old(SfsOps.Truncate(View(), id))
      ensures Valid()
    {
      TruncateKeepsInv(View(), id);
      if id >= MAX_ENTRIES || entries[id].used == 0 || entries[id].typ != TYPE_FILE {
        return false;
      }
      if !Writable(entries[id].perm) {
        return false;
      }
      entries[id] := entries[id].(size := 0);
      ok := Flush();
    }

    /** Copies n bytes from file position `offset` of the extent at `start`, sector by sector. */
    method ReadRun(start: nat, offset: nat, out: array<u8>, n: nat) returns (ok: bool)
      requires n <= out.Length
      modifies out
      ensures ok <==> (n > 0 ==> start + (offset + n - 1) / 512 < SECTOR_COUNT)
      ensures ok ==> out[..n] == RawBytes(dev.disk, start, offset, n)
      ensures forall k | n <= k < out.Length :: out[k] == old(out[k])
    {
      var copied := 0;
      var sector := new u8[SECTOR_BYTES];
      while copied < n
        invariant copied <= n && (copied > 0 ==> start + (offset + copied - 1) / 512 < SECTOR_COUNT)
        invariant out[..copied] == RawBytes(dev.disk, start, offset, copied)
        invariant forall k | copied <= k < out.Length :: out[k] == old(out[k])
      {
        var at := offset + copied;
        var within := at % 512;
        var chunk := if 512 - within > n - copied then n - copied else 512 - within;
        ok := dev.Read(start + at / 512, sector);
        if !ok {
          return false;
        }
        ghost var before := out[..];
        MemCopy(out, copied, sector, within, chunk);
        ChunkRead(dev.disk, start, offset, before, out[..], copied, chunk);
        copied := copied + chunk;
      }
      return true;
    }

    method Read(id: nat, offset: nat, out: array<u8>, len: nat) returns (ok: bool, copied: nat)
      requires Valid() && len <= out.Length
      modifies out
      ensures View() == old(View())
      ensures copied <= len
      ensures SfsOps.Read(View(), id, offset, len) == if ok then Some(out[..copied]) else None
      ensures out[copied..] == old(out[copied..])
    {
      copied := 0;
      if id >= MAX_ENTRIES || entries[id].used == 0 || entries[id].typ != TYPE_FILE {
        return false, 0;
      }
      if !Readable(entries[id].perm) {
        return false, 0;
      }
      if offset >= entries[id].size {
        return true, 0;
      }
      var e := entries[id];
      assert ExtentOk(e, super.nextFree);
      copied := if len > e.size - offset then e.size - offset else len;
      ReadDelivers(View(), id, offset, len, copied);
      ok := ReadRun(e.start, offset, out, copied);
    }

    /** Copies n whole sectors, stopping at the end of the device. */
    method CopySectors(from: nat, to: nat, n: nat) returns (ok: bool)
      requires from + n <= to
      modifies dev
      ensures dev.disk == CopiedRun(old(dev.disk), from, to, n)
      ensures ok <==> n == 0 || to + n <= SECTOR_COUNT
    {
      var tmp := new u8[SECTOR_BYTES];
      var i := 0;
      while i < n
        invariant i <= n && (i > 0 ==> to + i <= SECTOR_COUNT)
        invariant dev.disk == CopiedRun(old(dev.disk), from, to, i)
      {
        ok := dev.Read(from + i, tmp);
        if !ok {
          return false;
        }
        assert dev.disk[from + i] == old(dev.disk)[from + i];
        ok := dev.Write(to + i, tmp);
        if !ok {
          return false;
        }
        i := i + 1;
      }
      return true;
    }

    /** Read-modify-write of part of one sector. */
    method PatchSector(lba: nat, within: nat, data: array<u8>, from: nat, chunk: nat) returns (ok: bool)
      requires within + chunk <= SECTOR_BYTES && from + chunk <= data.Length
      modifies dev
      ensures ok <==> lba < SECTOR_COUNT
      ensures !ok ==> dev.disk == old(dev.disk)
      ensures ok ==>
                && dev.disk == old(dev.disk)[lba := dev.disk[lba]]
                && dev.disk[lba] == old(dev.disk)[lba][..within] + data[from..from + chunk]
                                    + old(dev.disk)[lba][within + chunk..]
    {
      var sector := new u8[SECTOR_BYTES];
      ok := dev.Read(lba, sector);
      if !ok {
        forall i | 0 <= i < SECTOR_BYTES {
          sector[i] := 0;
        }
      }
      MemCopy(sector, within, data, from, chunk);
      ok := dev.Write(lba, sector);
    }

    /** Lays len bytes over file position `offset` of the extent at `start`. */
    method WriteRun(start: nat, offset: nat, data: array<u8>, len: nat) returns (ok: bool)
      requires len <= data.Length
      modifies dev
      ensures dev.disk == Overlaid(old(dev.disk), start, offset, data[..len])
      ensures ok <==> WriteFits(start, offset, len)
    {
      ghost var (was, bytes) := (dev.disk, data[..len]);
      OverlaidNothing(was, start, offset);
      var copied := 0;
      while copied < len
        invariant copied <= len
        invariant copied > 0 ==> start + (offset + copied - 1) / 512 < SECTOR_COUNT
        invariant dev.disk == Overlaid(was, start, offset, bytes[..copied])
      {
        var at := offset + copied;
        var lba := start + at / 512;
        var within := at % 512;
        var chunk := if 512 - within > len - copied then len - copied else 512 - within;
        ok := PatchSector(lba, within, data, copied, chunk);
        if !ok {
          OverlaidBeyond(was, start, offset, bytes, copied);
          return false;
        }
        SliceOfPrefix(data[..], len, copied, copied + chunk);
        OverlaidChunk(was, start, offset, bytes, copied, chunk, dev.disk[lba]);
        copied := copied + chunk;
        assert (offset + copied - 1) / 512 == at / 512;
      }
      assert bytes[..copied] == bytes;
      return true;
    }

    /** Makes sure entry `id` has an extent of at least `need` sectors. */
    method Reserve(id: nat, need: nat) returns (ok: bool)
      requires entries.Length == MAX_ENTRIES && Extents(super, entries[..])
      requires id < MAX_ENTRIES && Used(entries[id]) && super.nextFree + need < TWO_32
      modifies this, entries, dev
      ensures (View(), ok) == old(Place(View(), id, need))
    {
      var e := entries[id];
      assert ExtentOk(e, super.nextFree);
      var next := super.nextFree;
      if e.start == 0 {
        entries[id] := e.(start := next, cap := need);
        super := super.(nextFree := next + need);
      } else if need > e.cap {
        ok := CopySectors(e.start, next, e.cap);
        if !ok {
          return false;
        }
        entries[id] := e.(start := next, cap := need);
        super := super.(nextFree := next + need);
      }
      ok := true;
      assert entries[..] == old(entries[..])[id := entries[id]];
    }

    /** The write proper, once the caller may write to entry `id`. */
    method WriteEntry(id: nat, offset: nat, data: array<u8>, len: nat) returns (ok: bool)
      requires entries.Length == MAX_ENTRIES && len <= data.Length
      requires Extents(super, entries[..]) && NoWrap(super, offset, len) && MayWrite(View(), id)
      modifies this, entries, dev
      ensures (View(), ok) == old(SfsData.Write(View(), id, offset, data[..len]))
    {
      ghost var (was, bytes) := (View(), data[..len]);
      var end := offset + len;
      ok := Reserve(id, (end + 511) / 512);
      if !ok {
        return false;
      }
      ghost var p := View();
      ok := WriteRun(entries[id].start, offset, data, len);
      if !ok {
        return false;
      }
      entries[id] := entries[id].(size := if end > entries[id].size then end else entries[id].size);
      assert entries[..] == p.table[id := p.table[id].(size := Max(p.table[id].size, end))];
      ok := Flush();
    }

    method Write(id: nat, offset: nat, data: array<u8>, len: nat) returns (ok: bool, written: nat)
      requires Valid() && len <= data.Length && Sound(View(), id, offset, data[..len])
      modifies this, entries, dev
      ensures (View(), ok) == old(SfsData.Write(View(), id, offset, data[..len]))
      ensures written == (if ok then len else 0) && Valid()
    {
      WriteKeepsInv(View(), id, offset, data[..len]);
      if id >= MAX_ENTRIES || entries[id].used == 0 || entries[id].typ != TYPE_FILE {
        return false, 0;
      }
      if !Writable(entries[id].perm) {
        return false, 0;
      }
      ok := WriteEntry(id, offset, data, len);
      written := if ok then len else 0;
    }
  }
}
