/** SimpleFS operations as functions of the whole state: tables in memory plus disk. */
module SfsOps {
  import opened Words
  import opened BlockDevice
  import opened SfsLayout
  import opened SfsPath
  import opened SfsData
  import opened SfsTree

  /** What every reachable state satisfies. */
  ghost predicate Inv(s: State) {
    && s.super.magic == SFS_MAGIC && s.super.version == SFS_VERSION
    && Extents(s.super, s.table)
    && IsTree(s.table, s.super.rootId)
  }

  /** The disk reproduces the tables in memory. */
  predicate Synced(s: State) {
    LoadedSuper(s.disk) == s.super && LoadedTable(s.disk) == s.table
  }

  function Commit(super: Super, t: Table, disk: Disk): State {
    State(super, t, Flushed(super, t, disk))
  }

  // ---- formatting and mounting -------------------------------------------------

  function FreshSuper(): Super {
    Super(SFS_MAGIC, SFS_VERSION, SECTOR_COUNT, MAX_ENTRIES, DATA_LBA, 0, Zeros(488))
  }

  function RootEntry(): Entry {
    Entry(1, TYPE_DIR, PERM_READ + PERM_WRITE + PERM_EXEC, 0, 0, 0, 0, 0, StoredName(Zeros(32), [SLASH]), Zeros(12))
  }

  function FreshEntry(i: int): Entry {
    if i == 0 then RootEntry() else ZeroEntry()
  }

  function FreshTable(): Table {
    seq(MAX_ENTRIES, i => FreshEntry(i))
  }

  function Formatted(disk: Disk): State {
    Commit(FreshSuper(), FreshTable(), disk)
  }

  /** A disk with the SimpleFS magic and version is loaded, any other is formatted. */
  function Mounted(disk: Disk): State {
    if LoadedSuper(disk).magic == SFS_MAGIC && LoadedSuper(disk).version == SFS_VERSION
    then State(LoadedSuper(disk), LoadedTable(disk), disk)
    else Formatted(disk)
  }

  lemma FreshTableIsTree(t: Table)
    requires t == FreshTable()
    ensures IsTree(t, 0)
  {
    StoredNameReads(Zeros(32), [SLASH]);
    assert t[0] == RootEntry();
    assert forall i | Live(t, i) :: i == 0;
    assert Up(t, 0, 0) == 0;
  }

  lemma FreshExtents(super: Super, t: Table)
    requires super == FreshSuper() && t == FreshTable()
    ensures Extents(super, t)
  {
    assert t[0] == RootEntry();
    assert forall i | 0 < i < MAX_ENTRIES :: t[i] == ZeroEntry();
  }

  lemma FormattedInv(disk: Disk)
    ensures Inv(Formatted(disk)) && Synced(Formatted(disk))
  {
    var (super, t) := (FreshSuper(), FreshTable());
    FreshTableIsTree(t);
    FreshExtents(super, t);
    FlushThenLoad(super, t, disk);
  }

  lemma MountedSynced(s: State)
    requires Synced(s) && s.super.magic == SFS_MAGIC && s.super.version == SFS_VERSION
    ensures Mounted(s.disk) == s
  {
  }

  // ---- create -------------------------------------------------------------------

  function NewEntry(e: Entry, typ: u8, perm: u8, parent: u32, name: Name): Entry {
    e.(used := 1, typ := typ, perm := perm, parent := parent, start := 0, size := 0, cap := 0,
       name := StoredName(e.name, name))
  }

  /** Puts a new entry `name` into directory `dir` unless the name is taken or the table full. */
  function Insert(s: State, dir: nat, name: Name, typ: u8, perm: u8): (State, Option<nat>)
    requires dir < MAX_ENTRIES
  {
    if FindChild(s.table, dir, name).Some? then (s, None)
    else
      var idx := FreeFrom(s.table, 0);
      if idx.None? then (s, None)
      else
        var e := NewEntry(s.table[idx.value], typ, perm, dir, name);
        (Commit(s.super, s.table[idx.value := e], s.disk), idx)
  }

  ghost function Create(s: State, path: CString, cwd: nat, typ: u8, perm: u8): (State, Option<nat>)
    requires Inv(s) && LiveDir(s.table, cwd)
  {
    var target := Target(s, path, cwd);
    if target.None? then (s, None) else Insert(s, target.value.0, target.value.1, typ, perm)
  }

  /** Replacing an entry by one without an extent and flushing keeps all extents
      in order and every other file's bytes. */
  lemma CommitKeepsExtents(s: State, id: nat, e: Entry)
    requires Extents(s.super, s.table) && id < MAX_ENTRIES
    requires e.start == 0 && e.size == 0 && e.cap == 0
    ensures var c := Commit(s.super, s.table[id := e], s.disk);
            && Extents(c.super, c.table)
            && forall i | 0 <= i < MAX_ENTRIES && i != id && Used(s.table[i]) :: Contents(c, i) == Contents(s, i)
  {
    var c := Commit(s.super, s.table[id := e], s.disk);
    forall i | 0 <= i < MAX_ENTRIES && i != id && Used(s.table[i])
      ensures Contents(c, i) == Contents(s, i)
    {
      assert ExtentOk(s.table[i], s.super.nextFree);
      BytesFrame(s.disk, c.disk, s.table[i]);
    }
  }

  /** What a successful insert does to tree, extents, disk and files. */
  lemma InsertKeeps(s: State, dir: nat, name: Name, typ: u8, perm: u8)
    requires LiveDir(s.table, dir) && Extents(s.super, s.table) && Insert(s, dir, name, typ, perm).1.Some?
    ensures var (c, id) := Insert(s, dir, name, typ, perm);
            && Adds(s.table, c.table, id.value, dir, name)
            && c.super == s.super && Extents(c.super, c.table)
            && c.table[id.value].typ == typ && c.table[id.value].perm == perm && c.table[id.value].size == 0
            && forall i | 0 <= i < MAX_ENTRIES && i != id.value && Used(s.table[i]) :: Contents(c, i) == Contents(s, i)
  {
    var (c, id) := Insert(s, dir, name, typ, perm);
    StoredNameReads(s.table[id.value].name, name);
    CommitKeepsExtents(s, id.value, c.table[id.value]);
  }

  /** Where a path's new entry goes, and under which name. */
  ghost function Target(s: State, path: CString, cwd: nat): Option<(nat, Name)>
    requires Inv(s) && LiveDir(s.table, cwd)
  {
    var comps := Components(path, 0);
    var dir := CreateDir(s.table, comps, StartDir(path, s.super.rootId, cwd), Slashed(path));
    if path == [] || dir.None? || comps == [] then None else Some((dir.value, comps[|comps| - 1]))
  }

  lemma CreateKeepsInv(s: State, path: CString, cwd: nat, typ: u8, perm: u8)
    requires Inv(s) && LiveDir(s.table, cwd)
    ensures Inv(Create(s, path, cwd, typ, perm).0)
    ensures Create(s, path, cwd, typ, perm).1.Some? ==> Synced(Create(s, path, cwd, typ, perm).0)
  {
    var (c, id) := Create(s, path, cwd, typ, perm);
    if id.Some? {
      var (dir, name) := Target(s, path, cwd).value;
      InsertKeeps(s, dir, name, typ, perm);
      AddKeepsTree(s.table, c.table, s.super.rootId, id.value, dir, name);
      FlushThenLoad(c.super, c.table, s.disk);
    }
  }

  /** After a successful create, the path gives the new id exactly when its last
      component is plain. */
  lemma CreateThenLookup(s: State, path: CString, cwd: nat, typ: u8, perm: u8)
    requires Inv(s) && LiveDir(s.table, cwd)
    requires Create(s, path, cwd, typ, perm).1.Some?
    ensures var (c, id) := Create(s, path, cwd, typ, perm);
            && IsTree(c.table, s.super.rootId) && Live(c.table, cwd)
            && (Lookup(c.table, s.super.rootId, path, cwd) == id <==> PlainLast(Components(path, 0), Slashed(path)))
  {
    var (c, id) := Create(s, path, cwd, typ, perm);
    var (dir, name) := Target(s, path, cwd).value;
    InsertKeeps(s, dir, name, typ, perm);
    CreateThenResolve(s.table, c.table, s.super.rootId, id.value, Components(path, 0),
                      StartDir(path, s.super.rootId, cwd), Slashed(path));
  }

  lemma OneComponent(c: u8)
    requires c != 0 && c != SLASH
    ensures Components([c], 0) == [[c]] && !Slashed([c])
  {
    var path: CString := [c];
    assert SkipSlashes(path, 0) == 0 && SkipSlashes(path, 1) == 1;
    assert ComponentEnd(path, 1) == 1 && ComponentEnd(path, 0) == 1;
    assert path[0..1] == [c];
    assert Components(path, 1) == [];
  }

  lemma FreshTableHasRoom(t: Table, name: Name)
    requires t == FreshTable()
    ensures FindChild(t, 0, name).None? && FreeFrom(t, 0) == Some(1) && t[1] == ZeroEntry() && LiveDir(t, 0)
  {
    StoredNameReads(Zeros(32), [SLASH]);
    assert t[0] == RootEntry() && t[1] == ZeroEntry();
    assert forall j | 0 < j < MAX_ENTRIES :: t[j] == ZeroEntry();
    assert forall j | 0 <= j < MAX_ENTRIES :: !Is(t, j, 0, name);
    assert FreeFrom(t, 1) == Some(1);
  }

  /** On a fresh disk the first create in the root goes to entry 1. */
  lemma FirstCreate(disk: Disk, c: u8)
    requires c != 0 && c != SLASH
    ensures Inv(Formatted(disk)) && LiveDir(Formatted(disk).table, 0)
    ensures Create(Formatted(disk), [c], 0, TYPE_FILE, PERM_READ + PERM_WRITE)
         == Insert(Formatted(disk), 0, [c], TYPE_FILE, PERM_READ + PERM_WRITE)
    ensures Create(Formatted(disk), [c], 0, TYPE_FILE, PERM_READ + PERM_WRITE).1 == Some(1)
  {
    var s := Formatted(disk);
    FormattedInv(disk);
    OneComponent(c);
    FreshTableHasRoom(s.table, [c]);
    PlainCreateDir(s.table, c);
    assert Target(s, [c], 0) == Some((0, [c]));
  }

  lemma PlainCreateDir(t: Table, c: u8)
    requires ParentsLive(t) && LiveDir(t, 0) && t[0].parent == 0 && c != 0 && c != SLASH
    ensures CreateDir(t, [[c]], 0, false) == Some(0)
  {
    assert [[c]][1..] == [];
    assert Live(t, 0);
  }

  /** Creating "." on a fresh disk succeeds with id 1, yet "." still means the root. */
  lemma CreatedDotIsNotFound(disk: Disk)
    ensures Inv(Formatted(disk)) && LiveDir(Formatted(disk).table, 0)
    ensures var (r, id) := Create(Formatted(disk), DOT, 0, TYPE_FILE, PERM_READ + PERM_WRITE);
            id == Some(1) && IsTree(r.table, 0) && Lookup(r.table, 0, DOT, 0) == Some(0)
  {
    FirstCreate(disk, 46);
    CreateThenLookup(Formatted(disk), DOT, 0, TYPE_FILE, PERM_READ + PERM_WRITE);
    OneComponent(46);
    var r := Create(Formatted(disk), DOT, 0, TYPE_FILE, PERM_READ + PERM_WRITE).0;
    assert ResolveFrom(r.table, [], 0) == Some(0);
  }

  /** An empty write 32 MiB into a new file succeeds and leaves a size the device cannot hold. */
  lemma EmptyWriteOffDevice(disk: Disk)
    ensures Inv(Formatted(disk)) && LiveDir(Formatted(disk).table, 0)
    ensures var s := Create(Formatted(disk), [97], 0, TYPE_FILE, PERM_READ + PERM_WRITE).0;
            && Inv(s) && NoWrap(s.super, 0x200_0000, 0) && MayWrite(s, 1)
            && var (w, ok) := Write(s, 1, 0x200_0000, []);
               ok && !Extents(w.super, w.table)
  {
    FirstCreate(disk, 97);
    CreateKeepsInv(Formatted(disk), [97], 0, TYPE_FILE, PERM_READ + PERM_WRITE);
    FirstInserted(Formatted(disk), [97]);
    EmptyWriteBreaks(Create(Formatted(disk), [97], 0, TYPE_FILE, PERM_READ + PERM_WRITE).0);
  }

  lemma FirstInserted(s: State, name: Name)
    requires s.super == FreshSuper() && s.table == FreshTable()
    ensures var r := Insert(s, 0, name, TYPE_FILE, PERM_READ + PERM_WRITE).0;
            r.super == FreshSuper() && MayWrite(r, 1) && r.table[1].start == 0 && r.table[1].size == 0
  {
    FreshTableHasRoom(s.table, name);
  }

  lemma EmptyWriteBreaks(s: State)
    requires Extents(s.super, s.table) && s.super == FreshSuper() && MayWrite(s, 1)
    requires s.table[1].start == 0 && s.table[1].size == 0
    ensures NoWrap(s.super, 0x200_0000, 0)
    ensures var (w, ok) := Write(s, 1, 0x200_0000, []);
            ok && !Extents(w.super, w.table)
  {
    EmptyWritePastEnd(s, 1, 0x200_0000);
  }

  /** Every path that resolved before a successful create still gives its old id. */
  lemma CreateKeepsLookups(s: State, path: CString, cwd: nat, typ: u8, perm: u8, other: CString, from: nat)
    requires Inv(s) && LiveDir(s.table, cwd) && Live(s.table, from)
    requires Create(s, path, cwd, typ, perm).1.Some?
    requires Lookup(s.table, s.super.rootId, other, from).Some?
    ensures var c := Create(s, path, cwd, typ, perm).0;
            && IsTree(c.table, s.super.rootId) && Live(c.table, from)
            && Lookup(c.table, s.super.rootId, other, from) == Lookup(s.table, s.super.rootId, other, from)
  {
    var (c, id) := Create(s, path, cwd, typ, perm);
    var (dir, name) := Target(s, path, cwd).value;
    InsertKeeps(s, dir, name, typ, perm);
    AddKeepsTree(s.table, c.table, s.super.rootId, id.value, dir, name);
    AddKeepsPaths(s.table, c.table, s.super.rootId, id.value, dir, name,
                  Components(other, 0), StartDir(other, s.super.rootId, from));
  }

  // ---- remove -----------------------------------------------------------------------

  ghost function Remove(s: State, path: CString, cwd: nat): (State, bool)
    requires Inv(s) && Live(s.table, cwd)
  {
    var id := Lookup(s.table, s.super.rootId, path, cwd);
    if id.None? || id.value == s.super.rootId then (s, false)
    else if s.table[id.value].typ == TYPE_DIR && !Childless(s.table, id.value) then (s, false)
    else (Commit(s.super, s.table[id.value := ZeroEntry()], s.disk), true)
  }

  lemma RemoveKeepsInv(s: State, path: CString, cwd: nat)
    requires Inv(s) && Live(s.table, cwd)
    ensures Inv(Remove(s, path, cwd).0)
    ensures Remove(s, path, cwd).1 ==> Synced(Remove(s, path, cwd).0)
  {
    var (r, ok) := Remove(s, path, cwd);
    if ok {
      var id := Lookup(s.table, s.super.rootId, path, cwd).value;
      LeafOfTree(s.table, id);
      RemoveKeepsTree(s.table, s.super.rootId, id);
      CommitKeepsExtents(s, id, ZeroEntry());
      FlushThenLoad(r.super, r.table, s.disk);
    }
  }

  /** Only directories have children. */
  lemma LeafOfTree(t: Table, id: nat)
    requires ParentsLive(t) && Live(t, id) && (t[id].typ == TYPE_DIR ==> Childless(t, id))
    ensures Childless(t, id)
  {
    forall i | 0 <= i < MAX_ENTRIES && Used(t[i])
      ensures t[i].parent != id
    {
      assert Live(t, i);
    }
  }

  /** After a successful remove, exactly the paths that lead over the removed entry are gone;
      every other path gives its old id. */
  lemma RemoveThenLookup(s: State, path: CString, cwd: nat, other: CString, from: nat)
    requires Inv(s) && Live(s.table, cwd) && Remove(s, path, cwd).1
    requires Live(s.table, from) && Some(from) != Lookup(s.table, s.super.rootId, path, cwd)
    ensures var r := Remove(s, path, cwd).0;
            && IsTree(r.table, s.super.rootId) && Live(r.table, from)
            && Lookup(r.table, s.super.rootId, other, from)
               == if Visits(s.table, Components(other, 0), StartDir(other, s.super.rootId, from),
                            Lookup(s.table, s.super.rootId, path, cwd).value)
                  then None else Lookup(s.table, s.super.rootId, other, from)
  {
    var id := Lookup(s.table, s.super.rootId, path, cwd).value;
    LeafOfTree(s.table, id);
    RemoveKeepsTree(s.table, s.super.rootId, id);
    RemoveKeepsPaths(s.table, s.super.rootId, id, Components(other, 0), StartDir(other, s.super.rootId, from));
  }

  // ---- truncate, write, read --------------------------------------------------------

  function Truncate(s: State, id: nat): (State, bool) {
    if !MayWrite(s, id) then (s, false)
    else (Commit(s.super, s.table[id := s.table[id].(size := 0)], s.disk), true)
  }

  /** A successful truncate empties the file and nothing else. */
  lemma TruncateKeepsExtents(s: State, id: nat)
    requires Extents(s.super, s.table)
    ensures var r := Truncate(s, id).0;
            && Extents(r.super, r.table)
            && (Truncate(s, id).1 ==> Contents(r, id) == [])
            && forall i | 0 <= i < MAX_ENTRIES && i != id && Used(s.table[i]) ::
                 r.table[i] == s.table[i] && Contents(r, i) == Contents(s, i)
  {
    var (r, ok) := Truncate(s, id);
    if ok {
      forall i | 0 <= i < MAX_ENTRIES && Used(r.table[i])
        ensures ExtentOk(r.table[i], r.super.nextFree)
      {
        assert ExtentOk(s.table[i], s.super.nextFree);
      }
      forall i, j | 0 <= i < j < MAX_ENTRIES && Used(r.table[i]) && Used(r.table[j])
        ensures Apart(r.table[i], r.table[j])
      {
        assert Apart(s.table[i], s.table[j]);
      }
      forall i | 0 <= i < MAX_ENTRIES && i != id && Used(s.table[i])
        ensures Contents(r, i) == Contents(s, i)
      {
        assert ExtentOk(s.table[i], s.super.nextFree);
        BytesFrame(s.disk, r.disk, s.table[i]);
      }
    }
  }

  lemma TruncateKeepsInv(s: State, id: nat)
    requires Inv(s)
    ensures Inv(Truncate(s, id).0)
    ensures Truncate(s, id).1 ==> Synced(Truncate(s, id).0)
  {
    var (r, ok) := Truncate(s, id);
    TruncateKeepsExtents(s, id);
    if ok {
      TreeFrame(s.table, r.table, s.super.rootId);
      FlushThenLoad(r.super, r.table, s.disk);
    }
  }

  lemma WriteKeepsTree(s: State, id: nat, offset: nat, data: seq<u8>)
    requires IsTree(s.table, s.super.rootId) && Sound(s, id, offset, data)
    ensures var w := Write(s, id, offset, data).0;
            && IsTree(w.table, s.super.rootId)
            && w.super == s.super.(nextFree := w.super.nextFree)
  {
    var w := Write(s, id, offset, data).0;
    if MayWrite(s, id) {
      PlaceKeepsExtents(s, id, SectorsFor(offset + |data|));
      assert w.table == s.table[id := w.table[id]];
      TreeFrame(s.table, w.table, s.super.rootId);
    }
  }

  lemma WriteKeepsInv(s: State, id: nat, offset: nat, data: seq<u8>)
    requires Inv(s) && Sound(s, id, offset, data)
    ensures Inv(Write(s, id, offset, data).0)
    ensures Write(s, id, offset, data).1 ==> Synced(Write(s, id, offset, data).0)
  {
    WriteKeepsExtents(s, id, offset, data);
    WriteKeepsTree(s, id, offset, data);
    if Write(s, id, offset, data).1 {
      WritePersists(s, id, offset, data);
    }
  }

  /** A failed write never touches superblock or table sectors. */
  lemma FailedWriteKeepsMetadata(s: State, id: nat, offset: nat, data: seq<u8>)
    requires Sound(s, id, offset, data) && !Write(s, id, offset, data).1
    ensures LoadedSuper(Write(s, id, offset, data).0.disk) == LoadedSuper(s.disk)
    ensures Mounted(Write(s, id, offset, data).0.disk).super == Mounted(s.disk).super
    ensures Mounted(Write(s, id, offset, data).0.disk).table == Mounted(s.disk).table
  {
    var w := Write(s, id, offset, data).0;
    if MayWrite(s, id) {
      var need := SectorsFor(offset + |data|);
      PlaceKeepsExtents(s, id, need);
      var (p, placed) := Place(s, id, need);
      assert ExtentOk(p.table[id], p.super.nextFree);
      forall l | 0 <= l < DATA_LBA
        ensures w.disk[l] == s.disk[l]
      {
        if placed {
          OverlaidFrame(p.disk, p.table[id].start, p.table[id].cap, offset, data, l);
        }
      }
    }
  }

  /** What a read delivers: the bytes of the file from `offset`, at most `len` of them. */
  function Read(s: State, id: nat, offset: nat, len: nat): Option<seq<u8>>
    requires Extents(s.super, s.table)
  {
    if id >= MAX_ENTRIES || !IsFile(s.table[id]) || !Readable(s.table[id].perm) then None
    else
      var c := Contents(s, id);
      Some(if offset >= |c| then [] else if offset + len < |c| then c[offset..offset + len] else c[offset..])
  }

  /** A read succeeds exactly for a readable file, and delivers what it has from `offset` on,
      `len` bytes or as many as there are. */
  lemma ReadSucceeds(s: State, id: nat, offset: nat, len: nat)
    requires Extents(s.super, s.table)
    ensures var r := Read(s, id, offset, len);
            && (r.Some? <==> id < 64 && s.table[id].used != 0 && s.table[id].typ == 1 && s.table[id].perm % 2 == 1)
            && (r.Some? ==>
                  && |r.value| == Max(0, Min(len, s.table[id].size - offset))
                  && forall k | 0 <= k < |r.value| :: r.value[k] == Contents(s, id)[offset + k])
  {
  }

  /** What has been written can be read back. */
  lemma WriteThenRead(s: State, id: nat, offset: nat, data: seq<u8>)
    requires Sound(s, id, offset, data) && Write(s, id, offset, data).1 && Readable(s.table[id].perm)
    ensures var w := Write(s, id, offset, data).0;
            Extents(w.super, w.table) && Read(w, id, offset, |data|) == Some(data)
  {
    WriteBytes(s, id, offset, data);
    var w := Write(s, id, offset, data).0;
    var c := Contents(w, id);
    WriteClaims(s, id, offset, data);
    assert IsFile(w.table[id]) && Readable(w.table[id].perm);
    assert c[offset..offset + |data|] == data;
    assert offset + |data| == |c| ==> c[offset..] == c[offset..offset + |data|];
  }

  /** A formatted disk: one entry, the root directory, with no data sector claimed yet. */
  lemma FormattedIsEmpty(disk: Disk)
    ensures var s := Formatted(disk);
            && Inv(s)
            && (forall i | 0 <= i < 64 :: s.table[i].used != 0 <==> i == 0)
            && s.table[0].typ == 2 && s.table[0].perm == 7 && s.table[0].parent == 0 && s.super.nextFree == 137
            && Lookup(s.table, s.super.rootId, [47], 0) == Some(0)
  {
    FormattedInv(disk);
    assert Components([47], 1) == [] && Components([47], 0) == [];
  }

  /** Mounting takes a disk as it is when sector 128 begins with "SFS1" and the 32-bit word
      1; otherwise the disk is formatted. */
  lemma MountedMeans(disk: Disk)
    ensures disk[128][..8] == [0x53, 0x46, 0x53, 0x31, 1, 0, 0, 0] ==>
              Mounted(disk) == State(LoadedSuper(disk), LoadedTable(disk), disk)
    ensures disk[128][..8] != [0x53, 0x46, 0x53, 0x31, 1, 0, 0, 0] ==> Mounted(disk) == Formatted(disk)
  {
    var b := disk[128];
    ByteOrder(0x53, 0x46, 0x53, 0x31);
    ByteOrder(1, 0, 0, 0);
    Le32Onto(b[0..4]);
    Le32Onto(b[4..8]);
    Le32RoundTrip(SFS_MAGIC);
    Le32RoundTrip(SFS_VERSION);
    assert b[..8] == b[0..4] + b[4..8];
    if b[..8] == [0x53, 0x46, 0x53, 0x31, 1, 0, 0, 0] {
      assert b[0..4] == b[..8][0..4] == [0x53, 0x46, 0x53, 0x31] && b[4..8] == b[..8][4..8] == [1, 0, 0, 0];
    }
  }
}
