/** The file-descriptor layer over SimpleFS, and the shell's file copy on top of it. */
module Vfs {
  import opened Words
  import opened BlockDevice
  import opened SfsLayout
  import opened SfsPath
  import opened SfsData
  import opened SfsTree
  import opened SfsOps
  import opened SfsNaming
  import opened SfsRuns
  import opened SimpleFs

  const MAX_FDS := 16

  datatype Flags = Flags(read: bool, write: bool, create: bool, trunc: bool)
  datatype Fd = Fd(used: bool, node: nat, offset: nat, flags: Flags)

  /** The node a path names, created as an empty file when it is missing and that was asked for. */
  ghost function Locate(s: State, path: CString, cwd: nat, create: bool): (State, Option<nat>)
    requires Inv(s) && LiveDir(s.table, cwd)
  {
    var found := Lookup(s.table, s.super.rootId, path, cwd);
    if found.Some? || !create then (s, found) else Create(s, path, cwd, TYPE_FILE, PERM_READ + PERM_WRITE)
  }

  /** What opening a path does to the file system, and the node it opens. */
  ghost function OpenNode(s: State, path: CString, cwd: nat, flags: Flags): (State, Option<nat>)
    requires Inv(s) && LiveDir(s.table, cwd)
  {
    var (c, id) := Locate(s, path, cwd, flags.create);
    if id.None? || !flags.trunc then (c, id)
    else
      var (t, ok) := Truncate(c, id.value);
      (t, if ok then id else None)
  }

  function FreeFd(fds: seq<Fd>, i: nat): (r: Option<nat>)
    requires i <= |fds|
    ensures r.Some? ==> i <= r.value < |fds| && !fds[r.value].used && forall j | i <= j < r.value :: fds[j].used
    ensures r.None? ==> forall j | i <= j < |fds| :: fds[j].used
    decreases |fds| - i
  {
    if i == |fds| then None else if !fds[i].used then Some(i) else FreeFd(fds, i + 1)
  }

  predicate SameNode(e: Entry, f: Entry) {
    f.used == e.used && f.typ == e.typ && f.perm == e.perm && f.parent == e.parent && f.name == e.name
  }

  /** Entries keep their use, type, permissions and names. */
  predicate SameNodes(t: Table, t': Table) {
    forall i {:trigger SameNode(t[i], t'[i])} | 0 <= i < MAX_ENTRIES :: SameNode(t[i], t'[i])
  }

  lemma SameNodesTwice(t: Table, u: Table, v: Table)
    requires SameNodes(t, u) && SameNodes(u, v)
    ensures SameNodes(t, v)
  {
    forall i | 0 <= i < MAX_ENTRIES
      ensures SameNode(t[i], v[i])
    {
      assert SameNode(t[i], u[i]) && SameNode(u[i], v[i]);
    }
  }

  lemma WriteKeepsNodes(s: State, id: nat, offset: nat, data: seq<u8>)
    requires Sound(s, id, offset, data)
    ensures SameNodes(s.table, Write(s, id, offset, data).0.table)
  {
    if MayWrite(s, id) {
      PlaceKeepsExtents(s, id, SectorsFor(offset + |data|));
    }
  }

  /** A write that succeeds never pushes the bump pointer past the end of the device. */
  lemma WriteKeepsPointer(s: State, id: nat, offset: nat, data: seq<u8>)
    requires Sound(s, id, offset, data) && Write(s, id, offset, data).1 && 0 < |data|
    ensures Write(s, id, offset, data).0.super.nextFree <= Max(s.super.nextFree, SECTOR_COUNT)
  {
  }

  /** Nodes in use stay as they are. */
  predicate KeepsNodes(t: Table, t': Table) {
    forall i {:trigger SameNode(t[i], t'[i])} | 0 <= i < MAX_ENTRIES && Used(t[i]) :: SameNode(t[i], t'[i])
  }

  lemma InsertKeepsNodes(s: State, dir: nat, name: Name)
    requires Extents(s.super, s.table) && LiveDir(s.table, dir)
    ensures var (c, id) := Insert(s, dir, name, TYPE_FILE, PERM_READ + PERM_WRITE);
            && Extents(c.super, c.table) && KeepsNodes(s.table, c.table)
            && c.super.nextFree == s.super.nextFree
            && (if id.Some? then MayWrite(c, id.value) && Files(c) == Files(s)[id.value := []] else c == s)
  {
    InsertRefines(s, dir, name, TYPE_FILE, PERM_READ + PERM_WRITE);
    if Insert(s, dir, name, TYPE_FILE, PERM_READ + PERM_WRITE).1.Some? {
      InsertKeeps(s, dir, name, TYPE_FILE, PERM_READ + PERM_WRITE);
    }
  }

  lemma LocateKeeps(s: State, path: CString, cwd: nat, create: bool)
    requires Inv(s) && LiveDir(s.table, cwd)
    ensures var (c, id) := Locate(s, path, cwd, create);
            && Inv(c) && KeepsNodes(s.table, c.table)
            && c.super.nextFree == s.super.nextFree
            && (c == s || (id.Some? && MayWrite(c, id.value) && Files(c) == Files(s)[id.value := []]))
  {
    if Lookup(s.table, s.super.rootId, path, cwd).None? && create {
      CreateKeepsInv(s, path, cwd, TYPE_FILE, PERM_READ + PERM_WRITE);
      var target := Target(s, path, cwd);
      if target.Some? {
        InsertKeepsNodes(s, target.value.0, target.value.1);
      }
    }
  }

  lemma TruncateKeepsNodes(s: State, id: nat)
    requires Inv(s)
    ensures var (t, ok) := Truncate(s, id);
            && Inv(t) && KeepsNodes(s.table, t.table)
            && t.super.nextFree == s.super.nextFree
            && (ok ==> MayWrite(t, id))
            && Files(t) == if ok then Files(s)[id := []] else Files(s)
  {
    TruncateKeepsInv(s, id);
    TruncateRefines(s, id);
  }

  lemma MadeThenEmptied(m: map<nat, seq<u8>>, id: nat)
    ensures m[id := []][id := []] == m[id := []]
  {
  }

  /** Opening for a fresh write: at most one file, the opened one, is made or emptied. */
  lemma OpenNodeFiles(s: State, path: CString, cwd: nat, flags: Flags)
    requires Inv(s) && LiveDir(s.table, cwd) && flags.trunc
    ensures var (o, id) := OpenNode(s, path, cwd, flags);
            && Inv(o) && KeepsNodes(s.table, o.table)
            && o.super.nextFree == s.super.nextFree
            && (if id.Some? then MayWrite(o, id.value) && Files(o) == Files(s)[id.value := []]
                else Files(o) == Files(s))
  {
    LocateKeeps(s, path, cwd, flags.create);
    var (c, id) := Locate(s, path, cwd, flags.create);
    if id.Some? {
      TruncateKeepsNodes(c, id.value);
      MadeThenEmptied(Files(s), id.value);
    }
  }

  /** Node d is what the path named in s0 or, when it named nothing, an entry unused in s0 which
      a plain path names in s. */
  ghost predicate Named(s0: State, s: State, path: CString, cwd: nat, d: nat)
    requires Inv(s0) && LiveDir(s0.table, cwd)
  {
    var found := Lookup(s0.table, s0.super.rootId, path, cwd);
    if found.Some? then found == Some(d)
    else
      && d < MAX_ENTRIES && !Used(s0.table[d])
      && (PlainLast(Components(path, 0), Slashed(path)) ==>
            && ParentsLive(s.table) && Live(s.table, s0.super.rootId) && Live(s.table, cwd)
            && Lookup(s.table, s0.super.rootId, path, cwd) == Some(d))
  }

  /** When opening succeeds: the node is there and may be emptied if that is asked for, or it
      is asked for and possible to make it. */
  ghost predicate CanOpen(s: State, path: CString, cwd: nat, flags: Flags)
    requires Inv(s) && LiveDir(s.table, cwd)
  {
    var found := Lookup(s.table, s.super.rootId, path, cwd);
    if found.Some? then flags.trunc ==> MayWrite(s, found.value) else flags.create && CanCreate(s, path, cwd)
  }

  /** The entry a path opens, and its table afterwards: an existing one is emptied when that is
      asked for, a missing one is an empty file that may be read and written; no other changes. */
  lemma OpenNames(s: State, path: CString, cwd: nat, flags: Flags)
    requires Inv(s) && LiveDir(s.table, cwd)
    ensures var (o, id) := OpenNode(s, path, cwd, flags);
            var found := Lookup(s.table, s.super.rootId, path, cwd);
            && (id.Some? <==> CanOpen(s, path, cwd, flags))
            && (id.None? ==> o == s)
            && (id.Some? ==>
                  && Named(s, o, path, cwd, id.value)
                  && id.value < MAX_ENTRIES && o.super == s.super
                  && o.table == s.table[id.value := o.table[id.value]]
                  && if found.Some? then
                       o.table[id.value] == if flags.trunc then s.table[id.value].(size := 0) else s.table[id.value]
                     else IsFile(o.table[id.value]) && o.table[id.value].size == 0 && o.table[id.value].perm == 3)
  {
    var found := Lookup(s.table, s.super.rootId, path, cwd);
    if found.Some? {
      TruncateSucceeds(s, found.value);
    } else if flags.create {
      MadeNames(s, path, cwd);
      CreateNames(s, path, cwd, flags);
    }
  }

  lemma MadeNames(s: State, path: CString, cwd: nat)
    requires Inv(s) && LiveDir(s.table, cwd) && Lookup(s.table, s.super.rootId, path, cwd).None?
    ensures var (c, id) := Create(s, path, cwd, TYPE_FILE, PERM_READ + PERM_WRITE);
            && (id.Some? <==> CanCreate(s, path, cwd))
            && (id.None? ==> c == s)
            && (id.Some? ==>
                  && Named(s, c, path, cwd, id.value)
                  && id.value < MAX_ENTRIES && c.super == s.super
                  && c.table == s.table[id.value := c.table[id.value]]
                  && IsFile(c.table[id.value]) && c.table[id.value].size == 0 && c.table[id.value].perm == 3)
  {
    CreateSucceeds(s, path, cwd, TYPE_FILE, PERM_READ + PERM_WRITE);
    if Create(s, path, cwd, TYPE_FILE, PERM_READ + PERM_WRITE).1.Some? {
      CreateThenLookup(s, path, cwd, TYPE_FILE, PERM_READ + PERM_WRITE);
    }
  }

  lemma EmptyStaysEmpty(c: State, id: nat)
    requires id < MAX_ENTRIES && IsFile(c.table[id]) && c.table[id].size == 0 && c.table[id].perm == 3
    ensures Truncate(c, id).1 && Truncate(c, id).0.table == c.table && Truncate(c, id).0.super == c.super
  {
    assert c.table[id].(size := 0) == c.table[id];
  }

  lemma CreateNames(s: State, path: CString, cwd: nat, flags: Flags)
    requires Inv(s) && LiveDir(s.table, cwd) && flags.create
    requires Lookup(s.table, s.super.rootId, path, cwd).None?
    ensures var (o, id) := OpenNode(s, path, cwd, flags);
            var (c, made) := Create(s, path, cwd, TYPE_FILE, PERM_READ + PERM_WRITE);
            id == made && o.table == c.table && o.super == c.super && (id.None? ==> o == c)
  {
    MadeNames(s, path, cwd);
    var (c, id) := Create(s, path, cwd, TYPE_FILE, PERM_READ + PERM_WRITE);
    if id.Some? {
      EmptyStaysEmpty(c, id.value);
    }
  }

  class FdTable {
    const fs: FileSystem
    const fds: array<Fd>
    var cwd: nat

    constructor (fileSystem: FileSystem)
      requires fileSystem.Valid()
      ensures Valid() && fs == fileSystem && fresh(fds)
      ensures forall i | 0 <= i < MAX_FDS :: !fds[i].used
    {
      fs := fileSystem;
      fds := new Fd[MAX_FDS](_ => Fd(false, 0, 0, Flags(false, false, false, false)));
      cwd := fileSystem.super.rootId;
    }

    ghost predicate Valid()
      reads this, fds, fs, fs.entries, fs.dev
    {
      fds.Length == MAX_FDS && fs.Valid() && LiveDir(fs.View().table, cwd)
    }

    method LocateEntry(path: CString, create: bool) returns (node: Option<nat>)
      requires Valid()
      modifies fs.entries, fs.dev
      ensures Valid()
      ensures (fs.View(), node) == old(Locate(fs.View(), path, cwd, create))
    {
      LocateKeeps(fs.View(), path, cwd, create);
      fs.ValidIsWalkable();
      node := fs.Resolve(path, cwd);
      if node.None? && create {
        node := fs.Create(path, cwd, TYPE_FILE, PERM_READ + PERM_WRITE);
      }
    }

    method OpenEntry(path: CString, flags: Flags) returns (node: Option<nat>)
      requires Valid()
      modifies fs.entries, fs.dev
      ensures Valid()
      ensures (fs.View(), node) == old(OpenNode(fs.View(), path, cwd, flags))
    {
      node := LocateEntry(path, flags.create);
      if node.Some? && flags.trunc {
        var ok := fs.Truncate(node.value);
        if !ok {
          node := None;
        }
      }
    }

    method AllocateFd(node: nat, flags: Flags) returns (fd: int)
      requires fds.Length == MAX_FDS
      modifies fds
      ensures var slot := FreeFd(old(fds[..]), 0);
              if slot.Some? then fd == slot.value && fds[..] == old(fds[..])[fd := Fd(true, node, 0, flags)]
              else fd == -1 && fds[..] == old(fds[..])
    {
      var i := 0;
      while i < MAX_FDS
        invariant i <= MAX_FDS && FreeFd(fds[..], i) == FreeFd(fds[..], 0) && fds[..] == old(fds[..])
      {
        if !fds[i].used {
          fds[i] := Fd(true, node, 0, flags);
          return i;
        }
        i := i + 1;
      }
      return -1;
    }

    method Open(path: CString, flags: Flags) returns (fd: int)
      requires Valid()
      modifies fds, fs.entries, fs.dev
      ensures Valid()
      ensures var (o, node) := old(OpenNode(fs.View(), path, cwd, flags));
              var slot := FreeFd(old(fds[..]), 0);
              && fs.View() == o
              && (if node.Some? && slot.Some?
                  then fd == slot.value && fds[..] == old(fds[..])[fd := Fd(true, node.value, 0, flags)]
                  else fd == -1 && fds[..] == old(fds[..]))
    {
      var node := OpenEntry(path, flags);
      if node.None? {
        return -1;
      }
      fd := AllocateFd(node.value, flags);
    }

    method Read(fd: int, out: array<u8>, len: nat) returns (n: nat)
      requires Valid() && len <= out.Length
      modifies fds, out
      ensures Valid() && fs.View() == old(fs.View()) && n <= len
      ensures if 0 <= fd < MAX_FDS && old(fds[fd]).used && old(fds[fd]).flags.read
              then var r := SfsOps.Read(fs.View(), old(fds[fd]).node, old(fds[fd]).offset, len);
                   && out[..n] == (if r.Some? then r.value else [])
                   && fds[..] == old(fds[..])[fd := old(fds[fd]).(offset := old(fds[fd]).offset + n)]
              else n == 0 && fds[..] == old(fds[..])
    {
      if fd < 0 || fd >= MAX_FDS || !fds[fd].used {
        return 0;
      }
      if !fds[fd].flags.read {
        return 0;
      }
      var ok, k := fs.Read(fds[fd].node, fds[fd].offset, out, len);
      if !ok {
        return 0;
      }
      fds[fd] := fds[fd].(offset := fds[fd].offset + k);
      return k;
    }

    method Write(fd: int, data: array<u8>, len: nat) returns (n: nat)
      requires Valid() && len <= data.Length
      requires 0 <= fd < MAX_FDS && fds[fd].used && fds[fd].flags.write ==>
                 Sound(fs.View(), fds[fd].node, fds[fd].offset, data[..len])
      modifies fds, fs, fs.entries, fs.dev
      ensures Valid()
      ensures if 0 <= fd < MAX_FDS && old(fds[fd]).used && old(fds[fd]).flags.write
              then var (w, ok) := old(SfsData.Write(fs.View(), fds[fd].node, fds[fd].offset, data[..len]));
                   && fs.View() == w && n == (if ok then len else 0)
                   && fds[..] == old(fds[..])[fd := old(fds[fd]).(offset := old(fds[fd]).offset + n)]
              else n == 0 && fs.View() == old(fs.View()) && fds[..] == old(fds[..])
    {
      if fd < 0 || fd >= MAX_FDS || !fds[fd].used {
        return 0;
      }
      if !fds[fd].flags.write {
        return 0;
      }
      WriteKeepsNodes(fs.View(), fds[fd].node, fds[fd].offset, data[..len]);
      var ok, k := fs.Write(fds[fd].node, fds[fd].offset, data, len);
      if !ok {
        return 0;
      }
      fds[fd] := fds[fd].(offset := fds[fd].offset + k);
      return k;
    }

    method Close(fd: int)
      requires Valid()
      modifies fds
      ensures Valid()
      ensures fds[..] == if 0 <= fd < MAX_FDS then old(fds[..])[fd := old(fds[fd]).(used := false)] else old(fds[..])
    {
      if fd < 0 || fd >= MAX_FDS {
        return;
      }
      fds[fd] := fds[fd].(used := false);
    }
  }
}
