/** The kernel's paging code: directory and tables written word by word into
    frames taken from the PMM. */
module Paging {
  import opened Words
  import opened Pmm
  import opened PageTables

  /** Pages of [0, limit) when the limit is rounded up in 32 bits. */
  function PagesBelow(limit: u32): (n: nat)
    ensures n * PAGE_SIZE < TWO_32
  {
    (limit + PAGE_SIZE - 1) % TWO_32 / PAGE_SIZE
  }

  /** All addresses below the limit are on those pages exactly when rounding does not wrap. */
  lemma PagesCover(limit: u32)
    ensures (forall a: nat | a < limit :: a / PAGE_SIZE < PagesBelow(limit)) <==> limit + PAGE_SIZE - 1 < TWO_32
    ensures limit + PAGE_SIZE - 1 < TWO_32 ==> limit <= 4096 * PagesBelow(limit) < limit + 4096
    ensures PagesBelow(0xFFFF_FFFF) == 0
  {
    if limit + PAGE_SIZE - 1 >= TWO_32 {
      assert 0 / PAGE_SIZE >= PagesBelow(limit);
    }
  }

  /** n pages further on. */
  lemma PagesOn(start: nat, n: nat)
    ensures (start + n * PAGE_SIZE) / PAGE_SIZE == start / PAGE_SIZE + n
  {
  }

  class AddressSpace {
    const pmm: FrameAllocator
    const ram: array<u32>
    var dir: nat

    constructor (allocator: FrameAllocator, memory: array<u32>)
      requires allocator.Valid() && memory.Length == RAM_WORDS
      ensures pmm == allocator && ram == memory && dir == 0
    {
      pmm, ram, dir := allocator, memory, 0;
    }

    ghost predicate Ready()
      reads this, pmm, pmm.bitmap
    {
      pmm.Valid() && ram.Length == RAM_WORDS && 0 !in pmm.Free()
    }

    ghost function View(): Machine
      requires Ready()
      reads this, ram, pmm, pmm.bitmap
    {
      Machine(ram[..], pmm.Free(), dir)
    }

    /** Paging is set up and its tables are in order. */
    ghost predicate Valid()
      reads this, ram, pmm, pmm.bitmap
    {
      Ready() && Tables(View())
    }

    /** Clears one frame, word by word. */
    method ZeroFrame(frame: nat)
      requires ram.Length == RAM_WORDS && frame < MAX_FRAMES
      modifies ram
      ensures ram[..] == Zeroed(old(ram[..]), frame)
    {
      var k := 0;
      while k < TABLE_WORDS
        invariant k <= TABLE_WORDS
        invariant forall a | 0 <= a < RAM_WORDS ::
                    ram[a] == if frame * TABLE_WORDS <= a < frame * TABLE_WORDS + k then 0 else old(ram[a])
      {
        ram[WordAt(frame, k)] := 0;
        k := k + 1;
      }
    }

    /** Takes a frame and clears it. */
    method TakeTable() returns (r: Option<nat>)
      requires Ready()
      modifies ram, pmm`usedBytes, pmm.bitmap
      ensures Ready()
      ensures r.None? <==> old(pmm.Free()) == {}
      ensures r.None? ==> pmm.Free() == {} && ram[..] == old(ram[..])
      ensures r.Some? ==> old(pmm.Free()) != {} && r.value == Lowest(old(pmm.Free())) && r.value != 0
                          && r.value < MAX_FRAMES
                          && pmm.Free() == old(pmm.Free()) - {r.value}
                          && ram[..] == Zeroed(old(ram[..]), r.value)
    {
      var addr := pmm.AllocFrame();
      if addr.None? {
        return None;
      }
      var frame := addr.value / PAGE_SIZE;
      assert frame == Lowest(old(pmm.Free()));
      ZeroFrame(frame);
      return Some(frame);
    }

    /** Makes sure directory slot i has a table. */
    method EnsureTable(i: nat) returns (ok: bool)
      requires Valid() && i < TABLE_WORDS
      modifies ram, pmm`usedBytes, pmm.bitmap
      ensures ok <==> WithTable(old(View()), i).Some?
      ensures !ok ==> pmm.Free() == {}
      ensures ok ==> Valid() && View() == WithTable(old(View()), i).value && Present(Pde(View(), i))
    {
      ghost var m := View();
      if !Present(ram[WordAt(dir, i)]) {
        var table := TakeTable();
        if table.None? {
          return false;
        }
        ram[WordAt(dir, i)] := table.value * PAGE_SIZE + 3;
      }
      assert View() == WithTable(m, i).value;
      WithTableKeeps(m, i);
      return true;
    }

    /** Maps one page; false means out of frames, and the kernel panics. */
    method MapOne(virtual: u32, physical: u32, flags: u32) returns (ok: bool)
      requires Valid()
      modifies ram, pmm`usedBytes, pmm.bitmap
      ensures ok <==> MapPage(old(View()), virtual, physical, flags).Some?
      ensures !ok ==> pmm.Free() == {}
      ensures ok ==> Valid() && View() == MapPage(old(View()), virtual, physical, flags).value
    {
      ghost var m := View();
      var page := virtual / PAGE_SIZE;
      var i, j := page / TABLE_WORDS, page % TABLE_WORDS;
      ok := EnsureTable(i);
      if !ok {
        return false;
      }
      var table := FrameOf(ram[WordAt(dir, i)]);
      assert table == FrameOf(Pde(View(), i));
      ram[WordAt(table, j)] := PteOf(physical, flags);
      MapPageSpace(m, Request(virtual, physical, flags));
      assert View().ram == MapPage(m, virtual, physical, flags).value.ram;
      return true;
    }

    /** The same, told as a change of the address space. */
    method Map(virtual: u32, physical: u32, flags: u32) returns (ok: bool)
      requires Valid()
      modifies ram, pmm`usedBytes, pmm.bitmap
      ensures ok ==> Valid() && dir == old(dir)
      ensures ok ==> Space(View()) == Applied(old(Space(View())), Request(virtual, physical, flags))
      ensures ok ==> pmm.Free() <= old(pmm.Free()) && TablesFrom(old(View()), View())
      ensures !ok ==> pmm.Free() == {}
    {
      ghost var m := View();
      ok := MapOne(virtual, physical, flags);
      if ok {
        MapPageSpace(m, Request(virtual, physical, flags));
      }
    }

    /** Starts an empty address space. */
    method NewDirectory() returns (ok: bool)
      requires Ready()
      modifies this`dir, ram, pmm`usedBytes, pmm.bitmap
      ensures ok <==> old(pmm.Free()) != {}
      ensures !ok ==> pmm.Free() == {}
      ensures ok ==> Valid() && Space(View()) == map[]
    {
      var table := TakeTable();
      if table.None? {
        return false;
      }
      dir := table.value;
      forall i | 0 <= i < TABLE_WORDS
        ensures Pde(View(), i) == 0
      {
        assert WordAt(dir, i) / TABLE_WORDS == dir;
      }
      assert forall f | f in pmm.Free() :: f < MAX_FRAMES;
      EmptyDirectory(View());
      return true;
    }

    /** Maps page k, at addr, to itself. */
    method MapIdentityPage(addr: u32, ghost k: nat) returns (ok: bool)
      requires Valid() && addr == k * PAGE_SIZE && Space(View()) == Identity(k)
      modifies ram, pmm`usedBytes, pmm.bitmap
      ensures !ok ==> pmm.Free() == {}
      ensures ok ==> Valid() && Space(View()) == Identity(k + 1)
    {
      ok := Map(addr, addr, PAGE_WRITABLE);
      IdentityGrows(k, addr);
    }

    /** Sets up the identity mapping of [0, limit), rounded up to whole pages. */
    method InitIdentity(limit: u32) returns (ok: bool)
      requires Ready()
      modifies this`dir, ram, pmm`usedBytes, pmm.bitmap
      ensures !ok ==> pmm.Free() == {}
      ensures ok ==> Valid() && Space(View()) == Identity(PagesBelow(limit))
    {
      ok := NewDirectory();
      if !ok {
        return false;
      }
      var pages := PagesBelow(limit);
      ok := MapIdentityPages(pages * PAGE_SIZE, pages);
    }

    /** Maps the first n pages to themselves. */
    method MapIdentityPages(end: nat, ghost n: nat) returns (ok: bool)
      requires Valid() && Space(View()) == map[] && end == n * PAGE_SIZE < TWO_32
      modifies ram, pmm`usedBytes, pmm.bitmap
      ensures !ok ==> pmm.Free() == {}
      ensures ok ==> Valid() && Space(View()) == Identity(n)
    {
      var addr: nat := 0;
      ghost var k: nat := 0;
      assert Identity(0) == map[];
      while addr < end
        invariant addr == k * PAGE_SIZE && k <= n && Valid()
        invariant Space(View()) == Identity(k)
        decreases n - k
      {
        ok := MapIdentityPage(addr, k);
        if !ok {
          return false;
        }
        addr := addr + PAGE_SIZE;
        k := k + 1;
      }
      return true;
    }

    /** Maps one heap page to a fresh frame. */
    method MapFresh(addr: u32) returns (r: Option<nat>)
      requires Valid()
      modifies ram, pmm`usedBytes, pmm.bitmap
      ensures r.None? ==> pmm.Free() == {}
      ensures r.Some? ==> Valid() && dir == old(dir) && r.value in old(pmm.Free())
      ensures r.Some? ==> pmm.Free() <= old(pmm.Free()) - {r.value}
      ensures r.Some? ==> TablesFrom(old(View()).(free := old(pmm.Free()) - {r.value}), View())
      ensures r.Some? ==> Space(View()) == old(Space(View()))[addr / PAGE_SIZE := Mapping(r.value, 3)]
    {
      ghost var m := View();
      var frame := pmm.AllocFrame();
      if frame.None? {
        return None;
      }
      assert View() == m.(free := m.free - {frame.value / PAGE_SIZE});
      SameSpace(m, View());
      var ok := Map(addr, frame.value, PAGE_WRITABLE);
      if !ok {
        return None;
      }
      return Some(frame.value / PAGE_SIZE);
    }

    /** The next heap page gets a fresh frame. */
    method MapNext(addr: u32, ghost m0: Machine, ghost first: nat, ghost frames: seq<nat>) returns (r: Option<nat>)
      requires Valid() && addr / PAGE_SIZE == first + |frames|
      requires m0.dir < MAX_FRAMES && HeapBacked(m0, View(), first, frames)
      modifies ram, pmm`usedBytes, pmm.bitmap
      ensures r.None? ==> pmm.Free() == {}
      ensures r.Some? ==> Valid() && HeapBacked(m0, View(), first, frames + [r.value])
    {
      ghost var m := View();
      r := MapFresh(addr);
      if r.Some? {
        BackedMore(m0, m, View(), first, frames, r.value);
      }
    }

    /** Backs n pages from start with fresh frames. */
    method MapPages(start: u32, length: nat, ghost n: nat) returns (ok: bool, ghost frames: seq<nat>)
      requires Valid() && length == n * PAGE_SIZE && start + length <= TWO_32
      modifies ram, pmm`usedBytes, pmm.bitmap
      ensures !ok ==> pmm.Free() == {}
      ensures ok ==> Valid() && |frames| == n && HeapBacked(old(View()), View(), start / PAGE_SIZE, frames)
    {
      ghost var (m0, first) := (View(), start / PAGE_SIZE);
      var addr: nat := start;
      frames := [];
      NothingBacked(m0, first);
      while addr < start + length
        invariant addr == start + |frames| * PAGE_SIZE && |frames| <= n && Valid()
        invariant HeapBacked(m0, View(), first, frames)
        decreases n - |frames|
      {
        PagesOn(start, |frames|);
        var frame := MapNext(addr, m0, first, frames);
        if frame.None? {
          return false, frames;
        }
        frames := frames + [frame.value];
        addr := addr + PAGE_SIZE;
      }
      return true, frames;
    }

    /** Backs the pages of the heap with fresh frames. */
    method MapHeap(start: u32, size: u32) returns (ok: bool, ghost frames: seq<nat>)
      requires Valid() && start + size + PAGE_SIZE <= TWO_32
      modifies ram, pmm`usedBytes, pmm.bitmap
      ensures !ok ==> pmm.Free() == {}
      ensures ok ==> Valid() && |frames| == (size + PAGE_SIZE - 1) / PAGE_SIZE
      ensures ok ==> HeapBacked(old(View()), View(), start / PAGE_SIZE, frames)
    {
      var pages := (size + PAGE_SIZE - 1) / PAGE_SIZE;
      ok, frames := MapPages(start, pages * PAGE_SIZE, pages);
    }
  }

  ghost predicate HeapBacked(before: Machine, after: Machine, first: nat, frames: seq<nat>)
    requires before.dir < MAX_FRAMES && after.dir < MAX_FRAMES
  {
    HeapMapped(Space(before), Space(after), first, frames) && FreshFrames(before, after, frames)
  }

  /** Heap page k is backed by frames[k]; every other page is as before. */
  ghost predicate HeapMapped(before: map<nat, Mapping>, after: map<nat, Mapping>, first: nat, frames: seq<nat>) {
    forall q: nat ::
      if first <= q < first + |frames| then q in after && after[q] == Mapping(frames[q - first], 3)
      else (q in after <==> q in before) && (q in before ==> after[q] == before[q])
  }

  lemma HeapMappedMore(before: map<nat, Mapping>, now: map<nat, Mapping>, first: nat, frames: seq<nat>, f: nat)
    requires HeapMapped(before, now, first, frames)
    ensures HeapMapped(before, now[first + |frames| := Mapping(f, 3)], first, frames + [f])
  {
  }

  /** The frames were free, are distinct, belong to nobody else now, and hold no table. */
  ghost predicate FreshFrames(before: Machine, after: Machine, frames: seq<nat>)
    requires after.dir < MAX_FRAMES
  {
    && after.free <= before.free
    && (forall k | 0 <= k < |frames| :: frames[k] in before.free && frames[k] !in after.free)
    && (forall j, k | 0 <= j < k < |frames| :: frames[j] != frames[k])
    && (forall i, k {:trigger Pde(after, i), frames[k]} |
          0 <= i < TABLE_WORDS && Present(Pde(after, i)) && 0 <= k < |frames| :: FrameOf(Pde(after, i)) != frames[k])
  }

  lemma FreshMore(before: Machine, now: Machine, after: Machine, frames: seq<nat>, f: nat)
    requires Tables(now) && after.dir < MAX_FRAMES && FreshFrames(before, now, frames)
    requires f in now.free && after.free <= now.free - {f}
    requires TablesFrom(now.(free := now.free - {f}), after)
    ensures FreshFrames(before, after, frames + [f])
  {
    var m := now.(free := now.free - {f});
    forall i, k | 0 <= i < TABLE_WORDS && Present(Pde(after, i)) && 0 <= k < |frames + [f]|
      ensures FrameOf(Pde(after, i)) != (frames + [f])[k]
    {
      assert Pde(m, i) == Pde(now, i);
    }
  }

  lemma NothingBacked(m: Machine, first: nat)
    requires m.dir < MAX_FRAMES
    ensures HeapBacked(m, m, first, [])
  {
  }

  /** One more heap page on a fresh frame. */
  lemma BackedMore(before: Machine, now: Machine, after: Machine, first: nat, frames: seq<nat>, f: nat)
    requires Tables(now) && Tables(after) && before.dir < MAX_FRAMES && HeapBacked(before, now, first, frames)
    requires f in now.free && after.free <= now.free - {f}
    requires TablesFrom(now.(free := now.free - {f}), after)
    requires Space(after) == Space(now)[first + |frames| := Mapping(f, 3)]
    ensures HeapBacked(before, after, first, frames + [f])
  {
    HeapMappedMore(Space(before), Space(now), first, frames, f);
    FreshMore(before, now, after, frames, f);
  }

  lemma SameSpace(m: Machine, m': Machine)
    requires Tables(m) && m' == m.(free := m'.free) && m'.free <= m.free
    ensures Tables(m') && Space(m') == Space(m)
  {
    assert forall i | 0 <= i < TABLE_WORDS :: Pde(m', i) == Pde(m, i);
    assert forall q: nat | q < PAGES :: Walk(m', q) == Walk(m, q);
  }
}
