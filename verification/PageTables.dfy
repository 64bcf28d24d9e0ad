/** Two-level 32-bit paging: what the hardware walk finds in the directory and
    tables, and how mapping one page changes it. */
module PageTables {
  import opened Words
  import opened Pmm

  const TABLE_WORDS := 1024
  const RAM_WORDS := 67108864
  const PAGES := 1048576
  const PAGE_WRITABLE: u32 := 2

  type Ram = r: seq<u32> | |r| == RAM_WORDS witness seq(RAM_WORDS, _ => 0)

  /** Physical memory as words, the frames the PMM would hand out, and the directory frame. */
  datatype Machine = Machine(ram: Ram, free: set<nat>, dir: nat)

  datatype Mapping = Mapping(frame: nat, flags: nat)

  function WordAt(frame: nat, k: nat): nat { frame * TABLE_WORDS + k }

  predicate Present(e: u32) { e % 2 == 1 }
  function FrameOf(e: u32): nat { e / PAGE_SIZE }
  function FlagsOf(e: u32): nat { e % PAGE_SIZE }

  function Pde(m: Machine, i: nat): u32
    requires m.dir < MAX_FRAMES && i < TABLE_WORDS
  {
    m.ram[WordAt(m.dir, i)]
  }

  /** The hardware walk of Intel SDM vol. 3A section 4.3: directory, then table. */
  function Walk(m: Machine, page: nat): Option<Mapping>
    requires m.dir < MAX_FRAMES && page < PAGES
  {
    var pde := Pde(m, page / TABLE_WORDS);
    if !Present(pde) || FrameOf(pde) >= MAX_FRAMES then None
    else
      var pte := m.ram[WordAt(FrameOf(pde), page % TABLE_WORDS)];
      if !Present(pte) then None else Some(Mapping(FrameOf(pte), FlagsOf(pte)))
  }

  /** Directory and tables are distinct frames in memory that the PMM no longer owns. */
  ghost predicate Tables(m: Machine) {
    && 0 < m.dir < MAX_FRAMES && m.dir !in m.free && 0 !in m.free
    && (forall f | f in m.free :: f < MAX_FRAMES)
    && (forall i {:trigger Pde(m, i)} | 0 <= i < TABLE_WORDS && Present(Pde(m, i)) ::
          var t := FrameOf(Pde(m, i)); t < MAX_FRAMES && t !in m.free && t != m.dir)
    && (forall i, j {:trigger Pde(m, i), Pde(m, j)} |
          0 <= i < j < TABLE_WORDS && Present(Pde(m, i)) && Present(Pde(m, j)) ::
          FrameOf(Pde(m, i)) != FrameOf(Pde(m, j)))
  }

  lemma {:induction false} HasLowest(s: set<nat>, n: nat)
    requires n in s
    ensures exists f :: f in s && forall g | g in s :: f <= g
    decreases n
  {
    if g :| g in s && g < n {
      HasLowest(s, g);
    } else {
      assert forall g | g in s :: n <= g;
    }
  }

  ghost function Lowest(s: set<nat>): (f: nat)
    requires s != {}
    ensures f in s && forall g | g in s :: f <= g
  {
    var n :| n in s;
    HasLowest(s, n);
    var f :| f in s && forall g | g in s :: f <= g;
    f
  }

  // ---- mapping one page ----------------------------------------------------------

  function Zeroed(ram: Ram, frame: nat): Ram {
    seq(RAM_WORDS, a requires 0 <= a < RAM_WORDS => if a / TABLE_WORDS == frame then 0 else ram[a])
  }

  /** A present, writable table frame in directory slot i, allocated if need be. */
  ghost function WithTable(m: Machine, i: nat): Option<Machine>
    requires Tables(m) && i < TABLE_WORDS
  {
    if Present(Pde(m, i)) then Some(m)
    else if m.free == {} then None
    else
      Some(NewTable(m, i, Lowest(m.free)))
  }

  function PteOf(physical: u32, flags: u32): u32 {
    physical / PAGE_SIZE * PAGE_SIZE + FlagBits(flags)
  }

  /** The low twelve flag bits with "present" set. */
  function FlagBits(flags: u32): (r: nat)
    ensures r < PAGE_SIZE && r % 2 == 1
  {
    var f: int := flags;
    f % PAGE_SIZE + 1 - f % 2
  }

  /** "Present" is set, the other eleven flag bits are the caller's, all higher bits are dropped. */
  lemma FlagBitsMean(flags: u32)
    ensures FlagBits(flags) % 2 == 1 && FlagBits(flags) / 2 == flags / 2 % 2048
  {
    var f: int := flags;
    assert f % 4096 / 2 == f / 2 % 2048;
  }

  /** The walk in the words of memory: for page 1024 * d + t, word d of the directory, then word
      t of the table it names; the low bit of each says whether it is present. */
  lemma WalkInWords(m: Machine, d: nat, t: nat)
    requires m.dir < MAX_FRAMES && d < 1024 && t < 1024
    ensures var pde: int := m.ram[1024 * m.dir + d];
            && (pde % 2 == 0 || pde / 4096 >= MAX_FRAMES ==> Walk(m, 1024 * d + t) == None)
            && (pde % 2 == 1 && pde / 4096 < MAX_FRAMES ==>
                  var pte: int := m.ram[1024 * (pde / 4096) + t];
                  Walk(m, 1024 * d + t) == if pte % 2 == 0 then None else Some(Mapping(pte / 4096, pte % 4096)))
  {
    assert (1024 * d + t) / 1024 == d && (1024 * d + t) % 1024 == t;
  }

  ghost function MapPage(m: Machine, virtual: u32, physical: u32, flags: u32): Option<Machine>
    requires Tables(m)
  {
    var page := virtual / PAGE_SIZE;
    var t := WithTable(m, page / TABLE_WORDS);
    if t.None? then None
    else
      assert WithTable(m, page / TABLE_WORDS).Some?;
      WithTableKeeps(m, page / TABLE_WORDS);
      var table := FrameOf(Pde(t.value, page / TABLE_WORDS));
      Some(t.value.(ram := t.value.ram[WordAt(table, page % TABLE_WORDS) := PteOf(physical, flags)]))
  }

  /** The machine after free frame f has become the table of directory slot i. */
  function NewTable(m: Machine, i: nat, f: nat): Machine
    requires m.dir < MAX_FRAMES && f < MAX_FRAMES && i < TABLE_WORDS
  {
    m.(ram := Zeroed(m.ram, f)[WordAt(m.dir, i) := f * PAGE_SIZE + 3], free := m.free - {f})
  }

  lemma WordOf(frame: nat, j: nat)
    requires j < TABLE_WORDS
    ensures WordAt(frame, j) / TABLE_WORDS == frame && WordAt(frame, j) % TABLE_WORDS == j
  {
  }

  lemma NewTablePdes(m: Machine, i: nat, f: nat)
    requires m.dir < MAX_FRAMES && f < MAX_FRAMES && i < TABLE_WORDS && f != m.dir
    ensures forall j | 0 <= j < TABLE_WORDS ::
              Pde(NewTable(m, i, f), j) == if j == i then f * PAGE_SIZE + 3 else Pde(m, j)
    ensures FrameOf(f * PAGE_SIZE + 3) == f && Present(f * PAGE_SIZE + 3)
  {
    forall j | 0 <= j < TABLE_WORDS
      ensures Pde(NewTable(m, i, f), j) == if j == i then f * PAGE_SIZE + 3 else Pde(m, j)
    {
      WordOf(m.dir, j);
      WordOf(m.dir, i);
    }
    PteFields(f, 3);
  }

  lemma NewTableTables(m: Machine, i: nat, f: nat)
    requires Tables(m) && i < TABLE_WORDS && f in m.free && !Present(Pde(m, i))
    ensures Tables(NewTable(m, i, f))
  {
    NewTablePdes(m, i, f);
  }

  lemma NewTableWalk(m: Machine, i: nat, f: nat, q: nat)
    requires Tables(m) && i < TABLE_WORDS && f in m.free && !Present(Pde(m, i)) && q < PAGES
    ensures Walk(NewTable(m, i, f), q) == Walk(m, q)
  {
    NewTablePdes(m, i, f);
    var j := q / TABLE_WORDS;
    if j == i {
      assert WordAt(f, q % TABLE_WORDS) / TABLE_WORDS == f;
    } else if Present(Pde(m, j)) {
      var g := FrameOf(Pde(m, j));
      assert WordAt(g, q % TABLE_WORDS) / TABLE_WORDS == g;
    }
  }

  /** Tables are only added, and only in frames that were free. */
  ghost predicate TablesFrom(m: Machine, m': Machine)
    requires m.dir < MAX_FRAMES && m'.dir < MAX_FRAMES
  {
    forall j {:trigger Pde(m', j)} | 0 <= j < TABLE_WORDS && Present(Pde(m', j)) ::
      Pde(m', j) == Pde(m, j) || FrameOf(Pde(m', j)) in m.free
  }

  lemma WithTableKeeps(m: Machine, i: nat)
    requires Tables(m) && i < TABLE_WORDS && WithTable(m, i).Some?
    ensures var t := WithTable(m, i).value;
            && Tables(t) && t.dir == m.dir && t.free <= m.free && Present(Pde(t, i)) && TablesFrom(m, t)
            && forall q: nat | q < PAGES :: Walk(t, q) == Walk(m, q)
  {
    if !Present(Pde(m, i)) {
      var f := Lowest(m.free);
      NewTablePdes(m, i, f);
      NewTableTables(m, i, f);
      forall q: nat | q < PAGES
        ensures Walk(NewTable(m, i, f), q) == Walk(m, q)
      {
        NewTableWalk(m, i, f, q);
      }
    }
  }

  /** Mapping fails exactly when a table is missing and no frame is left for it. A missing table
      takes the lowest free frame and is entered as present and writable; nothing else changes
      in the directory, and no frame is taken for a table that is there. */
  lemma MapPageFrames(m: Machine, virtual: u32, physical: u32, flags: u32)
    requires Tables(m)
    ensures var (slot, r) := (virtual / 4194304, MapPage(m, virtual, physical, flags));
            var missing := m.ram[1024 * m.dir + slot] % 2 == 0;
            && (r.None? <==> missing && m.free == {})
            && (r.Some? ==>
                  && r.value.dir == m.dir && r.value.free == (if missing then m.free - {Lowest(m.free)} else m.free)
                  && forall i | 0 <= i < 1024 ::
                       Pde(r.value, i) == if missing && i == slot then 4096 * Lowest(m.free) + 3 else Pde(m, i))
  {
    var slot := virtual / 4194304;
    assert virtual / PAGE_SIZE / TABLE_WORDS == slot;
    assert Pde(m, slot) == m.ram[1024 * m.dir + slot];
    if MapPage(m, virtual, physical, flags).Some? {
      WithTableKeeps(m, slot);
      if !Present(Pde(m, slot)) {
        NewTablePdes(m, slot, Lowest(m.free));
      }
    }
  }

  /** Mapping changes the walk at exactly one page. */
  lemma MapPageWalk(m: Machine, virtual: u32, physical: u32, flags: u32)
    requires Tables(m) && MapPage(m, virtual, physical, flags).Some?
    ensures var m' := MapPage(m, virtual, physical, flags).value;
            && Tables(m') && m'.dir == m.dir && m'.free <= m.free && TablesFrom(m, m')
            && forall q: nat | q < PAGES ::
                 Walk(m', q) == if q == virtual / PAGE_SIZE
                                then Some(Mapping(physical / PAGE_SIZE, FlagBits(flags)))
                                else Walk(m, q)
  {
    var page := virtual / PAGE_SIZE;
    var i := page / TABLE_WORDS;
    WithTableKeeps(m, i);
    var t := WithTable(m, i).value;
    var m' := MapPage(m, virtual, physical, flags).value;
    var table := FrameOf(Pde(t, i));
    forall j | 0 <= j < TABLE_WORDS
      ensures Pde(m', j) == Pde(t, j)
    {
    }
    assert Present(PteOf(physical, flags)) && FrameOf(PteOf(physical, flags)) == physical / PAGE_SIZE
           && FlagsOf(PteOf(physical, flags)) == FlagBits(flags) by {
      PteFields(physical / PAGE_SIZE, FlagBits(flags));
    }
    forall q: nat | q < PAGES
      ensures q != page ==> Walk(m', q) == Walk(t, q)
    {
      var j := q / TABLE_WORDS;
      if Present(Pde(t, j)) && q != page {
        assert j != i ==> FrameOf(Pde(t, j)) != table;
        assert WordAt(FrameOf(Pde(t, j)), q % TABLE_WORDS) != WordAt(table, page % TABLE_WORDS);
      }
    }
  }

  lemma PteFields(frame: nat, flags: nat)
    requires flags < PAGE_SIZE && flags % 2 == 1
    ensures var e := frame * PAGE_SIZE + flags;
            e / PAGE_SIZE == frame && e % PAGE_SIZE == flags && e % 2 == 1
  {
  }

  /** A cleared directory maps nothing. */
  lemma EmptyDirectory(m: Machine)
    requires 0 < m.dir < MAX_FRAMES && m.dir !in m.free && 0 !in m.free && forall f | f in m.free :: f < MAX_FRAMES
    requires forall i | 0 <= i < TABLE_WORDS :: Pde(m, i) == 0
    ensures Tables(m) && Space(m) == map[]
  {
  }

  // ---- sequences of mappings -------------------------------------------------------

  datatype Request = Request(virtual: u32, physical: u32, flags: u32)

  /** The address space as a plain map from page to frame and flags. */
  ghost function Space(m: Machine): map<nat, Mapping>
    requires m.dir < MAX_FRAMES
  {
    map q: nat | q < PAGES && Walk(m, q).Some? :: Walk(m, q).value
  }

  function Applied(space: map<nat, Mapping>, r: Request): map<nat, Mapping> {
    space[r.virtual / PAGE_SIZE := Mapping(r.physical / PAGE_SIZE, FlagBits(r.flags))]
  }

  lemma SpaceUpdated(m: Machine, m': Machine, page: nat, to: Mapping)
    requires m.dir < MAX_FRAMES && m'.dir < MAX_FRAMES && page < PAGES
    requires forall q: nat | q < PAGES :: Walk(m', q) == if q == page then Some(to) else Walk(m, q)
    ensures Space(m') == Space(m)[page := to]
  {
  }

  lemma MapPageSpace(m: Machine, r: Request)
    requires Tables(m) && MapPage(m, r.virtual, r.physical, r.flags).Some?
    ensures var m' := MapPage(m, r.virtual, r.physical, r.flags).value;
            && Tables(m') && m'.free <= m.free && TablesFrom(m, m')
            && Space(m') == Applied(Space(m), r)
  {
    MapPageWalk(m, r.virtual, r.physical, r.flags);
    SpaceUpdated(m, MapPage(m, r.virtual, r.physical, r.flags).value, r.virtual / PAGE_SIZE,
                 Mapping(r.physical / PAGE_SIZE, FlagBits(r.flags)));
  }

  /** The first n pages mapped to themselves, present and writable. */
  function Identity(n: nat): map<nat, Mapping> {
    map q: nat | q < n :: Mapping(q, 3)
  }

  lemma IdentityGrows(k: nat, addr: u32)
    requires addr == k * PAGE_SIZE
    ensures Applied(Identity(k), Request(addr, addr, PAGE_WRITABLE)) == Identity(k + 1)
  {
    assert FlagBits(PAGE_WRITABLE) == 3;
  }

  function Replay(space: map<nat, Mapping>, rs: seq<Request>): map<nat, Mapping>
    decreases |rs|
  {
    if rs == [] then space else Replay(Applied(space, rs[0]), rs[1..])
  }

  /** Mapping requests in order; None when frames run out and the kernel panics. */
  ghost function MapAll(m: Machine, rs: seq<Request>): Option<Machine>
    requires Tables(m)
    decreases |rs|
  {
    if rs == [] then Some(m)
    else
      var m' := MapPage(m, rs[0].virtual, rs[0].physical, rs[0].flags);
      if m'.None? then None
      else
        assert m'.Some?;
        MapPageSpace(m, rs[0]);
        MapAll(m'.value, rs[1..])
  }

  /** After any sequence of mappings the hardware walk equals the plain map. */
  lemma {:induction false} MapAllSpace(m: Machine, rs: seq<Request>)
    requires Tables(m) && MapAll(m, rs).Some?
    ensures Tables(MapAll(m, rs).value) && Space(MapAll(m, rs).value) == Replay(Space(m), rs)
    decreases |rs|
  {
    if rs != [] {
      MapPageSpace(m, rs[0]);
      MapAllSpace(MapPage(m, rs[0].virtual, rs[0].physical, rs[0].flags).value, rs[1..]);
    }
  }
}
