/** What an ELF file's program headers mean, and the loader's checks on them. */
module ElfImage {
  import opened Words

  const EHDR := 52
  const PHDR := 32
  const PT_LOAD := 1
  const IMAGE_LIMIT := 0x10_0000
  const NO_VADDR := 0xFFFF_FFFF

  datatype Phdr = Phdr(typ: u32, offset: u32, vaddr: u32, filesz: u32, memsz: u32)

  datatype Error =
    | MissingPath | Unreadable | TooSmall | NotElf | Unsupported | WrongMachine | BadTable
    | BadSegment | NothingToLoad | TooLarge | OutOfMemory | BadEntry

  function Half(f: seq<u8>, i: nat): u16
    requires i + 2 <= |f|
  {
    Pair(f[i + 1], f[i])
  }

  function Word(f: seq<u8>, i: nat): u32
    requires i + 4 <= |f|
  {
    FromLe32(f[i..i + 4])
  }

  function EntryPoint(f: seq<u8>): u32 requires EHDR <= |f| { Word(f, 24) }
  function Phoff(f: seq<u8>): u32 requires EHDR <= |f| { Word(f, 28) }
  function Phnum(f: seq<u8>): u16 requires EHDR <= |f| { Half(f, 44) }

  /** The whole program header table lies in the file. */
  predicate TableInside(f: seq<u8>) {
    EHDR <= |f| && Phoff(f) + PHDR * Phnum(f) <= |f|
  }

  function PhdrAt(f: seq<u8>, at: nat): Phdr
    requires at + PHDR <= |f|
  {
    Phdr(Word(f, at), Word(f, at + 4), Word(f, at + 8), Word(f, at + 16), Word(f, at + 20))
  }

  function Segments(f: seq<u8>): (r: seq<Phdr>)
    requires TableInside(f)
    ensures |r| == Phnum(f)
  {
    seq(Phnum(f), i requires 0 <= i < Phnum(f) => PhdrAt(f, Phoff(f) + PHDR * i))
  }

  // ---- files as the specification lays them out ----------------------------------------------

  function Le16(x: u16): (b: seq<u8>)
    ensures |b| == 2
  {
    [x % 256, x / 256]
  }

  /** The ELF header's fields that matter here (TIS ELF specification 1.2, book I). */
  datatype Ehdr = Ehdr(ident: seq<u8>, typ: u16, machine: u16, entry: u32, phoff: u32, phentsize: u16, phnum: u16)

  /** version and shoff, flags and ehsize, and the section header fields may be anything. */
  function EhdrBytes(h: Ehdr, version: u32, shoff: u32, flags: u32, ehsize: u16, sections: seq<u8>): (b: seq<u8>)
    requires |h.ident| == 16 && |sections| == 6
    ensures |b| == EHDR
  {
    h.ident + Le16(h.typ) + Le16(h.machine) + Le32(version) + Le32(h.entry) + Le32(h.phoff) + Le32(shoff) + Le32(flags)
    + Le16(ehsize) + Le16(h.phentsize) + Le16(h.phnum) + sections
  }

  /** A program header in the order of its fields; the loader skips paddr, flags and align. */
  function PhdrBytes(p: Phdr, paddr: u32, flags: u32, align: u32): (b: seq<u8>)
    ensures |b| == PHDR
  {
    Le32(p.typ) + Le32(p.offset) + Le32(p.vaddr) + Le32(paddr) + Le32(p.filesz) + Le32(p.memsz) + Le32(flags) + Le32(align)
  }

  lemma WordIs(f: seq<u8>, i: nat, x: u32)
    requires i + 4 <= |f| && f[i..i + 4] == Le32(x)
    ensures Word(f, i) == x
  {
    Le32RoundTrip(x);
  }

  lemma HalfIs(f: seq<u8>, i: nat, x: u16)
    requires i + 2 <= |f| && f[i..i + 2] == Le16(x)
    ensures Half(f, i) == x
  {
    var b := f[i..i + 2];
    assert b[0] == f[i] && b[1] == f[i + 1];
  }

  lemma WordInside(f: seq<u8>, at: nat, b: seq<u8>, i: nat, x: u32)
    requires at + |b| <= |f| && f[at..at + |b|] == b && i + 4 <= |b| && b[i..i + 4] == Le32(x)
    ensures Word(f, at + i) == x
  {
    FieldInside(f, at, b, i, i + 4);
    WordIs(f, at + i, x);
  }

  /** A program header is read as it was laid out. */
  lemma PhdrDecoded(f: seq<u8>, at: nat, p: Phdr, paddr: u32, flags: u32, align: u32)
    requires at + 32 <= |f| && f[at..at + 32] == PhdrBytes(p, paddr, flags, align)
    ensures PhdrAt(f, at) == p
  {
    var b := PhdrBytes(p, paddr, flags, align);
    assert b[0..4] == Le32(p.typ) && b[4..8] == Le32(p.offset) && b[8..12] == Le32(p.vaddr);
    assert b[16..20] == Le32(p.filesz) && b[20..24] == Le32(p.memsz);
    WordInside(f, at, b, 0, p.typ);
    WordInside(f, at, b, 4, p.offset);
    WordInside(f, at, b, 8, p.vaddr);
    WordInside(f, at, b, 16, p.filesz);
    WordInside(f, at, b, 20, p.memsz);
  }

  predicate Loaded(p: Phdr) {
    p.typ == PT_LOAD && p.memsz != 0
  }

  // ---- the meaning of the program headers ---------------------------------------------------

  /** Segment p takes the byte at address a from the file. */
  predicate FromFile(p: Phdr, a: int) {
    Loaded(p) && p.vaddr <= a < p.vaddr + p.filesz
  }

  /** All file bytes of loaded segments exist. */
  ghost predicate DataInside(size: nat, segs: seq<Phdr>) {
    forall i | 0 <= i < |segs| && Loaded(segs[i]) :: segs[i].offset + segs[i].filesz <= size
  }

  /** The byte the first n segments put at address a: the last one wins. */
  ghost function ByteAt(f: seq<u8>, segs: seq<Phdr>, n: nat, a: int): u8
    requires DataInside(|f|, segs) && n <= |segs|
  {
    if n == 0 then 0
    else if FromFile(segs[n - 1], a) then f[segs[n - 1].offset + (a - segs[n - 1].vaddr)]
    else ByteAt(f, segs, n - 1, a)
  }

  ghost function ImageOf(f: seq<u8>, segs: seq<Phdr>, lo: nat, hi: nat): (r: seq<u8>)
    requires DataInside(|f|, segs) && lo <= hi
    ensures |r| == hi - lo
    ensures forall k | 0 <= k < hi - lo :: r[k] == ByteAt(f, segs, |segs|, lo + k)
    decreases hi
  {
    if lo == hi then [] else ImageOf(f, segs, lo, hi - 1) + [ByteAt(f, segs, |segs|, hi - 1)]
  }

  /** Address a holds segment i's file byte when no later segment has one for it. */
  lemma {:induction false} LastWins(f: seq<u8>, segs: seq<Phdr>, n: nat, i: nat, a: int)
    requires DataInside(|f|, segs) && i < n <= |segs| && FromFile(segs[i], a)
    requires forall j | i < j < n :: !FromFile(segs[j], a)
    ensures ByteAt(f, segs, n, a) == f[segs[i].offset + (a - segs[i].vaddr)]
  {
    if i < n - 1 {
      LastWins(f, segs, n - 1, i, a);
    }
  }

  /** Addresses no segment has a file byte for hold zero. */
  lemma {:induction false} ZeroElsewhere(f: seq<u8>, segs: seq<Phdr>, n: nat, a: int)
    requires DataInside(|f|, segs) && n <= |segs|
    requires forall j | 0 <= j < n :: !FromFile(segs[j], a)
    ensures ByteAt(f, segs, n, a) == 0
  {
    if n > 0 {
      ZeroElsewhere(f, segs, n - 1, a);
    }
  }

  /** Segment p as the ABI describes it: its file bytes, then zeros up to its size in memory. */
  function SegmentByte(f: seq<u8>, p: Phdr, k: nat): u8
    requires p.offset + p.filesz <= |f|
  {
    if k < p.filesz then f[p.offset + k] else 0
  }

  /** Where no other segment has a file byte, the image holds what the ABI says. */
  lemma SegmentInImage(f: seq<u8>, segs: seq<Phdr>, lo: nat, hi: nat, i: nat, k: nat)
    requires DataInside(|f|, segs) && i < |segs| && Loaded(segs[i]) && k < segs[i].memsz
    requires segs[i].filesz <= segs[i].memsz
    requires lo <= segs[i].vaddr && segs[i].vaddr + segs[i].memsz <= hi
    requires forall j | 0 <= j < |segs| :: j != i ==> !FromFile(segs[j], segs[i].vaddr + k)
    ensures ImageOf(f, segs, lo, hi)[segs[i].vaddr - lo + k] == SegmentByte(f, segs[i], k)
  {
    var a := segs[i].vaddr + k;
    assert a == lo + (segs[i].vaddr - lo + k);
    if k < segs[i].filesz {
      LastWins(f, segs, |segs|, i, a);
    } else {
      assert !FromFile(segs[i], a);
      ZeroElsewhere(f, segs, |segs|, a);
    }
  }

  // ---- the loader's checks, on 32-bit sums ----------------------------------------------------

  /** The header checks, in their order. */
  function HeaderError(f: seq<u8>): Option<Error> {
    if |f| < EHDR then Some(TooSmall)
    else if Word(f, 0) != 0x464C457F then Some(NotElf)
    else if f[4] != 1 || f[5] != 1 || f[6] != 1 then Some(Unsupported)
    else if Half(f, 16) != 2 || Half(f, 18) != 3 then Some(WrongMachine)
    else if Half(f, 42) != PHDR || (Phoff(f) + PHDR * Phnum(f)) % TWO_32 > |f| then Some(BadTable)
    else None
  }

  /** The end of the program header table is a 32-bit number. */
  predicate TableSumFits(f: seq<u8>) {
    EHDR <= |f| ==> Phoff(f) + PHDR * Phnum(f) < TWO_32
  }

  /** A header accepted lies in the file exactly when the end of its table does not wrap. */
  lemma HeaderAccepts(f: seq<u8>)
    requires HeaderError(f).None? && |f| < TWO_32
    ensures TableInside(f) <==> TableSumFits(f)
    ensures f[..7] == [0x7F, 0x45, 0x4C, 0x46, 1, 1, 1]
  {
    var w := f[0..4];
    Le32Onto(w);
    assert w == [0x7F, 0x45, 0x4C, 0x46];
  }

  /** What the checks ask of a header: an i386 executable, 32 bits, little-endian, version 1,
      with a table of 32-byte entries that ends, modulo 2^32, inside the file. */
  predicate Acceptable(h: Ehdr, size: nat)
    requires |h.ident| == 16
  {
    && h.ident[..7] == [0x7F, 0x45, 0x4C, 0x46, 1, 1, 1]
    && h.typ == 2 && h.machine == 3 && h.phentsize == 32 && (h.phoff + 32 * h.phnum) % TWO_32 <= size
  }

  /** The whole table is read as it was laid out, entry after entry. */
  lemma SegmentsDecoded(f: seq<u8>, ps: seq<Phdr>, rest: seq<(u32, u32, u32)>)
    requires TableInside(f) && |ps| == |rest| == Phnum(f)
    requires forall i {:trigger ps[i]} | 0 <= i < |ps| ::
               f[Phoff(f) + 32 * i..Phoff(f) + 32 * i + 32] == PhdrBytes(ps[i], rest[i].0, rest[i].1, rest[i].2)
    ensures Segments(f) == ps
  {
    forall i | 0 <= i < |ps|
      ensures Segments(f)[i] == ps[i]
    {
      PhdrDecoded(f, Phoff(f) + 32 * i, ps[i], rest[i].0, rest[i].1, rest[i].2);
    }
  }

  /** A file's fields are those of the header it begins with. */
  predicate ReadAs(f: seq<u8>, h: Ehdr)
    requires |h.ident| == 16
  {
    && |f| >= EHDR && f[..16] == h.ident && Half(f, 16) == h.typ && Half(f, 18) == h.machine
    && EntryPoint(f) == h.entry && Phoff(f) == h.phoff && Half(f, 42) == h.phentsize && Phnum(f) == h.phnum
  }

  lemma EhdrDecoded(f: seq<u8>, h: Ehdr, version: u32, shoff: u32, flags: u32, ehsize: u16, sections: seq<u8>)
    requires |h.ident| == 16 && |sections| == 6 && |f| >= 52
    requires f[..52] == EhdrBytes(h, version, shoff, flags, ehsize, sections)
    ensures ReadAs(f, h)
  {
    var b := f[..52];
    EhdrFields(h, version, shoff, flags, ehsize, sections);
    assert f[0..52] == b;
    FieldInside(f, 0, b, 0, 16);
    FieldInside(f, 0, b, 16, 18);
    FieldInside(f, 0, b, 18, 20);
    FieldInside(f, 0, b, 42, 44);
    FieldInside(f, 0, b, 44, 46);
    HalfIs(f, 16, h.typ);
    HalfIs(f, 18, h.machine);
    WordInside(f, 0, b, 24, h.entry);
    WordInside(f, 0, b, 28, h.phoff);
    HalfIs(f, 42, h.phentsize);
    HalfIs(f, 44, h.phnum);
  }

  lemma EhdrFields(h: Ehdr, version: u32, shoff: u32, flags: u32, ehsize: u16, sections: seq<u8>)
    requires |h.ident| == 16 && |sections| == 6
    ensures var b := EhdrBytes(h, version, shoff, flags, ehsize, sections);
            && b[..16] == h.ident && b[16..18] == Le16(h.typ) && b[18..20] == Le16(h.machine)
            && b[24..28] == Le32(h.entry) && b[28..32] == Le32(h.phoff)
            && b[42..44] == Le16(h.phentsize) && b[44..46] == Le16(h.phnum)
  {
  }

  /** A file that begins with a header is accepted exactly when the header is acceptable. */
  lemma AcceptedMeans(f: seq<u8>, h: Ehdr)
    requires |h.ident| == 16 && ReadAs(f, h)
    ensures HeaderError(f).None? <==> Acceptable(h, |f|)
  {
    var w := f[0..4];
    Le32Onto(w);
    ByteOrder(0x7F, 0x45, 0x4C, 0x46);
    assert Le32(0x464C457F) == [0x7F, 0x45, 0x4C, 0x46];
    Le32RoundTrip(0x464C457F);
    assert h.ident[..7] == w + [f[4], f[5], f[6]];
    assert w == h.ident[..7][..4];
    var ours := [0x7F, 0x45, 0x4C, 0x46, 1, 1, 1];
    assert ours[..4] == [0x7F, 0x45, 0x4C, 0x46] && ours[4] == ours[5] == ours[6] == 1;
  }

  /** An ELF header of 52 bytes whose one-entry table would end exactly at 2^32. */
  function WrappedHeader(): (f: seq<u8>)
    ensures |f| == EHDR
  {
    [0x7F, 0x45, 0x4C, 0x46, 1, 1, 1, 0, 0, 0, 0, 0, 0, 0, 0, 0]
    + [2, 0, 3, 0, 1, 0, 0, 0]
    + [0, 0, 0, 0, 0xE0, 0xFF, 0xFF, 0xFF, 0, 0, 0, 0, 0, 0, 0, 0]
    + [52, 0, 32, 0, 1, 0, 0, 0, 0, 0, 0, 0]
  }

  /** The checks accept it, though its table is not in the file. */
  lemma WrappedTableAccepted()
    ensures HeaderError(WrappedHeader()) == None
    ensures !TableSumFits(WrappedHeader()) && !TableInside(WrappedHeader())
  {
    var f := WrappedHeader();
    assert f[0..4] == [0x7F, 0x45, 0x4C, 0x46];
    assert f[28..32] == [0xE0, 0xFF, 0xFF, 0xFF];
    assert Half(f, 44) == 1 && Half(f, 42) == 32;
  }

  predicate SegmentOk(size: nat, p: Phdr) {
    (p.offset + p.filesz) % TWO_32 <= size && p.filesz <= p.memsz
  }

  function EndOf(p: Phdr): u32 {
    (p.vaddr + p.memsz) % TWO_32
  }

  /** Lowest start and highest end of the loaded segments from i on; None when one is refused. */
  function Scan(size: nat, segs: seq<Phdr>, i: nat, lo: u32, hi: u32): Option<(u32, u32)>
    requires i <= |segs|
    decreases |segs| - i
  {
    if i == |segs| then Some((lo, hi))
    else if !Loaded(segs[i]) then Scan(size, segs, i + 1, lo, hi)
    else if !SegmentOk(size, segs[i]) then None
    else Scan(size, segs, i + 1, Min(lo, segs[i].vaddr), Max(hi, EndOf(segs[i])))
  }

  function Bounds(size: nat, segs: seq<Phdr>): Option<(u32, u32)> {
    Scan(size, segs, 0, NO_VADDR, 0)
  }

  /** The scan's results are bounds, and each is attained or still as it began. */
  ghost predicate Tight(size: nat, segs: seq<Phdr>, i: nat, lo: u32, hi: u32, lo': u32, hi': u32) {
    && lo' <= lo && hi <= hi'
    && (forall j | i <= j < |segs| && Loaded(segs[j]) ::
          SegmentOk(size, segs[j]) && lo' <= segs[j].vaddr && EndOf(segs[j]) <= hi')
    && (lo' == lo || exists j :: i <= j < |segs| && Loaded(segs[j]) && segs[j].vaddr == lo')
    && (hi' == hi || exists j :: i <= j < |segs| && Loaded(segs[j]) && EndOf(segs[j]) == hi')
  }

  lemma {:induction false} ScanMeaning(size: nat, segs: seq<Phdr>, i: nat, lo: u32, hi: u32)
    requires i <= |segs|
    ensures match Scan(size, segs, i, lo, hi)
            case Some((lo', hi')) => Tight(size, segs, i, lo, hi, lo', hi')
            case None => exists j :: i <= j < |segs| && Loaded(segs[j]) && !SegmentOk(size, segs[j])
    decreases |segs| - i
  {
    if i < |segs| {
      if !Loaded(segs[i]) {
        ScanMeaning(size, segs, i + 1, lo, hi);
      } else if SegmentOk(size, segs[i]) {
        ScanMeaning(size, segs, i + 1, Min(lo, segs[i].vaddr), Max(hi, EndOf(segs[i])));
      }
    }
  }

  /** Ends of file data and of segments are 32-bit numbers. */
  ghost predicate SegmentSumsFit(segs: seq<Phdr>) {
    forall i | 0 <= i < |segs| && Loaded(segs[i]) ::
      segs[i].offset + segs[i].filesz < TWO_32 && segs[i].vaddr + segs[i].memsz < TWO_32
  }

  /** Each loaded segment has its data in the file and its addresses in [lo, hi). */
  ghost predicate AllInside(size: nat, segs: seq<Phdr>, lo: u32, hi: u32) {
    && DataInside(size, segs)
    && forall i | 0 <= i < |segs| && Loaded(segs[i]) :: lo <= segs[i].vaddr && segs[i].vaddr + segs[i].memsz <= hi
  }

  /** The checks keep all data and addresses inside exactly when the headers' sums do not wrap. */
  lemma InsideIffSumsFit(size: u32, segs: seq<Phdr>)
    requires Bounds(size, segs).Some?
    ensures var (lo, hi) := Bounds(size, segs).value;
            AllInside(size, segs, lo, hi) <==> SegmentSumsFit(segs)
  {
    ScanMeaning(size, segs, 0, NO_VADDR, 0);
  }

  /** Everything but the entry point, which is checked after the image is built. */
  function LayoutError(size: nat, segs: seq<Phdr>): Option<Error> {
    match Bounds(size, segs)
    case None => Some(BadSegment)
    case Some((lo, hi)) =>
      if lo == NO_VADDR || hi <= lo then Some(NothingToLoad)
      else if hi - lo > IMAGE_LIMIT then Some(TooLarge)
      else None
  }

  /** The segment's data is in the file and fits its size in memory. */
  predicate WellFormed(size: nat, p: Phdr) {
    p.offset + p.filesz <= size && p.filesz <= p.memsz
  }

  /** With sums that fit, a segment is refused exactly when it is malformed, and otherwise
      "nothing to load" means just that. */
  lemma RefusedMeans(size: u32, segs: seq<Phdr>)
    requires SegmentSumsFit(segs)
    ensures LayoutError(size, segs) == Some(BadSegment) <==>
              exists i :: 0 <= i < |segs| && Loaded(segs[i])
                          && !WellFormed(size, segs[i])
    ensures LayoutError(size, segs) == Some(NothingToLoad) <==> forall i | 0 <= i < |segs| :: !Loaded(segs[i])
  {
    ScanMeaning(size, segs, 0, NO_VADDR, 0);
  }

  /** From the start of p to the end of q it is no more than 1 MiB. */
  predicate Near(p: Phdr, q: Phdr) {
    q.vaddr + q.memsz - p.vaddr <= 0x10_0000
  }

  /** With sums that fit and a segment to load, the bounds are attained by two of them. */
  lemma BoundsAttained(size: u32, segs: seq<Phdr>, k: nat) returns (i: nat, j: nat)
    requires SegmentSumsFit(segs) && k < |segs| && Loaded(segs[k]) && Bounds(size, segs).Some?
    ensures i < |segs| && j < |segs| && Loaded(segs[i]) && Loaded(segs[j])
    ensures Bounds(size, segs).value == (segs[i].vaddr, segs[j].vaddr + segs[j].memsz)
    ensures LayoutError(size, segs).None? <==> Near(segs[i], segs[j])
  {
    ScanMeaning(size, segs, 0, NO_VADDR, 0);
    var (lo, hi) := Bounds(size, segs).value;
    i, j := TightAttained(size, segs, k, lo, hi);
  }

  lemma TightAttained(size: u32, segs: seq<Phdr>, k: nat, lo: u32, hi: u32) returns (i: nat, j: nat)
    requires k < |segs| && Loaded(segs[k]) && segs[k].vaddr + segs[k].memsz < TWO_32
    requires Tight(size, segs, 0, NO_VADDR, 0, lo, hi)
    ensures i < |segs| && Loaded(segs[i]) && segs[i].vaddr == lo < NO_VADDR
    ensures j < |segs| && Loaded(segs[j]) && EndOf(segs[j]) == hi > lo
  {
    assert lo <= segs[k].vaddr < EndOf(segs[k]) <= hi;
    i :| 0 <= i < |segs| && Loaded(segs[i]) && segs[i].vaddr == lo;
    j :| 0 <= j < |segs| && Loaded(segs[j]) && EndOf(segs[j]) == hi;
  }

  /** With sums that fit, the segments are accepted exactly when there is one to load, all are
      well formed, and no two of them reach more than 1 MiB apart. */
  lemma AcceptedLayout(size: u32, segs: seq<Phdr>)
    requires SegmentSumsFit(segs)
    ensures LayoutError(size, segs).None? <==>
              && (exists i :: 0 <= i < |segs| && Loaded(segs[i]))
              && (forall i | 0 <= i < |segs| && Loaded(segs[i]) :: WellFormed(size, segs[i]))
              && forall i, j | 0 <= i < |segs| && 0 <= j < |segs| && Loaded(segs[i]) && Loaded(segs[j]) ::
                   Near(segs[i], segs[j])
  {
    RefusedMeans(size, segs);
    if k :| 0 <= k < |segs| && Loaded(segs[k]) && Bounds(size, segs).Some? {
      var i, j := BoundsAttained(size, segs, k);
      var (lo, hi) := Bounds(size, segs).value;
      InsideIffSumsFit(size, segs);
      assert AllInside(size, segs, lo, hi);
    }
  }

  /** When a segment's end wraps, the bounds that come out do not contain it. */
  lemma WrappedEndAccepted()
    ensures var segs := [Phdr(PT_LOAD, 0, 0x1000, 0, 0x1000), Phdr(PT_LOAD, 0, 0xFFFF_F000, 8, 0x2000)];
            && LayoutError(64, segs) == None && Bounds(64, segs) == Some((0x1000, 0x2000))
            && !AllInside(64, segs, 0x1000, 0x2000)
  {
    var segs := [Phdr(PT_LOAD, 0, 0x1000, 0, 0x1000), Phdr(PT_LOAD, 0, 0xFFFF_F000, 8, 0x2000)];
    assert Scan(64, segs, 2, 0x1000, 0x2000) == Some((0x1000, 0x2000));
    assert Scan(64, segs, 1, 0x1000, 0x2000) == Some((0x1000, 0x2000));
    assert !SegmentSumsFit(segs) by {
      assert Loaded(segs[1]);
    }
    InsideIffSumsFit(64, segs);
  }
}
