/** The physical memory manager: one bit per 4 KiB frame, and byte counters. */
module Pmm {
  import opened Words

  const PAGE_SIZE := 4096
  const MAX_FRAMES := 65536
  const MAX_BYTES := 0x1000_0000
  const BITMAP_BYTES := 8192
  const LOW_FRAMES := 256

  // ---- one byte of the bitmap -----------------------------------------------------

  function Mask(k: nat): bv8
    requires k < 8
  {
    1 << k
  }

  predicate Bit(b: bv8, k: nat)
    requires k < 8
  {
    (b >> k) & 1 == 1
  }

  lemma SetBit(b: bv8, k: nat, j: nat)
    requires k < 8 && j < 8
    ensures Bit(b | Mask(k), j) <==> j == k || Bit(b, j)
  {
  }

  lemma ClearBit(b: bv8, k: nat, j: nat)
    requires k < 8 && j < 8
    ensures Bit(b & !Mask(k), j) <==> j != k && Bit(b, j)
  {
  }

  // ---- the bitmap as a set of frames -------------------------------------------------

  type Bitmap = b: seq<bv8> | |b| == BITMAP_BYTES witness seq(BITMAP_BYTES, _ => 0)

  ghost function UsedFrames(bits: Bitmap): set<nat> {
    set f: nat | f < MAX_FRAMES && Bit(bits[f / 8], f % 8)
  }

  ghost function FreeFrames(bits: Bitmap): set<nat> {
    set f: nat | f < MAX_FRAMES && !Bit(bits[f / 8], f % 8)
  }

  /** Changing the byte that holds frame f to one that differs at most in f's bit. */
  lemma FrameChange(bits: Bitmap, f: nat, byte: bv8, now: bool)
    requires f < MAX_FRAMES
    requires forall j: nat | j < 8 :: Bit(byte, j) <==> if j == f % 8 then now else Bit(bits[f / 8], j)
    ensures var bits' := bits[f / 8 := byte];
            if now then UsedFrames(bits') == UsedFrames(bits) + {f} && FreeFrames(bits') == FreeFrames(bits) - {f}
            else UsedFrames(bits') == UsedFrames(bits) - {f} && FreeFrames(bits') == FreeFrames(bits) + {f}
  {
    var bits' := bits[f / 8 := byte];
    forall g: nat | g < MAX_FRAMES
      ensures Bit(bits'[g / 8], g % 8) <==> if g == f then now else Bit(bits[g / 8], g % 8)
    {
    }
  }

  lemma SetFrame(bits: Bitmap, f: nat)
    requires f < MAX_FRAMES
    ensures var bits' := bits[f / 8 := bits[f / 8] | Mask(f % 8)];
            UsedFrames(bits') == UsedFrames(bits) + {f} && FreeFrames(bits') == FreeFrames(bits) - {f}
  {
    forall j: nat | j < 8 { SetBit(bits[f / 8], f % 8, j); }
    FrameChange(bits, f, bits[f / 8] | Mask(f % 8), true);
  }

  lemma ClearFrame(bits: Bitmap, f: nat)
    requires f < MAX_FRAMES
    ensures var bits' := bits[f / 8 := bits[f / 8] & !Mask(f % 8)];
            UsedFrames(bits') == UsedFrames(bits) - {f} && FreeFrames(bits') == FreeFrames(bits) + {f}
  {
    forall j: nat | j < 8 { ClearBit(bits[f / 8], f % 8, j); }
    FrameChange(bits, f, bits[f / 8] & !Mask(f % 8), false);
  }

  // ---- what initialisation should leave free ------------------------------------------

  datatype Region = Region(base: u32, length: u32)

  function RegionEnd(r: Region): u32 { (r.base + r.length) % TWO_32 }

  /** The frames a region contributes: one for each page that fits into it from its base up,
      below 256 MiB; a region that wraps has none. */
  ghost predicate InRegion(r: Region, f: nat) {
    && r.base < RegionEnd(r) && r.base / PAGE_SIZE <= f
    && r.base + (f - r.base / PAGE_SIZE + 1) * PAGE_SIZE <= Min(RegionEnd(r), MAX_BYTES)
  }

  /** The whole frame lies inside the region and below 256 MiB. */
  ghost predicate Inside(r: Region, f: nat) {
    f < MAX_FRAMES && r.base < RegionEnd(r) && r.base <= f * PAGE_SIZE && (f + 1) * PAGE_SIZE <= RegionEnd(r)
  }

  /** A region contributes exactly the frames inside it if and only if its base is page-aligned
      or no page fits into it. */
  lemma RegionsAligned(r: Region)
    ensures (forall f: nat :: InRegion(r, f) <==> Inside(r, f))
            <==> r.base % PAGE_SIZE == 0 || !InRegion(r, r.base / PAGE_SIZE)
    ensures InRegion(Region(0x10_0800, 0x1000), 256) && !Inside(Region(0x10_0800, 0x1000), 256)
  {
    if r.base % PAGE_SIZE != 0 && InRegion(r, r.base / PAGE_SIZE) {
      assert !Inside(r, r.base / PAGE_SIZE);
    }
  }

  ghost predicate InRegions(rs: seq<Region>, f: nat) {
    exists i :: 0 <= i < |rs| && InRegion(rs[i], f)
  }

  /** Frames that the byte range [start, end) touches. */
  predicate Touches(start: nat, end: nat, f: nat) {
    start / PAGE_SIZE <= f && f * PAGE_SIZE < end
  }

  /** The end of the range is rounded up in 32 bits: past the last page it wraps to nothing. */
  predicate Covered(start: nat, end: nat, f: nat) {
    end + PAGE_SIZE - 1 < TWO_32 && Touches(start, end, f)
  }

  /** Every existing frame the range touches is reserved exactly when rounding its end up does
      not wrap, or the range begins past the last frame. */
  lemma CoversWhatItTouches(start: u32, end: u32)
    requires start < end
    ensures (forall f: nat | f < MAX_FRAMES && Touches(start, end, f) :: Covered(start, end, f))
            <==> end + PAGE_SIZE - 1 < TWO_32 || start >= MAX_BYTES
    ensures Touches(0x10_0000, 0xFFFF_FFFF, 256) && !Covered(0x10_0000, 0xFFFF_FFFF, 256)
  {
    if end + PAGE_SIZE - 1 >= TWO_32 && start < MAX_BYTES {
      assert Touches(start, end, MAX_FRAMES - 1) && !Covered(start, end, MAX_FRAMES - 1);
    }
  }

  /** Rounding both ends outward covers exactly the frames the range touches. */
  lemma RangeCovered(start: u32, end: u32, k: nat)
    requires var last := (end + PAGE_SIZE - 1) % TWO_32 / PAGE_SIZE;
             start / PAGE_SIZE <= k && last <= k && (k == start / PAGE_SIZE || k == last)
    ensures forall f: nat :: Covered(start, end, f) <==> start / PAGE_SIZE <= f < k
  {
  }

  ghost predicate Reserved(kernelStart: nat, kernelEnd: nat, f: nat) {
    f < LOW_FRAMES || Covered(kernelStart, kernelEnd, f)
  }

  /** Reserved are the first MiB and, unless its end wraps when rounded up, every frame that
      holds a byte of the kernel. */
  lemma ReservedMeans(kernelStart: u32, kernelEnd: u32, f: nat)
    requires kernelStart < kernelEnd
    ensures Reserved(kernelStart, kernelEnd, f) <==>
              || 4096 * f < 0x10_0000
              || (kernelEnd + 4095 < TWO_32 && exists a: nat :: kernelStart <= a < kernelEnd && a / 4096 == f)
  {
    if Touches(kernelStart, kernelEnd, f) {
      var a: nat := Max(kernelStart, 4096 * f);
      assert kernelStart <= a < kernelEnd && a / 4096 == f;
    }
  }

  // ---- the byte counters ------------------------------------------------------------------

  /** The frames that regions contributed, those of them that are free, and the two counters. */
  datatype Account = Account(usable: set<nat>, free: set<nat>, total: nat, used: nat)

  /** Each counter is exact, not just their difference. */
  predicate Exact(a: Account) {
    a.free <= a.usable && a.total == PAGE_SIZE * |a.usable| && a.total - a.used == PAGE_SIZE * |a.free|
  }

  /** The used counter counts the usable frames in use. */
  lemma ExactMeans(a: Account)
    ensures Exact(a) <==> a.free <= a.usable && a.total == PAGE_SIZE * |a.usable|
                          && a.used == PAGE_SIZE * |a.usable - a.free|
  {
    if a.free <= a.usable {
      assert a.usable == (a.usable - a.free) + a.free;
    }
  }

  ghost function Opened(regions: seq<Region>, kernelStart: nat, kernelEnd: nat): Account {
    var usable := set f: nat | f < MAX_FRAMES && InRegions(regions, f);
    var free := set f: nat | f < MAX_FRAMES && InRegions(regions, f) && !Reserved(kernelStart, kernelEnd, f);
    Account(usable, free, PAGE_SIZE * |usable|, PAGE_SIZE * |usable - free|)
  }

  /** Giving back frame f: ignored when it does not exist or is free already. */
  function Given(a: Account, f: nat): Account {
    if f >= MAX_FRAMES || f in a.free then a
    else a.(free := a.free + {f}, used := if a.used >= PAGE_SIZE then a.used - PAGE_SIZE else a.used)
  }

  /** The counters stay exact if and only if the frame, when in use, came from a region. */
  lemma GivenExact(a: Account, f: nat)
    requires Exact(a)
    ensures Exact(Given(a, f)) <==> (f < MAX_FRAMES && f !in a.free ==> f in a.usable)
  {
    ExactMeans(a);
    if f < MAX_FRAMES && f !in a.free && f in a.usable {
      assert f in a.usable - a.free;
    }
  }

  lemma TakenExact(a: Account, f: nat)
    requires Exact(a) && f in a.free
    ensures Exact(a.(free := a.free - {f}, used := a.used + PAGE_SIZE))
  {
  }

  /** Two frames at 1 MiB, the first taken by the kernel: giving back frame 0, reserved but in
      no region, uncounts a frame that was never counted. */
  lemma GivenReserved()
    ensures var a := Opened([Region(0x10_0000, 0x2000)], 0x10_0000, 0x10_1000);
            Exact(a) && Given(a, 0).used == a.used - PAGE_SIZE && !Exact(Given(a, 0))
  {
    var regions := [Region(0x10_0000, 0x2000)];
    var a := Opened(regions, 0x10_0000, 0x10_1000);
    assert !InRegion(regions[0], 0);
    assert InRegion(regions[0], 256) && InRegions(regions, 256);
    assert 256 in a.usable - a.free;
    ExactMeans(a);
    GivenExact(a, 0);
  }

  class FrameAllocator {
    const bitmap: array<bv8>
    var totalBytes: nat
    var usedBytes: nat
    /** The frames that usable regions contributed. */
    ghost var usable: set<nat>

    constructor ()
      ensures bitmap.Length == BITMAP_BYTES && fresh(bitmap)
    {
      bitmap := new bv8[BITMAP_BYTES](_ => 0xFF);
      totalBytes, usedBytes, usable := 0, 0, {};
    }

    ghost function Used(): set<nat>
      requires bitmap.Length == BITMAP_BYTES
      reads bitmap
    {
      UsedFrames(bitmap[..])
    }

    ghost function Free(): set<nat>
      requires bitmap.Length == BITMAP_BYTES
      reads bitmap
    {
      FreeFrames(bitmap[..])
    }

    ghost function Books(): Account
      requires bitmap.Length == BITMAP_BYTES
      reads this, bitmap
    {
      Account(usable, Free(), totalBytes, usedBytes)
    }

    /** Both counters tell the truth. */
    ghost predicate Valid()
      reads this, bitmap
    {
      bitmap.Length == BITMAP_BYTES && Exact(Books())
    }

    method BitmapSet(f: nat)
      requires bitmap.Length == BITMAP_BYTES && f < MAX_FRAMES
      modifies bitmap
      ensures Used() == old(Used()) + {f} && Free() == old(Free()) - {f}
    {
      ghost var bits := bitmap[..];
      SetFrame(bits, f);
      var byte := bitmap[f / 8] | Mask(f % 8);
      bitmap[f / 8] := byte;
      assert bitmap[..] == bits[f / 8 := byte];
    }

    method BitmapClear(f: nat)
      requires bitmap.Length == BITMAP_BYTES && f < MAX_FRAMES
      modifies bitmap
      ensures Used() == old(Used()) - {f} && Free() == old(Free()) + {f}
    {
      ghost var bits := bitmap[..];
      ClearFrame(bits, f);
      var byte := bitmap[f / 8] & !Mask(f % 8);
      bitmap[f / 8] := byte;
      assert bitmap[..] == bits[f / 8 := byte];
    }

    predicate BitmapTest(f: nat)
      requires bitmap.Length == BITMAP_BYTES && f < MAX_FRAMES
      reads bitmap
      ensures BitmapTest(f) <==> f in Used()
      ensures BitmapTest(f) <==> f !in Free()
    {
      Bit(bitmap[f / 8], f % 8)
    }

    /** A free frame becomes used, bit and counter. */
    method TakeFrame(frame: nat)
      requires Valid() && frame in Free()
      modifies this`usedBytes, bitmap
      ensures Valid() && Free() == old(Free()) - {frame}
    {
      TakenExact(Books(), frame);
      BitmapSet(frame);
      usedBytes := usedBytes + PAGE_SIZE;
    }

    method ReserveFrame(frame: nat)
      requires Valid()
      modifies this`usedBytes, bitmap
      ensures Valid() && Free() == old(Free()) - {frame}
    {
      if frame < MAX_FRAMES && !BitmapTest(frame) {
        TakeFrame(frame);
      }
    }

    /** Marks every frame the byte range touches as used. */
    method ReserveRange(start: nat, end: nat)
      requires Valid() && start < TWO_32 && end < TWO_32
      modifies this`usedBytes, bitmap
      ensures Valid()
      ensures forall f :: f in Free() <==> f in old(Free()) && !Covered(start, end, f)
    {
      var addr := start / PAGE_SIZE * PAGE_SIZE;
      var last := (end + PAGE_SIZE - 1) % TWO_32 / PAGE_SIZE * PAGE_SIZE;
      ghost var (lo, hi) := (start / PAGE_SIZE, (end + PAGE_SIZE - 1) % TWO_32 / PAGE_SIZE);
      ghost var k: nat := lo;
      while addr < last
        invariant addr == k * PAGE_SIZE && last == hi * PAGE_SIZE && lo <= k && (k <= hi || k == lo) && Valid()
        invariant forall f :: f in Free() <==> f in old(Free()) && !(lo <= f < k)
        decreases hi - k
      {
        ReserveFrame(addr / PAGE_SIZE);
        addr := addr + PAGE_SIZE;
        k := k + 1;
      }
      RangeCovered(start, end, k);
    }

    /** The lowest free frame, or none: the kernel then panics. */
    method AllocFrame() returns (r: Option<nat>)
      requires Valid()
      modifies this`usedBytes, bitmap
      ensures Valid()
      ensures match r
              case Some(addr) =>
                && addr % PAGE_SIZE == 0 && addr / PAGE_SIZE in old(Free())
                && (forall f | f in old(Free()) :: addr / PAGE_SIZE <= f)
                && Free() == old(Free()) - {addr / PAGE_SIZE}
              case None => old(Free()) == {} && Free() == {}
    {
      var frame := 0;
      while frame < MAX_FRAMES
        invariant frame <= MAX_FRAMES && forall f | 0 <= f < frame :: f !in Free()
        invariant Books() == old(Books())
      {
        if !BitmapTest(frame) {
          TakeFrame(frame);
          return Some(frame * PAGE_SIZE);
        }
        frame := frame + 1;
      }
      return None;
    }

    /** Gives a frame back; an address beyond memory or already free changes nothing. The
        counters stay exact unless the frame is a reserved one that no region contributed. */
    method FreeFrame(addr: nat)
      requires Valid()
      modifies this`usedBytes, bitmap
      ensures Books() == Given(old(Books()), addr / PAGE_SIZE)
      ensures Valid() <==> (addr / PAGE_SIZE in old(Used()) ==> addr / PAGE_SIZE in usable)
      ensures Free() == if addr / PAGE_SIZE < MAX_FRAMES then old(Free()) + {addr / PAGE_SIZE} else old(Free())
    {
      var frame := addr / PAGE_SIZE;
      GivenExact(Books(), frame);
      if frame >= MAX_FRAMES {
        return;
      }
      if BitmapTest(frame) {
        BitmapClear(frame);
        if usedBytes >= PAGE_SIZE {
          usedBytes := usedBytes - PAGE_SIZE;
        }
      }
    }

    method ReleaseFrame(frame: nat)
      requires Valid() && frame < MAX_FRAMES && usable == Free()
      modifies this`totalBytes, this`usable, bitmap
      ensures Valid() && usable == Free() == old(Free()) + {frame}
    {
      if BitmapTest(frame) {
        BitmapClear(frame);
        totalBytes := totalBytes + PAGE_SIZE;
        usable := usable + {frame};
      }
    }

    /** Frees the whole frames of one usable region. */
    method ReleaseRegion(r: Region)
      requires Valid() && usable == Free()
      modifies this`totalBytes, this`usable, bitmap
      ensures Valid() && usable == Free() && forall f :: f in Free() <==> f in old(Free()) || InRegion(r, f)
    {
      var base, end := r.base, RegionEnd(r);
      if end <= base {
        return;
      }
      if base >= MAX_BYTES {
        return;
      }
      if end > MAX_BYTES {
        end := MAX_BYTES;
      }
      var addr: nat := base;
      ghost var (lo, k) := (base / PAGE_SIZE, base / PAGE_SIZE);
      while addr + PAGE_SIZE <= end
        invariant addr == base + (k - lo) * PAGE_SIZE && lo <= k && Valid() && usable == Free()
        invariant k > lo ==> addr <= end
        invariant forall f :: f in Free() <==> f in old(Free()) || lo <= f < k
      {
        ReleaseFrame(addr / PAGE_SIZE);
        addr := addr + PAGE_SIZE;
        k := k + 1;
      }
      assert forall f: nat :: InRegion(r, f) <==> lo <= f < k;
    }

    /** Every frame used, nothing counted. */
    method MarkAllUsed()
      requires bitmap.Length == BITMAP_BYTES
      modifies this, bitmap
      ensures Valid() && usable == Free() == {}
    {
      var b := 0;
      while b < BITMAP_BYTES
        invariant b <= BITMAP_BYTES && forall j | 0 <= j < b :: bitmap[j] == 0xFF
      {
        bitmap[b] := 0xFF;
        b := b + 1;
      }
      totalBytes, usedBytes, usable := 0, 0, {};
      AllOnes(bitmap[..]);
    }

    method ReleaseRegions(regions: seq<Region>)
      requires Valid() && usable == Free() == {}
      modifies this`totalBytes, this`usable, bitmap
      ensures Valid() && usable == Free() && forall f :: f in Free() <==> InRegions(regions, f)
    {
      var i := 0;
      while i < |regions|
        invariant i <= |regions| && Valid() && usable == Free()
        invariant forall f :: f in Free() <==> InRegions(regions[..i], f)
      {
        ReleaseRegion(regions[i]);
        RegionsGrow(regions, i);
        i := i + 1;
      }
      assert regions[..i] == regions;
    }

    /** Marks everything used, frees the usable regions, then reserves low memory and
        the kernel image. False means no usable memory: the kernel panics. */
    method Init(regions: seq<Region>, kernelStart: u32, kernelEnd: u32) returns (ok: bool)
      requires bitmap.Length == BITMAP_BYTES
      modifies this, bitmap
      ensures Valid() && Books() == Opened(regions, kernelStart, kernelEnd)
      ensures forall f :: f in Free() <==> InRegions(regions, f) && !Reserved(kernelStart, kernelEnd, f)
      ensures ok <==> exists f: nat :: InRegions(regions, f)
    {
      MarkAllUsed();
      ReleaseRegions(regions);
      ReserveRange(0, LOW_FRAMES * PAGE_SIZE);
      ReserveRange(kernelStart, kernelEnd);
      ReserveRange(0x4F00, 0x6000);
      OpenedIs(Books(), regions, kernelStart, kernelEnd);
      return totalBytes != 0;
    }
  }

  lemma OpenedIs(a: Account, regions: seq<Region>, kernelStart: nat, kernelEnd: nat)
    requires Exact(a) && forall f :: f in a.usable <==> InRegions(regions, f)
    requires forall f :: f in a.free <==> InRegions(regions, f) && !Reserved(kernelStart, kernelEnd, f)
    ensures a == Opened(regions, kernelStart, kernelEnd)
    ensures a.total != 0 <==> exists f: nat :: InRegions(regions, f)
  {
    var o := Opened(regions, kernelStart, kernelEnd);
    ExactMeans(a);
    assert a.usable == o.usable && a.free == o.free;
    if f: nat :| InRegions(regions, f) {
      assert f in a.usable;
    }
  }

  lemma AllOnes(bits: Bitmap)
    requires forall j | 0 <= j < BITMAP_BYTES :: bits[j] == 0xFF
    ensures FreeFrames(bits) == {}
  {
    forall f: nat | f < MAX_FRAMES
      ensures Bit(bits[f / 8], f % 8)
    {
      AllOnesBit(f % 8);
    }
  }

  lemma AllOnesBit(k: nat)
    requires k < 8
    ensures Bit(0xFF, k)
  {
  }

  lemma RegionsGrow(rs: seq<Region>, i: nat)
    requires i < |rs|
    ensures forall f: nat :: InRegions(rs[..i + 1], f) <==> InRegions(rs[..i], f) || InRegion(rs[i], f)
  {
    forall f: nat
      ensures InRegions(rs[..i + 1], f) <==> InRegions(rs[..i], f) || InRegion(rs[i], f)
    {
      if InRegions(rs[..i], f) {
        var j :| 0 <= j < i && InRegion(rs[..i][j], f);
        assert InRegion(rs[..i + 1][j], f);
      }
      if InRegion(rs[i], f) {
        assert InRegion(rs[..i + 1][i], f);
      }
      if InRegions(rs[..i + 1], f) {
        var j :| 0 <= j < i + 1 && InRegion(rs[..i + 1][j], f);
        assert j < i ==> InRegion(rs[..i][j], f);
      }
    }
  }
}
