/** The kernel heap as a list of blocks: first fit, splitting, and merging of free neighbours. */
module HeapBlocks {
  import opened Words

  const HEADER := 12
  const HEAP_ALIGN := 8

  /** A block at offset `at` of the arena: a header, then `size` payload bytes. */
  datatype Block = Block(at: nat, size: nat, free: bool)

  function End(b: Block): nat { b.at + HEADER + b.size }

  /** The blocks cover [from, to) without gap or overlap, on 4-byte boundaries. */
  ghost predicate Tiles(bs: seq<Block>, from: nat, to: nat)
    decreases |bs|
  {
    if bs == [] then from == to
    else bs[0].at == from && bs[0].at % 4 == 0 && bs[0].size % 4 == 0 && Tiles(bs[1..], End(bs[0]), to)
  }

  ghost predicate NoFreeNeighbours(bs: seq<Block>) {
    forall i | 0 <= i < |bs| - 1 :: !(bs[i].free && bs[i + 1].free)
  }

  lemma {:induction false} TilesConcat(a: seq<Block>, b: seq<Block>, from: nat, mid: nat, to: nat)
    requires Tiles(a, from, mid) && Tiles(b, mid, to)
    ensures Tiles(a + b, from, to)
    decreases |a|
  {
    if a == [] {
      assert a + b == b;
    } else {
      assert (a + b)[1..] == a[1..] + b;
      TilesConcat(a[1..], b, End(a[0]), mid, to);
    }
  }

  /** Where the i-th block starts, and what lies on either side of it. */
  lemma {:induction false} TilesSplit(bs: seq<Block>, from: nat, to: nat, i: nat)
    requires Tiles(bs, from, to) && i < |bs|
    ensures Tiles(bs[..i], from, bs[i].at) && Tiles(bs[i..], bs[i].at, to)
    ensures from <= bs[i].at && bs[i].at % 4 == 0 && bs[i].size % 4 == 0 && End(bs[i]) <= to
    decreases i
  {
    if i == 0 {
      TilesBound(bs[1..], End(bs[0]), to);
    } else {
      TilesSplit(bs[1..], End(bs[0]), to, i - 1);
      assert bs[..i][1..] == bs[1..][..i - 1];
      assert bs[1..][i - 1..] == bs[i..];
    }
  }

  lemma {:induction false} TilesBound(bs: seq<Block>, from: nat, to: nat)
    requires Tiles(bs, from, to)
    ensures from <= to && (bs != [] ==> from + HEADER <= to)
    decreases |bs|
  {
    if bs != [] {
      TilesBound(bs[1..], End(bs[0]), to);
    }
  }

  /** Blocks lie in list order, so payloads and headers never overlap. */
  lemma TilesOrdered(bs: seq<Block>, from: nat, to: nat, i: nat, j: nat)
    requires Tiles(bs, from, to) && i < j < |bs|
    ensures End(bs[i]) <= bs[j].at
  {
    TilesSplit(bs, from, to, i);
    assert bs[i..][1..] == bs[i + 1..];
    assert bs[i + 1..][j - i - 1] == bs[j];
    TilesSplit(bs[i + 1..], End(bs[i]), to, j - i - 1);
  }

  // ---- allocation ---------------------------------------------------------------------

  /** Rounding up in 32 bits: the last few sizes wrap to 0. */
  function AlignUp(n: u32): nat { (n + HEAP_ALIGN - 1) % TWO_32 / HEAP_ALIGN * HEAP_ALIGN }

  /** The request that is served is at least the one made exactly when rounding does not wrap. */
  lemma AlignUpCovers(n: u32)
    ensures AlignUp(n) >= n <==> n + HEAP_ALIGN - 1 < TWO_32
    ensures AlignUp(n) % 4 == 0 && AlignUp(0xFFFF_FFFF) == 0
  {
    var units: int := (n + HEAP_ALIGN - 1) % TWO_32 / HEAP_ALIGN;
    assert AlignUp(n) == 4 * (2 * units);
    FourTimes(2 * units);
  }

  /** Where rounding does not wrap it gives the next multiple of 8 and no more. */
  lemma AlignUpIsTight(n: u32)
    requires n + HEAP_ALIGN - 1 < TWO_32
    ensures n <= AlignUp(n) < n + 8 && AlignUp(n) % 8 == 0
  {
  }

  lemma FourTimes(x: int)
    ensures 4 * x % 4 == 0
  {
  }

  predicate Fits(b: Block, size: nat) { b.free && b.size >= size }

  function FirstFit(bs: seq<Block>, size: nat, i: nat): (r: Option<nat>)
    requires i <= |bs|
    ensures r.Some? ==> i <= r.value < |bs| && Fits(bs[r.value], size)
    ensures r.Some? ==> forall j | i <= j < r.value :: !Fits(bs[j], size)
    ensures r.None? ==> forall j | i <= j < |bs| :: !Fits(bs[j], size)
    decreases |bs| - i
  {
    if i == |bs| then None else if Fits(bs[i], size) then Some(i) else FirstFit(bs, size, i + 1)
  }

  /** What replaces a free block that is handed out: itself, or itself cut in two. */
  function Taken(b: Block, size: nat): seq<Block>
    requires b.size >= size
  {
    if b.size - size > HEADER + HEAP_ALIGN then
      [Block(b.at, size, false), Block(b.at + HEADER + size, b.size - size - HEADER, true)]
    else [b.(free := false)]
  }

  /** The block handed out exceeds the request by at most a header and 8 bytes, starts where
      the free block did, and what is cut off it is free, fills the rest and is no sliver. */
  lemma TakenIsTight(b: Block, size: nat)
    requires b.size >= size
    ensures var t := Taken(b, size);
            && 1 <= |t| <= 2 && t[0].at == b.at && !t[0].free
            && size <= t[0].size <= size + HEADER + HEAP_ALIGN
            && (|t| == 2 ==> t[1].free && t[0].size == size && t[1].size > HEAP_ALIGN && t[1].at == End(t[0]) && End(t[1]) == End(b))
            && (|t| == 1 ==> End(t[0]) == End(b))
  {
  }

  function Allocated(bs: seq<Block>, k: nat, size: nat): seq<Block>
    requires k < |bs| && bs[k].size >= size
  {
    bs[..k] + Taken(bs[k], size) + bs[k + 1..]
  }

  lemma TakenTiles(b: Block, size: nat)
    requires b.size >= size && b.at % 4 == 0 && b.size % 4 == 0 && size % 4 == 0
    ensures Tiles(Taken(b, size), b.at, End(b))
  {
    var taken := Taken(b, size);
    if |taken| == 2 {
      assert taken[1..] == [taken[1]] && taken[1..][1..] == [];
    } else {
      assert taken[1..] == [];
    }
  }

  lemma AllocatedTiles(bs: seq<Block>, from: nat, to: nat, k: nat, size: nat)
    requires Tiles(bs, from, to) && k < |bs| && Fits(bs[k], size) && size % 4 == 0
    ensures Tiles(Allocated(bs, k, size), from, to)
  {
    TilesSplit(bs, from, to, k);
    var b, taken := bs[k], Taken(bs[k], size);
    assert bs[k..][1..] == bs[k + 1..];
    TakenTiles(b, size);
    TilesConcat(bs[..k], taken, from, b.at, End(b));
    TilesConcat(bs[..k] + taken, bs[k + 1..], from, End(b), to);
  }

  lemma AllocatedNeighbours(bs: seq<Block>, k: nat, size: nat)
    requires NoFreeNeighbours(bs) && k < |bs| && Fits(bs[k], size)
    ensures NoFreeNeighbours(Allocated(bs, k, size))
  {
    var r, n := Allocated(bs, k, size), |Taken(bs[k], size)|;
    forall i | 0 <= i < |r| - 1
      ensures !(r[i].free && r[i + 1].free)
    {
      if i + 1 < k {
        assert r[i] == bs[i] && r[i + 1] == bs[i + 1];
      } else if i >= k + n {
        assert r[i] == bs[i - n + 1] && r[i + 1] == bs[i - n + 2];
      } else if i == k + n - 1 && i + 1 < |r| {
        assert r[i + 1] == bs[k + 1];
      }
    }
  }

  /** Other blocks in use stay; one new block of at least the requested size appears. */
  lemma AllocatedLive(bs: seq<Block>, k: nat, size: nat, b: Block)
    requires k < |bs| && Fits(bs[k], size) && !b.free
    ensures b in Allocated(bs, k, size) <==> b in bs || b == Taken(bs[k], size)[0]
    ensures Taken(bs[k], size)[0].at == bs[k].at && Taken(bs[k], size)[0].size >= size
  {
    assert bs == bs[..k] + [bs[k]] + bs[k + 1..];
    assert Taken(bs[k], size)[0] in Taken(bs[k], size);
  }

  /** Total payload if blocks i to j were merged into one. */
  function Room(bs: seq<Block>, i: nat, j: nat): int
    requires i <= j < |bs|
  {
    End(bs[j]) - bs[i].at - HEADER
  }

  ghost predicate FreeRun(bs: seq<Block>, i: nat, j: nat) {
    i <= j < |bs| && forall k | i <= k <= j :: bs[k].free
  }

  /** With no free neighbours, an allocation fails only when no run of free memory could hold it. */
  lemma FailsOnlyWhenFull(bs: seq<Block>, size: nat)
    requires NoFreeNeighbours(bs)
    ensures FirstFit(bs, size, 0).None? <==> forall i: nat, j: nat | FreeRun(bs, i, j) :: Room(bs, i, j) < size
  {
    if FirstFit(bs, size, 0).None? {
      forall i: nat, j: nat | FreeRun(bs, i, j)
        ensures Room(bs, i, j) < size
      {
        assert i < |bs| - 1 ==> !(bs[i].free && bs[i + 1].free);
        assert bs[i].free && !Fits(bs[i], size);
      }
    } else {
      var k := FirstFit(bs, size, 0).value;
      assert FreeRun(bs, k, k) && Room(bs, k, k) >= size;
    }
  }

  // ---- freeing --------------------------------------------------------------------------

  function Joined(a: Block, b: Block): Block {
    a.(size := a.size + HEADER + b.size)
  }

  /** The list with blocks k and k + 1 joined. */
  function JoinedAt(bs: seq<Block>, k: nat): (c: seq<Block>)
    requires k + 1 < |bs|
    ensures |c| == |bs| - 1
    ensures forall j | 0 <= j < |c| ::
              c[j] == if j < k then bs[j] else if j == k then Joined(bs[k], bs[k + 1]) else bs[j + 1]
  {
    bs[..k] + [Joined(bs[k], bs[k + 1])] + bs[k + 2..]
  }

  /** One sweep from the left that merges every free block into a free left neighbour. */
  function Merged(bs: seq<Block>): seq<Block>
    decreases |bs|
  {
    if |bs| < 2 then bs
    else if bs[0].free && bs[1].free then Merged([Joined(bs[0], bs[1])] + bs[2..])
    else [bs[0]] + Merged(bs[1..])
  }

  lemma {:induction false} MergedTiles(bs: seq<Block>, from: nat, to: nat)
    requires Tiles(bs, from, to)
    ensures Tiles(Merged(bs), from, to)
    decreases |bs|
  {
    if |bs| >= 2 {
      if bs[0].free && bs[1].free {
        var c := [Joined(bs[0], bs[1])] + bs[2..];
        assert c[1..] == bs[1..][1..];
        MergedTiles(c, from, to);
      } else {
        MergedTiles(bs[1..], End(bs[0]), to);
        assert Merged(bs)[1..] == Merged(bs[1..]);
      }
    }
  }

  lemma {:induction false} MergedNeighbours(bs: seq<Block>)
    ensures NoFreeNeighbours(Merged(bs))
    ensures bs != [] ==> Merged(bs) != [] && Merged(bs)[0].free == bs[0].free
    decreases |bs|
  {
    if |bs| >= 2 {
      if bs[0].free && bs[1].free {
        MergedNeighbours([Joined(bs[0], bs[1])] + bs[2..]);
      } else {
        MergedNeighbours(bs[1..]);
      }
    }
  }

  /** Blocks in use survive the sweep, and no others appear. */
  lemma {:induction false} MergedLive(bs: seq<Block>, b: Block)
    requires !b.free
    ensures b in Merged(bs) <==> b in bs
    decreases |bs|
  {
    if |bs| >= 2 {
      if bs[0].free && bs[1].free {
        var c := [Joined(bs[0], bs[1])] + bs[2..];
        MergedLive(c, b);
        assert bs == [bs[0], bs[1]] + bs[2..];
      } else {
        MergedLive(bs[1..], b);
        assert bs == [bs[0]] + bs[1..];
      }
    }
  }

  /** The list after the block at index k has been freed. */
  function Freed(bs: seq<Block>, k: nat): seq<Block>
    requires k < |bs|
  {
    Merged(bs[k := bs[k].(free := true)])
  }

  lemma {:induction false} UpdateTiles(bs: seq<Block>, from: nat, to: nat, k: nat, free: bool)
    requires Tiles(bs, from, to) && k < |bs|
    ensures Tiles(bs[k := bs[k].(free := free)], from, to)
    decreases k
  {
    if k > 0 {
      UpdateTiles(bs[1..], End(bs[0]), to, k - 1, free);
      assert bs[k := bs[k].(free := free)][1..] == bs[1..][k - 1 := bs[k].(free := free)];
    } else {
      assert bs[0 := bs[0].(free := free)][1..] == bs[1..];
    }
  }

  // ---- whole runs --------------------------------------------------------------------------

  datatype Op = Malloc(size: u32) | Free(at: nat)

  /** The list of blocks is in order for an arena of `total` bytes. */
  ghost predicate InOrder(bs: seq<Block>, total: nat) {
    bs != [] && Tiles(bs, 0, total) && NoFreeNeighbours(bs)
  }

  /** Index of the block in use at offset `at`. */
  ghost predicate LiveAt(bs: seq<Block>, at: nat, k: nat) {
    k < |bs| && bs[k].at == at && !bs[k].free
  }

  /** Only blocks in use are freed. */
  ghost predicate Legal(bs: seq<Block>, op: Op) {
    op.Free? ==> exists k: nat :: LiveAt(bs, op.at, k)
  }

  ghost function Step(bs: seq<Block>, op: Op): seq<Block>
    requires Legal(bs, op)
  {
    match op
    case Malloc(size) =>
      if size == 0 || FirstFit(bs, AlignUp(size), 0).None? then bs
      else Allocated(bs, FirstFit(bs, AlignUp(size), 0).value, AlignUp(size))
    case Free(at) =>
      var k: nat :| LiveAt(bs, at, k);
      Freed(bs, k)
  }

  lemma FreedInOrder(bs: seq<Block>, total: nat, k: nat)
    requires InOrder(bs, total) && k < |bs|
    ensures InOrder(Freed(bs, k), total)
  {
    var c := bs[k := bs[k].(free := true)];
    UpdateTiles(bs, 0, total, k, true);
    MergedTiles(c, 0, total);
    MergedNeighbours(c);
  }

  lemma AllocatedInOrder(bs: seq<Block>, total: nat, k: nat, size: nat)
    requires InOrder(bs, total) && k < |bs| && Fits(bs[k], size) && size % 4 == 0
    ensures InOrder(Allocated(bs, k, size), total)
  {
    AllocatedTiles(bs, 0, total, k, size);
    AllocatedNeighbours(bs, k, size);
  }

  lemma ServedInOrder(bs: seq<Block>, total: nat, need: nat)
    requires InOrder(bs, total) && need % 4 == 0
    ensures var k := FirstFit(bs, need, 0); k.Some? ==> InOrder(Allocated(bs, k.value, need), total)
  {
    var k := FirstFit(bs, need, 0);
    if k.Some? {
      AllocatedInOrder(bs, total, k.value, need);
    }
  }

  lemma StepInOrder(bs: seq<Block>, total: nat, op: Op)
    requires InOrder(bs, total) && Legal(bs, op)
    ensures InOrder(Step(bs, op), total)
  {
    match op
    case Malloc(size) =>
      AlignUpCovers(size);
      ServedInOrder(bs, total, AlignUp(size));
    case Free(at) =>
      var k: nat :| LiveAt(bs, at, k) && Step(bs, op) == Freed(bs, k);
      FreedInOrder(bs, total, k);
  }

  ghost predicate LegalRun(bs: seq<Block>, ops: seq<Op>)
    decreases |ops|
  {
    ops == [] || (Legal(bs, ops[0]) && LegalRun(Step(bs, ops[0]), ops[1..]))
  }

  ghost function Run(bs: seq<Block>, ops: seq<Op>): seq<Block>
    requires LegalRun(bs, ops)
    decreases |ops|
  {
    if ops == [] then bs else Run(Step(bs, ops[0]), ops[1..])
  }

  lemma {:induction false} RunInOrder(bs: seq<Block>, total: nat, ops: seq<Op>)
    requires InOrder(bs, total) && LegalRun(bs, ops)
    ensures InOrder(Run(bs, ops), total)
    decreases |ops|
  {
    if ops != [] {
      StepInOrder(bs, total, ops[0]);
      RunInOrder(Step(bs, ops[0]), total, ops[1..]);
    }
  }

  ghost predicate AllFree(bs: seq<Block>) {
    forall i | 0 <= i < |bs| :: bs[i].free
  }

  lemma NotAllFree(bs: seq<Block>)
    requires |bs| >= 2 && NoFreeNeighbours(bs)
    ensures !AllFree(bs)
  {
    assert !(bs[0].free && bs[0 + 1].free);
  }

  /** Once nothing is in use, whatever the order of frees, the heap is one block again. */
  lemma EmptyHeapIsOneBlock(total: nat, ops: seq<Op>)
    requires total % 4 == 0 && total >= HEADER
    requires LegalRun([Block(0, total - HEADER, true)], ops)
    requires AllFree(Run([Block(0, total - HEADER, true)], ops))
    ensures Run([Block(0, total - HEADER, true)], ops) == [Block(0, total - HEADER, true)]
  {
    var start := [Block(0, total - HEADER, true)];
    assert Tiles(start[1..], total, total);
    RunInOrder(start, total, ops);
    var bs := Run(start, ops);
    if |bs| >= 2 {
      NotAllFree(bs);
    }
    assert bs == [bs[0]] && bs[1..] == [];
    assert Tiles(bs[1..], End(bs[0]), total);
  }

  /** After any run, payloads are 4-byte aligned, inside the arena and pairwise disjoint. */
  lemma RunPayloads(bs: seq<Block>, total: nat, ops: seq<Op>, i: nat, j: nat)
    requires InOrder(bs, total) && LegalRun(bs, ops) && i < j < |Run(bs, ops)|
    ensures var r := Run(bs, ops);
            && (r[i].at + HEADER) % 4 == 0 && (r[j].at + HEADER) % 4 == 0
            && End(r[i]) <= r[j].at && End(r[j]) <= total
  {
    RunInOrder(bs, total, ops);
    var r := Run(bs, ops);
    TilesSplit(r, 0, total, i);
    TilesSplit(r, 0, total, j);
    TilesOrdered(r, 0, total, i, j);
  }

  function UsedBytes(bs: seq<Block>): nat
    decreases |bs|
  {
    if bs == [] then 0 else (if bs[0].free then 0 else bs[0].size) + UsedBytes(bs[1..])
  }

  function FreeBytes(bs: seq<Block>): nat
    decreases |bs|
  {
    if bs == [] then 0 else (if bs[0].free then bs[0].size else 0) + FreeBytes(bs[1..])
  }

  lemma {:induction false} BytesConcat(a: seq<Block>, b: seq<Block>)
    ensures UsedBytes(a + b) == UsedBytes(a) + UsedBytes(b)
    ensures FreeBytes(a + b) == FreeBytes(a) + FreeBytes(b)
    decreases |a|
  {
    if a == [] {
      assert a + b == b;
    } else {
      assert (a + b)[1..] == a[1..] + b;
      BytesConcat(a[1..], b);
    }
  }

  lemma BytesOfOne(b: Block)
    ensures UsedBytes([b]) == (if b.free then 0 else b.size) && FreeBytes([b]) == if b.free then b.size else 0
  {
    assert [b][1..] == [];
  }

  /** The bytes in use and free, block k apart. */
  lemma BytesAround(bs: seq<Block>, k: nat)
    requires k < |bs|
    ensures var b := bs[k];
            && UsedBytes(bs) == UsedBytes(bs[..k]) + (if b.free then 0 else b.size) + UsedBytes(bs[k + 1..])
            && FreeBytes(bs) == FreeBytes(bs[..k]) + (if b.free then b.size else 0) + FreeBytes(bs[k + 1..])
  {
    assert bs == bs[..k] + [bs[k]] + bs[k + 1..];
    BytesOfOne(bs[k]);
    BytesConcat(bs[..k], [bs[k]]);
    BytesConcat(bs[..k] + [bs[k]], bs[k + 1..]);
  }

  lemma BytesOfTaken(b: Block, size: nat)
    requires b.size >= size && b.free
    ensures var t := Taken(b, size);
            && UsedBytes(t) == t[0].size
            && b.size - (size + HEADER + HEAP_ALIGN) <= FreeBytes(t) <= b.size - size
  {
    var t := Taken(b, size);
    BytesOfOne(t[0]);
    if |t| == 2 {
      BytesOfOne(t[1]);
      BytesConcat([t[0]], [t[1]]);
      assert t == [t[0]] + [t[1]];
    }
  }

  /** An allocation puts the new block to use and costs at most 20 bytes beyond the request. */
  lemma AllocatedBytes(bs: seq<Block>, k: nat, size: nat)
    requires k < |bs| && Fits(bs[k], size)
    ensures var r := Allocated(bs, k, size);
            && UsedBytes(r) == UsedBytes(bs) + Taken(bs[k], size)[0].size
            && FreeBytes(bs) - (size + HEADER + HEAP_ALIGN) <= FreeBytes(r) <= FreeBytes(bs) - size
  {
    BytesAround(bs, k);
    BytesOfTaken(bs[k], size);
    BytesConcat(bs[..k], Taken(bs[k], size));
    BytesConcat(bs[..k] + Taken(bs[k], size), bs[k + 1..]);
  }

  lemma {:induction false} MergedBytes(bs: seq<Block>)
    ensures UsedBytes(Merged(bs)) == UsedBytes(bs) && FreeBytes(Merged(bs)) >= FreeBytes(bs)
    decreases |bs|
  {
    if |bs| >= 2 {
      if bs[0].free && bs[1].free {
        var c := [Joined(bs[0], bs[1])] + bs[2..];
        assert c[1..] == bs[2..] == bs[1..][1..];
        MergedBytes(c);
      } else {
        MergedBytes(bs[1..]);
        assert Merged(bs)[1..] == Merged(bs[1..]);
      }
    }
  }

  /** A free gives back the block's whole payload. */
  lemma FreedBytes(bs: seq<Block>, k: nat)
    requires k < |bs| && !bs[k].free
    ensures UsedBytes(Freed(bs, k)) == UsedBytes(bs) - bs[k].size
    ensures FreeBytes(Freed(bs, k)) >= FreeBytes(bs) + bs[k].size
  {
    var c := bs[k := bs[k].(free := true)];
    BytesAround(bs, k);
    BytesAround(c, k);
    assert c[..k] == bs[..k] && c[k + 1..] == bs[k + 1..];
    MergedBytes(c);
  }

  /** After a free the blocks in use are those before it without the one freed. */
  lemma FreedLive(bs: seq<Block>, total: nat, k: nat, b: Block)
    requires Tiles(bs, 0, total) && k < |bs| && !bs[k].free && !b.free
    ensures b in Freed(bs, k) <==> b in bs && b.at != bs[k].at
  {
    var c := bs[k := bs[k].(free := true)];
    MergedLive(c, b);
    forall j | 0 <= j < |bs|
      ensures j != k ==> c[j] == bs[j] && bs[j].at != bs[k].at
    {
      if j < k { TilesOrdered(bs, 0, total, j, k); }
      if k < j { TilesOrdered(bs, 0, total, k, j); }
    }
    if b in bs && b.at != bs[k].at {
      var j :| 0 <= j < |bs| && bs[j] == b;
      assert c[j] == b;
    }
  }

  // ---- how much a run of requests costs --------------------------------------------------

  /** What the requests among the operations may cost. */
  function Demand(ops: seq<Op>): nat
    decreases |ops|
  {
    if ops == [] then 0
    else (if ops[0].Malloc? then AlignUp(ops[0].size) + HEADER + HEAP_ALIGN else 0) + Demand(ops[1..])
  }

  lemma StepCost(bs: seq<Block>, op: Op)
    requires Legal(bs, op)
    ensures FreeBytes(Step(bs, op)) + (if op.Malloc? then AlignUp(op.size) + HEADER + HEAP_ALIGN else 0) >= FreeBytes(bs)
  {
    match op
    case Malloc(size) =>
      var k := FirstFit(bs, AlignUp(size), 0);
      if size != 0 && k.Some? {
        AllocatedBytes(bs, k.value, AlignUp(size));
      }
    case Free(at) =>
      var k: nat :| LiveAt(bs, at, k) && Step(bs, op) == Freed(bs, k);
      FreedBytes(bs, k);
  }

  /** Over every run the free bytes shrink by no more than what was asked for, rounded up,
      and 20 bytes for each request. */
  lemma {:induction false} RunCost(bs: seq<Block>, ops: seq<Op>)
    requires LegalRun(bs, ops)
    ensures FreeBytes(Run(bs, ops)) + Demand(ops) >= FreeBytes(bs)
    decreases |ops|
  {
    if ops != [] {
      StepCost(bs, ops[0]);
      RunCost(Step(bs, ops[0]), ops[1..]);
    }
  }

  function Requests(ns: seq<u32>): seq<Op>
    decreases |ns|
  {
    if ns == [] then [] else [Malloc(ns[0])] + Requests(ns[1..])
  }

  /** The blocks that serve the requests, side by side. */
  function Served(ns: seq<u32>, at: nat): seq<Block>
    decreases |ns|
  {
    if ns == [] then []
    else [Block(at, AlignUp(ns[0]), false)] + Served(ns[1..], at + HEADER + AlignUp(ns[0]))
  }

  /** Payload and headers of the blocks that serve the requests. */
  function Cost(ns: seq<u32>): nat
    decreases |ns|
  {
    if ns == [] then 0 else AlignUp(ns[0]) + HEADER + Cost(ns[1..])
  }

  /** Every block is in use. */
  predicate AllUsed(used: seq<Block>) {
    forall i | 0 <= i < |used| :: !used[i].free
  }

  /** The list is used and, at its end, one free block of this payload at `at`. */
  predicate Tailed(bs: seq<Block>, used: seq<Block>, at: nat, room: nat) {
    bs == used + [Block(at, room, true)] && AllUsed(used)
  }

  lemma FitsInTail(bs: seq<Block>, used: seq<Block>, at: nat, room: nat, size: nat, i: nat)
    requires Tailed(bs, used, at, room) && i <= |used|
    ensures FirstFit(bs, size, i) == if room >= size then Some(|used|) else None
    decreases |used| - i
  {
    assert bs[i] == if i < |used| then used[i] else Block(at, room, true);
    if i < |used| {
      FitsInTail(bs, used, at, room, size, i + 1);
    }
  }

  lemma ServedNext(bs: seq<Block>, used: seq<Block>, at: nat, room: nat, n: u32, cost: nat)
    requires Tailed(bs, used, at, room) && n > 0 && cost == AlignUp(n) + HEADER && cost + HEAP_ALIGN < room
    ensures Tailed(Step(bs, Malloc(n)), used + [Block(at, AlignUp(n), false)], at + cost, room - cost)
  {
    FitsInTail(bs, used, at, room, AlignUp(n), 0);
    assert bs[..|used|] == used && bs[|used| + 1..] == [] && bs[|used|] == Block(at, room, true);
  }

  /** Requests that fit are all served, one behind the other, each with just what it needs,
      and the rest of the heap stays one free block. */
  lemma {:induction false} AllServed(bs: seq<Block>, used: seq<Block>, at: nat, room: nat, ns: seq<u32>)
    requires Tailed(bs, used, at, room) && 0 !in ns && Cost(ns) + HEAP_ALIGN < room
    ensures LegalRun(bs, Requests(ns))
    ensures Tailed(Run(bs, Requests(ns)), used + Served(ns, at), at + Cost(ns), room - Cost(ns))
    decreases |ns|
  {
    if ns == [] {
      assert used + [] == used;
    } else {
      var cost := AlignUp(ns[0]) + HEADER;
      var next := FirstServed(bs, used, at, room, ns, cost);
      AllServed(next, used + [Block(at, AlignUp(ns[0]), false)], at + cost, room - cost, ns[1..]);
      TailedLonger(Run(bs, Requests(ns)), used, at, room, ns, cost);
    }
  }

  lemma TailedLonger(r: seq<Block>, used: seq<Block>, at: nat, room: nat, ns: seq<u32>, cost: nat)
    requires ns != [] && cost == AlignUp(ns[0]) + HEADER && Cost(ns) < room
    requires var (rest, first) := (ns[1..], Block(at, AlignUp(ns[0]), false));
             Tailed(r, used + [first] + Served(rest, at + cost), at + cost + Cost(rest), room - cost - Cost(rest))
    ensures Tailed(r, used + Served(ns, at), at + Cost(ns), room - Cost(ns))
  {
    ServedAfter(used, at, ns);
  }

  lemma ServedAfter(used: seq<Block>, at: nat, ns: seq<u32>)
    requires ns != []
    ensures used + Served(ns, at)
         == used + [Block(at, AlignUp(ns[0]), false)] + Served(ns[1..], at + (AlignUp(ns[0]) + HEADER))
  {
  }

  lemma FirstServed(bs: seq<Block>, used: seq<Block>, at: nat, room: nat, ns: seq<u32>, cost: nat)
      returns (next: seq<Block>)
    requires Tailed(bs, used, at, room) && ns != [] && 0 !in ns
    requires cost == AlignUp(ns[0]) + HEADER && cost + HEAP_ALIGN < room
    ensures Tailed(next, used + [Block(at, AlignUp(ns[0]), false)], at + cost, room - cost)
    ensures LegalRun(next, Requests(ns[1..])) ==>
              LegalRun(bs, Requests(ns)) && Run(bs, Requests(ns)) == Run(next, Requests(ns[1..]))
  {
    next := Step(bs, Malloc(ns[0]));
    ServedNext(bs, used, at, room, ns[0], cost);
    assert Requests(ns)[1..] == Requests(ns[1..]);
  }

  /** On a fresh heap: requests that fit with 8 bytes to spare are all served, side by side,
      and a further one is served exactly when what is left holds it. */
  lemma FreshHeapServes(start: seq<Block>, total: nat, ns: seq<u32>, size: nat)
    requires 0 !in ns && Cost(ns) + HEADER + HEAP_ALIGN < total
    requires start == [Block(0, total - HEADER, true)]
    ensures LegalRun(start, Requests(ns))
    ensures var bs, left := Run(start, Requests(ns)), total - HEADER - Cost(ns);
            && bs == Served(ns, 0) + [Block(Cost(ns), left, true)]
            && (FirstFit(bs, size, 0).Some? <==> size <= left)
  {
    assert start == [] + start && [] + Served(ns, 0) == Served(ns, 0);
    assert Tailed(start, [], 0, total - HEADER);
    AllServed(start, [], 0, total - HEADER, ns);
    FitsInTail(Run(start, Requests(ns)), Served(ns, 0), Cost(ns), total - HEADER - Cost(ns), size, 0);
  }

  /** Used payload, free payload and headers add up to the arena. */
  lemma {:induction false} BytesConserved(bs: seq<Block>, from: nat, to: nat)
    requires Tiles(bs, from, to)
    ensures UsedBytes(bs) + FreeBytes(bs) + HEADER * |bs| == to - from
    decreases |bs|
  {
    if bs != [] {
      BytesConserved(bs[1..], End(bs[0]), to);
    }
  }
}
