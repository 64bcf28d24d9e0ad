/** The kernel heap in memory: headers threaded through the arena they describe. */
module Heap {
  import opened Words
  import opened HeapBlocks

  /** A block header as it lies in memory; `next` is an address, 0 at the end. */
  datatype Head = Head(size: nat, free: bool, next: nat)

  function HeadAt(mem: seq<u8>, o: nat): Head
    requires o + HEADER <= |mem|
  {
    Head(FromLe32(mem[o..o + 4]), mem[o + 4] != 0, FromLe32(mem[o + 8..o + 12]))
  }

  /** A header as the compiler lays it out: size, flag, three bytes of padding, next. */
  lemma HeadLayout(mem: seq<u8>, o: nat, size: u32, flag: u8, padding: seq<u8>, next: u32)
    requires o + 12 <= |mem| && |padding| == 3
    requires mem[o..o + 12] == Le32(size) + [flag] + padding + Le32(next)
    ensures HeadAt(mem, o) == Head(size, flag != 0, next)
  {
    var b := Le32(size) + [flag] + padding + Le32(next);
    assert b[0..4] == Le32(size) && b[4..5] == [flag] && b[8..12] == Le32(next);
    FieldInside(mem, o, b, 0, 4);
    FieldInside(mem, o, b, 4, 5);
    FieldInside(mem, o, b, 8, 12);
    assert mem[o + 4] == mem[o + 4..o + 5][0];
    Le32RoundTrip(size);
    Le32RoundTrip(next);
  }

  function Address(base: nat, bs: seq<Block>, k: nat): nat
    requires k <= |bs|
  {
    if k < |bs| then base + bs[k].at else 0
  }

  /** The header of block b holds its size and flag, and `next`. */
  predicate SpelledAt(mem: seq<u8>, b: Block, next: nat) {
    End(b) <= |mem| && HeadAt(mem, b.at) == Head(b.size, b.free, next)
  }

  /** Memory spells out the list: each header also points to the next one. */
  ghost predicate Spells(mem: seq<u8>, base: nat, bs: seq<Block>) {
    forall k {:trigger Spelled(mem, base, bs, k)} | 0 <= k < |bs| :: Spelled(mem, base, bs, k)
  }

  predicate Spelled(mem: seq<u8>, base: nat, bs: seq<Block>, k: nat)
    requires k < |bs|
  {
    SpelledAt(mem, bs[k], Address(base, bs, k + 1))
  }

  /** m' agrees with m outside the headers at o and p. */
  predicate OnlyHeaders(m: seq<u8>, m': seq<u8>, o: nat, p: nat) {
    |m'| == |m|
    && forall i | 0 <= i < |m| && !(o <= i < o + HEADER) && !(p <= i < p + HEADER) :: m'[i] == m[i]
  }

  lemma HeadFrame(m: seq<u8>, m': seq<u8>, o: nat, p: nat, q: nat)
    requires OnlyHeaders(m, m', o, p) && q + HEADER <= |m|
    requires (q + HEADER <= o || o + HEADER <= q) && (q + HEADER <= p || p + HEADER <= q)
    ensures HeadAt(m', q) == HeadAt(m, q)
  {
    assert m'[q..q + 4] == m[q..q + 4] && m'[q + 8..q + 12] == m[q + 8..q + 12];
  }

  /** A block apart from block k keeps its header when only k's extent is written to. */
  lemma KeptSpelled(m: seq<u8>, m': seq<u8>, base: nat, bs: seq<Block>, k: nat, p: nat, i: nat)
    requires Tiles(bs, 0, |m|) && Spells(m, base, bs) && k < |bs| && i < |bs| && i != k
    requires OnlyHeaders(m, m', bs[k].at, p) && bs[k].at <= p <= End(bs[k]) - HEADER
    ensures Spelled(m', base, bs, i)
  {
    assert Spelled(m, base, bs, i);
    if i < k {
      TilesOrdered(bs, 0, |m|, i, k);
    } else {
      TilesOrdered(bs, 0, |m|, k, i);
    }
    HeadFrame(m, m', bs[k].at, p, bs[i].at);
  }

  /** Changing the flag of block k in place. */
  lemma UpdatedSpells(m: seq<u8>, m': seq<u8>, base: nat, bs: seq<Block>, k: nat, free: bool)
    requires Tiles(bs, 0, |m|) && Spells(m, base, bs) && k < |bs| && OnlyHeaders(m, m', bs[k].at, bs[k].at)
    requires bs[k].at + HEADER <= |m| && HeadAt(m', bs[k].at) == HeadAt(m, bs[k].at).(free := free)
    ensures Spells(m', base, bs[k := bs[k].(free := free)])
  {
    var c := bs[k := bs[k].(free := free)];
    assert Spelled(m, base, bs, k);
    forall j | 0 <= j < |c|
      ensures Spelled(m', base, c, j)
    {
      if j != k {
        KeptSpelled(m, m', base, bs, k, bs[k].at, j);
      }
    }
  }

  /** Cutting free block k in two. */
  lemma SplitSpells(m: seq<u8>, m': seq<u8>, base: nat, bs: seq<Block>, k: nat, size: nat)
    requires Tiles(bs, 0, |m|) && Spells(m, base, bs) && k < |bs| && Fits(bs[k], size) && End(bs[k]) <= |m|
    requires |Taken(bs[k], size)| == 2
    requires var o, n := bs[k].at, Taken(bs[k], size)[1].at;
             && OnlyHeaders(m, m', o, n)
             && HeadAt(m', o) == Head(size, false, base + n)
             && HeadAt(m', n) == Head(bs[k].size - size - HEADER, true, HeadAt(m, o).next)
    ensures Spells(m', base, Allocated(bs, k, size))
  {
    var c, n := Allocated(bs, k, size), Taken(bs[k], size)[1].at;
    assert Spelled(m, base, bs, k);
    forall j | 0 <= j < |c|
      ensures Spelled(m', base, c, j)
    {
      if j < k {
        KeptSpelled(m, m', base, bs, k, n, j);
      } else if j > k + 1 {
        KeptSpelled(m, m', base, bs, k, n, j - 1);
      }
    }
  }

  lemma OneBlock(n: nat)
    requires HEADER <= n && n % 4 == 0
    ensures InOrder([Block(0, n - HEADER, true)], n)
  {
    assert [Block(0, n - HEADER, true)][1..] == [];
  }

  lemma JoinedTail(bs: seq<Block>, k: nat)
    requires 0 < k && k + 1 < |bs|
    ensures JoinedAt(bs, k)[1..] == JoinedAt(bs[1..], k - 1) && JoinedAt(bs, k)[0] == bs[0]
  {
    assert bs[1..][k - 1] == bs[k] && bs[1..][k] == bs[k + 1];
    assert bs[..k] == [bs[0]] + bs[1..][..k - 1] && bs[1..][k + 1..] == bs[k + 2..];
  }

  lemma JoinedTiles(bs: seq<Block>, from: nat, to: nat, k: nat)
    requires Tiles(bs, from, to) && k + 1 < |bs|
    ensures bs[k + 1].at == End(bs[k]) && End(Joined(bs[k], bs[k + 1])) == End(bs[k + 1])
    ensures Tiles(JoinedAt(bs, k), from, to)
    decreases k
  {
    var c := JoinedAt(bs, k);
    if k == 0 {
      assert c[1..] == bs[1..][1..];
    } else {
      JoinedTiles(bs[1..], End(bs[0]), to, k - 1);
      JoinedTail(bs, k);
    }
  }

  /** Joining block k with its right neighbour. */
  lemma JoinedSpells(m: seq<u8>, m': seq<u8>, base: nat, bs: seq<Block>, k: nat)
    requires Tiles(bs, 0, |m|) && Spells(m, base, bs) && k + 1 < |bs| && bs[k].free
    requires End(bs[k]) <= |m| && End(bs[k + 1]) <= |m| && OnlyHeaders(m, m', bs[k].at, bs[k].at)
    requires HeadAt(m', bs[k].at)
             == Head(bs[k].size + HEADER + bs[k + 1].size, true, HeadAt(m, bs[k + 1].at).next)
    ensures Spells(m', base, JoinedAt(bs, k))
  {
    var c := JoinedAt(bs, k);
    assert Spelled(m, base, bs, k + 1);
    JoinedTiles(bs, 0, |m|, k);
    forall j | 0 <= j < |c|
      ensures Spelled(m', base, c, j)
    {
      if j < k {
        KeptSpelled(m, m', base, bs, k, bs[k].at, j);
      } else if j > k {
        KeptSpelled(m, m', base, bs, k, bs[k].at, j + 1);
      }
    }
  }

  /** Byte i belongs to a payload in use. */
  ghost predicate InUse(bs: seq<Block>, i: nat) {
    exists k :: 0 <= k < |bs| && !bs[k].free && bs[k].at + HEADER <= i < End(bs[k])
  }

  /** p is the payload address of block k, which is in use. */
  predicate HandedOut(bs: seq<Block>, base: nat, p: nat, k: nat) {
    k < |bs| && !bs[k].free && p == base + bs[k].at + HEADER
  }

  class Arena {
    const base: nat
    const mem: array<u8>
    var head: nat
    ghost var blocks: seq<Block>

    constructor (start: nat, memory: array<u8>)
      ensures base == start && mem == memory && head == 0 && blocks == []
    {
      base, mem, head, blocks := start, memory, 0, [];
    }

    /** The heap is set up and memory agrees with a list of blocks in order. */
    ghost predicate Valid()
      reads this, mem
    {
      && 0 < base && base + mem.Length < TWO_32
      && head == base
      && InOrder(blocks, mem.Length)
      && Spells(mem[..], base, blocks)
    }

    /** The header at block k says what the list says. */
    lemma HeaderSays(k: nat)
      requires Spells(mem[..], base, blocks) && k < |blocks|
      ensures End(blocks[k]) <= mem.Length
      ensures HeadAt(mem[..], blocks[k].at) == Head(blocks[k].size, blocks[k].free, Address(base, blocks, k + 1))
    {
      assert Spelled(mem[..], base, blocks, k);
    }

    method SetSize(o: nat, size: u32)
      requires o + HEADER <= mem.Length
      modifies mem
      ensures HeadAt(mem[..], o) == old(HeadAt(mem[..], o)).(size := size)
      ensures forall i | 0 <= i < mem.Length && !(o <= i < o + HEADER) :: mem[i] == old(mem[i])
    {
      ghost var was := mem[..];
      var b := Le32(size);
      Le32RoundTrip(size);
      mem[o], mem[o + 1], mem[o + 2], mem[o + 3] := b[0], b[1], b[2], b[3];
      assert mem[..][o..o + 4] == b && mem[..][o + 8..o + 12] == was[o + 8..o + 12];
    }

    method SetNext(o: nat, next: u32)
      requires o + HEADER <= mem.Length
      modifies mem
      ensures HeadAt(mem[..], o) == old(HeadAt(mem[..], o)).(next := next)
      ensures forall i | 0 <= i < mem.Length && !(o <= i < o + HEADER) :: mem[i] == old(mem[i])
    {
      ghost var was := mem[..];
      var b := Le32(next);
      Le32RoundTrip(next);
      mem[o + 8], mem[o + 9], mem[o + 10], mem[o + 11] := b[0], b[1], b[2], b[3];
      assert mem[..][o + 8..o + 12] == b && mem[..][o..o + 4] == was[o..o + 4];
    }

    method SetFree(o: nat, free: bool)
      requires o + HEADER <= mem.Length
      modifies mem
      ensures HeadAt(mem[..], o) == old(HeadAt(mem[..], o)).(free := free)
      ensures forall i | 0 <= i < mem.Length && !(o <= i < o + HEADER) :: mem[i] == old(mem[i])
    {
      ghost var was := mem[..];
      mem[o + 4] := if free then 1 else 0;
      assert mem[..][o + 8..o + 12] == was[o + 8..o + 12] && mem[..][o..o + 4] == was[o..o + 4];
    }

    /** Makes the whole arena one free block. */
    method Init()
      requires 0 < base && base + mem.Length < TWO_32 && mem.Length % 4 == 0 && HEADER <= mem.Length
      modifies this, mem
      ensures Valid() && blocks == [Block(0, mem.Length - HEADER, true)]
    {
      head := base;
      NewHead(0, mem.Length - HEADER, 0);
      blocks := [Block(0, mem.Length - HEADER, true)];
      OneBlock(mem.Length);
      assert Spelled(mem[..], base, blocks, 0);
    }

    /** Walks the list to the first free block of at least `need` bytes; 0 when there is none. */
    method FindFit(need: nat) returns (current: nat)
      requires Valid()
      ensures match FirstFit(blocks, need, 0)
              case None => current == 0
              case Some(k) => current == base + blocks[k].at
    {
      current := head;
      ghost var k := 0;
      while current != 0
        invariant k <= |blocks| && current == Address(base, blocks, k)
        invariant FirstFit(blocks, need, k) == FirstFit(blocks, need, 0)
        decreases |blocks| - k
      {
        HeaderSays(k);
        var h := HeadAt(mem[..], current - base);
        if h.free && h.size >= need {
          return;
        }
        current := h.next;
        k := k + 1;
      }
    }

    /** Hands out at least `size` bytes from the first block that can hold them; 0 if none can. */
    method Malloc(size: u32) returns (p: nat)
      requires head != 0 ==> Valid()
      modifies this`blocks, mem
      ensures head != 0 ==> Valid()
      ensures (head == 0 || size == 0) ==> p == 0 && blocks == old(blocks) && mem[..] == old(mem[..])
      ensures head != 0 && size != 0 ==>
                match FirstFit(old(blocks), AlignUp(size), 0)
                case None => p == 0 && blocks == old(blocks) && mem[..] == old(mem[..])
                case Some(k) => p == base + old(blocks)[k].at + HEADER && blocks == Allocated(old(blocks), k, AlignUp(size))
      ensures forall i | 0 <= i < mem.Length && InUse(old(blocks), i) :: mem[i] == old(mem[i])
    {
      if size == 0 || head == 0 {
        return 0;
      }
      var need := (size + HEAP_ALIGN - 1) % TWO_32 / HEAP_ALIGN * HEAP_ALIGN;
      ghost var fit := FirstFit(blocks, need, 0);
      var current := FindFit(need);
      if current == 0 {
        return 0;
      }
      Take(fit.value, current - base, need);
      return current + HEADER;
    }

    /** Fills in a new header. */
    method NewHead(o: nat, size: u32, next: u32)
      requires o + HEADER <= mem.Length
      modifies mem
      ensures HeadAt(mem[..], o) == Head(size, true, next)
      ensures forall i | 0 <= i < mem.Length && !(o <= i < o + HEADER) :: mem[i] == old(mem[i])
    {
      SetSize(o, size);
      SetFree(o, true);
      SetNext(o, next);
    }

    /** Cuts free block k, at offset o, down to `need` bytes; the rest becomes a block of its own. */
    method Split(ghost k: nat, o: nat, need: nat)
      requires Valid() && k < |blocks| && blocks[k].at == o && Fits(blocks[k], need) && need % 4 == 0
      requires blocks[k].size - need > HEADER + HEAP_ALIGN
      modifies mem
      ensures Spells(mem[..], base, Allocated(blocks, k, need))
      ensures OnlyHeaders(old(mem[..]), mem[..], o, o + HEADER + need)
    {
      ghost var (m, bs) := (mem[..], blocks);
      assert Spelled(m, base, bs, k);
      var h := HeadAt(mem[..], o);
      var rest := o + HEADER + need;
      NewHead(rest, h.size - need - HEADER, h.next);
      ghost var m1 := mem[..];
      SetNext(o, base + rest);
      SetSize(o, need);
      SetFree(o, false);
      HeadFrame(m1, mem[..], o, o, rest);
      SplitSpells(m, mem[..], base, bs, k, need);
    }

    /** Marks free block k, at offset o, as used, cutting off what is left over. */
    method Take(ghost k: nat, o: nat, need: nat)
      requires Valid() && k < |blocks| && blocks[k].at == o && Fits(blocks[k], need) && need % 4 == 0
      modifies this`blocks, mem
      ensures Valid() && blocks == Allocated(old(blocks), k, need)
      ensures forall i | 0 <= i < mem.Length && InUse(old(blocks), i) :: mem[i] == old(mem[i])
    {
      ghost var (m, bs) := (mem[..], blocks);
      assert Spelled(m, base, bs, k);
      AllocatedInOrder(bs, mem.Length, k, need);
      var h := HeadAt(mem[..], o);
      if h.size - need > HEADER + HEAP_ALIGN {
        Split(k, o, need);
        UntouchedPayload(m, mem[..], bs, k, o + HEADER + need);
      } else {
        SetFree(o, false);
        UpdatedSpells(m, mem[..], base, bs, k, false);
        assert Allocated(bs, k, need) == bs[k := bs[k].(free := false)];
        UntouchedPayload(m, mem[..], bs, k, o);
      }
      blocks := Allocated(bs, k, need);
    }

    /** Gives back the block whose payload starts at p. */
    method Free(p: nat)
      requires p != 0 ==> Valid() && exists k: nat :: HandedOut(blocks, base, p, k)
      modifies this`blocks, mem
      ensures p == 0 ==> blocks == old(blocks) && mem[..] == old(mem[..])
      ensures p != 0 ==>
                Valid() && exists k: nat :: HandedOut(old(blocks), base, p, k) && blocks == Freed(old(blocks), k)
      ensures forall i | 0 <= i < mem.Length && InUse(blocks, i) :: mem[i] == old(mem[i])
    {
      if p == 0 {
        return;
      }
      var o := p - base - HEADER;
      ghost var k: nat :| HandedOut(blocks, base, p, k);
      ghost var (m, bs) := (mem[..], blocks);
      assert Spelled(m, base, bs, k);
      SetFree(o, true);
      UpdatedSpells(m, mem[..], base, bs, k, true);
      UpdateTiles(bs, 0, mem.Length, k, true);
      blocks := bs[k := bs[k].(free := true)];
      FreedInOrder(bs, mem.Length, k);
      UntouchedPayload(m, mem[..], blocks, k, o);
      MergedInUse(blocks);
      MergeSweep();
    }

    /** The list spelled out in memory covers the arena. */
    ghost predicate Listed()
      reads this, mem
    {
      && 0 < base && base + mem.Length < TWO_32 && head == base && blocks != []
      && Tiles(blocks, 0, mem.Length) && Spells(mem[..], base, blocks)
    }

    /** The sweep stands at block k; everything before it is final. */
    ghost predicate Sweeping(bs0: seq<Block>, m0: seq<u8>, k: nat)
      reads this, mem
    {
      && Listed() && k < |blocks| && |m0| == mem.Length
      && blocks[..k] + Merged(blocks[k..]) == Merged(bs0)
      && Untouched(bs0, blocks, m0, mem[..])
    }

    /** One sweep over the list, joining free neighbours. */
    method MergeSweep()
      requires Listed()
      modifies this`blocks, mem
      ensures Listed() && blocks == Merged(old(blocks))
      ensures Untouched(old(blocks), blocks, old(mem[..]), mem[..])
    {
      ghost var (bs0, m0) := (blocks, mem[..]);
      var current := head;
      ghost var k := 0;
      assert bs0[0..] == bs0;
      while true
        invariant Sweeping(bs0, m0, k) && current == base + blocks[k].at
        decreases |blocks| - k
      {
        HeaderSays(k);
        var h := HeadAt(mem[..], current - base);
        if h.next == 0 {
          LastMerged(blocks, k);
          return;
        }
        HeaderSays(k + 1);
        var h2 := HeadAt(mem[..], h.next - base);
        if h.free && h2.free {
          Join(bs0, m0, k, current - base, h, h2);
        } else {
          MergedStep(blocks, k);
          current := h.next;
          k := k + 1;
        }
      }
    }

    /** Joins block k, at offset o, with the free block after it. */
    method Join(ghost bs0: seq<Block>, ghost m0: seq<u8>, ghost k: nat, o: nat, h: Head, h2: Head)
      requires Sweeping(bs0, m0, k) && k + 1 < |blocks| && blocks[k].at == o && blocks[k].free && blocks[k + 1].free
      requires End(blocks[k]) <= mem.Length && End(blocks[k + 1]) <= mem.Length
      requires h == HeadAt(mem[..], o) && h2 == HeadAt(mem[..], blocks[k + 1].at)
      modifies this`blocks, mem
      ensures blocks == JoinedAt(old(blocks), k) && Sweeping(bs0, m0, k)
    {
      ghost var (m, bs) := (mem[..], blocks);
      assert Spelled(m, base, bs, k) && Spelled(m, base, bs, k + 1);
      JoinedTiles(bs, 0, mem.Length, k);
      SetSize(o, h.size + HEADER + h2.size);
      SetNext(o, h2.next);
      JoinedSpells(m, mem[..], base, bs, k);
      UntouchedPayload(m, mem[..], bs, k, o);
      JoinedInUse(bs, k);
      JoinedMerged(bs, k);
      blocks := JoinedAt(bs, k);
    }

    /** Payload bytes handed out; headers are not counted. */
    method CountUsedBytes() returns (used: nat)
      requires Valid()
      ensures used == UsedBytes(blocks)
    {
      used := 0;
      var current := head;
      ghost var (k, total) := (0, UsedBytes(blocks));
      assert blocks[0..] == blocks;
      while current != 0
        invariant k <= |blocks| && current == Address(base, blocks, k)
        invariant used + UsedBytes(blocks[k..]) == total
        decreases |blocks| - k
      {
        HeaderSays(k);
        UsedBytesFrom(blocks, k);
        var h := HeadAt(mem[..], current - base);
        if !h.free {
          used := used + h.size;
        }
        current := h.next;
        k := k + 1;
      }
    }
  }

  lemma UsedBytesFrom(bs: seq<Block>, k: nat)
    requires k < |bs|
    ensures UsedBytes(bs[k..]) == (if bs[k].free then 0 else bs[k].size) + UsedBytes(bs[k + 1..])
  {
    assert bs[k..][1..] == bs[k + 1..];
  }

  /** Payload bytes in use in bs0 are in use in bs, with the same contents. */
  ghost predicate Untouched(bs0: seq<Block>, bs: seq<Block>, m0: seq<u8>, m: seq<u8>)
    requires |m0| == |m|
  {
    forall i | 0 <= i < |m| && InUse(bs0, i) :: InUse(bs, i) && m[i] == m0[i]
  }

  lemma MergedInUse(bs: seq<Block>)
    ensures forall i: nat | InUse(Merged(bs), i) :: InUse(bs, i)
  {
    forall i: nat | InUse(Merged(bs), i)
      ensures InUse(bs, i)
    {
      var c := Merged(bs);
      var j :| 0 <= j < |c| && !c[j].free && c[j].at + HEADER <= i < End(c[j]);
      MergedLive(bs, c[j]);
      var l :| 0 <= l < |bs| && bs[l] == c[j];
    }
  }

  lemma JoinedInUse(bs: seq<Block>, k: nat)
    requires k + 1 < |bs| && bs[k].free && bs[k + 1].free
    ensures forall i: nat | InUse(bs, i) :: InUse(JoinedAt(bs, k), i)
  {
    forall i: nat | InUse(bs, i)
      ensures InUse(JoinedAt(bs, k), i)
    {
      var j :| 0 <= j < |bs| && !bs[j].free && bs[j].at + HEADER <= i < End(bs[j]);
      assert JoinedAt(bs, k)[if j < k then j else j - 1] == bs[j];
    }
  }

  lemma JoinedMerged(bs: seq<Block>, k: nat)
    requires k + 1 < |bs| && bs[k].free && bs[k + 1].free
    ensures var c := JoinedAt(bs, k);
            c[..k] + Merged(c[k..]) == bs[..k] + Merged(bs[k..])
  {
    var c := JoinedAt(bs, k);
    assert c[..k] == bs[..k];
    assert bs[k..][2..] == bs[k + 2..];
    assert c[k..] == [Joined(bs[k], bs[k + 1])] + bs[k + 2..];
  }

  lemma LastMerged(bs: seq<Block>, k: nat)
    requires k + 1 == |bs|
    ensures bs[..k] + Merged(bs[k..]) == bs
  {
  }

  lemma MergedStep(bs: seq<Block>, k: nat)
    requires k + 1 < |bs| && !(bs[k].free && bs[k + 1].free)
    ensures bs[..k + 1] + Merged(bs[k + 1..]) == bs[..k] + Merged(bs[k..])
  {
    var (rest, tail) := (bs[k..], Merged(bs[k + 1..]));
    assert rest[0] == bs[k] && rest[1] == bs[k + 1] && rest[1..] == bs[k + 1..];
    assert Merged(rest) == [bs[k]] + tail;
    assert bs[..k + 1] == bs[..k] + [bs[k]];
    Regroup(bs[..k], [bs[k]], tail);
  }

  lemma Regroup(a: seq<Block>, b: seq<Block>, c: seq<Block>)
    ensures (a + b) + c == a + (b + c)
  {
  }

  /** Writes inside block k's own extent leave every payload in use alone, if k is free. */
  lemma UntouchedPayload(m: seq<u8>, m': seq<u8>, bs: seq<Block>, k: nat, p: nat)
    requires Tiles(bs, 0, |m|) && k < |bs| && bs[k].free
    requires OnlyHeaders(m, m', bs[k].at, p) && bs[k].at <= p <= End(bs[k]) - HEADER
    ensures forall i | 0 <= i < |m| && InUse(bs, i) :: m'[i] == m[i]
  {
    forall i | 0 <= i < |m| && InUse(bs, i)
      ensures m'[i] == m[i]
    {
      var j :| 0 <= j < |bs| && !bs[j].free && bs[j].at + HEADER <= i < End(bs[j]);
      if j < k {
        TilesOrdered(bs, 0, |m|, j, k);
      } else {
        TilesOrdered(bs, 0, |m|, k, j);
      }
    }
  }
}
