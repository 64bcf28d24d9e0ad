/** Machine words of the kernel and their little-endian byte images. */
module Words {
  type u8 = x: int | 0 <= x < 0x100
  type u16 = x: int | 0 <= x < 0x1_0000
  type u32 = x: int | 0 <= x < 0x1_0000_0000

  const TWO_32 := 0x1_0000_0000

  datatype Option<+T> = None | Some(value: T)

  function Min(a: int, b: int): int { if a < b then a else b }
  function Max(a: int, b: int): int { if a < b then b else a }

  /** Two bytes in network order. */
  function Pair(hi: u8, lo: u8): u16 {
    var h: int, l: int := hi, lo;
    256 * h + l
  }

  function Be16(b: seq<u8>, i: nat): u16
    requires i + 2 <= |b|
  {
    Pair(b[i], b[i + 1])
  }

  function Be32(b: seq<u8>, i: nat): u32
    requires i + 4 <= |b|
  {
    var hi: int, lo: int := Be16(b, i), Be16(b, i + 2);
    0x1_0000 * hi + lo
  }

  /** Network order: the most significant byte first. */
  function Net16(x: u16): (b: seq<u8>)
    ensures |b| == 2
  {
    [x / 256, x % 256]
  }

  function Net32(x: u32): (b: seq<u8>)
    ensures |b| == 4
  {
    [x / 16777216, x / 65536 % 256, x / 256 % 256, x % 256]
  }

  lemma NetRoundTrip(x: u16, y: u32)
    ensures Be16(Net16(x), 0) == x && Be32(Net32(y), 0) == y
  {
    var q: int := y / 256;
    var r: int := q / 256;
    assert y / 65536 == r && y / 16777216 == r / 256;
  }

  lemma NetOnto(b: seq<u8>, i: nat)
    ensures i + 2 <= |b| ==> Net16(Be16(b, i)) == b[i..i + 2]
    ensures i + 4 <= |b| ==> Net32(Be32(b, i)) == b[i..i + 4]
  {
    if i + 2 <= |b| {
      var h: int, l: int := b[i], b[i + 1];
      assert Be16(b, i) == 256 * h + l;
    }
    if i + 4 <= |b| {
      var b0: int, b1: int, b2: int, b3: int := b[i], b[i + 1], b[i + 2], b[i + 3];
      var x: int := Be32(b, i);
      assert x == 16777216 * b0 + 65536 * b1 + 256 * b2 + b3;
      assert x / 256 == 65536 * b0 + 256 * b1 + b2;
      assert x / 65536 == 256 * b0 + b1;
    }
  }

  /** The four bytes an i386 stores for a 32-bit word. */
  function Le32(x: u32): (b: seq<u8>)
    ensures |b| == 4
  {
    [x % 256, (x / 256) % 256, (x / 65536) % 256, x / 16777216]
  }

  function FromLe32(b: seq<u8>): u32
    requires |b| == 4
  {
    var b0: int, b1: int, b2: int, b3: int := b[0], b[1], b[2], b[3];
    b0 + 256 * b1 + 65536 * b2 + 16777216 * b3
  }

  lemma Le32RoundTrip(x: u32)
    ensures FromLe32(Le32(x)) == x
  {
    var q := x / 256;
    var r := q / 256;
    assert x / 65536 == r && x / 16777216 == r / 256;
  }

  lemma Le32Onto(b: seq<u8>)
    requires |b| == 4
    ensures Le32(FromLe32(b)) == b
  {
    var x := FromLe32(b);
    var b1: int, b2: int, b3: int := b[1], b[2], b[3];
    assert x / 256 == b1 + 256 * b2 + 65536 * b3;
    assert x / 65536 == b2 + 256 * b3;
  }

  /** The low byte lies first in memory, the high byte first on the network. */
  lemma ByteOrder(a: u8, b: u8, c: u8, d: u8)
    ensures var x: int, y: int, z: int, w: int := a, b, c, d;
            && Le32(x + 256 * y + 65536 * z + 16777216 * w) == [a, b, c, d]
            && Net32(16777216 * x + 65536 * y + 256 * z + w) == [a, b, c, d]
            && Net16(256 * x + y) == [a, b]
  {
    Le32Onto([a, b, c, d]);
    NetOnto([a, b, c, d], 0);
    assert [a, b, c, d][0..4] == [a, b, c, d] && [a, b, c, d][0..2] == [a, b];
  }

  /** A run of 32-bit words as stored in memory. */
  function Le32s(ws: seq<u32>): (b: seq<u8>)
    ensures |b| == 4 * |ws|
  {
    seq(4 * |ws|, k requires 0 <= k < 4 * |ws| => Le32(ws[k / 4])[k % 4])
  }

  lemma WordOfLe32s(ws: seq<u32>, i: nat)
    requires i < |ws|
    ensures Le32s(ws)[4 * i..4 * i + 4] == Le32(ws[i])
  {
    forall k | 0 <= k < 4
      ensures Le32s(ws)[4 * i + k] == Le32(ws[i])[k]
    {
      assert (4 * i + k) / 4 == i && (4 * i + k) % 4 == k;
    }
  }

  lemma Le32sNext(x: u32, ws: seq<u32>)
    ensures Le32s([x] + ws) == Le32(x) + Le32s(ws) && Le32s([]) == []
  {
    var (b, c) := (Le32s([x] + ws), Le32(x) + Le32s(ws));
    forall k | 0 <= k < 4 * |ws| + 4
      ensures b[k] == c[k]
    {
      if k >= 4 {
        assert (k - 4) / 4 == k / 4 - 1 && (k - 4) % 4 == k % 4;
      }
    }
  }

  lemma Le32sOfThree(x: u32, y: u32, z: u32, ws: seq<u32>)
    ensures Le32s([x, y, z] + ws) == Le32(x) + Le32(y) + Le32(z) + Le32s(ws)
  {
    assert [x, y, z] + ws == [x] + ([y] + ([z] + ws));
    Le32sNext(x, [y] + ([z] + ws));
    Le32sNext(y, [z] + ws);
    Le32sNext(z, ws);
  }

  /** A field keeps its bytes whatever is packed before and after it. */
  lemma FieldOfPacked(before: seq<u8>, field: seq<u8>, rest: seq<u8>, lo: nat, hi: nat)
    requires lo <= hi <= |field|
    ensures (before + field + rest)[|before| + lo..|before| + hi] == field[lo..hi]
  {
  }

  /** A field of bytes b is found where b stands. */
  lemma FieldInside(mem: seq<u8>, o: nat, b: seq<u8>, i: nat, j: nat)
    requires o + |b| <= |mem| && mem[o..o + |b|] == b && i <= j <= |b|
    ensures mem[o + i..o + j] == b[i..j]
  {
    forall k | i <= k < j
      ensures mem[o + k] == b[k]
    {
      assert mem[o..o + |b|][k] == mem[o + k];
    }
    var (u, v) := (mem[o + i..o + j], b[i..j]);
    assert forall k | 0 <= k < j - i :: u[k] == mem[o + (i + k)] && v[k] == b[i + k];
  }
}
