/** The Internet checksum: one's-complement sum of big-endian 16-bit words. */
module Checksum {
  import opened Words

  /** Longest buffer whose word sum fits the 32-bit accumulator. */
  const MAX_BYTES := 131072

  /** Sum of the words; an odd last byte counts as the high half of a word. */
  function WordSum(d: seq<u8>): nat {
    if d == [] then 0
    else if |d| == 1 then Pair(d[0], 0)
    else Pair(d[0], d[1]) + WordSum(d[2..])
  }

  /** End-around carry, repeated until the sum fits in 16 bits. */
  function Fold(sum: nat): nat
    decreases sum
  {
    if sum < 0x1_0000 then sum else Fold(sum % 0x1_0000 + sum / 0x1_0000)
  }

  function Sum16(d: seq<u8>): int {
    0xFFFF - Fold(WordSum(d))
  }

  /** Folding keeps the residue mod 0xFFFF, with 0xFFFF standing for every
      nonzero multiple of it. */
  lemma {:induction false} FoldResidue(sum: nat)
    ensures Fold(sum) <= 0xFFFF
    ensures Fold(sum) == if sum == 0 then 0 else (sum - 1) % 0xFFFF + 1
    decreases sum
  {
    if sum >= 0x1_0000 {
      var next := sum % 0x1_0000 + sum / 0x1_0000;
      FoldResidue(next);
      assert sum - 1 == (next - 1) + 0xFFFF * (sum / 0x1_0000);
      SameResidue(next - 1, sum / 0x1_0000);
    }
  }

  lemma SameResidue(x: nat, k: nat)
    ensures (x + 0xFFFF * k) % 0xFFFF == x % 0xFFFF
  {
  }

  lemma {:induction false} WordSumConcat(a: seq<u8>, b: seq<u8>)
    requires |a| % 2 == 0
    ensures WordSum(a + b) == WordSum(a) + WordSum(b)
  {
    if a == [] {
      assert a + b == b;
    } else {
      WordSumConcat(a[2..], b);
      assert (a + b)[2..] == a[2..] + b;
    }
  }

  /** An odd last byte is the high half of its word, as if a zero byte followed. */
  lemma WordSumOdd(d: seq<u8>, b: u8)
    requires |d| % 2 == 0
    ensures var x: int := b;
            WordSum(d + [b]) == WordSum(d) + 256 * x && WordSum(d + [b]) == WordSum(d + [b, 0])
  {
    WordSumConcat(d, [b]);
    WordSumConcat(d, [b, 0]);
    assert [b, 0][2..] == [];
  }

  lemma NetHalves(y: u32)
    ensures Net32(y) == Net16(y / 0x1_0000) + Net16(y % 0x1_0000)
  {
    var (high, low) := (y / 0x1_0000, y % 0x1_0000);
    assert y / 16777216 == high / 256;
    assert y / 256 == 256 * high + low / 256;
  }

  /** A 16-bit and a 32-bit number in network order add their words. */
  lemma WordSumOfNumbers(x: u16, y: u32)
    ensures WordSum(Net16(x)) == x && WordSum(Net32(y)) == y / 0x1_0000 + y % 0x1_0000
  {
    NetHalves(y);
    WordSumOfWord(x);
    WordSumOfWord(y / 0x1_0000);
    WordSumOfWord(y % 0x1_0000);
    WordSumConcat(Net16(y / 0x1_0000), Net16(y % 0x1_0000));
  }

  lemma WordSumOfWord(x: u16)
    ensures WordSum(Net16(x)) == x
  {
    assert Net16(x)[2..] == [];
  }

  /** The example of RFC 1071, section 3: 00 01 f2 03 f4 f5 f6 f7 sums to ddf2. */
  lemma Rfc1071Example()
    ensures Sum16([0, 1, 0xF2, 3, 0xF4, 0xF5, 0xF6, 0xF7]) == 0xFFFF - 0xDDF2
  {
    var d: seq<u8> := [0, 1, 0xF2, 3, 0xF4, 0xF5, 0xF6, 0xF7];
    assert d[2..] == [0xF2, 3, 0xF4, 0xF5, 0xF6, 0xF7] && d[2..][2..] == [0xF4, 0xF5, 0xF6, 0xF7];
    assert d[2..][2..][2..] == [0xF6, 0xF7] && d[2..][2..][2..][2..] == [];
    assert WordSum(d) == 0x2_DDF0;
    assert Fold(0x2_DDF0) == Fold(0xDDF2);
  }

  lemma {:induction false} WordSumBound(d: seq<u8>)
    ensures WordSum(d) <= 0xFFFF * ((|d| + 1) / 2)
  {
    if |d| >= 2 {
      WordSumBound(d[2..]);
    }
  }

  /** The buffer with a 16-bit value stored big-endian at position `at`. */
  function Stored(d: seq<u8>, at: nat, value: u16): seq<u8>
    requires at + 2 <= |d|
  {
    d[..at] + [value / 256, value % 256] + d[at + 2..]
  }

  lemma StoredSum(d: seq<u8>, at: nat, value: u16)
    requires at % 2 == 0 && at + 2 <= |d| && d[at] == 0 && d[at + 1] == 0
    ensures WordSum(Stored(d, at, value)) == WordSum(d) + value
  {
    var field, zero: seq<u8> := [value / 256, value % 256], [0, 0];
    assert Stored(d, at, value) == d[..at] + (field + d[at + 2..]);
    assert d == d[..at] + (zero + d[at + 2..]);
    WordSumConcat(d[..at], field + d[at + 2..]);
    WordSumConcat(d[..at], zero + d[at + 2..]);
    WordSumConcat(field, d[at + 2..]);
    WordSumConcat(zero, d[at + 2..]);
    assert WordSum(field) == value && WordSum(zero) == 0;
  }

  /** A buffer that carries its own checksum in a field at an even offset sums to zero. */
  lemma ChecksumVerifies(d: seq<u8>, at: nat)
    requires at % 2 == 0 && at + 2 <= |d| && d[at] == 0 && d[at + 1] == 0
    ensures 0 <= Sum16(d) <= 0xFFFF
    ensures Sum16(Stored(d, at, Sum16(d))) == 0
  {
    var w := WordSum(d);
    FoldResidue(w);
    StoredSum(d, at, Sum16(d));
    var total := w + (0xFFFF - Fold(w));
    FoldResidue(total);
    if w > 0 {
      var q := (w - 1) / 0xFFFF;
      assert total - 1 == 0xFFFE + 0xFFFF * q;
      SameResidue(0xFFFE, q);
    }
  }

  /** Any other value in the field is detected, save for the two forms of zero. */
  lemma ChecksumUnique(d: seq<u8>, at: nat, value: u16)
    requires at % 2 == 0 && at + 2 <= |d| && d[at] == 0 && d[at + 1] == 0
    requires Sum16(Stored(d, at, value)) == 0
    ensures value == Sum16(d) || (value == 0xFFFF && Sum16(d) == 0) || (value == 0 && Sum16(d) == 0xFFFF)
  {
    var w := WordSum(d);
    FoldResidue(w);
    StoredSum(d, at, value);
    FoldResidue(w + value);
    if w > 0 {
      var q, q' := (w - 1) / 0xFFFF, (w + value - 1) / 0xFFFF;
      assert w - 1 == 0xFFFF * q + (Fold(w) - 1);
      assert w + value - 1 == 0xFFFF * q' + 0xFFFE;
      assert value == 0xFFFF * (q' - q) + 0xFFFF - Fold(w);
      assert q' - q == 0 || q' - q == 1 || q' - q == -1;
    }
  }

  method FoldCarries(start: u32) returns (sum: u16)
    ensures sum == Fold(start)
  {
    var s: int := start;
    while s / 0x1_0000 != 0
      invariant 0 <= s && Fold(s) == Fold(start)
      decreases s
    {
      s := s % 0x1_0000 + s / 0x1_0000;
    }
    return s;
  }

  method AddWords(start: u32, data: seq<u8>) returns (sum: u32)
    requires start + 0xFFFF * ((|data| + 1) / 2) < TWO_32
    ensures sum == start + WordSum(data)
  {
    WordSumBound(data);
    var s: int, i := start, 0;
    while i + 1 < |data|
      invariant 0 <= i <= |data| && i % 2 == 0
      invariant s + WordSum(data[i..]) == start + WordSum(data)
    {
      s := s + Pair(data[i], data[i + 1]);
      assert data[i..][2..] == data[i + 2..];
      i := i + 2;
    }
    if |data| % 2 == 1 {
      s := s + Pair(data[|data| - 1], 0);
    }
    return s;
  }

  method Checksum16(data: seq<u8>) returns (c: u16)
    requires |data| <= MAX_BYTES
    ensures c == Sum16(data)
  {
    var sum := AddWords(0, data);
    var folded := FoldCarries(sum);
    return 0xFFFF - folded;
  }

  const PROTO_TCP: u8 := 6

  function PseudoHeader(src: u32, dst: u32, len: u16): (b: seq<u8>)
    ensures |b| == 12
  {
    Net32(src) + Net32(dst) + [0, PROTO_TCP] + Net16(len)
  }

  /** The TCP checksum is the checksum of pseudo-header followed by segment. */
  method TcpChecksum(src: u32, dst: u32, segment: seq<u8>) returns (c: u16)
    requires |segment| < 0x1_0000
    ensures c == Sum16(PseudoHeader(src, dst, |segment|) + segment)
  {
    var pseudo := Net32(src) + Net32(dst) + [0, PROTO_TCP] + Net16(|segment|);
    WordSumBound(pseudo);
    var sum := AddWords(0, pseudo);
    sum := AddWords(sum, segment);
    var folded := FoldCarries(sum);
    WordSumConcat(pseudo, segment);
    return 0xFFFF - folded;
  }

  lemma WordSumOfFourParts(a: seq<u8>, b: seq<u8>, c: seq<u8>, d: seq<u8>)
    requires |a| % 2 == 0 && |b| % 2 == 0 && |c| % 2 == 0
    ensures WordSum(a + b + c + d) == WordSum(a) + WordSum(b) + WordSum(c) + WordSum(d)
  {
    WordSumConcat(a, b);
    WordSumConcat(a + b, c);
    WordSumConcat(a + b + c, d);
  }

  /** What the pseudo-header adds to the sum: both addresses, the protocol number and the length. */
  lemma PseudoHeaderSum(src: u32, dst: u32, segment: seq<u8>)
    requires |segment| < 0x1_0000
    ensures WordSum(PseudoHeader(src, dst, |segment|) + segment)
         == src / 0x1_0000 + src % 0x1_0000 + dst / 0x1_0000 + dst % 0x1_0000 + 6 + |segment| + WordSum(segment)
  {
    WordSumOfNumbers(|segment|, src);
    WordSumOfNumbers(|segment|, dst);
    assert WordSum([0, PROTO_TCP]) == 6 by { assert [0, PROTO_TCP][2..] == []; }
    WordSumOfFourParts(Net32(src), Net32(dst), [0, PROTO_TCP], Net16(|segment|));
    WordSumConcat(PseudoHeader(src, dst, |segment|), segment);
  }

  /** What a receiver computes over a TCP segment sent with its checksum filled in. */
  lemma TcpChecksumVerifies(src: u32, dst: u32, segment: seq<u8>)
    requires 20 <= |segment| < 0x1_0000 && segment[16] == 0 && segment[17] == 0
    ensures var pseudo := PseudoHeader(src, dst, |segment|);
            && 0 <= Sum16(pseudo + segment) <= 0xFFFF
            && Sum16(pseudo + Stored(segment, 16, Sum16(pseudo + segment))) == 0
  {
    var pseudo := PseudoHeader(src, dst, |segment|);
    ChecksumVerifies(pseudo + segment, 28);
    var c := Sum16(pseudo + segment);
    assert Stored(pseudo + segment, 28, c) == pseudo + Stored(segment, 16, c);
  }
}
