/** The TCP receive path of the HTTP client: in-order acceptance of one server
    stream whatever the network loses, repeats, reorders or cuts up. */
module TcpReceive {
  import opened Words
  import opened HttpParse

  const TCP_HEADER := 20

  datatype Segment = Segment(srcPort: u16, dstPort: u16, seqNum: u32, flags: u8, data: seq<u8>)

  predicate Fin(f: u8) { f % 2 == 1 }
  predicate Syn(f: u8) { (f / 2) % 2 == 1 }
  predicate Rst(f: u8) { (f / 4) % 2 == 1 }
  predicate Ack(f: u8) { (f / 16) % 2 == 1 }

  /** The segment an IP payload carries, if its header is whole. */
  function SegmentOf(b: seq<u8>): Option<Segment> {
    if |b| < TCP_HEADER then None
    else
      var words: int := b[12] / 16;
      var offset := 4 * words;
      if offset < TCP_HEADER || offset > |b| then None
      else Some(Segment(Be16(b, 0), Be16(b, 2), Be32(b, 4), b[13], b[offset..]))
  }

  // ---- the bytes of a segment -----------------------------------------------------------

  /** A header field by field (RFC 9293, section 3.1); words counts its 32-bit words. */
  datatype Header = Header(srcPort: u16, dstPort: u16, seqNum: u32, ackNum: u32, words: nat, reserved: nat,
                           flags: u8, window: u16, checksum: u16, urgent: u16, options: seq<u8>)

  predicate WellFormed(h: Header) {
    5 <= h.words < 16 && h.reserved < 16 && |h.options| == 4 * h.words - TCP_HEADER
  }

  function FrontBytes(h: Header): (b: seq<u8>)
    requires WellFormed(h)
    ensures |b| == 14
  {
    Net16(h.srcPort) + Net16(h.dstPort) + Net32(h.seqNum) + Net32(h.ackNum) + [16 * h.words + h.reserved, h.flags]
  }

  function HeaderBytes(h: Header): (b: seq<u8>)
    requires WellFormed(h)
    ensures |b| == 4 * h.words
  {
    FrontBytes(h) + (Net16(h.window) + Net16(h.checksum) + Net16(h.urgent) + h.options)
  }

  /** Reading a field from a place where its bytes stand. */
  lemma NetAt(b: seq<u8>, i: nat)
    ensures forall x: u16 | i + 2 <= |b| && b[i..i + 2] == Net16(x) :: Be16(b, i) == x
    ensures forall x: u32 | i + 4 <= |b| && b[i..i + 4] == Net32(x) :: Be32(b, i) == x
  {
    forall x: u16 | i + 2 <= |b| && b[i..i + 2] == Net16(x)
      ensures Be16(b, i) == x
    {
      NetRoundTrip(x, 0);
      assert b[i..i + 2][0] == b[i] && b[i..i + 2][1] == b[i + 1];
    }
    forall x: u32 | i + 4 <= |b| && b[i..i + 4] == Net32(x)
      ensures Be32(b, i) == x
    {
      NetRoundTrip(0, x);
      var s := b[i..i + 4];
      assert s[0] == b[i] && s[1] == b[i + 1] && s[2] == b[i + 2] && s[3] == b[i + 3];
    }
  }

  lemma FrontFields(h: Header)
    requires WellFormed(h)
    ensures var b := FrontBytes(h);
            && b[0..2] == Net16(h.srcPort) && b[2..4] == Net16(h.dstPort)
            && b[4..8] == Net32(h.seqNum) && b[8..12] == Net32(h.ackNum)
            && b[12] == 16 * h.words + h.reserved && b[13] == h.flags
  {
  }

  /** A segment is decoded as it was put together, whatever its other fields and options. */
  lemma SegmentDecoded(h: Header, data: seq<u8>)
    requires WellFormed(h)
    ensures SegmentOf(HeaderBytes(h) + data) == Some(Segment(h.srcPort, h.dstPort, h.seqNum, h.flags, data))
  {
    var (b, front) := (HeaderBytes(h) + data, FrontBytes(h));
    FrontFields(h);
    assert forall i | 0 <= i < 14 :: b[i] == front[i];
    assert b[0..2] == front[0..2] && b[2..4] == front[2..4] && b[4..8] == front[4..8];
    NetAt(b, 0);
    NetAt(b, 2);
    NetAt(b, 4);
    var words: int := b[12] / 16;
    assert words == h.words;
    assert b[4 * h.words..] == data;
  }

  /** The payload is that segment behind some header. */
  ghost predicate Carries(b: seq<u8>, s: Segment) {
    exists h :: WellFormed(h) && h.srcPort == s.srcPort && h.dstPort == s.dstPort && h.seqNum == s.seqNum
                && h.flags == s.flags && b == HeaderBytes(h) + s.data
  }

  /** Decoding succeeds exactly for payloads that carry a segment, and gives that segment. */
  lemma SegmentOfIs(b: seq<u8>)
    ensures forall s :: SegmentOf(b) == Some(s) <==> Carries(b, s)
    ensures SegmentOf(b).None? <==> |b| < 20 || b[12] / 16 < 5 || 4 * (b[12] / 16) > |b|
  {
    forall s | Carries(b, s)
      ensures SegmentOf(b) == Some(s)
    {
      var h :| WellFormed(h) && h.srcPort == s.srcPort && h.dstPort == s.dstPort && h.seqNum == s.seqNum
               && h.flags == s.flags && b == HeaderBytes(h) + s.data;
      SegmentDecoded(h, s.data);
    }
    if SegmentOf(b).Some? {
      var h := HeaderOf(b);
      HeaderRebuilt(b);
      assert Carries(b, SegmentOf(b).value);
    }
  }

  function HeaderOf(b: seq<u8>): (h: Header)
    requires SegmentOf(b).Some?
    ensures WellFormed(h)
  {
    var words: nat := b[12] / 16;
    Header(Be16(b, 0), Be16(b, 2), Be32(b, 4), Be32(b, 8), words, b[12] % 16, b[13],
           Be16(b, 14), Be16(b, 16), Be16(b, 18), b[20..4 * words])
  }

  lemma FrontRebuilt(b: seq<u8>)
    requires SegmentOf(b).Some?
    ensures FrontBytes(HeaderOf(b)) == b[..14]
  {
    var h := HeaderOf(b);
    NetOnto(b, 0);
    NetOnto(b, 2);
    NetOnto(b, 4);
    NetOnto(b, 8);
    assert [16 * h.words + h.reserved, h.flags] == b[12..14];
    assert b[..14] == b[0..2] + b[2..4] + b[4..8] + b[8..12] + b[12..14];
  }

  lemma BackRebuilt(b: seq<u8>)
    requires SegmentOf(b).Some?
    ensures var h := HeaderOf(b);
            Net16(h.window) + Net16(h.checksum) + Net16(h.urgent) + h.options == b[14..4 * h.words]
  {
    var h := HeaderOf(b);
    NetOnto(b, 14);
    NetOnto(b, 16);
    NetOnto(b, 18);
    assert b[14..4 * h.words] == b[14..16] + b[16..18] + b[18..20] + b[20..4 * h.words];
  }

  lemma HeaderRebuilt(b: seq<u8>)
    requires SegmentOf(b).Some?
    ensures b == HeaderBytes(HeaderOf(b)) + b[4 * HeaderOf(b).words..]
  {
    FrontRebuilt(b);
    BackRebuilt(b);
    var n := 4 * HeaderOf(b).words;
    assert b[..14] + b[14..n] == b[..n];
  }

  datatype Address = Address(active: bool, remoteIp: u32, localPort: u16, remotePort: u16)

  /** acks lists the acknowledgement numbers sent so far. */
  datatype Conn = Conn(address: Address, connecting: bool, established: bool, finSeen: bool,
                       seqRemote: u32, parse: Parse, acks: seq<u32>)

  function Plus(x: u32, n: nat): u32 { (x + n) % TWO_32 }

  function TakeData(c: Conn, seqNum: u32, data: seq<u8>, room: nat): Conn {
    if data != [] && seqNum == c.seqRemote then
      c.(seqRemote := Plus(c.seqRemote, |data|), parse := Feed(c.parse, data, room),
         acks := c.acks + [Plus(c.seqRemote, |data|)])
    else c
  }

  function TakeFin(c: Conn, seqNum: u32, len: nat): Conn {
    var next := if Plus(seqNum, len) == c.seqRemote then Plus(c.seqRemote, 1) else c.seqRemote;
    c.(seqRemote := next, finSeen := true, acks := c.acks + [next])
  }

  function Receive(c: Conn, s: Segment, room: nat): Conn {
    if Rst(s.flags) then c.(parse := c.parse.(failed := true))
    else if c.connecting && Syn(s.flags) && Ack(s.flags) then
      var next := Plus(s.seqNum, 1);
      c.(seqRemote := next, connecting := false, established := true, acks := c.acks + [next])
    else if !c.established then c
    else
      var d := TakeData(c, s.seqNum, s.data, room);
      if Fin(s.flags) then TakeFin(d, s.seqNum, |s.data|) else d
  }

  predicate Addressed(a: Address, srcIp: u32, s: Segment) {
    a.active && srcIp == a.remoteIp && s.srcPort == a.remotePort && s.dstPort == a.localPort
  }

  datatype Delivery = Delivery(srcIp: u32, payload: seq<u8>)

  function Handle(c: Conn, d: Delivery, room: nat): Conn {
    var s := SegmentOf(d.payload);
    if s.Some? && Addressed(c.address, d.srcIp, s.value) then Receive(c, s.value, room) else c
  }

  function Run(c: Conn, ds: seq<Delivery>, room: nat): Conn
    decreases |ds|
  {
    if ds == [] then c else Run(Handle(c, ds[0], room), ds[1..], room)
  }

  // ---- one server stream -------------------------------------------------------

  /** The byte at stream position k travels under sequence number isn + 1 + k. */
  datatype Server = Server(isn: u32, stream: seq<u8>)

  ghost predicate PieceAt(v: Server, s: Segment, off: nat) {
    && off + |s.data| <= |v.stream|
    && s.seqNum == Plus(v.isn, 1 + off)
    && s.data == v.stream[off..off + |s.data|]
    && (Fin(s.flags) ==> off + |s.data| == |v.stream|)
  }

  /** What the server may ever send: a reset, its SYN, a bare acknowledgement under any
      sequence number, or any piece of the stream, with FIN only at the end. */
  ghost predicate FromServer(v: Server, s: Segment) {
    || Rst(s.flags)
    || (Syn(s.flags) && !Fin(s.flags) && s.seqNum == v.isn && s.data == [])
    || (!Syn(s.flags) && !Fin(s.flags) && s.data == [])
    || (!Syn(s.flags) && exists off: nat :: PieceAt(v, s, off))
  }

  /** Traffic under the connection's addresses comes from the server; any other is arbitrary. */
  ghost predicate Honest(a: Address, v: Server, d: Delivery) {
    forall s | Carries(d.payload, s) && Addressed(a, d.srcIp, s) :: FromServer(v, s)
  }

  /** Sequence and acknowledgement numbers after acc accepted bytes, and the FIN iff fin. */
  ghost predicate Counts(c: Conn, v: Server, acc: nat, fin: bool) {
    && acc <= |v.stream| < TWO_32 - 1
    && (fin ==> c.established && acc == |v.stream|)
    && (c.established ==> !c.connecting && c.acks != [] && c.acks[|c.acks| - 1] == c.seqRemote
                          && c.seqRemote == Plus(v.isn, 1 + acc + if fin then 1 else 0))
    && (!c.established ==> acc == 0)
  }

  /** The parse is that of the first acc bytes; a reset may have failed the session on top. */
  ghost predicate Parses(p: Parse, v: Server, room: nat, acc: nat) {
    && acc <= |v.stream|
    && var q := Feed(FRESH, v.stream[..acc], room);
       p == q || p == q.(failed := true)
  }

  /** acc bytes of the stream have been accepted, and the FIN after them iff fin. */
  ghost predicate Tracks(c: Conn, v: Server, room: nat, acc: nat, fin: bool) {
    Counts(c, v, acc, fin) && Parses(c.parse, v, room, acc)
  }

  lemma SequenceIsPosition(isn: u32, a: nat, b: nat)
    requires -TWO_32 < a - b < TWO_32 && Plus(isn, a) == Plus(isn, b)
    ensures a == b
  {
    var x, y: int := isn + a, isn + b;
    assert x - y == TWO_32 * (x / TWO_32 - y / TWO_32);
  }

  lemma PlusPlus(x: u32, a: nat, b: nat)
    ensures Plus(Plus(x, a), b) == Plus(x, a + b)
  {
    var q := (x + a) / TWO_32;
    assert x + a + b == (Plus(x, a) + b) + TWO_32 * q;
  }

  lemma ParsesMore(p: Parse, v: Server, room: nat, acc: nat, data: seq<u8>)
    requires Parses(p, v, room, acc) && acc + |data| <= |v.stream| && data == v.stream[acc..acc + |data|]
    ensures Parses(Feed(p, data, room), v, room, acc + |data|)
  {
    ghost var before := v.stream[..acc];
    assert v.stream[..acc + |data|] == before + data;
    FeedChunks(FRESH, before, data, room);
    if p != Feed(FRESH, before, room) {
      FeedFailed(Feed(FRESH, before, room), data, room);
    }
  }

  lemma TakeDataTracks(c: Conn, v: Server, s: Segment, room: nat, acc: nat, fin: bool, off: nat) returns (acc': nat)
    requires Tracks(c, v, room, acc, fin) && c.established && PieceAt(v, s, off)
    ensures acc' == (if s.data != [] && off == acc then acc + |s.data| else acc)
    ensures Tracks(TakeData(c, s.seqNum, s.data, room), v, room, acc', fin)
  {
    acc' := acc;
    if s.data != [] && s.seqNum == c.seqRemote {
      SequenceIsPosition(v.isn, 1 + off, 1 + acc + if fin then 1 else 0);
      acc' := acc + |s.data|;
      PlusPlus(v.isn, 1 + acc, |s.data|);
      ParsesMore(c.parse, v, room, acc, s.data);
    }
  }

  /** A FIN is consumed exactly when the whole stream has been accepted. */
  lemma TakeFinTracks(c: Conn, v: Server, s: Segment, room: nat, acc: nat, fin: bool, off: nat)
    requires Tracks(c, v, room, acc, fin) && c.established && PieceAt(v, s, off) && Fin(s.flags)
    ensures Tracks(TakeFin(c, s.seqNum, |s.data|), v, room, acc, acc == |v.stream|)
  {
    PlusPlus(v.isn, 1 + off, |s.data|);
    PlusPlus(v.isn, 1 + acc, 1);
    if Plus(s.seqNum, |s.data|) == c.seqRemote {
      SequenceIsPosition(v.isn, 1 + |v.stream|, 1 + acc + if fin then 1 else 0);
    }
  }

  /** One delivery: the accepted bytes stay a prefix of the stream and never shrink. */
  lemma HandleTracks(c: Conn, v: Server, d: Delivery, room: nat, acc: nat, fin: bool) returns (acc': nat, fin': bool)
    requires Tracks(c, v, room, acc, fin) && Honest(c.address, v, d)
    ensures acc <= acc' && (fin ==> fin') && Tracks(Handle(c, d, room), v, room, acc', fin')
  {
    acc', fin' := acc, fin;
    var so := SegmentOf(d.payload);
    SegmentOfIs(d.payload);
    if so.Some? && Addressed(c.address, d.srcIp, so.value) && !Rst(so.value.flags) {
      var s := so.value;
      if c.established && !Syn(s.flags) && (Fin(s.flags) || s.data != []) {
        var off: nat :| PieceAt(v, s, off);
        acc' := TakeDataTracks(c, v, s, room, acc, fin, off);
        if Fin(s.flags) {
          TakeFinTracks(TakeData(c, s.seqNum, s.data, room), v, s, room, acc', fin, off);
          fin' := acc' == |v.stream|;
        }
      }
    }
  }

  /** For any order, loss, repetition and segmentation, and any foreign traffic. */
  lemma {:induction false} RunTracks(c: Conn, v: Server, ds: seq<Delivery>, room: nat, acc: nat, fin: bool)
      returns (acc': nat, fin': bool)
    requires Tracks(c, v, room, acc, fin) && forall d | d in ds :: Honest(c.address, v, d)
    ensures acc <= acc' && (fin ==> fin') && Tracks(Run(c, ds, room), v, room, acc', fin')
    decreases |ds|
  {
    if ds == [] {
      return acc, fin;
    }
    var acc1, fin1 := HandleTracks(c, v, ds[0], room, acc, fin);
    acc', fin' := RunTracks(Handle(c, ds[0], room), v, ds[1..], room, acc1, fin1);
  }

  function Connecting(a: Address): Conn {
    Conn(a, true, false, false, 0, FRESH, [])
  }

  /** Safety from the first SYN on: what the session has parsed is always the parse
      of a prefix of the server's stream. */
  lemma ReceivedIsPrefix(a: Address, v: Server, ds: seq<Delivery>, room: nat) returns (acc: nat, fin: bool)
    requires |v.stream| < TWO_32 - 1
    requires forall d | d in ds :: Honest(a, v, d)
    ensures Tracks(Run(Connecting(a), ds, room), v, room, acc, fin)
  {
    assert v.stream[..0] == [];
    acc, fin := RunTracks(Connecting(a), v, ds, room, 0, false);
  }

  /** The next byte the receiver wants is the first of the final segment, the FIN behind
      it, or what follows the FIN. */
  predicate Completes(c: Conn, s: Segment) {
    || s.seqNum == c.seqRemote
    || Plus(s.seqNum, |s.data|) == c.seqRemote
    || Plus(s.seqNum, |s.data| + 1) == c.seqRemote
  }

  lemma CompletesMeans(c: Conn, v: Server, s: Segment, acc: nat, fin: bool, off: nat)
    requires Counts(c, v, acc, fin) && c.established
    requires s.seqNum == Plus(v.isn, 1 + off) && off + |s.data| == |v.stream|
    ensures Completes(c, s) <==> acc == off || acc == |v.stream|
  {
    var next := 1 + acc + if fin then 1 else 0;
    PlusPlus(v.isn, 1 + off, |s.data|);
    PlusPlus(v.isn, 1 + off, |s.data| + 1);
    if s.seqNum == c.seqRemote {
      SequenceIsPosition(v.isn, 1 + off, next);
    }
    if Plus(s.seqNum, |s.data|) == c.seqRemote {
      SequenceIsPosition(v.isn, 1 + |v.stream|, next);
    }
    if Plus(s.seqNum, |s.data| + 1) == c.seqRemote {
      SequenceIsPosition(v.isn, 2 + |v.stream|, next);
    }
  }

  /** After a FIN segment, "FIN seen" is set in any case, yet the stream is complete exactly
      when the receiver was waiting for that segment, for its FIN, or for nothing more. */
  lemma FinSeenMeansComplete(c: Conn, v: Server, s: Segment, room: nat, acc: nat, fin: bool) returns (acc': nat)
    requires Tracks(c, v, room, acc, fin) && c.established
    requires FromServer(v, s) && Fin(s.flags) && !Rst(s.flags)
    ensures Receive(c, s, room).finSeen
    ensures Tracks(Receive(c, s, room), v, room, acc', acc' == |v.stream|)
    ensures acc' == |v.stream| <==> Completes(c, s)
  {
    var off: nat :| PieceAt(v, s, off);
    CompletesMeans(c, v, s, acc, fin, off);
    acc' := TakeDataTracks(c, v, s, room, acc, fin, off);
    TakeFinTracks(TakeData(c, s.seqNum, s.data, room), v, s, room, acc', fin, off);
  }

  /** An early FIN: "FIN seen" while nothing of a one-byte stream has arrived. */
  lemma FinSeenTooEarly(c: Conn, v: Server, room: nat)
    requires |v.stream| == 1 && c.established && Tracks(c, v, room, 0, false)
    ensures var s := Segment(c.address.remotePort, c.address.localPort, Plus(v.isn, 2), 1, []);
            && FromServer(v, s)
            && Receive(c, s, room).finSeen
            && Tracks(Receive(c, s, room), v, room, 0, false)
  {
    var s := Segment(c.address.remotePort, c.address.localPort, Plus(v.isn, 2), 1, []);
    assert PieceAt(v, s, 1);
    if Plus(v.isn, 2) == c.seqRemote {
      SequenceIsPosition(v.isn, 2, 1);
    }
  }

  // ---- what each packet does --------------------------------------------------------------

  /** Packets for another connection, or while none is active, change nothing. */
  lemma ForeignIgnored(c: Conn, srcIp: u32, h: Header, data: seq<u8>, room: nat)
    requires WellFormed(h)
    requires !c.address.active || srcIp != c.address.remoteIp
             || h.srcPort != c.address.remotePort || h.dstPort != c.address.localPort
    ensures Handle(c, Delivery(srcIp, HeaderBytes(h) + data), room) == c
  {
    SegmentDecoded(h, data);
  }

  /** A payload too short for its header changes nothing. */
  lemma MalformedIgnored(c: Conn, d: Delivery, room: nat)
    requires var b := d.payload; |b| < 20 || b[12] / 16 < 5 || 4 * (b[12] / 16) > |b|
    ensures Handle(c, d, room) == c
  {
    SegmentOfIs(d.payload);
  }

  predicate ForUs(a: Address, srcIp: u32, h: Header) {
    && WellFormed(h) && a.active && srcIp == a.remoteIp && h.srcPort == a.remotePort && h.dstPort == a.localPort
  }

  /** A reset (bit 2) fails the session; what has been received stays. */
  lemma ResetFails(c: Conn, srcIp: u32, h: Header, data: seq<u8>, room: nat)
    requires ForUs(c.address, srcIp, h) && h.flags / 4 % 2 == 1
    ensures Handle(c, Delivery(srcIp, HeaderBytes(h) + data), room) == c.(parse := c.parse.(failed := true))
  {
    SegmentDecoded(h, data);
  }

  /** While connecting, SYN and ACK (bits 1 and 4) together establish the connection: the next
      byte is the one behind the SYN, and it is acknowledged. Any other packet is ignored. */
  lemma HandshakeEstablishes(c: Conn, srcIp: u32, h: Header, data: seq<u8>, room: nat)
    requires ForUs(c.address, srcIp, h) && h.flags / 4 % 2 == 0 && c.connecting && !c.established
    ensures var r := Handle(c, Delivery(srcIp, HeaderBytes(h) + data), room);
            if h.flags / 2 % 2 == 1 && h.flags / 16 % 2 == 1 then
              && r.established && !r.connecting && r.seqRemote == (h.seqNum + 1) % TWO_32
              && r.acks == c.acks + [r.seqRemote]
              && r.parse == c.parse && r.finSeen == c.finSeen && r.address == c.address
            else r == c
  {
    SegmentDecoded(h, data);
  }

  // ---- a network that loses nothing -------------------------------------------------------

  /** The packet brings this segment to the connection, under whatever header. */
  ghost predicate Brings(d: Delivery, a: Address, s: Segment) {
    Addressed(a, d.srcIp, s) && Carries(d.payload, s)
  }

  lemma BroughtIsReceived(c: Conn, d: Delivery, s: Segment, room: nat)
    requires Brings(d, c.address, s)
    ensures Handle(c, d, room) == Receive(c, s, room)
  {
    SegmentOfIs(d.payload);
  }

  /** Data packets that carry the stream from position off up to position end, in order. */
  ghost predicate InOrder(a: Address, v: Server, off: nat, end: nat, segs: seq<Segment>, ds: seq<Delivery>)
    decreases |ds|
  {
    && |segs| == |ds|
    && if ds == [] then off == end else
         && Brings(ds[0], a, segs[0]) && !Rst(segs[0].flags) && !Fin(segs[0].flags) && PieceAt(v, segs[0], off)
         && InOrder(a, v, off + |segs[0].data|, end, segs[1..], ds[1..])
  }

  /** Exactly acc bytes have been accepted and parsed. */
  ghost predicate Accepted(c: Conn, a: Address, v: Server, room: nat, acc: nat) {
    && c.established && c.address == a && Counts(c, v, acc, false)
    && acc <= |v.stream| && c.parse == Feed(FRESH, v.stream[..acc], room)
  }

  lemma PieceAccepted(c: Conn, a: Address, v: Server, s: Segment, room: nat, acc: nat)
    requires Accepted(c, a, v, room, acc) && PieceAt(v, s, acc)
    ensures Accepted(TakeData(c, s.seqNum, s.data, room), a, v, room, acc + |s.data|)
  {
    PlusPlus(v.isn, 1 + acc, |s.data|);
    assert v.stream[..acc + |s.data|] == v.stream[..acc] + s.data;
    FeedChunks(FRESH, v.stream[..acc], s.data, room);
  }

  /** Pieces arriving in order are all accepted, however the stream was cut up. */
  lemma {:induction false} PiecesAccepted(c: Conn, a: Address, v: Server, room: nat, acc: nat, end: nat,
                                          segs: seq<Segment>, ds: seq<Delivery>)
    requires Accepted(c, a, v, room, acc) && InOrder(a, v, acc, end, segs, ds)
    ensures Accepted(Run(c, ds, room), a, v, room, end)
    decreases |ds|
  {
    if ds != [] {
      var s := segs[0];
      BroughtIsReceived(c, ds[0], s, room);
      PieceAccepted(c, a, v, s, room, acc);
      PiecesAccepted(Handle(c, ds[0], room), a, v, room, acc + |s.data|, end, segs[1..], ds[1..]);
    }
  }

  /** The whole stream has been parsed, and everything up to and including the FIN acknowledged. */
  predicate Delivered(c: Conn, v: Server, room: nat) {
    && c.established && c.finSeen && c.parse == Feed(FRESH, v.stream, room)
    && c.seqRemote == (v.isn + |v.stream| + 2) % TWO_32
    && c.acks != [] && c.acks[|c.acks| - 1] == c.seqRemote
  }

  lemma LastAccepted(c: Conn, a: Address, v: Server, s: Segment, room: nat, acc: nat, r: Conn)
    requires Accepted(c, a, v, room, acc) && PieceAt(v, s, acc) && acc + |s.data| == |v.stream|
    requires r == TakeFin(TakeData(c, s.seqNum, s.data, room), s.seqNum, |s.data|)
    ensures Delivered(r, v, room)
  {
    PieceAccepted(c, a, v, s, room, acc);
    PlusPlus(v.isn, 1 + acc, |s.data|);
    PlusPlus(v.isn, 1 + |v.stream|, 1);
    assert v.stream[..|v.stream|] == v.stream;
  }

  lemma {:induction false} RunConcat(c: Conn, ds: seq<Delivery>, es: seq<Delivery>, room: nat)
    ensures Run(c, ds + es, room) == Run(Run(c, ds, room), es, room)
    decreases |ds|
  {
    if ds == [] {
      assert ds + es == es;
    } else {
      assert (ds + es)[1..] == ds[1..] + es;
      RunConcat(Handle(c, ds[0], room), ds[1..], es, room);
    }
  }

  /** The deliveries in three parts. */
  lemma RunInParts(c: Conn, first: Delivery, ds: seq<Delivery>, last: Delivery, room: nat)
    ensures Run(c, [first] + ds + [last], room) == Handle(Run(Handle(c, first, room), ds, room), last, room)
  {
    assert [first] + ds + [last] == [first] + (ds + [last]) && ([first] + (ds + [last]))[1..] == ds + [last];
    var m := Handle(c, first, room);
    RunConcat(m, ds, [last], room);
    assert [last][1..] == [];
    assert Run(Run(m, ds, room), [last], room) == Handle(Run(m, ds, room), last, room);
  }

  lemma Greeted(a: Address, v: Server, d: Delivery, s: Segment, room: nat)
    requires |v.stream| < TWO_32 - 1 && Brings(d, a, s)
    requires Syn(s.flags) && Ack(s.flags) && !Rst(s.flags) && s.seqNum == v.isn
    ensures Accepted(Handle(Connecting(a), d, room), a, v, room, 0)
  {
    BroughtIsReceived(Connecting(a), d, s, room);
    assert v.stream[..0] == [];
  }

  lemma RestDelivered(c: Conn, a: Address, v: Server, room: nat, ds: seq<Delivery>, segs: seq<Segment>,
                      last: Delivery, fin: Segment, off: nat)
    requires Accepted(c, a, v, room, 0) && InOrder(a, v, 0, off, segs, ds)
    requires Brings(last, a, fin) && Fin(fin.flags) && !Rst(fin.flags) && PieceAt(v, fin, off)
    ensures Delivered(Handle(Run(c, ds, room), last, room), v, room)
  {
    PiecesAccepted(c, a, v, room, 0, off, segs, ds);
    var all := Run(c, ds, room);
    BroughtIsReceived(all, last, fin, room);
    LastAccepted(all, a, v, fin, room, off, Handle(all, last, room));
  }

  /** When the network loses and reorders nothing, the session ends with the whole stream. */
  lemma SessionDelivers(a: Address, v: Server, room: nat, first: Delivery, syn: Segment,
                        ds: seq<Delivery>, segs: seq<Segment>, last: Delivery, fin: Segment, off: nat)
    requires |v.stream| < TWO_32 - 1
    requires Brings(first, a, syn) && Syn(syn.flags) && Ack(syn.flags) && !Rst(syn.flags) && syn.seqNum == v.isn
    requires InOrder(a, v, 0, off, segs, ds)
    requires Brings(last, a, fin) && Fin(fin.flags) && !Rst(fin.flags) && PieceAt(v, fin, off)
    ensures Delivered(Run(Connecting(a), [first] + ds + [last], room), v, room)
  {
    Greeted(a, v, first, syn, room);
    RestDelivered(Handle(Connecting(a), first, room), a, v, room, ds, segs, last, fin, off);
    RunInParts(Connecting(a), first, ds, last, room);
  }
}
