/** The HTTP client's session record and the handlers that update it in place. */
module HttpSession {
  import opened Words
  import opened HttpParse
  import opened TcpReceive

  const HEADER_BUF := 1024

  /** Bytes the caller's buffer can still take when it holds n. */
  function Left(n: nat, room: nat): nat {
    if n + 1 < room then room - 1 - n else 0
  }

  /** A run of body bytes at once. */
  function Appended(p: Parse, data: seq<u8>, room: nat): Parse {
    var k := Min(|data|, Left(|p.out|, room));
    p.(total := (p.total + |data|) % TWO_32, out := p.out + PrintableAll(data[..k]), cut := p.cut || k < |data|)
  }

  lemma AppendedGrows(p: Parse, data: seq<u8>, b: u8, room: nat)
    ensures BodyByte(Appended(p, data, room), b, room) == Appended(p, data + [b], room)
  {
    var x: nat := p.total + |data|;
    assert (x % TWO_32 + 1) % TWO_32 == (x + 1) % TWO_32;
    var left := Left(|p.out|, room);
    if |data| < left {
      assert data[..|data|] == data && (data + [b])[..|data| + 1] == data + [b];
      assert PrintableAll(data + [b]) == PrintableAll(data) + [Printable(b)];
    } else {
      assert (data + [b])[..left] == data[..left];
    }
  }

  lemma AppendedNext(p: Parse, data: seq<u8>, i: nat, room: nat)
    requires i < |data|
    ensures var q, r := Appended(p, data[..i], room), Appended(p, data[..i + 1], room);
            if |q.out| + 1 < room then r.out == q.out + [Printable(data[i])] && r.cut == q.cut
            else r.out == q.out && r.cut
  {
    AppendedGrows(p, data[..i], data[i], room);
    assert data[..i + 1] == data[..i] + [data[i]];
  }

  /** The caller's buffer after the first n bytes have been put into it one by one, and
      whether a byte has been cut off. */
  function PutAll(out: seq<u8>, cut: bool, data: seq<u8>, n: nat, room: nat): (seq<u8>, bool)
    requires n <= |data|
  {
    if n == 0 then (out, cut)
    else
      var (o, c) := PutAll(out, cut, data, n - 1, room);
      if |o| + 1 < room then (o + [Printable(data[n - 1])], c) else (o, true)
  }

  lemma {:induction false} PutAllAppends(p: Parse, data: seq<u8>, n: nat, room: nat)
    requires n <= |data|
    ensures var q := Appended(p, data[..n], room); PutAll(p.out, p.cut, data, n, room) == (q.out, q.cut)
  {
    if n == 0 {
      assert p.out + PrintableAll(data[..0]) == p.out;
    } else {
      PutAllAppends(p, data, n - 1, room);
      AppendedNext(p, data, n - 1, room);
    }
  }

  lemma {:induction false} FeedBody(p: Parse, data: seq<u8>, room: nat)
    requires p.done
    ensures Feed(p, data, room) == Appended(p, data, room)
    decreases |data|
  {
    if data == [] {
      assert p.out + PrintableAll([]) == p.out;
    } else {
      var c, b := data[..|data| - 1], data[|data| - 1];
      FeedBody(p, c, room);
      AppendedGrows(p, c, b, room);
      assert c + [b] == data;
    }
  }

  lemma {:induction false} FeedFull(p: Parse, data: seq<u8>, room: nat)
    ensures !p.done && |p.header| >= HEADER_MAX ==>
              Feed(p, data, room) == if data == [] then p else p.(failed := true)
    decreases |data|
  {
    if data != [] {
      FeedFull(p, data[..|data| - 1], room);
    }
  }

  lemma FeedOne(p: Parse, data: seq<u8>, i: nat, room: nat)
    requires i < |data|
    ensures Feed(p, data[..i + 1], room) == Byte(Feed(p, data[..i], room), data[i], room)
  {
    assert data[..i + 1][..i] == data[..i];
  }

  /** Body bytes put one by one are the body fed at once. */
  lemma FeedPutAll(p: Parse, data: seq<u8>, room: nat)
    requires p.done
    ensures var (o, c) := PutAll(p.out, p.cut, data, |data|, room);
            Feed(p, data, room) == p.(total := (p.total + |data|) % TWO_32, out := o, cut := c)
  {
    FeedBody(p, data, room);
    PutAllAppends(p, data, |data|, room);
    assert data[..|data|] == data;
  }

  class Session {
    var address: Address
    var connecting: bool
    var established: bool
    var failed: bool
    var finSeen: bool
    var headerDone: bool
    var bodyTruncated: bool
    var status: Option<nat>
    var seqRemote: u32
    var bodyTotal: u32
    var bodyOut: array?<u8>
    var bodyOutSize: nat
    var bodyOutPos: nat
    const headerBuf: array<u8>
    var headerLen: nat
    var acks: seq<u32>

    /** A session about to connect, with the caller's buffer for the body. */
    constructor (a: Address, out: array?<u8>, outSize: nat)
      requires out != null ==> outSize <= out.Length
      ensures Valid() && fresh(headerBuf)
      ensures View() == Connecting(a) && bodyOut == out && bodyOutSize == outSize
    {
      address, connecting, established, failed, finSeen := a, true, false, false, false;
      headerDone, bodyTruncated, status := false, false, None;
      seqRemote, bodyTotal, acks := 0, 0, [];
      bodyOut, bodyOutSize, bodyOutPos := out, outSize, 0;
      headerBuf := new u8[HEADER_BUF](_ => 0);
      headerLen := 0;
    }

    function Room(): nat
      reads this`bodyOut, this`bodyOutSize
    {
      if bodyOut == null then 0 else bodyOutSize
    }

    ghost predicate Valid()
      reads this`headerLen, this`bodyOut, this`bodyOutSize, this`bodyOutPos
    {
      && headerBuf.Length == HEADER_BUF && headerLen <= HEADER_MAX
      && (bodyOut != null ==> bodyOut != headerBuf && bodyOutSize <= bodyOut.Length)
      && (bodyOutPos == 0 || bodyOutPos < Room())
      && (bodyOut == null ==> bodyOutPos == 0)
    }

    ghost function ParseView(): Parse
      requires Valid()
      reads this`headerLen, this`headerDone, this`failed, this`status, headerBuf
      reads this`bodyTotal, this`bodyOut, this`bodyOutSize, this`bodyOutPos, this`bodyTruncated, bodyOut
    {
      Parse(headerBuf[..headerLen], headerDone, failed, status, bodyTotal,
            Out(), bodyTruncated)
    }

    ghost function View(): Conn
      requires Valid()
      reads this, headerBuf, bodyOut
    {
      Conn(address, connecting, established, finSeen, seqRemote, ParseView(), acks)
    }

    method ParseStatusLine()
      requires Valid()
      modifies this`status
      ensures Valid()
      ensures var h := headerBuf[..headerLen];
              status == if StatusOf(h).Some? then StatusOf(h) else old(status)
    {
      ghost var h := headerBuf[..headerLen];
      var i := 0;
      while i < headerLen && headerBuf[i] != SPACE
        invariant i <= headerLen && SkipWhile(h, i, false) == SkipWhile(h, 0, false)
      {
        i := i + 1;
      }
      ghost var j := i;
      while i < headerLen && headerBuf[i] == SPACE
        invariant i <= headerLen && SkipWhile(h, i, true) == SkipWhile(h, j, true)
      {
        i := i + 1;
      }
      if i + 2 < headerLen && Digit(headerBuf[i]) && Digit(headerBuf[i + 1]) && Digit(headerBuf[i + 2]) {
        var a: int, b: int, c: int := headerBuf[i] - 48, headerBuf[i + 1] - 48, headerBuf[i + 2] - 48;
        status := Some(100 * a + 10 * b + c);
      }
    }

    ghost function Out(): seq<u8>
      requires Valid()
      reads this`bodyOut, this`bodyOutSize, this`bodyOutPos, this`headerLen, bodyOut
    {
      if bodyOut == null then [] else bodyOut[..bodyOutPos]
    }

    method PutBodyByte(b: u8)
      requires Valid()
      modifies this`bodyOutPos, this`bodyTruncated, bodyOut
      ensures Valid()
      ensures if old(bodyOutPos) + 1 < Room() then Out() == old(Out()) + [Printable(b)] && bodyTruncated == old(bodyTruncated)
              else Out() == old(Out()) && bodyTruncated
    {
      if bodyOut != null && bodyOutSize > 0 && bodyOutPos + 1 < bodyOutSize {
        var c := b;
        if c < 32 && c != LF && c != CR && c != 9 {
          c := 46;
        }
        bodyOut[bodyOutPos] := c;
        bodyOutPos := bodyOutPos + 1;
      } else {
        bodyTruncated := true;
      }
    }

    /** Copies body bytes to the caller's buffer, one place short of its end. */
    method CopyBody(data: seq<u8>)
      requires Valid()
      modifies this`bodyOutPos, this`bodyTruncated, bodyOut
      ensures Valid()
      ensures (Out(), bodyTruncated) == PutAll(old(Out()), old(bodyTruncated), data, |data|, Room())
      ensures bodyOut != null && bodyOutSize > 0 ==> bodyOut[bodyOutPos] == 0
    {
      var i := 0;
      while i < |data|
        invariant i <= |data| && Valid()
        invariant (Out(), bodyTruncated) == PutAll(old(Out()), old(bodyTruncated), data, i, Room())
      {
        assert bodyOutPos == |Out()|;
        PutBodyByte(data[i]);
        i := i + 1;
      }
      if bodyOut != null && bodyOutSize > 0 {
        bodyOut[bodyOutPos] := 0;
      }
    }

    method AppendBody(data: seq<u8>)
      requires Valid() && headerDone
      modifies this`bodyTotal, this`bodyOutPos, this`bodyTruncated, bodyOut
      ensures Valid() && ParseView() == old(Feed(ParseView(), data, Room()))
      ensures bodyOut != null && bodyOutSize > 0 ==> bodyOut[bodyOutPos] == 0
    {
      FeedPutAll(ParseView(), data, Room());
      bodyTotal := (bodyTotal + |data|) % TWO_32;
      CopyBody(data);
      assert headerBuf[..headerLen] == old(headerBuf[..headerLen]);
    }

    method PushHeader(b: u8)
      requires Valid() && headerLen < HEADER_MAX
      modifies this`headerLen, headerBuf
      ensures Valid() && headerBuf[..headerLen] == old(headerBuf[..headerLen]) + [b] && headerBuf[headerLen] == 0
    {
      headerBuf[headerLen] := b;
      headerLen := headerLen + 1;
      headerBuf[headerLen] := 0;
    }

    /** Stores one header byte; false when the buffer is full. */
    method StoreHeaderByte(b: u8) returns (stored: bool)
      requires Valid() && !headerDone
      modifies this`headerLen, this`headerDone, this`status, this`failed, headerBuf
      ensures Valid() && ParseView() == old(HeaderByte(ParseView(), b))
      ensures stored == (old(headerLen) < HEADER_MAX)
    {
      if headerLen + 1 >= HEADER_BUF {
        failed := true;
        return false;
      }
      PushHeader(b);
      var ends := HeaderEnded();
      if ends {
        headerDone := true;
        ParseStatusLine();
      }
      return true;
    }

    method HeaderEnded() returns (r: bool)
      requires Valid()
      ensures r <==> EndsHeader(headerBuf[..headerLen])
    {
      var n := headerLen;
      return n >= 4 && headerBuf[n - 4] == CR && headerBuf[n - 3] == LF && headerBuf[n - 2] == CR && headerBuf[n - 1] == LF;
    }

    method FeedData(data: seq<u8>)
      requires Valid()
      modifies this`headerLen, this`headerDone, this`status, this`failed, headerBuf
      modifies this`bodyTotal, this`bodyOutPos, this`bodyTruncated, bodyOut
      ensures Valid() && ParseView() == old(Feed(ParseView(), data, Room()))
    {
      if data == [] {
        return;
      }
      if headerDone {
        AppendBody(data);
        return;
      }
      ghost var p := ParseView();
      var i := 0;
      while i < |data| && !headerDone
        invariant i <= |data| && Valid() && ParseView() == Feed(p, data[..i], Room())
      {
        FeedOne(p, data, i, Room());
        FeedFull(ParseView(), data[i..], Room());
        FeedChunks(p, data[..i], data[i..], Room());
        assert data == data[..i] + data[i..];
        var stored := StoreHeaderByte(data[i]);
        if !stored {
          return;
        }
        i := i + 1;
      }
      FeedChunks(p, data[..i], data[i..], Room());
      assert data == data[..i] + data[i..];
      if i < |data| {
        AppendBody(data[i..]);
      }
    }

    method SendAck()
      requires Valid()
      modifies this`acks
      ensures Valid() && acks == old(acks) + [seqRemote]
    {
      acks := acks + [seqRemote];
    }

    method ReceiveData(seqNum: u32, data: seq<u8>)
      requires Valid()
      modifies this`seqRemote, this`acks
      modifies this`headerLen, this`headerDone, this`status, this`failed, headerBuf
      modifies this`bodyTotal, this`bodyOutPos, this`bodyTruncated, bodyOut
      ensures Valid() && View() == TakeData(old(View()), seqNum, data, Room())
    {
      ghost var (c, p) := (View(), ParseView());
      if |data| > 0 {
        if seqNum == seqRemote {
          seqRemote := (seqRemote + |data|) % TWO_32;
          assert ParseView() == p;
          FeedData(data);
          SendAck();
          assert ParseView() == Feed(p, data, Room()) && seqRemote == Plus(c.seqRemote, |data|);
        }
      }
    }

    method ReceiveFin(seqNum: u32, len: nat)
      requires Valid()
      modifies this`seqRemote, this`acks, this`finSeen
      ensures Valid() && View() == TakeFin(old(View()), seqNum, len)
    {
      if (seqNum + len) % TWO_32 == seqRemote {
        seqRemote := (seqRemote + 1) % TWO_32;
      }
      finSeen := true;
      SendAck();
    }

    method ReceiveSyn(seqNum: u32)
      requires Valid()
      modifies this`seqRemote, this`connecting, this`established, this`acks
      ensures Valid()
      ensures View() == old(View()).(seqRemote := Plus(seqNum, 1), connecting := false, established := true,
                                     acks := old(acks) + [Plus(seqNum, 1)])
    {
      seqRemote := (seqNum + 1) % TWO_32;
      connecting := false;
      established := true;
      SendAck();
    }

    /** A segment of this connection has arrived. */
    method HandleSegment(s: Segment)
      requires Valid()
      modifies this, headerBuf, bodyOut
      ensures Valid() && View() == old(Receive(View(), s, Room()))
    {
      if Rst(s.flags) {
        failed := true;
        return;
      }
      if connecting && Syn(s.flags) && Ack(s.flags) {
        ReceiveSyn(s.seqNum);
        return;
      }
      if !established {
        return;
      }
      ReceiveData(s.seqNum, s.data);
      if Fin(s.flags) {
        ReceiveFin(s.seqNum, |s.data|);
      }
    }

    /** A TCP payload has arrived from srcIp. */
    method HandleTcp(srcIp: u32, payload: seq<u8>)
      requires Valid()
      modifies this, headerBuf, bodyOut
      ensures Valid() && View() == old(Handle(View(), Delivery(srcIp, payload), Room()))
    {
      if |payload| < TCP_HEADER {
        return;
      }
      var words: int := payload[12] / 16;
      var offset := 4 * words;
      if offset < TCP_HEADER || offset > |payload| {
        return;
      }
      var s := Segment(Be16(payload, 0), Be16(payload, 2), Be32(payload, 4), payload[13], payload[offset..]);
      if !address.active || srcIp != address.remoteIp {
        return;
      }
      if s.srcPort != address.remotePort || s.dstPort != address.localPort {
        return;
      }
      HandleSegment(s);
    }
  }
}
