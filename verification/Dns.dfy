/** DNS names on the wire and the resolver's reading of a reply. */
module Dns {
  import opened Words

  const DOT: u8 := 46
  const MAX_LABEL := 63
  const MAX_JUMPS := 8
  const DNS_HEADER := 12

  type Host = h: seq<u8> | 0 !in h witness []

  // ---- encoding a host name ------------------------------------------------------

  /** Distance from position i to the next dot or the end. */
  function LabelLen(host: Host, i: nat): (n: nat)
    requires i <= |host|
    ensures i + n <= |host| && forall k | i <= k < i + n :: host[k] != DOT
    ensures i + n < |host| ==> host[i + n] == DOT
    decreases |host| - i
  {
    if i == |host| || host[i] == DOT then 0 else 1 + LabelLen(host, i + 1)
  }

  predicate LabelStart(host: Host, i: nat) {
    i <= |host| && (i == 0 || host[i - 1] == DOT)
  }

  /** Printable characters only, and every label has 1 to 63 of them. */
  ghost predicate Encodable(host: Host) {
    && (forall i | 0 <= i < |host| :: 33 <= host[i] <= 126)
    && (forall i: nat | LabelStart(host, i) :: 1 <= LabelLen(host, i) <= MAX_LABEL)
  }

  /** The wire form is the host shifted by one, with each dot replaced by the length
      of the label after it, and a zero byte at the end. */
  ghost function Wire(host: Host): (w: seq<u8>)
    requires Encodable(host)
    ensures |w| == |host| + 2
  {
    seq(|host| + 2, k requires 0 <= k < |host| + 2 => WireByte(host, k))
  }

  /** Byte k of the wire form, but for the final zero. */
  function CodeByte(host: Host, k: nat): int
    requires k <= |host|
  {
    if LabelStart(host, k) then LabelLen(host, k) else host[k - 1]
  }

  ghost function WireByte(host: Host, k: nat): u8
    requires Encodable(host) && k < |host| + 2
  {
    if k == |host| + 1 then 0 else CodeByte(host, k)
  }

  predicate Coded(host: Host, out: seq<u8>, n: nat)
    requires n <= |out| && n <= |host| + 1
  {
    forall k | 0 <= k < n :: out[k] == CodeByte(host, k)
  }

  /** Writes one label, its length first. */
  method PutLabel(host: Host, out: array<u8>, start: nat, n: nat)
    requires LabelStart(host, start) && n == LabelLen(host, start) <= MAX_LABEL
    requires start + 1 + n <= out.Length && Coded(host, out[..], start)
    modifies out
    ensures Coded(host, out[..], start + 1 + n)
  {
    var w := start;
    out[w] := n;
    w := w + 1;
    while w < start + 1 + n
      invariant start + 1 <= w <= start + 1 + n
      invariant Coded(host, out[..], w)
    {
      assert !LabelStart(host, w);
      out[w] := host[w - 1];
      w := w + 1;
    }
  }

  lemma LabelLenIs(host: Host, start: nat, n: nat)
    requires start + n <= |host| && forall k | start <= k < start + n :: host[k] != DOT
    requires start + n < |host| ==> host[start + n] == DOT
    ensures LabelLen(host, start) == n
    decreases n
  {
    if n > 0 {
      LabelLenIs(host, start + 1, n - 1);
    }
  }

  predicate LabelsFit(host: Host, n: nat) {
    forall k: nat | k < n && LabelStart(host, k) :: 1 <= LabelLen(host, k) <= MAX_LABEL
  }

  method EncodeName(host: Host, out: array<u8>, outSize: nat) returns (ok: bool, w: nat)
    requires outSize <= out.Length
    modifies out
    ensures ok <==> Encodable(host) && |host| + 2 <= outSize
    ensures ok ==> w == |host| + 2 && out[..w] == Wire(host)
  {
    var i: nat, labelStart: nat := 0, 0;
    while i < |host|
      invariant labelStart <= i <= |host| && LabelStart(host, labelStart) && labelStart <= outSize
      invariant forall k | labelStart <= k < i :: host[k] != DOT
      invariant forall k | 0 <= k < i :: 33 <= host[k] <= 126
      invariant LabelsFit(host, labelStart) && Coded(host, out[..], labelStart)
    {
      if host[i] == DOT {
        var labelLen := i - labelStart;
        LabelLenIs(host, labelStart, labelLen);
        if labelLen == 0 || labelLen > MAX_LABEL || labelStart + 1 + labelLen >= outSize {
          return false, 0;
        }
        PutLabel(host, out, labelStart, labelLen);
        assert forall k | labelStart < k <= i :: !LabelStart(host, k);
        i := i + 1;
        labelStart := i;
      } else {
        if host[i] < 33 || host[i] > 126 {
          return false, 0;
        }
        i := i + 1;
      }
    }
    var labelLen := i - labelStart;
    LabelLenIs(host, labelStart, labelLen);
    if labelLen == 0 || labelLen > MAX_LABEL || labelStart + 1 + labelLen + 1 > outSize {
      return false, 0;
    }
    PutLabel(host, out, labelStart, labelLen);
    assert forall k | labelStart < k <= i :: !LabelStart(host, k);
    assert LabelsFit(host, |host| + 1);
    out[i + 1] := 0;
    return true, i + 2;
  }

  predicate IsLabel(l: Host) {
    1 <= |l| <= 63 && forall b | b in l :: 33 <= b <= 126 && b != DOT
  }

  function Dotted(l: Host, rest: Host): Host { l + [DOT] + rest }

  /** Behind the first label and its dot everything is as in the rest of the host. */
  lemma DottedRest(l: Host, rest: Host, i: nat)
    requires DOT !in l && i <= |rest|
    ensures var (host, k) := (Dotted(l, rest), |l| + 1 + i);
            && LabelLen(host, k) == LabelLen(rest, i) && (LabelStart(host, k) <==> LabelStart(rest, i))
            && (i > 0 ==> host[k - 1] == rest[i - 1])
  {
    var (host, k) := (Dotted(l, rest), |l| + 1 + i);
    assert forall j | |l| + 1 <= j < |host| :: host[j] == rest[j - |l| - 1];
    LabelLenIs(host, k, LabelLen(rest, i));
  }

  lemma DottedFirst(l: Host, rest: Host)
    requires DOT !in l
    ensures var host := Dotted(l, rest);
            && LabelLen(host, 0) == |l| && (forall k | 0 < k <= |l| :: !LabelStart(host, k))
            && forall k | 0 <= k < |l| :: host[k] == l[k]
  {
    var host := Dotted(l, rest);
    assert forall k | 0 <= k < |l| :: host[k] == l[k] && l[k] in l;
    LabelLenIs(host, 0, |l|);
  }

  lemma LabelMeans(l: Host)
    requires DOT !in l
    ensures LabelLen(l, 0) == |l| && forall k | 0 < k <= |l| :: !LabelStart(l, k)
    ensures Encodable(l) <==> IsLabel(l)
  {
    assert forall k | 0 <= k < |l| :: l[k] in l;
    LabelLenIs(l, 0, |l|);
    assert LabelStart(l, 0);
  }

  /** A host can be encoded exactly when each of its labels has 1 to 63 characters, all of
      them printable. */
  lemma EncodableMeans(l: Host, rest: Host)
    requires DOT !in l
    ensures Encodable(Dotted(l, rest)) <==> IsLabel(l) && Encodable(rest)
    ensures Encodable(l) <==> IsLabel(l)
  {
    LabelMeans(l);
    DottedFirst(l, rest);
    if IsLabel(l) && Encodable(rest) {
      DottedEncodable(l, rest);
    }
    if Encodable(Dotted(l, rest)) {
      PartsEncodable(l, rest);
    }
  }

  lemma PartsEncodable(l: Host, rest: Host)
    requires DOT !in l && Encodable(Dotted(l, rest))
    ensures IsLabel(l) && Encodable(rest)
  {
    var host := Dotted(l, rest);
    DottedFirst(l, rest);
    assert LabelStart(host, 0);
    assert forall k | 0 <= k < |l| :: l[k] == host[k];
    assert forall k | 0 <= k < |rest| :: rest[k] == host[|l| + 1 + k];
    forall i: nat | LabelStart(rest, i)
      ensures 1 <= LabelLen(rest, i) <= MAX_LABEL
    {
      DottedRest(l, rest, i);
    }
  }

  lemma DottedEncodable(l: Host, rest: Host)
    requires IsLabel(l) && Encodable(rest)
    ensures Encodable(Dotted(l, rest))
  {
    var host := Dotted(l, rest);
    DottedFirst(l, rest);
    forall i | 0 <= i < |host|
      ensures 33 <= host[i] <= 126
    {
      if i < |l| {
        assert host[i] == l[i] && l[i] in l;
      } else if i > |l| {
        assert host[i] == rest[i - |l| - 1];
      }
    }
    forall i: nat | LabelStart(host, i)
      ensures 1 <= LabelLen(host, i) <= MAX_LABEL
    {
      if i > |l| {
        DottedRest(l, rest, i - |l| - 1);
      }
    }
  }

  /** The wire form label by label (RFC 1035, section 3.1): a length byte and the label's
      characters each, and a zero byte at the end. */
  lemma WireOfDotted(l: Host, rest: Host)
    requires IsLabel(l) && Encodable(rest)
    ensures Encodable(Dotted(l, rest)) && Wire(Dotted(l, rest)) == [|l|] + l + Wire(rest)
  {
    var host := Dotted(l, rest);
    DottedEncodable(l, rest);
    DottedFirst(l, rest);
    forall k | 0 <= k < |host| + 2
      ensures WireByte(host, k) == ([|l|] + l + Wire(rest))[k]
    {
      if k > |l| && k <= |host| {
        DottedRest(l, rest, k - |l| - 1);
      }
    }
  }

  lemma WireOfLabel(l: Host)
    requires IsLabel(l)
    ensures Encodable(l) && Wire(l) == [|l|] + l + [0]
  {
    LabelMeans(l);
  }

  // ---- reading names back ----------------------------------------------------------

  predicate IsPointer(c: u8) { c >= 192 }

  function PointerTarget(msg: seq<u8>, pos: nat): nat
    requires pos + 1 < |msg|
  {
    Pair(msg[pos] % 64, msg[pos + 1])
  }

  /** The labels of the name at pos, following at most 8 compression pointers. */
  function ReadName(msg: seq<u8>, pos: nat, jumps: nat): Option<seq<seq<u8>>>
    decreases MAX_JUMPS - jumps, |msg| - pos
  {
    if pos >= |msg| then None
    else if msg[pos] == 0 then Some([])
    else if IsPointer(msg[pos]) then
      if pos + 1 >= |msg| || jumps >= MAX_JUMPS || PointerTarget(msg, pos) >= |msg| then None
      else ReadName(msg, PointerTarget(msg, pos), jumps + 1)
    else if msg[pos] > MAX_LABEL || pos + 1 + msg[pos] > |msg| then None
    else
      var rest := ReadName(msg, pos + 1 + msg[pos], jumps);
      if rest.None? then None else Some([msg[pos + 1..pos + 1 + msg[pos]]] + rest.value)
  }

  /** Where the name at pos ends in place: after its zero byte or its first pointer. */
  function NameEnd(msg: seq<u8>, pos: nat): nat
    decreases |msg| - pos
  {
    if pos >= |msg| then pos
    else if msg[pos] == 0 then pos + 1
    else if IsPointer(msg[pos]) then pos + 2
    else if msg[pos] > MAX_LABEL then pos
    else NameEnd(msg, pos + 1 + msg[pos])
  }

  method SkipName(msg: seq<u8>, offset: nat) returns (ok: bool, end: nat)
    ensures ok <==> ReadName(msg, offset, 0).Some?
    ensures ok ==> end == NameEnd(msg, offset)
  {
    var pos: nat, jumps: nat, jumped := offset, 0, false;
    end := offset;
    while pos < |msg|
      invariant jumps <= MAX_JUMPS
      invariant ReadName(msg, offset, 0).Some? <==> ReadName(msg, pos, jumps).Some?
      invariant NameEnd(msg, offset) == if jumped then end else NameEnd(msg, pos)
      decreases MAX_JUMPS - jumps, |msg| - pos
    {
      var c := msg[pos];
      if c == 0 {
        if !jumped {
          end := pos + 1;
        }
        return true, end;
      }
      if c >= 192 {
        if pos + 1 >= |msg| {
          return false, end;
        }
        if !jumped {
          end := pos + 2;
        }
        pos := PointerTarget(msg, pos);
        jumped := true;
        jumps := jumps + 1;
        if jumps > MAX_JUMPS || pos >= |msg| {
          return false, end;
        }
      } else {
        if c > MAX_LABEL || pos + 1 + c > |msg| {
          return false, end;
        }
        pos := pos + 1 + c;
      }
    }
    return false, end;
  }

  function Join(labels: seq<seq<u8>>): seq<u8> {
    if labels == [] then []
    else if |labels| == 1 then labels[0]
    else labels[0] + [DOT] + Join(labels[1..])
  }

  ghost predicate HoldsWire(host: Host, msg: seq<u8>, offset: nat)
    requires Encodable(host)
  {
    offset + |host| + 2 <= |msg| && forall k | 0 <= k < |host| + 2 :: msg[offset + k] == WireByte(host, k)
  }

  lemma WireLabel(host: Host, msg: seq<u8>, offset: nat, i: nat)
    requires Encodable(host) && HoldsWire(host, msg, offset) && LabelStart(host, i)
    ensures var n := LabelLen(host, i);
            && msg[offset + i] == n && 1 <= n <= MAX_LABEL
            && msg[offset + i + 1..offset + i + 1 + n] == host[i..i + n]
            && (i + n == |host| ==> msg[offset + i + 1 + n] == 0)
  {
    var n := LabelLen(host, i);
    assert WireByte(host, i) == n;
    var lab := msg[offset + i + 1..offset + i + 1 + n];
    forall k | 0 <= k < n
      ensures lab[k] == host[i + k]
    {
      assert !LabelStart(host, i + k + 1);
      assert lab[k] == msg[offset + (i + k + 1)] == WireByte(host, i + k + 1);
    }
    assert msg[offset + (i + 1 + n)] == WireByte(host, i + 1 + n);
  }

  lemma LabelRead(msg: seq<u8>, pos: nat, n: nat, jumps: nat)
    requires pos + 1 + n <= |msg| && msg[pos] == n && 1 <= n <= MAX_LABEL
    ensures var rest := ReadName(msg, pos + 1 + n, jumps);
            && ReadName(msg, pos, jumps)
               == (if rest.None? then None else Some([msg[pos + 1..pos + 1 + n]] + rest.value))
            && NameEnd(msg, pos) == NameEnd(msg, pos + 1 + n)
  {
  }

  /** From any label on, the wire form reads back as the rest of the host. */
  lemma {:induction false} WireReadsFrom(host: Host, msg: seq<u8>, offset: nat, i: nat, jumps: nat)
    requires Encodable(host) && HoldsWire(host, msg, offset) && LabelStart(host, i)
    ensures var r := ReadName(msg, offset + i, jumps);
            && r.Some? && r.value != [] && Join(r.value) == host[i..]
            && NameEnd(msg, offset + i) == offset + |host| + 2
    decreases |host| - i
  {
    WireLabel(host, msg, offset, i);
    var n := LabelLen(host, i);
    LabelRead(msg, offset + i, n, jumps);
    RestOfHost(host, i, n);
    if i + n == |host| {
      assert ReadName(msg, offset + i + 1 + n, jumps) == Some([]);
    } else {
      WireReadsFrom(host, msg, offset, i + n + 1, jumps);
      JoinMore(host[i..i + n], ReadName(msg, offset + i + 1 + n, jumps).value);
    }
  }

  lemma RestOfHost(host: seq<u8>, i: nat, n: nat)
    requires i + n <= |host| && (i + n < |host| ==> host[i + n] == DOT)
    ensures host[i..] == if i + n == |host| then host[i..i + n] else host[i..i + n] + [DOT] + host[i + n + 1..]
  {
  }

  lemma JoinMore(lab: seq<u8>, rest: seq<seq<u8>>)
    requires rest != []
    ensures Join([lab] + rest) == lab + [DOT] + Join(rest)
  {
    assert ([lab] + rest)[1..] == rest;
  }

  /** An encoded name, wherever it stands in a message, reads back as the same host,
      and skipping it lands right behind it. */
  lemma WireRoundTrip(host: Host, msg: seq<u8>, offset: nat, jumps: nat)
    requires Encodable(host) && offset + |host| + 2 <= |msg|
    requires msg[offset..offset + |host| + 2] == Wire(host)
    ensures var r := ReadName(msg, offset, jumps);
            && r.Some? && Join(r.value) == host
            && NameEnd(msg, offset) == offset + |host| + 2
  {
    forall k | 0 <= k < |host| + 2
      ensures msg[offset + k] == WireByte(host, k)
    {
      assert msg[offset..offset + |host| + 2][k] == Wire(host)[k];
    }
    WireReadsFrom(host, msg, offset, 0, jumps);
    assert host[0..] == host;
  }

  /** Each position but the last holds a compression pointer to the next (RFC 1035, section 4.1.4). */
  predicate PointerChain(msg: seq<u8>, chain: seq<nat>) {
    chain != [] && forall i | 0 <= i < |chain| - 1 :: PointsTo(msg, chain[i], chain[i + 1])
  }

  predicate PointsTo(msg: seq<u8>, pos: nat, target: nat) {
    pos + 1 < |msg| && msg[pos] >= 192 &&
    var high: int, low: int := msg[pos], msg[pos + 1];
    target == 256 * (high - 192) + low
  }

  /** A name behind up to 8 pointers in a row is read; one behind more is refused, so that
      reading ends on every message. */
  lemma {:induction false} ChainFollowed(msg: seq<u8>, chain: seq<nat>, jumps: nat)
    requires PointerChain(msg, chain) && jumps <= 8
    ensures var last := jumps + |chain| - 1;
            ReadName(msg, chain[0], jumps) == if last <= 8 then ReadName(msg, chain[|chain| - 1], last) else None
    decreases |chain|
  {
    if |chain| > 1 {
      assert PointsTo(msg, chain[0], chain[0 + 1]);
      assert PointerTarget(msg, chain[0]) == chain[1];
      if jumps < 8 && chain[1] < |msg| {
        ChainFollowed(msg, chain[1..], jumps + 1);
      } else if |chain| > 2 {
        assert PointsTo(msg, chain[1], chain[1 + 1]);
      }
    }
  }

  // ---- reading a reply --------------------------------------------------------------

  datatype Record = Record(typ: u16, cls: u16, data: seq<u8>)

  /** The resource record at off and the position behind it. */
  function RecordAt(msg: seq<u8>, off: nat): Option<(Record, nat)> {
    if ReadName(msg, off, 0).None? then None
    else
      var at := NameEnd(msg, off);
      if at + 10 > |msg| then None
      else
        var rdlen := Be16(msg, at + 8);
        if at + 10 + rdlen > |msg| then None
        else Some((Record(Be16(msg, at), Be16(msg, at + 2), msg[at + 10..at + 10 + rdlen]), at + 10 + rdlen))
  }

  /** The well-formed records among the first n from off on. */
  function Records(msg: seq<u8>, off: nat, n: nat): seq<Record>
    decreases n
  {
    if n == 0 || RecordAt(msg, off).None? then []
    else
      var (r, next) := RecordAt(msg, off).value;
      [r] + Records(msg, next, n - 1)
  }

  /** The position behind n questions. */
  function AfterQuestions(msg: seq<u8>, off: nat, n: nat): Option<nat>
    decreases n
  {
    if n == 0 then Some(off)
    else if ReadName(msg, off, 0).None? || NameEnd(msg, off) + 4 > |msg| then None
    else AfterQuestions(msg, NameEnd(msg, off) + 4, n - 1)
  }

  predicate IsAddress(r: Record) {
    r.typ == 1 && r.cls == 1 && |r.data| == 4
  }

  /** The first Internet address among the records. */
  function FirstAddress(rs: seq<Record>): Option<u32> {
    if rs == [] then None
    else if IsAddress(rs[0]) then Some(Be32(rs[0].data, 0))
    else FirstAddress(rs[1..])
  }

  /** The address is that of the first record of type A (1), class IN (1) and four bytes. */
  lemma {:induction false} FirstAddressIsFirst(rs: seq<Record>) returns (k: nat)
    ensures k <= |rs| && forall j | 0 <= j < k :: rs[j].typ != 1 || rs[j].cls != 1 || |rs[j].data| != 4
    ensures k == |rs| ==> FirstAddress(rs).None?
    ensures k < |rs| ==>
              && rs[k].typ == 1 && rs[k].cls == 1 && |rs[k].data| == 4
              && FirstAddress(rs).Some? && Net32(FirstAddress(rs).value) == rs[k].data
  {
    if rs == [] {
      return 0;
    }
    if IsAddress(rs[0]) {
      NetOnto(rs[0].data, 0);
      assert rs[0].data[0..4] == rs[0].data;
      return 0;
    }
    k := FirstAddressIsFirst(rs[1..]);
    k := k + 1;
  }

  datatype State = State(waiting: bool, gotReply: bool, xid: u16, resultIp: u32)

  /** The outcome of a reply: ignored unless it answers our query, and then the first
      address among its answer records, if it has one. */
  function Answered(s: State, msg: seq<u8>): State {
    if !s.waiting || |msg| < DNS_HEADER || Be16(msg, 0) != s.xid || msg[2] < 128 then s
    else
      var done := s.(waiting := false);
      if msg[3] % 16 != 0 then done
      else
        var off := AfterQuestions(msg, DNS_HEADER, Be16(msg, 4));
        if off.None? then done
        else
          var ip := FirstAddress(Records(msg, off.value, Be16(msg, 6)));
          if ip.None? then done else done.(resultIp := ip.value, gotReply := true)
  }

  // ---- a whole exchange ---------------------------------------------------------------

  /** An answer record as servers send it, named by a pointer to the question's name. */
  predicate HoldsRecord(msg: seq<u8>, off: nat, r: Record) {
    var end := off + 12 + |r.data|;
    && end <= |msg| && msg[off] == 0xC0 && msg[off + 1] == DNS_HEADER
    && Be16(msg, off + 2) == r.typ && Be16(msg, off + 4) == r.cls && Be16(msg, off + 10) == |r.data|
    && msg[off + 12..end] == r.data
  }

  predicate HoldsRecords(msg: seq<u8>, off: nat, rs: seq<Record>)
    decreases |rs|
  {
    rs == [] || (HoldsRecord(msg, off, rs[0]) && HoldsRecords(msg, off + 12 + |rs[0].data|, rs[1..]))
  }

  lemma RecordRoundTrip(msg: seq<u8>, off: nat, r: Record)
    requires HoldsRecord(msg, off, r) && |msg| > DNS_HEADER && ReadName(msg, DNS_HEADER, 1).Some?
    ensures RecordAt(msg, off) == Some((r, off + 12 + |r.data|))
  {
    PointerToQuestion(msg, off);
    RecordFields(msg, off, r);
  }

  /** Behind a two-byte name the fields of a record are read as they stand. */
  lemma RecordFields(msg: seq<u8>, off: nat, r: Record)
    requires HoldsRecord(msg, off, r) && ReadName(msg, off, 0).Some? && NameEnd(msg, off) == off + 2
    ensures RecordAt(msg, off) == Some((r, off + 12 + |r.data|))
  {
  }

  lemma PointerToQuestion(msg: seq<u8>, off: nat)
    requires DNS_HEADER < |msg| && off + 1 < |msg| && msg[off] == 0xC0 && msg[off + 1] == DNS_HEADER
    ensures ReadName(msg, off, 0) == ReadName(msg, DNS_HEADER, 1) && NameEnd(msg, off) == off + 2
  {
    assert PointerTarget(msg, off) == DNS_HEADER;
  }

  lemma RecordsMore(msg: seq<u8>, off: nat, n: nat, r: Record, next: nat)
    requires RecordAt(msg, off) == Some((r, next)) && 0 < n
    ensures Records(msg, off, n) == [r] + Records(msg, next, n - 1)
  {
  }

  lemma {:induction false} RecordsRoundTrip(msg: seq<u8>, off: nat, rs: seq<Record>)
    requires HoldsRecords(msg, off, rs) && |msg| > DNS_HEADER && ReadName(msg, DNS_HEADER, 1).Some?
    ensures Records(msg, off, |rs|) == rs
    decreases |rs|
  {
    if rs != [] {
      RecordRoundTrip(msg, off, rs[0]);
      RecordsMore(msg, off, |rs|, rs[0], off + 12 + |rs[0].data|);
      RecordsRoundTrip(msg, off + 12 + |rs[0].data|, rs[1..]);
    }
  }

  /** A faithful reply to a one-name query delivers the first address it carries. */
  lemma ReplyDelivers(s: State, host: Host, msg: seq<u8>, rs: seq<Record>)
    requires s.waiting && Encodable(host) && DNS_HEADER + |host| + 6 <= |msg|
    requires Be16(msg, 0) == s.xid && msg[2] >= 128 && msg[3] % 16 == 0
    requires Be16(msg, 4) == 1 && Be16(msg, 6) == |rs|
    requires msg[DNS_HEADER..DNS_HEADER + |host| + 2] == Wire(host)
    requires HoldsRecords(msg, DNS_HEADER + |host| + 6, rs)
    ensures var r := Answered(s, msg);
            && !r.waiting && r.xid == s.xid
            && match FirstAddress(rs)
               case Some(ip) => r.gotReply && r.resultIp == ip
               case None => r.gotReply == s.gotReply && r.resultIp == s.resultIp
  {
    WireRoundTrip(host, msg, DNS_HEADER, 0);
    WireRoundTrip(host, msg, DNS_HEADER, 1);
    RecordsRoundTrip(msg, DNS_HEADER + |host| + 6, rs);
    assert AfterQuestions(msg, DNS_HEADER, 1) == Some(DNS_HEADER + |host| + 6);
  }

  /** A reply to the pending query: long enough, with its id, and marked as a response. */
  predicate IsReply(s: State, msg: seq<u8>) {
    s.waiting && |msg| >= 12 && msg[..2] == Net16(s.xid) && msg[2] / 128 == 1
  }

  /** Any other message changes nothing; a reply ends the wait, and if its response code is
      not zero, nothing else. */
  lemma OnlyReplies(s: State, msg: seq<u8>)
    ensures Answered(s, msg) == s <==> !IsReply(s, msg)
    ensures IsReply(s, msg) ==> !Answered(s, msg).waiting && Answered(s, msg).xid == s.xid
    ensures IsReply(s, msg) && msg[3] % 16 != 0 ==> Answered(s, msg) == s.(waiting := false)
  {
    if |msg| >= 12 {
      NetOnto(msg, 0);
      NetRoundTrip(s.xid, 0);
      assert msg[0..2] == msg[..2];
    }
  }

  function AnsweredAll(s: State, msgs: seq<seq<u8>>): State
    decreases |msgs|
  {
    if msgs == [] then s else AnsweredAll(Answered(s, msgs[0]), msgs[1..])
  }

  /** Whatever else arrives before and after it, the first reply decides. */
  lemma {:induction false} FirstReplyDecides(s: State, others: seq<seq<u8>>, reply: seq<u8>, more: seq<seq<u8>>)
    requires IsReply(s, reply) && forall m | m in others :: !IsReply(s, m)
    ensures AnsweredAll(s, others + [reply] + more) == Answered(s, reply)
    decreases |others|
  {
    var msgs := others + [reply] + more;
    if others == [] {
      assert msgs[0] == reply && msgs[1..] == more;
      OnlyReplies(s, reply);
      NothingAwaited(Answered(s, reply), more);
    } else {
      assert msgs[0] == others[0] && msgs[1..] == others[1..] + [reply] + more;
      OnlyReplies(s, others[0]);
      FirstReplyDecides(s, others[1..], reply, more);
    }
  }

  lemma {:induction false} NothingAwaited(s: State, msgs: seq<seq<u8>>)
    requires !s.waiting
    ensures AnsweredAll(s, msgs) == s
    decreases |msgs|
  {
    if msgs != [] {
      NothingAwaited(s, msgs[1..]);
    }
  }

  class Resolver {
    var waiting: bool
    var gotReply: bool
    var xid: u16
    var resultIp: u32

    function View(): State
      reads this
    {
      State(waiting, gotReply, xid, resultIp)
    }

    method SkipQuestions(msg: seq<u8>, count: nat) returns (r: Option<nat>)
      ensures r == AfterQuestions(msg, DNS_HEADER, count)
    {
      var off: nat, i: nat := DNS_HEADER, 0;
      while i < count
        invariant i <= count
        invariant AfterQuestions(msg, off, count - i) == AfterQuestions(msg, DNS_HEADER, count)
      {
        var ok, end := SkipName(msg, off);
        if !ok {
          return None;
        }
        off := end;
        if off + 4 > |msg| {
          return None;
        }
        off := off + 4;
        i := i + 1;
      }
      return Some(off);
    }

    method ReadRecord(msg: seq<u8>, off: nat) returns (r: Option<(Record, nat)>)
      ensures r == RecordAt(msg, off)
    {
      var ok, at := SkipName(msg, off);
      if !ok {
        return None;
      }
      if at + 10 > |msg| {
        return None;
      }
      var typ, cls, rdlen := Be16(msg, at), Be16(msg, at + 2), Be16(msg, at + 8);
      at := at + 10;
      if at + rdlen > |msg| {
        return None;
      }
      return Some((Record(typ, cls, msg[at..at + rdlen]), at + rdlen));
    }

    method FindAddress(msg: seq<u8>, start: nat, count: nat) returns (ip: Option<u32>)
      ensures ip == FirstAddress(Records(msg, start, count))
    {
      var off: nat, i: nat := start, 0;
      while i < count
        invariant i <= count
        invariant FirstAddress(Records(msg, off, count - i)) == FirstAddress(Records(msg, start, count))
      {
        var r := ReadRecord(msg, off);
        if r.None? {
          return None;
        }
        var (record, next) := r.value;
        if record.typ == 1 && record.cls == 1 && |record.data| == 4 {
          return Some(Be32(record.data, 0));
        }
        off, i := next, i + 1;
      }
      return None;
    }

    method HandleReply(msg: seq<u8>)
      modifies this
      ensures View() == Answered(old(View()), msg)
    {
      if !waiting || |msg| < DNS_HEADER {
        return;
      }
      if Be16(msg, 0) != xid {
        return;
      }
      if msg[2] / 128 == 0 {
        return;
      }
      if msg[3] % 16 != 0 {
        waiting := false;
        return;
      }
      var off := SkipQuestions(msg, Be16(msg, 4));
      if off.None? {
        waiting := false;
        return;
      }
      var ip := FindAddress(msg, off.value, Be16(msg, 6));
      if ip.Some? {
        resultIp := ip.value;
        gotReply := true;
      }
      waiting := false;
    }
  }
}
