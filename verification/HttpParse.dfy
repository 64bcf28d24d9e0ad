/** The receive side of an HTTP session: an incremental split of the byte
    stream into a header of at most 1023 bytes and a body copied to the caller. */
module HttpParse {
  import opened Words

  const HEADER_MAX := 1023
  const CR: u8 := 13
  const LF: u8 := 10
  const SPACE: u8 := 32

  /** header: collected header bytes; done: the blank line has been seen; total: body
      bytes seen, modulo 2^32; out: what went to the caller's buffer; cut: some did not. */
  datatype Parse = Parse(header: seq<u8>, done: bool, failed: bool, status: Option<nat>,
                         total: u32, out: seq<u8>, cut: bool)

  const FRESH := Parse([], false, false, None, 0, [], false)

  // ---- one byte at a time ----------------------------------------------------

  predicate EndsHeader(h: seq<u8>) {
    var n := |h|;
    n >= 4 && h[n - 4] == CR && h[n - 3] == LF && h[n - 2] == CR && h[n - 1] == LF
  }

  function Printable(b: u8): u8 {
    if b < 32 && b != LF && b != CR && b != 9 then 46 else b
  }

  function BodyByte(p: Parse, b: u8, room: nat): Parse {
    var q := p.(total := (p.total + 1) % TWO_32);
    if |p.out| + 1 < room then q.(out := p.out + [Printable(b)]) else q.(cut := true)
  }

  function HeaderByte(p: Parse, b: u8): Parse {
    if |p.header| < HEADER_MAX then
      var h := p.header + [b];
      if EndsHeader(h) then p.(header := h, done := true, status := if StatusOf(h).Some? then StatusOf(h) else p.status)
      else p.(header := h)
    else p.(failed := true)
  }

  function Byte(p: Parse, b: u8, room: nat): Parse {
    if p.done then BodyByte(p, b, room) else HeaderByte(p, b)
  }

  /** The state after a run of bytes; `room` is the size of the caller's buffer, 0 if there is none. */
  function Feed(p: Parse, data: seq<u8>, room: nat): Parse
    decreases |data|
  {
    if data == [] then p else Byte(Feed(p, data[..|data| - 1], room), data[|data| - 1], room)
  }

  // ---- the status line ---------------------------------------------------------

  function SkipWhile(h: seq<u8>, i: nat, spaces: bool): (r: nat)
    requires i <= |h|
    ensures i <= r <= |h|
    decreases |h| - i
  {
    if i < |h| && (h[i] == SPACE) == spaces then SkipWhile(h, i + 1, spaces) else i
  }

  predicate Digit(b: u8) { 48 <= b <= 57 }

  /** Three digits after the first run of spaces. */
  function StatusOf(h: seq<u8>): Option<nat> {
    var i := SkipWhile(h, SkipWhile(h, 0, false), true);
    if i + 2 < |h| && Digit(h[i]) && Digit(h[i + 1]) && Digit(h[i + 2]) then
      var a: int, b: int, c: int := h[i] - 48, h[i + 1] - 48, h[i + 2] - 48;
      Some(100 * a + 10 * b + c)
    else None
  }

  /** A version without spaces, a run of spaces, and a code of three decimal digits. */
  predicate StatusLine(line: seq<u8>, version: seq<u8>, gap: seq<u8>, code: nat) {
    && SPACE !in version && gap != [] && (forall b | b in gap :: b == SPACE) && code < 1000
    && line == version + gap + [48 + code / 100, 48 + code / 10 % 10, 48 + code % 10]
  }

  lemma {:induction false} SkipWhileTo(h: seq<u8>, i: nat, j: nat, spaces: bool)
    requires i <= j <= |h| && forall k | i <= k < j :: (h[k] == SPACE) == spaces
    requires j == |h| || (h[j] == SPACE) != spaces
    ensures SkipWhile(h, i, spaces) == j
    decreases j - i
  {
    if i < j {
      SkipWhileTo(h, i + 1, j, spaces);
    }
  }

  lemma {:induction false} SkipWhileStops(h: seq<u8>, i: nat, spaces: bool)
    requires i <= |h|
    ensures var j := SkipWhile(h, i, spaces);
            (forall k | i <= k < j :: (h[k] == SPACE) == spaces) && (j == |h| || (h[j] == SPACE) != spaces)
    decreases |h| - i
  {
    if i < |h| && (h[i] == SPACE) == spaces {
      SkipWhileStops(h, i + 1, spaces);
    }
  }

  lemma StatusPlace(h: seq<u8>, version: seq<u8>, gap: seq<u8>, rest: seq<u8>)
    requires SPACE !in version && (forall b | b in gap :: b == SPACE)
    requires h == version + gap + rest && gap != [] && (rest == [] || rest[0] != SPACE)
    ensures SkipWhile(h, SkipWhile(h, 0, false), true) == |version| + |gap|
  {
    var i := |version|;
    var j := i + |gap|;
    assert forall k | 0 <= k < i :: h[k] == version[k];
    assert forall k | i <= k < j :: h[k] == gap[k - i] && gap[k - i] in gap;
    SkipWhileTo(h, 0, i, false);
    SkipWhileTo(h, i, j, true);
  }

  /** The code is read as it is written, whatever follows it. */
  lemma StatusRead(line: seq<u8>, version: seq<u8>, gap: seq<u8>, code: nat, rest: seq<u8>)
    requires StatusLine(line, version, gap, code)
    ensures StatusOf(line + rest) == Some(code)
  {
    var (h, j) := (line + rest, |version| + |gap|);
    var (x, y, z) := (code / 100, code / 10 % 10, code % 10);
    assert 100 * x + 10 * y + z == code;
    var digits: seq<u8> := [48 + x, 48 + y, 48 + z];
    assert h == version + gap + (digits + rest);
    StatusPlace(h, version, gap, digits + rest);
    assert h[j] == digits[0] && h[j + 1] == digits[1] && h[j + 2] == digits[2];
  }

  /** Where a code has been found there is such a line. */
  lemma StatusFound(h: seq<u8>, code: nat) returns (i: nat, j: nat)
    requires StatusOf(h) == Some(code)
    ensures i <= j <= |h| - 3 && StatusLine(h[..j + 3], h[..i], h[i..j], code)
  {
    i := SkipWhile(h, 0, false);
    j := SkipWhile(h, i, true);
    SkipWhileStops(h, 0, false);
    SkipWhileStops(h, i, true);
    ThreeDigits(h[j], h[j + 1], h[j + 2], code);
    assert h[..j + 3] == h[..i] + h[i..j] + [h[j], h[j + 1], h[j + 2]];
  }

  lemma ThreeDigits(a: u8, b: u8, c: u8, code: nat)
    requires Digit(a) && Digit(b) && Digit(c)
    requires var x: int, y: int, z: int := a - 48, b - 48, c - 48; code == 100 * x + 10 * y + z
    ensures code < 1000 && [a, b, c] == [48 + code / 100, 48 + code / 10 % 10, 48 + code % 10]
  {
    var x: int, y: int := a - 48, b - 48;
    assert code / 100 == x && code / 10 == 10 * x + y;
  }

  /** A code is found exactly when the header begins with such a line. */
  lemma StatusOfIs(h: seq<u8>, code: nat)
    ensures StatusOf(h) == Some(code) <==>
            exists n: nat, version, gap :: n <= |h| && StatusLine(h[..n], version, gap, code)
  {
    if StatusOf(h) == Some(code) {
      var i, j := StatusFound(h, code);
    }
    forall n: nat, version, gap | n <= |h| && StatusLine(h[..n], version, gap, code)
      ensures StatusOf(h) == Some(code)
    {
      StatusRead(h[..n], version, gap, code, h[n..]);
      assert h == h[..n] + h[n..];
    }
  }

  // ---- what the whole stream means ---------------------------------------------

  /** Length of the shortest prefix that ends in a blank line. */
  ghost predicate HeaderEndsAt(s: seq<u8>, n: nat) {
    n <= |s| && EndsHeader(s[..n]) && forall m | 0 <= m < n :: !EndsHeader(s[..m])
  }

  function PrintableAll(s: seq<u8>): seq<u8> {
    seq(|s|, i requires 0 <= i < |s| => Printable(s[i]))
  }

  /** Body bytes the caller's buffer can take: one is kept for the terminator. */
  function Room(room: nat): nat { if room == 0 then 0 else room - 1 }

  /** The meaning of a stream whose header is its first n bytes. */
  function Split(s: seq<u8>, n: nat, room: nat): Parse
    requires n <= |s|
  {
    var body := s[n..];
    var kept := Min(|body|, Room(room));
    Parse(s[..n], true, false, StatusOf(s[..n]), |body| % TWO_32, PrintableAll(body[..kept]), kept < |body|)
  }

  /** The meaning of a stream whose header is not complete within 1023 bytes. */
  function Unsplit(s: seq<u8>): Parse {
    FRESH.(header := s[..Min(|s|, HEADER_MAX)], failed := |s| > HEADER_MAX)
  }

  lemma HeaderGrows(t: seq<u8>, b: u8)
    requires |t| < HEADER_MAX ==> !EndsHeader(t + [b])
    ensures HeaderByte(Unsplit(t), b) == Unsplit(t + [b])
  {
    var s := t + [b];
    if |t| < HEADER_MAX {
      assert t[..|t|] == t && s[..|s|] == s;
    } else {
      assert t[..HEADER_MAX] == s[..HEADER_MAX];
    }
  }

  lemma HeaderCompletes(t: seq<u8>, b: u8, room: nat)
    requires |t| < HEADER_MAX && EndsHeader(t + [b])
    ensures HeaderByte(Unsplit(t), b) == Split(t + [b], |t| + 1, room)
  {
    var s := t + [b];
    assert t[..|t|] == t && s[..|s|] == s && s[|s|..] == [];
  }

  ghost predicate NoEndUpTo(s: seq<u8>, n: nat)
    requires n <= |s|
  {
    forall m | 0 <= m <= n :: !EndsHeader(s[..m])
  }

  lemma NoEndPrefix(s: seq<u8>, k: nat, n: nat)
    requires n <= k <= |s| && NoEndUpTo(s, n)
    ensures NoEndUpTo(s[..k], n)
  {
    forall m | 0 <= m <= n
      ensures !EndsHeader(s[..k][..m])
    {
      assert s[..k][..m] == s[..m];
    }
  }

  lemma {:induction false} FeedUnsplit(s: seq<u8>, room: nat)
    requires NoEndUpTo(s, Min(|s|, HEADER_MAX))
    ensures Feed(FRESH, s, room) == Unsplit(s)
    decreases |s|
  {
    if s != [] {
      var t, b := s[..|s| - 1], s[|s| - 1];
      NoEndPrefix(s, |s| - 1, Min(|t|, HEADER_MAX));
      FeedUnsplit(t, room);
      assert t + [b] == s == s[..|s|];
      HeaderGrows(t, b);
    }
  }

  /** With a header of at most 1023 bytes the session holds exactly header, status,
      body length, and the sanitised body cut to the buffer. */
  lemma {:induction false} FeedSplit(s: seq<u8>, n: nat, room: nat)
    requires HeaderEndsAt(s, n) && n <= HEADER_MAX
    ensures Feed(FRESH, s, room) == Split(s, n, room)
    decreases |s|
  {
    var t, b := s[..|s| - 1], s[|s| - 1];
    assert t + [b] == s;
    if n == |s| {
      NoEndPrefix(s, n - 1, n - 1);
      FeedUnsplit(t, room);
      assert s[..n] == s;
      HeaderCompletes(t, b, room);
    } else {
      assert t[..n] == s[..n];
      assert forall m | 0 <= m < n :: t[..m] == s[..m];
      FeedSplit(t, n, room);
      BodyGrows(t, b, n, room);
    }
  }

  /** A stream that begins with such a line, a version without a line feed, parses to its code. */
  lemma StatusArrives(line: seq<u8>, version: seq<u8>, gap: seq<u8>, code: nat, rest: seq<u8>, n: nat, room: nat)
    requires StatusLine(line, version, gap, code) && LF !in version
    requires HeaderEndsAt(line + rest, n) && n <= HEADER_MAX
    ensures Feed(FRESH, line + rest, room).status == Some(code)
  {
    var s := line + rest;
    FeedSplit(s, n, room);
    var last: int := s[..n][n - 1];
    assert last == s[n - 1] == LF;
    assert forall k | 0 <= k < |line| :: s[k] == line[k] && (line[k] in version || line[k] in gap || 48 <= line[k]);
    assert n > |line|;
    assert s[..n] == line + s[|line|..n];
    StatusRead(line, version, gap, code, s[|line|..n]);
  }

  lemma EndsHeaderMeans(h: seq<u8>)
    ensures EndsHeader(h) <==> |h| >= 4 && h[|h| - 4..] == [13, 10, 13, 10]
  {
    if |h| >= 4 {
      var last := h[|h| - 4..];
      assert last[0] == h[|h| - 4] && last[1] == h[|h| - 3] && last[2] == h[|h| - 2] && last[3] == h[|h| - 1];
    }
  }

  const CONTROLS_KEPT: set<u8> := {9, 10, 13}

  /** A header of m bytes that ends at the first blank line, then the body: the header is
      collected, and the caller gets the body up to his buffer less one, control characters
      other than tab, line feed and carriage return shown as dots. */
  lemma BodyArrives(header: seq<u8>, body: seq<u8>, room: nat)
    requires 4 <= |header| <= 1023 && header[|header| - 4..] == [13, 10, 13, 10]
    requires forall m | 4 <= m < |header| :: header[..m][m - 4..] != [13, 10, 13, 10]
    ensures var p := Feed(FRESH, header + body, room);
            && p.header == header && p.done && !p.failed && p.total == |body| % TWO_32
            && |p.out| == Min(|body|, if room == 0 then 0 else room - 1) && p.cut == (|p.out| < |body|)
            && forall i | 0 <= i < |p.out| ::
                 p.out[i] == if body[i] >= 32 || body[i] in CONTROLS_KEPT then body[i] else 46
  {
    var (s, n) := (header + body, |header|);
    assert s[..n] == header && s[n..] == body;
    forall m | 0 <= m < n
      ensures !EndsHeader(s[..m])
    {
      assert s[..m] == header[..m];
      EndsHeaderMeans(header[..m]);
    }
    EndsHeaderMeans(header);
    FeedSplit(s, n, room);
  }

  lemma BodyGrows(t: seq<u8>, b: u8, n: nat, room: nat)
    requires n <= |t|
    ensures BodyByte(Split(t, n, room), b, room) == Split(t + [b], n, room)
  {
    var s := t + [b];
    var body, body' := t[n..], s[n..];
    assert s[..n] == t[..n] && body' == body + [b];
    KeptGrows(body, b, room);
    assert (|body| % TWO_32 + 1) % TWO_32 == (|body| + 1) % TWO_32;
  }

  lemma KeptGrows(body: seq<u8>, b: u8, room: nat)
    ensures var out := PrintableAll(body[..Min(|body|, Room(room))]);
            PrintableAll((body + [b])[..Min(|body| + 1, Room(room))])
            == if |out| + 1 < room then out + [Printable(b)] else out
  {
    if |body| < Room(room) {
      assert body[..|body|] == body && (body + [b])[..|body| + 1] == body + [b];
    } else {
      assert (body + [b])[..Room(room)] == body[..Room(room)];
    }
  }

  /** Feeding is independent of how the stream is cut into pieces. */
  lemma {:induction false} FeedChunks(p: Parse, a: seq<u8>, b: seq<u8>, room: nat)
    ensures Feed(p, a + b, room) == Feed(Feed(p, a, room), b, room)
    decreases |b|
  {
    if b == [] {
      assert a + b == a;
    } else {
      var c := b[..|b| - 1];
      assert (a + b)[..|a + b| - 1] == a + c;
      FeedChunks(p, a, c, room);
    }
  }

  /** "failed" is sticky and has no other influence. */
  lemma {:induction false} FeedFailed(p: Parse, data: seq<u8>, room: nat)
    ensures Feed(p.(failed := true), data, room) == Feed(p, data, room).(failed := true)
    decreases |data|
  {
    if data != [] {
      var c, b := data[..|data| - 1], data[|data| - 1];
      FeedFailed(p, c, room);
      ByteFailed(Feed(p, c, room), b, room);
    }
  }

  lemma ByteFailed(p: Parse, b: u8, room: nat)
    ensures Byte(p.(failed := true), b, room) == Byte(p, b, room).(failed := true)
  {
  }

  /** Every stream either has a header end or has none, so the two cases are all. */
  lemma FeedMeaning(s: seq<u8>, room: nat)
    ensures (exists n: nat :: n <= HEADER_MAX && HeaderEndsAt(s, n) && Feed(FRESH, s, room) == Split(s, n, room))
            || ((forall n: nat | HeaderEndsAt(s, n) :: n > HEADER_MAX) && Feed(FRESH, s, room) == Unsplit(s))
  {
    if exists m: nat :: m <= |s| && m <= HEADER_MAX && EndsHeader(s[..m]) {
      var m: nat :| m <= |s| && m <= HEADER_MAX && EndsHeader(s[..m]);
      var n := FirstEnd(s, m);
      FeedSplit(s, n, room);
    } else {
      assert NoEndUpTo(s, Min(|s|, HEADER_MAX));
      FeedUnsplit(s, room);
    }
  }

  lemma FirstEnd(s: seq<u8>, m: nat) returns (n: nat)
    requires m <= |s| && EndsHeader(s[..m])
    ensures n <= m && HeaderEndsAt(s, n)
  {
    n := 0;
    while !EndsHeader(s[..n])
      invariant n <= m
      invariant forall k | 0 <= k < n :: !EndsHeader(s[..k])
      decreases m - n
    {
      n := n + 1;
    }
  }
}
