/** The shell's `cp`: copy a file in 128-byte pieces through two descriptors. */
module CopyFile {
  import opened Words
  import opened BlockDevice
  import opened SfsLayout
  import opened SfsPath
  import opened SfsData
  import opened SfsTree
  import opened SfsOps
  import opened SfsNaming
  import opened SfsRuns
  import opened Vfs

  const PIECE := 128

  const READING := Flags(true, false, false, false)
  const REWRITING := Flags(false, true, true, true)

  /** What a copy from node a to node d has to deliver: the bytes of a, or nothing
      when a is not a readable file or is d itself, which opening has emptied. */
  function Source(s: State, a: nat, d: nat): seq<u8>
    requires Extents(s.super, s.table) && a < MAX_ENTRIES
  {
    if a != d && IsFile(s.table[a]) && Readable(s.table[a].perm) then Contents(s, a) else []
  }

  lemma SourceFits(s: State, a: nat, d: nat)
    requires Extents(s.super, s.table) && a < MAX_ENTRIES
    ensures |Source(s, a, d)| <= SECTOR_COUNT * 512
  {
    if Used(s.table[a]) {
      assert ExtentOk(s.table[a], s.super.nextFree);
    }
  }

  function Delivered(r: Option<seq<u8>>): seq<u8> {
    if r.Some? then r.value else []
  }

  /** While the first pos bytes have been copied, a read delivers the next piece. */
  lemma ReadsSource(s0: State, s: State, a: nat, d: nat, pos: nat)
    requires Extents(s0.super, s0.table) && Extents(s.super, s.table)
    requires a < MAX_ENTRIES && Used(s0.table[a]) && SameNode(s0.table[a], s.table[a])
    requires pos <= |Source(s0, a, d)| && Files(s) == Files(s0)[d := Source(s0, a, d)[..pos]]
    ensures var c := Source(s0, a, d);
            Delivered(Read(s, a, pos, PIECE)) == c[pos..Min(pos + PIECE, |c|)]
  {
    var c := Source(s0, a, d);
    if IsFile(s.table[a]) && Readable(s.table[a].perm) {
      assert Contents(s, a) == Files(s)[a];
      if a != d {
        assert Contents(s0, a) == Files(s0)[a];
        assert c[pos..] == c[pos..|c|];
      }
    }
  }

  lemma MapAppend(m0: map<nat, seq<u8>>, m: map<nat, seq<u8>>, d: nat, c: seq<u8>, pos: nat, n: nat)
    requires pos + n <= |c| && m == m0[d := c[..pos]]
    ensures Apply(m, Spliced(d, pos, c[pos..pos + n])) == m0[d := c[..pos + n]]
  {
    assert Splice(c[..pos], pos, c[pos..pos + n]) == c[..pos + n];
  }

  /** The outcome of a copy: on success the file that dst names holds exactly the source's bytes,
      on failure at most a prefix of them; no other file changes. */
  ghost predicate Outcome(s0: State, s: State, cwd: nat, src: CString, dst: CString, ok: bool)
    requires Inv(s0) && LiveDir(s0.table, cwd) && Extents(s.super, s.table)
  {
    var a := Lookup(s0.table, s0.super.rootId, src, cwd);
    if ok then
      a.Some? && exists d: nat ::
        Named(s0, s, dst, cwd, d) && CopiedUpTo(s0, s, a.value, d, |Source(s0, a.value, d)|)
    else
      Files(s) == Files(s0)
      || (a.Some? && exists d: nat, k: nat :: Named(s0, s, dst, cwd, d) && CopiedUpTo(s0, s, a.value, d, k))
  }

  /** Two descriptors are free. */
  ghost predicate TwoFree(fds: seq<Fd>) {
    exists i, j :: 0 <= i < j < |fds| && !fds[i].used && !fds[j].used
  }

  /** A copy fails only because a path cannot be opened, descriptors have run out
      or the device is full. */
  ghost predicate Excused(s0: State, s: State, cwd: nat, src: CString, dst: CString, fds: seq<Fd>)
    requires Inv(s0) && LiveDir(s0.table, cwd)
  {
    var a := Lookup(s0.table, s0.super.rootId, src, cwd);
    || a.None? || !CanOpen(s0, dst, cwd, REWRITING) || !TwoFree(fds)
    || exists d: nat ::
         Named(s0, s, dst, cwd, d) && s.super.nextFree + SectorsFor(|Source(s0, a.value, d)|) > SECTOR_COUNT
  }

  ghost predicate CopiedUpTo(s0: State, s: State, a: nat, d: nat, k: nat)
    requires Extents(s0.super, s0.table) && Extents(s.super, s.table) && a < MAX_ENTRIES
  {
    k <= |Source(s0, a, d)| && Files(s) == Files(s0)[d := Source(s0, a, d)[..k]]
  }

  predicate FdsRestored(before: seq<Fd>, after: seq<Fd>)
    requires |before| == |after|
  {
    forall i | 0 <= i < |before| :: if before[i].used then after[i] == before[i] else !after[i].used
  }

  /** Two descriptors: reading a at position p, writing d at position q. */
  ghost predicate Paired(v: FdTable, inFd: int, outFd: int, a: nat, d: nat, p: nat, q: nat)
    reads v, v.fds, v.fs, v.fs.entries, v.fs.dev
  {
    && v.Valid()
    && 0 <= inFd < MAX_FDS && 0 <= outFd < MAX_FDS && inFd != outFd
    && v.fds[inFd] == Fd(true, a, p, READING) && v.fds[outFd] == Fd(true, d, q, REWRITING)
  }

  /** State s of a copy from a to d begun in s0: the first pos bytes are there. */
  ghost predicate PartCopied(s0: State, t0: Table, s: State, a: nat, d: nat, pos: nat) {
    && Extents(s0.super, s0.table) && Extents(s.super, s.table) && a < MAX_ENTRIES && Used(s0.table[a])
    && SameNode(s0.table[a], t0[a]) && SameNodes(t0, s.table) && MayWrite(s, d)
    && s.super.nextFree + SECTOR_COUNT < TWO_32
    && CopiedUpTo(s0, s, a, d, pos)
  }

  /** Descriptors and files once the first pos bytes have been copied. */
  ghost predicate Copying(v: FdTable, inFd: int, outFd: int, s0: State, t0: Table, a: nat, d: nat, pos: nat)
    reads v, v.fds, v.fs, v.fs.entries, v.fs.dev
  {
    Paired(v, inFd, outFd, a, d, pos, pos) && PartCopied(s0, t0, v.fs.View(), a, d, pos)
  }

  /** Appending the next piece extends the copy, or fails and leaves it as it was. */
  lemma AppendsPiece(s0: State, t0: Table, s: State, a: nat, d: nat, pos: nat, n: nat)
    requires PartCopied(s0, t0, s, a, d, pos) && 0 < n && pos + n <= |Source(s0, a, d)|
    ensures var c := Source(s0, a, d);
            && Sound(s, d, pos, c[pos..pos + n])
            && var (w, ok) := Write(s, d, pos, c[pos..pos + n]);
               if ok then PartCopied(s0, t0, w, a, d, pos + n)
               else Extents(w.super, w.table) && CopiedUpTo(s0, w, a, d, pos) && SameNodes(t0, w.table)
                    && w.super.nextFree + SectorsFor(|c|) > SECTOR_COUNT
  {
    var c := Source(s0, a, d);
    var piece := c[pos..pos + n];
    SourceFits(s0, a, d);
    assert Contents(s, d) == Files(s)[d];
    assert |Contents(s, d)| == pos;
    AppendRefines(s, d, pos, piece);
    WriteKeepsNodes(s, d, pos, piece);
    SameNodesTwice(t0, s.table, Write(s, d, pos, piece).0.table);
    assert SameNode(s.table[d], Write(s, d, pos, piece).0.table[d]);
    MapAppend(Files(s0), Files(s), d, c, pos, n);
    if Write(s, d, pos, piece).1 {
      WriteKeepsPointer(s, d, pos, piece);
    } else {
      FailedWriteMeansFull(s, d, pos, piece);
    }
  }

  /** The reading half of a round: the next piece is in the buffer. */
  method FetchPiece(v: FdTable, inFd: int, outFd: int, buf: array<u8>,
                    ghost s0: State, ghost t0: Table, ghost a: nat, ghost d: nat, ghost pos: nat) returns (n: nat)
    requires Copying(v, inFd, outFd, s0, t0, a, d, pos) && buf.Length == PIECE
    modifies v.fds, buf
    ensures Paired(v, inFd, outFd, a, d, pos + n, pos) && v.fs.View() == old(v.fs.View())
    ensures forall i | 0 <= i < MAX_FDS && i != inFd :: v.fds[i] == old(v.fds[i])
    ensures n == Min(PIECE, |Source(s0, a, d)| - pos) && buf[..n] == Source(s0, a, d)[pos..pos + n]
  {
    assert SameNode(t0[a], v.fs.View().table[a]);
    ReadsSource(s0, v.fs.View(), a, d, pos);
    n := v.Read(inFd, buf, PIECE);
  }

  /** The writing half: the piece is in the copy, or the device is full. */
  method StorePiece(v: FdTable, inFd: int, outFd: int, buf: array<u8>, n: nat,
                    ghost s0: State, ghost t0: Table, ghost a: nat, ghost d: nat, ghost pos: nat) returns (m: nat)
    requires Paired(v, inFd, outFd, a, d, pos + n, pos) && PartCopied(s0, t0, v.fs.View(), a, d, pos)
    requires 0 < n <= buf.Length && pos + n <= |Source(s0, a, d)| && buf[..n] == Source(s0, a, d)[pos..pos + n]
    modifies v.fds, v.fs, v.fs.entries, v.fs.dev
    ensures v.Valid()
    ensures forall i | 0 <= i < MAX_FDS && i != outFd :: v.fds[i] == old(v.fds[i])
    ensures if m == n then Copying(v, inFd, outFd, s0, t0, a, d, pos + n)
            else CopiedUpTo(s0, v.fs.View(), a, d, pos) && SameNodes(t0, v.fs.View().table)
                 && v.fs.super.nextFree + SectorsFor(|Source(s0, a, d)|) > SECTOR_COUNT
  {
    AppendsPiece(s0, t0, v.fs.View(), a, d, pos, n);
    m := v.Write(outFd, buf, n);
  }

  /** One round of the copying loop. */
  method CopyPiece(v: FdTable, inFd: int, outFd: int, buf: array<u8>,
                   ghost s0: State, ghost t0: Table, ghost a: nat, ghost d: nat, ghost pos: nat) returns (n: nat, m: nat)
    requires Copying(v, inFd, outFd, s0, t0, a, d, pos) && buf.Length == PIECE
    modifies v.fds, v.fs, v.fs.entries, v.fs.dev, buf
    ensures v.Valid()
    ensures forall i | 0 <= i < MAX_FDS && i != inFd && i != outFd :: v.fds[i] == old(v.fds[i])
    ensures n == Min(PIECE, |Source(s0, a, d)| - pos)
    ensures m == n ==> Copying(v, inFd, outFd, s0, t0, a, d, pos + n)
    ensures m != n ==> CopiedUpTo(s0, v.fs.View(), a, d, pos) && SameNodes(t0, v.fs.View().table)
                       && v.fs.super.nextFree + SectorsFor(|Source(s0, a, d)|) > SECTOR_COUNT
  {
    n := FetchPiece(v, inFd, outFd, buf, s0, t0, a, d, pos);
    if n == 0 {
      return 0, 0;
    }
    m := StorePiece(v, inFd, outFd, buf, n, s0, t0, a, d, pos);
  }

  /** The copying loop between two open descriptors. */
  method CopyPieces(v: FdTable, inFd: int, outFd: int,
                    ghost s0: State, ghost t0: Table, ghost a: nat, ghost d: nat)
    returns (ok: bool, ghost pos: nat)
    requires Copying(v, inFd, outFd, s0, t0, a, d, 0)
    modifies v.fds, v.fs, v.fs.entries, v.fs.dev
    ensures v.Valid()
    ensures forall i | 0 <= i < MAX_FDS && i != inFd && i != outFd :: v.fds[i] == old(v.fds[i])
    ensures SameNodes(t0, v.fs.View().table) && CopiedUpTo(s0, v.fs.View(), a, d, pos)
    ensures if ok then pos == |Source(s0, a, d)|
            else v.fs.super.nextFree + SectorsFor(|Source(s0, a, d)|) > SECTOR_COUNT
  {
    var buf := new u8[PIECE];
    pos := 0;
    while true
      invariant Copying(v, inFd, outFd, s0, t0, a, d, pos)
      invariant forall i | 0 <= i < MAX_FDS && i != inFd && i != outFd :: v.fds[i] == old(v.fds[i])
      decreases |Source(s0, a, d)| - pos
    {
      var n, m := CopyPiece(v, inFd, outFd, buf, s0, t0, a, d, pos);
      if n == 0 {
        return true, pos;
      }
      if m != n {
        return false, pos;
      }
      pos := pos + n;
    }
  }

  /** Writing changes no name. */
  lemma NamedKept(s0: State, o: State, s: State, path: CString, cwd: nat, d: nat)
    requires Inv(s0) && LiveDir(s0.table, cwd) && Named(s0, o, path, cwd, d) && SameNodes(o.table, s.table)
    ensures Named(s0, s, path, cwd, d)
  {
    forall i | 0 <= i < MAX_ENTRIES
      ensures s.table[i].used == o.table[i].used && s.table[i].typ == o.table[i].typ
              && s.table[i].parent == o.table[i].parent && s.table[i].name == o.table[i].name
    {
      assert SameNode(o.table[i], s.table[i]);
    }
    if Lookup(s0.table, s0.super.rootId, path, cwd).None? && PlainLast(Components(path, 0), Slashed(path)) {
      SameWalk(o.table, s.table, Components(path, 0), StartDir(path, s0.super.rootId, cwd));
    }
  }

  /** Once both paths are open, nothing has been copied and the destination is empty. */
  lemma OpenedOutcome(s0: State, cwd: nat, src: CString, dst: CString)
    requires Inv(s0) && LiveDir(s0.table, cwd) && Lookup(s0.table, s0.super.rootId, src, cwd).Some?
    ensures var a := Lookup(s0.table, s0.super.rootId, src, cwd).value;
            var (o, d) := OpenNode(s0, dst, cwd, REWRITING);
            && Extents(o.super, o.table) && SameNode(s0.table[a], o.table[a])
            && o.super.nextFree == s0.super.nextFree
            && (d.Some? <==> CanOpen(s0, dst, cwd, REWRITING))
            && (d.Some? ==> MayWrite(o, d.value) && CopiedUpTo(s0, o, a, d.value, 0) && Named(s0, o, dst, cwd, d.value))
            && Outcome(s0, o, cwd, src, dst, false)
  {
    OpenNodeFiles(s0, dst, cwd, REWRITING);
    OpenNames(s0, dst, cwd, REWRITING);
    var a := Lookup(s0.table, s0.super.rootId, src, cwd).value;
    var (o, d) := OpenNode(s0, dst, cwd, REWRITING);
    assert d.Some? ==> CopiedUpTo(s0, o, a, d.value, 0);
  }

  /** Opens the source; the file system stays as it is. */
  method OpenSource(v: FdTable, src: CString) returns (fd: int)
    requires v.Valid()
    modifies v.fds, v.fs.entries, v.fs.dev
    ensures v.Valid() && v.fs.View() == old(v.fs.View())
    ensures var a := Lookup(v.fs.View().table, v.fs.View().super.rootId, src, v.cwd);
            if fd < 0 then v.fds[..] == old(v.fds[..]) && (a.None? || !TwoFree(v.fds[..]))
            else a.Some? && fd < MAX_FDS && !old(v.fds[fd]).used
                 && v.fds[..] == old(v.fds[..])[fd := Fd(true, a.value, 0, READING)]
  {
    fd := v.Open(src, READING);
  }

  /** Opens the destination once the source is open; fds0 are the descriptors of before. */
  method OpenTarget(v: FdTable, src: CString, dst: CString, inFd: int, ghost fds0: seq<Fd>) returns (outFd: int)
    requires v.Valid() && v.fs.super.nextFree + SECTOR_COUNT < TWO_32
    requires 0 <= inFd < MAX_FDS == |fds0| && !fds0[inFd].used
    requires var a := Lookup(v.fs.View().table, v.fs.View().super.rootId, src, v.cwd);
             a.Some? && v.fds[..] == fds0[inFd := Fd(true, a.value, 0, READING)]
    modifies v.fds, v.fs.entries, v.fs.dev
    ensures v.Valid()
    ensures outFd < 0 ==> v.fds[..] == old(v.fds[..])
                          && Outcome(old(v.fs.View()), v.fs.View(), v.cwd, src, dst, false)
                          && Excused(old(v.fs.View()), v.fs.View(), v.cwd, src, dst, fds0)
    ensures outFd >= 0 ==> Opened(v, inFd, outFd, old(v.fs.View()), src, dst)
                           && !fds0[outFd].used && v.fds[..] == old(v.fds[..])[outFd := v.fds[outFd]]
  {
    ghost var s0 := v.fs.View();
    OpenedOutcome(s0, v.cwd, src, dst);
    outFd := v.Open(dst, REWRITING);
    if outFd < 0 && OpenNode(s0, dst, v.cwd, REWRITING).1.Some? {
      NoSecond(fds0, inFd, v.fds[inFd]);
    }
  }

  lemma NoSecond(fds: seq<Fd>, i: nat, fd: Fd)
    requires i < |fds| && fd.used && FreeFd(fds[i := fd], 0).None?
    ensures !TwoFree(fds)
  {
    forall j | 0 <= j < |fds| && j != i
      ensures fds[j].used
    {
      assert fds[i := fd][j] == fds[j];
    }
  }

  /** Both descriptors are open and nothing has been copied yet. */
  ghost predicate Opened(v: FdTable, inFd: int, outFd: int, s0: State, src: CString, dst: CString)
    requires Inv(s0) && LiveDir(s0.table, v.cwd)
    reads v, v.fds, v.fs, v.fs.entries, v.fs.dev
  {
    var a := Lookup(s0.table, s0.super.rootId, src, v.cwd);
    var (o, d) := OpenNode(s0, dst, v.cwd, REWRITING);
    && a.Some? && d.Some? && Copying(v, inFd, outFd, s0, o.table, a.value, d.value, 0)
    && Named(s0, o, dst, v.cwd, d.value)
  }

  /** Opens source and destination, or neither. */
  method OpenPair(v: FdTable, src: CString, dst: CString) returns (inFd: int, outFd: int)
    requires v.Valid() && v.fs.super.nextFree + SECTOR_COUNT < TWO_32
    modifies v.fds, v.fs.entries, v.fs.dev
    ensures v.Valid()
    ensures inFd < 0 ==> FdsRestored(old(v.fds[..]), v.fds[..])
                         && Outcome(old(v.fs.View()), v.fs.View(), v.cwd, src, dst, false)
                         && Excused(old(v.fs.View()), v.fs.View(), v.cwd, src, dst, old(v.fds[..]))
    ensures inFd >= 0 ==>
              && Opened(v, inFd, outFd, old(v.fs.View()), src, dst)
              && !old(v.fds[inFd]).used && !old(v.fds[outFd]).used
              && forall i | 0 <= i < MAX_FDS && i != inFd && i != outFd :: v.fds[i] == old(v.fds[i])
  {
    inFd := OpenSource(v, src);
    if inFd < 0 {
      return -1, -1;
    }
    outFd := OpenTarget(v, src, dst, inFd, old(v.fds[..]));
    if outFd < 0 {
      v.Close(inFd);
      return -1, -1;
    }
  }

  /** What the copying loop leaves is an outcome the caller can rely on. */
  lemma Concluded(s0: State, o: State, s: State, cwd: nat, src: CString, dst: CString, fds: seq<Fd>,
                  a: nat, d: nat, k: nat, ok: bool)
    requires Inv(s0) && LiveDir(s0.table, cwd) && Lookup(s0.table, s0.super.rootId, src, cwd) == Some(a)
    requires Named(s0, o, dst, cwd, d) && SameNodes(o.table, s.table)
    requires Extents(s.super, s.table) && CopiedUpTo(s0, s, a, d, k)
    requires if ok then k == |Source(s0, a, d)| else s.super.nextFree + SectorsFor(|Source(s0, a, d)|) > SECTOR_COUNT
    ensures Outcome(s0, s, cwd, src, dst, ok)
    ensures !ok ==> Excused(s0, s, cwd, src, dst, fds)
  {
    NamedKept(s0, o, s, dst, cwd, d);
  }

  method CopyOpened(v: FdTable, inFd: int, outFd: int,
                    ghost s0: State, ghost src: CString, ghost dst: CString, ghost fds0: seq<Fd>) returns (ok: bool)
    requires Inv(s0) && LiveDir(s0.table, v.cwd) && Opened(v, inFd, outFd, s0, src, dst)
    modifies v.fds, v.fs, v.fs.entries, v.fs.dev
    ensures v.Valid()
    ensures forall i | 0 <= i < MAX_FDS && i != inFd && i != outFd :: v.fds[i] == old(v.fds[i])
    ensures Outcome(s0, v.fs.View(), v.cwd, src, dst, ok)
    ensures !ok ==> Excused(s0, v.fs.View(), v.cwd, src, dst, fds0)
  {
    ghost var a := Lookup(s0.table, s0.super.rootId, src, v.cwd).value;
    ghost var (o, d) := OpenNode(s0, dst, v.cwd, REWRITING);
    ghost var k;
    ok, k := CopyPieces(v, inFd, outFd, s0, o.table, a, d.value);
    Concluded(s0, o, v.fs.View(), v.cwd, src, dst, fds0, a, d.value, k, ok);
  }

  /** Two descriptors that were free before are free again. */
  method CloseBoth(v: FdTable, inFd: int, outFd: int, ghost fds0: seq<Fd>)
    requires v.Valid() && |fds0| == MAX_FDS && 0 <= inFd < MAX_FDS && 0 <= outFd < MAX_FDS
    requires !fds0[inFd].used && !fds0[outFd].used
    requires forall i | 0 <= i < MAX_FDS && i != inFd && i != outFd :: v.fds[i] == fds0[i]
    modifies v.fds
    ensures v.Valid() && FdsRestored(fds0, v.fds[..]) && v.fs.View() == old(v.fs.View())
  {
    v.Close(inFd);
    v.Close(outFd);
  }

  /** Copies src to dst through a 128-byte buffer and puts every descriptor back. */
  method Copy(v: FdTable, src: CString, dst: CString) returns (ok: bool)
    requires v.Valid() && v.fs.super.nextFree + SECTOR_COUNT < TWO_32
    modifies v.fds, v.fs, v.fs.entries, v.fs.dev
    ensures v.Valid()
    ensures FdsRestored(old(v.fds[..]), v.fds[..])
    ensures Outcome(old(v.fs.View()), v.fs.View(), v.cwd, src, dst, ok)
    ensures !ok ==> Excused(old(v.fs.View()), v.fs.View(), v.cwd, src, dst, old(v.fds[..]))
  {
    ghost var s0 := v.fs.View();
    var inFd, outFd := OpenPair(v, src, dst);
    if inFd < 0 {
      return false;
    }
    ok := CopyOpened(v, inFd, outFd, s0, src, dst, old(v.fds[..]));
    ghost var s := v.fs.View();
    CloseBoth(v, inFd, outFd, old(v.fds[..]));
    assert v.fs.View() == s;
  }
}
