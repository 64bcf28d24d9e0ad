/** Loading a program: reading its file whole and building its memory image. */
module Exec {
  import opened Words
  import opened SfsLayout
  import opened SfsPath
  import opened SfsData
  import opened SfsTree
  import opened SfsOps
  import opened SimpleFs
  import opened Vfs
  import opened CopyFile
  import opened ElfImage

  datatype Outcome = Program(image: array<u8>, entry: nat) | Failed(error: Error)

  /** The file is there, can be read (an empty one need not be), and a descriptor is free. */
  ghost predicate CanReadAll(s: State, path: CString, cwd: nat, fds: seq<Fd>)
    requires Inv(s) && LiveDir(s.table, cwd)
  {
    var id := Lookup(s.table, s.super.rootId, path, cwd);
    && id.Some? && IsFile(s.table[id.value]) && FreeFd(fds, 0).Some?
    && (Readable(s.table[id.value].perm) || Contents(s, id.value) == [])
  }

  ghost function FileAt(s: State, path: CString, cwd: nat): seq<u8>
    requires Inv(s) && LiveDir(s.table, cwd)
  {
    var id := Lookup(s.table, s.super.rootId, path, cwd);
    if id.Some? && IsFile(s.table[id.value]) then Contents(s, id.value) else []
  }

  /** Descriptor fd of node, a file, once total bytes have been read from it. */
  ghost predicate Reading(v: FdTable, fd: int, node: nat, total: nat)
    reads v, v.fds, v.fs, v.fs.entries, v.fs.dev
  {
    && v.Valid() && 0 <= fd < MAX_FDS && v.fds[fd] == Fd(true, node, total, READING)
    && node < MAX_ENTRIES && IsFile(v.fs.View().table[node])
  }

  /** A read of the rest of a file delivers just that, or nothing at all. */
  lemma RestOfFile(s: State, node: nat, total: nat)
    requires Extents(s.super, s.table) && node < MAX_ENTRIES && IsFile(s.table[node]) && total <= |Contents(s, node)|
    ensures Delivered(SfsOps.Read(s, node, total, |Contents(s, node)| - total))
         == if Readable(s.table[node].perm) then Contents(s, node)[total..] else []
  {
  }

  /** Copying the next n bytes of c behind its first total bytes. */
  lemma PieceCopied(was: seq<u8>, now: seq<u8>, c: seq<u8>, piece: seq<u8>, total: nat, n: nat)
    requires |was| == |now| == |c| && total + n <= |c| && n <= |piece|
    requires was[..total] == c[..total] && piece[..n] == c[total..][..n]
    requires forall k | 0 <= k < |now| :: now[k] == if total <= k < total + n then piece[k - total] else was[k]
    ensures now[..total + n] == c[..total + n]
  {
    forall k | 0 <= k < total + n
      ensures now[k] == c[k]
    {
      if k < total {
        assert was[k] == was[..total][k] == c[..total][k];
      } else {
        assert piece[k - total] == piece[..n][k - total] == c[total..][..n][k - total];
      }
    }
  }

  /** One read from where the descriptor stands. */
  method FetchRest(v: FdTable, fd: int, rest: array<u8>, ghost total: nat, ghost node: nat) returns (chunk: nat)
    requires Reading(v, fd, node, total) && total + rest.Length == |Contents(v.fs.View(), node)|
    modifies v.fds, rest
    ensures Reading(v, fd, node, total + chunk) && v.fs.View() == old(v.fs.View()) && chunk <= rest.Length
    ensures forall i | 0 <= i < MAX_FDS && i != fd :: v.fds[i] == old(v.fds[i])
    ensures chunk == if Readable(v.fs.View().table[node].perm) then rest.Length else 0
    ensures rest[..chunk] == Contents(v.fs.View(), node)[total..][..chunk]
  {
    RestOfFile(v.fs.View(), node, total);
    chunk := v.Read(fd, rest, rest.Length);
  }

  /** One read into the rest of the buffer. */
  method ReadPiece(v: FdTable, fd: int, data: array<u8>, total: nat, ghost node: nat) returns (chunk: nat)
    requires Reading(v, fd, node, total) && total <= data.Length == |Contents(v.fs.View(), node)|
    requires data[..total] == Contents(v.fs.View(), node)[..total]
    modifies v.fds, data
    ensures Reading(v, fd, node, total + chunk) && v.fs.View() == old(v.fs.View())
    ensures forall i | 0 <= i < MAX_FDS && i != fd :: v.fds[i] == old(v.fds[i])
    ensures chunk == if Readable(v.fs.View().table[node].perm) then data.Length - total else 0
    ensures data[..total + chunk] == Contents(v.fs.View(), node)[..total + chunk]
  {
    ghost var c := Contents(v.fs.View(), node);
    ghost var was := data[..];
    var rest := new u8[data.Length - total];
    chunk := FetchRest(v, fd, rest, total, node);
    MemCopy(data, total, rest, 0, chunk);
    PieceCopied(was, data[..], c, rest[..], total, chunk);
  }

  /** The reading loop on an open descriptor: everything, or nothing when reads come back empty. */
  method ReadPieces(v: FdTable, fd: int, data: array<u8>, ghost node: nat) returns (total: nat)
    requires Reading(v, fd, node, 0) && data.Length == |Contents(v.fs.View(), node)|
    modifies v.fds, data
    ensures v.Valid() && v.fs.View() == old(v.fs.View())
    ensures forall i | 0 <= i < MAX_FDS && i != fd :: v.fds[i] == old(v.fds[i])
    ensures total == data.Length <==> Readable(v.fs.View().table[node].perm) || data.Length == 0
    ensures total == data.Length ==> data[..] == Contents(v.fs.View(), node)
  {
    total := 0;
    while total < data.Length
      invariant total <= data.Length && Reading(v, fd, node, total) && v.fs.View() == old(v.fs.View())
      invariant forall i | 0 <= i < MAX_FDS && i != fd :: v.fds[i] == old(v.fds[i])
      invariant data[..total] == Contents(v.fs.View(), node)[..total]
      invariant total > 0 ==> Readable(v.fs.View().table[node].perm)
    {
      var chunk := ReadPiece(v, fd, data, total, node);
      if chunk == 0 { break; }
      total := total + chunk;
    }
  }

  method ReadOpened(v: FdTable, fd: int, size: nat, hasMemory: bool, ghost node: nat) returns (data: array?<u8>)
    requires Reading(v, fd, node, 0) && size == |Contents(v.fs.View(), node)|
    modifies v.fds
    ensures v.Valid() && v.fs.View() == old(v.fs.View())
    ensures forall i | 0 <= i < MAX_FDS && i != fd :: v.fds[i] == old(v.fds[i])
    ensures data != null <==> hasMemory && (Readable(v.fs.View().table[node].perm) || Contents(v.fs.View(), node) == [])
    ensures data != null ==> fresh(data) && data[..] == Contents(v.fs.View(), node)
  {
    if !hasMemory {
      return null;
    }
    data := new u8[size];
    var total := ReadPieces(v, fd, data, node);
    if total != size {
      return null;
    }
  }

  /** Reads a whole file and puts the descriptor back. hasMemory: the heap can hold it. */
  method ReadFileAll(v: FdTable, path: CString, hasMemory: bool) returns (data: array?<u8>)
    requires v.Valid()
    modifies v.fds, v.fs.entries, v.fs.dev
    ensures v.Valid() && v.fs.View() == old(v.fs.View()) && v.cwd == old(v.cwd)
    ensures FdsRestored(old(v.fds[..]), v.fds[..])
    ensures data != null <==> hasMemory && CanReadAll(old(v.fs.View()), path, v.cwd, old(v.fds[..]))
    ensures data != null ==> fresh(data) && data[..] == FileAt(old(v.fs.View()), path, v.cwd)
  {
    v.fs.ValidIsWalkable();
    var id := v.fs.Resolve(path, v.cwd);
    if id.None? || v.fs.entries[id.value].used == 0 || v.fs.entries[id.value].typ != TYPE_FILE {
      return null;
    }
    var size := v.fs.entries[id.value].size;
    var fd := v.Open(path, READING);
    if fd < 0 {
      return null;
    }
    data := ReadOpened(v, fd, size, hasMemory, id.value);
    v.Close(fd);
  }

  method ReadPhdr(file: array<u8>, i: nat) returns (p: Phdr)
    requires TableInside(file[..]) && i < Phnum(file[..])
    ensures p == Segments(file[..])[i]
  {
    p := PhdrAt(file[..], Phoff(file[..]) + PHDR * i);
  }

  /** What the first pass makes of one program header; None when it is refused. */
  method ScanOne(p: Phdr, size: u32, lo: u32, hi: u32) returns (r: Option<(u32, u32)>)
    ensures r == if !Loaded(p) then Some((lo, hi))
                 else if !SegmentOk(size, p) then None
                 else Some((Min(lo, p.vaddr), Max(hi, EndOf(p))))
  {
    var lo', hi' := lo, hi;
    if p.typ == PT_LOAD && p.memsz != 0 {
      if (p.offset + p.filesz) % TWO_32 > size || p.filesz > p.memsz {
        return None;
      }
      var end := (p.vaddr + p.memsz) % TWO_32;
      if p.vaddr < lo { lo' := p.vaddr; }
      if end > hi { hi' := end; }
    }
    return Some((lo', hi'));
  }

  /** The first pass over the program headers. */
  method ScanSegments(file: array<u8>) returns (r: Option<(u32, u32)>)
    requires TableInside(file[..]) && file.Length < TWO_32
    ensures r == Bounds(file.Length, Segments(file[..]))
  {
    ghost var segs := Segments(file[..]);
    ghost var want := Bounds(file.Length, segs);
    var lo: u32, hi: u32 := NO_VADDR, 0;
    var i: nat, n: nat := 0, Phnum(file[..]);
    while i < n
      invariant i <= n == |segs| && want == Scan(file.Length, segs, i, lo, hi)
    {
      var p := ReadPhdr(file, i);
      var step := ScanOne(p, file.Length, lo, hi);
      if step.None? {
        return None;
      }
      lo, hi := step.value.0, step.value.1;
      i := i + 1;
    }
    return Some((lo, hi));
  }

  /** Copies the file bytes of segment i over what earlier segments put there. */
  method PlaceSegment(image: array<u8>, file: array<u8>, lo: u32, p: Phdr, ghost segs: seq<Phdr>, ghost i: nat)
    requires image != file && DataInside(file.Length, segs) && i < |segs| && p == segs[i]
    requires Loaded(p) ==> lo <= p.vaddr && p.vaddr - lo + p.filesz <= image.Length
    requires forall k | 0 <= k < image.Length :: image[k] == ByteAt(file[..], segs, i, lo + k)
    modifies image
    ensures forall k | 0 <= k < image.Length :: image[k] == ByteAt(file[..], segs, i + 1, lo + k)
  {
    if p.typ == PT_LOAD && p.memsz != 0 {
      MemCopy(image, p.vaddr - lo, file, p.offset, p.filesz);
    }
  }

  /** The second pass: zeros, then each segment's file bytes in turn. */
  method BuildImage(file: array<u8>, lo: u32, hi: u32) returns (image: array<u8>)
    requires lo <= hi && TableInside(file[..])
    requires AllInside(file.Length, Segments(file[..]), lo, hi)
    requires forall p | p in Segments(file[..]) && Loaded(p) :: p.filesz <= p.memsz
    ensures fresh(image) && image[..] == ImageOf(file[..], Segments(file[..]), lo, hi)
  {
    ghost var (f, segs) := (file[..], Segments(file[..]));
    image := new u8[hi - lo];
    var z := 0;
    while z < image.Length
      invariant 0 <= z <= image.Length && file[..] == f
      invariant forall k | 0 <= k < z :: image[k] == 0
    {
      image[z] := 0;
      z := z + 1;
    }
    var i: nat, n: nat := 0, Phnum(file[..]);
    while i < n
      invariant i <= n == |segs| && file[..] == f
      invariant forall k | 0 <= k < image.Length :: image[k] == ByteAt(f, segs, i, lo + k)
    {
      var p := ReadPhdr(file, i);
      assert p in segs;
      PlaceSegment(image, file, lo, p, segs, i);
      i := i + 1;
    }
  }

  /** The ends the headers of file f name are 32-bit numbers. */
  ghost predicate SumsFit(f: seq<u8>) {
    |f| < TWO_32 && TableSumFits(f) && (TableInside(f) ==> SegmentSumsFit(Segments(f)))
  }

  /** What loading file f comes to, hasMemory telling whether the heap can hold the image. */
  ghost predicate LoadedAs(f: seq<u8>, hasMemory: bool, r: Outcome)
    requires SumsFit(f)
    reads if r.Program? then {r.image} else {}
  {
    if HeaderError(f).Some? then r == Failed(HeaderError(f).value)
    else
      HeaderAccepts(f);
      var segs := Segments(f);
      if LayoutError(|f|, segs).Some? then r == Failed(LayoutError(|f|, segs).value)
      else
        var (lo, hi) := Bounds(|f|, segs).value;
        InsideIffSumsFit(|f|, segs);
        if !hasMemory then r == Failed(OutOfMemory)
        else if !(lo <= EntryPoint(f) < hi) then r == Failed(BadEntry)
        else r.Program? && r.image[..] == ImageOf(f, segs, lo, hi) && r.entry == EntryPoint(f) - lo < r.image.Length
  }

  method LoadElf(file: array<u8>, hasMemory: bool) returns (r: Outcome)
    requires SumsFit(file[..])
    ensures LoadedAs(file[..], hasMemory, r)
    ensures r.Program? ==> fresh(r.image)
  {
    var bad := HeaderError(file[..]);
    if bad.Some? {
      return Failed(bad.value);
    }
    HeaderAccepts(file[..]);
    var bounds := ScanSegments(file);
    if bounds.None? {
      return Failed(BadSegment);
    }
    var (lo, hi) := bounds.value;
    if lo == NO_VADDR || hi <= lo {
      return Failed(NothingToLoad);
    }
    if hi - lo > IMAGE_LIMIT {
      return Failed(TooLarge);
    }
    if !hasMemory {
      return Failed(OutOfMemory);
    }
    InsideIffSumsFit(file.Length, Segments(file[..]));
    ScanMeaning(file.Length, Segments(file[..]), 0, NO_VADDR, 0);
    var image := BuildImage(file, lo, hi);
    if EntryPoint(file[..]) < lo || EntryPoint(file[..]) >= hi {
      return Failed(BadEntry);
    }
    return Program(image, EntryPoint(file[..]) - lo);
  }

  /** exec_run_elf up to the jump: the image comes from the named file's bytes, and files and
      descriptors are as before. */
  method RunElf(v: FdTable, path: CString, holdsFile: bool, holdsImage: bool) returns (r: Outcome)
    requires v.Valid()
    requires SumsFit(FileAt(v.fs.View(), path, v.cwd))
    modifies v.fds, v.fs.entries, v.fs.dev
    ensures v.Valid() && v.fs.View() == old(v.fs.View()) && FdsRestored(old(v.fds[..]), v.fds[..])
    ensures if path == [] then r == Failed(MissingPath)
            else if !(holdsFile && CanReadAll(old(v.fs.View()), path, v.cwd, old(v.fds[..]))) then r == Failed(Unreadable)
            else LoadedAs(old(FileAt(v.fs.View(), path, v.cwd)), holdsImage, r)
  {
    if |path| == 0 {
      return Failed(MissingPath);
    }
    var data := ReadFileAll(v, path, holdsFile);
    if data == null {
      return Failed(Unreadable);
    }
    r := LoadElf(data, holdsImage);
  }
}
