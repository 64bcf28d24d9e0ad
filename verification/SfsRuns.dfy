/** Runs of SimpleFS: in every reachable state the invariant holds, and the files in use and
    those a reboot would find are what two plain maps from id to bytes would hold. */
module SfsRuns {
  import opened Words
  import opened BlockDevice
  import opened SfsLayout
  import opened SfsPath
  import opened SfsData
  import opened SfsTree
  import opened SfsOps

  datatype Op =
    | OpCreate(path: CString, cwd: nat, typ: u8, perm: u8)
    | OpRemove(path: CString, cwd: nat)
    | OpWrite(id: nat, offset: nat, data: seq<u8>)
    | OpTruncate(id: nat)
    | OpMount

  /** What callers owe: a live current directory and sound writes. */
  ghost predicate Legal(s: State, op: Op) {
    match op
    case OpCreate(_, cwd, _, _) => LiveDir(s.table, cwd)
    case OpRemove(_, cwd) => LiveDir(s.table, cwd)
    case OpWrite(id, offset, data) => Sound(s, id, offset, data)
    case OpTruncate(_) => true
    case OpMount => true
  }

  ghost function Perform(s: State, op: Op): (State, bool)
    requires Inv(s) && Legal(s, op)
  {
    match op
    case OpCreate(path, cwd, typ, perm) => var (c, id) := Create(s, path, cwd, typ, perm); (c, id.Some?)
    case OpRemove(path, cwd) => Remove(s, path, cwd)
    case OpWrite(id, offset, data) => Write(s, id, offset, data)
    case OpTruncate(id) => Truncate(s, id)
    case OpMount => (Mounted(s.disk), true)
  }

  /** The tables in memory are in order, and so are those a reboot would load. */
  ghost predicate Safe(s: State) {
    Inv(s) && Inv(Mounted(s.disk))
  }

  lemma SyncedIsSafe(s: State)
    requires Inv(s) && Synced(s)
    ensures Safe(s) && Mounted(s.disk) == s
  {
    MountedSynced(s);
  }

  lemma StepIsSafe(s: State, op: Op)
    requires Safe(s) && Legal(s, op)
    ensures Safe(Perform(s, op).0)
    ensures Perform(s, op).1 && !op.OpMount? ==> Mounted(Perform(s, op).0.disk) == Perform(s, op).0
  {
    var (s', ok) := Perform(s, op);
    match op
    case OpCreate(path, cwd, typ, perm) =>
      CreateKeepsInv(s, path, cwd, typ, perm);
      if ok { SyncedIsSafe(s'); }
    case OpRemove(path, cwd) =>
      RemoveKeepsInv(s, path, cwd);
      if ok { SyncedIsSafe(s'); }
    case OpWrite(id, offset, data) =>
      WriteKeepsInv(s, id, offset, data);
      if ok { SyncedIsSafe(s'); } else { FailedWriteKeepsMetadata(s, id, offset, data); }
    case OpTruncate(id) =>
      TruncateKeepsInv(s, id);
      if ok { SyncedIsSafe(s'); }
    case OpMount =>
      if Mounted(s.disk) == Formatted(s.disk) {
        FormattedInv(s.disk);
        SyncedIsSafe(s');
      }
  }

  ghost function Next(s: State, op: Op): (s': State)
    requires Safe(s) && Legal(s, op)
    ensures Safe(s')
  {
    StepIsSafe(s, op);
    Perform(s, op).0
  }

  ghost predicate LegalRun(s: State, ops: seq<Op>)
    requires Safe(s)
    decreases |ops|
  {
    ops == [] || (Legal(s, ops[0]) && LegalRun(Next(s, ops[0]), ops[1..]))
  }

  ghost function Run(s: State, ops: seq<Op>): (s': State)
    requires Safe(s) && LegalRun(s, ops)
    ensures Safe(s')
    decreases |ops|
  {
    if ops == [] then s else Run(Next(s, ops[0]), ops[1..])
  }

  /** The state after formatting. */
  ghost function Fresh(disk: Disk): (s: State)
    ensures Safe(s) && Mounted(s.disk) == s
  {
    FormattedInv(disk);
    SyncedIsSafe(Formatted(disk));
    Formatted(disk)
  }

  // ---- refinement -------------------------------------------------------------

  ghost function Files(s: State): map<nat, seq<u8>>
    requires Extents(s.super, s.table)
  {
    map i: nat | i < MAX_ENTRIES && IsFile(s.table[i]) :: Contents(s, i)
  }

  datatype Effect =
    | Made(id: nat)
    | Gone(id: nat)
    | Spliced(id: nat, offset: nat, data: seq<u8>)
    | Torn(id: nat, offset: nat, data: seq<u8>)
    | Emptied(id: nat)
    | Nothing

  /** The effect on a plain map from file id to bytes. Torn: the data goes as far as the
      file did, and the file does not grow. */
  function Apply(m: map<nat, seq<u8>>, e: Effect): map<nat, seq<u8>> {
    match e
    case Made(id) => m[id := []]
    case Gone(id) => m - {id}
    case Spliced(id, offset, data) =>
      if id in m && offset <= |m[id]| then m[id := Splice(m[id], offset, data)] else m
    case Torn(id, offset, data) =>
      if id in m && offset <= |m[id]| then m[id := Splice(m[id], offset, data)[..|m[id]|]] else m
    case Emptied(id) => m[id := []]
    case Nothing => m
  }

  /** A write past the end fills the gap with what the sectors there held. */
  ghost function WriteEffect(s: State, id: nat, offset: nat, data: seq<u8>): Effect
    requires Sound(s, id, offset, data)
  {
    if !MayWrite(s, id) then Nothing
    else if Write(s, id, offset, data).1 then
      if offset <= s.table[id].size then Spliced(id, offset, data)
      else Spliced(id, s.table[id].size, GapBytes(s, id, offset, data) + data)
    else if Place(s, id, SectorsFor(offset + |data|)).1 then Torn(id, offset, data)
    else Nothing
  }

  /** Only entry `id` differs: afterwards it is a file holding b, or no file at all. */
  lemma FilesUpdated(s: State, s': State, id: nat, now: Option<seq<u8>>)
    requires Extents(s.super, s.table) && Extents(s'.super, s'.table) && id < MAX_ENTRIES
    requires forall i | 0 <= i < MAX_ENTRIES && i != id ::
               s'.table[i] == s.table[i] && (Used(s.table[i]) ==> Contents(s', i) == Contents(s, i))
    requires IsFile(s'.table[id]) <==> now.Some?
    requires now.Some? ==> Contents(s', id) == now.value
    ensures Files(s') == if now.Some? then Files(s)[id := now.value] else Files(s) - {id}
  {
  }

  lemma InsertRefines(s: State, dir: nat, name: Name, typ: u8, perm: u8)
    requires Extents(s.super, s.table) && LiveDir(s.table, dir)
    ensures var (c, id) := Insert(s, dir, name, typ, perm);
            && Extents(c.super, c.table)
            && Files(c) == if id.Some? && typ == TYPE_FILE then Files(s)[id.value := []] else Files(s)
  {
    var (c, id) := Insert(s, dir, name, typ, perm);
    if id.Some? {
      InsertKeeps(s, dir, name, typ, perm);
      var now := if typ == TYPE_FILE then Some([]) else None;
      FilesUpdated(s, c, id.value, now);
      assert Files(s) - {id.value} == Files(s);
    }
  }

  lemma CreateRefines(s: State, path: CString, cwd: nat, typ: u8, perm: u8)
    requires Inv(s) && LiveDir(s.table, cwd)
    ensures var (c, id) := Create(s, path, cwd, typ, perm);
            && Extents(c.super, c.table)
            && Files(c) == if id.Some? && typ == TYPE_FILE then Files(s)[id.value := []] else Files(s)
  {
    var target := Target(s, path, cwd);
    if target.Some? {
      InsertRefines(s, target.value.0, target.value.1, typ, perm);
    }
  }

  lemma RemoveRefines(s: State, path: CString, cwd: nat)
    requires Inv(s) && Live(s.table, cwd)
    ensures var (r, ok) := Remove(s, path, cwd);
            && Extents(r.super, r.table)
            && Files(r) == if ok then Files(s) - {Lookup(s.table, s.super.rootId, path, cwd).value} else Files(s)
  {
    var (r, ok) := Remove(s, path, cwd);
    if ok {
      var id := Lookup(s.table, s.super.rootId, path, cwd).value;
      CommitKeepsExtents(s, id, ZeroEntry());
      FilesUpdated(s, r, id, None);
    }
  }

  lemma TruncateRefines(s: State, id: nat)
    requires Extents(s.super, s.table)
    ensures var (r, ok) := Truncate(s, id);
            && Extents(r.super, r.table)
            && Files(r) == (if ok then Files(s)[id := []] else Files(s))
            && Files(r) == Apply(Files(s), if ok then Emptied(id) else Nothing)
  {
    TruncateKeepsExtents(s, id);
    if Truncate(s, id).1 {
      FilesUpdated(s, Truncate(s, id).0, id, Some([]));
    }
  }

  lemma WriteChangesOnly(s: State, id: nat, offset: nat, data: seq<u8>)
    requires Sound(s, id, offset, data) && MayWrite(s, id)
    ensures var w := Write(s, id, offset, data).0;
            && Extents(w.super, w.table) && IsFile(w.table[id])
            && forall i | 0 <= i < MAX_ENTRIES && i != id ::
                 w.table[i] == s.table[i] && (Used(s.table[i]) ==> Contents(w, i) == Contents(s, i))
  {
    var w := Write(s, id, offset, data).0;
    WriteKeepsExtents(s, id, offset, data);
    PlaceKeepsExtents(s, id, SectorsFor(offset + |data|));
    forall i | 0 <= i < MAX_ENTRIES && i != id && Used(s.table[i])
      ensures Contents(w, i) == Contents(s, i)
    {
      WriteKeepsOthers(s, id, offset, data, i);
    }
  }

  lemma SpliceAtEnd(c: seq<u8>, gap: seq<u8>, data: seq<u8>)
    ensures Splice(c, |c|, gap + data) == c + gap + data
  {
  }

  lemma WriteUpdates(s: State, id: nat, offset: nat, data: seq<u8>)
    requires Sound(s, id, offset, data) && MayWrite(s, id)
    ensures var w := Write(s, id, offset, data).0;
            && Extents(w.super, w.table) && IsFile(w.table[id])
            && Files(w) == Files(s)[id := Contents(w, id)]
  {
    var w := Write(s, id, offset, data).0;
    WriteChangesOnly(s, id, offset, data);
    FilesUpdated(s, w, id, Some(Contents(w, id)));
  }

  /** What the effect of a write makes of its file's bytes c. */
  lemma WriteEffectOn(s: State, id: nat, offset: nat, data: seq<u8>, m: map<nat, seq<u8>>)
    requires Sound(s, id, offset, data) && MayWrite(s, id) && id in m && m[id] == Contents(s, id)
    ensures var w := Write(s, id, offset, data).0;
            && Extents(w.super, w.table) && Used(w.table[id])
            && Apply(m, WriteEffect(s, id, offset, data)) == m[id := Contents(w, id)]
  {
    WriteSplices(s, id, offset, data);
    var c := Contents(s, id);
    if Write(s, id, offset, data).1 && offset > |c| {
      SpliceAtEnd(c, GapBytes(s, id, offset, data), data);
    }
    assert m[id := c] == m;
  }

  /** Every write, also one past the end or one that fails, is one update of the map. */
  lemma WriteRefines(s: State, id: nat, offset: nat, data: seq<u8>)
    requires Sound(s, id, offset, data)
    ensures var w := Write(s, id, offset, data).0;
            && Extents(w.super, w.table)
            && Files(w) == Apply(Files(s), WriteEffect(s, id, offset, data))
  {
    if MayWrite(s, id) {
      WriteUpdates(s, id, offset, data);
      WriteEffectOn(s, id, offset, data, Files(s));
    }
  }

  /** An append goes through whole or not at all. */
  lemma AppendRefines(s: State, id: nat, offset: nat, data: seq<u8>)
    requires Sound(s, id, offset, data) && MayWrite(s, id) && offset == s.table[id].size
    ensures var (w, ok) := Write(s, id, offset, data);
            && Extents(w.super, w.table)
            && Files(w) == if ok then Apply(Files(s), Spliced(id, offset, data)) else Files(s)
  {
    var c := Contents(s, id);
    WriteRefines(s, id, offset, data);
    assert Splice(c, offset, data)[..|c|] == c;
    assert Files(s)[id := c] == Files(s);
  }

  // ---- what a reboot would find --------------------------------------------------

  /** The entry as last flushed, or moved since to an extent beyond all flushed ones. */
  predicate Moved(flushed: Entry, now: Entry, bound: nat) {
    now == flushed || (now == flushed.(start := now.start, cap := now.cap) && now.start >= bound)
  }

  /** Memory differs from the tables on disk only by extents moved since the last flush. */
  ghost predicate Drift(s: State, d: State) {
    && s.super == d.super.(nextFree := s.super.nextFree) && d.super.nextFree <= s.super.nextFree
    && forall i {:trigger Moved(d.table[i], s.table[i], d.super.nextFree)} | 0 <= i < MAX_ENTRIES ::
         Moved(d.table[i], s.table[i], d.super.nextFree)
  }

  predicate Readied(disk: Disk) {
    LoadedSuper(disk).magic == SFS_MAGIC && LoadedSuper(disk).version == SFS_VERSION
  }

  ghost predicate Consistent(s: State) {
    Safe(s) && Readied(s.disk) && Drift(s, Mounted(s.disk))
  }

  lemma SyncedIsConsistent(s: State)
    requires Inv(s) && Synced(s)
    ensures Consistent(s) && Mounted(s.disk) == s
  {
    SyncedIsSafe(s);
    assert forall i | 0 <= i < MAX_ENTRIES :: Moved(s.table[i], s.table[i], s.super.nextFree);
  }

  /** A failed write moves at most its own entry, beyond all extents. */
  lemma FailedWriteDrifts(s: State, id: nat, offset: nat, data: seq<u8>)
    requires Consistent(s) && Sound(s, id, offset, data) && !Write(s, id, offset, data).1
    ensures var (d, w) := (Mounted(s.disk), Write(s, id, offset, data).0);
            && Mounted(w.disk) == State(d.super, d.table, w.disk) && Readied(w.disk) && Drift(w, Mounted(w.disk))
  {
    var (d, w) := (Mounted(s.disk), Write(s, id, offset, data).0);
    FailedWriteKeepsMetadata(s, id, offset, data);
    forall i | 0 <= i < MAX_ENTRIES
      ensures Moved(d.table[i], w.table[i], d.super.nextFree)
    {
      assert Moved(d.table[i], s.table[i], d.super.nextFree);
    }
  }

  /** The write goes to the very extent a reboot would read. */
  ghost predicate HitsFlushed(s: State, id: nat, offset: nat, data: seq<u8>)
    requires Sound(s, id, offset, data) && MayWrite(s, id)
  {
    Place(s, id, SectorsFor(offset + |data|)).0.table[id] == Mounted(s.disk).table[id]
  }

  lemma FlushedUnmoved(s: State, id: nat, offset: nat, data: seq<u8>)
    requires Consistent(s) && Sound(s, id, offset, data) && MayWrite(s, id) && !Write(s, id, offset, data).1
    requires HitsFlushed(s, id, offset, data)
    ensures s.table[id] == Mounted(s.disk).table[id]
    ensures Write(s, id, offset, data).0.table[id] == s.table[id]
  {
    var d := Mounted(s.disk);
    assert Moved(d.table[id], s.table[id], d.super.nextFree);
    assert ExtentOk(d.table[id], d.super.nextFree);
  }

  /** Sectors of flushed extents change at most in the extent that is written to. */
  lemma FailedWriteSectors(s: State, id: nat, offset: nat, data: seq<u8>, i: nat, l: nat)
    requires Consistent(s) && Sound(s, id, offset, data) && MayWrite(s, id) && !Write(s, id, offset, data).1
    requires var f := Mounted(s.disk).table;
             i < MAX_ENTRIES && Used(f[i]) && f[i].start <= l < f[i].start + f[i].cap && l < SECTOR_COUNT
    requires i != id || !HitsFlushed(s, id, offset, data)
    ensures Write(s, id, offset, data).0.disk[l] == s.disk[l]
  {
    var (d, w) := (Mounted(s.disk), Write(s, id, offset, data).0);
    var need := SectorsFor(offset + |data|);
    var (p, placed) := Place(s, id, need);
    PlaceKeepsExtents(s, id, need);
    assert ExtentOk(d.table[i], d.super.nextFree) && ExtentOk(s.table[id], s.super.nextFree);
    assert Moved(d.table[id], s.table[id], d.super.nextFree);
    assert p.disk[l] == s.disk[l];
    if placed {
      var e := p.table[id];
      if e == d.table[id] {
        assert Apart(if i < id then d.table[i] else e, if i < id then e else d.table[i]);
      }
      OverlaidFrame(p.disk, e.start, e.cap, offset, data, l);
    }
  }

  lemma FailedWriteContents(s: State, id: nat, offset: nat, data: seq<u8>, i: nat)
    requires Consistent(s) && Sound(s, id, offset, data) && MayWrite(s, id) && !Write(s, id, offset, data).1
    requires i < MAX_ENTRIES && Used(Mounted(s.disk).table[i]) && (i != id || !HitsFlushed(s, id, offset, data))
    ensures OnDevice(Mounted(s.disk).table[i])
    ensures Bytes(Write(s, id, offset, data).0.disk, Mounted(s.disk).table[i]) == Bytes(s.disk, Mounted(s.disk).table[i])
  {
    var (d, w) := (Mounted(s.disk), Write(s, id, offset, data).0);
    assert ExtentOk(d.table[i], d.super.nextFree);
    forall l | d.table[i].start <= l < d.table[i].start + d.table[i].cap && l < SECTOR_COUNT
      ensures w.disk[l] == s.disk[l]
    {
      FailedWriteSectors(s, id, offset, data, i, l);
    }
    BytesFrame(s.disk, w.disk, d.table[i]);
  }

  lemma DurableElsewhere(s: State, id: nat, offset: nat, data: seq<u8>, i: nat)
    requires Consistent(s) && Sound(s, id, offset, data) && MayWrite(s, id) && !Write(s, id, offset, data).1
    requires i < MAX_ENTRIES && Used(Mounted(s.disk).table[i]) && (i != id || !HitsFlushed(s, id, offset, data))
    ensures var (d, d') := (Mounted(s.disk), Mounted(Write(s, id, offset, data).0.disk));
            && d'.table == d.table && Extents(d'.super, d'.table) && Contents(d', i) == Contents(d, i)
  {
    FailedWriteDrifts(s, id, offset, data);
    FailedWriteContents(s, id, offset, data, i);
  }

  /** When the write hits the flushed extent, a reboot finds what the running system has. */
  lemma DurableHit(s: State, id: nat, offset: nat, data: seq<u8>)
    requires Consistent(s) && Sound(s, id, offset, data) && MayWrite(s, id) && !Write(s, id, offset, data).1
    requires HitsFlushed(s, id, offset, data)
    ensures var (d, w) := (Mounted(s.disk), Write(s, id, offset, data).0);
            var d' := Mounted(w.disk);
            && d'.table == d.table && Extents(d'.super, d'.table) && Extents(w.super, w.table)
            && IsFile(d.table[id]) && Used(w.table[id])
            && Contents(d, id) == Contents(s, id) && Contents(d', id) == Contents(w, id)
  {
    FailedWriteDrifts(s, id, offset, data);
    FlushedUnmoved(s, id, offset, data);
    WriteKeepsExtents(s, id, offset, data);
  }

  /** A failed write changes what a reboot finds only in the file it writes, and only
      while that file has not moved since the last flush. */
  lemma FailedWriteDurable(s: State, id: nat, offset: nat, data: seq<u8>)
    requires Consistent(s) && Sound(s, id, offset, data) && MayWrite(s, id) && !Write(s, id, offset, data).1
    ensures var (d, d') := (Mounted(s.disk), Mounted(Write(s, id, offset, data).0.disk));
            && Extents(d'.super, d'.table)
            && Files(d') == if HitsFlushed(s, id, offset, data)
                            then Apply(Files(d), WriteEffect(s, id, offset, data)) else Files(d)
  {
    var (d, d') := (Mounted(s.disk), Mounted(Write(s, id, offset, data).0.disk));
    FailedWriteDrifts(s, id, offset, data);
    forall i | 0 <= i < MAX_ENTRIES && Used(d.table[i]) && (i != id || !HitsFlushed(s, id, offset, data))
      ensures Contents(d', i) == Contents(d, i)
    {
      DurableElsewhere(s, id, offset, data, i);
    }
    if HitsFlushed(s, id, offset, data) {
      DurableHit(s, id, offset, data);
      FilesUpdated(d, d', id, Some(Contents(d', id)));
      WriteEffectOn(s, id, offset, data, Files(d));
    }
  }

  // ---- refinement over whole runs --------------------------------------------------

  /** The files as the running system has them, and as a reboot would find them. */
  datatype Store = Store(live: map<nat, seq<u8>>, durable: map<nat, seq<u8>>)

  ghost function StoreOf(s: State): Store
    requires Safe(s)
  {
    Store(Files(s), Files(Mounted(s.disk)))
  }

  /** Flushes: everything pending becomes durable. Lingers: nothing does, but the effect
      itself reaches the disk when it hits a flushed extent. Reboots: what was pending is lost. */
  datatype Update = Flushes(effect: Effect) | Lingers(effect: Effect, deep: bool) | Reboots

  function Updated(st: Store, u: Update): Store {
    match u
    case Flushes(e) => Store(Apply(st.live, e), Apply(st.live, e))
    case Lingers(e, deep) => Store(Apply(st.live, e), if deep then Apply(st.durable, e) else st.durable)
    case Reboots => Store(st.durable, st.durable)
  }

  ghost function EffectOf(s: State, op: Op): Effect
    requires Safe(s) && Legal(s, op)
  {
    match op
    case OpCreate(path, cwd, typ, perm) =>
      var id := Create(s, path, cwd, typ, perm).1;
      if id.Some? && typ == TYPE_FILE then Made(id.value) else Nothing
    case OpRemove(path, cwd) =>
      if Remove(s, path, cwd).1 then Gone(Lookup(s.table, s.super.rootId, path, cwd).value) else Nothing
    case OpWrite(id, offset, data) => WriteEffect(s, id, offset, data)
    case OpTruncate(id) => if Truncate(s, id).1 then Emptied(id) else Nothing
    case OpMount => Nothing
  }

  ghost function UpdateOf(s: State, op: Op): Update
    requires Safe(s) && Legal(s, op)
  {
    if op.OpMount? then Reboots
    else if Perform(s, op).1 then Flushes(EffectOf(s, op))
    else Lingers(EffectOf(s, op), op.OpWrite? && MayWrite(s, op.id) && HitsFlushed(s, op.id, op.offset, op.data))
  }

  lemma SucceededConsistent(s: State, op: Op)
    requires Safe(s) && Legal(s, op) && Perform(s, op).1 && !op.OpMount?
    ensures Consistent(Next(s, op)) && Mounted(Next(s, op).disk) == Next(s, op)
  {
    match op
    case OpCreate(path, cwd, typ, perm) => CreateKeepsInv(s, path, cwd, typ, perm);
    case OpRemove(path, cwd) => RemoveKeepsInv(s, path, cwd);
    case OpWrite(id, offset, data) => WriteKeepsInv(s, id, offset, data);
    case OpTruncate(id) => TruncateKeepsInv(s, id);
    SyncedIsConsistent(Next(s, op));
  }

  /** What is live and what is durable drift apart only as the invariant allows. */
  lemma StepIsConsistent(s: State, op: Op)
    requires Consistent(s) && Legal(s, op)
    ensures Consistent(Next(s, op))
  {
    if op.OpMount? {
      SyncedIsConsistent(Mounted(s.disk));
    } else if Perform(s, op).1 {
      SucceededConsistent(s, op);
    } else if op.OpWrite? {
      FailedWriteDrifts(s, op.id, op.offset, op.data);
    }
  }

  lemma CreateLive(s: State, path: CString, cwd: nat, typ: u8, perm: u8)
    requires Safe(s) && Legal(s, OpCreate(path, cwd, typ, perm))
    ensures Files(Next(s, OpCreate(path, cwd, typ, perm))) == Apply(Files(s), EffectOf(s, OpCreate(path, cwd, typ, perm)))
  {
    CreateRefines(s, path, cwd, typ, perm);
  }

  lemma RemoveLive(s: State, path: CString, cwd: nat)
    requires Safe(s) && Legal(s, OpRemove(path, cwd))
    ensures Files(Next(s, OpRemove(path, cwd))) == Apply(Files(s), EffectOf(s, OpRemove(path, cwd)))
  {
    RemoveRefines(s, path, cwd);
  }

  lemma TruncateLive(s: State, id: nat)
    requires Safe(s) && Legal(s, OpTruncate(id))
    ensures Files(Next(s, OpTruncate(id))) == Apply(Files(s), EffectOf(s, OpTruncate(id)))
  {
    TruncateRefines(s, id);
    TruncateEffect(s, id);
  }

  lemma TruncateEffect(s: State, id: nat)
    requires Safe(s) && Legal(s, OpTruncate(id))
    ensures Next(s, OpTruncate(id)) == Truncate(s, id).0
    ensures EffectOf(s, OpTruncate(id)) == if Truncate(s, id).1 then Emptied(id) else Nothing
  {
  }

  /** On the live files every operation acts as its effect says. */
  lemma StepRefinesLive(s: State, op: Op)
    requires Safe(s) && Legal(s, op) && !op.OpMount?
    ensures Files(Next(s, op)) == Apply(Files(s), EffectOf(s, op))
  {
    match op
    case OpCreate(path, cwd, typ, perm) => CreateLive(s, path, cwd, typ, perm);
    case OpRemove(path, cwd) => RemoveLive(s, path, cwd);
    case OpWrite(id, offset, data) => WriteRefines(s, id, offset, data);
    case OpTruncate(id) => TruncateLive(s, id);
  }

  /** What fails without writing data changes nothing at all. */
  lemma FailedIsStill(s: State, op: Op)
    requires Safe(s) && Legal(s, op) && !Perform(s, op).1 && !(op.OpWrite? && MayWrite(s, op.id))
    ensures Next(s, op) == s
  {
  }

  lemma StepRefinesDurable(s: State, op: Op)
    requires Consistent(s) && Legal(s, op) && !op.OpMount?
    ensures Files(Mounted(Next(s, op).disk)) == Updated(StoreOf(s), UpdateOf(s, op)).durable
  {
    if Perform(s, op).1 {
      SucceededConsistent(s, op);
      StepRefinesLive(s, op);
    } else if op.OpWrite? && MayWrite(s, op.id) {
      FailedWriteDurable(s, op.id, op.offset, op.data);
    } else {
      FailedIsStill(s, op);
    }
  }

  /** One step changes both views of the files exactly as its update changes two maps. */
  lemma StepRefines(s: State, op: Op)
    requires Consistent(s) && Legal(s, op)
    ensures StoreOf(Next(s, op)) == Updated(StoreOf(s), UpdateOf(s, op))
  {
    if op.OpMount? {
      SyncedIsConsistent(Mounted(s.disk));
    } else {
      StepRefinesLive(s, op);
      StepRefinesDurable(s, op);
    }
  }

  ghost function Log(s: State, ops: seq<Op>): seq<Update>
    requires Safe(s) && LegalRun(s, ops)
    decreases |ops|
  {
    if ops == [] then [] else [UpdateOf(s, ops[0])] + Log(Next(s, ops[0]), ops[1..])
  }

  function Replay(st: Store, log: seq<Update>): Store
    decreases |log|
  {
    if log == [] then st else Replay(Updated(st, log[0]), log[1..])
  }

  /** Over every run SimpleFS refines two maps from file id to bytes: the files of the
      running system, and those a reboot would find. */
  lemma {:induction false} RunRefines(s: State, ops: seq<Op>)
    requires Consistent(s) && LegalRun(s, ops)
    ensures Consistent(Run(s, ops))
    ensures StoreOf(Run(s, ops)) == Replay(StoreOf(s), Log(s, ops))
    decreases |ops|
  {
    if ops != [] {
      StepIsConsistent(s, ops[0]);
      StepRefines(s, ops[0]);
      RunRefines(Next(s, ops[0]), ops[1..]);
      assert Log(s, ops)[1..] == Log(Next(s, ops[0]), ops[1..]);
    }
  }

  lemma FreshIsConsistent(disk: Disk)
    ensures Consistent(Fresh(disk)) && StoreOf(Fresh(disk)) == Store(map[], map[])
  {
    FormattedInv(disk);
    SyncedIsConsistent(Fresh(disk));
    assert forall i | 0 <= i < MAX_ENTRIES :: !IsFile(FreshEntry(i));
    assert Files(Fresh(disk)) == map[];
  }

  /** Safety over whole runs from a fresh disk: extents disjoint and in range, the table a
      tree, a reboot at any moment finds a disk in order, and memory is ahead of the disk
      only by extents moved since the last flush. */
  lemma RunFromFormatIsSafe(disk: Disk, ops: seq<Op>)
    requires LegalRun(Fresh(disk), ops)
    ensures var s := Run(Fresh(disk), ops);
            Inv(s) && Inv(Mounted(s.disk)) && Drift(s, Mounted(s.disk))
  {
    FreshIsConsistent(disk);
    RunRefines(Fresh(disk), ops);
  }

  /** From a format on, both maps start empty. */
  lemma RunFromFormatRefines(disk: Disk, ops: seq<Op>)
    requires LegalRun(Fresh(disk), ops)
    ensures StoreOf(Run(Fresh(disk), ops)) == Replay(Store(map[], map[]), Log(Fresh(disk), ops))
  {
    FreshIsConsistent(disk);
    RunRefines(Fresh(disk), ops);
  }

  /** A write, even one that fails half way, never touches another file. */
  lemma WriteStepKeepsOthers(s: State, id: nat, offset: nat, data: seq<u8>, i: nat)
    requires Safe(s) && Legal(s, OpWrite(id, offset, data)) && i != id && i in Files(s)
    ensures i in Files(Next(s, OpWrite(id, offset, data)))
            && Files(Next(s, OpWrite(id, offset, data)))[i] == Files(s)[i]
  {
    WriteKeepsOthers(s, id, offset, data, i);
  }
}
