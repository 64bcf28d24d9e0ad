/** Task switching on the stacks: what context_switch pushes and pops, and that a
    resumed task finds registers and stack as it left them. Addresses count words. */
module ContextSwitch {
  import opened Words
  import opened RoundRobin

  const STACK_WORDS := 1024
  const RAM := 65536
  const FRAME := 5

  type Ram = r: seq<u32> | |r| == RAM witness seq(RAM, _ => 0)

  /** The stack pointer and the registers a callee must preserve. */
  datatype Regs = Regs(esp: nat, ebp: u32, ebx: u32, esi: u32, edi: u32, eip: u32)

  /** top[t] is the saved stack pointer of task t. */
  datatype Machine = Machine(ram: Ram, regs: Regs, top: seq<nat>)

  function Base(t: nat): nat { t * STACK_WORDS }
  function End(t: nat): nat { (t + 1) * STACK_WORDS }

  // ---- the instructions of context_switch ---------------------------------------------

  function Push(m: Machine, v: u32): Machine
    requires 0 < m.regs.esp <= RAM
  {
    m.(ram := m.ram[m.regs.esp - 1 := v], regs := m.regs.(esp := m.regs.esp - 1))
  }

  /** Saves the callee-saved registers of task `old` on its stack and its stack pointer in the table. */
  function SaveContext(m: Machine, old_: nat): Machine
    requires 4 <= m.regs.esp <= RAM && old_ < |m.top|
  {
    var m1 := Push(m, m.regs.ebp);
    var m2 := Push(m1, m.regs.ebx);
    var m3 := Push(m2, m.regs.esi);
    var m4 := Push(m3, m.regs.edi);
    m4.(top := m.top[old_ := m4.regs.esp])
  }

  /** Takes the stack at sp: pops the registers and returns through the address above them. */
  function LoadContext(m: Machine, sp: nat): Machine
    requires sp + FRAME <= RAM
  {
    m.(regs := Regs(sp + FRAME, m.ram[sp + 3], m.ram[sp + 2], m.ram[sp + 1], m.ram[sp], m.ram[sp + 4]))
  }

  function SwitchTo(m: Machine, old_: nat, new_: nat): Machine
    requires 4 <= m.regs.esp <= RAM && old_ < |m.top| && new_ < |m.top| && m.top[new_] + FRAME <= RAM && old_ != new_
  {
    LoadContext(SaveContext(m, old_), m.top[new_])
  }

  // ---- what a task owns ----------------------------------------------------------------

  /** Registers, return address, and the stack above it. */
  datatype Snapshot = Snapshot(ebp: u32, ebx: u32, esi: u32, edi: u32, eip: u32, stack: seq<u32>)

  /** What task t hands over when it calls context_switch: esp points at the return address. */
  function Taken(m: Machine, t: nat): Snapshot
    requires t < MAX_TASKS && m.regs.esp < End(t)
  {
    Snapshot(m.regs.ebp, m.regs.ebx, m.regs.esi, m.regs.edi, m.ram[m.regs.esp], m.ram[m.regs.esp + 1..End(t)])
  }

  /** Suspended task t's stack holds the snapshot. */
  ghost predicate Held(m: Machine, t: nat, s: Snapshot) {
    && t < |m.top| == MAX_TASKS
    && var sp := m.top[t];
       && Base(t) <= sp && sp + FRAME <= End(t)
       && m.ram[sp] == s.edi && m.ram[sp + 1] == s.esi && m.ram[sp + 2] == s.ebx && m.ram[sp + 3] == s.ebp
       && m.ram[sp + 4] == s.eip && m.ram[sp + FRAME..End(t)] == s.stack
  }

  /** Task t is running exactly as the snapshot says. */
  ghost predicate Resumed(m: Machine, t: nat, s: Snapshot) {
    && t < MAX_TASKS && m.regs.esp + |s.stack| == End(t)
    && m.regs == Regs(m.regs.esp, s.ebp, s.ebx, s.esi, s.edi, s.eip)
    && m.ram[m.regs.esp..End(t)] == s.stack
  }

  predicate OnOwnStack(m: Machine, t: nat) {
    t < MAX_TASKS && |m.top| == MAX_TASKS && Base(t) <= m.regs.esp <= End(t)
  }

  /** m and m' agree on the stack and saved pointer of task t. */
  ghost predicate SameStack(m: Machine, m': Machine, t: nat) {
    && t < |m.top| == |m'.top| == MAX_TASKS && m'.top[t] == m.top[t]
    && forall a | Base(t) <= a < End(t) :: m'.ram[a] == m.ram[a]
  }

  lemma SameStackHeld(m: Machine, m': Machine, t: nat, s: Snapshot)
    requires Held(m, t, s) && SameStack(m, m', t)
    ensures Held(m', t, s)
  {
    assert m'.ram[m.top[t] + FRAME..End(t)] == m.ram[m.top[t] + FRAME..End(t)];
  }

  /** Leaving: the pushed frame holds what the task had. */
  lemma SaveHolds(m: Machine, from: nat)
    requires OnOwnStack(m, from) && Base(from) + 4 <= m.regs.esp < End(from)
    ensures Held(SaveContext(m, from), from, Taken(m, from))
    ensures forall t | 0 <= t < MAX_TASKS && t != from :: SameStack(m, SaveContext(m, from), t)
  {
    var (m', e) := (SaveContext(m, from), m.regs.esp);
    assert forall a | 0 <= a < RAM && !(e - 4 <= a < e) :: m'.ram[a] == m.ram[a];
    assert m'.ram[e + 1..End(from)] == m.ram[e + 1..End(from)];
  }

  /** Entering: the popped frame gives back what the task had. */
  lemma LoadRestores(m: Machine, to: nat, s: Snapshot)
    requires Held(m, to, s)
    ensures var m' := LoadContext(m, m.top[to]);
            Resumed(m', to, s) && OnOwnStack(m', to) && m'.ram == m.ram && m'.top == m.top
  {
  }

  /** A switch keeps what the leaving task had and restores what the entering task left. */
  lemma SwitchKeeps(m: Machine, from: nat, to: nat, s: Snapshot)
    requires from != to && OnOwnStack(m, from) && Base(from) + 4 <= m.regs.esp < End(from)
    requires Held(m, to, s)
    ensures var m' := SwitchTo(m, from, to);
            && Held(m', from, Taken(m, from)) && Resumed(m', to, s) && OnOwnStack(m', to)
            && forall t | 0 <= t < MAX_TASKS && t != from :: SameStack(m, m', t)
  {
    SaveHolds(m, from);
    var saved := SaveContext(m, from);
    SameStackHeld(m, saved, to, s);
    LoadRestores(saved, to, s);
    SameStackHeld(saved, SwitchTo(m, from, to), from, Taken(m, from));
    forall t | 0 <= t < MAX_TASKS && t != from
      ensures SameStack(m, SwitchTo(m, from, to), t)
    {
      assert SameStack(m, saved, t);
    }
  }

  // ---- creating a task -------------------------------------------------------------------

  /** The initial frame: four zero registers and the address of task_bootstrap. */
  function FreshStack(m: Machine, t: nat, bootstrap: u32): Machine
    requires t < MAX_TASKS && |m.top| == MAX_TASKS
  {
    var e := End(t);
    m.(ram := m.ram[e - 1 := bootstrap][e - 2 := 0][e - 3 := 0][e - 4 := 0][e - 5 := 0], top := m.top[t := e - 5])
  }

  function Newborn(bootstrap: u32): Snapshot {
    Snapshot(0, 0, 0, 0, bootstrap, [])
  }

  lemma FreshHeld(m: Machine, t: nat, bootstrap: u32)
    requires t < MAX_TASKS && |m.top| == MAX_TASKS
    ensures Held(FreshStack(m, t, bootstrap), t, Newborn(bootstrap))
    ensures forall u | 0 <= u < MAX_TASKS && u != t :: SameStack(m, FreshStack(m, t, bootstrap), u)
  {
  }

  // ---- whole runs ------------------------------------------------------------------------

  datatype Kernel = Kernel(sched: Sched, machine: Machine)

  /** One task more, unless the table is full. */
  function Spawned(k: Kernel, bootstrap: u32): Kernel
    requires Shaped(k.sched) && |k.machine.top| == MAX_TASKS
  {
    var (s, idx) := Create(k.sched);
    if idx.None? then k else Kernel(s, FreshStack(k.machine, idx.value, bootstrap))
  }

  /** Entering the first task; the stack this leaves is never used again. */
  function Started(k: Kernel): Kernel
    requires Shaped(k.sched) && 0 < k.sched.count && |k.machine.top| == MAX_TASKS
    requires Pick(k.sched).current >= 0 && k.machine.top[Pick(k.sched).current] + FRAME <= RAM
  {
    Kernel(Pick(k.sched), LoadContext(k.machine, k.machine.top[Pick(k.sched).current]))
  }

  /** Work: the current task computes, changing registers and its own stack at will. */
  datatype Event = Work(regs: Regs, words: seq<u32>) | Yield | Exit | Spawn

  ghost predicate Legal(k: Kernel, ev: Event) {
    && RoundRobin.Inv(k.sched) && k.sched.current >= 0 && |k.machine.top| == MAX_TASKS
    && match ev
       case Work(regs, words) =>
         |words| == STACK_WORDS && Base(k.sched.current) <= regs.esp <= End(k.sched.current)
       case Yield =>
         Base(k.sched.current) + 4 <= k.machine.regs.esp < End(k.sched.current)
       case _ => true
  }

  function Working(m: Machine, t: nat, regs: Regs, words: seq<u32>): Machine
    requires t < MAX_TASKS && |words| == STACK_WORDS
  {
    m.(regs := regs, ram := m.ram[..Base(t)] + words + m.ram[End(t)..])
  }

  /** Where a yield goes: nowhere with fewer than two tasks or when the same task is picked. */
  function YieldTarget(s: Sched): Option<nat>
    requires Shaped(s) && s.current >= 0
  {
    if s.count < 2 || Pick(s).current == s.current then None else Some(Pick(s).current)
  }

  /** A yield changes tasks exactly when some other task is ready, and then enters one that is. */
  lemma YieldTargetMeans(s: Sched)
    requires RoundRobin.Inv(s) && 0 <= s.current
    ensures YieldTarget(s).Some? <==> exists t: nat :: t < s.count && t != s.current && s.states[t] == Ready
    ensures YieldTarget(s).Some? ==> s.states[YieldTarget(s).value] == Ready
  {
    PickKeepsInv(s);
    AnotherTakesOver(s);
  }

  ghost function Apply(k: Kernel, ev: Event, bootstrap: u32): Kernel
    requires Legal(k, ev) && forall t | 0 <= t < MAX_TASKS :: k.machine.top[t] + FRAME <= RAM
  {
    var t := k.sched.current;
    match ev
    case Work(regs, words) => k.(machine := Working(k.machine, t, regs, words))
    case Yield =>
      if k.sched.count < 2 then k
      else if YieldTarget(k.sched).None? then k.(sched := Pick(k.sched))
      else Kernel(Pick(k.sched), SwitchTo(k.machine, t, Pick(k.sched).current))
    case Exit => k.(sched := Finish(k.sched))
    case Spawn => Spawned(k, bootstrap)
  }

  /** The books: for each suspended task, what it had when it last yielded, or was born with. */
  ghost predicate Booked(k: Kernel, held: map<nat, Snapshot>) {
    && RoundRobin.Inv(k.sched) && k.sched.current >= 0 && OnOwnStack(k.machine, k.sched.current)
    && (forall t | 0 <= t < MAX_TASKS :: k.machine.top[t] + FRAME <= RAM)
    && AllHeld(k.machine, held, k.sched.count, k.sched.current)
  }

  ghost function Book(k: Kernel, held: map<nat, Snapshot>, ev: Event, bootstrap: u32): map<nat, Snapshot>
    requires Legal(k, ev)
  {
    match ev
    case Yield => if YieldTarget(k.sched).None? then held else held[k.sched.current := Taken(k.machine, k.sched.current)]
    case Spawn => if Create(k.sched).1.None? then held else held[k.sched.count := Newborn(bootstrap)]
    case _ => held
  }

  lemma WorkBooked(k: Kernel, held: map<nat, Snapshot>, regs: Regs, words: seq<u32>, bootstrap: u32)
    requires Booked(k, held) && Legal(k, Work(regs, words))
    ensures Booked(Apply(k, Work(regs, words), bootstrap), held)
  {
    var k' := Apply(k, Work(regs, words), bootstrap);
    forall t | 0 <= t < k.sched.count && t != k.sched.current
      ensures t in held && Held(k'.machine, t, held[t])
    {
      assert SameStack(k.machine, k'.machine, t);
      SameStackHeld(k.machine, k'.machine, t, held[t]);
    }
  }

  lemma FreshAllHeld(m: Machine, held: map<nat, Snapshot>, n: nat, running: nat, bootstrap: u32)
    requires n < MAX_TASKS && |m.top| == MAX_TASKS && AllHeld(m, held, n, running) && running < n
    ensures AllHeld(FreshStack(m, n, bootstrap), held[n := Newborn(bootstrap)], n + 1, running)
  {
    FreshHeld(m, n, bootstrap);
    forall t | 0 <= t < n && t != running
      ensures t in held && Held(FreshStack(m, n, bootstrap), t, held[t])
    {
      StillHeld(m, n, bootstrap, t, held[t]);
    }
  }

  lemma StillHeld(m: Machine, n: nat, bootstrap: u32, t: nat, s: Snapshot)
    requires n < MAX_TASKS && |m.top| == MAX_TASKS && t != n && Held(m, t, s)
    ensures Held(FreshStack(m, n, bootstrap), t, s)
  {
    FreshHeld(m, n, bootstrap);
    SameStackHeld(m, FreshStack(m, n, bootstrap), t, s);
  }

  lemma SpawnBooked(k: Kernel, held: map<nat, Snapshot>, bootstrap: u32)
    requires Booked(k, held) && Legal(k, Spawn)
    ensures Booked(Apply(k, Spawn, bootstrap), Book(k, held, Spawn, bootstrap))
  {
    if k.sched.count < MAX_TASKS {
      FreshAllHeld(k.machine, held, k.sched.count, k.sched.current, bootstrap);
    }
  }

  /** The saved snapshots of the first n tasks, except the one that runs. */
  ghost predicate AllHeld(m: Machine, held: map<nat, Snapshot>, n: nat, running: nat) {
    forall t | 0 <= t < n && t != running :: t in held && Held(m, t, held[t])
  }

  lemma SwitchBooks(m: Machine, held: map<nat, Snapshot>, n: nat, from: nat, to: nat)
    requires from != to && from < n && to < n <= MAX_TASKS && AllHeld(m, held, n, from)
    requires OnOwnStack(m, from) && Base(from) + 4 <= m.regs.esp < End(from)
    requires to in held && Held(m, to, held[to])
    ensures var m' := SwitchTo(m, from, to);
            && AllHeld(m', held[from := Taken(m, from)], n, to)
            && Resumed(m', to, held[to]) && OnOwnStack(m', to)
  {
    SwitchKeeps(m, from, to, held[to]);
    var m' := SwitchTo(m, from, to);
    forall t | 0 <= t < n && t != from && t != to
      ensures t in held && Held(m', t, held[t])
    {
      SameStackHeld(m, m', t, held[t]);
    }
  }

  /** At a yield that changes tasks, the task that takes over finds everything as it left it. */
  lemma YieldBooked(k: Kernel, held: map<nat, Snapshot>, bootstrap: u32)
    requires Booked(k, held) && Legal(k, Yield)
    ensures Booked(Apply(k, Yield, bootstrap), Book(k, held, Yield, bootstrap))
    ensures YieldTarget(k.sched).Some? ==>
              var to := YieldTarget(k.sched).value;
              to in held && Resumed(Apply(k, Yield, bootstrap).machine, to, held[to])
  {
    PickKeepsInv(k.sched);
    if YieldTarget(k.sched).Some? {
      var to := YieldTarget(k.sched).value;
      assert to in held && Held(k.machine, to, held[to]);
      SwitchBooks(k.machine, held, k.sched.count, k.sched.current, to);
    }
  }

  ghost predicate LegalRun(k: Kernel, held: map<nat, Snapshot>, evs: seq<Event>, bootstrap: u32)
    requires Booked(k, held)
    decreases |evs|
  {
    evs == []
    || (Legal(k, evs[0])
        && (BookedNext(k, held, evs[0], bootstrap);
            LegalRun(Apply(k, evs[0], bootstrap), Book(k, held, evs[0], bootstrap), evs[1..], bootstrap)))
  }

  lemma BookedNext(k: Kernel, held: map<nat, Snapshot>, ev: Event, bootstrap: u32)
    requires Booked(k, held) && Legal(k, ev)
    ensures Booked(Apply(k, ev, bootstrap), Book(k, held, ev, bootstrap))
  {
    match ev
    case Work(regs, words) => WorkBooked(k, held, regs, words, bootstrap);
    case Yield => YieldBooked(k, held, bootstrap);
    case Exit =>
    case Spawn => SpawnBooked(k, held, bootstrap);
  }

  /** Every task switch of the run resumes a task exactly as the books say. */
  ghost predicate AllRestored(k: Kernel, held: map<nat, Snapshot>, evs: seq<Event>, bootstrap: u32)
    requires Booked(k, held) && LegalRun(k, held, evs, bootstrap)
    decreases |evs|
  {
    evs == []
    || (BookedNext(k, held, evs[0], bootstrap);
        var k' := Apply(k, evs[0], bootstrap);
        && (evs[0].Yield? && YieldTarget(k.sched).Some? ==>
              k'.sched.current in held && Resumed(k'.machine, k'.sched.current, held[k'.sched.current]))
        && AllRestored(k', Book(k, held, evs[0], bootstrap), evs[1..], bootstrap))
  }

  /** Over any interleaving of work, yields, exits and new tasks. */
  lemma {:induction false} RunRestores(k: Kernel, held: map<nat, Snapshot>, evs: seq<Event>, bootstrap: u32)
    requires Booked(k, held) && LegalRun(k, held, evs, bootstrap)
    ensures AllRestored(k, held, evs, bootstrap)
    decreases |evs|
  {
    if evs != [] {
      BookedNext(k, held, evs[0], bootstrap);
      if evs[0].Yield? {
        YieldBooked(k, held, bootstrap);
      }
      RunRestores(Apply(k, evs[0], bootstrap), Book(k, held, evs[0], bootstrap), evs[1..], bootstrap);
    }
  }

  // ---- booting ---------------------------------------------------------------------------

  /** An empty task table, before anything is created. */
  ghost predicate Blank(k: Kernel) {
    && k.sched == Sched(seq(MAX_TASKS, _ => Unused), 0, -1)
    && |k.machine.top| == MAX_TASKS && forall t | 0 <= t < MAX_TASKS :: k.machine.top[t] + FRAME <= RAM
  }

  function Boot(k: Kernel, n: nat, bootstrap: u32): (r: Kernel)
    requires Shaped(k.sched) && |k.machine.top| == MAX_TASKS
    ensures Shaped(r.sched) && |r.machine.top| == MAX_TASKS
  {
    if n == 0 then k else Spawned(Boot(k, n - 1, bootstrap), bootstrap)
  }

  function Newborns(n: nat, bootstrap: u32): (r: map<nat, Snapshot>)
    ensures forall t: nat :: t in r <==> t < n
    ensures forall t: nat | t in r :: r[t] == Newborn(bootstrap)
  {
    if n == 0 then map[] else Newborns(n - 1, bootstrap)[n - 1 := Newborn(bootstrap)]
  }

  lemma SpawnHeld(k: Kernel, held: map<nat, Snapshot>, bootstrap: u32)
    requires Shaped(k.sched) && |k.machine.top| == MAX_TASKS && k.sched.count < MAX_TASKS
    requires AllHeld(k.machine, held, k.sched.count, k.sched.count)
    ensures var n := k.sched.count;
            AllHeld(Spawned(k, bootstrap).machine, held[n := Newborn(bootstrap)], n + 1, n + 1)
  {
    var (n, m) := (k.sched.count, k.machine);
    FreshHeld(m, n, bootstrap);
    forall t | 0 <= t < n
      ensures t in held && Held(FreshStack(m, n, bootstrap), t, held[t])
    {
      SameStackHeld(m, FreshStack(m, n, bootstrap), t, held[t]);
    }
  }

  lemma {:induction false} BootReady(k: Kernel, n: nat, bootstrap: u32)
    requires Blank(k) && n <= MAX_TASKS
    ensures var b := Boot(k, n, bootstrap);
            && RoundRobin.Inv(b.sched) && b.sched.count == n && b.sched.current == -1
            && (forall t | 0 <= t < n :: b.sched.states[t] == Ready)
            && (forall t | 0 <= t < MAX_TASKS :: b.machine.top[t] + FRAME <= RAM)
  {
    if n > 0 {
      BootReady(k, n - 1, bootstrap);
    }
  }

  lemma {:induction false} BootHeld(k: Kernel, n: nat, bootstrap: u32)
    requires Blank(k) && n <= MAX_TASKS
    ensures AllHeld(Boot(k, n, bootstrap).machine, Newborns(n, bootstrap), n, n)
  {
    if n > 0 {
      BootHeld(k, n - 1, bootstrap);
      BootReady(k, n - 1, bootstrap);
      SpawnHeld(Boot(k, n - 1, bootstrap), Newborns(n - 1, bootstrap), bootstrap);
    }
  }

  /** Entering task 0 of a table whose tasks are all ready and held. */
  lemma StartBooked(b: Kernel, held: map<nat, Snapshot>)
    requires RoundRobin.Inv(b.sched) && b.sched.current == -1 && 0 < b.sched.count
    requires Pick(b.sched).current == 0 && AllHeld(b.machine, held, b.sched.count, b.sched.count)
    requires |b.machine.top| == MAX_TASKS && forall t | 0 <= t < MAX_TASKS :: b.machine.top[t] + FRAME <= RAM
    ensures 0 in held && Resumed(Started(b).machine, 0, held[0]) && Booked(Started(b), held)
  {
    PickKeepsInv(b.sched);
    assert 0 in held && Held(b.machine, 0, held[0]);
    LoadRestores(b.machine, 0, held[0]);
    var r := Started(b);
    forall t | 0 <= t < b.sched.count && t != 0
      ensures t in held && Held(r.machine, t, held[t])
    {
      assert t in held && Held(b.machine, t, held[t]);
      SameStackHeld(b.machine, r.machine, t, held[t]);
    }
  }

  lemma FirstPick(s: Sched)
    requires Shaped(s) && s.current == -1 && 0 < s.count && s.states[0] == Ready
    ensures Pick(s).current == 0
  {
    Wrap(0, s.count);
    assert Slot(s, 0) == 0 && Runnable(s, 0);
    assert NextFrom(s, 0) == Some(0);
  }

  /** Starting n new tasks enters the first at task_bootstrap with an empty stack, and
      from there every run restores each task as it was. */
  lemma StartRestores(k: Kernel, n: nat, bootstrap: u32, evs: seq<Event>)
    requires Blank(k) && 0 < n <= MAX_TASKS
    ensures Pick(Boot(k, n, bootstrap).sched).current == 0 && Boot(k, n, bootstrap).sched.count == n
    ensures Boot(k, n, bootstrap).machine.top[0] + FRAME <= RAM
    ensures var r := Started(Boot(k, n, bootstrap));
            && Resumed(r.machine, 0, Newborn(bootstrap)) && r.machine.regs.eip == bootstrap
            && Booked(r, Newborns(n, bootstrap))
            && (LegalRun(r, Newborns(n, bootstrap), evs, bootstrap) ==>
                  AllRestored(r, Newborns(n, bootstrap), evs, bootstrap))
  {
    var (b, held) := (Boot(k, n, bootstrap), Newborns(n, bootstrap));
    BootReady(k, n, bootstrap);
    BootHeld(k, n, bootstrap);
    FirstPick(b.sched);
    StartBooked(b, held);
    if LegalRun(Started(b), held, evs, bootstrap) {
      RunRestores(Started(b), held, evs, bootstrap);
    }
  }
}
