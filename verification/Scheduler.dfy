/** The scheduler over its task table and the task stacks in memory. */
module Scheduler {
  import opened ContextSwitch
  import opened RoundRobin
  import opened Words

  class TaskTable {
    const states: array<TaskState>
    const tops: array<nat>
    const ram: array<u32>
    /** Where task_bootstrap starts. */
    const bootstrap: u32
    var count: nat
    var current: int
    var regs: Regs
    var preemptPending: bool
    var quantum: nat

    ghost predicate Valid()
      reads this, states
    {
      && states.Length == tops.Length == MAX_TASKS && ram.Length == RAM && (tops as object) != (ram as object)
      && count <= MAX_TASKS && -1 <= current < count && quantum < QUANTUM
    }

    ghost function Tasks(): Sched
      requires Valid()
      reads this, states
    {
      Sched(states[..], count, current)
    }

    ghost function Memory(): Machine
      requires Valid()
      reads this, states, tops, ram
    {
      Machine(ram[..], regs, tops[..])
    }

    ghost function View(): Kernel
      requires Valid()
      reads this, states, tops, ram
    {
      Kernel(Tasks(), Memory())
    }

    /** All slots unused, nothing running. */
    constructor (bootstrap: u32)
      ensures Valid() && this.bootstrap == bootstrap && fresh(states) && fresh(tops) && fresh(ram)
      ensures Blank(View()) && !preemptPending
    {
      states, tops := new TaskState[MAX_TASKS](_ => Unused), new nat[MAX_TASKS](_ => 0);
      ram := new u32[RAM](_ => 0);
      this.bootstrap := bootstrap;
      count, current, quantum, preemptPending := 0, -1, 0, false;
      regs := Regs(0, 0, 0, 0, 0, 0);
      new;
      assert states[..] == seq(MAX_TASKS, _ => Unused);
    }

    method PickNext()
      requires Valid()
      modifies states, `current
      ensures Valid() && Tasks() == Pick(old(Tasks()))
    {
      ghost var s := Tasks();
      if count == 0 { return; }
      var i: nat := 0;
      while i < count
        invariant i <= count && current == s.current && states[..] == s.states
        invariant NextFrom(s, 0) == NextFrom(s, i)
      {
        var idx := (current + 1 + i) % count;
        if states[idx] == Ready || states[idx] == Running {
          if current >= 0 && states[current] == Running {
            states[current] := Ready;
          }
          current := idx;
          states[idx] := Running;
          return;
        }
        i := i + 1;
      }
    }

    method PushWord(v: u32)
      requires Valid() && 0 < regs.esp <= RAM
      modifies ram, `regs
      ensures Valid() && Memory() == Push(old(Memory()), v)
    {
      ram[regs.esp - 1] := v;
      regs := regs.(esp := regs.esp - 1);
    }

    /** Pushes the registers and stores the stack pointer. */
    method SaveRegisters(from: nat)
      requires Valid() && from < MAX_TASKS && 4 <= regs.esp <= RAM
      modifies tops, ram, `regs
      ensures Valid() && Memory() == SaveContext(old(Memory()), from)
    {
      PushWord(regs.ebp);
      PushWord(regs.ebx);
      PushWord(regs.esi);
      PushWord(regs.edi);
      tops[from] := regs.esp;
    }

    /** Takes the new stack, pops the registers and returns. */
    method PopRegisters(sp: nat)
      requires Valid() && sp + FRAME <= RAM
      modifies `regs
      ensures Valid() && Memory() == LoadContext(old(Memory()), sp)
    {
      regs := regs.(esp := sp);
      regs := regs.(edi := ram[regs.esp], esp := regs.esp + 1);
      regs := regs.(esi := ram[regs.esp], esp := regs.esp + 1);
      regs := regs.(ebx := ram[regs.esp], esp := regs.esp + 1);
      regs := regs.(ebp := ram[regs.esp], esp := regs.esp + 1);
      regs := regs.(eip := ram[regs.esp], esp := regs.esp + 1);
    }

    method SwitchStacks(from: nat, to: nat)
      requires Valid() && from < MAX_TASKS && to < MAX_TASKS && from != to
      requires 4 <= regs.esp <= RAM && tops[to] + FRAME <= RAM
      modifies tops, ram, `regs
      ensures Valid() && Memory() == SwitchTo(old(Memory()), from, to)
    {
      var sp := tops[to];
      SaveRegisters(from);
      PopRegisters(sp);
    }

    /** No slot without an entry function or with the table full. */
    method CreateTask(hasEntry: bool) returns (id: Option<nat>)
      requires Valid()
      modifies states, tops, ram, `count
      ensures Valid()
      ensures View() == if hasEntry then Spawned(old(View()), bootstrap) else old(View())
      ensures id == if hasEntry then Create(old(Tasks())).1 else None
    {
      if !hasEntry || count >= MAX_TASKS { return None; }
      var idx := count;
      states[idx] := Ready;
      var sp := End(idx);
      sp := sp - 1;
      ram[sp] := bootstrap;
      sp := sp - 1;
      ram[sp] := 0;
      sp := sp - 1;
      ram[sp] := 0;
      sp := sp - 1;
      ram[sp] := 0;
      sp := sp - 1;
      ram[sp] := 0;
      tops[idx] := sp;
      count := count + 1;
      return Some(idx);
    }

    /** Enters the first task; without tasks the kernel panics. */
    method Start() returns (panicked: bool)
      requires Valid() && current == -1 && forall t | 0 <= t < count :: states[t] == Ready
      requires forall t | 0 <= t < MAX_TASKS :: tops[t] + FRAME <= RAM
      modifies states, `current, `regs
      ensures Valid() && panicked == (old(count) == 0)
      ensures !panicked ==> Pick(old(Tasks())).current == 0 && View() == Started(old(View()))
    {
      if count == 0 { return true; }
      assert Tasks().states[0] == states[0];
      FirstPick(Tasks());
      PickNext();
      PopRegisters(tops[current]);
      return false;
    }

    method Yield()
      requires Valid() && current >= 0 && ContextSwitch.Legal(View(), Event.Yield)
      requires forall t | 0 <= t < MAX_TASKS :: tops[t] + FRAME <= RAM
      modifies this`current, this`regs, states, tops, ram
      ensures Valid() && View() == ContextSwitch.Apply(old(View()), Event.Yield, bootstrap)
    {
      if count < 2 { return; }
      var from := current;
      PickNext();
      if current < 0 || current == from { return; }
      SwitchStacks(from, current);
    }

    /** Every fourth tick a preemption falls due. */
    method OnTick()
      requires Valid()
      modifies `quantum, `preemptPending
      ensures Valid() && quantum == (old(quantum) + 1) % 4
      ensures preemptPending == (old(preemptPending) || quantum == 0)
    {
      quantum := quantum + 1;
      if quantum >= QUANTUM {
        quantum, preemptPending := 0, true;
      }
    }

    method MaybePreempt()
      requires Valid() && current >= 0 && ContextSwitch.Legal(View(), Event.Yield)
      requires forall t | 0 <= t < MAX_TASKS :: tops[t] + FRAME <= RAM
      modifies this, states, tops, ram
      ensures Valid() && !preemptPending && quantum == old(quantum)
      ensures View() == if old(preemptPending) then ContextSwitch.Apply(old(View()), Event.Yield, bootstrap) else old(View())
    {
      if preemptPending {
        preemptPending := false;
        Yield();
      }
    }

    /** What task_bootstrap does when the entry function has returned, up to its first yield. */
    method EntryReturned()
      requires Valid() && current >= 0 && ContextSwitch.Legal(View(), Exit)
      requires forall t | 0 <= t < MAX_TASKS :: tops[t] + FRAME <= RAM
      modifies states
      ensures Valid() && View() == ContextSwitch.Apply(old(View()), Exit, bootstrap)
    {
      states[current] := Terminated;
    }
  }
}
