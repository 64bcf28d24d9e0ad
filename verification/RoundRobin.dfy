/** The scheduler's task table: round-robin choice among at most 64 tasks. */
module RoundRobin {
  import opened Words

  const MAX_TASKS := 64
  const QUANTUM := 4

  datatype TaskState = Unused | Ready | Running | Blocked | Terminated

  /** current is -1 until the first task has been picked. */
  datatype Sched = Sched(states: seq<TaskState>, count: nat, current: int)

  predicate Shaped(s: Sched) {
    |s.states| == MAX_TASKS && s.count <= MAX_TASKS && -1 <= s.current < s.count
  }

  /** Only the current task can be running, and slots beyond the count are unused. */
  ghost predicate Inv(s: Sched) {
    && Shaped(s)
    && (forall i | 0 <= i < MAX_TASKS && s.states[i] == Running :: i == s.current)
    && (s.current >= 0 ==> s.states[s.current] == Running || s.states[s.current] == Terminated)
    && (forall i | s.count <= i < MAX_TASKS :: s.states[i] == Unused)
  }

  predicate Runnable(s: Sched, i: nat)
    requires Shaped(s) && i < s.count
  {
    s.states[i] == Ready || s.states[i] == Running
  }

  /** The i-th slot after the current one, going round. */
  function Slot(s: Sched, i: nat): (r: nat)
    requires Shaped(s) && 0 < s.count
    ensures r < s.count
  {
    (s.current + 1 + i) % s.count
  }

  function NextFrom(s: Sched, i: nat): (r: Option<nat>)
    requires Shaped(s) && 0 < s.count && i <= s.count
    ensures r.Some? ==> i <= r.value < s.count && Runnable(s, Slot(s, r.value))
    ensures r.Some? ==> forall j | i <= j < r.value :: !Runnable(s, Slot(s, j))
    ensures r.None? ==> forall j | i <= j < s.count :: !Runnable(s, Slot(s, j))
    decreases s.count - i
  {
    if i == s.count then None else if Runnable(s, Slot(s, i)) then Some(i) else NextFrom(s, i + 1)
  }

  function Switched(s: Sched, idx: nat): Sched
    requires Shaped(s) && idx < s.count
  {
    var rested := if s.current >= 0 && s.states[s.current] == Running then s.states[s.current := Ready] else s.states;
    s.(states := rested[idx := Running], current := idx)
  }

  function Pick(s: Sched): Sched
    requires Shaped(s)
  {
    if s.count == 0 || NextFrom(s, 0).None? then s else Switched(s, Slot(s, NextFrom(s, 0).value))
  }

  function Create(s: Sched): (Sched, Option<nat>)
    requires Shaped(s)
  {
    if s.count >= MAX_TASKS then (s, None)
    else (s.(states := s.states[s.count := Ready], count := s.count + 1), Some(s.count))
  }

  /** The current task's entry function has returned. */
  function Finish(s: Sched): Sched
    requires Shaped(s) && s.current >= 0
  {
    s.(states := s.states[s.current := Terminated])
  }

  lemma PickKeepsInv(s: Sched)
    requires Inv(s)
    ensures Inv(Pick(s)) && Pick(s).count == s.count
    ensures forall i | 0 <= i < MAX_TASKS :: s.states[i] == Terminated <==> Pick(s).states[i] == Terminated
    ensures Pick(s).current != s.current ==> s.states[Pick(s).current] == Ready
  {
  }

  // ---- whole runs -------------------------------------------------------------------

  datatype Step = PickStep | CreateStep | FinishStep

  predicate Legal(s: Sched, op: Step) {
    Shaped(s) && (op.FinishStep? ==> s.current >= 0)
  }

  function Apply(s: Sched, op: Step): Sched
    requires Legal(s, op)
  {
    match op
    case PickStep => Pick(s)
    case CreateStep => Create(s).0
    case FinishStep => Finish(s)
  }

  predicate LegalRun(s: Sched, ops: seq<Step>)
    decreases |ops|
  {
    ops == [] || (Legal(s, ops[0]) && LegalRun(Apply(s, ops[0]), ops[1..]))
  }

  function Run(s: Sched, ops: seq<Step>): Sched
    requires LegalRun(s, ops)
    decreases |ops|
  {
    if ops == [] then s else Run(Apply(s, ops[0]), ops[1..])
  }

  /** Every run keeps at most one running task, the current one, and a terminated
      task stays terminated. */
  lemma {:induction false} RunKeepsInv(s: Sched, ops: seq<Step>)
    requires Inv(s) && LegalRun(s, ops)
    ensures Inv(Run(s, ops)) && s.count <= Run(s, ops).count
    ensures forall i | 0 <= i < MAX_TASKS && s.states[i] == Terminated :: Run(s, ops).states[i] == Terminated
    decreases |ops|
  {
    if ops != [] {
      PickKeepsInv(s);
      var t := Apply(s, ops[0]);
      assert Inv(t);
      RunKeepsInv(t, ops[1..]);
    }
  }

  /** A terminated task is never picked again. */
  lemma TerminatedNotPicked(s: Sched, ops: seq<Step>, t: nat)
    requires Inv(s) && LegalRun(s, ops) && t < MAX_TASKS && s.states[t] == Terminated
    ensures Shaped(Run(s, ops)) && (Pick(Run(s, ops)).current == t ==> Run(s, ops).current == t)
  {
    RunKeepsInv(s, ops);
    PickKeepsInv(Run(s, ops));
  }

  // ---- bounded waiting ----------------------------------------------------------------

  /** How many slots the scan passes before it reaches t. */
  function Distance(s: Sched, t: nat): nat
    requires Shaped(s) && t < s.count
  {
    (t - s.current - 1) % s.count
  }

  lemma Times(n: int, a: int, b: int)
    requires 0 < n && a <= b
    ensures n * a <= n * b
  {
  }

  /** Going once round: remainders of numbers within one turn of the range. */
  lemma Wrap(x: int, n: int)
    requires 0 < n && -n <= x < 2 * n
    ensures x % n == if x < 0 then x + n else if x < n then x else x - n
  {
    var q, r := x / n, x % n;
    assert x == n * q + r;
    if q <= -2 {
      Times(n, q, -2);
    } else if q >= 2 {
      Times(n, 2, q);
    }
    if q == -1 {
      assert n * q == -n;
    } else if q == 1 {
      assert n * q == n;
    }
  }

  lemma SlotAtDistance(s: Sched, t: nat)
    requires Shaped(s) && t < s.count
    ensures Distance(s, t) < s.count && Slot(s, Distance(s, t)) == t
  {
    Wrap(t - s.current - 1, s.count);
    Wrap(s.current + 1 + Distance(s, t), s.count);
  }

  /** The first runnable slot is no farther away than any waiting task. */
  lemma PickIsNear(s: Sched, t: nat)
    requires Shaped(s) && t < s.count && s.states[t] == Ready
    ensures NextFrom(s, 0).Some? && NextFrom(s, 0).value <= Distance(s, t)
    ensures NextFrom(s, 0).value == Distance(s, t) ==> Slot(s, NextFrom(s, 0).value) == t
  {
    SlotAtDistance(s, t);
    assert Runnable(s, Slot(s, Distance(s, t)));
  }

  lemma DistanceDrops(current: int, n: nat, t: nat, i: nat, p: nat)
    requires -1 <= current < n && t < n && i < (t - current - 1) % n && p == (current + 1 + i) % n
    ensures (t - p - 1) % n < (t - current - 1) % n
  {
    Wrap(t - current - 1, n);
    Wrap(current + 1 + i, n);
    Wrap(t - p - 1, n);
  }

  /** Each pick either chooses a waiting task or brings it nearer. */
  lemma PickProgress(s: Sched, t: nat)
    requires Inv(s) && t < s.count && s.states[t] == Ready
    ensures Inv(Pick(s)) && Pick(s).count == s.count
    ensures Pick(s).current == t || (Pick(s).states[t] == Ready && Distance(Pick(s), t) < Distance(s, t))
  {
    PickKeepsInv(s);
    PickIsNear(s, t);
    var i := NextFrom(s, 0).value;
    if i < Distance(s, t) {
      DistanceDrops(s.current, s.count, t, i, Slot(s, i));
    }
  }

  /** Rounds of picks, the current task finishing or not before each. */
  function Rounds(s: Sched, finishes: seq<bool>): Sched
    requires Shaped(s)
    decreases |finishes|
  {
    if finishes == [] then s else Rounds(Round(s, finishes[0]), finishes[1..])
  }

  function Round(s: Sched, finishes: bool): (r: Sched)
    requires Shaped(s)
    ensures Shaped(r)
  {
    Pick(if finishes && s.current >= 0 then Finish(s) else s)
  }

  lemma RoundProgress(s: Sched, finishes: bool, t: nat)
    requires Inv(s) && t < s.count && s.states[t] == Ready
    ensures var r := Round(s, finishes);
            && Inv(r) && r.count == s.count
            && (r.current == t || (r.states[t] == Ready && Distance(r, t) < Distance(s, t)))
  {
    PickProgress(if finishes && s.current >= 0 then Finish(s) else s, t);
  }

  /** With a fixed task set a ready task is picked within count rounds, whichever
      tasks finish meanwhile. */
  lemma {:induction false} ReadyIsPicked(s: Sched, finishes: seq<bool>, t: nat) returns (k: nat)
    requires Inv(s) && t < s.count && s.states[t] == Ready && |finishes| > Distance(s, t)
    ensures 0 < k <= Distance(s, t) + 1 && k <= |finishes| && k <= s.count
    ensures Rounds(s, finishes[..k]).current == t
    decreases |finishes|
  {
    var r := Round(s, finishes[0]);
    RoundProgress(s, finishes[0], t);
    SlotAtDistance(s, t);
    if r.current == t {
      assert finishes[..1][0] == finishes[0] && finishes[..1][1..] == [];
      return 1;
    }
    k := ReadyIsPicked(r, finishes[1..], t);
    assert finishes[..k + 1][0] == finishes[0] && finishes[..k + 1][1..] == finishes[1..][..k];
    k := k + 1;
  }

  /** A task just created is picked within as many rounds as there are tasks. */
  lemma CreatedIsPicked(s: Sched, finishes: seq<bool>) returns (k: nat)
    requires Inv(s) && s.count < 64 && |finishes| > s.count
    ensures var (c, id) := Create(s);
            && id == Some(s.count) && c.count == s.count + 1 && Shaped(c)
            && 0 < k <= c.count && Rounds(c, finishes[..k]).current == s.count
  {
    var c := Create(s).0;
    SlotAtDistance(c, s.count);
    k := ReadyIsPicked(c, finishes, s.count);
  }

  /** Another task takes over at a pick exactly when some other task is ready. */
  lemma AnotherTakesOver(s: Sched)
    requires Inv(s) && 0 <= s.current
    ensures Pick(s).current != s.current <==> exists t: nat :: t < s.count && t != s.current && s.states[t] == Ready
  {
    PickKeepsInv(s);
    forall t: nat | t < s.count && t != s.current && s.states[t] == Ready
      ensures Pick(s).current != s.current
    {
      PickIsNear(s, t);
      Wrap(t - s.current - 1, s.count);
      Wrap(s.current + 1 + NextFrom(s, 0).value, s.count);
    }
  }

  /** Slot t lies on the way round from slot `from` to slot `to`. */
  predicate OnTheWay(from: int, to: nat, t: nat) {
    if from < to then from < t < to else t > from || t < to
  }

  lemma PassedFirst(s: Sched, i: nat, t: nat)
    requires Shaped(s) && i < s.count && t < s.count && OnTheWay(s.current, Slot(s, i), t)
    ensures Distance(s, t) < i
  {
    Wrap(t - s.current - 1, s.count);
    Wrap(s.current + 1 + i, s.count);
  }

  /** The first runnable task behind the current one is picked and alone starts to run, the
      current one being the last in line; with no runnable task nothing changes. */
  lemma PickIsFirst(s: Sched)
    requires Inv(s)
    ensures (forall t: nat | t < s.count :: !Runnable(s, t)) ==> Pick(s) == s
    ensures (exists t: nat :: t < s.count && Runnable(s, t)) ==>
              var p := Pick(s).current;
              && 0 <= p && Runnable(s, p)
              && (forall t: nat | t < s.count && OnTheWay(s.current, p, t) :: !Runnable(s, t))
              && forall i | 0 <= i < MAX_TASKS ::
                   Pick(s).states[i] == if i == p then Running
                                        else if s.states[i] == Running then Ready else s.states[i]
  {
    forall t: nat | t < s.count && Runnable(s, t)
      ensures NextFrom(s, 0).Some? && NextFrom(s, 0).value <= Distance(s, t)
    {
      SlotAtDistance(s, t);
    }
    if t: nat :| t < s.count && Runnable(s, t) {
      var i := NextFrom(s, 0).value;
      forall u: nat | u < s.count && OnTheWay(s.current, Slot(s, i), u)
        ensures !Runnable(s, u)
      {
        PassedFirst(s, i, u);
      }
    }
  }
}
