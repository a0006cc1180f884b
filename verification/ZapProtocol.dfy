/**
 One direction of one ZAP interface as a transition system: user reads and writes, the RX
 workqueue, the interrupt handler and the stop/flush sequence, each spinlocked region or
 register access one step. A used buffer is with the user, the FPGA, or in kernel hands
 between a pool operation and a register access.
 */
module ZapProtocol {
  import opened Options
  import opened ZapPool

  datatype Dir = Rx | Tx

  datatype State = State(
    dir: Dir,
    q: Queues,
    all: set<nat>,           // the packet addresses of the current layout
    user: set<nat>,          // offsets the user got since the last flush and still holds
    fpga: set<nat>,          // addresses written to RBAR or TBAR and not yet returned
    task: Option<nat>,       // taken from the pool, register write still to come
    isr: Option<Packet>,     // returned by the FPGA, pool operation still to come
    on: bool,                // rx_on or tx_on
    running: bool,           // the RX workqueue item has not returned
    failed: bool)            // BUG_ON in the RX handler, or pool_freebuf refused in the TX handler

  datatype Step =
    | Start                  // dma_ll_start_rx or dma_ll_start_tx
    | StopRequest            // rx_on or tx_on cleared, interrupt masked, engine disabled
    | Flush(base: nat, stride: nat, n: nat)  // pool_flush or pool_resize, after the workqueue is flushed
    | TaskGet                // dma_rx_task: pool_getbuf_timeout
    | TaskError              // dma_rx_task: interrupted, clears rx_on
    | TaskExit               // dma_rx_task: loop test fails
    | IsrDeq                 // dma_isr, TX full: pool_deqbuf_try
    | RegisterWrite          // RBAR or TBAR
    | RegisterRead(p: Packet)  // dma_isr: RBAR with BSR, or TBAR
    | IsrEnq                 // dma_isr, RX ready: pool_enqbuf
    | IsrFree                // dma_isr, TX free: pool_freebuf
    | UserGet                // zap_read on a TX device
    | UserDeq                // zap_read on an RX device
    | UserSend(p: Packet)    // zap_write on a TX device
    | UserFree(buf: nat)     // zap_write on an RX device, or on a TX device with length -1

  function InTask(s: State): set<nat> {
    if s.task.Some? then {s.task.value} else {}
  }

  function InIsr(s: State): set<nat> {
    if s.isr.Some? then {s.isr.value.buf} else {}
  }

  /**
   When a step can happen. The FPGA returns only addresses it was handed, and the user
   writes only offsets it holds.
   */
  predicate Enabled(s: State, step: Step) {
    match step
    case Start => !s.running
    case StopRequest => true
    case Flush(_, stride, _) => stride > 0 && !s.running
    case TaskGet => s.dir == Rx && s.running && s.task.None? && s.q.free != []
    case TaskError => s.dir == Rx && s.running && s.task.None?
    case TaskExit => s.dir == Rx && s.running && s.task.None? && !s.on
    case IsrDeq => s.dir == Tx && s.task.None? && s.isr.None? && s.q.fifo != []
    case RegisterWrite => s.task.Some?
    case RegisterRead(p) => p.buf in s.fpga && s.isr.None? && (s.dir == Tx ==> s.task.None?)
    case IsrEnq => s.dir == Rx && s.isr.Some?
    case IsrFree => s.dir == Tx && s.isr.Some?
    case UserGet => s.dir == Tx && s.q.free != []
    case UserDeq => s.dir == Rx && s.q.fifo != []
    case UserSend(p) => s.dir == Tx && p.buf in s.user
    case UserFree(buf) => buf in s.user
  }

  function Apply(s: State, step: Step): State
    requires Enabled(s, step)
  {
    match step
    case Start => s.(on := true, running := s.dir == Rx)
    case StopRequest => s.(on := false)
    case Flush(base, stride, n) =>
      s.(q := AllFree(base, stride, n), all := AddressSet(base, stride, n), user := {}, fpga := {})
    case TaskGet => s.(q := Get(s.q), task := Some(s.q.free[0]))
    case TaskError => s.(on := false)
    case TaskExit => s.(running := false)
    case IsrDeq => s.(q := Deq(s.q), task := Some(s.q.fifo[0].buf))
    case RegisterWrite => s.(task := None, fpga := s.fpga + {s.task.value})
    case RegisterRead(p) => s.(isr := Some(p), fpga := s.fpga - {p.buf})
    case IsrEnq =>
      var p := s.isr.value;
      if p.buf in s.q.used then s.(isr := None, q := Enq(s.q, p)) else s.(isr := None, failed := true)
    case IsrFree =>
      var buf := s.isr.value.buf;
      if buf in s.q.used then s.(isr := None, q := Free(s.q, buf)) else s.(isr := None, failed := true)
    case UserGet => s.(q := Get(s.q), user := s.user + {s.q.free[0]})
    case UserDeq => s.(q := Deq(s.q), user := s.user + {s.q.fifo[0].buf})
    case UserSend(p) =>
      if p.buf in s.q.used then s.(q := Enq(s.q, p), user := s.user - {p.buf}) else s.(failed := true)
    case UserFree(buf) =>
      if buf in s.q.used then s.(q := Free(s.q, buf), user := s.user - {buf}) else s.(failed := true)
  }

  // ------------------------------------------------------------------ invariants

  /** User, FPGA and kernel hands are disjoint and together are the used buffers. */
  predicate Owned(s: State) {
    && s.q.used == s.user + s.fpga + InTask(s) + InIsr(s)
    && s.user !! s.fpga && s.user !! InTask(s) && s.user !! InIsr(s)
    && s.fpga !! InTask(s) && s.fpga !! InIsr(s) && InTask(s) !! InIsr(s)
  }

  ghost predicate Inv(s: State) {
    && Partition(s.q, s.all)
    && Owned(s)
    && !s.failed
    && (s.dir == Rx && !s.running ==> s.task.None?)
    && (s.dir == Tx && s.isr.Some? ==> s.task.None?)
  }

  /** Nothing is in flight in the interrupt handler. */
  predicate Quiet(s: State) {
    s.isr.None? && (s.dir == Tx ==> s.task.None?)
  }

  /** A flush keeps the protocol sound exactly when the interrupt handler is idle. */
  lemma FlushKeepsInvIff(s: State, base: nat, stride: nat, n: nat)
    requires Inv(s) && Enabled(s, Flush(base, stride, n))
    ensures Inv(Apply(s, Flush(base, stride, n))) <==> Quiet(s)
  {
    hide AllFree, Partition, AddressSet;
    AllFreeIsPartition(base, stride, n);
    AllFreeIsIdle(base, stride, n);
    var t := Apply(s, Flush(base, stride, n));
    assert InIsr(t) == InIsr(s) && InTask(t) == InTask(s);
    assert s.isr.Some? ==> s.isr.value.buf in InIsr(t);
    assert s.task.Some? ==> s.task.value in InTask(t);
  }

  lemma AllFreeIsIdle(base: nat, stride: nat, n: nat)
    ensures AllFree(base, stride, n).used == {} && AllFree(base, stride, n).fifo == []
  {
  }

  lemma GetStepKeepsInv(s: State, step: Step)
    requires Inv(s) && Enabled(s, step) && (step.TaskGet? || step.UserGet?)
    ensures Inv(Apply(s, step))
  {
    hide Partition;
    GetKeepsPartition(s.q, s.all);
  }

  lemma DeqStepKeepsInv(s: State, step: Step)
    requires Inv(s) && Enabled(s, step) && (step.IsrDeq? || step.UserDeq?)
    ensures Inv(Apply(s, step))
  {
    hide Partition;
    DeqKeepsPartition(s.q, s.all);
  }

  lemma ReturnStepKeepsInv(s: State, step: Step)
    requires Inv(s) && Enabled(s, step)
    requires step.IsrEnq? || step.IsrFree? || step.UserSend? || step.UserFree?
    ensures Inv(Apply(s, step))
  {
    hide Partition;
    match step
    case IsrEnq => EnqKeepsPartition(s.q, s.all, s.isr.value);
    case IsrFree => FreeKeepsPartition(s.q, s.all, s.isr.value.buf);
    case UserSend(p) => EnqKeepsPartition(s.q, s.all, p);
    case UserFree(buf) => FreeKeepsPartition(s.q, s.all, buf);
    case _ =>
  }

  lemma HandoverKeepsInv(s: State, step: Step)
    requires Inv(s) && Enabled(s, step)
    requires || step.RegisterWrite? || step.RegisterRead? || step.Start?
             || step.StopRequest? || step.TaskError? || step.TaskExit?
    ensures Inv(Apply(s, step))
  {
    hide Partition;
  }

  /** Every step keeps the invariant, a flush when the interrupt handler is idle. */
  lemma StepKeepsInv(s: State, step: Step)
    requires Inv(s) && Enabled(s, step) && (step.Flush? ==> Quiet(s))
    ensures Inv(Apply(s, step))
  {
    hide Inv, Apply, Enabled, Quiet;
    match step
    case Flush(base, stride, n) => FlushKeepsInvIff(s, base, stride, n);
    case TaskGet => GetStepKeepsInv(s, step);
    case IsrDeq => DeqStepKeepsInv(s, step);
    case UserGet => GetStepKeepsInv(s, step);
    case UserDeq => DeqStepKeepsInv(s, step);
    case IsrEnq => ReturnStepKeepsInv(s, step);
    case IsrFree => ReturnStepKeepsInv(s, step);
    case UserSend(_) => ReturnStepKeepsInv(s, step);
    case UserFree(_) => ReturnStepKeepsInv(s, step);
    case _ => HandoverKeepsInv(s, step);
  }

  // ------------------------------------------------------------------------ runs

  /** A run: each state follows from the one before by an enabled step. */
  predicate IsRun(states: seq<State>, steps: seq<Step>) {
    && |states| == |steps| + 1
    && forall i :: 0 <= i < |steps| ==> Enabled(states[i], steps[i]) && states[i + 1] == Apply(states[i], steps[i])
  }

  predicate QuietFlushes(states: seq<State>, steps: seq<Step>)
    requires |states| == |steps| + 1
  {
    forall i :: 0 <= i < |steps| && steps[i].Flush? ==> Quiet(states[i])
  }

  function Initial(dir: Dir, base: nat, stride: nat, n: nat): State {
    State(dir, AllFree(base, stride, n), AddressSet(base, stride, n), {}, {}, None, None, false, false, false)
  }

  /**
   Ownership over every interleaving: in every state of every run whose flushes find the
   interrupt handler idle, the holders partition the used buffers, and no pool operation of
   the handler or the user has been refused.
   */
  lemma {:induction false} Safety(states: seq<State>, steps: seq<Step>, dir: Dir, base: nat, stride: nat, n: nat, i: nat)
    requires IsRun(states, steps) && QuietFlushes(states, steps)
    requires stride > 0 && states[0] == Initial(dir, base, stride, n) && i < |states|
    ensures Inv(states[i])
    ensures Owned(states[i]) && !states[i].failed
  {
    hide Apply, Enabled, Partition, Quiet;
    if i == 0 {
      AllFreeIsPartition(base, stride, n);
      AllFreeIsIdle(base, stride, n);
    } else {
      Safety(states, steps, dir, base, stride, n, i - 1);
      var step := steps[i - 1];
      assert Enabled(states[i - 1], step) && states[i] == Apply(states[i - 1], step);
      StepKeepsInv(states[i - 1], step);
    }
  }

  // ---------------------------------------------------------- what goes in and comes out

  /**
   What was put into the pool since the last flush, told by the steps alone: the packets the
   FPGA or the user gave, and the buffers freed, after the order the flush laid them out in.
   `held` is what the handler last read.
   */
  datatype Log = Log(given: seq<Packet>, order: seq<nat>, freed: seq<nat>, held: Option<Packet>)

  function Next(l: Log, step: Step): Log {
    match step
    case Flush(base, stride, n) => Log([], FreeAddresses(base, stride, n), [], l.held)
    case RegisterRead(p) => l.(held := Some(p))
    case IsrEnq => if l.held.Some? then l.(given := l.given + [l.held.value], held := None) else l
    case IsrFree => if l.held.Some? then l.(freed := l.freed + [l.held.value.buf], held := None) else l
    case UserSend(p) => l.(given := l.given + [p])
    case UserFree(buf) => l.(freed := l.freed + [buf])
    case _ => l
  }

  function LogOf(base: nat, stride: nat, n: nat, steps: seq<Step>): Log {
    if steps == [] then Log([], FreeAddresses(base, stride, n), [], None)
    else Next(LogOf(base, stride, n, steps[..|steps| - 1]), steps[|steps| - 1])
  }

  function First<T>(s: seq<T>): seq<T> {
    if s == [] then [] else [s[0]]
  }

  /** The packets that left the fifo since the last flush: what zap_read and the TX handler were given. */
  function Taken(states: seq<State>, steps: seq<Step>): seq<Packet>
    requires |states| == |steps| + 1
  {
    if steps == [] then []
    else
      var n := |steps| - 1;
      var before := Taken(states[..n + 1], steps[..n]);
      match steps[n]
      case Flush(_, _, _) => []
      case IsrDeq => before + First(states[n].q.fifo)
      case UserDeq => before + First(states[n].q.fifo)
      case _ => before
  }

  /** The buffers that left the free queue since the last flush. */
  function Got(states: seq<State>, steps: seq<Step>): seq<nat>
    requires |states| == |steps| + 1
  {
    if steps == [] then []
    else
      var n := |steps| - 1;
      var before := Got(states[..n + 1], steps[..n]);
      match steps[n]
      case Flush(_, _, _) => []
      case TaskGet => before + First(states[n].q.free)
      case UserGet => before + First(states[n].q.free)
      case _ => before
  }

  /** The log accounts for a state. */
  predicate Accounts(l: Log, s: State, taken: seq<Packet>, got: seq<nat>) {
    l.given == taken + s.q.fifo && l.order + l.freed == got + s.q.free && l.held == s.isr
  }

  lemma HeadMoves<T>(a: seq<T>, s: seq<T>)
    requires s != []
    ensures a + s == (a + First(s)) + s[1..]
  {
  }

  lemma TailGrows<T>(a: seq<T>, s: seq<T>, x: T)
    ensures (a + s) + [x] == a + (s + [x])
  {
  }

  lemma TakingIsAccounted(l: Log, s: State, step: Step, taken: seq<Packet>, got: seq<nat>)
    requires Enabled(s, step) && Accounts(l, s, taken, got)
    ensures step.IsrDeq? || step.UserDeq? ==> Accounts(Next(l, step), Apply(s, step), taken + First(s.q.fifo), got)
    ensures step.TaskGet? || step.UserGet? ==> Accounts(Next(l, step), Apply(s, step), taken, got + First(s.q.free))
  {
    if step.IsrDeq? || step.UserDeq? {
      HeadMoves(taken, s.q.fifo);
    } else if step.TaskGet? || step.UserGet? {
      HeadMoves(got, s.q.free);
    }
  }

  lemma GivingIsAccounted(l: Log, s: State, step: Step, taken: seq<Packet>, got: seq<nat>)
    requires Owned(s) && Enabled(s, step) && Accounts(l, s, taken, got)
    requires step.IsrEnq? || step.IsrFree? || step.UserSend? || step.UserFree?
    ensures Accounts(Next(l, step), Apply(s, step), taken, got)
  {
    match step
    case IsrEnq => TailGrows(taken, s.q.fifo, s.isr.value);
    case IsrFree => TailGrows(l.order, l.freed, s.isr.value.buf); TailGrows(got, s.q.free, s.isr.value.buf);
    case UserSend(p) => TailGrows(taken, s.q.fifo, p);
    case UserFree(buf) => TailGrows(l.order, l.freed, buf); TailGrows(got, s.q.free, buf);
    case _ =>
  }

  lemma StepIsAccounted(l: Log, s: State, step: Step, taken: seq<Packet>, got: seq<nat>)
    requires Inv(s) && Enabled(s, step) && (step.Flush? ==> Quiet(s)) && Accounts(l, s, taken, got)
    ensures Accounts(Next(l, step), Apply(s, step),
                     if step.Flush? then [] else if step.IsrDeq? || step.UserDeq? then taken + First(s.q.fifo) else taken,
                     if step.Flush? then [] else if step.TaskGet? || step.UserGet? then got + First(s.q.free) else got)
  {
    hide Partition, FreeAddresses, AddressSet;
    match step
    case IsrDeq => TakingIsAccounted(l, s, step, taken, got);
    case UserDeq => TakingIsAccounted(l, s, step, taken, got);
    case TaskGet => TakingIsAccounted(l, s, step, taken, got);
    case UserGet => TakingIsAccounted(l, s, step, taken, got);
    case IsrEnq => GivingIsAccounted(l, s, step, taken, got);
    case IsrFree => GivingIsAccounted(l, s, step, taken, got);
    case UserSend(_) => GivingIsAccounted(l, s, step, taken, got);
    case UserFree(_) => GivingIsAccounted(l, s, step, taken, got);
    case _ =>
  }

  /**
   First in, first out, over every run whose flushes find the interrupt handler idle. What was
   given since the last flush, by the FPGA or the user and with its lengths and flags, is what
   was taken out followed by what is still in the fifo; the order of the layout followed by the
   buffers freed is the buffers handed out followed by those still free.
   */
  lemma {:induction false} InOrder(states: seq<State>, steps: seq<Step>, dir: Dir, base: nat, stride: nat, n: nat)
    requires IsRun(states, steps) && QuietFlushes(states, steps)
    requires stride > 0 && states[0] == Initial(dir, base, stride, n)
    ensures var l, s := LogOf(base, stride, n, steps), states[|steps|];
            && l.given == Taken(states, steps) + s.q.fifo
            && l.order + l.freed == Got(states, steps) + s.q.free
            && l.held == s.isr
    decreases |steps|
  {
    hide Apply, Enabled, Inv, Quiet, FreeAddresses, AddressSet, Next;
    if steps != [] {
      var k := |steps| - 1;
      var front, prior := steps[..k], states[..k + 1];
      PrefixIsRun(states, steps);
      InOrder(prior, front, dir, base, stride, n);
      Safety(states, steps, dir, base, stride, n, k);
      assert Enabled(states[k], steps[k]) && states[k + 1] == Apply(states[k], steps[k]);
      StepIsAccounted(LogOf(base, stride, n, front), states[k], steps[k], Taken(prior, front), Got(prior, front));
    }
  }

  lemma PrefixIsRun(states: seq<State>, steps: seq<Step>)
    requires IsRun(states, steps) && QuietFlushes(states, steps) && steps != []
    ensures var k := |steps| - 1; IsRun(states[..k + 1], steps[..k]) && QuietFlushes(states[..k + 1], steps[..k])
  {
    hide Apply, Enabled, Quiet;
  }

  // ------------------------------------------------- a flush with the handler in flight

  /** The handler's pool operation. */
  function HandlerStep(s: State): Step {
    if s.dir == Rx then IsrEnq else IsrFree
  }

  /** A handler that read a buffer before a flush, its pool operation still to come; all else is in order. */
  ghost predicate Orphaned(s: State) {
    s.isr.Some? && (s.dir == Tx ==> s.task.None?) && Inv(s.(isr := None))
  }

  /** A flush between the register read and the pool operation leaves the handler with a buffer that is free. */
  lemma FlushOrphans(s: State, base: nat, stride: nat, n: nat)
    requires Inv(s) && s.isr.Some? && Enabled(s, Flush(base, stride, n))
    ensures var t := Apply(s, Flush(base, stride, n)); Orphaned(t) && t.isr == s.isr && t.dir == s.dir
  {
    hide AllFree, Partition, AddressSet;
    AllFreeIsPartition(base, stride, n);
    AllFreeIsIdle(base, stride, n);
  }

  /** All other steps run as if the handler were idle, and leave it where it is. */
  lemma OthersIgnoreHandler(s: State, step: Step)
    requires Orphaned(s) && Enabled(s, step) && !step.IsrEnq? && !step.IsrFree?
    ensures var t := Apply(s, step); Orphaned(t) && t.isr == s.isr && t.dir == s.dir
  {
    hide Inv, Enabled, Apply;
    EnabledWithoutHandler(s, step);
    AppliesWithoutHandler(s, step);
    HandlerStays(s, step);
    StepKeepsInv(s.(isr := None), step);
  }

  lemma EnabledWithoutHandler(s: State, step: Step)
    requires Enabled(s, step) && !step.IsrEnq? && !step.IsrFree?
    ensures Enabled(s.(isr := None), step)
  {
  }

  lemma AppliesWithoutHandler(s: State, step: Step)
    requires Enabled(s, step) && Enabled(s.(isr := None), step) && s.isr.Some?
    ensures Apply(s, step).(isr := None) == Apply(s.(isr := None), step)
  {
    hide Get, Deq, Free, Enq, AllFree, AddressSet;
  }

  lemma HandlerStays(s: State, step: Step)
    requires Enabled(s, step) && !step.IsrEnq? && !step.IsrFree? && s.isr.Some? && (s.dir == Tx ==> s.task.None?)
    ensures var t := Apply(s, step); t.isr == s.isr && t.dir == s.dir && (t.dir == Tx ==> t.task.None?)
  {
    hide Get, Deq, Free, Enq, AllFree, AddressSet;
  }

  /** Where the handler puts a buffer: the fifo or the free queue. */
  predicate Returned(s: State, buf: nat) {
    if s.dir == Rx then buf in BufsOf(s.q.fifo) else buf in s.q.free
  }

  /** The orphan's pool operation is refused, or takes the buffer from its new holder. */
  lemma OrphanReturns(s: State)
    requires Orphaned(s)
    ensures Enabled(s, HandlerStep(s))
    ensures var buf, t := s.isr.value.buf, Apply(s, HandlerStep(s));
            && (t.failed <==> buf !in s.user + s.fpga + InTask(s))
            && (!t.failed ==> Returned(t, buf) && buf in t.user + t.fpga + InTask(t) && !Inv(t))
  {
    hide Partition;
    var p, t := s.isr.value, Apply(s, HandlerStep(s));
    assert Owned(s.(isr := None)) && InTask(s.(isr := None)) == InTask(s) == InTask(t);
    if p.buf in s.q.used && s.dir == Rx {
      assert BufsOf(t.q.fifo)[|s.q.fifo|] == p.buf;
    }
  }

  /**
   The idle handler cannot be dropped. Over every run after a flush that caught the handler in
   flight, its pool operation is refused (on RX that is BUG_ON) exactly when nobody has been
   given the buffer again; if somebody has, the buffer is silently both in the pool and with
   that holder.
   */
  lemma FlushDuringIsrFails(s: State, base: nat, stride: nat, n: nat, states: seq<State>, steps: seq<Step>)
    requires Inv(s) && s.isr.Some? && Enabled(s, Flush(base, stride, n))
    requires IsRun(states, steps) && states[0] == Apply(s, Flush(base, stride, n))
    requires forall i :: 0 <= i < |steps| ==> !steps[i].IsrEnq? && !steps[i].IsrFree?
    ensures var t, buf := states[|steps|], s.isr.value.buf;
            && t.dir == s.dir && Enabled(t, HandlerStep(t))
            && var u := Apply(t, HandlerStep(t));
               && (u.failed <==> buf !in t.user + t.fpga + InTask(t))
               && (!u.failed ==> Returned(u, buf) && buf in u.user + u.fpga + InTask(u) && !Inv(u))
  {
    hide Apply, Inv, Enabled, Returned, HandlerStep;
    FlushOrphans(s, base, stride, n);
    StaysOrphaned(states, steps, |steps|);
    OrphanReturns(states[|steps|]);
  }

  lemma {:induction false} StaysOrphaned(states: seq<State>, steps: seq<Step>, k: nat)
    requires IsRun(states, steps) && Orphaned(states[0]) && k < |states|
    requires forall i :: 0 <= i < |steps| ==> !steps[i].IsrEnq? && !steps[i].IsrFree?
    ensures Orphaned(states[k]) && states[k].isr == states[0].isr && states[k].dir == states[0].dir
  {
    hide Apply, Enabled, Orphaned;
    if k > 0 {
      StaysOrphaned(states, steps, k - 1);
      assert Enabled(states[k - 1], steps[k - 1]) && states[k] == Apply(states[k - 1], steps[k - 1]);
      OthersIgnoreHandler(states[k - 1], steps[k - 1]);
    }
  }

  /** The only buffer of a pool goes to the FPGA. */
  lemma HandedOut() returns (states: seq<State>, steps: seq<Step>)
    ensures |states| == |steps| + 1 && IsRun(states, steps) && states[0] == Initial(Rx, 0, 4, 1)
    ensures QuietFlushes(states, steps)
    ensures states[|steps|] == State(Rx, Queues([], [], {0}), AddressSet(0, 4, 1), {}, {0}, None, None, true, true,
                                     false)
  {
    OneBuffer();
    hide AllFree, AddressSet, IsRun, QuietFlushes;
    states, steps := Extend([Initial(Rx, 0, 4, 1)], [], Start);
    states, steps := Extend(states, steps, TaskGet);
    states, steps := Extend(states, steps, RegisterWrite);
  }

  /** Such a state is reachable, with the workqueue already gone. */
  lemma InFlightIsReachable() returns (states: seq<State>, steps: seq<Step>)
    ensures |states| == |steps| + 1 && IsRun(states, steps) && states[0] == Initial(Rx, 0, 4, 1)
    ensures QuietFlushes(states, steps)
    ensures states[|steps|] == State(Rx, Queues([], [], {0}), AddressSet(0, 4, 1), {}, {}, None,
                                     Some(Packet(0, 0, 0, 0)), false, false, false)
    ensures Enabled(states[|steps|], Flush(0, 4, 1))
  {
    hide AllFree, AddressSet, IsRun, QuietFlushes;
    states, steps := HandedOut();
    states, steps := Extend(states, steps, StopRequest);
    states, steps := Extend(states, steps, TaskExit);
    states, steps := Extend(states, steps, RegisterRead(Packet(0, 0, 0, 0)));
  }

  /** And from it the silent case: after the flush the workqueue takes the buffer and the handler enqueues it. */
  lemma SilentDoubleOwnership() returns (states: seq<State>, steps: seq<Step>)
    ensures IsRun(states, steps) && states[0] == Initial(Rx, 0, 4, 1)
    ensures var t := states[|steps|]; !t.failed && 0 in BufsOf(t.q.fifo) && 0 in InTask(t)
  {
    states, steps := InFlightIsReachable();
    OneBuffer();
    hide AllFree, AddressSet, IsRun, QuietFlushes;
    states, steps := Extend(states, steps, Flush(0, 4, 1));
    states, steps := Extend(states, steps, Start);
    states, steps := Extend(states, steps, TaskGet);
    states, steps := Extend(states, steps, IsrEnq);
    assert BufsOf(states[|steps|].q.fifo)[0] == 0;
  }

  lemma Extend(states: seq<State>, steps: seq<Step>, step: Step) returns (states': seq<State>, steps': seq<Step>)
    requires |states| == |steps| + 1 && (steps == [] || IsRun(states, steps))
    requires Enabled(states[|steps|], step)
    ensures |states'| == |steps'| + 1 && |steps'| == |steps| + 1 && IsRun(states', steps')
    ensures (steps == [] || QuietFlushes(states, steps)) && !step.Flush? ==> QuietFlushes(states', steps')
    ensures states'[0] == states[0] && states'[|steps'|] == Apply(states[|steps|], step)
  {
    hide Apply, Enabled, Quiet;
    states', steps' := states + [Apply(states[|steps|], step)], steps + [step];
  }

  lemma OneBuffer()
    ensures AllFree(0, 4, 1) == Queues([0], [], {})
  {
    assert FreeAddresses(0, 4, 1) == [0];
  }

  /**
   A write of an offset the user does not hold is harmless exactly when the buffer is not
   with the FPGA or the kernel: otherwise the pool cannot tell and takes it from them.
   */
  lemma StrayFreeKeepsInvIff(s: State, buf: nat)
    requires Inv(s) && buf !in s.user
    ensures Inv(s.(q := Free(s.q, buf))) <==> buf !in s.fpga + InTask(s) + InIsr(s)
  {
    FreeKeepsPartition(s.q, s.all, buf);
    hide Partition;
    var t := s.(q := Free(s.q, buf));
    assert buf in s.q.used <==> buf in s.fpga + InTask(s) + InIsr(s);
    assert InTask(t) == InTask(s) && InIsr(t) == InIsr(s);
  }

  /** The same for a stray send: a packet the user does not hold reaches the fifo. */
  lemma StraySendKeepsInvIff(s: State, p: Packet)
    requires Inv(s) && p.buf !in s.user
    ensures var t := s.(q := Enq(s.q, p));
            Inv(t) <==> p.buf !in s.fpga + InTask(s) + InIsr(s)
  {
    EnqKeepsPartition(s.q, s.all, p);
    hide Partition;
    var t := s.(q := Enq(s.q, p));
    assert p.buf in s.q.used <==> p.buf in s.fpga + InTask(s) + InIsr(s);
    assert InTask(t) == InTask(s) && InIsr(t) == InIsr(s);
  }
}
