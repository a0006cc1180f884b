/**
 The events driver: an interrupt sets pending bits in every open file, readers take the
 bits they asked for. A 32-bit word is the set of its bit numbers.
 */
module Events {

  // ------------------------------------------------------------------ the driver

  class EventsFile {
    var pending: set<nat>
    var pending_mask: set<nat>
    var all_events: bool

    /** events_open */
    constructor ()
      ensures pending == {} && pending_mask == {} && !all_events
    {
      pending, pending_mask, all_events := {}, {}, false;
    }

    /** ARE_REQUESTED_EVENTS_PENDING: all of the requested events, or any of them. */
    predicate Requested()
      reads this
      ensures all_events ==> (Requested() <==> forall b :: b in pending_mask ==> b in pending)
      ensures !all_events ==> (Requested() <==> exists b :: b in pending_mask && b in pending)
    {
      RequestMeans(pending, pending_mask);
      || (all_events && pending * pending_mask == pending_mask)
      || (!all_events && pending * pending_mask != {})
    }

    /** events_write: bit 31 asks for all events instead of any. */
    method Write(word: set<nat>)
      modifies this`pending_mask, this`all_events
      ensures all_events <==> 31 in word
      ensures pending_mask == word - {31}
    {
      all_events := 31 in word;
      pending_mask := word - {31};
    }

    /** events_read once its wait is over: takes the requested pending bits, one at a time. */
    method Read() returns (events: set<nat>)
      requires forall b :: b in pending ==> b < 32
      modifies this`pending
      ensures events == old(pending) * pending_mask
      ensures pending == old(pending) - events
    {
      events := pending * pending_mask;
      for i := 0 to 32
        invariant pending == old(pending) - (set b | b in events && b < i)
      {
        if i in events {
          pending := pending - {i};
        }
      }
      assert (set b | b in events && b < 32) == events;
    }
  }

  lemma RequestMeans(p: set<nat>, mask: set<nat>)
    ensures p * mask == mask <==> forall b :: b in mask ==> b in p
    ensures p * mask != {} <==> exists b :: b in mask && b in p
  {
    if b :| b in mask && b in p {
      assert b in p * mask;
    }
    if p * mask != {} {
      var b :| b in p * mask;
    }
    if forall b :: b in mask ==> b in p {
      assert p * mask == mask;
    }
  }

  /** events_wake_up: the bit goes to every open file; those now satisfied are woken. */
  method WakeUp(files: seq<EventsFile>, event: nat) returns (woken: set<EventsFile>)
    requires forall i, j :: 0 <= i < j < |files| ==> files[i] != files[j]
    modifies files
    ensures forall f :: f in files ==> f.pending == old(f.pending) + {event}
    ensures forall f :: f in files ==> f.pending_mask == old(f.pending_mask) && f.all_events == old(f.all_events)
    ensures forall f :: f in woken <==> f in files && f.Requested()
  {
    woken := {};
    for i := 0 to |files|
      invariant forall k :: 0 <= k < i ==> files[k].pending == old(files[k].pending) + {event}
      invariant forall k :: i <= k < |files| ==> files[k].pending == old(files[k].pending)
      invariant forall f :: f in files ==> f.pending_mask == old(f.pending_mask) && f.all_events == old(f.all_events)
      invariant forall f :: f in woken <==> exists k :: 0 <= k < i && files[k] == f && f.Requested()
    {
      files[i].pending := files[i].pending + {event};
      if files[i].Requested() {
        woken := woken + {files[i]};
      }
    }
  }

  /** What an interrupt delivers of the pending register: bits 0 to 30. */
  function Delivered(reg: set<nat>): (d: set<nat>)
    ensures forall b :: b in d <==> b in reg && 0 <= b <= 30
  {
    set b | b in reg && b < 31
  }

  /**
   events_foreach_wake_up. Every file gets every delivered bit, and the files woken on the
   way are exactly those whose request holds at the end (none if nothing was delivered).
   */
  method ForEachWakeUp(files: seq<EventsFile>, reg: set<nat>) returns (woken: set<EventsFile>)
    requires forall i, j :: 0 <= i < j < |files| ==> files[i] != files[j]
    modifies files
    ensures forall f :: f in files ==> f.pending == old(f.pending) + Delivered(reg)
    ensures forall f :: f in files ==> f.pending_mask == old(f.pending_mask) && f.all_events == old(f.all_events)
    ensures forall f :: f in woken <==> Delivered(reg) != {} && f in files && f.Requested()
  {
    woken := {};
    ghost var done: set<nat> := {};
    for i := 0 to 31
      invariant done == (set b | b in reg && b < i)
      invariant forall f :: f in files ==> f.pending == old(f.pending) + done
      invariant forall f :: f in files ==> f.pending_mask == old(f.pending_mask) && f.all_events == old(f.all_events)
      invariant forall f :: f in woken <==> done != {} && f in files && f.Requested()
    {
      if i in reg {
        label before:
        var now := WakeUp(files, i);
        forall f | f in files && old@before(f.Requested())
          ensures f.Requested()
        {
          RequestIsMonotone(old@before(f.pending), f.pending, f.pending_mask);
        }
        woken := woken + now;
        done := done + {i};
      }
    }
    assert done == Delivered(reg);
  }

  lemma RequestIsMonotone(p: set<nat>, p': set<nat>, mask: set<nat>)
    requires p <= p'
    ensures p * mask == mask ==> p' * mask == mask
    ensures p * mask != {} ==> p' * mask != {}
  {
    if p * mask != {} {
      var b :| b in p * mask;
      assert b in p' * mask;
    }
  }

  // -------------------------------------------------- one file under interleaving

  /** Where a read is: bits below `next` done; `loaded` is the word a clear has read but not written back. */
  datatype Reader = Idle | Clearing(events: set<nat>, next: nat, loaded: Word)

  datatype Word = Nothing | Loaded(word: set<nat>)

  datatype State = State(pending: set<nat>, mask: set<nat>, reader: Reader)

  datatype Step =
    | Arrive(bit: nat)       // the interrupt sets one bit
    | SetMask(word: set<nat>)  // events_write
    | ReadStart              // events_read snapshots the requested pending bits
    | SkipBit                // a bit that is not being returned
    | ClearLoad              // pending &= ~bit, the read half
    | ClearStore             // the write half
    | ReadDone(copied: bool) // copy_to_user

  /** A read about to look at its next bit. */
  predicate AtBit(r: Reader) {
    r.Clearing? && r.next < 32 && r.loaded.Nothing?
  }

  /** The semaphore keeps other reads and writes out while a read is clearing; interrupts come any time. */
  predicate Enabled(s: State, step: Step) {
    match step
    case Arrive(b) => b < 31
    case SetMask(_) => s.reader.Idle?
    case ReadStart => s.reader.Idle?
    case SkipBit => AtBit(s.reader) && s.reader.next !in s.reader.events
    case ClearLoad => AtBit(s.reader) && s.reader.next in s.reader.events
    case ClearStore => s.reader.Clearing? && s.reader.loaded.Loaded?
    case ReadDone(_) => s.reader.Clearing? && s.reader.next == 32 && s.reader.loaded.Nothing?
  }

  function Apply(s: State, step: Step): State
    requires Enabled(s, step)
  {
    match step
    case Arrive(b) => s.(pending := s.pending + {b})
    case SetMask(w) => s.(mask := w - {31})
    case ReadStart => s.(reader := Clearing(s.pending * s.mask, 0, Nothing))
    case SkipBit => s.(reader := s.reader.(next := s.reader.next + 1))
    case ClearLoad => s.(reader := s.reader.(loaded := Loaded(s.pending)))
    case ClearStore =>
      s.(pending := s.reader.loaded.word - {s.reader.next},
         reader := Clearing(s.reader.events, s.reader.next + 1, Nothing))
    case ReadDone(_) => s.(reader := Idle)
  }

  /** The word of the read under way. */
  function InFlight(s: State): set<nat> {
    if s.reader.Clearing? then s.reader.events else {}
  }

  predicate IsRun(states: seq<State>, steps: seq<Step>) {
    && |states| == |steps| + 1
    && forall i :: 0 <= i < |steps| ==> Enabled(states[i], steps[i]) && states[i + 1] == Apply(states[i], steps[i])
  }

  const OPENED := State({}, {}, Idle)

  // ------------------------------------------------------------- nothing is lost

  /** Told by the interrupts and the words of finished reads: what arrived and was in no such word since. */
  function Owed(states: seq<State>, steps: seq<Step>, i: nat): set<nat>
    requires i <= |steps| < |states|
  {
    if i == 0 then {}
    else match steps[i - 1]
      case Arrive(b) => Owed(states, steps, i - 1) + {b}
      case ReadDone(_) => Owed(states, steps, i - 1) - InFlight(states[i - 1])
      case _ => Owed(states, steps, i - 1)
  }

  /** Every owed event is still pending or about to be returned. */
  predicate NothingLost(states: seq<State>, steps: seq<Step>, i: nat)
    requires i <= |steps| < |states|
  {
    Owed(states, steps, i) <= states[i].pending + InFlight(states[i])
  }

  /** All that arrived between the two halves of a clear is in the word being returned anyway. */
  predicate SafeStore(s: State) {
    s.reader.Clearing? && s.reader.loaded.Loaded? ==> s.pending - s.reader.loaded.word <= s.reader.events
  }

  /** The loaded word is a former value of `pending`; what is new since then arrived and is still owed. */
  predicate LoadedIsPast(states: seq<State>, steps: seq<Step>, i: nat)
    requires i <= |steps| < |states|
  {
    var r := states[i].reader;
    r.Clearing? && r.loaded.Loaded? ==>
      && r.loaded.word <= states[i].pending
      && states[i].pending - r.loaded.word <= Owed(states, steps, i)
      && r.next in r.events && r.next < 32
  }

  lemma {:induction false} LoadedStaysPast(states: seq<State>, steps: seq<Step>, i: nat)
    requires IsRun(states, steps) && states[0] == OPENED && i < |states|
    ensures LoadedIsPast(states, steps, i)
  {
    if i > 0 {
      LoadedStaysPast(states, steps, i - 1);
      assert Enabled(states[i - 1], steps[i - 1]) && states[i] == Apply(states[i - 1], steps[i - 1]);
    }
  }

  /** One step: only the write half of a clear can lose anything, and does exactly when it is not safe. */
  lemma StoreLosesNothingIff(states: seq<State>, steps: seq<Step>, i: nat)
    requires IsRun(states, steps) && 0 < i < |states| && LoadedIsPast(states, steps, i - 1)
    requires NothingLost(states, steps, i - 1)
    ensures NothingLost(states, steps, i) <==> (steps[i - 1].ClearStore? ==> SafeStore(states[i - 1]))
  {
    hide Owed;
    var s, t, step := states[i - 1], states[i], steps[i - 1];
    assert Enabled(s, step) && t == Apply(s, step);
    OwedStep(states, steps, i);
    if step.ClearStore? {
      var lost := s.pending - s.reader.loaded.word;
      assert forall b :: b in lost && b !in s.reader.events ==> b in Owed(states, steps, i) && b !in t.pending + InFlight(t);
    }
  }

  lemma OwedStep(states: seq<State>, steps: seq<Step>, i: nat)
    requires 0 < i <= |steps| < |states|
    ensures var before, now := Owed(states, steps, i - 1), Owed(states, steps, i);
            match steps[i - 1]
            case Arrive(b) => now == before + {b}
            case ReadDone(_) => now == before - InFlight(states[i - 1])
            case _ => now == before
  {
  }

  /**
   Over every interleaving of interrupts, reads and writes: nothing is lost at any time up to
   `n` exactly when all that arrives inside a clear is in the word being returned.
   */
  lemma {:induction false} NothingLostIff(states: seq<State>, steps: seq<Step>, n: nat)
    requires IsRun(states, steps) && states[0] == OPENED && n < |states|
    ensures (forall i :: 0 <= i <= n ==> NothingLost(states, steps, i))
            <==> (forall i :: 0 <= i < n && steps[i].ClearStore? ==> SafeStore(states[i]))
  {
    hide Apply, Enabled, Owed, NothingLost, SafeStore, LoadedIsPast;
    if n == 0 {
      NothingLostYet(states, steps);
    } else {
      NothingLostIff(states, steps, n - 1);
      LoadedStaysPast(states, steps, n - 1);
      if NothingLost(states, steps, n - 1) {
        StoreLosesNothingIff(states, steps, n);
      }
    }
  }

  lemma NothingLostYet(states: seq<State>, steps: seq<Step>)
    requires |steps| < |states|
    ensures NothingLost(states, steps, 0)
  {
  }

  /** Nothing arrived between the two halves of a clear. */
  predicate AtomicClear(s: State) {
    s.reader.Clearing? && s.reader.loaded.Loaded? ==> s.reader.loaded.word == s.pending
  }

  /** Step k finishes a read whose word has the bit, whether or not the copy to the user fails. */
  predicate Takes(states: seq<State>, steps: seq<Step>, k: nat, b: nat)
    requires k < |steps| < |states|
  {
    steps[k].ReadDone? && b in InFlight(states[k])
  }

  lemma {:induction false} ArrivedIsOwed(states: seq<State>, steps: seq<Step>, j: nat, i: nat, b: nat)
    requires j < i <= |steps| < |states| && steps[j] == Arrive(b)
    requires forall k :: j < k < i ==> !Takes(states, steps, k, b)
    ensures b in Owed(states, steps, i)
  {
    if j + 1 < i {
      ArrivedIsOwed(states, steps, j, i - 1, b);
      assert !Takes(states, steps, i - 1, b);
    }
  }

  /**
   No event is lost: over every interleaving of interrupts, reads and writes with atomic
   clears, an event that arrived and was returned by no read since is pending, in the word of
   the read under way, or was in the word of a read since then whose copy to the user failed.
   */
  lemma NoEventIsLost(states: seq<State>, steps: seq<Step>, j: nat, i: nat, b: nat)
    requires IsRun(states, steps) && states[0] == OPENED && j < i < |states|
    requires forall k :: 0 <= k < i && steps[k].ClearStore? ==> AtomicClear(states[k])
    requires steps[j] == Arrive(b)
    requires forall k :: j < k < i && steps[k] == ReadDone(true) ==> b !in InFlight(states[k])
    ensures || b in states[i].pending || b in InFlight(states[i])
            || exists k :: j < k < i && steps[k] == ReadDone(false) && b in InFlight(states[k])
  {
    if forall k :: j < k < i ==> !Takes(states, steps, k, b) {
      forall k | 0 <= k < i && steps[k].ClearStore?
        ensures SafeStore(states[k])
      {
        assert AtomicClear(states[k]);
      }
      NothingLostIff(states, steps, i);
      ArrivedIsOwed(states, steps, j, i, b);
      assert NothingLost(states, steps, i);
    } else {
      var k :| j < k < i && Takes(states, steps, k, b);
      assert steps[k] != ReadDone(true) && steps[k] == ReadDone(steps[k].copied);
    }
  }

  /** A step never clears a bit outside the word being returned, if clears are atomic. */
  lemma OnlyReturnedBitsAreCleared(states: seq<State>, steps: seq<Step>, i: nat)
    requires IsRun(states, steps) && states[0] == OPENED && i < |steps|
    requires steps[i].ClearStore? ==> AtomicClear(states[i])
    ensures states[i].pending - states[i + 1].pending <= InFlight(states[i])
  {
    LoadedStaysPast(states, steps, i);
    assert Enabled(states[i], steps[i]) && states[i + 1] == Apply(states[i], steps[i]);
  }

  // -------------------------------------------------------- what a read returns

  /** What events_write asked for last. */
  function LastMask(steps: seq<Step>, i: nat): set<nat>
    requires i <= |steps|
  {
    if i == 0 then {}
    else if steps[i - 1].SetMask? then steps[i - 1].word - {31}
    else LastMask(steps, i - 1)
  }

  lemma {:induction false} MaskIsLast(states: seq<State>, steps: seq<Step>, i: nat)
    requires IsRun(states, steps) && states[0] == OPENED && i < |states|
    ensures states[i].mask == LastMask(steps, i)
  {
    if i > 0 {
      MaskIsLast(states, steps, i - 1);
      assert Enabled(states[i - 1], steps[i - 1]) && states[i] == Apply(states[i - 1], steps[i - 1]);
    }
  }

  lemma {:induction false} WordIsKept(states: seq<State>, steps: seq<Step>, r: nat, d: nat)
    requires IsRun(states, steps) && r < d < |states| && steps[r].ReadStart?
    requires forall k :: r < k < d ==> !steps[k].ReadDone?
    ensures states[d].reader.Clearing? && InFlight(states[d]) == states[r].pending * states[r].mask
  {
    assert Enabled(states[d - 1], steps[d - 1]) && states[d] == Apply(states[d - 1], steps[d - 1]);
    if r + 1 < d {
      WordIsKept(states, steps, r, d - 1);
    }
  }

  /** The event of step j was in no read finished between it and step r. */
  predicate Awaits(states: seq<State>, steps: seq<Step>, j: nat, r: nat, b: nat)
    requires r <= |steps| < |states|
  {
    j < r && steps[j] == Arrive(b) && forall k :: j < k < r ==> !Takes(states, steps, k, b)
  }

  /**
   A read returns exactly the events asked for that are pending when it starts; so, with
   atomic clears, every event asked for that arrived before and was in no read since.
   */
  lemma ReadReturnsRequested(states: seq<State>, steps: seq<Step>, r: nat, d: nat)
    requires IsRun(states, steps) && states[0] == OPENED && r < d < |steps|
    requires steps[r].ReadStart? && steps[d].ReadDone? && forall k :: r < k < d ==> !steps[k].ReadDone?
    requires forall k :: 0 <= k < r && steps[k].ClearStore? ==> AtomicClear(states[k])
    ensures InFlight(states[d]) == states[r].pending * LastMask(steps, r)
    ensures forall j: nat, b :: Awaits(states, steps, j, r, b) && b in LastMask(steps, r) ==> b in InFlight(states[d])
  {
    MaskIsLast(states, steps, r);
    WordIsKept(states, steps, r, d);
    forall j: nat, b | Awaits(states, steps, j, r, b) && b in LastMask(steps, r)
      ensures b in states[r].pending
    {
      assert Enabled(states[r], steps[r]);
      assert forall k :: j < k < r && steps[k].ReadDone? ==> !Takes(states, steps, k, b);
      NoEventIsLost(states, steps, j, r, b);
    }
  }

  // ---------------------------------------------------------- nothing is invented

  function Arrivals(steps: seq<Step>, i: nat, b: nat): nat
    requires i <= |steps|
  {
    if i == 0 then 0 else Arrivals(steps, i - 1, b) + (if steps[i - 1] == Arrive(b) then 1 else 0)
  }

  /** How many finished reads had the bit in their word. */
  function Reads(states: seq<State>, steps: seq<Step>, i: nat, b: nat): nat
    requires i <= |steps| < |states|
  {
    if i == 0 then 0 else Reads(states, steps, i - 1, b) + (if Takes(states, steps, i - 1, b) then 1 else 0)
  }

  /** The bit is set and the read under way is not going to clear it. */
  predicate Outlasts(s: State, b: nat) {
    b in s.pending && !(s.reader.Clearing? && b in s.reader.events && b >= s.reader.next)
  }

  /** The bit is one of the word, and in a loaded word only if it was set. */
  predicate Sane(s: State, b: nat) {
    && (b in s.pending || b in InFlight(s) ==> b < 32)
    && (s.reader.Clearing? && s.reader.loaded.Loaded? && b in s.reader.loaded.word ==> b in s.pending)
  }

  function One(p: bool): nat {
    if p then 1 else 0
  }

  /** What one step can add: an arrival makes at most one more read of the bit possible. */
  lemma StepInventsNothing(s: State, step: Step, b: nat)
    requires Sane(s, b) && Enabled(s, step)
    ensures Sane(Apply(s, step), b)
    ensures var t := Apply(s, step);
            One(step.ReadDone? && b in InFlight(s)) + One(b in InFlight(t)) + One(Outlasts(t, b))
            <= One(b in InFlight(s)) + One(Outlasts(s, b)) + One(step == Arrive(b))
  {
  }

  /** No event is returned more often than it arrived, whether clears are atomic or not. */
  lemma {:induction false} NoEventIsInvented(states: seq<State>, steps: seq<Step>, i: nat, b: nat)
    requires IsRun(states, steps) && states[0] == OPENED && i < |states|
    ensures Reads(states, steps, i, b) + One(b in InFlight(states[i])) + One(Outlasts(states[i], b))
         <= Arrivals(steps, i, b)
    ensures Sane(states[i], b)
  {
    hide Apply, Enabled, Outlasts, Sane;
    if i > 0 {
      NoEventIsInvented(states, steps, i - 1, b);
      assert Enabled(states[i - 1], steps[i - 1]) && states[i] == Apply(states[i - 1], steps[i - 1]);
      StepInventsNothing(states[i - 1], steps[i - 1], b);
    } else {
      OpenedIsEmpty(b);
    }
  }

  lemma OpenedIsEmpty(b: nat)
    ensures !Outlasts(OPENED, b) && Sane(OPENED, b)
  {
  }

  // ------------------------------------------------------ a clear that is interrupted

  /** An interrupt between the two halves of a clear loses its event. */
  lemma InterruptedClearLoses() returns (states: seq<State>, steps: seq<Step>)
    ensures IsRun(states, steps) && states[0] == OPENED
    ensures steps == [SetMask({0, 1}), Arrive(0), ReadStart, ClearLoad, Arrive(1), ClearStore]
    ensures 1 !in states[6].pending && 1 !in InFlight(states[6])
  {
    steps := [SetMask({0, 1}), Arrive(0), ReadStart, ClearLoad, Arrive(1), ClearStore];
    var s1 := Apply(OPENED, steps[0]);
    var s2 := Apply(s1, steps[1]);
    var s3 := Apply(s2, steps[2]);
    var s4 := Apply(s3, steps[3]);
    var s5 := Apply(s4, steps[4]);
    states := [OPENED, s1, s2, s3, s4, s5, Apply(s5, steps[5])];
  }
}
