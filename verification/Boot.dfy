/** The FSBL boot sequencer: tries boot devices in order and resets into the first that initialises. */
module Boot {
  import opened Options

  // XFSBL_*_BOOT_MODE of the Xilinx FSBL.
  const JTAG := 0
  const QSPI24 := 1
  const QSPI32 := 2
  const SD0 := 3
  const SD1 := 5

  const MAX_ATTEMPTS := 30

  /** iv_boot_sequence_t; a negative number of attempts means "by part number". */
  datatype Entry = Entry(mode: nat, num_attempts: int)

  predicate Supported(mode: nat) {
    mode in {SD0, SD1, QSPI24, QSPI32}
  }

  /** What the devices do: does entry `idx` initialise at multiboot value `multi_boot`? */
  type Devices = (nat, nat) -> bool

  datatype Try = Try(idx: nat, mode: nat, multi_boot: nat)

  predicate Succeeds(t: Try, init: Devices) {
    Supported(t.mode) && init(t.idx, t.multi_boot)
  }

  /** The multiboot values an entry is tried with; `ordinal` is None when the FRU image is unreadable. */
  function Attempts(e: Entry, ordinal: Option<int>): (s: seq<nat>)
    ensures |s| <= MAX_ATTEMPTS
    ensures e.num_attempts < 0 ==> |s| <= 1
  {
    if e.num_attempts < 0 then
      if ordinal.Some? && ordinal.value > 0 then [ordinal.value] else []
    else
      var n := if e.num_attempts > MAX_ATTEMPTS then MAX_ATTEMPTS else e.num_attempts;
      seq(n, i requires 0 <= i < n => i)
  }

  function TriesOf(idx: nat, e: Entry, ordinal: Option<int>): (s: seq<Try>)
    ensures |s| == |Attempts(e, ordinal)|
    ensures forall i :: 0 <= i < |s| ==> s[i] == Try(idx, e.mode, Attempts(e, ordinal)[i])
  {
    var a := Attempts(e, ordinal);
    seq(|a|, i requires 0 <= i < |a| => Try(idx, e.mode, a[i]))
  }

  /** All tries, in list order. */
  function Tries(entries: seq<Entry>, ordinal: Option<int>): seq<Try> {
    if entries == [] then []
    else Tries(entries[..|entries| - 1], ordinal) + TriesOf(|entries| - 1, entries[|entries| - 1], ordinal)
  }

  lemma {:induction false} TriesPrefix(entries: seq<Entry>, n: nat, ordinal: Option<int>)
    requires n <= |entries|
    ensures Tries(entries[..n], ordinal) <= Tries(entries, ordinal)
    decreases |entries|
  {
    if n == |entries| {
      assert entries[..n] == entries;
    } else {
      var front := entries[..|entries| - 1];
      TriesPrefix(front, n, ordinal);
      assert front[..n] == entries[..n];
    }
  }

  lemma TriesNext(entries: seq<Entry>, n: nat, ordinal: Option<int>)
    requires n < |entries|
    ensures Tries(entries[..n + 1], ordinal) == Tries(entries[..n], ordinal) + TriesOf(n, entries[n], ordinal)
  {
    assert entries[..n + 1][..n] == entries[..n];
  }

  /** A multiboot value an entry is tried with: 0 and up to the limit of 30, or the ordinal alone. */
  predicate IsTried(num_attempts: int, ordinal: Option<int>, value: nat) {
    if num_attempts >= 0 then value < num_attempts && value < 30
    else ordinal.Some? && ordinal.value == value && value > 0
  }

  predicate Earlier(t: Try, u: Try) {
    t.idx < u.idx || (t.idx == u.idx && t.multi_boot < u.multi_boot)
  }

  /** The tries are exactly those values of those entries, by entry and then by value. */
  lemma {:induction false} TriesAre(entries: seq<Entry>, ordinal: Option<int>)
    ensures forall t: Try :: t in Tries(entries, ordinal) <==>
              t.idx < |entries| && t.mode == entries[t.idx].mode
              && IsTried(entries[t.idx].num_attempts, ordinal, t.multi_boot)
    ensures forall i, j :: 0 <= i < j < |Tries(entries, ordinal)| ==>
              Earlier(Tries(entries, ordinal)[i], Tries(entries, ordinal)[j])
  {
    if entries != [] {
      var n := |entries| - 1;
      var front, last := Tries(entries[..n], ordinal), TriesOf(n, entries[n], ordinal);
      TriesAre(entries[..n], ordinal);
      TriesOfAre(n, entries[n], ordinal);
      assert Tries(entries, ordinal) == front + last;
      assert forall i :: 0 <= i < |front| ==> front[i] in front;
      assert forall i :: 0 <= i < |last| ==> last[i] in last;
    }
  }

  lemma TriesOfAre(idx: nat, e: Entry, ordinal: Option<int>)
    ensures forall t: Try :: t in TriesOf(idx, e, ordinal) <==>
              t.idx == idx && t.mode == e.mode && IsTried(e.num_attempts, ordinal, t.multi_boot)
    ensures forall i, j :: 0 <= i < j < |TriesOf(idx, e, ordinal)| ==>
              Earlier(TriesOf(idx, e, ordinal)[i], TriesOf(idx, e, ordinal)[j])
  {
    var s := TriesOf(idx, e, ordinal);
    forall t: Try | t.idx == idx && t.mode == e.mode && IsTried(e.num_attempts, ordinal, t.multi_boot)
      ensures t in s
    {
      assert s[if e.num_attempts < 0 then 0 else t.multi_boot] == t;
    }
  }

  /** The try at `k` is the first that succeeds. */
  predicate IsFirst(tries: seq<Try>, k: nat, init: Devices) {
    k < |tries| && Succeeds(tries[k], init) && forall i :: 0 <= i < k ==> !Succeeds(tries[i], init)
  }

  /** Both QSPI modes and both SD modes are implemented. */
  lemma SucceedsIff(t: Try, init: Devices)
    ensures Succeeds(t, init) <==> t.mode in {1, 2, 3, 5} && init(t.idx, t.multi_boot)
  {
  }

  predicate NoneSucceeds(tries: seq<Try>, init: Devices) {
    forall i :: 0 <= i < |tries| ==> !Succeeds(tries[i], init)
  }

  /** The USE_ALT bit (bit 8) and the boot mode pins (bits 0 to 3) of BOOT_MODE_USER. */
  predicate AltBoot(reg: nat) {
    reg / 16 % 32 >= 16
  }

  lemma AltBootIs(high: nat, alt: bool, low: nat)
    requires low < 256
    ensures AltBoot(512 * high + (if alt then 256 else 0) + low) <==> alt
  {
    var half: nat := if alt then 16 else 0;
    assert (512 * high + 16 * half + low) / 16 == 32 * high + (half + low / 16);
    assert (32 * high + (half + low / 16)) % 32 == half + low / 16;
  }

  function BootMode(reg: nat): nat {
    reg % 16
  }

  lemma {:induction false} AltBitStep(k: nat)
    ensures (32 * k + 16) % 32 == 16
  {
    if k > 0 {
      AltBitStep(k - 1);
      ModStep(32 * (k - 1) + 16);
    }
  }

  lemma ModStep(x: nat)
    ensures (x + 32) % 32 == x % 32
  {
  }

  lemma DivBack(q: nat)
    ensures 16 * q / 16 == q
  {
  }

  lemma ModeField(mode: nat)
    ensures 16 * (256 * mode + 16) / 4096 == mode && 16 * (256 * mode + 16) % 4096 == 256
  {
    assert 16 * (256 * mode + 16) == 4096 * mode + 256;
  }

  /** The alternate mode in bits 12 to 15 and USE_ALT; the supported modes fit the field. */
  function ResetValue(mode: nat): (reg: nat)
    ensures AltBoot(reg)
    ensures mode < 16 ==> reg / 4096 % 16 == mode && reg % 4096 == 256
  {
    ModeField(mode);
    DivBack(256 * mode + 16);
    AltBitStep(8 * mode);
    16 * (256 * mode + 16)
  }

  class Registers {
    var boot_mode_user: nat
    var multi_boot: nat

    constructor (pins: nat)
      ensures boot_mode_user == pins && multi_boot == 0
    {
      boot_mode_user, multi_boot := pins, 0;
    }

    /**
     iv_sequence_boot; `reset` is the soft reset the source does not return from. It resets
     into the first try in list order that succeeds, and otherwise clears MULTI_BOOT.
     */
    method SequenceBoot(entries: seq<Entry>, ordinal: Option<int>, init: Devices) returns (reset: bool, ghost k: nat)
      modifies this
      ensures AltBoot(old(boot_mode_user)) || BootMode(old(boot_mode_user)) == JTAG ==>
                !reset && multi_boot == old(multi_boot)
      ensures !AltBoot(old(boot_mode_user)) && BootMode(old(boot_mode_user)) != JTAG ==>
                var tries := Tries(entries, ordinal);
                && (reset ==> IsFirst(tries, k, init) && multi_boot == tries[k].multi_boot
                              && boot_mode_user == ResetValue(tries[k].mode))
                && (!reset ==> NoneSucceeds(tries, init) && multi_boot == 0)
      ensures reset ==>
                var tries := Tries(entries, ordinal);
                k < |tries| && boot_mode_user / 4096 % 16 == tries[k].mode && boot_mode_user % 4096 == 256
      ensures !reset ==> boot_mode_user == old(boot_mode_user)
    {
      hide Tries, Succeeds, ResetValue, Attempts;
      reset, k := false, 0;
      if AltBoot(boot_mode_user) || BootMode(boot_mode_user) == JTAG { return; }
      ghost var tries := Tries(entries, ordinal);
      NoTries(ordinal);
      for boot_idx := 0 to |entries|
        invariant boot_mode_user == old(boot_mode_user)
        invariant NoneSucceeds(Tries(entries[..boot_idx], ordinal), init)
      {
        ghost var j;
        reset, j := TryEntry(boot_idx, entries[boot_idx], ordinal, init);
        TriesNext(entries, boot_idx, ordinal);
        TriesPrefix(entries, boot_idx + 1, ordinal);
        if reset {
          k := |Tries(entries[..boot_idx], ordinal)| + j;
          assert tries[k] == TriesOf(boot_idx, entries[boot_idx], ordinal)[j];
          SucceedsIff(tries[k], init);
          return;
        }
      }
      assert entries[..|entries|] == entries;
      multi_boot := 0;
    }

    /** The attempts at one entry. */
    method TryEntry(boot_idx: nat, seq_entry: Entry, ordinal: Option<int>, init: Devices)
      returns (reset: bool, ghost j: nat)
      modifies this
      ensures var tries := TriesOf(boot_idx, seq_entry, ordinal);
              && (reset ==> IsFirst(tries, j, init) && multi_boot == tries[j].multi_boot
                            && boot_mode_user == ResetValue(tries[j].mode))
              && (!reset ==> NoneSucceeds(tries, init) && boot_mode_user == old(boot_mode_user))
    {
      hide ResetValue;
      ghost var tries := TriesOf(boot_idx, seq_entry, ordinal);
      var num_attempts := seq_entry.num_attempts;
      var boot_by_pn := 0;
      reset, j := false, 0;
      if num_attempts > MAX_ATTEMPTS {
        num_attempts := MAX_ATTEMPTS;
      } else if num_attempts < 0 {
        if ordinal.None? {
          num_attempts := 0;
        } else {
          boot_by_pn := ordinal.value;
          if boot_by_pn > 0 {
            num_attempts := 1;
          }
        }
      }
      var value := 0;
      while value < num_attempts
        invariant j <= |tries| && (forall i :: 0 <= i < j ==> !Succeeds(tries[i], init))
        invariant value < num_attempts ==> j < |tries| && value == j
        invariant value >= num_attempts ==> j == |tries|
        invariant boot_by_pn != 0 && num_attempts > 0 ==> num_attempts == 1
        invariant boot_by_pn != 0 && num_attempts > 0 ==> tries == [Try(boot_idx, seq_entry.mode, boot_by_pn)]
        invariant boot_by_pn == 0 && num_attempts > 0 ==> num_attempts == |tries|
        invariant boot_by_pn == 0 && num_attempts > 0 ==>
                    forall i :: 0 <= i < |tries| ==> tries[i] == Try(boot_idx, seq_entry.mode, i)
        invariant boot_mode_user == old(boot_mode_user)
        decreases num_attempts - value
      {
        if boot_by_pn != 0 {
          value := boot_by_pn;
        }
        multi_boot := value;
        var status := Supported(seq_entry.mode) && init(boot_idx, value);
        if status {
          boot_mode_user := ResetValue(seq_entry.mode);
          return true, j;
        }
        value := value + 1;
        j := j + 1;
      }
    }
  }

  lemma NoTries(ordinal: Option<int>)
    ensures Tries([], ordinal) == []
  {
  }

  // ---------------------------------------------------------------- across resets

  /** One execution of the sequencer as a relation on the register. */
  datatype Execution = Execution(before: nat, after: nat, reset: bool)

  /** What SequenceBoot guarantees about the register. */
  predicate Possible(x: Execution) {
    && (AltBoot(x.before) || BootMode(x.before) == JTAG ==> !x.reset)
    && (x.reset ==> AltBoot(x.after))
    && (!x.reset ==> x.after == x.before)
  }

  /** The register survives a soft reset except for the boot mode pins. */
  predicate SurvivesReset(after: nat, before: nat) {
    after / 16 == before / 16
  }

  predicate IsPowerCycle(run: seq<Execution>) {
    && (forall i :: 0 <= i < |run| ==> Possible(run[i]))
    && (forall i :: 0 <= i < |run| - 1 ==> SurvivesReset(run[i].after, run[i + 1].before))
  }

  lemma AltSurvives(a: nat, b: nat)
    requires a / 16 == b / 16
    ensures AltBoot(a) <==> AltBoot(b)
  {
  }

  lemma {:induction false} AltStays(run: seq<Execution>, i: nat, j: nat)
    requires IsPowerCycle(run) && i < j < |run| && AltBoot(run[i].after)
    ensures AltBoot(run[j].before) && AltBoot(run[j].after)
    decreases j - i
  {
    hide AltBoot;
    if i + 1 < j {
      AltStays(run, i, j - 1);
    }
    AltSurvives(run[j - 1].after, run[j].before);
    assert SurvivesReset(run[j - 1].after, run[j - 1 + 1].before);
    assert Possible(run[j]);
  }

  /** However often the boot loader runs between two power-ups, the sequencer resets at most once. */
  lemma AtMostOneReset(run: seq<Execution>, i: nat, j: nat)
    requires IsPowerCycle(run) && i < j < |run| && run[i].reset
    ensures !run[j].reset
  {
    assert Possible(run[i]) && Possible(run[j]);
    AltStays(run, i, j);
  }

  /** Every execution of the sequencer is one of the relation above. */
  method Execute(regs: Registers, entries: seq<Entry>, ordinal: Option<int>, init: Devices) returns (x: Execution)
    modifies regs
    ensures x.before == old(regs.boot_mode_user) && x.after == regs.boot_mode_user && Possible(x)
  {
    var before := regs.boot_mode_user;
    var reset, k := regs.SequenceBoot(entries, ordinal, init);
    x := Execution(before, regs.boot_mode_user, reset);
  }
}
