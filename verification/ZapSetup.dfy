/** Splitting the ZAP memory between interfaces, and the packet and header size settings. */
module ZapSetup {
  import opened ZapPool

  // ------------------------------------------------------------ setup_multiple_pools

  /** PAGE_ALIGN */
  function PageAlign(x: nat): (r: nat)
    ensures x <= r < x + PAGE && r % PAGE == 0
    ensures x % PAGE == 0 ==> r == x
  {
    (x + PAGE - 1) / PAGE * PAGE
  }

  /** The pools are page-aligned, nonempty, consecutive, and cover the region exactly. */
  predicate Tiles(paddr: seq<nat>, size: seq<nat>, base: nat, total: nat) {
    && |paddr| == |size| > 0
    && paddr[0] == base
    && (forall i :: 0 <= i < |paddr| ==> paddr[i] % PAGE == 0 && size[i] > 0)
    && (forall i :: 0 <= i < |paddr| - 1 ==> paddr[i] + size[i] == paddr[i + 1])
    && paddr[|paddr| - 1] + size[|size| - 1] == base + total
  }

  /** Consecutive pools are pairwise disjoint. */
  lemma {:induction false} TilesAreDisjoint(paddr: seq<nat>, size: seq<nat>, base: nat, total: nat, i: nat, j: nat)
    requires Tiles(paddr, size, base, total) && i < j < |paddr|
    ensures paddr[i] + size[i] <= paddr[j]
    decreases j - i
  {
    if i + 1 < j {
      TilesAreDisjoint(paddr, size, base, total, i, j - 1);
      assert paddr[j - 1] + size[j - 1] == paddr[j - 1 + 1];
    }
  }

  /** Bytes per pool, before page alignment. */
  function Stride(total: nat, n: nat): nat
    requires n > 0
  {
    total / n
  }

  /** An equal share: n of them leave fewer than n bytes. */
  lemma StrideIsShare(total: nat, n: nat)
    requires n > 0
    ensures n * Stride(total, n) <= total < n * Stride(total, n) + n
  {
  }

  function Offset(stride: nat, i: nat): nat {
    stride * i
  }

  lemma OffsetStep(stride: nat, i: nat)
    ensures Offset(stride, 0) == 0 && Offset(stride, i + 1) == Offset(stride, i) + stride
  {
  }

  lemma {:induction false} OffsetMono(stride: nat, i: nat, j: nat)
    requires i <= j
    ensures Offset(stride, i) <= Offset(stride, j)
    decreases j - i
  {
    hide Offset;
    if i < j {
      OffsetMono(stride, i, j - 1);
      OffsetStep(stride, j - 1);
    }
  }

  /** Where pool i starts. */
  function PoolStart(base: nat, stride: nat, i: nat): nat {
    PageAlign(base + Offset(stride, i))
  }

  /** Pool starts increase and stay in range. */
  lemma PoolStarts(base: nat, stride: nat, i: nat, n: nat)
    requires i < n && base % PAGE == 0 && stride >= PAGE && base + Offset(stride, n) < ULONG
    ensures PoolStart(base, stride, i) < PoolStart(base, stride, i + 1)
    ensures PoolStart(base, stride, i) < ULONG
    ensures PoolStart(base, stride, 0) == base
    ensures PoolStart(base, stride, i) % PAGE == 0
    ensures base + Offset(stride, i) <= PoolStart(base, stride, i) < base + Offset(stride, i) + PAGE
    ensures PoolStart(base, stride, i) + stride < PoolStart(base, stride, i + 1) + PAGE
    ensures PoolStart(base, stride, i) + stride < base + Offset(stride, i + 1) + PAGE
  {
    hide PageAlign, Offset;
    OffsetStep(stride, i);
    OffsetStep(stride, 0);
    OffsetMono(stride, i + 1, n);
  }

  lemma AlignedBase(base: nat, x: nat)
    requires base % PAGE == 0
    ensures PageAlign(base + x) == base + PageAlign(x)
  {
  }

  /** Each pool starts at the page boundary at or after its share. */
  predicate StartsAt(paddr: seq<nat>, base: nat, stride: nat) {
    forall i :: 0 <= i < |paddr| ==>
      paddr[i] % PAGE == 0 && base + Offset(stride, i) <= paddr[i] < base + Offset(stride, i) + PAGE
  }

  lemma PoolsStart(paddr: seq<nat>, base: nat, stride: nat, n: nat)
    requires |paddr| == n && base % PAGE == 0 && stride >= PAGE && base + Offset(stride, n) < ULONG
    requires forall i :: 0 <= i < n ==> paddr[i] == PoolStart(base, stride, i)
    ensures StartsAt(paddr, base, stride)
  {
    hide PageAlign, Offset, PoolStart;
    forall i | 0 <= i < n
      ensures paddr[i] % PAGE == 0 && base + Offset(stride, i) <= paddr[i] < base + Offset(stride, i) + PAGE
    {
      PoolStarts(base, stride, i, n);
    }
  }

  /** The loops over one direction; both directions use the RX stride. */
  method SplitRegion(base: nat, total: nat, stride: nat, n: nat) returns (paddr: seq<nat>, size: seq<nat>)
    requires n > 0 && base % PAGE == 0 && stride >= PAGE
    requires base + total < ULONG && base + Offset(stride, n) < ULONG
    ensures |paddr| == |size| == n
    ensures forall i :: 0 <= i < n ==> paddr[i] == PoolStart(base, stride, i)
    ensures Tiles(paddr, size, base, total) <==> PageAlign(Offset(stride, n - 1)) < total
    ensures StartsAt(paddr, base, stride)
    ensures Offset(stride, n) <= total ==> forall i :: 0 <= i < n ==> size[i] + PAGE > stride
  {
    hide PageAlign, Offset, PoolStart, Sub, StartsAt, Tiles;
    paddr, size := [], [];
    for i := 0 to n
      invariant |paddr| == i && forall k :: 0 <= k < i ==> paddr[k] == PoolStart(base, stride, k)
    {
      paddr := paddr + [PoolStart(base, stride, i)];
    }
    if n == 1 {
      size := [total];
    } else {
      for i := 0 to n - 1
        invariant |size| == i
        invariant forall k :: 0 <= k < i ==> paddr[k] + size[k] == paddr[k + 1] && size[k] > 0 && size[k] + PAGE > stride
      {
        PoolStarts(base, stride, i, n);
        PoolStarts(base, stride, i + 1, n);
        size := size + [Sub(paddr[i + 1], paddr[i])];
      }
      size := size + [Sub(base + total, paddr[n - 1])];
    }
    PoolStarts(base, stride, n - 1, n);
    PoolsStart(paddr, base, stride, n);
    TilesIffLastFits(paddr, size, base, total, stride, n);
  }

  lemma TilesIffLastFits(paddr: seq<nat>, size: seq<nat>, base: nat, total: nat, stride: nat, n: nat)
    requires n > 0 && |paddr| == |size| == n && base % PAGE == 0 && base + total < ULONG
    requires forall i :: 0 <= i < n ==> paddr[i] == PoolStart(base, stride, i)
    requires paddr[0] == base && paddr[n - 1] < ULONG
    requires forall i :: 0 <= i < n - 1 ==> paddr[i] + size[i] == paddr[i + 1] && size[i] > 0
    requires size[n - 1] == if n == 1 then total else Sub(base + total, paddr[n - 1])
    ensures Tiles(paddr, size, base, total) <==> PageAlign(Offset(stride, n - 1)) < total
  {
    hide PageAlign, Offset, Sub;
    AlignedBase(base, Offset(stride, n - 1));
    assert paddr[n - 1] == base + PageAlign(Offset(stride, n - 1));
    assert size[n - 1] > 0 && paddr[n - 1] + size[n - 1] == base + total <==> PageAlign(Offset(stride, n - 1)) < total;
  }

  /**
   setup_multiple_pools. With at least a page per pool the RX pools tile their region. The TX
   pools are placed with the RX stride, so they tile theirs exactly when the last one starts
   inside it; an RX region no larger than the TX region is enough.
   */
  method SetupMultiplePools(rx_base: nat, rx_total: nat, tx_base: nat, tx_total: nat, n: nat)
    returns (rx_paddr: seq<nat>, rx_size: seq<nat>, tx_paddr: seq<nat>, tx_size: seq<nat>)
    requires n > 0 && rx_base % PAGE == 0 && tx_base % PAGE == 0 && Stride(rx_total, n) >= PAGE
    requires rx_base + rx_total < ULONG && tx_base + tx_total < ULONG && tx_base + rx_total < ULONG
    ensures |rx_paddr| == |tx_paddr| == n
    ensures Tiles(rx_paddr, rx_size, rx_base, rx_total)
    ensures Tiles(tx_paddr, tx_size, tx_base, tx_total) <==>
            PageAlign(Offset(Stride(rx_total, n), n - 1)) < tx_total
    ensures rx_total <= tx_total ==> Tiles(tx_paddr, tx_size, tx_base, tx_total)
    ensures StartsAt(rx_paddr, rx_base, Stride(rx_total, n)) && StartsAt(tx_paddr, tx_base, Stride(rx_total, n))
    ensures |rx_size| == n && forall i :: 0 <= i < n ==> rx_size[i] + PAGE > Stride(rx_total, n)
  {
    hide Tiles, Stride, Offset, PageAlign, StartsAt;
    var iRxSize := Stride(rx_total, n);
    StrideFits(rx_total, n);
    rx_paddr, rx_size := SplitRegion(rx_base, rx_total, iRxSize, n);
    tx_paddr, tx_size := SplitRegion(tx_base, tx_total, iRxSize, n);
  }

  lemma StrideFits(total: nat, n: nat)
    requires n > 0 && Stride(total, n) >= PAGE
    ensures Offset(Stride(total, n), n) <= total
    ensures PageAlign(Offset(Stride(total, n), n - 1)) < total
  {
    StrideTimes(total, n);
    hide Stride, Offset, PageAlign;
    OffsetStep(Stride(total, n), n - 1);
  }

  lemma StrideTimes(total: nat, n: nat)
    requires n > 0
    ensures Offset(Stride(total, n), n) <= total
  {
    DivIsGreatest(total, n, 0);
  }

  /** A TX region smaller than the RX one can lose its last pool: no sizes make pools at these starts tile it. */
  lemma SmallTxRegionFails(base: nat, paddr: seq<nat>, size: seq<nat>)
    requires base % PAGE == 0 && |paddr| == 2
    requires forall i :: 0 <= i < 2 ==> paddr[i] == PoolStart(base, Stride(0x10000, 2), i)
    ensures Stride(0x10000, 2) >= PAGE && !Tiles(paddr, size, base, 0x2000)
  {
    hide PageAlign;
    assert Offset(Stride(0x10000, 2), 1) == 0x8000;
    assert paddr[1] == PageAlign(base + 0x8000);
  }

  // ------------------------------------------------------- size and header settings

  /** For one direction: the FIFO sizes the FPGA reports, and the region set aside for the pool. */
  datatype Device = Device(dat_fifo_size: nat, oob_fifo_size: nat, paddr: nat, bytes: nat)

  datatype Sizes = Sizes(payload_max: nat, header_size: nat, header_enable: bool, jumbo: bool,
                         packet_size: nat, pool_size: nat)

  /** `OpenDevice` is an open for writing; a read-only one changes nothing. */
  datatype Command = OpenDevice | SetMaxSize(value: nat) | SetHeaderSize(value: nat) | SetJumbo(enable: bool)

  datatype Code = Success | Efbig | Einval | Enomem

  /** ZAP_POOL_MAX_RX_PACKETS and ZAP_POOL_MAX_TX_PACKETS */
  const MAX_PACKETS := 9999

  /** Which requests are refused before they change anything; the subtraction is on unsigned longs. */
  predicate Refused(s: Sizes, c: Command, d: Device, supported: bool) {
    match c
    case OpenDevice => false
    case SetMaxSize(u) => (if s.header_enable then Sub(u, s.header_size) else u) > d.dat_fifo_size && !s.jumbo
    case SetHeaderSize(u) =>
      || u > d.oob_fifo_size || u >= s.payload_max
      || (Sub(s.payload_max, u) > d.dat_fifo_size && !s.jumbo)
    case SetJumbo(v) => v && !supported
  }

  /** What the call returns: a resize refused by the pool is reported by the size setting, not by open. */
  function Reply(s: Sizes, c: Command, d: Device, supported: bool): Code {
    if Refused(s, c, d, supported) then (if c.SetJumbo? then Einval else Efbig)
    else if c.SetMaxSize? && !Fits(c.value, s.pool_size) then Enomem
    else Success
  }

  /** The packet size of the pool follows only where the pool accepts it. */
  function After(s: Sizes, c: Command, d: Device, supported: bool): Sizes {
    if Refused(s, c, d, supported) then s
    else match c
      case OpenDevice =>
        s.(payload_max := d.dat_fifo_size, pool_size := d.bytes,
           packet_size := if Fits(d.dat_fifo_size, d.bytes) then d.dat_fifo_size else s.packet_size)
      case SetMaxSize(u) =>
        s.(payload_max := u, packet_size := if Fits(u, s.pool_size) then u else s.packet_size)
      case SetHeaderSize(u) => s.(header_size := u, header_enable := u != 0)
      case SetJumbo(v) => s.(jumbo := v)
  }

  /** The same with the branches written out: when each code is returned and what is stored. */
  lemma SettingIs(s: Sizes, c: Command, d: Device, supported: bool)
    ensures var code, t := Reply(s, c, d, supported), After(s, c, d, supported);
            match c
            case OpenDevice => code == Success && t.payload_max == d.dat_fifo_size
            case SetMaxSize(u) =>
              && (code == Efbig <==> !s.jumbo && (if s.header_enable then Sub(u, s.header_size) else u) > d.dat_fifo_size)
              && (code == Enomem <==> code != Efbig && u > Sub(s.pool_size, 4096))
              && t.payload_max == (if code == Efbig then s.payload_max else u)
              && t.packet_size == (if code == Success then u else s.packet_size)
            case SetHeaderSize(u) =>
              && (code == Efbig <==> u > d.oob_fifo_size || u >= s.payload_max
                                     || (!s.jumbo && Sub(s.payload_max, u) > d.dat_fifo_size))
              && (code == Success <==> code != Efbig)
              && t.header_size == (if code == Success then u else s.header_size)
              && t.header_enable == (if code == Success then u > 0 else s.header_enable)
            case SetJumbo(v) =>
              && (code == Einval <==> v && !supported) && (code == Success <==> code != Einval)
              && t.jumbo == (if code == Success then v else s.jumbo)
  {
    hide Sub;
  }

  /** One direction of an interface, as zap_open and the size cases of zap_ioctl update it. */
  class Settings {
    const pool: Pool
    var payload_max: nat
    var header_size: nat
    var header_enable: bool
    var jumbo: bool

    ghost function Now(): Sizes
      reads this, pool
    {
      Sizes(payload_max, header_size, header_enable, jumbo, pool.packet_size, pool.size)
    }

    constructor ()
      ensures Now() == FRESH && fresh(pool) && Region(pool.buf_paddr, pool.size)
    {
      pool := new Pool();
      payload_max, header_size, header_enable, jumbo := 0, 0, false, false;
    }

    /**
     An open for writing, or one ioctl, which first stops the DMA and with it flushes the pool.
     Where the pool refuses the new packet size the maximum has already been stored.
     */
    method Do(c: Command, d: Device, supported: bool) returns (code: Code)
      requires Region(pool.buf_paddr, pool.size) && Region(d.paddr, d.bytes)
      modifies this, pool
      ensures code == Reply(old(Now()), c, d, supported)
      ensures Now() == After(old(Now()), c, d, supported)
      ensures Region(pool.buf_paddr, pool.size)
      ensures code != Success && code != Enomem ==> Now() == old(Now())
      ensures c.SetMaxSize? && code == Success && c.value > 0 ==> pool.Valid()
      ensures !c.OpenDevice? && old(pool.Valid()) && (c.SetMaxSize? && code == Success ==> c.value > 0) ==> pool.Valid()
      ensures !c.OpenDevice? && pool.Valid() && old(pool.Valid()) ==>
                pool.State() == AllFree(pool.ppackets, pool.aligned_packet_size, pool.num_packets)
    {
      hide Sub, Fits, AllFree, Laid, ListOk, Addresses, Packets, UsedSet, Align4, PacketsIn;
      code := Success;
      if !c.OpenDevice? {
        var _ := pool.Flush();
      }
      match c {
        case OpenDevice =>
          payload_max := d.dat_fifo_size;
          pool.Create(d.paddr, d.bytes);
          var _ := pool.Resize(payload_max, MAX_PACKETS);
        case SetMaxSize(u) =>
          if header_enable {
            if Sub(u, header_size) > d.dat_fifo_size && !jumbo { return Efbig; }
          } else {
            if u > d.dat_fifo_size && !jumbo { return Efbig; }
          }
          payload_max := u;
          var err := pool.Resize(payload_max, MAX_PACKETS);
          if err { return Enomem; }
        case SetHeaderSize(u) =>
          if u > d.oob_fifo_size { return Efbig; }
          if u >= payload_max { return Efbig; }
          if Sub(payload_max, u) > d.dat_fifo_size && !jumbo { return Efbig; }
          header_enable := u != 0;
          header_size := u;
        case SetJumbo(v) =>
          if v && !supported { return Einval; }
          jumbo := v;
      }
    }
  }

  function Run(s: Sizes, cs: seq<Command>, d: Device, supported: bool): Sizes {
    if cs == [] then s else After(Run(s, cs[..|cs| - 1], d, supported), cs[|cs| - 1], d, supported)
  }

  /** What the DMA start relies on: the header fits the payload, and the rest fits the data FIFO. */
  predicate Consistent(s: Sizes, d: Device) {
    && s.header_size <= s.payload_max
    && s.payload_max - s.header_size <= d.dat_fifo_size
    && (s.header_enable <==> s.header_size != 0)
  }

  predicate WordSized(c: Command) {
    match c
    case SetMaxSize(u) => u < ULONG
    case SetHeaderSize(u) => u < ULONG
    case _ => true
  }

  /** Runs of opens and settings that never enable jumbo packets. */
  predicate Ordinary(cs: seq<Command>) {
    forall i :: 0 <= i < |cs| ==> WordSized(cs[i]) && cs[i] != SetJumbo(true)
  }

  const FRESH := Sizes(0, 0, false, false, 0, 0)

  /** The FIFO shapes under which the checks are sufficient. */
  predicate SafeFifos(d: Device) {
    d.oob_fifo_size <= d.dat_fifo_size || d.dat_fifo_size <= 1
  }

  predicate Sound(s: Sizes, d: Device) {
    && Consistent(s, d) && !s.jumbo && s.payload_max < ULONG
    && s.header_size <= d.dat_fifo_size && (d.dat_fifo_size <= 1 ==> s.header_size == 0)
  }

  lemma StepIsSound(s: Sizes, c: Command, d: Device, supported: bool)
    requires Sound(s, d) && SafeFifos(d) && d.dat_fifo_size < ULONG / 2 && WordSized(c) && c != SetJumbo(true)
    ensures Sound(After(s, c, d, supported), d)
  {
    hide Sub;
  }

  /** Over every ordinary run the sizes stay consistent, although the subtraction can wrap. */
  lemma {:induction false} SizesStayConsistent(cs: seq<Command>, d: Device, supported: bool)
    requires SafeFifos(d) && d.dat_fifo_size < ULONG / 2 && Ordinary(cs)
    ensures Sound(Run(FRESH, cs, d, supported), d)
  {
    if cs != [] {
      var front, c := cs[..|cs| - 1], cs[|cs| - 1];
      SizesStayConsistent(front, d, supported);
      StepIsSound(Run(FRESH, front, d, supported), c, d, supported);
    }
  }

  lemma RunStep(cs: seq<Command>, c: Command, d: Device, supported: bool)
    ensures Run(FRESH, cs + [c], d, supported) == After(Run(FRESH, cs, d, supported), c, d, supported)
  {
    assert (cs + [c])[..|cs|] == cs;
  }

  /** An ordinary run to a maximum of twice the data FIFO, with a header as large as the data FIFO. */
  lemma GrownHeader(d: Device, supported: bool) returns (cs: seq<Command>)
    requires !SafeFifos(d) && d.dat_fifo_size < ULONG / 2 && d.oob_fifo_size < ULONG
    ensures Ordinary(cs)
    ensures var s := Run(FRESH, cs, d, supported);
            s.payload_max == 2 * d.dat_fifo_size && s.header_size == d.dat_fifo_size && s.header_enable && !s.jumbo
  {
    hide Sub, Run, Fits;
    var n := d.dat_fifo_size;
    RunOfNothing(d, supported);
    RunStep([], OpenDevice, d, supported);
    cs := [] + [OpenDevice];
    RunStep(cs, SetHeaderSize(1), d, supported);
    cs := cs + [SetHeaderSize(1)];
    RunStep(cs, SetMaxSize(n + 1), d, supported);
    cs := cs + [SetMaxSize(n + 1)];
    RunStep(cs, SetHeaderSize(n), d, supported);
    cs := cs + [SetHeaderSize(n)];
    RunStep(cs, SetMaxSize(n + n), d, supported);
    cs := cs + [SetMaxSize(n + n)];
  }

  /** With other FIFO shapes a header can be grown step by step until a reopen strands it. */
  lemma StrandedHeader(d: Device, supported: bool) returns (cs: seq<Command>)
    requires !SafeFifos(d) && d.dat_fifo_size < ULONG / 2 && d.oob_fifo_size < ULONG
    ensures Ordinary(cs) && !Consistent(Run(FRESH, cs, d, supported), d)
  {
    hide Sub, Run, Fits;
    var n := d.dat_fifo_size;
    cs := GrownHeader(d, supported);
    RunStep(cs, SetHeaderSize(n + 1), d, supported);
    cs := cs + [SetHeaderSize(n + 1)];
    RunStep(cs, OpenDevice, d, supported);
    cs := cs + [OpenDevice];
  }

  lemma RunOfNothing(d: Device, supported: bool)
    ensures Run(FRESH, [], d, supported) == FRESH
  {
  }

  /** The settings are safe over all ordinary runs exactly for the safe FIFO shapes. */
  lemma SizesSafeIff(d: Device, supported: bool)
    requires d.dat_fifo_size < ULONG / 2 && d.oob_fifo_size < ULONG
    ensures (forall cs :: Ordinary(cs) ==> Consistent(Run(FRESH, cs, d, supported), d)) <==> SafeFifos(d)
  {
    hide Consistent, Ordinary;
    if SafeFifos(d) {
      forall cs | Ordinary(cs)
        ensures Consistent(Run(FRESH, cs, d, supported), d)
      {
        SizesStayConsistent(cs, d, supported);
      }
    } else {
      var cs := StrandedHeader(d, supported);
    }
  }

  // ---------------------------------------------------- do accepted packets fit their buffers

  /** The length tests of zap_write for a packet to be sent. */
  predicate SendAccepted(s: Sizes, len: nat, ooblen: nat) {
    && len < ULONG - 1 && !(ooblen != 0 && !s.header_enable)
    && !(len > s.payload_max || (ooblen > s.header_size && s.header_enable))
  }

  /** Every packet that may be sent fits in a packet buffer. */
  ghost predicate AcceptedFit(s: Sizes) {
    forall len: nat, ooblen: nat :: SendAccepted(s, len, ooblen) ==> len <= s.packet_size
  }

  /** The packet size last asked for, by an open or by a size setting that was not refused with EFBIG. */
  function Asked(s: Sizes, cs: seq<Command>, d: Device, supported: bool): nat {
    if cs == [] then s.payload_max
    else
      var front, c := cs[..|cs| - 1], cs[|cs| - 1];
      if c.OpenDevice? then d.dat_fifo_size
      else if c.SetMaxSize? && !Refused(Run(s, front, d, supported), c, d, supported) then c.value
      else Asked(s, front, d, supported)
  }

  /** From an open for writing on, the pool has a packet size that fits, the maximum itself if that fits. */
  lemma {:induction false} PacketSizeFollows(start: Sizes, cs: seq<Command>, d: Device, supported: bool)
    requires cs != [] && cs[0] == OpenDevice && Fits(start.packet_size, d.bytes)
    ensures var s := Run(start, cs, d, supported);
            && s.payload_max == Asked(start, cs, d, supported) && s.pool_size == d.bytes
            && Fits(s.packet_size, d.bytes)
            && (Fits(s.payload_max, d.bytes) ==> s.packet_size == s.payload_max)
  {
    hide Sub;
    var front, c := cs[..|cs| - 1], cs[|cs| - 1];
    if front != [] {
      PacketSizeFollows(start, front, d, supported);
    }
  }

  /**
   Over every run of opens and settings that begins with an open, from zero or from whatever an
   earlier use left behind: the maximum is the packet size of the pool, and every
   accepted packet fits its buffer, exactly when the size last asked for passes the test of
   pool_resize, which from a page up means that it leaves a page of the pool.
   */
  lemma PacketsFitIff(start: Sizes, cs: seq<Command>, d: Device, supported: bool)
    requires cs != [] && cs[0] == OpenDevice && Region(d.paddr, d.bytes) && Fits(start.packet_size, d.bytes)
    ensures var s := Run(start, cs, d, supported);
            && (s.payload_max == s.packet_size <==> Fits(Asked(start, cs, d, supported), d.bytes))
            && (AcceptedFit(s) <==> Fits(Asked(start, cs, d, supported), d.bytes))
    ensures d.bytes >= PAGE ==>
              (Fits(Asked(start, cs, d, supported), d.bytes) <==> Asked(start, cs, d, supported) + PAGE <= d.bytes)
  {
    hide Run, Asked, Fits;
    var s := Run(start, cs, d, supported);
    PacketSizeFollows(start, cs, d, supported);
    FitsIff(s.payload_max, d.bytes);
    FitsIff(s.packet_size, d.bytes);
    assert SendAccepted(s, if s.payload_max < ULONG - 1 then s.payload_max else ULONG - 2, 0);
  }

  /** A size setting that reports ENOMEM and all the same leaves a maximum larger than the buffers. */
  lemma RefusedResizeStrands(supported: bool)
    ensures var d, cs := Device(4096, 128, 0, 8192), [OpenDevice, SetHeaderSize(100)];
            var s := Run(FRESH, cs, d, supported);
            && Reply(s, SetMaxSize(4196), d, supported) == Enomem
            && After(s, SetMaxSize(4196), d, supported).payload_max == 4196
            && After(s, SetMaxSize(4196), d, supported).packet_size == 4096
            && !AcceptedFit(After(s, SetMaxSize(4196), d, supported))
  {
    var d := Device(4096, 128, 0, 8192);
    RunOfNothing(d, supported);
    RunStep([], OpenDevice, d, supported);
    RunStep([OpenDevice], SetHeaderSize(100), d, supported);
    hide Run, Sub;
    assert [] + [OpenDevice] == [OpenDevice] && [OpenDevice] + [SetHeaderSize(100)] == [OpenDevice, SetHeaderSize(100)];
    var s := Run(FRESH, [OpenDevice, SetHeaderSize(100)], d, supported);
    assert SendAccepted(After(s, SetMaxSize(4196), d, supported), 4196, 0);
  }
}
