/** The ZAP buffer pool: an entry table threaded by three lists, refining two queues and a set. */
module ZapPool {

  // ------------------------------------------------- the abstract pool: queues and a set

  /** What travels with a buffer through the fifo. */
  datatype Packet = Packet(buf: nat, len: nat, ooblen: nat, flags: nat)

  /** Buffers by address. `used` buffers are with the FPGA or the user. */
  datatype Queues = Queues(free: seq<nat>, fifo: seq<Packet>, used: set<nat>)

  function BufsOf(fifo: seq<Packet>): (s: seq<nat>)
    ensures |s| == |fifo| && forall i :: 0 <= i < |s| ==> s[i] == fifo[i].buf
  {
    seq(|fifo|, i requires 0 <= i < |fifo| => fifo[i].buf)
  }

  function Get(q: Queues): Queues
    requires q.free != []
  {
    Queues(q.free[1..], q.fifo, q.used + {q.free[0]})
  }

  function Free(q: Queues, buf: nat): Queues {
    if buf in q.used then Queues(q.free + [buf], q.fifo, q.used - {buf}) else q
  }

  function Enq(q: Queues, p: Packet): Queues {
    if p.buf in q.used then Queues(q.free, q.fifo + [p], q.used - {p.buf}) else q
  }

  function Deq(q: Queues): Queues
    requires q.fifo != []
  {
    Queues(q.free, q.fifo[1..], q.used + {q.fifo[0].buf})
  }

  /** Every buffer of `all` is in exactly one place. */
  ghost predicate Partition(q: Queues, all: set<nat>) {
    && NoDup(q.free) && NoDup(BufsOf(q.fifo))
    && (forall b :: b in q.free ==> b !in BufsOf(q.fifo) && b !in q.used)
    && (forall b :: b in BufsOf(q.fifo) ==> b !in q.used)
    && (forall b :: b in all <==> b in q.free || b in BufsOf(q.fifo) || b in q.used)
  }

  lemma TailMembers(s: seq<nat>)
    requires s != [] && NoDup(s)
    ensures NoDup(s[1..]) && forall x :: x in s[1..] <==> x in s && x != s[0]
  {
    assert s == [s[0]] + s[1..];
  }

  lemma GetKeepsPartition(q: Queues, all: set<nat>)
    requires Partition(q, all) && q.free != []
    ensures Partition(Get(q), all) && q.free[0] !in q.used
  {
    TailMembers(q.free);
    assert q.free[0] in q.free;
  }

  lemma DeqKeepsPartition(q: Queues, all: set<nat>)
    requires Partition(q, all) && q.fifo != []
    ensures Partition(Deq(q), all) && q.fifo[0].buf !in q.used
  {
    TailMembers(BufsOf(q.fifo));
    assert BufsOf(q.fifo[1..]) == BufsOf(q.fifo)[1..];
    assert BufsOf(q.fifo)[0] in BufsOf(q.fifo);
  }

  lemma FreeKeepsPartition(q: Queues, all: set<nat>, buf: nat)
    requires Partition(q, all)
    ensures Partition(Free(q, buf), all)
  {
  }

  lemma EnqKeepsPartition(q: Queues, all: set<nat>, p: Packet)
    requires Partition(q, all)
    ensures Partition(Enq(q, p), all)
  {
    assert BufsOf(q.fifo + [p]) == BufsOf(q.fifo) + [p.buf];
  }

  // ---------------------------------------------------------------- the entry table

  datatype ListId = FreeList | FifoList | UsedList

  datatype Entry = Entry(pbuf: nat, flags: nat, len: nat, ooblen: nat, cur: ListId)

  predicate NoDup(s: seq<nat>) {
    forall i, j :: 0 <= i < j < |s| ==> s[i] != s[j]
  }

  /** The list holds exactly the entries whose `pcur_list` says so, once each. */
  predicate ListOk(entries: seq<Entry>, list: seq<nat>, id: ListId) {
    && NoDup(list)
    && (forall i :: 0 <= i < |list| ==> list[i] < |entries|)
    && (forall k :: 0 <= k < |entries| ==> (entries[k].cur == id <==> k in list))
  }

  predicate Laid(entries: seq<Entry>, base: nat, stride: nat) {
    forall i :: 0 <= i < |entries| ==> entries[i].pbuf == base + i * stride
  }

  function Without(s: seq<nat>, x: nat): (r: seq<nat>)
    ensures forall y :: y in r <==> y in s && y != x
    ensures |r| <= |s|
  {
    if s == [] then [] else if s[0] == x then Without(s[1..], x) else [s[0]] + Without(s[1..], x)
  }

  lemma {:induction false} WithoutNoDup(s: seq<nat>, x: nat)
    requires NoDup(s)
    ensures NoDup(Without(s, x))
  {
    if s != [] {
      assert NoDup(s[1..]);
      WithoutNoDup(s[1..], x);
      assert s[0] !in s[1..];
    }
  }

  /** Addresses of the entries a list names. */
  function Addresses(entries: seq<Entry>, list: seq<nat>): (r: seq<nat>)
    requires forall i :: 0 <= i < |list| ==> list[i] < |entries|
    ensures |r| == |list| && forall i :: 0 <= i < |r| ==> r[i] == entries[list[i]].pbuf
  {
    seq(|list|, i requires 0 <= i < |list| => entries[list[i]].pbuf)
  }

  function Packets(entries: seq<Entry>, list: seq<nat>): (r: seq<Packet>)
    requires forall i :: 0 <= i < |list| ==> list[i] < |entries|
    ensures |r| == |list|
    ensures forall i :: 0 <= i < |r| ==>
              r[i] == Packet(entries[list[i]].pbuf, entries[list[i]].len, entries[list[i]].ooblen, entries[list[i]].flags)
  {
    seq(|list|, i requires 0 <= i < |list| =>
      Packet(entries[list[i]].pbuf, entries[list[i]].len, entries[list[i]].ooblen, entries[list[i]].flags))
  }

  /** Addresses of the entries on the used list. */
  function UsedSet(entries: seq<Entry>): set<nat> {
    set k | 0 <= k < |entries| && entries[k].cur == UsedList :: entries[k].pbuf
  }

  // ------------------------------------------------------ moving one entry between lists

  lemma LeavesHead(entries: seq<Entry>, list: seq<nat>, id: ListId, e: Entry)
    requires ListOk(entries, list, id) && list != [] && e.cur != id
    ensures ListOk(entries[list[0] := e], list[1..], id)
    ensures Addresses(entries[list[0] := e], list[1..]) == Addresses(entries, list)[1..]
    ensures Packets(entries[list[0] := e], list[1..]) == Packets(entries, list)[1..]
  {
    var k, rest := list[0], list[1..];
    assert k !in rest;
    assert forall j :: j in list <==> j == k || j in rest;
  }

  lemma Leaves(entries: seq<Entry>, list: seq<nat>, id: ListId, k: nat, e: Entry)
    requires ListOk(entries, list, id) && k < |entries| && e.cur != id
    ensures ListOk(entries[k := e], Without(list, k), id)
  {
    WithoutNoDup(list, k);
    var r := Without(list, k);
    forall i | 0 <= i < |r|
      ensures r[i] < |entries|
    {
      assert r[i] in r;
    }
  }

  lemma JoinsTail(entries: seq<Entry>, list: seq<nat>, id: ListId, k: nat, e: Entry)
    requires ListOk(entries, list, id) && k < |entries| && entries[k].cur != id && e.cur == id
    ensures ListOk(entries[k := e], list + [k], id)
  {
  }

  lemma JoinsHead(entries: seq<Entry>, list: seq<nat>, id: ListId, k: nat, e: Entry)
    requires ListOk(entries, list, id) && k < |entries| && entries[k].cur != id && e.cur == id
    ensures ListOk(entries[k := e], [k] + list, id)
  {
  }

  lemma Stays(entries: seq<Entry>, list: seq<nat>, id: ListId, k: nat, e: Entry)
    requires ListOk(entries, list, id) && k < |entries| && entries[k].cur != id && e.cur != id
    ensures ListOk(entries[k := e], list, id)
    ensures Addresses(entries[k := e], list) == Addresses(entries, list)
    ensures Packets(entries[k := e], list) == Packets(entries, list)
  {
  }

  predicate DistinctBufs(entries: seq<Entry>) {
    forall i, j :: 0 <= i < j < |entries| ==> entries[i].pbuf != entries[j].pbuf
  }

  lemma BecomesUsed(entries: seq<Entry>, k: nat, e: Entry)
    requires k < |entries| && e.cur == UsedList && e.pbuf == entries[k].pbuf
    ensures UsedSet(entries[k := e]) == UsedSet(entries) + {e.pbuf}
  {
    var after := entries[k := e];
    forall b | b in UsedSet(entries) + {e.pbuf}
      ensures b in UsedSet(after)
    {
      if b == e.pbuf {
        assert after[k].pbuf == b;
      } else {
        var j :| 0 <= j < |entries| && entries[j].cur == UsedList && entries[j].pbuf == b;
        assert after[j] == entries[j];
      }
    }
  }

  lemma StopsBeingUsed(entries: seq<Entry>, k: nat, e: Entry)
    requires k < |entries| && entries[k].cur == UsedList && e.cur != UsedList && e.pbuf == entries[k].pbuf
    requires DistinctBufs(entries)
    ensures UsedSet(entries[k := e]) == UsedSet(entries) - {e.pbuf}
  {
    var after := entries[k := e];
    forall b | b in UsedSet(entries) - {e.pbuf}
      ensures b in UsedSet(after)
    {
      var j :| 0 <= j < |entries| && entries[j].cur == UsedList && entries[j].pbuf == b;
      assert after[j] == entries[j];
    }
  }

  lemma LaidIsDistinct(entries: seq<Entry>, base: nat, stride: nat)
    requires Laid(entries, base, stride) && stride > 0
    ensures DistinctBufs(entries)
  {
    forall i, j | 0 <= i < j < |entries|
      ensures entries[i].pbuf != entries[j].pbuf
    {
      MulMono(i, j, stride);
    }
  }

  /** A used entry is the only way an address can be in the used set. */
  lemma UsedIffEntryUsed(entries: seq<Entry>, k: nat)
    requires k < |entries| && DistinctBufs(entries)
    ensures entries[k].pbuf in UsedSet(entries) <==> entries[k].cur == UsedList
  {
  }

  lemma AddressOnList(entries: seq<Entry>, list: seq<nat>, id: ListId, k: nat)
    requires ListOk(entries, list, id) && DistinctBufs(entries) && k < |entries|
    ensures entries[k].pbuf in Addresses(entries, list) <==> entries[k].cur == id
    ensures NoDup(Addresses(entries, list))
  {
    var r := Addresses(entries, list);
    if k in list {
      var i :| 0 <= i < |list| && list[i] == k;
      assert r[i] == entries[k].pbuf;
    }
    if entries[k].pbuf in r {
      var i :| 0 <= i < |r| && r[i] == entries[k].pbuf;
      assert list[i] == k;
    }
  }

  lemma {:induction false} TableIsPartition(entries: seq<Entry>, free: seq<nat>, fifo: seq<nat>, used: seq<nat>,
                                            base: nat, stride: nat)
    requires ListOk(entries, free, FreeList) && ListOk(entries, fifo, FifoList) && ListOk(entries, used, UsedList)
    requires Laid(entries, base, stride) && DistinctBufs(entries)
    ensures Partition(Queues(Addresses(entries, free), Packets(entries, fifo), UsedSet(entries)),
                      AddressSet(base, stride, |entries|))
  {
    var q := Queues(Addresses(entries, free), Packets(entries, fifo), UsedSet(entries));
    assert BufsOf(q.fifo) == Addresses(entries, fifo);
    if entries != [] {
      AddressOnList(entries, free, FreeList, 0);
      AddressOnList(entries, fifo, FifoList, 0);
    }
    forall b | b in q.free || b in BufsOf(q.fifo) || b in q.used || b in AddressSet(base, stride, |entries|)
      ensures b in AddressSet(base, stride, |entries|)
      ensures b in q.free ==> b !in BufsOf(q.fifo) && b !in q.used
      ensures b in BufsOf(q.fifo) ==> b !in q.used
      ensures b in q.free || b in BufsOf(q.fifo) || b in q.used
    {
      var k := EntryOf(entries, free, fifo, base, stride, b);
      AddressOnList(entries, free, FreeList, k);
      AddressOnList(entries, fifo, FifoList, k);
      UsedIffEntryUsed(entries, k);
    }
  }

  lemma EntryOf(entries: seq<Entry>, free: seq<nat>, fifo: seq<nat>, base: nat, stride: nat, b: nat) returns (k: nat)
    requires ListOk(entries, free, FreeList) && ListOk(entries, fifo, FifoList) && Laid(entries, base, stride)
    requires || b in Addresses(entries, free) || b in Addresses(entries, fifo) || b in UsedSet(entries)
             || b in AddressSet(base, stride, |entries|)
    ensures k < |entries| && entries[k].pbuf == b
  {
    if b in Addresses(entries, free) {
      var i :| 0 <= i < |free| && Addresses(entries, free)[i] == b;
      k := free[i];
    } else if b in Addresses(entries, fifo) {
      var i :| 0 <= i < |fifo| && Addresses(entries, fifo)[i] == b;
      k := fifo[i];
    } else if b in UsedSet(entries) {
      k :| 0 <= k < |entries| && entries[k].cur == UsedList && entries[k].pbuf == b;
    } else {
      k :| 0 <= k < |entries| && b == base + k * stride;
    }
  }

  const PAGE := 4096
  const ENTRY_SIZE := 56
  const UINT := 0x1_0000_0000
  const ULONG := 0x1_0000_0000_0000_0000

  /** Unsigned long subtraction. */
  function Sub(a: nat, b: nat): (r: nat)
    ensures r < ULONG
    ensures b <= a < ULONG ==> r == a - b
    ensures a < b < ULONG ==> r == a + ULONG - b
  {
    (a - b) % ULONG
  }

  /** The size test of pool_resize: room for a packet and a page of entries. */
  predicate Fits(packet: nat, size: nat) {
    packet <= Sub(size, PAGE)
  }

  /** From a page up the test means what it says; below a page the subtraction wraps. */
  lemma FitsIff(packet: nat, size: nat)
    requires size < ULONG
    ensures size >= PAGE ==> (Fits(packet, size) <==> packet + PAGE <= size)
    ensures size < PAGE ==> (Fits(packet, size) <==> packet + PAGE <= size + ULONG)
  {
    hide Sub;
  }

  /** A region for a pool: under 4 GiB, and not so close below a page that the rounding of a packet size wraps. */
  predicate Region(paddr: nat, size: nat) {
    && size < UINT && paddr + size < ULONG
    && (size >= PAGE || size + ENTRY_SIZE + 8 <= PAGE)
  }

  /** Rounding a packet size up to a multiple of sizeof(int). */
  function Align4(n: nat): (r: nat)
    ensures n <= r < n + 4 && r % 4 == 0
  {
    (n + 3) / 4 * 4
  }

  lemma {:induction false} MulMono(i: nat, j: nat, a: nat)
    requires i < j
    ensures i * a + a <= j * a
    decreases j - i
  {
    if i + 1 < j {
      MulMono(i, j - 1, a);
    }
    assert j * a == (j - 1) * a + a;
  }

  lemma DivMul(i: nat, a: nat)
    requires a > 0
    ensures i * a / a == i
  {
    var q := i * a / a;
    assert q * a <= i * a < q * a + a;
    if q < i {
      MulMono(q, i, a);
    } else if i < q {
      MulMono(i, q, a);
    }
  }

  lemma IndexOfStart(i: nat, a: nat, size: nat)
    requires a > 0 && i * a + a <= size < UINT
    ensures i * a % UINT / a == i
  {
    DivMul(i, a);
  }

  /** Every buffer free, the last one first: list_add puts each entry at the head. */
  function AllFree(base: nat, stride: nat, n: nat): Queues {
    Queues(FreeAddresses(base, stride, n), [], {})
  }

  function FreeAddresses(base: nat, stride: nat, n: nat): (s: seq<nat>)
    ensures |s| == n && forall i :: 0 <= i < n ==> s[i] == base + (n - 1 - i) * stride
  {
    if n == 0 then [] else [base + (n - 1) * stride] + FreeAddresses(base, stride, n - 1)
  }

  /** The layout's addresses. */
  function AddressSet(base: nat, stride: nat, n: nat): set<nat> {
    set i | 0 <= i < n :: base + i * stride
  }

  lemma {:induction false} AllFreeIsPartition(base: nat, stride: nat, n: nat)
    requires stride > 0
    ensures Partition(AllFree(base, stride, n), AddressSet(base, stride, n))
  {
    hide FreeAddresses;
    var free := AllFree(base, stride, n).free;
    forall i, j | 0 <= i < j < n
      ensures free[i] != free[j]
    {
      MulMono(n - 1 - j, n - 1 - i, stride);
    }
    forall b | b in AddressSet(base, stride, n)
      ensures b in free
    {
      var i :| 0 <= i < n && b == base + i * stride;
      assert free[n - 1 - i] == b;
    }
  }

  function FreshEntries(base: nat, stride: nat, len: nat, n: nat): (es: seq<Entry>)
    ensures |es| == n && forall k :: 0 <= k < n ==> es[k] == Entry(base + k * stride, 0, len, 0, FreeList)
  {
    seq(n, k requires 0 <= k < n => Entry(base + k * stride, 0, len, 0, FreeList))
  }

  function Down(n: nat): (s: seq<nat>)
    ensures |s| == n && forall k :: 0 <= k < n ==> s[k] == n - 1 - k
  {
    seq(n, k requires 0 <= k < n => n - 1 - k)
  }

  lemma FreshStep(base: nat, stride: nat, len: nat, n: nat)
    ensures FreshEntries(base, stride, len, n + 1)
         == FreshEntries(base, stride, len, n) + [Entry(base + n * stride, 0, len, 0, FreeList)]
    ensures Down(n + 1) == [n] + Down(n)
    ensures FreshEntries(base, stride, len, 0) == [] && Down(0) == []
  {
    hide FreshEntries, Down;
  }

  lemma FreshIsAllFree(base: nat, stride: nat, len: nat, n: nat)
    ensures var es := FreshEntries(base, stride, len, n);
            && Laid(es, base, stride)
            && ListOk(es, Down(n), FreeList) && ListOk(es, [], FifoList) && ListOk(es, [], UsedList)
            && Queues(Addresses(es, Down(n)), Packets(es, []), UsedSet(es)) == AllFree(base, stride, n)
  {
    hide FreshEntries, Down, FreeAddresses;
    var es, down := FreshEntries(base, stride, len, n), Down(n);
    forall k | 0 <= k < n
      ensures k in down
    {
      assert down[n - 1 - k] == k;
    }
    assert UsedSet(es) == {};
    var free := AllFree(base, stride, n).free;
    forall i | 0 <= i < n
      ensures Addresses(es, down)[i] == free[i]
    {
      assert Addresses(es, down)[i] == es[down[i]].pbuf == base + down[i] * stride;
    }
  }

  lemma DivIsGreatest(x: nat, a: nat, n: nat)
    requires a > 0
    ensures Quotient(x, a) * a <= x && (n * a <= x ==> n <= Quotient(x, a))
  {
    var q := x / a;
    assert q * a <= x < q * a + a;
    if q < n {
      MulMono(q, n, a);
    }
  }

  /** The three lists hold every entry exactly once. */
  lemma {:induction false} ListsPartition(entries: seq<Entry>, free: seq<nat>, fifo: seq<nat>, used: seq<nat>)
    requires ListOk(entries, free, FreeList) && ListOk(entries, fifo, FifoList) && ListOk(entries, used, UsedList)
    ensures |free| + |fifo| + |used| == |entries|
    ensures NoDup(free + fifo + used) && forall k :: 0 <= k < |entries| <==> k in free + fifo + used
  {
    var all := free + fifo + used;
    forall k | k in all
      ensures 0 <= k < |entries|
    {
      var i :| 0 <= i < |all| && all[i] == k;
    }
    forall i, j | 0 <= i < j < |all|
      ensures all[i] != all[j]
    {
      var a, b := ListOf(entries, free, fifo, used, i), ListOf(entries, free, fifo, used, j);
      assert entries[all[i]].cur == a && entries[all[j]].cur == b;
    }
    NoDupCovers(all, |entries|);
  }

  /** Which list a position of the concatenation lies in is what its entry says. */
  function ListOf(entries: seq<Entry>, free: seq<nat>, fifo: seq<nat>, used: seq<nat>, i: nat): (id: ListId)
    requires ListOk(entries, free, FreeList) && ListOk(entries, fifo, FifoList) && ListOk(entries, used, UsedList)
    requires i < |free + fifo + used|
    ensures (free + fifo + used)[i] < |entries| && entries[(free + fifo + used)[i]].cur == id
    ensures id == if i < |free| then FreeList else if i < |free| + |fifo| then FifoList else UsedList
  {
    var k := (free + fifo + used)[i];
    if i < |free| then assert k in free; FreeList
    else if i < |free| + |fifo| then assert k in fifo; FifoList
    else assert k in used; UsedList
  }

  lemma {:induction false} NoDupCovers(s: seq<nat>, n: nat)
    requires NoDup(s) && forall k :: 0 <= k < n <==> k in s
    ensures |s| == n
  {
    assert n > 0 ==> n - 1 in s;
    if s != [] {
      assert s[0] in s;
      assert n - 1 in s;
      var i :| 0 <= i < |s| && s[i] == n - 1;
      var r := s[..i] + s[i + 1..];
      forall k
        ensures 0 <= k < n - 1 <==> k in r
      {
        if k in s && k != n - 1 {
          var j :| 0 <= j < |s| && s[j] == k;
          assert j < i ==> r[j] == k;
          assert j > i ==> r[j - 1] == k;
        }
      }
      NoDupCovers(r, n - 1);
    }
  }

  class Pool {
    var size: nat
    var buf_paddr: nat
    var packet_size: nat
    var aligned_packet_size: nat
    var num_packets: nat
    var ppackets: nat
    var pentries: seq<Entry>
    var freelist: seq<nat>
    var fifolist: seq<nat>
    var usedlist: seq<nat>

    /** A pool that has been resized to a nonzero packet size. */
    ghost predicate Valid()
      reads this
    {
      && 0 < packet_size && aligned_packet_size == Align4(packet_size)
      && Region(buf_paddr, size) && ppackets == buf_paddr
      && Fits(packet_size, size)
      && num_packets == |pentries| && num_packets * (ENTRY_SIZE + aligned_packet_size) <= size
      && Laid(pentries, ppackets, aligned_packet_size)
      && ListOk(pentries, freelist, FreeList)
      && ListOk(pentries, fifolist, FifoList)
      && ListOk(pentries, usedlist, UsedList)
      && (forall k :: 0 <= k < |pentries| && pentries[k].cur == FreeList ==> pentries[k].len == packet_size)
    }

    /** The queues and the set this pool stands for. */
    ghost function State(): Queues
      requires Valid()
      reads this
    {
      Queues(Addresses(pentries, freelist), Packets(pentries, fifolist),
             UsedSet(pentries))
    }

    /** The start addresses of the packets. */
    ghost predicate IsPacketStart(pbuf: nat)
      reads this
    {
      exists i :: 0 <= i < num_packets && pbuf == ppackets + i * aligned_packet_size
    }

    /** pbuf2pentry, as an index: the difference is truncated to 32 bits. */
    function EntryIndex(pbuf: nat): (i: nat)
      requires pbuf >= ppackets && aligned_packet_size > 0
      reads this
    {
      (pbuf - ppackets) % UINT / aligned_packet_size
    }

    lemma EntryIndexOfStart(i: nat)
      requires Valid() && i < num_packets
      ensures EntryIndex(ppackets + i * aligned_packet_size) == i
      ensures i * aligned_packet_size + aligned_packet_size <= size
    {
      hide ListOk, Laid, Align4;
      PacketFits(i);
      IndexOfStart(i, aligned_packet_size, size);
    }

    lemma PacketFits(i: nat)
      requires Valid() && i < num_packets
      ensures i * aligned_packet_size + aligned_packet_size <= size
    {
      MulMono(i, num_packets, aligned_packet_size);
      assert num_packets * (ENTRY_SIZE + aligned_packet_size)
          == num_packets * ENTRY_SIZE + num_packets * aligned_packet_size;
    }

    lemma StartIffEntryMatches(pbuf: nat)
      requires Valid()
      ensures IsPacketStart(pbuf) ==> ppackets <= pbuf <= buf_paddr + size
      ensures aligned_packet_size > 0 && num_packets == |pentries|
      ensures pbuf >= ppackets ==>
                (IsPacketStart(pbuf) <==> EntryIndex(pbuf) < num_packets && pentries[EntryIndex(pbuf)].pbuf == pbuf)
    {
      hide ListOk, Align4, Region, Fits, EntryIndex;
      if IsPacketStart(pbuf) {
        var i :| 0 <= i < num_packets && pbuf == ppackets + i * aligned_packet_size;
        EntryIndexOfStart(i);
      }
    }

    /** is_valid_pbuf: accepts exactly the packet starts. The slot past the table never matches. */
    method IsValidPbuf(pbuf: nat) returns (valid: bool)
      requires Valid()
      ensures valid <==> IsPacketStart(pbuf)
      ensures valid ==> EntryIndex(pbuf) < num_packets && pentries[EntryIndex(pbuf)].pbuf == pbuf
    {
      hide Valid, IsPacketStart, EntryIndex;
      StartIffEntryMatches(pbuf);
      if pbuf < ppackets { return false; }
      if pbuf > buf_paddr + size { return false; }
      var i := EntryIndex(pbuf);
      if i > num_packets { return false; }
      if i == num_packets { return false; }
      if pentries[i].pbuf != pbuf { return false; }
      return true;
    }
  
    /** pool_getbuf_try, and the region of the blocking forms that runs once a buffer is free. */
    method GetbufTry() returns (gotbuf: bool, pbuf: nat, len: nat)
      requires Valid()
      modifies this`pentries, this`freelist, this`usedlist
      ensures Valid()
      ensures gotbuf <==> old(State()).free != []
      ensures gotbuf ==> pbuf == old(State()).free[0] && len == packet_size && State() == Get(old(State()))
      ensures gotbuf ==>
                && State().free == old(State()).free[1..] && State().fifo == old(State()).fifo
                && State().used == old(State()).used + {pbuf}
      ensures !gotbuf ==> State() == old(State())
    {
      hide Laid, NoDup, Align4, UsedSet, Region, Fits;
      gotbuf, pbuf, len := false, 0, 0;
      if freelist != [] {
        var k := freelist[0];
        var e := pentries[k].(cur := UsedList);
        assert k in freelist;
        pbuf, len := pentries[k].pbuf, pentries[k].len;
        LeavesHead(pentries, freelist, FreeList, e);
        JoinsHead(pentries, usedlist, UsedList, k, e);
        Stays(pentries, fifolist, FifoList, k, e);
        BecomesUsed(pentries, k, e);
        LaidKept(pentries, k, e);
        pentries := pentries[k := e];
        usedlist := [k] + usedlist;
        freelist := freelist[1..];
        gotbuf := true;
      }
    }

    /** pool_freebuf: refuses anything that is not the start of a buffer in use. */
    method Freebuf(pbuf: nat) returns (err: bool)
      requires Valid()
      modifies this`pentries, this`freelist, this`usedlist
      ensures Valid()
      ensures err <==> pbuf !in old(State()).used
      ensures State() == Free(old(State()), pbuf)
      ensures err ==> State() == old(State())
      ensures !err ==>
                && State().free == old(State()).free + [pbuf] && State().fifo == old(State()).fifo
                && State().used == old(State()).used - {pbuf}
    {
      hide Laid, NoDup, Align4, UsedSet, Region, Fits;
      var valid := IsValidPbuf(pbuf);
      UsedAreStarts(pbuf);
      if !valid { return true; }
      var k := EntryIndex(pbuf);
      LaidIsDistinct(pentries, ppackets, aligned_packet_size);
      UsedIffEntryUsed(pentries, k);
      if pentries[k].cur != UsedList { return true; }
      var e := pentries[k].(cur := FreeList, len := packet_size);
      Leaves(pentries, usedlist, UsedList, k, e);
      JoinsTail(pentries, freelist, FreeList, k, e);
      Stays(pentries, fifolist, FifoList, k, e);
      StopsBeingUsed(pentries, k, e);
      LaidKept(pentries, k, e);
      pentries := pentries[k := e];
      usedlist := Without(usedlist, k);
      freelist := freelist + [k];
      err := false;
      assert Addresses(pentries, freelist) == old(Addresses(pentries, freelist)) + [pbuf];
    }

    /** pool_enqbuf. */
    method Enqbuf(pbuf: nat, len: nat, ooblen: nat, flags: nat) returns (err: bool)
      requires Valid()
      modifies this`pentries, this`fifolist, this`usedlist
      ensures Valid()
      ensures err <==> pbuf !in old(State()).used
      ensures State() == Enq(old(State()), Packet(pbuf, len, ooblen, flags))
      ensures err ==> State() == old(State())
      ensures !err ==>
                && State().free == old(State()).free && State().used == old(State()).used - {pbuf}
                && State().fifo == old(State()).fifo + [Packet(pbuf, len, ooblen, flags)]
    {
      hide Laid, NoDup, Align4, UsedSet, Region, Fits;
      var valid := IsValidPbuf(pbuf);
      UsedAreStarts(pbuf);
      if !valid { return true; }
      var k := EntryIndex(pbuf);
      LaidIsDistinct(pentries, ppackets, aligned_packet_size);
      UsedIffEntryUsed(pentries, k);
      if pentries[k].cur != UsedList { return true; }
      var e := Entry(pbuf, flags, len, ooblen, FifoList);
      Leaves(pentries, usedlist, UsedList, k, e);
      JoinsTail(pentries, fifolist, FifoList, k, e);
      Stays(pentries, freelist, FreeList, k, e);
      StopsBeingUsed(pentries, k, e);
      LaidKept(pentries, k, e);
      pentries := pentries[k := e];
      usedlist := Without(usedlist, k);
      fifolist := fifolist + [k];
      err := false;
      assert Packets(pentries, fifolist) == old(Packets(pentries, fifolist)) + [Packet(pbuf, len, ooblen, flags)];
    }

    /** pool_deqbuf_try, and the region of the blocking forms. */
    method DeqbufTry() returns (gotbuf: bool, pbuf: nat, len: nat, ooblen: nat, flags: nat)
      requires Valid()
      modifies this`pentries, this`fifolist, this`usedlist
      ensures Valid()
      ensures gotbuf <==> old(State()).fifo != []
      ensures gotbuf ==> Packet(pbuf, len, ooblen, flags) == old(State()).fifo[0] && State() == Deq(old(State()))
      ensures gotbuf ==>
                && State().free == old(State()).free && State().fifo == old(State()).fifo[1..]
                && State().used == old(State()).used + {pbuf}
      ensures !gotbuf ==> State() == old(State())
    {
      hide Laid, NoDup, Align4, UsedSet, Region, Fits;
      gotbuf, pbuf, len, ooblen, flags := false, 0, 0, 0, 0;
      if fifolist != [] {
        var k := fifolist[0];
        var e := pentries[k].(cur := UsedList);
        assert k in fifolist;
        pbuf, len, ooblen, flags := e.pbuf, e.len, e.ooblen, e.flags;
        LeavesHead(pentries, fifolist, FifoList, e);
        JoinsHead(pentries, usedlist, UsedList, k, e);
        Stays(pentries, freelist, FreeList, k, e);
        BecomesUsed(pentries, k, e);
        LaidKept(pentries, k, e);
        pentries := pentries[k := e];
        usedlist := [k] + usedlist;
        fifolist := fifolist[1..];
        gotbuf := true;
      }
    }

    /** In every valid pool each packet address is in exactly one of the queues and the set. */
    lemma StateIsPartition()
      requires Valid()
      ensures Partition(State(), AddressSet(ppackets, aligned_packet_size, num_packets))
    {
      LaidIsDistinct(pentries, ppackets, aligned_packet_size);
      TableIsPartition(pentries, freelist, fifolist, usedlist, ppackets, aligned_packet_size);
    }

    lemma LaidKept(entries: seq<Entry>, k: nat, e: Entry)
      requires Laid(entries, ppackets, aligned_packet_size) && k < |entries| && e.pbuf == entries[k].pbuf
      ensures Laid(entries[k := e], ppackets, aligned_packet_size)
    {
    }

    lemma UsedAreStarts(pbuf: nat)
      requires Valid()
      ensures pbuf in State().used ==> IsPacketStart(pbuf)
    {
    }
  
    /** A pool before pool_create: all zero. */
    constructor ()
      ensures size == 0 && buf_paddr == 0 && packet_size == 0
      ensures freelist == [] && fifolist == [] && usedlist == []
    {
      buf_paddr, size := 0, 0;
      freelist, fifolist, usedlist := [], [], [];
      packet_size, aligned_packet_size, num_packets, ppackets, pentries := 0, 0, 0, 0, [];
    }

    /** pool_create: the region is known, nothing is laid out in it yet; an earlier layout keeps its sizes. */
    method Create(paddr: nat, bytes: nat)
      modifies this`buf_paddr, this`size, this`freelist, this`fifolist, this`usedlist
      ensures buf_paddr == paddr && size == bytes
      ensures freelist == [] && fifolist == [] && usedlist == []
    {
      size, buf_paddr := bytes, paddr;
      freelist, fifolist, usedlist := [], [], [];
    }

    /**
     pool_resize. There must be room for a packet and a page of entries; then the region is
     cut into as many packets as fit, at most `max_packets`, all of them free.
     */
    method Resize(new_size: nat, max_packets: nat) returns (err: bool)
      requires Region(buf_paddr, size)
      modifies this
      ensures size == old(size) && buf_paddr == old(buf_paddr)
      ensures err <==> !Fits(new_size, size)
      ensures err ==> unchanged(this)
      ensures !err ==>
                && packet_size == new_size && aligned_packet_size == Align4(new_size) && ppackets == buf_paddr
                && num_packets == PacketsIn(size, new_size, max_packets)
      ensures !err && PAGE <= size && max_packets >= 1 ==> num_packets >= 1
      ensures !err && new_size > 0 ==> Valid() && State() == AllFree(ppackets, aligned_packet_size, num_packets)
    {
      hide Align4, ListOk, Laid, Addresses, Packets, UsedSet, AllFree, FreshEntries, Down, Sub;
      if new_size > Sub(size, PAGE) { return true; }
      packet_size := new_size;
      aligned_packet_size := Align4(new_size);
      var alloc_per_packet := ENTRY_SIZE + aligned_packet_size;
      num_packets := Min(Quotient(size, alloc_per_packet), max_packets);
      PacketCount(size, new_size, max_packets);
      ppackets := buf_paddr;
      pentries, freelist, fifolist, usedlist := [], [], [], [];
      FillEntries();
      FreshIsAllFree(ppackets, aligned_packet_size, packet_size, num_packets);
      err := false;
    }

    /** The loop of pool_resize over the zeroed entry table. */
    method FillEntries()
      requires pentries == [] && freelist == []
      modifies this`pentries, this`freelist
      ensures pentries == FreshEntries(ppackets, aligned_packet_size, packet_size, num_packets)
      ensures freelist == Down(num_packets)
    {
      hide FreshEntries, Down;
      var i := 0;
      FreshStep(ppackets, aligned_packet_size, packet_size, 0);
      while i < num_packets
        invariant 0 <= i <= num_packets
        invariant pentries == FreshEntries(ppackets, aligned_packet_size, packet_size, i) && freelist == Down(i)
      {
        FreshStep(ppackets, aligned_packet_size, packet_size, i);
        pentries := pentries + [Entry(ppackets + i * aligned_packet_size, 0, packet_size, 0, FreeList)];
        freelist := [i] + freelist;
        i := i + 1;
      }
    }

    /** pool_flush: the same layout again, everything free. */
    method Flush() returns (err: bool)
      requires Region(buf_paddr, size)
      modifies this
      ensures size == old(size) && buf_paddr == old(buf_paddr) && packet_size == old(packet_size)
      ensures err ==> unchanged(this)
      ensures old(Valid()) ==>
                && !err && Valid()
                && num_packets == old(num_packets) && ppackets == old(ppackets)
                && aligned_packet_size == old(aligned_packet_size)
                && State() == AllFree(ppackets, aligned_packet_size, num_packets)
    {
      hide Align4, ListOk, Laid, Addresses, Packets, UsedSet, AllFree, Fits, PacketsIn;
      PacketCount(size, packet_size, num_packets);
      err := Resize(packet_size, num_packets);
    }

    /** Packets do not overlap and lie in the region; the address of each leads back to its entry. */
    lemma Layout(i: nat, j: nat)
      requires Valid() && i < j < num_packets
      ensures buf_paddr <= pentries[i].pbuf && pentries[j].pbuf + packet_size <= buf_paddr + size
      ensures pentries[i].pbuf + packet_size <= pentries[j].pbuf
      ensures EntryIndex(pentries[i].pbuf) == i && EntryIndex(pentries[j].pbuf) == j
    {
      hide ListOk;
      EntryIndexOfStart(i);
      EntryIndexOfStart(j);
      MulMono(i, j, aligned_packet_size);
    }
  }

  function Min(a: nat, b: nat): nat {
    if a <= b then a else b
  }

  /** As many packets, each with its entry, as the region has room for. */
  function PacketsIn(size: nat, packet: nat, max_packets: nat): nat {
    Min(Quotient(size, ENTRY_SIZE + Align4(packet)), max_packets)
  }

  function Quotient(x: nat, a: nat): nat
    requires a > 0
  {
    x / a
  }

  /** As many packets as fit beside their 56-byte entries, and no more than asked for. */
  lemma PacketCount(size: nat, packet: nat, max_packets: nat)
    ensures PacketsIn(size, packet, max_packets) * (ENTRY_SIZE + Align4(packet)) <= size
    ensures max_packets >= 1 && ENTRY_SIZE + Align4(packet) <= size ==> PacketsIn(size, packet, max_packets) >= 1
    ensures max_packets * (ENTRY_SIZE + Align4(packet)) <= size ==>
              PacketsIn(size, packet, max_packets) == max_packets
    ensures var n := PacketsIn(size, packet, max_packets);
            n <= max_packets && (n < max_packets ==> size < (n + 1) * (56 + Align4(packet)))
  {
    hide Align4, Quotient;
    var alloc := ENTRY_SIZE + Align4(packet);
    DivIsGreatest(size, alloc, 1);
    DivIsGreatest(size, alloc, max_packets);
    DivIsGreatest(size, alloc, Quotient(size, alloc) + 1);
    var n, most := PacketsIn(size, packet, max_packets), Quotient(size, alloc);
    if n < most {
      MulMono(n, most, alloc);
    }
  }
}
