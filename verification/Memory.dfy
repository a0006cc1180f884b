/** memcpy, memset and the overlapping moves of the FRU editor, as whole-memory effects. */
module Memory {
  import opened Bytes

  /** A memory that differs from `m` only by `bs` at `at`. */
  lemma IsSplice(m: seq<Byte>, r: seq<Byte>, at: nat, bs: seq<Byte>)
    requires |r| == |m| && at + |bs| <= |m| && r[at..at + |bs|] == bs
    requires forall k :: 0 <= k < at || at + |bs| <= k < |m| ==> r[k] == m[k]
    ensures r == Splice(m, at, bs)
  {
    assert r == r[..at] + r[at..at + |bs|] + r[at + |bs|..];
  }

  /** memcpy from a separate buffer. */
  method Copy(mem: array<Byte>, address: nat, data: seq<Byte>)
    requires address + |data| <= mem.Length
    modifies mem
    ensures mem[..] == Splice(old(mem[..]), address, data)
  {
    hide Splice;
    var i := 0;
    while i < |data|
      invariant 0 <= i <= |data|
      invariant forall k :: 0 <= k < i ==> mem[address + k] == data[k]
      invariant forall k :: 0 <= k < mem.Length && !(address <= k < address + i) ==> mem[k] == old(mem[k])
    {
      mem[address + i] := data[i];
      i := i + 1;
    }
    assert mem[address..address + |data|] == data;
    IsSplice(old(mem[..]), mem[..], address, data);
  }

  /** memset to zero. */
  method Clear(mem: array<Byte>, address: nat, n: nat)
    requires address + n <= mem.Length
    modifies mem
    ensures mem[..] == Splice(old(mem[..]), address, Zeros(n))
  {
    hide Splice;
    Copy(mem, address, Zeros(n));
  }

  /** The backward loop that opens a gap of `n` bytes at `address`. */
  method ShiftUp(mem: array<Byte>, address: nat, end: nat, n: nat)
    requires address <= end && end + n <= mem.Length
    modifies mem
    ensures mem[..] == Splice(old(mem[..]), address + n, old(mem[address..end]))
  {
    hide Splice;
    ghost var orig := mem[..];
    var temp: int := end - 1;
    IsSplice(orig, orig, end + n, orig[end..end]);
    while temp >= address
      invariant address - 1 <= temp < end
      invariant mem[..] == Splice(orig, temp + 1 + n, orig[temp + 1..end])
      decreases temp
    {
      ShiftStep(orig, temp, end, n);
      ghost var before := mem[..];
      mem[temp + n] := mem[temp];
      assert mem[..] == before[temp + n := before[temp]];
      temp := temp - 1;
    }
    assert orig[address..end] == old(mem[address..end]);
  }

  lemma ShiftStep(m: seq<Byte>, t: nat, end: nat, n: nat)
    requires t < end && end + n <= |m|
    ensures var before := Splice(m, t + 1 + n, m[t + 1..end]);
            before[t + n := before[t]] == Splice(m, t + n, m[t..end])
  {
    var before := Splice(m, t + 1 + n, m[t + 1..end]);
    assert m[t..end] == [m[t]] + m[t + 1..end];
  }

  /** The overlapping forward copy that closes a gap of `n` bytes at `address`. */
  method ShiftDown(mem: array<Byte>, address: nat, end: nat, n: nat)
    requires address + n <= end <= mem.Length
    modifies mem
    ensures mem[..] == Splice(old(mem[..]), address, old(mem[address + n..end]))
  {
    hide Splice;
    ghost var orig := mem[..];
    var i := address;
    while i < end - n
      invariant address <= i <= end - n
      invariant forall k :: address <= k < i ==> mem[k] == orig[k + n]
      invariant forall k :: 0 <= k < address || i <= k < mem.Length ==> mem[k] == orig[k]
    {
      mem[i] := mem[i + n];
      i := i + 1;
    }
    assert mem[address..end - n] == orig[address + n..end];
    IsSplice(orig, mem[..], address, orig[address + n..end]);
  }
}
