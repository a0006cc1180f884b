/** Bytes, byte sums and the in-place write effect shared by the FRU modules. */
module Bytes {

  /** An unsigned 8-bit value (plain `char` is unsigned on the ARM targets). */
  type Byte = b: int | 0 <= b < 256

  function Sum(s: seq<Byte>): nat {
    if |s| == 0 then 0 else Sum(s[..|s| - 1]) + s[|s| - 1]
  }

  /** The byte that makes a region sum to zero modulo 256. */
  function Checksum(s: seq<Byte>): (c: Byte)
    ensures (Sum(s) + c) % 256 == 0
  {
    (256 - Sum(s) % 256) % 256
  }

  function Zeros(n: nat): (z: seq<Byte>)
    ensures |z| == n && forall i :: 0 <= i < n ==> z[i] == 0
  {
    seq(n, _ => 0)
  }

  /** `m` with the bytes from `at` on overwritten by `bs`. */
  function Splice(m: seq<Byte>, at: nat, bs: seq<Byte>): (r: seq<Byte>)
    requires at + |bs| <= |m|
    ensures |r| == |m|
    ensures r[at..at + |bs|] == bs
    ensures forall i :: 0 <= i < at || at + |bs| <= i < |m| ==> r[i] == m[i]
  {
    m[..at] + bs + m[at + |bs|..]
  }

  /** A region written as two parts is those parts, slice by slice. */
  lemma SliceParts(m: seq<Byte>, lo: nat, mid: nat, hi: nat, x: seq<Byte>, y: seq<Byte>)
    requires lo <= mid <= hi <= |m|
    requires m[lo..hi] == x + y && |x| == mid - lo
    ensures m[lo..mid] == x && m[mid..hi] == y
  {
    assert m[lo..hi][..mid - lo] == m[lo..mid];
    assert m[lo..hi][mid - lo..] == m[mid..hi];
  }

  lemma SliceOfSlice(m: seq<Byte>, lo: nat, hi: nat, i: nat, j: nat)
    requires lo <= hi <= |m| && i <= j <= hi - lo
    ensures m[lo..hi][i..j] == m[lo + i..lo + j]
  {
    var x, y := m[lo..hi][i..j], m[lo + i..lo + j];
    assert forall k :: 0 <= k < |x| ==> x[k] == m[lo + i + k] == y[k];
  }

  lemma PrefixSlice(m: seq<Byte>, n: nat, i: nat, j: nat)
    requires i <= j <= n <= |m|
    ensures m[..n][i..j] == m[i..j]
  {
    SliceOfSlice(m, 0, n, i, j);
  }

  lemma JoinSlices(m: seq<Byte>, i: nat, j: nat, k: nat)
    requires i <= j <= k <= |m|
    ensures m[i..j] + m[j..k] == m[i..k]
  {
  }

  /** Writing at `at` leaves every slice that ends before it or starts after it. */
  lemma SpliceElsewhere(m: seq<Byte>, at: nat, bs: seq<Byte>, lo: nat, hi: nat)
    requires at + |bs| <= |m| && lo <= hi <= |m|
    requires hi <= at || at + |bs| <= lo
    ensures Splice(m, at, bs)[lo..hi] == m[lo..hi]
  {
  }

  lemma {:induction false} SumAppend(s: seq<Byte>, t: seq<Byte>)
    ensures Sum(s + t) == Sum(s) + Sum(t)
  {
    if |t| == 0 {
      assert s + t == s;
    } else {
      var r := s + t;
      assert r[..|r| - 1] == s + t[..|t| - 1];
      SumAppend(s, t[..|t| - 1]);
    }
  }

  lemma SumStep(m: seq<Byte>, lo: nat, i: nat)
    requires lo + i < |m|
    ensures Sum(m[lo..lo]) == 0 && Sum(m[lo..lo + i + 1]) == Sum(m[lo..lo + i]) + m[lo + i]
  {
    assert m[lo..lo + i + 1][..i] == m[lo..lo + i];
  }

  /** Adding byte by byte modulo 256. */
  lemma ModStep(x: nat, b: Byte)
    ensures (x % 256 + b) % 256 == (x + b) % 256
  {
  }

  lemma ClosesIff(x: nat, c: Byte)
    ensures (x + c) % 256 == 0 <==> c == (256 - x % 256) % 256
  {
    var r := x % 256;
    ModStep(x, c);
    assert 0 <= r + c < 512;
  }

  /** Appending its checksum to a region makes the region sum to zero, and no other byte does. */
  lemma ChecksumClosesSum(s: seq<Byte>, c: Byte)
    ensures Sum(s + [c]) % 256 == 0 <==> c == Checksum(s)
  {
    assert (s + [c])[..|s|] == s;
    assert Sum(s + [c]) == Sum(s) + c;
    ClosesIff(Sum(s), c);
  }

  lemma SumUpdate(s: seq<Byte>, i: nat, b: Byte)
    requires i < |s|
    ensures Sum(s[i := b]) == Sum(s) - s[i] + b
  {
    SumAround(s, i);
    SumAround(s[i := b], i);
    assert s[i := b][..i] == s[..i] && s[i := b][i + 1..] == s[i + 1..];
  }

  lemma SumAround(s: seq<Byte>, i: nat)
    requires i < |s|
    ensures Sum(s) == Sum(s[..i]) + s[i] + Sum(s[i + 1..])
  {
    assert s == s[..i + 1] + s[i + 1..];
    SumAppend(s[..i + 1], s[i + 1..]);
    assert s[..i + 1][..i] == s[..i];
  }

  lemma {:induction false} SumOfZeros(s: seq<Byte>)
    requires forall i :: 0 <= i < |s| ==> s[i] == 0
    ensures Sum(s) == 0
  {
    if s != [] {
      SumOfZeros(s[..|s| - 1]);
    }
  }
}
