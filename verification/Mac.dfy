/** Serial numbers to MAC addresses, and which Ethernet ports get them. */
module Mac {
  import opened Options
  import opened Bytes

  /** "ABCDEFGHJKLMNPQRSTUVWXYZ23456789": 32 characters, without 0, 1, I and O. */
  const CHARMAP: seq<Byte> :=
    [65, 66, 67, 68, 69, 70, 71, 72, 74, 75, 76, 77, 78, 80, 81, 82,
     83, 84, 85, 86, 87, 88, 89, 90, 50, 51, 52, 53, 54, 55, 56, 57]

  const SN_LEN := 5
  const OUI := 0x002168
  const NIC := 0x100_0000

  /** toupper */
  function Upper(b: Byte): Byte {
    if 97 <= b <= 122 then b - 32 else b
  }

  function UpperAll(s: seq<Byte>): (r: seq<Byte>)
    ensures |r| == |s| && forall i :: 0 <= i < |s| ==> r[i] == Upper(s[i])
  {
    seq(|s|, i requires 0 <= i < |s| => Upper(s[i]))
  }

  /** Position of a character in the map, in closed form; 32 when it is not there. */
  function Digit(b: Byte): (d: nat)
    ensures d <= 32
  {
    var u := Upper(b);
    if 65 <= u <= 72 then u - 65
    else if 74 <= u <= 78 then u - 66
    else if 80 <= u <= 90 then u - 67
    else if 50 <= u <= 57 then u - 26
    else 32
  }

  predicate InMap(sn: seq<Byte>) {
    forall i :: 0 <= i < |sn| ==> Digit(sn[i]) < 32
  }

  /** The serial number as a base-32 number. */
  function Value(sn: seq<Byte>): nat {
    if sn == [] then 0 else 32 * Value(sn[..|sn| - 1]) + Digit(sn[|sn| - 1])
  }

  /** The serials that get an address: five map characters, value below 2^23. */
  predicate Accepted(sn: seq<Byte>) {
    |sn| == SN_LEN && InMap(sn) && Value(sn) < 0x80_0000
  }

  /** The inner loop: the first map position that matches. */
  method Find(c: Byte) returns (j: nat)
    ensures j == Digit(c)
  {
    j := 0;
    while j < 32
      invariant 0 <= j <= 32
      invariant forall k :: 0 <= k < j ==> Upper(c) != CHARMAP[k]
    {
      if Upper(c) == CHARMAP[j] { break; }
      j := j + 1;
    }
    DigitIsPosition(c, j);
  }

  lemma DigitIsPosition(c: Byte, j: nat)
    requires j <= 32 && (j < 32 ==> CHARMAP[j] == Upper(c)) && (forall k :: 0 <= k < j ==> Upper(c) != CHARMAP[k])
    ensures j == Digit(c)
  {
    if Digit(c) < 32 {
      CharAt(c);
    }
    if j < 32 {
      MapAt(j);
    }
  }

  lemma CharAt(c: Byte)
    requires Digit(c) < 32
    ensures CHARMAP[Digit(c)] == Upper(c)
  {
    MapAt(Digit(c));
  }

  lemma MapAt(j: nat)
    requires j < 32
    ensures CHARMAP[j] == if j < 8 then 65 + j else if j < 13 then 66 + j else if j < 24 then 67 + j else 26 + j
  {
  }

  /** sn_to_mac: zero means no address. */
  method SnToMac(sn: seq<Byte>) returns (mac: nat)
    ensures mac != 0 <==> Accepted(sn)
    ensures mac != 0 ==> mac == OUI * NIC + 2 * Value(sn)
  {
    if |sn| != SN_LEN { return 0; }
    var numeric_sn := 0;
    for i := 0 to SN_LEN
      invariant InMap(sn[..i]) && numeric_sn == Value(sn[..i])
    {
      var j := Find(sn[i]);
      assert sn[..i + 1][..i] == sn[..i];
      if j >= 32 {
        assert !InMap(sn);
        return 0;
      }
      numeric_sn := numeric_sn * 32 + j;
    }
    assert sn[..5] == sn;
    numeric_sn := numeric_sn * 2;
    if numeric_sn > 0xFFFFFF { return 0; }
    mac := OUI * NIC + numeric_sn;
  }

  lemma DigitInjective(a: Byte, b: Byte)
    requires Digit(a) == Digit(b) < 32
    ensures Upper(a) == Upper(b)
  {
  }

  lemma {:induction false} ValueInjective(s: seq<Byte>, t: seq<Byte>)
    requires |s| == |t| && InMap(s) && InMap(t)
    ensures Value(s) == Value(t) <==> UpperAll(s) == UpperAll(t)
  {
    hide Digit, Upper;
    if s != [] {
      var n := |s| - 1;
      var x, y := s[..n], t[..n];
      ValueInjective(x, y);
      assert UpperAll(s) == UpperAll(x) + [Upper(s[n])];
      assert UpperAll(t) == UpperAll(y) + [Upper(t[n])];
      if Value(s) == Value(t) {
        DigitInjective(s[n], t[n]);
      } else if UpperAll(s) == UpperAll(t) {
        LastUpper(s, t);
        assert false;
      }
    }
  }

  lemma LastUpper(s: seq<Byte>, t: seq<Byte>)
    requires |s| == |t| && s != [] && UpperAll(s) == UpperAll(t)
    ensures var n := |s| - 1; UpperAll(s[..n]) == UpperAll(t[..n]) && Digit(s[n]) == Digit(t[n])
  {
    var n := |s| - 1;
    assert UpperAll(s)[..n] == UpperAll(s[..n]) && UpperAll(t)[..n] == UpperAll(t[..n]);
    assert UpperAll(s)[n] == UpperAll(t)[n];
  }

  function MacOf(sn: seq<Byte>): nat {
    OUI * NIC + 2 * Value(sn)
  }

  /**
   Accepted serials share an address exactly when they differ only in case; otherwise their
   address pairs are disjoint. Every pair stays under the OUI.
   */
  lemma MacPairsDisjoint(a: seq<Byte>, b: seq<Byte>)
    requires Accepted(a) && Accepted(b)
    ensures MacOf(a) == MacOf(b) <==> UpperAll(a) == UpperAll(b)
    ensures UpperAll(a) != UpperAll(b) ==> {MacOf(a), MacOf(a) + 1} !! {MacOf(b), MacOf(b) + 1}
    ensures MacOf(a) / NIC == (MacOf(a) + 1) / NIC == OUI
  {
    hide Value, UpperAll, InMap;
    ValueInjective(a, b);
  }

  lemma ValueStep(s: seq<Byte>, b: Byte)
    ensures Value(s + [b]) == 32 * Value(s) + Digit(b)
  {
    assert (s + [b])[..|s|] == s;
  }

  /** A five-character serial, digit by digit. */
  lemma FiveDigits(a: Byte, b: Byte, c: Byte, d: Byte, e: Byte)
    ensures Value([a, b, c, d, e]) == 1048576 * Digit(a) + 32768 * Digit(b) + 1024 * Digit(c) + 32 * Digit(d) + Digit(e)
    ensures InMap([a, b, c, d, e]) <==>
            Digit(a) < 32 && Digit(b) < 32 && Digit(c) < 32 && Digit(d) < 32 && Digit(e) < 32
  {
    hide Value, Digit;
    var s := [a, b, c, d, e];
    assert s[0] == a && s[1] == b && s[2] == c && s[3] == d && s[4] == e;
    EmptyValue();
    ValueStep([], a);
    ValueStep([a], b);
    ValueStep([a, b], c);
    ValueStep([a, b, c], d);
    ValueStep([a, b, c, d], e);
    assert [] + [a] == [a] && [a] + [b] == [a, b] && [a, b] + [c] == [a, b, c];
    assert [a, b, c] + [d] == [a, b, c, d] && [a, b, c, d] + [e] == s;
  }

  lemma EmptyValue()
    ensures Value([]) == 0
  {
  }

  /** The values U-Boot checks: C6J36, B9LYW, AAAAA, H9999, JAAAA, ABCDE and abcde, AA0AA, AA#AA. */
  lemma KnownSerials()
    ensures Accepted([67, 54, 74, 51, 54]) && MacOf([67, 54, 74, 51, 54]) == 0x0021685C4678
    ensures Accepted([66, 57, 76, 89, 87]) && MacOf([66, 57, 76, 89, 87]) == 0x0021683F55A8
    ensures Accepted([65, 65, 65, 65, 65]) && MacOf([65, 65, 65, 65, 65]) == 0x002168000000
    ensures Accepted([72, 57, 57, 57, 57]) && MacOf([72, 57, 57, 57, 57]) == 0x002168FFFFFE
    ensures !Accepted([74, 65, 65, 65, 65])
    ensures Accepted([65, 66, 67, 68, 69]) && Accepted([97, 98, 99, 100, 101])
    ensures MacOf([65, 66, 67, 68, 69]) == MacOf([97, 98, 99, 100, 101])
    ensures !Accepted([65, 65, 48, 65, 65]) && !Accepted([65, 65, 35, 65, 65])
  {
    hide Value, InMap;
    FiveDigits(67, 54, 74, 51, 54);
    FiveDigits(66, 57, 76, 89, 87);
    FiveDigits(65, 65, 65, 65, 65);
    FiveDigits(72, 57, 57, 57, 57);
    FiveDigits(74, 65, 65, 65, 65);
    FiveDigits(65, 66, 67, 68, 69);
    FiveDigits(97, 98, 99, 100, 101);
    FiveDigits(65, 65, 48, 65, 65);
    FiveDigits(65, 65, 35, 65, 65);
  }

  predicate DistinctNonzero(macs: seq<nat>) {
    forall i, j :: 0 <= i < j < |macs| && macs[i] != 0 ==> macs[i] != macs[j]
  }

  predicate HasMac(sn: Option<seq<Byte>>) {
    sn.Some? && Accepted(sn.value)
  }

  /** One pair of addresses on two neighbouring ports, the other ports empty. */
  predicate OnPorts(macs: seq<nat>, sn: seq<Byte>, port: nat) {
    && |macs| == 4
    && forall i :: 0 <= i < 4 ==>
         macs[i] == if i == port then MacOf(sn) else if i == port + 1 then MacOf(sn) + 1 else 0
  }

  /** set_mac_addrs up to the table of four addresses; a missing serial is None. */
  method MacTable(zynq: bool, mb_sn: Option<seq<Byte>>, io_sn: Option<seq<Byte>>) returns (macs: seq<nat>)
    ensures !HasMac(mb_sn) && !HasMac(io_sn) ==> macs == [0, 0, 0, 0]
    ensures HasMac(mb_sn) && (zynq || !HasMac(io_sn)) ==> OnPorts(macs, mb_sn.value, if zynq then 0 else 2)
    ensures HasMac(io_sn) && !HasMac(mb_sn) ==> OnPorts(macs, io_sn.value, if zynq then 0 else 2)
    ensures HasMac(mb_sn) && HasMac(io_sn) && !zynq ==>
              macs == [MacOf(mb_sn.value), MacOf(mb_sn.value) + 1, MacOf(io_sn.value), MacOf(io_sn.value) + 1]
    ensures DistinctNonzero(macs) <==>
            zynq || !HasMac(mb_sn) || !HasMac(io_sn) || UpperAll(mb_sn.value) != UpperAll(io_sn.value)
  {
    hide Accepted, UpperAll, Value;
    var mb_mac, io_mac := 0, 0;
    if mb_sn.Some? { mb_mac := SnToMac(mb_sn.value); }
    if io_sn.Some? { io_mac := SnToMac(io_sn.value); }
    if HasMac(mb_sn) && HasMac(io_sn) {
      MacPairsDisjoint(mb_sn.value, io_sn.value);
    }
    macs := [0, 0, 0, 0];
    if zynq {
      if mb_mac != 0 {
        macs := [mb_mac, mb_mac + 1, 0, 0];
      } else if io_mac != 0 {
        macs := [io_mac, io_mac + 1, 0, 0];
      }
    } else {
      if mb_mac != 0 && io_mac != 0 {
        macs := [mb_mac, mb_mac + 1, io_mac, io_mac + 1];
        assert macs[0] == macs[2] <==> UpperAll(mb_sn.value) == UpperAll(io_sn.value);
      } else if mb_mac != 0 {
        macs := [0, 0, mb_mac, mb_mac + 1];
      } else if io_mac != 0 {
        macs := [0, 0, io_mac, io_mac + 1];
      }
    }
  }
}
