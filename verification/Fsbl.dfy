/** The first-stage boot loader's fixed-structure reader of the same image. */
module Fsbl {
  import opened Options
  import opened Bytes
  import opened FruSpec
  import opened FruValidate
  import opened FruEdit
  import opened FruDate
  import opened FruCreate
  import Boot

  // Offsets in struct iv_ipmi.
  const MFR := 15
  const NAME := 26
  const SN := 43
  const PN := 54
  const IPMI_SIZE := 72

  /** validate_ipmi: both areas sum to zero in an unsigned char, and the board version is 1. */
  method ValidateIpmi(ipmi: seq<Byte>) returns (ret: int)
    requires |ipmi| == IPMI_SIZE
    ensures ret == 0 <==> Sum(ipmi[..8]) % 256 == 0 && Sum(ipmi[8..]) % 256 == 0 && ipmi[8] == 1
    ensures ret == 0 || ret == -1
  {
    var sum := SumBytes(ipmi[..8]);
    if sum != 0 { return -1; }
    sum := SumBytes(ipmi[8..]);
    if sum != 0 { return -1; }
    if ipmi[8] != 1 { return -1; }
    return 0;
  }

  method SumBytes(p: seq<Byte>) returns (sum: int)
    ensures 0 <= sum < 256 && sum == Sum(p) % 256
  {
    hide Sum;
    sum := 0;
    SumOfZeros(p[..0]);
    for i := 0 to |p|
      invariant 0 <= sum < 256 && sum == Sum(p[..i]) % 256
    {
      SumStep(p, 0, i);
      assert p[0..i] == p[..i] && p[0..i + 1] == p[..i + 1];
      ModStep(Sum(p[..i]), p[i]);
      sum := (sum + p[i]) % 256;
    }
    assert p[..|p|] == p;
  }

  // ------------------------------------------------------------- the C library

  /** strchr as an offset; the string ends at its first NUL. */
  function IndexOf(s: seq<Byte>, c: Byte): Option<nat> {
    if s == [] || (s[0] == 0 && c != 0) then None
    else if s[0] == c then Some(0)
    else match IndexOf(s[1..], c)
      case None => None
      case Some(i) => Some(i + 1)
  }

  predicate IsSpaceChar(c: Byte) {
    c == 32 || 9 <= c <= 13
  }

  function SkipSpaces(s: seq<Byte>): seq<Byte> {
    if s != [] && IsSpaceChar(s[0]) then SkipSpaces(s[1..]) else s
  }

  function Unsigned(s: seq<Byte>): int {
    Decimal(s[..DigitsEnd(s, 0)])
  }

  /** atoi, without the overflow of a 32-bit int. */
  function Atoi(s: seq<Byte>): int {
    var t := SkipSpaces(s);
    if t != [] && t[0] == 45 then -Unsigned(t[1..])
    else if t != [] && t[0] == 43 then Unsigned(t[1..])
    else Unsigned(t)
  }

  /** get_pn_ord: the number after the first dash of the part number field, or -1. */
  function PnOrdinal(ipmi: seq<Byte>): int
    requires |ipmi| == IPMI_SIZE
  {
    var pn := ipmi[PN..PN + 15];
    match IndexOf(pn, 45)
    case None => -1
    case Some(i) => if i < |pn| then Atoi(pn[i + 1..]) else -1
  }

  // ---------------------------------------------------------------- the theorem

  /** The image is the fixed structure, field by field. */
  predicate IsStruct(ipmi: seq<Byte>, strs: seq<seq<Byte>>)
    requires |ipmi| == IPMI_SIZE && |strs| == PREDEF && LengthsOk(strs, DEFAULT_LENGTHS)
  {
    && ipmi[..8] == CH_DEFAULT && ipmi[8] == 1 && ipmi[9] == 8 && ipmi[10] == 0
    && ipmi[14] == 0xC0 + 10 && ipmi[MFR..25] == PaddedText(strs[0], 10)
    && ipmi[25] == 0xC0 + 16 && ipmi[NAME..42] == PaddedText(strs[1], 16)
    && ipmi[42] == 0xC0 + 10 && ipmi[SN..53] == PaddedText(strs[2], 10)
    && ipmi[53] == 0xC0 + 15 && ipmi[PN..69] == PaddedText(strs[3], 15)
    && ipmi[69] == 0 && ipmi[70] == 0xC1 && Sum(ipmi[8..]) % 256 == 0
  }

  /** The four default fields and the offsets they start at inside the board area. */
  lemma {:induction false} DefaultFieldBytes(strs: seq<seq<Byte>>, x: seq<Byte>)
    requires |strs| == PREDEF && LengthsOk(strs, DEFAULT_LENGTHS)
    requires x == FieldsBytes(TextFields(strs, DEFAULT_LENGTHS))
    ensures |x| == 55
    ensures x[0] == 0xCA && x[1..11] == PaddedText(strs[0], 10)
    ensures x[11] == 0xD0 && x[12..28] == PaddedText(strs[1], 16)
    ensures x[28] == 0xCA && x[29..39] == PaddedText(strs[2], 10)
    ensures x[39] == 0xCF && x[40..55] == PaddedText(strs[3], 15)
  {
    hide FieldsBytes, LengthsOk, PaddedText;
    var fs := TextFields(strs, DEFAULT_LENGTHS);
    FourFields(fs);
    hide TextFields;
    var a, b, c, d := FieldBytes(fs[0]), FieldBytes(fs[1]), FieldBytes(fs[2]), FieldBytes(fs[3]);
    assert x[..39] == a + b + c && x[39..] == d;
    assert x[..28] == x[..39][..28] == a + b && x[28..39] == x[..39][28..] == c;
    assert x[..11] == x[..28][..11] == a && x[11..28] == x[..28][11..] == b;
    assert x[1..11] == x[..11][1..] && x[12..28] == x[11..28][1..];
    assert x[29..39] == x[28..39][1..] && x[40..55] == x[39..][1..];
  }

  /** Every image ivfru_create makes is laid out as the boot loader's structure. */
  lemma {:induction false} CreatedIsStruct(m: seq<Byte>, date: seq<Byte>, strs: seq<seq<Byte>>)
    requires |date| == 3 && |strs| == PREDEF && LengthsOk(strs, DEFAULT_LENGTHS)
    requires Readable(m) && Holds(m, Image(CH_DEFAULT, CreatedBoard(date, strs, DEFAULT_LENGTHS)))
    ensures |m| >= IPMI_SIZE && IsStruct(m[..IPMI_SIZE], strs)
  {
    hide FieldsBytes, LengthsOk, PaddedText, BoardVerdict, Checksum, Laid, PrintBoard, CreatedBoard;
    var t := CreatedBoard(date, strs, DEFAULT_LENGTHS);
    var s := Image(CH_DEFAULT, t);
    HeldImageIsValid(m, s);
    DefaultSize(date, strs);
    var b := BoardArea(m);
    var ipmi := m[..IPMI_SIZE];
    assert ipmi[8..] == b && ipmi[..8] == m[..8];
    CreatedBoardLaid(date, strs, b);
    DefaultFieldBytes(strs, b[6..61]);
    StructSlices(ipmi, b);
  }

  lemma StructSlices(ipmi: seq<Byte>, b: seq<Byte>)
    requires |ipmi| == IPMI_SIZE && ipmi[8..] == b
    ensures ipmi[8] == b[0] && ipmi[9] == b[1] && ipmi[10] == b[2] && ipmi[69] == b[61] && ipmi[70] == b[62]
    ensures var x := b[6..61];
            && ipmi[14] == x[0] && ipmi[15..25] == x[1..11] && ipmi[25] == x[11] && ipmi[26..42] == x[12..28]
            && ipmi[42] == x[28] && ipmi[43..53] == x[29..39] && ipmi[53] == x[39] && ipmi[54..69] == x[40..55]
  {
    var x := ipmi[14..69];
    assert x == b[6..61];
    assert ipmi[15..25] == x[1..11] && ipmi[26..42] == x[12..28] && ipmi[43..53] == x[29..39];
    assert x[0] == ipmi[14] && x[11] == ipmi[25] && x[28] == ipmi[42] && x[39] == ipmi[53];
  }

  lemma {:induction false} CreatedBoardLaid(date: seq<Byte>, strs: seq<seq<Byte>>, b: seq<Byte>)
    requires |date| == 3 && |strs| == PREDEF && LengthsOk(strs, DEFAULT_LENGTHS)
    requires b == PrintBoard(CreatedBoard(date, strs, DEFAULT_LENGTHS), false)
    ensures |b| == 64 && b[0] == 1 && b[1] == 8 && b[2] == 0
    ensures b[6..61] == FieldsBytes(TextFields(strs, DEFAULT_LENGTHS))
    ensures b[61] == 0 && b[62] == END && Sum(b) % 256 == 0
  {
    hide FieldsBytes, LengthsOk, TextFields, BoardBody;
    var t := CreatedBoard(date, strs, DEFAULT_LENGTHS);
    DefaultSize(date, strs);
    CreatedSize(date, strs, DEFAULT_LENGTHS);
    EmptyFields();
    PrintingIsLaid(t, 8, b);
    assert b[0] == b[..3][0] && b[1] == b[..3][1] && b[2] == b[..3][2];
    assert b == b[..63] + [b[63]];
    ChecksumClosesSum(b[..63], b[63]);
  }

  /** So it passes validate_ipmi. */
  lemma StructPassesValidation(ipmi: seq<Byte>, strs: seq<seq<Byte>>)
    requires |ipmi| == IPMI_SIZE && |strs| == PREDEF && LengthsOk(strs, DEFAULT_LENGTHS) && IsStruct(ipmi, strs)
    ensures Sum(ipmi[..8]) % 256 == 0 && Sum(ipmi[8..]) % 256 == 0 && ipmi[8] == 1
  {
    hide LengthsOk, PaddedText;
    DefaultHeaderIsWf();
    assert CH_DEFAULT == CH_DEFAULT[..7] + [0xFE];
    ChecksumClosesSum(CH_DEFAULT[..7], 0xFE);
  }

  lemma {:induction false} IndexOfFirst(s: seq<Byte>, i: nat, c: Byte)
    requires i < |s| && s[i] == c && forall k :: 0 <= k < i ==> s[k] != c && s[k] != 0
    ensures IndexOf(s, c) == Some(i)
  {
    if i > 0 {
      IndexOfFirst(s[1..], i - 1, c);
    }
  }

  lemma {:induction false} IndexOfNone(s: seq<Byte>, c: Byte)
    requires c !in s
    ensures IndexOf(s, c) == None
  {
    if s != [] {
      IndexOfNone(s[1..], c);
    }
  }

  /** Without a dash there is no ordinal, and an entry by part number is not tried. */
  lemma NoDashNoOrdinal(ipmi: seq<Byte>, e: Boot.Entry)
    requires |ipmi| == IPMI_SIZE && 45 !in ipmi[54..69] && e.num_attempts < 0
    ensures PnOrdinal(ipmi) == -1 && Boot.Attempts(e, Some(PnOrdinal(ipmi))) == []
  {
    IndexOfNone(ipmi[54..69], 45);
  }

  /** The strings are in the structure as they were given; no manufacturer is "iVeia". */
  lemma TextsAreStored(ipmi: seq<Byte>, product: seq<Byte>, sn: seq<Byte>, pn: seq<Byte>, mfr: Option<seq<Byte>>)
    requires |ipmi| == IPMI_SIZE && LengthsOk(WithManufacturer([product, sn, pn], mfr), DEFAULT_LENGTHS)
    requires IsStruct(ipmi, WithManufacturer([product, sn, pn], mfr))
    ensures HasText(ipmi, 15, 10, if mfr.Some? then mfr.value else [105, 86, 101, 105, 97])
    ensures HasText(ipmi, 26, 16, product) && HasText(ipmi, 43, 10, sn) && HasText(ipmi, 54, 15, pn)
  {
    hide LengthsOk, PaddedText;
    var strs := WithManufacturer([product, sn, pn], mfr);
    DefaultLengthsOk(strs);
    PaddedIs(ipmi, 15, 10, strs[0]);
    PaddedIs(ipmi, 26, 16, strs[1]);
    PaddedIs(ipmi, 43, 10, strs[2]);
    PaddedIs(ipmi, 54, 15, strs[3]);
  }

  /** The text, and blanks to the end of its field. */
  predicate HasText(ipmi: seq<Byte>, at: nat, n: nat, text: seq<Byte>) {
    && |text| <= n && at + n <= |ipmi| && ipmi[at..at + |text|] == text
    && forall i :: at + |text| <= i < at + n ==> ipmi[i] == 32
  }

  lemma PaddedIs(ipmi: seq<Byte>, at: nat, n: nat, text: seq<Byte>)
    requires |text| <= n && at + n <= |ipmi| && ipmi[at..at + n] == PaddedText(text, n)
    ensures HasText(ipmi, at, n, text)
  {
    var padded := PaddedText(text, n);
    SliceOfSlice(ipmi, at, at + n, 0, |text|);
    assert padded[0..|text|] == text;
    forall i | at + |text| <= i < at + n
      ensures ipmi[i] == 32
    {
      assert ipmi[i] == ipmi[at..at + n][i - at];
    }
  }

  lemma {:induction false} DigitsEndAt(s: seq<Byte>, i: nat, j: nat)
    requires i <= j <= |s| && (forall k :: i <= k < j ==> IsDigit(s[k])) && (j < |s| ==> !IsDigit(s[j]))
    ensures DigitsEnd(s, i) == j
    decreases j - i
  {
    if i < j {
      DigitsEndAt(s, i + 1, j);
    }
  }

  /**
   The ordinal read back is the one written: for a part number head-digits-rest, with no
   dash in the head, at least one digit, and a rest that does not go on with a digit.
   */
  lemma OrdinalIsReadBack(ipmi: seq<Byte>, strs: seq<seq<Byte>>, head: seq<Byte>, digits: seq<Byte>, rest: seq<Byte>)
    requires |ipmi| == IPMI_SIZE && |strs| == PREDEF && LengthsOk(strs, DEFAULT_LENGTHS) && IsStruct(ipmi, strs)
    requires strs[3] == head + [45] + digits + rest && IsText(strs[3])
    requires 45 !in head && digits != [] && (forall k :: 0 <= k < |digits| ==> IsDigit(digits[k]))
    requires rest != [] ==> !IsDigit(rest[0])
    ensures PnOrdinal(ipmi) == Decimal(digits)
  {
    hide Decimal, DigitsEnd, IndexOf, LengthsOk, Atoi, PaddedText, IsStruct, IsText, IsDigit;
    StructPn(ipmi, strs);
    OrdinalOfText(strs[3], PaddedText(strs[3], 15)[|strs[3]|..], head, digits, rest);
  }

  lemma OrdinalOfText(text: seq<Byte>, blanks: seq<Byte>, head: seq<Byte>, digits: seq<Byte>, rest: seq<Byte>)
    requires text == head + [45] + digits + rest && IsText(text)
    requires 45 !in head && digits != [] && (forall k :: 0 <= k < |digits| ==> IsDigit(digits[k]))
    requires (rest != [] ==> !IsDigit(rest[0])) && (blanks != [] ==> !IsDigit(blanks[0]))
    ensures |head| < |text + blanks|
    ensures IndexOf(text + blanks, 45) == Some(|head|) && Atoi((text + blanks)[|head| + 1..]) == Decimal(digits)
  {
    hide Decimal, DigitsEnd, IndexOf, Atoi, IsText, IsDigit;
    HeadIsText(text, head);
    Regroup(head, digits, rest, blanks);
    OrdinalOf(text + blanks, head, digits, rest + blanks);
  }

  lemma StructPn(ipmi: seq<Byte>, strs: seq<seq<Byte>>)
    requires |ipmi| == IPMI_SIZE && |strs| == PREDEF && LengthsOk(strs, DEFAULT_LENGTHS) && IsStruct(ipmi, strs)
    ensures |strs[3]| <= 15
    ensures var pn := PaddedText(strs[3], 15); var blanks := pn[|strs[3]|..];
            ipmi[PN..PN + 15] == strs[3] + blanks && (blanks != [] ==> !IsDigit(blanks[0]))
  {
    hide LengthsOk;
    DefaultLengthsOk(strs);
  }

  lemma HeadIsText(s: seq<Byte>, head: seq<Byte>)
    requires IsText(s) && |head| <= |s| && s[..|head|] == head
    ensures 0 !in head
  {
  }

  lemma Regroup(head: seq<Byte>, digits: seq<Byte>, rest: seq<Byte>, blanks: seq<Byte>)
    ensures (head + [45] + digits + rest) + blanks == head + ([45] + (digits + (rest + blanks)))
  {
  }

  lemma OrdinalOf(pn: seq<Byte>, head: seq<Byte>, digits: seq<Byte>, tail: seq<Byte>)
    requires pn == head + ([45] + (digits + tail))
    requires 45 !in head && 0 !in head && digits != [] && (forall k :: 0 <= k < |digits| ==> IsDigit(digits[k]))
    requires tail != [] ==> !IsDigit(tail[0])
    ensures IndexOf(pn, 45) == Some(|head|) && Atoi(pn[|head| + 1..]) == Decimal(digits)
  {
    hide Decimal, DigitsEnd, IndexOf, Atoi;
    var t := digits + tail;
    assert pn[|head|] == 45 && pn[..|head|] == head;
    assert forall k :: 0 <= k < |head| ==> pn[k] == head[k];
    IndexOfFirst(pn, |head|, 45);
    assert pn[|head| + 1..] == t;
    AtoiOfDigits(t, digits);
  }

  lemma AtoiOfDigits(t: seq<Byte>, digits: seq<Byte>)
    requires 0 < |digits| <= |t| && t[..|digits|] == digits
    requires forall k :: 0 <= k < |digits| ==> IsDigit(digits[k])
    requires |digits| < |t| ==> !IsDigit(t[|digits|])
    ensures Atoi(t) == Decimal(digits)
  {
    hide Decimal;
    assert t[0] == digits[0] && IsDigit(t[0]);
    forall k | 0 <= k < |digits|
      ensures IsDigit(t[k])
    {
      assert t[k] == digits[k];
    }
    DigitsEndAt(t, 0, |digits|);
  }

  /**
   ivfru_create, then the boot loader's read of the same bytes: the structure validates, the
   ordinal read is the one in the part number, and a boot-by-part-number entry is tried with
   exactly that ordinal.
   */
  method CreateThenBoot(mem: array<Byte>, mfgdate: seq<Byte>, product: seq<Byte>, sn: seq<Byte>, pn: seq<Byte>,
                        mfr: Option<seq<Byte>>, mode: nat,
                        ghost head: seq<Byte>, ghost digits: seq<Byte>, ghost rest: seq<Byte>)
    returns (ret: Ret, valid: int, ordinal: int)
    requires mem.Length >= 352
    requires pn == head + [45] + digits + rest && IsText(pn)
    requires 45 !in head && digits != [] && (forall k :: 0 <= k < |digits| ==> IsDigit(digits[k]))
    requires rest != [] ==> !IsDigit(rest[0])
    modifies mem
    ensures ret == Success ==>
              && valid == 0 && ordinal == Decimal(digits)
              && (ordinal > 0 ==> Boot.Attempts(Boot.Entry(mode, -1), Some(ordinal)) == [ordinal])
              && HasText(mem[..], 15, 10, if mfr.Some? then mfr.value else [105, 86, 101, 105, 97])
              && HasText(mem[..], 26, 16, product) && HasText(mem[..], 43, 10, sn) && HasText(mem[..], 54, 15, pn)
  {
    hide Decimal, IsDigit, Holds, ImageVerdict, CreatedBoard, IsDate, StoredDate, LengthsOk, IsStruct, PnOrdinal, Sum;
    hide IsText, Readable, HasText;
    valid, ordinal := -1, -1;
    ghost var m := mem[..];
    var total;
    ret, total := Create(mem, mfgdate, product, sn, pn, mfr);
    if ret == Success {
      ghost var strs := WithManufacturer([product, sn, pn], mfr);
      CreatedIsStruct(mem[..], StoredDate(m, mfgdate), strs);
      var ipmi := mem[..][..IPMI_SIZE];
      StructPassesValidation(ipmi, strs);
      TextsAreStored(ipmi, product, sn, pn, mfr);
      TextsReach(mem[..], ipmi, product, sn, pn, if mfr.Some? then mfr.value else [105, 86, 101, 105, 97]);
      valid := ValidateIpmi(ipmi);
      OrdinalIsReadBack(ipmi, strs, head, digits, rest);
      ordinal := PnOrdinal(ipmi);
    }
  }

  lemma TextsReach(m: seq<Byte>, ipmi: seq<Byte>, product: seq<Byte>, sn: seq<Byte>, pn: seq<Byte>, mfr: seq<Byte>)
    requires |ipmi| == IPMI_SIZE <= |m| && ipmi == m[..IPMI_SIZE]
    requires HasText(ipmi, 15, 10, mfr) && HasText(ipmi, 26, 16, product)
    requires HasText(ipmi, 43, 10, sn) && HasText(ipmi, 54, 15, pn)
    ensures HasText(m, 15, 10, mfr) && HasText(m, 26, 16, product) && HasText(m, 43, 10, sn) && HasText(m, 54, 15, pn)
  {
    hide HasText;
    TextReaches(m, 15, 10, mfr);
    TextReaches(m, 26, 16, product);
    TextReaches(m, 43, 10, sn);
    TextReaches(m, 54, 15, pn);
  }

  lemma TextReaches(m: seq<Byte>, at: nat, n: nat, text: seq<Byte>)
    requires |m| >= IPMI_SIZE && HasText(m[..IPMI_SIZE], at, n, text)
    ensures HasText(m, at, n, text)
  {
    PrefixSlice(m, IPMI_SIZE, at, at + |text|);
  }
}
