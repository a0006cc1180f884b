/** ivfru_create and ivfru_xcreate: printing a fresh image from strings. */
module FruCreate {
  import opened Options
  import opened Bytes
  import opened FruSpec
  import opened FruValidate
  import opened FruEdit
  import opened FruDate
  import opened Memory

  /** A C string: no NUL inside. */
  predicate IsText(s: seq<Byte>) {
    0 !in s
  }

  const SPACE: Byte := 32
  const IVEIA: seq<Byte> := [105, 86, 101, 105, 97]

  /** The field length used: the given one, or the string's own when negative. */
  function Resolved(str: seq<Byte>, len: int): nat {
    if len < 0 then |str| else len
  }

  /** The string padded with spaces to its field length. */
  function PaddedText(str: seq<Byte>, n: nat): (r: seq<Byte>)
    requires |str| <= n
    ensures |r| == n && r[..|str|] == str && forall i :: |str| <= i < n ==> r[i] == SPACE
  {
    str + seq(n - |str|, _ => SPACE)
  }

  predicate LengthOk(str: seq<Byte>, len: int) {
    |str| <= Resolved(str, len) && EncodableLength(Resolved(str, len))
  }

  predicate LengthsOk(strs: seq<seq<Byte>>, lens: seq<int>)
    requires |strs| == |lens|
  {
    forall i :: 0 <= i < |strs| ==> LengthOk(strs[i], lens[i])
  }

  function TextField(str: seq<Byte>, len: int): (f: Field)
    requires LengthOk(str, len)
    ensures WfField(f) && f.data == PaddedText(str, Resolved(str, len))
  {
    CustomField(PaddedText(str, Resolved(str, len)))
  }

  function TextFields(strs: seq<seq<Byte>>, lens: seq<int>): (fs: seq<Field>)
    requires |strs| == |lens| && LengthsOk(strs, lens)
    ensures |fs| == |strs| && WfFields(fs)
    ensures forall i :: 0 <= i < |fs| ==> fs[i] == TextField(strs[i], lens[i])
  {
    seq(|strs|, i requires 0 <= i < |strs| => TextField(strs[i], lens[i]))
  }

  function CreatedBoard(date: seq<Byte>, strs: seq<seq<Byte>>, lens: seq<int>): (s: Board)
    requires |date| == 3 && |strs| == |lens| == PREDEF && LengthsOk(strs, lens)
    ensures WfShape(s) && s.pad < 8 && Size(s) % 8 == 0 && s.custom == [] && s.predef == TextFields(strs, lens)
  {
    WithCustom(Board(date, TextFields(strs, lens), [], 0), [])
  }

  lemma {:induction false} FieldsSize(fs: seq<Field>)
    requires WfFields(fs)
    ensures |FieldsBytes(fs)| <= 64 * |fs|
  {
    if fs != [] {
      FieldsSize(fs[1..]);
    }
  }

  /** fru_area_format_field for a predefined field, blank-padded first. */
  method FormatText(mem: array<Byte>, address: nat, str: seq<Byte>, n: nat) returns (ok: bool, next: nat)
    requires |str| <= n && (EncodableLength(n) ==> address + 1 + n <= mem.Length)
    modifies mem
    ensures ok <==> EncodableLength(n)
    ensures !ok ==> mem[..] == old(mem[..])
    ensures ok ==> mem[..] == Splice(old(mem[..]), address, FieldBytes(CustomField(PaddedText(str, n))))
    ensures ok ==> next == address + 1 + n
  {
    next := address;
    var field := PaddedText(str, n);
    if n > 63 || n == 1 { return false, address; }
    Copy(mem, address, [0xC0 + n] + field);
    return true, address + 1 + n;
  }

  /** The loop that formats the four predefined fields. */
  method FormatTexts(mem: array<Byte>, start: nat, strs: seq<seq<Byte>>, lens: seq<int>) returns (ok: bool, next: nat)
    requires |strs| == |lens| && start + 64 * |strs| <= mem.Length
    requires forall i :: 0 <= i < |strs| ==> |strs[i]| <= Resolved(strs[i], lens[i])
    modifies mem
    ensures ok <==> LengthsOk(strs, lens)
    ensures mem[..start] == old(mem[..start])
    ensures ok ==> next == start + |FieldsBytes(TextFields(strs, lens))| <= mem.Length
                   && mem[start..next] == FieldsBytes(TextFields(strs, lens))
  {
    hide FieldsBytes, FieldBytes, CustomField, PaddedText, Splice, WfField;
    next := start;
    ghost var done: seq<Field> := [];
    EmptyFields();
    for i := 0 to |strs|
      invariant forall j :: 0 <= j < i ==> LengthOk(strs[j], lens[j])
      invariant |done| == i && forall j :: 0 <= j < i ==> done[j] == TextField(strs[j], lens[j])
      invariant start <= next <= start + 64 * i && next == start + |FieldsBytes(done)|
      invariant mem[..start] == old(mem[..start])
      invariant mem[start..next] == FieldsBytes(done)
    {
      ghost var m := mem[..];
      var at := next;
      ok, next := FormatText(mem, at, strs[i], Resolved(strs[i], lens[i]));
      if !ok { return false, start; }
      ghost var f := TextField(strs[i], lens[i]);
      TextBytes(strs[i], lens[i]);
      FieldsBytesAppend(done, [f]);
      FieldsBytesOne(f);
      done := done + [f];
      AppendSplice(m, mem[..], start, at, FieldBytes(f));
    }
    ok := true;
    assert done == TextFields(strs, lens);
  }

  lemma TextBytes(str: seq<Byte>, len: int)
    requires LengthOk(str, len)
    ensures |FieldBytes(TextField(str, len))| == 1 + Resolved(str, len) <= 64
  {
  }

  lemma AppendSplice(m: seq<Byte>, m': seq<Byte>, start: nat, at: nat, bs: seq<Byte>)
    requires start <= at && at + |bs| <= |m| && m' == Splice(m, at, bs)
    ensures m'[..start] == m[..start] && m'[start..at + |bs|] == m[start..at] + bs
  {
    assert m'[start..at + |bs|] == m'[start..at] + m'[at..at + |bs|];
  }

  /** The check of each string against its given field length. */
  method CheckLengths(strs: seq<seq<Byte>>, lens: seq<int>) returns (ok: bool)
    requires |strs| == |lens|
    ensures ok <==> forall i :: 0 <= i < |strs| ==> |strs[i]| <= Resolved(strs[i], lens[i])
  {
    for i := 0 to |strs|
      invariant forall j :: 0 <= j < i ==> |strs[j]| <= Resolved(strs[j], lens[j])
    {
      if lens[i] >= 0 && |strs[i]| > lens[i] { return false; }
    }
    ok := true;
  }

  /** The manufacturer falls back to "iVeia" in a 10-byte field. */
  function WithManufacturer(strs: seq<seq<Byte>>, mfr: Option<seq<Byte>>): seq<seq<Byte>> {
    [if mfr.Some? then mfr.value else IVEIA] + strs
  }

  function WithManufacturerLength(lens: seq<int>, mfr: Option<seq<Byte>>, mfr_len: int): seq<int> {
    [if mfr.Some? then mfr_len else 10] + lens
  }

  /** The date bytes of the new image; when the date does not encode, what the memory held stays. */
  function StoredDate(m: seq<Byte>, mfgdate: seq<Byte>): (d: seq<Byte>)
    requires |m| >= 14 && IsDate(mfgdate)
    ensures |d| == 3
    ensures var f := DateFields(mfgdate).value;
            var minutes := 1440 * DayNumber(f.0, f.1, f.2) % 0x100_0000;
            if minutes != 0 then TimeValue(d) == minutes else d == m[11..14]
  {
    hide TimeValue, DayNumber;
    if DateBytes(mfgdate).Some? then DateBytes(mfgdate).value else m[11..14]
  }

  /** Header and fixed part of the board area. */
  method FormatFixedPart(mem: array<Byte>, mfgdate: seq<Byte>, bia_len: nat)
    requires mem.Length >= 14 && IsDate(mfgdate)
    modifies mem
    ensures mem[..8] == CH_DEFAULT
    ensures mem[8..14] == [1, LengthByte(bia_len, false), 0] + StoredDate(old(mem[..]), mfgdate)
  {
    hide IsDate, DateBytes, LengthByte, Splice;
    ghost var m := mem[..];
    Copy(mem, 0, CH_DEFAULT);
    assert mem[..8] == CH_DEFAULT && mem[11..14] == m[11..14];
    mem[8] := 0x01;
    mem[9] := LengthByte(bia_len, false);
    mem[10] := 0x00;
    ghost var m1 := mem[..];
    assert m1[..8] == CH_DEFAULT && m1[8..11] == [1, LengthByte(bia_len, false), 0] && m1[11..14] == m[11..14];
    FormatDate(mem, mfgdate);
    ghost var date := StoredDate(m, mfgdate);
    SpliceElsewhere(m1, 11, date, 0, 8);
    SpliceElsewhere(m1, 11, date, 8, 11);
    ghost var r := mem[..];
    JoinSlices(r, 8, 11, 14);
    assert mem[..8] == r[0..8] && mem[8..14] == r[8..14];
  }

  /** The date bytes, left alone for a day that does not encode. */
  method FormatDate(mem: array<Byte>, mfgdate: seq<Byte>)
    requires mem.Length >= 14 && IsDate(mfgdate)
    modifies mem
    ensures mem[..] == Splice(old(mem[..]), 11, StoredDate(old(mem[..]), mfgdate))
  {
    hide DateFields, DayNumber, Splice, TimeValue, SplitMinutes;
    ghost var m := mem[..];
    var valid, day, month, year := ParseDate(mfgdate);
    var ok, time := DateToTime(day, month, year);
    if ok {
      TimeValueInjective(time, SplitMinutes(DAY * DayNumber(day, month, year) % MASK));
      Copy(mem, 11, time);
    } else {
      IsSplice(m, m, 11, m[11..14]);
    }
  }

  /**
   ivfru_xcreate for predefined fields of nonzero length: strings are product, serial number
   and part number. On success the memory holds exactly the image of the blank-padded strings.
   */
  method XCreate(mem: array<Byte>, mfgdate: seq<Byte>, given: seq<seq<Byte>>, given_lens: seq<int>,
                 mfr: Option<seq<Byte>>, mfr_len: int)
    returns (ret: Ret, total: nat)
    requires |given| == |given_lens| == 3 && mem.Length >= 352
    requires var strs, lens := WithManufacturer(given, mfr), WithManufacturerLength(given_lens, mfr, mfr_len);
             forall i :: 0 <= i < 4 ==> Resolved(strs[i], lens[i]) != 0
    modifies mem
    ensures ret == Success || ret == InvalidArgument
    ensures var strs, lens := WithManufacturer(given, mfr), WithManufacturerLength(given_lens, mfr, mfr_len);
            && (ret == Success <==> IsDate(mfgdate) && LengthsOk(strs, lens))
            && (ret == Success ==>
                  var t := CreatedBoard(StoredDate(old(mem[..]), mfgdate), strs, lens);
                  && total == 8 + Size(t) && Readable(mem[..])
                  && ImageVerdict(mem[..]) == Valid && Holds(mem[..], Image(CH_DEFAULT, t)))
  {
    hide FieldsBytes, WfFields, PrintBoard, Checksum, BoardVerdict, StoredDate, IsDate, TextFields, FixedUp;
    hide LengthByte, Fits, Resolved, EncodableLength, WfHeader, Holds, ImageVerdict, Readable, Marked;
    total := 0;
    var valid, day, month, year := ParseDate(mfgdate);
    if !valid { return InvalidArgument, 0; }
    var strs, lens := WithManufacturer(given, mfr), WithManufacturerLength(given_lens, mfr, mfr_len);
    assert |strs| == 4 && |lens| == 4;
    var fit := CheckLengths(strs, lens);
    if !fit {
      return InvalidArgument, 0;
    }
    ret, total := PrintFresh(mem, mfgdate, strs, lens);
  }

  /** Everything ivfru_xcreate does once its arguments have been checked. */
  method PrintFresh(mem: array<Byte>, mfgdate: seq<Byte>, strs: seq<seq<Byte>>, lens: seq<int>)
    returns (ret: Ret, total: nat)
    requires |strs| == |lens| == PREDEF && mem.Length >= 352 && IsDate(mfgdate)
    requires forall i :: 0 <= i < |strs| ==> |strs[i]| <= Resolved(strs[i], lens[i])
    modifies mem
    ensures ret == Success || ret == InvalidArgument
    ensures ret == Success <==> LengthsOk(strs, lens)
    ensures ret == Success ==>
              var t := CreatedBoard(StoredDate(old(mem[..]), mfgdate), strs, lens);
              && total == 8 + Size(t) && Readable(mem[..])
              && ImageVerdict(mem[..]) == Valid && Holds(mem[..], Image(CH_DEFAULT, t))
  {
    hide FieldsBytes, WfFields, PrintBoard, Checksum, BoardVerdict, StoredDate, IsDate, TextFields, FixedUp;
    hide LengthByte, Fits, Resolved, LengthsOk, WfHeader, Holds, ImageVerdict, Readable, Marked, CreatedBoard, Size;
    ghost var m := mem[..];
    var total_size := 8 + 6 + SumLengths(strs, lens) + 3;
    total_size := (total_size + 7) / 8 * 8;
    FormatFixedPart(mem, mfgdate, total_size - 8);
    ghost var fixed := mem[..14];
    var ok, address := FormatTexts(mem, 14, strs, lens);
    if !ok { return InvalidArgument, 0; }
    ghost var t := CreatedBoard(StoredDate(m, mfgdate), strs, lens);
    CreatedSize(StoredDate(m, mfgdate), strs, lens);
    ghost var m1 := mem[..];
    assert mem[14..address] == m1[14..address] && mem[..14] == m1[..14] == fixed;
    Copy(mem, address, [0x00, END]);
    AppendSplice(m1, mem[..], 14, address, [0x00, END]);
    ghost var m2 := mem[..];
    assert m2[..8] == fixed[..8] && m2[8..14] == fixed[8..14];
    assert m2[8..address + 2] == m2[8..14] + m2[14..address + 2];
    ghost var len := m2[9];
    assert m2[8..14] == [1, len, 0] + StoredDate(m, mfgdate);
    MarkedWithoutCustom(t, len);
    FixedUpIsPrinting(m2, address + 2, t, len);
    total := FixUp(mem, address + 2);
    DefaultHeaderIsWf();
    assert mem[..][8..8 + Size(t)] == PrintBoard(t, false);
    EditedValidIffFits(mem[..], CH_DEFAULT, t);
    ret := Success;
  }

  /** One type/length byte and the data of every field. */
  function SumLengths(strs: seq<seq<Byte>>, lens: seq<int>): nat
    requires |strs| == |lens|
  {
    if strs == [] then 0 else 1 + Resolved(strs[0], lens[0]) + SumLengths(strs[1..], lens[1..])
  }

  lemma {:induction false} CreatedSize(date: seq<Byte>, strs: seq<seq<Byte>>, lens: seq<int>)
    requires |date| == 3 && |strs| == |lens| == PREDEF && LengthsOk(strs, lens)
    ensures var t := CreatedBoard(date, strs, lens);
            && Unpadded(t) == 9 + |FieldsBytes(TextFields(strs, lens))| && Size(t) <= 272
            && t.pad == PadTo8(Unpadded(t)) && Size(t) == Unpadded(t) + t.pad && t.date == date
  {
    EmptyFields();
    FieldsSize(TextFields(strs, lens));
  }

  lemma MarkedWithoutCustom(t: Board, len: Byte)
    requires t.custom == []
    ensures Marked(t, len) == ([1, len, 0] + t.date) + (FieldsBytes(t.predef) + [0, END])
  {
    EmptyFields();
    hide FieldsBytes;
  }

  /** The default lengths: manufacturer 10, product 16, serial number 10, part number 15. */
  const DEFAULT_LENGTHS: seq<int> := [10, 16, 10, 15]

  /** ivfru_create: every string within its default length gives a 72-byte image. */
  method Create(mem: array<Byte>, mfgdate: seq<Byte>, product: seq<Byte>, sn: seq<Byte>, pn: seq<Byte>,
                mfr: Option<seq<Byte>>)
    returns (ret: Ret, total: nat)
    requires mem.Length >= 352
    modifies mem
    ensures ret == Success || ret == InvalidArgument
    ensures var strs := WithManufacturer([product, sn, pn], mfr);
            && (ret == Success <==> IsDate(mfgdate) && |strs[0]| <= 10 && |product| <= 16 && |sn| <= 10 && |pn| <= 15)
            && (ret == Success ==>
                  && LengthsOk(strs, DEFAULT_LENGTHS)
                  && total == 72 && Readable(mem[..]) && ImageVerdict(mem[..]) == Valid
                  && Holds(mem[..], Image(CH_DEFAULT,
                                          CreatedBoard(StoredDate(old(mem[..]), mfgdate), strs, DEFAULT_LENGTHS))))
  {
    hide StoredDate, IsDate, TextFields, CreatedBoard, Holds, ImageVerdict, Readable;
    var given_lens := [16, 10, 15];
    ghost var strs := WithManufacturer([product, sn, pn], mfr);
    assert WithManufacturerLength(given_lens, mfr, 10) == DEFAULT_LENGTHS;
    ghost var m := mem[..];
    ret, total := XCreate(mem, mfgdate, [product, sn, pn], given_lens, mfr, 10);
    DefaultLengthsOk(strs);
    if ret == Success {
      DefaultSize(StoredDate(m, mfgdate), strs);
    }
  }

  lemma DefaultLengthsOk(strs: seq<seq<Byte>>)
    requires |strs| == PREDEF
    ensures LengthsOk(strs, DEFAULT_LENGTHS) <==>
            |strs[0]| <= 10 && |strs[1]| <= 16 && |strs[2]| <= 10 && |strs[3]| <= 15
  {
    assert LengthOk(strs[0], DEFAULT_LENGTHS[0]) <==> |strs[0]| <= 10;
    assert LengthOk(strs[1], DEFAULT_LENGTHS[1]) <==> |strs[1]| <= 16;
    assert LengthOk(strs[2], DEFAULT_LENGTHS[2]) <==> |strs[2]| <= 10;
    assert LengthOk(strs[3], DEFAULT_LENGTHS[3]) <==> |strs[3]| <= 15;
  }

  lemma {:induction false} FourFields(fs: seq<Field>)
    requires |fs| == 4
    ensures FieldsBytes(fs) == FieldBytes(fs[0]) + FieldBytes(fs[1]) + FieldBytes(fs[2]) + FieldBytes(fs[3])
  {
    hide FieldsBytes, FieldBytes;
    FieldsBytesStep(fs, 0);
    FieldsBytesStep(fs, 1);
    FieldsBytesStep(fs, 2);
    FieldsBytesStep(fs, 3);
    assert fs[..4] == fs && fs[..0] == [];
    EmptyFields();
  }

  lemma {:induction false} DefaultSize(date: seq<Byte>, strs: seq<seq<Byte>>)
    requires |date| == 3 && |strs| == PREDEF && LengthsOk(strs, DEFAULT_LENGTHS)
    ensures Size(CreatedBoard(date, strs, DEFAULT_LENGTHS)) == 64 && CreatedBoard(date, strs, DEFAULT_LENGTHS).pad == 0
  {
    hide FieldsBytes, LengthsOk;
    CreatedSize(date, strs, DEFAULT_LENGTHS);
    FourFields(TextFields(strs, DEFAULT_LENGTHS));
  }

  /** The board area of a held image has the date at its offset. */
  lemma HeldDate(m: seq<Byte>, s: Image)
    requires Readable(m) && Holds(m, s)
    ensures |s.board.date| == 3 && m[11..14] == s.board.date
  {
    hide FieldsBytes, Checksum, ZeroBetween, BoardLength, Holds, WfFields, Marked;
    HeldIsMarked(m, s);
    SliceOfSlice(m, 8, 8 + Size(s.board), 3, 6);
  }

  /**
   ivfru_create, then the date read back from the image. For a date that encodes it is the
   date given exactly up to 24-11-2027; a day number that wraps to zero leaves the old bytes.
   */
  method CreateThenDate(mem: array<Byte>, mfgdate: seq<Byte>, product: seq<Byte>, sn: seq<Byte>, pn: seq<Byte>,
                        mfr: Option<seq<Byte>>)
    returns (ret: Ret, day: int, month: int, year: int)
    requires mem.Length >= 352
    modifies mem
    ensures ret == Success ==>
              && IsDate(mfgdate)
              && var f := DateFields(mfgdate).value;
                 var n := DayNumber(f.0, f.1, f.2);
                 && (1440 * n % 0x100_0000 != 0 ==> ((day, month, year) == f <==> n <= 11650))
                 && (1440 * n % 0x100_0000 == 0 ==> mem[11..14] == old(mem[11..14]))
  {
    hide IsDate, DateFields, DayNumber, TimeValue, CreatedBoard, Holds, ImageVerdict, Readable, ValidDate, StoredDate;
    hide LengthsOk;
    ghost var m := mem[..];
    day, month, year := 0, 0, 0;
    var total;
    ret, total := Create(mem, mfgdate, product, sn, pn, mfr);
    if ret == Success {
      ghost var strs := WithManufacturer([product, sn, pn], mfr);
      ghost var date := StoredDate(m, mfgdate);
      CreatedDate(date, strs);
      HeldDate(mem[..], Image(CH_DEFAULT, CreatedBoard(date, strs, DEFAULT_LENGTHS)));
      assert mem[11..14] == mem[..][11..14] == date && m[11..14] == old(mem[11..14]);
      day, month, year := TimeToDate(mem[11..14]);
      DateComesBackIff(m, mfgdate, day, month, year);
    }
  }

  lemma CreatedDate(date: seq<Byte>, strs: seq<seq<Byte>>)
    requires |date| == 3 && |strs| == PREDEF && LengthsOk(strs, DEFAULT_LENGTHS)
    ensures CreatedBoard(date, strs, DEFAULT_LENGTHS).date == date
  {
    hide LengthsOk, TextFields;
  }

  lemma DateComesBackIff(m: seq<Byte>, mfgdate: seq<Byte>, day: int, month: int, year: int)
    requires |m| >= 14 && IsDate(mfgdate) && ValidDate(day, month, year)
    requires DayNumber(day, month, year) == TimeValue(StoredDate(m, mfgdate)) / DAY
    ensures var f := DateFields(mfgdate).value;
            var n := DayNumber(f.0, f.1, f.2);
            1440 * n % 0x100_0000 != 0 ==> ((day, month, year) == f <==> n <= 11650)
  {
    hide DayNumber, ValidDate, TimeValue, StoredDate, DateFields;
    var f := DateFields(mfgdate).value;
    ValidParts(f.0, f.1, f.2);
    DayIsKeptIff(DayNumber(f.0, f.1, f.2));
    if DayNumber(f.0, f.1, f.2) == DayNumber(day, month, year) {
      DayNumberInjective(f.0, f.1, f.2, day, month, year);
    }
  }
}
