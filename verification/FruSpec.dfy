/**
 The FRU image as a value: a common header (section 8 of the IPMI Platform
 Management FRU Information Storage Definition) followed by a board info area
 (section 11) of type/length fields (section 13), its printing to bytes, and the
 byte-level grammar the validator walks.
 */
module FruSpec {
  import opened Options
  import opened Bytes

  /** FRU_END_MARKER: also what a type-3 field of length 1 would be encoded as. */
  const END: Byte := 0xC1

  /** Manufacturer, product name, serial number and part number come before the file id. */
  const PREDEF: nat := 4

  datatype Field = Field(tl: Byte, data: seq<Byte>)

  /** Board info area. `predef` is manufacturer, product, serial number, part number. */
  datatype Board = Board(date: seq<Byte>, predef: seq<Field>, custom: seq<Field>, pad: nat)

  datatype Image = Image(header: seq<Byte>, board: Board)

  /** CH_OLD: header of the old format, where the board length byte counts bytes, not 8-byte units. */
  const CH_OLD: seq<Byte> := [1, 0, 0, 8, 0, 0, 0, 0xF7]
  const CH_DEFAULT: seq<Byte> := [1, 0, 0, 1, 0, 0, 0, 0xFE]

  // ---------------------------------------------------------------- printing

  predicate WfField(f: Field) {
    f.tl != END && |f.data| == f.tl % 64
  }

  predicate WfFields(fs: seq<Field>) {
    forall i :: 0 <= i < |fs| ==> WfField(fs[i])
  }

  function FieldBytes(f: Field): seq<Byte> {
    [f.tl] + f.data
  }

  function FieldsBytes(fs: seq<Field>): seq<Byte> {
    if fs == [] then [] else FieldBytes(fs[0]) + FieldsBytes(fs[1..])
  }

  /** Offset in the board area of the k-th predefined field; k == 4 is the file id. */
  function PredefOffset(s: Board, k: nat): nat
    requires k <= |s.predef|
  {
    6 + |FieldsBytes(s.predef[..k])|
  }

  /** Offset in the board area of the k-th custom field; k == |custom| is the end marker. */
  function CustomOffset(s: Board, k: nat): nat
    requires k <= |s.custom|
  {
    7 + |FieldsBytes(s.predef)| + |FieldsBytes(s.custom[..k])|
  }

  function Size(s: Board): nat {
    9 + |FieldsBytes(s.predef)| + |FieldsBytes(s.custom)| + s.pad
  }

  /** The length byte as stored: one byte, no range check. */
  function LengthByte(size: nat, old_format: bool): Byte {
    if old_format then size % 256 else size / 8 % 256
  }

  /** The length in bytes that readers take from the stored byte. */
  function StoredLength(b: Byte, old_format: bool): nat {
    if old_format then b else b * 8
  }

  /** The sizes the length byte can hold. */
  predicate Fits(size: nat, old_format: bool) {
    if old_format then size < 256 else size % 8 == 0 && size <= 2040
  }

  /** Everything before the checksum. */
  function BoardBody(s: Board, len: Byte): seq<Byte> {
    [1, len, 0] + s.date + FieldsBytes(s.predef) + [0] + FieldsBytes(s.custom) + [END] + Zeros(s.pad)
  }

  function PrintBoard(s: Board, old_format: bool): seq<Byte> {
    var body := BoardBody(s, LengthByte(Size(s), old_format));
    body + [Checksum(body)]
  }

  predicate WfShape(s: Board) {
    |s.date| == 3 && |s.predef| == PREDEF && WfFields(s.predef) && WfFields(s.custom)
  }

  predicate WfBoard(s: Board, old_format: bool) {
    WfShape(s) && Fits(Size(s), old_format)
  }

  lemma DefaultHeaderIsWf()
    ensures WfHeader(CH_DEFAULT, false)
    ensures Checksum([1, 0, 0, 1, 0, 0, 0]) == 0xFE
  {
    var h: seq<Byte> := [1, 0, 0, 1];
    assert CH_DEFAULT[..7] == h + [0, 0, 0] == [1, 0, 0, 1, 0, 0, 0];
    SumAppend(h, [0, 0, 0]);
    SumAppend([1, 0], [0, 1]);
    assert h == [1, 0] + [0, 1];
  }

  lemma LengthByteRoundTrip(size: nat, b: Byte, old_format: bool)
    ensures Fits(size, old_format) && b == LengthByte(size, old_format) <==> size == StoredLength(b, old_format)
  {
    if !old_format {
      var q, r := size / 8, size % 8;
      assert size == 8 * q + r;
      if size == b * 8 {
        assert r == 0 && q == b;
      }
    }
  }

  predicate WfHeader(h: seq<Byte>, old_format: bool) {
    if old_format then h == CH_OLD
    else h != CH_OLD && |h| == 8 && h[0] == 1 && h[3] == 1 && h[7] == Checksum(h[..7])
  }

  predicate WfImage(s: Image, old_format: bool) {
    WfHeader(s.header, old_format) && WfBoard(s.board, old_format)
  }

  function PrintImage(s: Image, old_format: bool): seq<Byte> {
    s.header + PrintBoard(s.board, old_format)
  }

  // ------------------------------------------------------- the walk as a grammar

  /** fru_tl_get_length */
  function FieldLength(tl: Byte): (n: nat)
    ensures n < 64
  {
    if tl == END then 0 else tl % 64
  }

  /** Where n fields starting at `pos` end, if none of them is the end marker or overruns `b`. */
  function SkipFields(b: seq<Byte>, pos: nat, n: nat): Option<nat>
    decreases n
  {
    if n == 0 then Some(pos)
    else if pos >= |b| || b[pos] == END || pos + 1 + FieldLength(b[pos]) > |b| then None
    else SkipFields(b, pos + 1 + FieldLength(b[pos]), n - 1)
  }

  /** Where the end marker is, walking fields from `pos`. */
  function FindEnd(b: seq<Byte>, pos: nat): Option<nat>
    decreases |b| - pos
  {
    if pos >= |b| then None
    else if b[pos] == END then Some(pos)
    else FindEnd(b, pos + 1 + FieldLength(b[pos]))
  }

  predicate ZeroBetween(b: seq<Byte>, lo: nat, hi: nat)
    requires hi <= |b|
  {
    forall i :: lo <= i < hi ==> b[i] == 0
  }

  /** The first error a strict walk reports, or Valid. */
  datatype Verdict = Valid | BadHeaderVersion | BadHeaderChecksum | BadBoardOffset
    | BadVersion | BadLanguage | PredefMissing | BadFileId | MissingEnd | BadPadding | MissingChecksum | BadChecksum

  /** From the file id on: zero id, custom fields, end marker, zero padding, checksum. */
  function TailVerdict(b: seq<Byte>, p: nat): Verdict {
    if p + 3 > |b| || b[p] == END then PredefMissing
    else if b[p] != 0 then BadFileId
    else match FindEnd(b, p)
      case None => MissingEnd
      case Some(e) =>
        if !ZeroBetween(b, e + 1, |b| - 1) then BadPadding
        else if e + 1 >= |b| then MissingChecksum
        else if b[|b| - 1] != Checksum(b[..|b| - 1]) then BadChecksum
        else Valid
  }

  function BoardVerdict(b: seq<Byte>): Verdict {
    if |b| < 6 then PredefMissing
    else if b[0] != 1 then BadVersion
    else if b[2] != 0 then BadLanguage
    else match SkipFields(b, 6, PREDEF)
      case None => PredefMissing
      case Some(p) => TailVerdict(b, p)
  }

  function HeaderVerdict(h: seq<Byte>): Verdict
    requires |h| == 8
  {
    if h == CH_OLD then Valid
    else if h[0] != 1 then BadHeaderVersion
    else if h[7] != Checksum(h[..7]) then BadHeaderChecksum
    else if h[3] != 1 then BadBoardOffset
    else Valid
  }

  /** Whether a strict walk of the board area `b` succeeds. */
  predicate ValidBoard(b: seq<Byte>) {
    BoardVerdict(b) == Valid
  }

  // ------------------------------------------------------------- field lists

  lemma {:induction false} FieldsBytesAppend(fs: seq<Field>, gs: seq<Field>)
    ensures FieldsBytes(fs + gs) == FieldsBytes(fs) + FieldsBytes(gs)
  {
    if fs == [] {
      assert fs + gs == gs;
    } else {
      assert (fs + gs)[1..] == fs[1..] + gs;
      FieldsBytesAppend(fs[1..], gs);
    }
  }

  lemma {:induction false} FieldsBytesSplit(fs: seq<Field>, k: nat)
    requires k <= |fs|
    ensures FieldsBytes(fs) == FieldsBytes(fs[..k]) + FieldsBytes(fs[k..])
  {
    assert fs == fs[..k] + fs[k..];
    FieldsBytesAppend(fs[..k], fs[k..]);
  }

  lemma {:induction false} FieldsBytesStep(fs: seq<Field>, k: nat)
    requires k < |fs|
    ensures FieldsBytes(fs[k..]) == FieldBytes(fs[k]) + FieldsBytes(fs[k + 1..])
    ensures FieldsBytes(fs[..k + 1]) == FieldsBytes(fs[..k]) + FieldBytes(fs[k])
  {
    assert fs[k..][1..] == fs[k + 1..];
    assert fs[..k + 1] == fs[..k] + [fs[k]];
    FieldsBytesAppend(fs[..k], [fs[k]]);
    FieldsBytesOne(fs[k]);
  }

  lemma FieldsBytesOne(f: Field)
    ensures FieldsBytes([f]) == FieldBytes(f)
  {
    assert [f][1..] == [];
  }

  /** One more field in front of fields already read. */
  lemma FieldReadAt(b: seq<Byte>, pos: nat, e: nat, f: Field, gs: seq<Field>)
    requires pos < |b| && b[pos] != END
    requires var q := pos + 1 + FieldLength(b[pos]);
             q <= e <= |b| && f == Field(b[pos], b[pos + 1..q]) && b[q..e] == FieldsBytes(gs)
    ensures WfField(f) && b[pos..e] == FieldsBytes([f] + gs)
    ensures WfFields(gs) ==> WfFields([f] + gs)
  {
    var q := pos + 1 + FieldLength(b[pos]);
    assert b[pos..q] == FieldBytes(f);
    JoinSlices(b, pos, q, e);
    FieldsBytesHead([f] + gs);
    assert ([f] + gs)[1..] == gs;
  }

  lemma FieldsBytesHead(fs: seq<Field>)
    requires fs != []
    ensures FieldsBytes(fs) == FieldBytes(fs[0]) + FieldsBytes(fs[1..])
  {
  }

  lemma {:induction false} SkipReadsFields(b: seq<Byte>, pos: nat, n: nat) returns (fs: seq<Field>)
    requires pos <= |b|
    requires SkipFields(b, pos, n).Some?
    ensures |fs| == n && WfFields(fs)
    ensures pos <= SkipFields(b, pos, n).value <= |b|
    ensures b[pos..SkipFields(b, pos, n).value] == FieldsBytes(fs)
    decreases n
  {
    if n == 0 {
      fs := [];
    } else {
      var q := pos + 1 + FieldLength(b[pos]);
      var f := Field(b[pos], b[pos + 1..q]);
      var gs := SkipReadsFields(b, q, n - 1);
      fs := [f] + gs;
      FieldReadAt(b, pos, SkipFields(b, q, n - 1).value, f, gs);
    }
  }

  lemma {:induction false} FieldsAreSkipped(b: seq<Byte>, pos: nat, fs: seq<Field>)
    requires WfFields(fs)
    requires pos + |FieldsBytes(fs)| <= |b|
    requires b[pos..pos + |FieldsBytes(fs)|] == FieldsBytes(fs)
    ensures SkipFields(b, pos, |fs|) == Some(pos + |FieldsBytes(fs)|)
    decreases |fs|
  {
    if fs != [] {
      FirstField(b, pos, fs);
      hide FieldsBytes, WfFields;
      FieldsAreSkipped(b, pos + 1 + FieldLength(fs[0].tl), fs[1..]);
    }
  }

  /** The first of some printed fields, and the rest. */
  lemma FirstField(b: seq<Byte>, pos: nat, fs: seq<Field>)
    requires WfFields(fs) && fs != []
    requires pos + |FieldsBytes(fs)| <= |b| && b[pos..pos + |FieldsBytes(fs)|] == FieldsBytes(fs)
    ensures WfFields(fs[1..]) && b[pos] == fs[0].tl != END
    ensures var q := pos + 1 + FieldLength(fs[0].tl);
            && q + |FieldsBytes(fs[1..])| == pos + |FieldsBytes(fs)|
            && b[q..q + |FieldsBytes(fs[1..])|] == FieldsBytes(fs[1..])
  {
    hide FieldsBytes;
    var first, rest := FieldBytes(fs[0]), FieldsBytes(fs[1..]);
    FieldsBytesHead(fs);
    assert WfField(fs[0]);
    SliceParts(b, pos, pos + |first|, pos + |first| + |rest|, first, rest);
    assert b[pos] == b[pos..pos + |first|][0];
  }

  lemma {:induction false} FindEndReadsFields(b: seq<Byte>, pos: nat) returns (fs: seq<Field>)
    requires FindEnd(b, pos).Some?
    ensures WfFields(fs)
    ensures pos <= FindEnd(b, pos).value < |b| && b[FindEnd(b, pos).value] == END
    ensures b[pos..FindEnd(b, pos).value] == FieldsBytes(fs)
    decreases |b| - pos
  {
    if b[pos] == END {
      fs := [];
    } else {
      var q := pos + 1 + FieldLength(b[pos]);
      var gs := FindEndReadsFields(b, q);
      var f := Field(b[pos], b[pos + 1..q]);
      fs := [f] + gs;
      FieldReadAt(b, pos, FindEnd(b, q).value, f, gs);
    }
  }

  /** The file id is an empty field, so the walk to the end marker steps over it. */
  lemma FindEndPastFileId(b: seq<Byte>, p: nat)
    requires p < |b| && b[p] == 0
    ensures FindEnd(b, p) == FindEnd(b, p + 1)
  {
  }

  lemma {:induction false} FieldsLeadToEnd(b: seq<Byte>, pos: nat, fs: seq<Field>)
    requires WfFields(fs)
    requires pos + |FieldsBytes(fs)| < |b|
    requires b[pos..pos + |FieldsBytes(fs)|] == FieldsBytes(fs)
    requires b[pos + |FieldsBytes(fs)|] == END
    ensures FindEnd(b, pos) == Some(pos + |FieldsBytes(fs)|)
    decreases |fs|
  {
    if fs != [] {
      FirstField(b, pos, fs);
      hide FieldsBytes, WfFields;
      FieldsLeadToEnd(b, pos + 1 + FieldLength(fs[0].tl), fs[1..]);
    }
  }

  // ------------------------------------------------ where a printing puts things

  /** Every part of `s` is at its offset in `b`, which ends in its checksum. */
  predicate Laid(b: seq<Byte>, s: Board, len: Byte) {
    var p := 6 + |FieldsBytes(s.predef)|;
    var e := p + 1 + |FieldsBytes(s.custom)|;
    && |b| == e + 2 + s.pad
    && b[..3] == [1, len, 0]
    && b[3..6] == s.date
    && b[6..p] == FieldsBytes(s.predef)
    && b[p] == 0
    && b[p + 1..e] == FieldsBytes(s.custom)
    && b[e] == END
    && ZeroBetween(b, e + 1, |b| - 1)
    && b[|b| - 1] == Checksum(b[..|b| - 1])
  }

  lemma {:induction false} PrintingIsLaid(s: Board, len: Byte, b: seq<Byte>)
    requires WfShape(s)
    requires b == BoardBody(s, len) + [Checksum(BoardBody(s, len))]
    ensures Laid(b, s, len)
  {
    hide Checksum, FieldsBytes, WfFields;
    var body := BoardBody(s, len);
    assert b[..|b| - 1] == body;
    var front := [1, len, 0] + s.date;
    var middle := FieldsBytes(s.predef) + [0] + FieldsBytes(s.custom) + [END];
    assert body == front + middle + Zeros(s.pad);
    assert b[..3] == front[..3] && b[3..6] == front[3..6];
    assert b[6..6 + |middle|] == middle;
    MiddleParts(s, b);
  }

  lemma MiddleParts(s: Board, b: seq<Byte>)
    requires var middle := FieldsBytes(s.predef) + [0] + FieldsBytes(s.custom) + [END];
             6 + |middle| <= |b| && b[6..6 + |middle|] == middle
    ensures var p := 6 + |FieldsBytes(s.predef)|; var e := p + 1 + |FieldsBytes(s.custom)|;
            b[6..p] == FieldsBytes(s.predef) && b[p] == 0 && b[p + 1..e] == FieldsBytes(s.custom) && b[e] == END
  {
    hide FieldsBytes;
    var x, y := FieldsBytes(s.predef), FieldsBytes(s.custom);
    var middle := x + [0] + y + [END];
    assert middle[..|x|] == x && middle[|x| + 1..|x| + 1 + |y|] == y;
    SliceOfSlice(b, 6, 6 + |middle|, 0, |x|);
    SliceOfSlice(b, 6, 6 + |middle|, |x| + 1, |x| + 1 + |y|);
    assert b[6 + |x|] == middle[|x|] && b[6 + |x| + 1 + |y|] == middle[|x| + 1 + |y|];
  }

  lemma CutAt(b: seq<Byte>, p: nat, e: nat)
    requires 6 <= p < e < |b| - 1
    ensures b[..|b| - 1] == b[..3] + b[3..6] + b[6..p] + [b[p]] + b[p + 1..e] + [b[e]] + b[e + 1..|b| - 1]
  {
  }

  lemma {:induction false} LaidIsPrinting(s: Board, len: Byte, b: seq<Byte>)
    requires WfShape(s)
    requires Laid(b, s, len)
    ensures b == BoardBody(s, len) + [Checksum(BoardBody(s, len))]
  {
    hide Checksum, FieldsBytes, WfFields;
    var p := 6 + |FieldsBytes(s.predef)|;
    var e := p + 1 + |FieldsBytes(s.custom)|;
    CutAt(b, p, e);
    assert b[e + 1..|b| - 1] == Zeros(s.pad);
    assert b == b[..|b| - 1] + [b[|b| - 1]];
  }

  /** The walk over a laid-out board finds the file id and the end marker where they were put. */
  lemma {:induction false} LaidIsWalked(s: Board, len: Byte, b: seq<Byte>)
    requires WfShape(s)
    requires Laid(b, s, len)
    ensures SkipFields(b, 6, PREDEF) == Some(6 + |FieldsBytes(s.predef)|)
    ensures FindEnd(b, 6 + |FieldsBytes(s.predef)|) == Some(|b| - 2 - s.pad)
  {
    hide Checksum, FieldsBytes, ZeroBetween, WfFields, SkipFields, FindEnd;
    FieldsAreSkipped(b, 6, s.predef);
    var p := 6 + |FieldsBytes(s.predef)|;
    FieldsLeadToEnd(b, p + 1, s.custom);
    FindEndPastFileId(b, p);
  }

  lemma {:induction false} LaidIsValid(s: Board, len: Byte, b: seq<Byte>)
    requires WfShape(s)
    requires Laid(b, s, len)
    ensures ValidBoard(b)
  {
    LaidIsWalked(s, len, b);
    assert b[0] == b[..3][0] && b[2] == b[..3][2];
  }

  lemma {:induction false} ValidIsLaid(b: seq<Byte>) returns (s: Board)
    requires ValidBoard(b)
    ensures WfShape(s) && Laid(b, s, b[1])
  {
    hide Checksum, FieldsBytes, WfFields, SkipFields, FindEnd;
    assert SkipFields(b, 6, PREDEF).Some?;
    var p := SkipFields(b, 6, PREDEF).value;
    var predef := SkipReadsFields(b, 6, PREDEF);
    FindEndPastFileId(b, p);
    var e := FindEnd(b, p + 1).value;
    var custom := FindEndReadsFields(b, p + 1);
    s := Board(b[3..6], predef, custom, |b| - e - 2);
    assert b[..3] == [1, b[1], 0];
  }

  /** A printing passes the walk, and readers take its length from the stored byte. */
  lemma {:induction false} PrintingIsValid(s: Board, old_format: bool)
    requires WfBoard(s, old_format)
    ensures ValidBoard(PrintBoard(s, old_format))
    ensures |PrintBoard(s, old_format)| == Size(s) == StoredLength(PrintBoard(s, old_format)[1], old_format)
  {
    var len := LengthByte(Size(s), old_format);
    hide BoardBody, Checksum, FieldsBytes, ValidBoard, StoredLength, LengthByte, Fits;
    var b := PrintBoard(s, old_format);
    PrintingIsLaid(s, len, b);
    LaidIsValid(s, len, b);
    assert b[1] == b[..3][1];
    LengthByteRoundTrip(Size(s), len, old_format);
  }

  /** A board area that passes the walk is the printing of some structure. */
  lemma {:induction false} ValidIsPrinting(b: seq<Byte>, old_format: bool) returns (s: Board)
    requires ValidBoard(b)
    requires |b| == StoredLength(b[1], old_format)
    ensures WfBoard(s, old_format) && PrintBoard(s, old_format) == b
  {
    hide BoardBody, Checksum, FieldsBytes, ValidBoard, StoredLength, LengthByte, Fits;
    s := ValidIsLaid(b);
    LaidIsPrinting(s, b[1], b);
    LengthByteRoundTrip(|b|, b[1], old_format);
  }

  /** Strict validity of the board area is exactly being a printing. */
  lemma {:induction false} ValidBoardIffPrinting(b: seq<Byte>, old_format: bool)
    requires |b| >= 2 && |b| == StoredLength(b[1], old_format)
    ensures ValidBoard(b) <==> exists s :: WfBoard(s, old_format) && PrintBoard(s, old_format) == b
  {
    if ValidBoard(b) {
      var s := ValidIsPrinting(b, old_format);
    }
    forall s | WfBoard(s, old_format) && PrintBoard(s, old_format) == b
      ensures ValidBoard(b)
    {
      PrintingIsValid(s, old_format);
    }
  }

  lemma {:induction false} FieldsBytesInjective(fs: seq<Field>, gs: seq<Field>)
    requires WfFields(fs) && WfFields(gs)
    requires FieldsBytes(fs) == FieldsBytes(gs)
    ensures fs == gs
  {
    if fs != [] && gs != [] {
      var x, y := FieldsBytes(fs), FieldsBytes(gs);
      assert x[0] == fs[0].tl && y[0] == gs[0].tl;
      assert x[1..1 + |fs[0].data|] == fs[0].data && y[1..1 + |fs[0].data|] == gs[0].data;
      assert x[1 + |fs[0].data|..] == FieldsBytes(fs[1..]) && y[1 + |fs[0].data|..] == FieldsBytes(gs[1..]);
      FieldsBytesInjective(fs[1..], gs[1..]);
      assert fs == [fs[0]] + fs[1..] && gs == [gs[0]] + gs[1..];
    }
  }

  /** The structure behind a board area is unique, even across the two length formats. */
  lemma {:induction false} PrintingIsInjective(s: Board, t: Board, old_s: bool, old_t: bool)
    requires WfShape(s) && WfShape(t)
    requires PrintBoard(s, old_s) == PrintBoard(t, old_t)
    ensures s == t
  {
    var len_s, len_t := LengthByte(Size(s), old_s), LengthByte(Size(t), old_t);
    var b := PrintBoard(s, old_s);
    PrintingIsLaid(s, len_s, b);
    PrintingIsLaid(t, len_t, b);
    LaidIsUnique(s, len_s, t, len_t, b);
  }

  lemma {:induction false} LaidIsUnique(s: Board, len_s: Byte, t: Board, len_t: Byte, b: seq<Byte>)
    requires WfShape(s) && WfShape(t)
    requires Laid(b, s, len_s) && Laid(b, t, len_t)
    ensures s == t
  {
    hide Checksum, FieldsBytes, WfFields, ZeroBetween;
    LaidIsWalked(s, len_s, b);
    LaidIsWalked(t, len_t, b);
    FieldsBytesInjective(s.predef, t.predef);
    FieldsBytesInjective(s.custom, t.custom);
  }

  // ------------------------------------------------------- a length byte that wrapped

  lemma {:induction false} SkipInPrefix(b: seq<Byte>, n: nat, pos: nat, k: nat)
    requires n <= |b| && SkipFields(b[..n], pos, k).Some?
    ensures SkipFields(b, pos, k) == SkipFields(b[..n], pos, k)
    decreases k
  {
    if k > 0 {
      SkipInPrefix(b, n, pos + 1 + FieldLength(b[pos]), k - 1);
    }
  }

  lemma {:induction false} FindEndInPrefix(b: seq<Byte>, n: nat, pos: nat)
    requires n <= |b| && FindEnd(b[..n], pos).Some?
    ensures FindEnd(b, pos) == FindEnd(b[..n], pos) && FindEnd(b, pos).value < n
    decreases n - pos
  {
    if b[pos] != END {
      FindEndInPrefix(b, n, pos + 1 + FieldLength(b[pos]));
    }
  }

  /** A board cut off before its end marker is never valid: the walk has only one end marker to find. */
  lemma {:induction false} CutBoardIsInvalid(b: seq<Byte>, s: Board, len: Byte, n: nat)
    requires WfShape(s) && Laid(b, s, len) && n + 2 + s.pad <= |b|
    ensures !ValidBoard(b[..n])
  {
    hide SkipFields, FindEnd, ValidBoard, Laid, WfShape, FieldsBytes;
    if ValidBoard(b[..n]) {
      LaidIsWalked(s, len, b);
      ValidWalks(b[..n]);
      var p := SkipFields(b[..n], 6, PREDEF).value;
      SkipInPrefix(b, n, 6, PREDEF);
      FindEndInPrefix(b, n, p);
    }
  }

  lemma ValidWalks(b: seq<Byte>)
    requires ValidBoard(b)
    ensures SkipFields(b, 6, PREDEF).Some? && FindEnd(b, SkipFields(b, 6, PREDEF).value).Some?
  {
    hide SkipFields, FindEnd, Checksum;
  }

  // ------------------------------------------------- what the verdicts say of the bytes

  /** A header passes exactly when it is the old one, or has version 1, board offset 1 and a zero sum. */
  lemma HeaderPassesIff(h: seq<Byte>)
    requires |h| == 8
    ensures HeaderVerdict(h) == Valid <==>
            h == [1, 0, 0, 8, 0, 0, 0, 0xF7] || (h[0] == 1 && h[3] == 1 && Sum(h) % 256 == 0)
    ensures HeaderVerdict(h) == Valid && h != CH_OLD <==> WfHeader(h, false)
  {
    hide Sum, Checksum;
    assert h == h[..7] + [h[7]];
    ChecksumClosesSum(h[..7], h[7]);
  }

  /** The board area begins with version 1 and language 0, and a valid one sums to zero. */
  lemma BoardVerdictIs(b: seq<Byte>)
    ensures BoardVerdict(b) == BadVersion <==> |b| >= 6 && b[0] != 1
    ensures BoardVerdict(b) == BadLanguage <==> |b| >= 6 && b[0] == 1 && b[2] != 0
    ensures ValidBoard(b) ==> |b| >= 9 && b[0] == 1 && b[2] == 0 && Sum(b) % 256 == 0
    ensures BoardVerdict(b) == BadChecksum ==> |b| >= 9 && b[0] == 1 && b[2] == 0 && Sum(b) % 256 != 0
  {
    hide Sum, Checksum, SkipFields, FindEnd, ZeroBetween;
    if |b| > 0 {
      assert b == b[..|b| - 1] + [b[|b| - 1]];
      ChecksumClosesSum(b[..|b| - 1], b[|b| - 1]);
    }
    if |b| >= 6 && SkipFields(b, 6, PREDEF).Some? {
      SkipMoves(b, 6, PREDEF);
    }
  }

  lemma {:induction false} SkipMoves(b: seq<Byte>, pos: nat, n: nat)
    requires SkipFields(b, pos, n).Some?
    ensures SkipFields(b, pos, n).value >= pos
    decreases n
  {
    if n > 0 {
      SkipMoves(b, pos + 1 + FieldLength(b[pos]), n - 1);
    }
  }
}
