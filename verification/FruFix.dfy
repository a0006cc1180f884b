/** ivfru_fix: from the old length format (bytes) to the new one (8-byte units). */
module FruFix {
  import opened Bytes
  import opened FruSpec
  import opened FruValidate
  import opened FruEdit

  /** The length byte divided by 8, a byte again. */
  function Eighth(b: Byte): (r: Byte)
    ensures r == b / 8
  {
    b / 8
  }

  /** The header after the fix: offset 1 and its checksum, which is CH_DEFAULT. */
  function FixedHeader(m: seq<Byte>): (h: seq<Byte>)
    requires |m| >= 8
    ensures |h| == 8
  {
    var h := m[..8][3 := 1];
    h[7 := Checksum(h[..7])]
  }

  /** The board after the fix: length divided by 8, checksum where it was. */
  function FixedBoard(b: seq<Byte>): (r: seq<Byte>)
    requires |b| >= 2
    ensures |r| == |b|
  {
    var c := b[1 := Eighth(b[1])];
    c[|b| - 1 := Checksum(c[..|b| - 1])]
  }

  /** The whole memory after the fix of an old-format image with a board of `n` bytes. */
  function FixedImage(m: seq<Byte>, n: nat): (r: seq<Byte>)
    requires 1 <= n && 10 <= |m| && 8 + n <= |m|
    ensures |r| == |m|
  {
    var c: seq<Byte> := (FixedHeader(m) + m[8..])[9 := Eighth(m[9])];
    c[8 + n - 1 := Checksum(c[8..8 + n - 1])]
  }

  /**
   ivfru_fix. It does not validate; the source needs a board length of at least 1 byte to
   find the checksum. Only four bytes are written, and a second fix is refused.
   */
  method Fix(mem: array<Byte>) returns (ret: Ret, length: nat)
    requires mem.Length >= 10
    requires mem[..8] == CH_OLD ==> 1 <= mem[9] && 8 + BoardLength(mem[..]) <= mem.Length
    modifies mem
    ensures ret == FruNewFormat <==> old(mem[..8]) != CH_OLD
    ensures ret == Success <==> old(mem[..8]) == CH_OLD
    ensures ret == FruNewFormat ==> mem[..] == old(mem[..])
    ensures ret == Success ==>
              && length == 8 + BoardLength(old(mem[..])) && length <= mem.Length
              && mem[..] == FixedImage(old(mem[..]), length - 8)
              && (forall i :: 0 <= i < mem.Length && i !in {3, 7, 9, length - 1} ==> mem[i] == old(mem[i]))
              && (length > 9 ==> mem[..8] == CH_DEFAULT)
  {
    hide Checksum;
    ghost var m := mem[..];
    assert m[..8] == mem[..8];
    var old_format := IsOldFormat(mem);
    if !old_format { return FruNewFormat, 0; }
    FixedHeaderIsDefault(m);
    var bia_len: int := mem[9];
    mem[3] := 0x01;
    assert mem[0..7] == m[..8][3 := 1][..7];
    var checksum := CalculateChecksum(mem, 0, 7);
    mem[7] := checksum;
    assert mem[..8] == FixedHeader(m);
    mem[9] := mem[9] / 0x08;
    ghost var c := (FixedHeader(m) + m[8..])[9 := Eighth(m[9])];
    assert mem[..] == c;
    checksum := CalculateChecksum(mem, 8, bia_len - 1);
    assert mem[8..8 + bia_len - 1] == c[8..8 + bia_len - 1];
    mem[8 + bia_len - 1] := checksum;
    length := bia_len + 8;
    ret := Success;
    assert mem[..] == FixedImage(m, length - 8);
    assert mem[..8] == FixedImage(m, length - 8)[..8] == FixedHeader(m);
  }

  lemma FixedHeaderIsDefault(m: seq<Byte>)
    requires |m| >= 8 && m[..8] == CH_OLD
    ensures FixedHeader(m) == CH_DEFAULT && WfHeader(CH_DEFAULT, false)
  {
    hide Checksum;
    var h: seq<Byte> := [1, 0, 0, 1, 0, 0, 0, 0xF7];
    assert m[..8][3 := 1] == h;
    assert h[..7] == [1, 0, 0, 1, 0, 0, 0];
    DefaultHeaderIsWf();
  }

  lemma ZerosKept(b: seq<Byte>, r: seq<Byte>, lo: nat)
    requires |r| == |b| >= 2 && r == FixedBoard(b) && 2 <= lo
    ensures ZeroBetween(b, lo, |b| - 1) ==> ZeroBetween(r, lo, |b| - 1)
  {
    hide Checksum;
  }

  lemma {:induction false} FixedBoardIsLaid(s: Board, b: seq<Byte>)
    requires WfBoard(s, true) && b == PrintBoard(s, true)
    ensures |b| == Size(s) && b[1] == Size(s)
    ensures Laid(FixedBoard(b), s, Size(s) / 8)
  {
    hide FieldsBytes, WfFields, Sum, Checksum, ZeroBetween;
    PrintingIsLaid(s, LengthByte(Size(s), true), b);
    assert b[1] == b[..3][1];
    var r := FixedBoard(b);
    ZerosKept(b, r, 6 + |FieldsBytes(s.predef)| + 1 + |FieldsBytes(s.custom)| + 1);
    var p := 6 + |FieldsBytes(s.predef)|;
    var e := p + 1 + |FieldsBytes(s.custom)|;
    assert r[..3] == b[..3][1 := Size(s) / 8];
    assert r[3..6] == b[3..6] && r[6..p] == b[6..p] && r[p + 1..e] == b[p + 1..e];
    assert r[..|r| - 1] == b[1 := Eighth(b[1])][..|r| - 1];
  }

  /** What a valid old board turns into: its padding loses what the division by 8 drops. */
  function FixedStructure(s: Board): Board {
    if s.pad >= Size(s) % 8 then s.(pad := s.pad - Size(s) % 8) else s
  }

  /**
   When the fix yields a valid board, from the old board and its checksum byte. A byte length
   that is a multiple of 8 always does; otherwise there must be enough padding to lose, and
   the old checksum must be the one that makes the rest sum to zero under the new length.
   */
  predicate Fixable(s: Board, checksum: Byte) {
    var rest := Size(s) % 8;
    rest == 0 || (s.pad >= rest && checksum == (Size(s) / 8 - Size(s)) % 256)
  }

  /** The cut board's own checksum is zero exactly when the old checksum made up for the old length byte. */
  lemma CutSumsToZeroIff(s: Board, b: seq<Byte>, rest: nat)
    requires WfBoard(s, true) && b == PrintBoard(s, true) && 0 < rest <= s.pad
    ensures |b| == Size(s) && rest < |b|
    ensures Checksum(FixedBoard(b)[..|b| - rest - 1]) == 0 <==> b[|b| - 1] == (Size(s) / 8 - Size(s)) % 256
  {
    hide FieldsBytes, WfFields, Sum, Checksum, PrintBoard, Laid, FixedBoard, Size;
    FixedBoardIsLaid(s, b);
    CutSum(s, b, rest);
    var size, x: int := Size(s), Sum(b[..|b| - 1]);
    SumAndChecksum(x, b[|b| - 1], size);
    ZeroChecksum(FixedBoard(b)[..|b| - rest - 1]);
  }

  lemma ZeroChecksum(s: seq<Byte>)
    ensures Checksum(s) == 0 <==> Sum(s) % 256 == 0
  {
    hide Sum;
  }

  lemma SumAndChecksum(x: int, c: Byte, size: int)
    requires 0 <= size < 256 && (x + c) % 256 == 0
    ensures (x - size + size / 8) % 256 == 0 <==> c == (size / 8 - size) % 256
  {
    var d: int := size / 8 - size;
    SameResidue(x, c, d);
  }

  lemma SameResidue(x: int, c: Byte, d: int)
    requires -256 < d <= 0 && (x + c) % 256 == 0
    ensures (x + d) % 256 == 0 <==> c == d % 256
  {
    var k: int, e: int := (x + c) / 256, if d < 0 then d + 256 else d;
    assert x == 256 * k - c && d % 256 == e;
    assert (x + d) % 256 == (e - c) % 256;
  }

  lemma CutSum(s: Board, b: seq<Byte>, rest: nat)
    requires WfBoard(s, true) && b == PrintBoard(s, true) && 0 < rest <= s.pad
    ensures |b| == Size(s) && rest < |b| && Size(s) < 256 && (Sum(b[..|b| - 1]) + b[|b| - 1]) % 256 == 0
    ensures Sum(FixedBoard(b)[..|b| - rest - 1]) == Sum(b[..|b| - 1]) - Size(s) + Size(s) / 8
  {
    hide FieldsBytes, WfFields, Sum, Checksum;
    FixedBoardIsLaid(s, b);
    PrintingIsLaid(s, LengthByte(Size(s), true), b);
    var n, r := |b|, FixedBoard(b);
    assert r[..n - 1] == b[..n - 1][1 := Eighth(b[1])];
    SumUpdate(b[..n - 1], 1, Eighth(b[1]));
    JoinSlices(r, 0, n - rest - 1, n - 1);
    assert r[..n - 1] == r[0..n - 1] && r[..n - rest - 1] == r[0..n - rest - 1];
    SumAppend(r[..n - rest - 1], r[n - rest - 1..n - 1]);
    SumOfZeros(r[n - rest - 1..n - 1]);
  }

  lemma {:induction false} CutIsLaid(r: seq<Byte>, s: Board, len: Byte, rest: nat)
    requires WfShape(s) && Laid(r, s, len) && 0 < rest <= s.pad
    requires Checksum(r[..|r| - rest - 1]) == 0
    ensures Laid(r[..|r| - rest], s.(pad := s.pad - rest), len)
  {
    hide FieldsBytes, Checksum, WfFields;
    var n := |r| - rest;
    var c := r[..n];
    var p := 6 + |FieldsBytes(s.predef)|;
    var e := p + 1 + |FieldsBytes(s.custom)|;
    PrefixSlice(r, n, 0, n - 1);
    PrefixSlice(r, n, 0, 3);
    PrefixSlice(r, n, 3, 6);
    PrefixSlice(r, n, 6, p);
    PrefixSlice(r, n, p + 1, e);
    assert c[..n - 1] == c[0..n - 1] && r[..n - 1] == r[0..n - 1];
    assert c[..3] == c[0..3] && r[..3] == r[0..3];
  }

  lemma {:induction false} CutNeedsPadding(r: seq<Byte>, s: Board, len: Byte, rest: nat)
    requires WfShape(s) && Laid(r, s, len) && 0 < rest <= |r| && ValidBoard(r[..|r| - rest])
    ensures s.pad >= rest && rest < |r| && Checksum(r[..|r| - rest - 1]) == 0
  {
    hide FieldsBytes, Checksum, WfFields, SkipFields, FindEnd, ValidBoard;
    var n := |r| - rest;
    var c := r[..n];
    LaidIsWalked(s, len, r);
    ValidWalks(c);
    var t := ValidIsLaid(c);
    LaidIsWalked(t, c[1], c);
    SkipInPrefix(r, n, 6, PREDEF);
    FindEndInPrefix(r, n, 6 + |FieldsBytes(s.predef)|);
    assert c[..n - 1] == r[..n - 1];
  }

  /**
   After a fix of a strictly valid old image: strictly valid in the new format exactly when
   Fixable, and then with the same fields, date and custom list behind the default header.
   */
  lemma {:induction false} FixedValidIffFixable(m: seq<Byte>, m': seq<Byte>, s: Image)
    requires Readable(m) && m[..8] == CH_OLD && Holds(m, s) && m[9] >= 1
    requires m' == FixedImage(m, BoardLength(m))
    ensures Readable(m') && 8 + Size(s.board) <= |m'|
    ensures ImageVerdict(m') == Valid <==> Fixable(s.board, m[7 + Size(s.board)])
    ensures ImageVerdict(m') == Valid ==> Holds(m', Image(CH_DEFAULT, FixedStructure(s.board)))
    ensures Size(s.board) % 8 == 0 ==> Holds(m', Image(CH_DEFAULT, s.board))
  {
    hide FieldsBytes, Checksum, WfFields, PrintBoard, BoardVerdict, Laid, FixedImage, BoardArea, Holds;
    hide ImageVerdict, Readable, WfShape, Size;
    FixedView(m, m', s);
    var size := Size(s.board);
    var r := m'[8..8 + size];
    var rest := size % 8;
    if rest == 0 {
      assert r[..size] == r;
      FixedHolds(m', s.board, r);
    } else {
      VerdictOfDefault(m');
      FixableIff(m, m', s);
      if ImageVerdict(m') == Valid {
        CutNeedsPadding(r, s.board, size / 8, rest);
      }
      if Fixable(s.board, m[7 + size]) {
        CutIsLaid(r, s.board, size / 8, rest);
        PadSize(s.board, rest);
        FixedHolds(m', FixedStructure(s.board), r[..size - rest]);
      }
    }
  }

  /** Fixable, said of the fixed bytes. */
  lemma FixableIff(m: seq<Byte>, m': seq<Byte>, s: Image)
    requires Readable(m) && m[..8] == CH_OLD && Holds(m, s) && m[9] >= 1
    requires m' == FixedImage(m, BoardLength(m)) && Size(s.board) % 8 != 0
    ensures 8 + Size(s.board) <= |m'| && Size(s.board) >= 9
    ensures var rest, r := Size(s.board) % 8, m'[8..8 + Size(s.board)];
            Fixable(s.board, m[7 + Size(s.board)]) <==> s.board.pad >= rest && Checksum(r[..|r| - rest - 1]) == 0
  {
    hide FieldsBytes, Checksum, WfFields, PrintBoard, BoardVerdict, Laid, FixedImage, FixedHeader, FixedBoard;
    HeldImageIsValid(m, s);
    var b := PrintBoard(s.board, true);
    FixedBoardIsLaid(s.board, b);
    FixedParts(m, b);
    assert m[7 + |b|] == b[|b| - 1];
    var rest := Size(s.board) % 8;
    if s.board.pad >= rest {
      CutSumsToZeroIff(s.board, b, rest);
    }
  }

  lemma PadSize(s: Board, rest: nat)
    requires rest <= s.pad && WfShape(s)
    ensures Size(s.(pad := s.pad - rest)) == Size(s) - rest
    ensures WfShape(s.(pad := s.pad - rest))
  {
  }

  lemma VerdictOfDefault(m: seq<Byte>)
    requires Readable(m) && m[..8] == CH_DEFAULT
    ensures ImageVerdict(m) == Valid <==> ValidBoard(BoardArea(m))
  {
    hide Checksum, BoardVerdict;
    FixedHeaderIsDefault(CH_OLD);
  }

  /** The fixed memory: default header, and a board area cut to a multiple of 8 bytes. */
  lemma {:induction false} FixedView(m: seq<Byte>, m': seq<Byte>, s: Image)
    requires Readable(m) && m[..8] == CH_OLD && Holds(m, s) && m[9] >= 1
    requires m' == FixedImage(m, BoardLength(m))
    ensures WfShape(s.board) && Size(s.board) < 256 && 8 + Size(s.board) <= |m'|
    ensures m'[..8] == CH_DEFAULT && Readable(m') && m'[9] == Size(s.board) / 8
    ensures var r := m'[8..8 + Size(s.board)];
            Laid(r, s.board, m'[9]) && BoardArea(m') == r[..Size(s.board) - Size(s.board) % 8]
  {
    hide FieldsBytes, Checksum, WfFields, PrintBoard, BoardVerdict, Laid, FixedImage, FixedHeader, FixedBoard;
    HeldImageIsValid(m, s);
    FixedHeaderIsDefault(m);
    var b := PrintBoard(s.board, true);
    FixedBoardIsLaid(s.board, b);
    FixedParts(m, b);
    LaidLength(FixedBoard(b), s.board, Size(s.board) / 8);
    var size := Size(s.board);
    assert m'[9] == m'[8..8 + size][1];
    assert BoardLength(m') == size - size % 8;
    assert m'[8..8 + size][..size - size % 8] == m'[8..8 + (size - size % 8)];
  }

  lemma {:induction false} FixedParts(m: seq<Byte>, b: seq<Byte>)
    requires 2 <= |b| && 8 + |b| <= |m| && m[8..8 + |b|] == b
    ensures FixedImage(m, |b|)[..8] == FixedHeader(m)
    ensures FixedImage(m, |b|)[8..8 + |b|] == FixedBoard(b)
  {
    hide Checksum;
    var c := (FixedHeader(m) + m[8..])[9 := Eighth(m[9])];
    assert m[9] == b[1];
    assert c[8..8 + |b|] == b[1 := Eighth(b[1])];
    assert c[8..8 + |b| - 1] == b[1 := Eighth(b[1])][..|b| - 1];
  }

  lemma LaidLength(b: seq<Byte>, s: Board, len: Byte)
    requires |s.date| == 3 && Laid(b, s, len)
    ensures |b| == Size(s) && b[1] == len
  {
    hide FieldsBytes, Checksum;
    assert b[1] == b[..3][1];
  }

  lemma {:induction false} FixedHolds(m: seq<Byte>, t: Board, r: seq<Byte>)
    requires Readable(m) && m[..8] == CH_DEFAULT && BoardArea(m) == r
    requires WfShape(t) && Laid(r, t, m[9]) && Size(t) == StoredLength(m[9], false)
    ensures Holds(m, Image(CH_DEFAULT, t)) && ImageVerdict(m) == Valid
  {
    hide FieldsBytes, Checksum, WfFields, BoardVerdict, Laid, HeaderVerdict, BoardBody, Size, WfShape;
    LaidIsPrinting(t, m[9], r);
    LengthByteRoundTrip(Size(t), m[9], false);
    assert m[..8 + BoardLength(m)] == CH_DEFAULT + r;
    FixedHeaderIsDefault(CH_OLD);
    HeldImageIsValid(m, Image(CH_DEFAULT, t));
  }

  /** Most old boards are beyond repair: 13 bytes without padding, whatever the checksum. */
  lemma UnfixableBoard(checksum: Byte)
    ensures var f := Field(0, []);
            var s := Board([0, 0, 0], [f, f, f, f], [], 0);
            WfBoard(s, true) && !Fixable(s, checksum)
  {
    var f := Field(0, []);
    assert FieldsBytes([f, f, f, f]) == [0] + FieldsBytes([f, f, f]);
    assert FieldsBytes([f, f, f]) == [0] + FieldsBytes([f, f]);
    assert FieldsBytes([f, f]) == [0] + FieldsBytes([f]);
  }
}
