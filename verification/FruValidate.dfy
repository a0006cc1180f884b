/** ivfru_bia_validate and ivfru_validate in strict mode, on the image memory itself. */
module FruValidate {
  import opened Options
  import opened Bytes
  import opened FruSpec

  function BoardLength(m: seq<Byte>): nat
    requires |m| >= 10
  {
    StoredLength(m[9], m[..8] == CH_OLD)
  }

  /** The board area as delimited by the stored length byte. */
  function BoardArea(m: seq<Byte>): seq<Byte>
    requires |m| >= 10 && 8 + BoardLength(m) <= |m|
  {
    m[8..8 + BoardLength(m)]
  }

  /** The walk reads the byte after a field before looking at the remaining length. */
  predicate Readable(m: seq<Byte>) {
    |m| >= 16 && 8 + BoardLength(m) + 64 <= |m|
  }

  function ImageVerdict(m: seq<Byte>): Verdict
    requires Readable(m)
  {
    if HeaderVerdict(m[..8]) != Valid then HeaderVerdict(m[..8]) else BoardVerdict(BoardArea(m))
  }

  lemma SliceOfAll(mem: array<Byte>, lo: nat, hi: nat)
    requires lo <= hi <= mem.Length
    ensures mem[..][lo..hi] == mem[lo..hi]
  {
  }

  /** fru_calculate_checksum */
  method CalculateChecksum(mem: array<Byte>, address: nat, size: nat) returns (checksum: Byte)
    requires address + size <= mem.Length
    ensures checksum == Checksum(mem[address..address + size])
  {
    hide Sum;
    var sum: int, i := 0, 0;
    assert Sum(mem[address..address]) == 0 by { SumOfZeros(mem[address..address]); }
    while i < size
      invariant 0 <= i <= size
      invariant 0 <= sum < 256 && sum == Sum(mem[address..address + i]) % 256
    {
      SumStep(mem[..], address, i);
      SliceOfAll(mem, address, address + i);
      SliceOfAll(mem, address, address + i + 1);
      ModStep(Sum(mem[address..address + i]), mem[address + i]);
      sum := (sum + mem[address + i]) % 256;
      i := i + 1;
    }
    checksum := (0x100 - sum) % 256;
  }

  /** fru_is_old_format */
  method IsOldFormat(mem: array<Byte>) returns (old_format: bool)
    requires mem.Length >= 8
    ensures old_format <==> mem[..8] == CH_OLD
  {
    old_format := mem[..8] == CH_OLD;
  }

  /** The four fields that come before the file id. */
  method SkipPredefined(mem: array<Byte>, bia_length: nat, ghost b: seq<Byte>)
    returns (address: nat, rem_length: int, index: nat)
    requires 6 <= bia_length && 8 + bia_length + 64 <= mem.Length && b == mem[8..8 + bia_length]
    ensures address + rem_length == 8 + bia_length && rem_length >= -63
    ensures index == PREDEF && rem_length >= 0 ==> SkipFields(b, 6, PREDEF) == Some(address - 8)
    ensures index < PREDEF || rem_length < 0 ==> SkipFields(b, 6, PREDEF) == None
    ensures address >= 14 && index <= PREDEF
  {
    address, rem_length, index := 14, bia_length - 6, 0;
    while mem[address] != END && index < 4 && rem_length > 0
      invariant address + rem_length == 8 + bia_length && rem_length >= -63
      invariant 0 <= index <= PREDEF && address >= 14
      invariant rem_length >= 0 ==> SkipFields(b, 6, PREDEF) == SkipFields(b, address - 8, PREDEF - index)
      invariant rem_length < 0 ==> SkipFields(b, 6, PREDEF) == None
      decreases PREDEF - index
    {
      assert b[address - 8] == mem[address];
      var length := FieldLength(mem[address]);
      rem_length := rem_length - (1 + length);
      address := address + 1 + length;
      index := index + 1;
    }
    if rem_length > 0 {
      assert b[address - 8] == mem[address];
    }
  }

  /** From the file id to the end marker. */
  method SkipCustom(mem: array<Byte>, bia_length: nat, ghost b: seq<Byte>, start: nat)
    returns (address: nat, rem_length: int)
    requires 8 <= start < 8 + bia_length && 8 + bia_length + 64 <= mem.Length && b == mem[8..8 + bia_length]
    ensures address + rem_length == 8 + bia_length && -63 <= rem_length <= bia_length && address >= 8
    ensures mem[address] == END && rem_length >= 1 ==> FindEnd(b, start - 8) == Some(address - 8)
    ensures mem[address] != END || rem_length < 1 ==> FindEnd(b, start - 8) == None
  {
    address, rem_length := start, 8 + bia_length - start;
    while mem[address] != END && rem_length > 0
      invariant address + rem_length == 8 + bia_length && -63 <= rem_length <= bia_length
      invariant address >= 8
      invariant FindEnd(b, start - 8) == FindEnd(b, address - 8)
      decreases rem_length
    {
      assert b[address - 8] == mem[address];
      var length := FieldLength(mem[address]);
      rem_length := rem_length - (1 + length);
      address := address + 1 + length;
    }
    if rem_length > 0 {
      assert b[address - 8] == mem[address];
    }
  }

  /** Zero bytes up to the checksum. */
  method SkipPadding(mem: array<Byte>, bia_length: nat, ghost b: seq<Byte>, start: nat)
    returns (address: nat, rem_length: int)
    requires 8 < start <= 8 + bia_length && 8 + bia_length + 64 <= mem.Length && b == mem[8..8 + bia_length]
    ensures address + rem_length == 8 + bia_length && start <= address
    ensures rem_length > 1 <==> !ZeroBetween(b, start - 8, |b| - 1)
    ensures rem_length < 1 <==> start == 8 + bia_length
  {
    address, rem_length := start, 8 + bia_length - start;
    while mem[address] == 0 && rem_length > 1
      invariant address + rem_length == 8 + bia_length && start <= address && rem_length >= 0
      invariant ZeroBetween(b, start - 8, address - 8)
      invariant start < 8 + bia_length ==> rem_length >= 1
      invariant start == 8 + bia_length ==> rem_length == 0
      decreases rem_length
    {
      assert b[address - 8] == mem[address];
      address := address + 1;
      rem_length := rem_length - 1;
    }
    if rem_length > 1 {
      assert b[address - 8] == mem[address];
    }
  }

  /** ivfru_bia_validate with `ignore` off: stops at the first error. */
  method BiaValidate(mem: array<Byte>, old_format: bool) returns (res: Verdict)
    requires mem.Length >= 16 && 8 + StoredLength(mem[9], old_format) + 64 <= mem.Length
    ensures res == BoardVerdict(mem[8..8 + StoredLength(mem[9], old_format)])
  {
    hide SkipFields, FindEnd, Checksum, StoredLength, ZeroBetween, FieldLength, Sum;
    var bia_length := StoredLength(mem[9], old_format);
    ghost var b := mem[8..8 + bia_length];
    if bia_length < 6 { return PredefMissing; }
    assert b[0] == mem[8] && b[2] == mem[10];
    if mem[8] != 0x01 { return BadVersion; }
    if mem[10] != 0x00 { return BadLanguage; }
    var address, rem_length, index := SkipPredefined(mem, bia_length, b);
    if index < 4 || rem_length < 3 || mem[address] == END { return PredefMissing; }
    assert b[address - 8] == mem[address];
    if mem[address] != 0 { return BadFileId; }
    address, rem_length := SkipCustom(mem, bia_length, b, address);
    if mem[address] != END || rem_length < 1 { return MissingEnd; }
    address, rem_length := SkipPadding(mem, bia_length, b, address + 1);
    if rem_length > 1 { return BadPadding; }
    if rem_length < 1 { return MissingChecksum; }
    var checksum := CalculateChecksum(mem, 8, bia_length - 1);
    assert b[..|b| - 1] == mem[8..8 + bia_length - 1];
    assert b[|b| - 1] == mem[address];
    if checksum != mem[address] { return BadChecksum; }
    return Valid;
  }

  /** ivfru_validate with `ignore` off. */
  method Validate(mem: array<Byte>) returns (res: Verdict)
    requires Readable(mem[..])
    ensures res == ImageVerdict(mem[..])
  {
    assert mem[..][..8] == mem[..8];
    var old_format := IsOldFormat(mem);
    if !old_format {
      if mem[0] != 0x01 { return BadHeaderVersion; }
      var checksum := CalculateChecksum(mem, 0, 7);
      assert mem[..8][..7] == mem[0..7];
      if checksum != mem[7] { return BadHeaderChecksum; }
      if mem[3] != 0x01 { return BadBoardOffset; }
    }
    assert BoardArea(mem[..]) == mem[8..8 + StoredLength(mem[9], old_format)];
    res := BiaValidate(mem, old_format);
  }

  /** The memory starts with the printing of the well-formed image `s`. */
  predicate Holds(m: seq<Byte>, s: Image)
    requires Readable(m)
  {
    var old_format := m[..8] == CH_OLD;
    WfImage(s, old_format) && PrintImage(s, old_format) == m[..8 + BoardLength(m)]
  }

  /** Strict validation succeeds exactly on the memories that hold an image. */
  lemma {:induction false} StrictValidIffPrinting(m: seq<Byte>)
    requires Readable(m)
    ensures ImageVerdict(m) == Valid <==> exists s :: Holds(m, s)
  {
    if ImageVerdict(m) == Valid {
      var s := ImageOf(m);
    }
    forall s | Holds(m, s)
      ensures ImageVerdict(m) == Valid
    {
      HeldImageIsValid(m, s);
    }
  }

  /** A memory holds at most one image. */
  lemma {:induction false} HeldImageIsUnique(m: seq<Byte>, s: Image, t: Image)
    requires Readable(m) && Holds(m, s) && Holds(m, t)
    ensures s == t
  {
    hide PrintBoard, Fits, Checksum;
    var old_format := m[..8] == CH_OLD;
    var all := m[..8 + BoardLength(m)];
    assert s.header == all[..8] == t.header;
    assert PrintBoard(s.board, old_format) == all[8..] == PrintBoard(t.board, old_format);
    PrintingIsInjective(s.board, t.board, old_format, old_format);
  }

  lemma {:induction false} HeldImageIsValid(m: seq<Byte>, s: Image)
    requires Readable(m) && Holds(m, s)
    ensures ImageVerdict(m) == Valid
    ensures s.header == m[..8] && Size(s.board) == BoardLength(m)
    ensures BoardArea(m) == PrintBoard(s.board, m[..8] == CH_OLD)
  {
    hide PrintBoard, WfBoard, BoardVerdict, Checksum;
    var old_format := m[..8] == CH_OLD;
    var all := m[..8 + BoardLength(m)];
    PrintingIsValid(s.board, old_format);
    assert s.header == all[..8] == m[..8];
    assert BoardArea(m) == all[8..] == PrintBoard(s.board, old_format);
    assert ValidBoard(BoardArea(m));
  }

  /** The image a strictly valid memory holds. */
  lemma {:induction false} ImageOf(m: seq<Byte>) returns (s: Image)
    requires Readable(m) && ImageVerdict(m) == Valid
    ensures Holds(m, s)
  {
    hide PrintBoard, WfBoard, BoardVerdict, Checksum;
    var b := BoardArea(m);
    assert ValidBoard(b);
    ValidBoardIsLong(b);
    assert b[1] == m[9];
    var board := ValidIsPrinting(b, m[..8] == CH_OLD);
    s := Image(m[..8], board);
    assert m[..8 + BoardLength(m)] == m[..8] + b;
  }

  /** Only the image bytes decide what a memory holds. */
  lemma {:induction false} HoldsByPrefix(m: seq<Byte>, m': seq<Byte>, s: Image)
    requires Readable(m) && Holds(m, s)
    requires 8 + BoardLength(m) + 64 <= |m'| && m'[..8 + BoardLength(m)] == m[..8 + BoardLength(m)]
    ensures Readable(m') && BoardLength(m') == BoardLength(m) && Holds(m', s)
  {
    hide PrintImage, WfImage, ImageVerdict, StoredLength;
    HeldImageIsValid(m, s);
    BoardIsLong(m);
    SameFront(m, m', 8 + BoardLength(m));
  }

  lemma SameFront(m: seq<Byte>, m': seq<Byte>, n: nat)
    requires 10 <= n <= |m| && n <= |m'| && m'[..n] == m[..n]
    ensures m'[..8] == m[..8] && m'[9] == m[9]
  {
    assert m'[..8] == m'[..n][..8] == m[..n][..8] == m[..8];
    assert m'[9] == m'[..n][9] == m[..n][9] == m[9];
  }

  lemma BoardIsLong(m: seq<Byte>)
    requires Readable(m) && ImageVerdict(m) == Valid
    ensures BoardLength(m) >= 6
  {
    hide BoardVerdict;
    assert ValidBoard(BoardArea(m));
    ValidBoardIsLong(BoardArea(m));
  }

  lemma ValidBoardIsLong(b: seq<Byte>)
    requires ValidBoard(b)
    ensures |b| >= 6
  {
  }
}
