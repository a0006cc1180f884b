/** ivfru_add and ivfru_rm: inserting and removing custom fields in place. */
module FruEdit {
  import opened Bytes
  import opened FruSpec
  import opened FruValidate
  import opened Memory

  datatype Ret = Success | InvalidArgument | InvalidFruData | FruOldFormat | FruNewFormat

  // ------------------------------------------------------ the edits on structures

  /** Zero bytes needed after `used` bytes to reach a multiple of 8. */
  function PadTo8(used: nat): (pad: nat)
    ensures pad < 8 && (used + pad) % 8 == 0
  {
    (used + 7) / 8 * 8 - used
  }

  function Unpadded(s: Board): nat {
    9 + |FieldsBytes(s.predef)| + |FieldsBytes(s.custom)|
  }

  /** `s` with another custom list and the minimal padding. */
  function WithCustom(s: Board, custom: seq<Field>): Board {
    var t := s.(custom := custom);
    t.(pad := PadTo8(Unpadded(t)))
  }

  /** Where ivfru_add inserts: negative or past the end means the end. */
  function InsertPosition(index: int, count: nat): (k: nat)
    ensures k <= count
  {
    if index < 0 || index > count then count else index
  }

  function Inserted(fs: seq<Field>, k: nat, f: Field): seq<Field>
    requires k <= |fs|
  {
    fs[..k] + [f] + fs[k..]
  }

  function Removed(fs: seq<Field>, k: nat): seq<Field>
    requires k < |fs|
  {
    fs[..k] + fs[k + 1..]
  }

  /** fru_make_tl_byte for IVFRU_TLB_TYPE_11 accepts every length but 1 and those over 63. */
  predicate EncodableLength(n: nat) {
    n <= 63 && n != 1
  }

  function CustomField(data: seq<Byte>): (f: Field)
    requires EncodableLength(|data|)
    ensures WfField(f) && f.data == data
  {
    Field(0xC0 + |data|, data)
  }

  function AddedBoard(s: Board, index: int, data: seq<Byte>): Board
    requires EncodableLength(|data|)
  {
    WithCustom(s, Inserted(s.custom, InsertPosition(index, |s.custom|), CustomField(data)))
  }

  function RemovedBoard(s: Board, index: nat): Board
    requires index < |s.custom|
  {
    WithCustom(s, Removed(s.custom, index))
  }

  /** Only the custom list changed, and the padding is the least that makes a multiple of 8. */
  predicate SameButCustom(s: Board, t: Board) {
    t.date == s.date && t.predef == s.predef && t.pad < 8 && Size(t) % 8 == 0
  }

  /** The new field is where the index says, after all others for any index that is not a position. */
  predicate IsAdded(s: Board, t: Board, index: int, f: Field) {
    && SameButCustom(s, t)
    && (index < 0 ==> t.custom == s.custom + [f])
    && (index > |s.custom| ==> t.custom == s.custom + [f])
    && (0 <= index <= |s.custom| ==> t.custom == s.custom[..index] + [f] + s.custom[index..])
  }

  predicate IsRemoved(s: Board, t: Board, index: int) {
    && SameButCustom(s, t)
    && 0 <= index < |s.custom| && t.custom == s.custom[..index] + s.custom[index + 1..]
  }

  lemma AddedIs(s: Board, index: int, data: seq<Byte>)
    requires EncodableLength(|data|)
    ensures IsAdded(s, AddedBoard(s, index, data), index, Field(0xC0 + |data|, data))
  {
    hide FieldsBytes, PadTo8;
    assert s.custom[..|s.custom|] == s.custom;
  }

  lemma RemovedIs(s: Board, index: nat)
    requires index < |s.custom|
    ensures IsRemoved(s, RemovedBoard(s, index), index)
  {
    hide FieldsBytes, PadTo8;
  }

  // ---------------------------------------------------------- walking a held board

  /** `board` is printed at offset 8 of `m` with length byte `len`. */
  predicate BoardAt(m: seq<Byte>, s: Board, len: Byte) {
    8 + Size(s) <= |m| && Laid(m[8..8 + Size(s)], s, len)
  }

  lemma {:induction false} FieldAt(b: seq<Byte>, pos: nat, fs: seq<Field>, k: nat)
    requires WfFields(fs) && k < |fs|
    requires pos + |FieldsBytes(fs)| <= |b| && b[pos..pos + |FieldsBytes(fs)|] == FieldsBytes(fs)
    ensures |FieldsBytes(fs[..k + 1])| == |FieldsBytes(fs[..k])| + 1 + FieldLength(fs[k].tl) <= |FieldsBytes(fs)|
    ensures b[pos + |FieldsBytes(fs[..k])|] == fs[k].tl
  {
    hide FieldsBytes;
    FieldsBytesSplit(fs, k);
    FieldsBytesStep(fs, k);
    var all := FieldsBytes(fs);
    assert all[|FieldsBytes(fs[..k])|] == fs[k].tl;
  }

  lemma {:induction false} PredefAt(m: seq<Byte>, s: Board, len: Byte, k: nat)
    requires WfShape(s) && BoardAt(m, s, len) && k < PREDEF
    ensures PredefOffset(s, k + 1) == PredefOffset(s, k) + 1 + FieldLength(s.predef[k].tl) < Size(s)
    ensures m[8 + PredefOffset(s, k)] == s.predef[k].tl
  {
    hide FieldsBytes, Checksum, FieldLength;
    var b := m[8..8 + Size(s)];
    FieldAt(b, 6, s.predef, k);
  }

  lemma {:induction false} FileIdAt(m: seq<Byte>, s: Board, len: Byte)
    requires WfShape(s) && BoardAt(m, s, len)
    ensures CustomOffset(s, 0) == PredefOffset(s, PREDEF) + 1 < Size(s)
    ensures m[8 + PredefOffset(s, PREDEF)] == 0
  {
    hide Checksum;
    assert s.predef[..PREDEF] == s.predef;
    var b := m[8..8 + Size(s)];
    assert b[PredefOffset(s, PREDEF)] == 0;
  }

  lemma {:induction false} CustomAt(m: seq<Byte>, s: Board, len: Byte, k: nat)
    requires WfShape(s) && BoardAt(m, s, len) && k < |s.custom|
    ensures CustomOffset(s, k + 1) == CustomOffset(s, k) + 1 + FieldLength(s.custom[k].tl) < Size(s)
    ensures m[8 + CustomOffset(s, k)] == s.custom[k].tl != END
  {
    hide FieldsBytes, Checksum, FieldLength;
    var b := m[8..8 + Size(s)];
    FieldAt(b, 7 + |FieldsBytes(s.predef)|, s.custom, k);
  }

  lemma {:induction false} EndAt(m: seq<Byte>, s: Board, len: Byte)
    requires WfShape(s) && BoardAt(m, s, len)
    ensures CustomOffset(s, |s.custom|) + 2 + s.pad == Size(s)
    ensures m[8 + CustomOffset(s, |s.custom|)] == END
  {
    hide Checksum;
    assert s.custom[..|s.custom|] == s.custom;
    var b := m[8..8 + Size(s)];
    assert b[CustomOffset(s, |s.custom|)] == END;
  }

  /** "Get to the end of the 5 pre-defined fields." */
  method FirstCustom(mem: array<Byte>, ghost s: Board, ghost len: Byte) returns (address: nat)
    requires WfShape(s) && BoardAt(mem[..], s, len)
    ensures address == 8 + CustomOffset(s, 0)
  {
    hide FieldsBytes, Laid;
    assert s.predef[..0] == [];
    EmptyFields();
    address := 14;
    FileIdAt(mem[..], s, len);
    for i := 0 to 5
      invariant i <= PREDEF ==> address == 8 + PredefOffset(s, i)
      invariant i == 5 ==> address == 8 + CustomOffset(s, 0)
    {
      if i < PREDEF {
        PredefAt(mem[..], s, len, i);
      }
      address := address + 1 + FieldLength(mem[address]);
    }
  }

  lemma EmptyFields()
    ensures FieldsBytes([]) == []
  {
  }

  /** How many custom fields the index walk steps over. */
  function WalkedTo(index: int, count: nat): (k: nat)
    ensures k <= count
  {
    if index <= 0 then 0 else if index <= count then index else count
  }

  /** "Go to i-th custom field": stops there or at the end marker, with what is left of the index. */
  method GoToCustom(mem: array<Byte>, start: nat, index: int, ghost s: Board, ghost len: Byte)
    returns (address: nat, rest: int)
    requires WfShape(s) && BoardAt(mem[..], s, len) && start == 8 + CustomOffset(s, 0)
    ensures address == 8 + CustomOffset(s, WalkedTo(index, |s.custom|))
    ensures rest == index - WalkedTo(index, |s.custom|)
  {
    hide FieldsBytes, Laid, CustomOffset;
    address, rest := start, index;
    ghost var k := 0;
    EndAt(mem[..], s, len);
    CustomWithin(s, 0);
    while mem[address] != END && rest > 0
      invariant k <= |s.custom| && address == 8 + CustomOffset(s, k) && address < 8 + Size(s)
      invariant rest == index - k && (index < 0 ==> k == 0) && (index >= 0 ==> rest >= 0)
      decreases rest
    {
      CustomAt(mem[..], s, len, k);
      address := address + 1 + FieldLength(mem[address]);
      rest, k := rest - 1, k + 1;
    }
    if k < |s.custom| {
      CustomAt(mem[..], s, len, k);
    }
  }

  lemma {:induction false} CustomWithin(s: Board, k: nat)
    requires k <= |s.custom|
    ensures CustomOffset(s, k) < Size(s)
  {
    FieldsBytesSplit(s.custom, k);
  }

  /** "Find end": the address after the end marker. */
  method FindEndAddress(mem: array<Byte>, start: nat, ghost k: nat, ghost s: Board, ghost len: Byte)
    returns (end: nat)
    requires WfShape(s) && BoardAt(mem[..], s, len) && k <= |s.custom| && start == 8 + CustomOffset(s, k)
    ensures end == 9 + CustomOffset(s, |s.custom|)
  {
    hide FieldsBytes, Laid, CustomOffset;
    end := start;
    ghost var j := k;
    EndAt(mem[..], s, len);
    CustomWithin(s, k);
    while mem[end] != END
      invariant k <= j <= |s.custom| && end == 8 + CustomOffset(s, j) && end < 8 + Size(s)
      decreases |s.custom| - j
    {
      CustomAt(mem[..], s, len, j);
      end := end + 1 + FieldLength(mem[end]);
      j := j + 1;
    }
    if j < |s.custom| {
      CustomAt(mem[..], s, len, j);
    }
    end := end + 1;
  }

  // --------------------------------------------------------- rewriting the bytes

  /** The board up to and including the end marker, before padding and checksum. */
  function Marked(s: Board, len: Byte): seq<Byte> {
    [1, len, 0] + s.date + FieldsBytes(s.predef) + [0] + FieldsBytes(s.custom) + [END]
  }

  /** The part of the board before custom field k, and the part from it to the end marker. */
  function Front(s: Board, len: Byte, k: nat): seq<Byte>
    requires k <= |s.custom|
  {
    [1, len, 0] + s.date + FieldsBytes(s.predef) + [0] + FieldsBytes(s.custom[..k])
  }

  function Back(s: Board, k: nat): seq<Byte>
    requires k <= |s.custom|
  {
    FieldsBytes(s.custom[k..]) + [END]
  }

  lemma {:induction false} MarkedSplits(s: Board, len: Byte, k: nat)
    requires WfShape(s) && k <= |s.custom|
    ensures Marked(s, len) == Front(s, len, k) + Back(s, k)
    ensures |Front(s, len, k)| == CustomOffset(s, k)
    ensures |Marked(s, len)| == CustomOffset(s, |s.custom|) + 1 == Unpadded(s) - 1
  {
    hide FieldsBytes;
    FieldsBytesSplit(s.custom, k);
    assert s.custom[..|s.custom|] == s.custom;
  }

  /** Inserting a field in the list inserts its bytes at its offset. */
  lemma {:induction false} InsertedBytes(s: Board, len: Byte, k: nat, f: Field)
    requires WfShape(s) && k <= |s.custom|
    ensures Marked(WithCustom(s, Inserted(s.custom, k, f)), len) == Front(s, len, k) + FieldBytes(f) + Back(s, k)
  {
    hide FieldsBytes;
    FieldsBytesAppend(s.custom[..k], [f]);
    FieldsBytesAppend(s.custom[..k] + [f], s.custom[k..]);
    FieldsBytesOne(f);
  }

  /** Removing a field from the list removes its bytes. */
  lemma {:induction false} RemovedBytes(s: Board, len: Byte, k: nat)
    requires WfShape(s) && k < |s.custom|
    ensures Marked(WithCustom(s, Removed(s.custom, k)), len) == Front(s, len, k) + Back(s, k)[|FieldBytes(s.custom[k])|..]
  {
    hide FieldsBytes;
    FieldsBytesAppend(s.custom[..k], s.custom[k + 1..]);
    FieldsBytesStep(s.custom, k);
    assert Back(s, k)[|FieldBytes(s.custom[k])|..] == FieldsBytes(s.custom[k + 1..]) + [END];
  }

  lemma {:induction false} BodyFromMarked(s: Board, len: Byte, len': Byte)
    requires WfShape(s)
    ensures BoardBody(s, len') == Marked(s, len)[1 := len'] + Zeros(s.pad)
  {
    hide FieldsBytes;
    assert Marked(s, len)[1 := len'] == Marked(s, len');
  }

  /** A held board is laid out at offset 8, in either length format, and starts with its marked part. */
  lemma {:induction false} HeldIsMarked(m: seq<Byte>, s: Image)
    requires Readable(m) && Holds(m, s)
    ensures WfShape(s.board) && BoardAt(m, s.board, m[9])
    ensures m[8..8 + Unpadded(s.board) - 1] == Marked(s.board, m[9])
  {
    hide FieldsBytes, Checksum, Marked, Fits, BoardVerdict, Laid, BoardBody, StoredLength, ImageVerdict, Size, Unpadded;
    HeldImageIsValid(m, s);
    var b := BoardArea(m);
    PrintedParts(s.board, LengthByte(Size(s.board), m[..8] == CH_OLD), b);
    assert m[9] == b[1];
    SliceOfSlice(m, 8, 8 + Size(s.board), 0, Unpadded(s.board) - 1);
  }

  lemma {:induction false} PrintedParts(s: Board, len: Byte, b: seq<Byte>)
    requires WfShape(s) && b == BoardBody(s, len) + [Checksum(BoardBody(s, len))]
    ensures Laid(b, s, len) && |b| == Size(s) && 1 < |b| && b[1] == len
    ensures 1 <= Unpadded(s) <= Size(s) && b[0..Unpadded(s) - 1] == Marked(s, len)
  {
    PrintingIsLaid(s, len, b);
    assert b[1] == b[..3][1] by { hide FieldsBytes, Checksum; }
    hide FieldsBytes, Checksum, Marked, Laid, BoardBody, WfShape;
    BodyFromMarked(s, len, len);
    MarkedSplits(s, len, 0);
    MarkedLength(s, len);
    assert Marked(s, len)[1 := len] == Marked(s, len);
  }

  lemma MarkedLength(s: Board, len: Byte)
    ensures |Marked(s, len)| > 1 && Marked(s, len)[1] == len
  {
  }

  /** Zero padding to a multiple of 8, then the length byte, then the checksum of the result. */
  function Padded(m: seq<Byte>, end: nat): (r: seq<Byte>)
    requires 10 <= end && end + 9 <= |m|
    ensures |r| == |m|
  {
    var pad := PadTo8(end - 7);
    Splice(m, end, Zeros(pad))[9 := LengthByte(end - 7 + pad, false)]
  }

  function FixedUp(m: seq<Byte>, end: nat): (r: seq<Byte>)
    requires 10 <= end && end + 9 <= |m|
    ensures |r| == |m|
  {
    var last := end + PadTo8(end - 7);
    Padded(m, end)[last := Checksum(Padded(m, end)[8..last])]
  }

  lemma {:induction false} PaddedIsBody(m: seq<Byte>, end: nat, s: Board, len: Byte)
    requires WfShape(s) && s.pad == PadTo8(Unpadded(s))
    requires end == 8 + Unpadded(s) - 1 && end + 9 <= |m|
    requires m[8..end] == Marked(s, len)
    ensures Padded(m, end)[8..end + s.pad] == BoardBody(s, LengthByte(Size(s), false))
    ensures Padded(m, end)[..8] == m[..8]
  {
    hide FieldsBytes, Marked, BoardBody, WfFields, LengthByte;
    var len' := LengthByte(Size(s), false);
    BodyFromMarked(s, len, len');
    var r := Padded(m, end);
    assert r[8..end] == Marked(s, len)[1 := len'];
    assert r[end..end + s.pad] == Zeros(s.pad);
    assert r[8..end + s.pad] == r[8..end] + r[end..end + s.pad];
  }

  lemma {:induction false} FixedUpIsPrinting(m: seq<Byte>, end: nat, s: Board, len: Byte)
    requires WfShape(s) && s.pad == PadTo8(Unpadded(s))
    requires end == 8 + Unpadded(s) - 1 && end + 9 <= |m|
    requires m[8..end] == Marked(s, len)
    ensures FixedUp(m, end)[8..8 + Size(s)] == PrintBoard(s, false)
    ensures FixedUp(m, end)[..8] == m[..8]
  {
    hide FieldsBytes, Marked, BoardBody, WfFields, LengthByte, Padded, Checksum, PadTo8;
    PaddedIsBody(m, end, s, len);
    var r := FixedUp(m, end);
    assert r[8..8 + Size(s)] == Padded(m, end)[8..end + s.pad] + [Checksum(Padded(m, end)[8..end + s.pad])];
    assert r[..8] == Padded(m, end)[..8];
  }

  /** "Fix padding, length, checksum": completes the board whose end marker is just before `end`. */
  method FixUp(mem: array<Byte>, end: nat) returns (total: nat)
    requires 10 <= end && end + 9 <= mem.Length
    modifies mem
    ensures mem[..] == FixedUp(old(mem[..]), end)
    ensures total == end + PadTo8(end - 7) + 1
  {
    hide Checksum;
    var bia_len := end - 8 + 1;
    var pad_len := bia_len;
    bia_len := (bia_len + 7) / 8 * 8;
    pad_len := bia_len - pad_len;
    Clear(mem, end, pad_len);
    mem[9] := bia_len / 8 % 256;
    assert mem[..] == Padded(old(mem[..]), end);
    var checksum := CalculateChecksum(mem, 8, bia_len - 1);
    assert mem[8..8 + bia_len - 1] == mem[..][8..end + pad_len];
    mem[end + pad_len] := checksum;
    total := 8 + bia_len;
  }

  // ----------------------------------------------------------------- add and rm

  /** The image in a strictly valid memory. */
  ghost function Held(m: seq<Byte>): (s: Image)
    requires Readable(m) && ImageVerdict(m) == Valid
    ensures Holds(m, s)
  {
    StrictValidIffPrinting(m);
    var s :| Holds(m, s); s
  }

  /** Room for one more field of any length, its padding, and the walk's read-ahead. */
  predicate Growable(m: seq<Byte>) {
    Readable(m) && 8 + BoardLength(m) + 144 <= |m|
  }

  lemma {:induction false} AddedBytes(m: seq<Byte>, s: Board, k: nat, f: Field, a: nat, e: nat)
    requires WfShape(s) && k <= |s.custom| && a == 8 + CustomOffset(s, k) && e == 8 + Unpadded(s) - 1
    requires a <= e && e + |FieldBytes(f)| <= |m| && m[8..e] == Marked(s, m[9])
    ensures var n := |FieldBytes(f)|;
            Splice(Splice(m, a + n, m[a..e]), a, FieldBytes(f))[8..e + n]
            == Marked(WithCustom(s, Inserted(s.custom, k, f)), m[9])
  {
    hide FieldsBytes, FieldBytes, Marked, WfFields, Front, Back, Splice, WithCustom, Inserted;
    MarkedSplits(s, m[9], k);
    InsertedBytes(s, m[9], k, f);
    GapFilled(m, a, e, FieldBytes(f), Front(s, m[9], k), Back(s, k));
  }

  /** Opening a gap and filling it, on the bytes from 8 on. */
  lemma GapFilled(m: seq<Byte>, a: nat, e: nat, bs: seq<Byte>, front: seq<Byte>, back: seq<Byte>)
    requires 8 <= a <= e && e + |bs| <= |m| && m[8..e] == front + back && |front| == a - 8
    ensures Splice(Splice(m, a + |bs|, m[a..e]), a, bs)[8..e + |bs|] == front + bs + back
  {
    hide Splice;
    SliceParts(m, 8, a, e, front, back);
    var n := |bs|;
    var m1 := Splice(m, a + n, m[a..e]);
    var m2 := Splice(m1, a, bs);
    SpliceElsewhere(m, a + n, m[a..e], 8, a);
    SpliceElsewhere(m1, a, bs, 8, a);
    SpliceElsewhere(m1, a, bs, a + n, e + n);
    JoinSlices(m2, 8, a, a + n);
    JoinSlices(m2, 8, a + n, e + n);
  }

  /** Closing a gap of `n` bytes, on the bytes from 8 on. */
  lemma GapClosed(m: seq<Byte>, a: nat, e: nat, n: nat, front: seq<Byte>, back: seq<Byte>)
    requires 8 <= a && a + n <= e <= |m| && m[8..e] == front + back && |front| == a - 8
    ensures Splice(m, a, m[a + n..e])[8..e - n] == front + back[n..]
  {
    hide Splice;
    SliceParts(m, 8, a, e, front, back);
    var m1 := Splice(m, a, m[a + n..e]);
    SpliceElsewhere(m, a, m[a + n..e], 8, a);
    SliceOfSlice(m, a, e, n, e - a);
    JoinSlices(m1, 8, a, e - n);
  }

  lemma {:induction false} RemovedBytesInPlace(m: seq<Byte>, s: Board, k: nat, a: nat, e: nat)
    requires WfShape(s) && k < |s.custom| && a == 8 + CustomOffset(s, k) && e == 8 + Unpadded(s) - 1
    requires a + |FieldBytes(s.custom[k])| <= e <= |m| && m[8..e] == Marked(s, m[9])
    ensures var n := |FieldBytes(s.custom[k])|;
            Splice(m, a, m[a + n..e])[8..e - n] == Marked(WithCustom(s, Removed(s.custom, k)), m[9])
  {
    hide FieldsBytes, FieldBytes, Marked, WfFields, Front, Back, Splice, WithCustom, Removed;
    MarkedSplits(s, m[9], k);
    RemovedBytes(s, m[9], k);
    GapClosed(m, a, e, |FieldBytes(s.custom[k])|, Front(s, m[9], k), Back(s, k));
  }

  lemma {:induction false} UnpaddedOf(s: Board, k: nat, f: Field)
    requires k <= |s.custom|
    ensures Unpadded(WithCustom(s, Inserted(s.custom, k, f))) == Unpadded(s) + |FieldBytes(f)|
    ensures k < |s.custom| ==>
              Unpadded(WithCustom(s, Removed(s.custom, k))) == Unpadded(s) - |FieldBytes(s.custom[k])|
  {
    hide FieldsBytes;
    FieldsBytesAppend(s.custom[..k], [f]);
    FieldsBytesAppend(s.custom[..k] + [f], s.custom[k..]);
    FieldsBytesOne(f);
    FieldsBytesSplit(s.custom, k);
    if k < |s.custom| {
      FieldsBytesStep(s.custom, k);
      FieldsBytesAppend(s.custom[..k], s.custom[k + 1..]);
    }
  }

  /** An inserted field grows the board by at most its own bytes and the new padding. */
  lemma {:induction false} InsertedSize(s: Board, k: nat, f: Field)
    requires WfShape(s) && k <= |s.custom| && WfField(f)
    ensures var t := WithCustom(s, Inserted(s.custom, k, f));
            WfShape(t) && t.pad < 8 && Size(t) % 8 == 0 && Size(t) <= Size(s) + 71
  {
    hide FieldsBytes, PadTo8;
    UnpaddedOf(s, k, f);
  }

  /** Removing a field never needs more room than before. */
  lemma {:induction false} RemovedSize(s: Board, k: nat)
    requires WfShape(s) && k < |s.custom|
    ensures var t := WithCustom(s, Removed(s.custom, k));
            WfShape(t) && t.pad < 8 && Size(t) % 8 == 0
            && (Fits(Size(s), false) ==> Size(t) <= Size(s) <= 2040)
  {
    hide FieldsBytes, PadTo8, WfField;
    UnpaddedOf(s, k, s.custom[k]);
    if Fits(Size(s), false) {
      PadTo8IsLeast(Unpadded(WithCustom(s, Removed(s.custom, k))), Size(s));
    }
  }

  /** Padding stops at the first multiple of 8. */
  lemma PadTo8IsLeast(used: nat, total: nat)
    requires used <= total && total % 8 == 0
    ensures used + PadTo8(used) <= total
  {
  }

  lemma HeldParts(m: seq<Byte>, s: Image)
    requires Readable(m) && Holds(m, s) && m[..8] != CH_OLD
    ensures WfHeader(s.header, false) && WfShape(s.board) && Fits(Size(s.board), false)
  {
    hide FieldsBytes, Checksum, PrintBoard;
  }

  /**
   What follows an edit: a canonically padded board behind a good header is strictly valid
   exactly when its size can be stored, and is then the image the memory holds.
   */
  lemma {:induction false} EditedValidIffFits(m: seq<Byte>, header: seq<Byte>, t: Board)
    requires WfHeader(header, false) && WfShape(t) && t.pad < 8 && Size(t) % 8 == 0
    requires 8 + Size(t) + 64 <= |m| && m[..8] == header && m[8..8 + Size(t)] == PrintBoard(t, false)
    ensures Readable(m)
    ensures ImageVerdict(m) == Valid <==> Size(t) <= 2040
    ensures Size(t) <= 2040 ==> Holds(m, Image(header, t))
  {
    hide FieldsBytes, Checksum, WfFields, BoardVerdict, PrintBoard, WfShape, StoredLength, LengthByte, Size;
    StoredByte(m, t);
    WrappedLength(Size(t));
    if Size(t) <= 2040 {
      assert m[..8 + Size(t)] == header + PrintBoard(t, false);
      HeldImageIsValid(m, Image(header, t));
    } else {
      OversizeIsInvalid(m, t);
    }
  }

  lemma {:induction false} StoredByte(m: seq<Byte>, t: Board)
    requires WfShape(t) && 8 + Size(t) <= |m| && m[8..8 + Size(t)] == PrintBoard(t, false)
    ensures m[9] == LengthByte(Size(t), false)
    ensures Laid(m[8..8 + Size(t)], t, m[9])
  {
    hide FieldsBytes, Checksum, WfFields, LengthByte, BoardBody;
    var b := m[8..8 + Size(t)];
    PrintingIsLaid(t, LengthByte(Size(t), false), b);
    assert m[9] == b[..3][1];
  }

  /** Over 2040 bytes the stored length wraps to something at least 2048 bytes too small. */
  lemma WrappedLength(size: nat)
    requires size % 8 == 0
    ensures size <= 2040 ==> Fits(size, false) && StoredLength(LengthByte(size, false), false) == size
    ensures size > 2040 ==> StoredLength(LengthByte(size, false), false) + 2048 <= size
  {
  }

  lemma {:induction false} OversizeIsInvalid(m: seq<Byte>, t: Board)
    requires WfShape(t) && t.pad < 8 && 8 + Size(t) <= |m| && Laid(m[8..8 + Size(t)], t, m[9])
    requires m[..8] != CH_OLD && Readable(m) && BoardLength(m) + 2048 <= Size(t)
    ensures ImageVerdict(m) != Valid
  {
    hide FieldsBytes, Checksum, BoardVerdict, Laid, WfShape, Size, BoardLength;
    var b := m[8..8 + Size(t)];
    assert BoardArea(m) == b[..BoardLength(m)];
    CutBoardIsInvalid(b, t, m[9], BoardLength(m));
    assert !ValidBoard(BoardArea(m));
  }

  lemma TotalSize(t: Board)
    ensures Size(t) == Unpadded(t) + t.pad && Unpadded(t) >= 9
  {
  }

  /** The writing half of ivfru_add, once the insertion point and the end are known. */
  method InsertInPlace(mem: array<Byte>, address: nat, end: nat, field: seq<Byte>,
                       ghost s: Board, ghost k: nat, ghost f: Field)
    returns (total: nat)
    requires WfShape(s) && k <= |s.custom| && WfField(f) && field == FieldBytes(f)
    requires address == 8 + CustomOffset(s, k) <= end == 8 + Unpadded(s) - 1
    requires end + |field| + 9 <= mem.Length && mem[8..end] == Marked(s, mem[9])
    modifies mem
    ensures mem[..8] == old(mem[..8])
    ensures var t := WithCustom(s, Inserted(s.custom, k, f));
            total == 8 + Size(t) && total <= mem.Length && mem[8..total] == PrintBoard(t, false)
  {
    hide FieldsBytes, Marked, WfFields, PrintBoard, CustomOffset, Checksum, FixedUp, Splice, WfField, FieldBytes;
    hide Unpadded, Size, PadTo8, WithCustom, WfShape;
    ghost var m := mem[..];
    SliceOfAll(mem, 8, end);
    SliceOfAll(mem, address, end);
    ghost var t := WithCustom(s, Inserted(s.custom, k, f));
    ghost var n := |field|;
    UnpaddedOf(s, k, f);
    InsertedIsWf(s, k, f);
    TotalSize(t);
    AddedBytes(m, s, k, f, address, end);
    ShiftUp(mem, address, end, |field|);
    Copy(mem, address, field);
    ghost var m2 := mem[..];
    SpliceElsewhere(m, address + n, m[address..end], 0, 8);
    SpliceElsewhere(Splice(m, address + n, m[address..end]), address, field, 0, 8);
    FixedUpIsPrinting(m2, end + n, t, m[9]);
    total := FixUp(mem, end + |field|);
    assert mem[..8] == mem[..][..8] && mem[8..total] == mem[..][8..total];
  }

  /** The writing half of ivfru_rm. */
  method RemoveInPlace(mem: array<Byte>, address: nat, end: nat, rlen: nat, ghost s: Board, ghost k: nat)
    returns (total: nat)
    requires WfShape(s) && k < |s.custom| && rlen == |FieldBytes(s.custom[k])|
    requires address == 8 + CustomOffset(s, k) && end == 8 + Unpadded(s) - 1 && address + rlen <= end
    requires end + 9 <= mem.Length && mem[8..end] == Marked(s, mem[9])
    modifies mem
    ensures mem[..8] == old(mem[..8])
    ensures var t := WithCustom(s, Removed(s.custom, k));
            total == 8 + Size(t) && total <= mem.Length && mem[8..total] == PrintBoard(t, false)
  {
    hide FieldsBytes, Marked, WfFields, PrintBoard, CustomOffset, Checksum, FixedUp, Splice, WfField, FieldBytes;
    hide Unpadded, Size, PadTo8, WithCustom, WfShape;
    ghost var m := mem[..];
    assert m[8..end] == mem[8..end] && mem[address + rlen..end] == m[address + rlen..end];
    ghost var t := WithCustom(s, Removed(s.custom, k));
    UnpaddedOf(s, k, s.custom[k]);
    RemovedIsWf(s, k);
    TotalSize(t);
    RemovedBytesInPlace(m, s, k, address, end);
    ShiftDown(mem, address, end, rlen);
    ghost var m1 := mem[..];
    SpliceElsewhere(m, address, m[address + rlen..end], 0, 8);
    FixedUpIsPrinting(m1, end - rlen, t, m[9]);
    total := FixUp(mem, end - rlen);
    assert mem[..8] == mem[..][..8] && mem[8..total] == mem[..][8..total];
  }

  /**
   ivfru_add. On success the memory starts with the printing of the old image with the
   field inserted; on every error it is unchanged.
   */
  method Add(mem: array<Byte>, index: int, data: seq<Byte>) returns (ret: Ret, total: nat)
    requires Growable(mem[..])
    modifies mem
    ensures ret != Success ==> mem[..] == old(mem[..])
    ensures ret == FruOldFormat <==> old(mem[..8]) == CH_OLD
    ensures ret == InvalidFruData <==> old(mem[..8]) != CH_OLD && old(ImageVerdict(mem[..])) != Valid
    ensures ret == InvalidArgument <==>
            old(mem[..8]) != CH_OLD && old(ImageVerdict(mem[..])) == Valid && (|data| == 1 || |data| > 63)
    ensures ret != FruNewFormat
    ensures ret == Success ==>
              var s := Held(old(mem[..]));
              var t := AddedBoard(s.board, index, data);
              && total == 8 + Size(t) && total <= mem.Length
              && mem[..8] == s.header && mem[8..total] == PrintBoard(t, false)
              && Readable(mem[..])
              && (ImageVerdict(mem[..]) == Valid <==> Size(t) <= 2040)
              && (Size(t) <= 2040 ==> Holds(mem[..], Image(s.header, t)))
    ensures ret == Success ==>
              var s := Held(old(mem[..])).board;
              IsAdded(s, AddedBoard(s, index, data), index, Field(0xC0 + |data|, data))
  {
    hide FieldsBytes, Marked, WfFields, Laid, PrintBoard, CustomOffset, Checksum, BoardVerdict, FixedUp, BoardLength;
    hide WithCustom, Fits, Size, Holds, ImageVerdict, Unpadded, WfShape, WfField, Front, Back, BoardAt, WfHeader;
    total := 0;
    ghost var m := mem[..];
    assert m[..8] == mem[..8];
    var old_format := IsOldFormat(mem);
    if old_format { return FruOldFormat, 0; }
    var res := Validate(mem);
    if res != Valid { return InvalidFruData, 0; }
    if |data| > 63 || |data| == 1 { return InvalidArgument, 0; }
    var field := [0xC0 + |data|] + data;
    ghost var s := Held(m);
    HeldParts(m, s);
    HeldIsMarked(m, s);
    HeldImageIsValid(m, s);
    UnpaddedIsWithin(s.board);
    var address := FirstCustom(mem, s.board, mem[9]);
    ghost var k := WalkedTo(index, |s.board.custom|);
    var rest;
    address, rest := GoToCustom(mem, address, index, s.board, mem[9]);
    var end := FindEndAddress(mem, address, k, s.board, mem[9]);
    if rest < 0 {
      address := end - 1;
      k := |s.board.custom|;
    }
    MarkedSplits(s.board, mem[9], k);
    assert mem[8..end] == m[8..end];
    total := InsertInPlace(mem, address, end, field, s.board, k, CustomField(data));
    InsertedSize(s.board, k, CustomField(data));
    AddedIs(s.board, index, data);
    EditedValidIffFits(mem[..], s.header, AddedBoard(s.board, index, data));
    ret := Success;
  }

  lemma UnpaddedIsWithin(s: Board)
    ensures Unpadded(s) <= Size(s)
  {
  }

  lemma InsertedIsWf(s: Board, k: nat, f: Field)
    requires WfShape(s) && k <= |s.custom| && WfField(f)
    ensures WfShape(WithCustom(s, Inserted(s.custom, k, f)))
    ensures WithCustom(s, Inserted(s.custom, k, f)).pad == PadTo8(Unpadded(WithCustom(s, Inserted(s.custom, k, f))))
  {
  }

  lemma RemovedIsWf(s: Board, k: nat)
    requires WfShape(s) && k < |s.custom|
    ensures WfShape(WithCustom(s, Removed(s.custom, k)))
    ensures WithCustom(s, Removed(s.custom, k)).pad == PadTo8(Unpadded(WithCustom(s, Removed(s.custom, k))))
  {
  }

  /** ivfru_rm. The index must name a custom field. */
  method Remove(mem: array<Byte>, index: int) returns (ret: Ret, total: nat)
    requires Readable(mem[..])
    modifies mem
    ensures ret != Success ==> mem[..] == old(mem[..])
    ensures ret == FruOldFormat <==> old(mem[..8]) == CH_OLD
    ensures ret == InvalidFruData <==> old(mem[..8]) != CH_OLD && old(ImageVerdict(mem[..])) != Valid
    ensures ret == InvalidArgument <==>
            old(mem[..8]) != CH_OLD && old(ImageVerdict(mem[..])) == Valid
            && !(0 <= index < |Held(old(mem[..])).board.custom|)
    ensures ret != FruNewFormat
    ensures ret == Success ==>
              var s := Held(old(mem[..]));
              && 0 <= index < |s.board.custom|
              && var t := RemovedBoard(s.board, index);
              && total == 8 + Size(t) && total <= mem.Length
              && mem[..8] == s.header && mem[8..total] == PrintBoard(t, false)
              && Readable(mem[..]) && ImageVerdict(mem[..]) == Valid && Holds(mem[..], Image(s.header, t))
    ensures ret == Success ==>
              var s := Held(old(mem[..])).board;
              IsRemoved(s, RemovedBoard(s, index), index)
  {
    hide FieldsBytes, Marked, WfFields, Laid, PrintBoard, CustomOffset, Checksum, BoardVerdict, FixedUp, BoardLength;
    hide WithCustom, Fits, Size, Holds, ImageVerdict, Unpadded, WfShape, WfField, Front, Back, BoardAt, WfHeader;
    hide FieldBytes;
    total := 0;
    ghost var m := mem[..];
    assert m[..8] == mem[..8];
    var old_format := IsOldFormat(mem);
    if old_format { return FruOldFormat, 0; }
    var res := Validate(mem);
    if res != Valid { return InvalidFruData, 0; }
    ghost var s := Held(m);
    HeldParts(m, s);
    HeldIsMarked(m, s);
    HeldImageIsValid(m, s);
    UnpaddedIsWithin(s.board);
    var address := FirstCustom(mem, s.board, mem[9]);
    ghost var k := WalkedTo(index, |s.board.custom|);
    var rest;
    address, rest := GoToCustom(mem, address, index, s.board, mem[9]);
    if rest != 0 { return InvalidArgument, 0; }
    EndAt(m, s.board, m[9]);
    if k < |s.board.custom| {
      CustomAt(m, s.board, m[9], k);
    }
    CustomWithin(s.board, k);
    if mem[address] == END { return InvalidArgument, 0; }
    var rlen := FieldLength(mem[address]) + 1;
    var end := FindEndAddress(mem, address, k, s.board, mem[9]);
    MarkedSplits(s.board, mem[9], k);
    RemovedFieldLength(s.board, k);
    assert mem[8..end] == m[8..end];
    total := RemoveInPlace(mem, address, end, rlen, s.board, k);
    RemovedSize(s.board, k);
    RemovedIs(s.board, k);
    EditedValidIffFits(mem[..], s.header, RemovedBoard(s.board, index));
    ret := Success;
  }

  lemma {:induction false} RemovedFieldLength(s: Board, k: nat)
    requires WfShape(s) && k < |s.custom|
    ensures |FieldBytes(s.custom[k])| == FieldLength(s.custom[k].tl) + 1
    ensures CustomOffset(s, k) + |FieldBytes(s.custom[k])| < Unpadded(s)
  {
    hide FieldsBytes;
    FieldsBytesSplit(s.custom, k);
    FieldsBytesStep(s.custom, k);
  }

  // ------------------------------------------------------------------------ undo

  /** Removing at the insertion position gives the old fields back, with minimal padding. */
  lemma RemoveUndoesAdd(s: Board, index: int, data: seq<Byte>)
    requires EncodableLength(|data|)
    ensures var k := InsertPosition(index, |s.custom|);
            var t := AddedBoard(s, index, data);
            && k < |t.custom|
            && RemovedBoard(t, k) == s.(pad := PadTo8(Unpadded(s)))
            && (RemovedBoard(t, k) == s <==> s.pad < 8 && Size(s) % 8 == 0)
  {
    hide FieldsBytes, PadTo8, Size, Inserted, Removed;
    RemovedIsInsertUndone(s.custom, InsertPosition(index, |s.custom|), CustomField(data));
    PaddingIsMinimalIff(s);
  }

  lemma RemovedIsInsertUndone(custom: seq<Field>, k: nat, f: Field)
    requires k <= |custom|
    ensures k < |Inserted(custom, k, f)| && Removed(Inserted(custom, k, f), k) == custom
  {
  }

  lemma PaddingIsMinimalIff(s: Board)
    ensures s.pad == PadTo8(Unpadded(s)) <==> s.pad < 8 && Size(s) % 8 == 0
  {
    hide FieldsBytes;
  }

  /**
   ivfru_add then ivfru_rm at the insertion position, from the image `s`. With minimal padding
   before, the image bytes are those of before; otherwise the same fields with minimal padding.
   */
  method AddThenRemove(mem: array<Byte>, index: int, data: seq<Byte>, position: nat, ghost s: Image)
    requires Growable(mem[..]) && Holds(mem[..], s) && s.header != CH_OLD && EncodableLength(|data|)
    requires Size(AddedBoard(s.board, index, data)) <= 2040
    requires position == InsertPosition(index, |s.board.custom|)
    modifies mem
    ensures Readable(mem[..]) && Holds(mem[..], Image(s.header, s.board.(pad := PadTo8(Unpadded(s.board)))))
    ensures s.board.pad < 8 ==> mem[..8 + Size(s.board)] == old(mem[..8 + BoardLength(mem[..])])
  {
    hide FieldsBytes, WfFields, PrintBoard, Checksum, BoardVerdict, Fits, WithCustom;
    ghost var m := mem[..];
    HeldImageIsValid(m, s);
    assert m[..8] == mem[..8];
    HeldParts(m, s);
    HeldImageIsUnique(m, Held(m), s);
    RemoveUndoesAdd(s.board, index, data);
    var ret, total := Add(mem, index, data);
    ghost var m1 := mem[..];
    HeldImageIsUnique(m1, Held(m1), Image(s.header, AddedBoard(s.board, index, data)));
    assert m1[..8] == s.header;
    ret, total := Remove(mem, position);
    ghost var t := s.board.(pad := PadTo8(Unpadded(s.board)));
    if s.board.pad < 8 {
      FitsIsMultiple(Size(s.board));
      assert mem[..8 + Size(t)] == mem[..8] + mem[8..8 + Size(t)];
      assert m[..8 + BoardLength(m)] == s.header + PrintBoard(s.board, false);
    }
  }

  lemma FitsIsMultiple(size: nat)
    requires Fits(size, false)
    ensures size % 8 == 0
  {
  }

  // ---------------------------------------------------------------- runs of edits

  datatype Edit = AddField(index: int, data: seq<Byte>) | RemoveField(at: int)

  /** What an edit does to the custom list; a refused edit does nothing. */
  function EditList(custom: seq<Field>, e: Edit): seq<Field> {
    match e
    case AddField(index, data) =>
      if EncodableLength(|data|) then Inserted(custom, InsertPosition(index, |custom|), CustomField(data)) else custom
    case RemoveField(index) =>
      if 0 <= index < |custom| then Removed(custom, index) else custom
  }

  function EditLists(custom: seq<Field>, edits: seq<Edit>): seq<Field> {
    if edits == [] then custom else EditList(EditLists(custom, edits[..|edits| - 1]), edits[|edits| - 1])
  }

  /** Every list on the way still fits the length byte. */
  predicate StaysSmall(s: Board, edits: seq<Edit>) {
    forall i :: 0 <= i <= |edits| ==> Size(WithCustom(s, EditLists(s.custom, edits[..i]))) <= 2040
  }

  /**
   Any run of adds and removes, refused ones included, from the image `s`. The memory ends up
   strictly valid exactly when every list on the way fits: after one that does not, all
   further edits are refused. The custom list is then what the list edits make it, and
   header, date and predefined fields are those of the start.
   */
  method RunEdits(mem: array<Byte>, edits: seq<Edit>, ghost s: Image) returns (ghost t: Image)
    requires mem.Length >= 8 + 2040 + 144
    requires Readable(mem[..]) && Holds(mem[..], s) && s.header != CH_OLD
    modifies mem
    ensures Readable(mem[..]) && mem[..8] == s.header
    ensures ImageVerdict(mem[..]) == Valid <==> StaysSmall(s.board, edits)
    ensures StaysSmall(s.board, edits) ==>
              Holds(mem[..], t) && SameExceptCustom(s, t, EditLists(s.board.custom, edits))
  {
    hide StaysSmall, Holds, ImageVerdict, EditLists, SameExceptCustom, WfHeader;
    t := s;
    RunStarts(mem[..], s);
    assert edits[..0] == [];
    for i := 0 to |edits|
      invariant Midway(mem[..], s, t, edits[..i])
    {
      t := OneEdit(mem, edits[i], s, t, edits[..i]);
      assert edits[..i + 1] == edits[..i] + [edits[i]];
    }
    assert edits[..|edits|] == edits;
    assert mem[..][..8] == mem[..8];
  }

  /** What holds after the edits so far. */
  ghost predicate Midway(m: seq<Byte>, s: Image, t: Image, done: seq<Edit>) {
    && Readable(m) && m[..8] == s.header != CH_OLD
    && (ImageVerdict(m) == Valid <==> StaysSmall(s.board, done))
    && (StaysSmall(s.board, done) ==> Holds(m, t) && SameExceptCustom(s, t, EditLists(s.board.custom, done)))
  }

  method OneEdit(mem: array<Byte>, e: Edit, ghost s: Image, ghost t: Image, ghost done: seq<Edit>)
    returns (ghost t': Image)
    requires mem.Length >= 8 + 2040 + 144 && Midway(mem[..], s, t, done)
    modifies mem
    ensures Midway(mem[..], s, t', done + [e])
  {
    hide StaysSmall, EditList, WithCustom, Holds, ImageVerdict, AddedBoard, RemovedBoard, Size, PrintBoard, BoardLength;
    hide EditLists, SameExceptCustom;
    ghost var m := mem[..];
    assert m[..8] == mem[..8];
    LengthWithin(m);
    OversizeStays(s.board, done, e);
    if ImageVerdict(m) == Valid {
      HeldImageIsUnique(m, Held(m), t);
      HeldParts(m, t);
      HoldsHeader(m, t);
      NextEdit(s, t, done, e);
      EditOfBoard(t.board, e);
    }
    t' := t;
    match e {
      case AddField(index, data) =>
        var ret, total := Add(mem, index, data);
        if ret == Success {
          t' := Image(t.header, AddedBoard(t.board, index, data));
        }
      case RemoveField(index) =>
        var ret, total := Remove(mem, index);
        if ret == Success {
          t' := Image(t.header, RemovedBoard(t.board, index));
          assert mem[..][..8] == mem[..8];
          HeldParts(mem[..], t');
        }
    }
    assert mem[..][..8] == mem[..8];
  }

  lemma RunStarts(m: seq<Byte>, s: Image)
    requires Readable(m) && Holds(m, s) && s.header != CH_OLD
    ensures Midway(m, s, s, [])
  {
    hide Holds, ImageVerdict, BoardLength, WfShape, Size, Unpadded, PadTo8;
    HeldImageIsValid(m, s);
    HoldsHeader(m, s);
    HeldParts(m, s);
    NoEdits(s.board.custom);
    Repadded(s.board);
    assert StaysSmall(s.board, []);
  }

  lemma HoldsHeader(m: seq<Byte>, s: Image)
    requires Readable(m) && Holds(m, s)
    ensures m[..8] == s.header
  {
    hide PrintBoard, WfBoard;
  }

  /** Padding afresh never makes a storable board longer. */
  lemma Repadded(s: Board)
    requires Fits(Size(s), false)
    ensures Size(WithCustom(s, s.custom)) <= 2040
  {
    hide FieldsBytes, PadTo8;
    PadTo8IsLeast(Unpadded(s), Size(s));
  }

  /** The board edits are the list edits. */
  lemma EditOfBoard(t: Board, e: Edit)
    ensures WithCustom(t, EditList(t.custom, e)).custom == EditList(t.custom, e)
    ensures WithCustom(t, EditList(t.custom, e)).date == t.date && WithCustom(t, EditList(t.custom, e)).predef == t.predef
    ensures e.AddField? && EncodableLength(|e.data|) ==>
              AddedBoard(t, e.index, e.data) == WithCustom(t, EditList(t.custom, e))
    ensures e.AddField? && !EncodableLength(|e.data|) ==> EditList(t.custom, e) == t.custom
    ensures e.RemoveField? && 0 <= e.at < |t.custom| ==> RemovedBoard(t, e.at) == WithCustom(t, EditList(t.custom, e))
    ensures e.RemoveField? && !(0 <= e.at < |t.custom|) ==> EditList(t.custom, e) == t.custom
  {
  }

  predicate SameExceptCustom(s: Image, t: Image, custom: seq<Field>) {
    t.header == s.header && t.board.date == s.board.date && t.board.predef == s.board.predef && t.board.custom == custom
  }

  lemma NoEdits(custom: seq<Field>)
    ensures EditLists(custom, []) == custom
  {
  }

  lemma LengthWithin(m: seq<Byte>)
    requires Readable(m)
    ensures m[..8] != CH_OLD ==> BoardLength(m) <= 2040
  {
  }

  /** One more edit: its effect on the list, and when the run stays small. */
  lemma NextEdit(s: Image, t: Image, done: seq<Edit>, e: Edit)
    requires StaysSmall(s.board, done) && SameExceptCustom(s, t, EditLists(s.board.custom, done))
    ensures var custom := EditList(t.board.custom, e);
            && EditLists(s.board.custom, done + [e]) == custom
            && (StaysSmall(s.board, done + [e]) <==> Size(WithCustom(t.board, custom)) <= 2040)
            && Size(WithCustom(t.board, t.board.custom)) <= 2040
            && (forall u: Image :: u.header == t.header && u.board == WithCustom(t.board, custom) ==>
                  SameExceptCustom(s, u, custom))
            && (custom == t.board.custom ==> SameExceptCustom(s, t, custom))
  {
    hide EditList, Size;
    var all := done + [e];
    assert all[..|done|] == done == done[..|done|] && all[..|all|] == all;
    assert forall custom :: WithCustom(s.board, custom) == WithCustom(t.board, custom);
    assert EditLists(s.board.custom, all) == EditList(t.board.custom, e);
    forall i | 0 <= i <= |done|
      ensures all[..i] == done[..i]
    {
    }
  }

  lemma OversizeStays(s: Board, done: seq<Edit>, e: Edit)
    ensures !StaysSmall(s, done) ==> !StaysSmall(s, done + [e])
  {
    hide Size, EditLists, WithCustom;
    forall i | 0 <= i <= |done|
      ensures (done + [e])[..i] == done[..i]
    {
    }
  }
}
