/** ivfru_write and ivfru_read, with the board storage as a byte array. */
module FruStore {
  import opened Bytes
  import opened FruSpec
  import opened FruValidate
  import opened FruEdit
  import opened Memory

  /** fru_get_total_length */
  function TotalLength(m: seq<Byte>): nat
    requires |m| >= 10
  {
    if m[0] != 0x01 then 0 else if m[3] != 0 then 8 + StoredLength(m[9], false) else 8
  }

  /** What the reader takes a stored length byte to mean: 0x40 is assumed to be the old format. */
  function BytesRead(length: Byte): nat {
    8 + if length == 0x40 then 0x40 else StoredLength(length, false)
  }

  /** ivfru_write: old or invalid images never reach the storage. */
  method Write(store: array<Byte>, mem: array<Byte>) returns (ret: Ret, length: nat)
    requires store != mem && Readable(mem[..])
    requires 8 + BoardLength(mem[..]) <= store.Length
    modifies store
    ensures ret == FruOldFormat <==> mem[..8] == CH_OLD
    ensures ret == InvalidFruData <==> mem[..8] != CH_OLD && ImageVerdict(mem[..]) != Valid
    ensures ret == Success <==> mem[..8] != CH_OLD && ImageVerdict(mem[..]) == Valid
    ensures ret != Success ==> store[..] == old(store[..])
    ensures ret == Success ==>
              length == 8 + BoardLength(mem[..]) && store[..] == Splice(old(store[..]), 0, mem[..length])
  {
    hide Checksum, BoardVerdict;
    assert mem[..][..8] == mem[..8];
    var old_format := IsOldFormat(mem);
    if old_format { return FruOldFormat, 0; }
    var res := Validate(mem);
    if res != Valid { return InvalidFruData, 0; }
    length := TotalLength(mem[..]);
    Copy(store, 0, mem[..length]);
    ret := Success;
  }

  /** ivfru_read: the fixed part first, to learn the length, then the rest. */
  method Read(store: array<Byte>, mem: array<Byte>) returns (read_len: nat)
    requires store != mem && store.Length >= 14 && mem.Length >= 14 && store[9] >= 1
    requires BytesRead(store[9]) <= store.Length && BytesRead(store[9]) <= mem.Length
    modifies mem
    ensures read_len == BytesRead(store[9])
    ensures mem[..read_len] == store[..read_len]
  {
    read_len := 14;
    Copy(mem, 0, store[..14]);
    assert mem[..14] == store[..14];
    assert mem[9] == store[9];
    var rem_offset := 14;
    var rem_size: int := mem[9];
    if rem_size != 0x40 { rem_size := rem_size * 8; }
    rem_size := rem_size - 6;
    read_len := read_len + rem_size;
    Copy(mem, rem_offset, store[rem_offset..rem_offset + rem_size]);
    assert mem[14..read_len] == store[14..read_len];
    assert mem[..14] == store[..14];
    assert mem[..read_len] == mem[..14] + mem[14..read_len];
    assert store[..read_len] == store[..14] + store[14..read_len];
  }

  /**
   Writing a strictly valid new-format image and reading it back gives the same image bytes
   exactly when the stored length is not 0x40; with 0x40 (a 512-byte board) only 64 board
   bytes come back.
   */
  method WriteThenRead(store: array<Byte>, mem: array<Byte>, back: array<Byte>) returns (length: nat, read_len: nat)
    requires store != mem && store != back && mem != back
    requires Readable(mem[..]) && mem[..8] != CH_OLD && ImageVerdict(mem[..]) == Valid
    requires 8 + BoardLength(mem[..]) <= store.Length && 8 + BoardLength(mem[..]) <= back.Length
    modifies store, back
    ensures length == 8 + BoardLength(mem[..]) && length <= back.Length
    ensures read_len == length && back[..length] == mem[..length] <==> mem[9] != 0x40
    ensures mem[9] == 0x40 ==> read_len == 72 < length == 520 && back[..72] == mem[..72]
  {
    hide Checksum, BoardVerdict, ImageVerdict;
    LengthIsPositive(mem[..]);
    var ret;
    ret, length := Write(store, mem);
    ghost var n := length;
    assert store[..n] == mem[..n];
    assert store[9] == store[..n][9] == mem[9];
    read_len := Read(store, back);
    assert back[..read_len] == store[..n][..read_len] == mem[..n][..read_len] == mem[..read_len];
  }

  /** Even the smallest board needs two 8-byte units. */
  lemma LengthIsPositive(m: seq<Byte>)
    requires Readable(m) && m[..8] != CH_OLD && ImageVerdict(m) == Valid
    ensures BoardLength(m) >= 16 && m[9] >= 2
  {
    hide Checksum, PrintBoard, BoardVerdict;
    var s := Held(m);
    HeldImageIsValid(m, s);
  }
}
