/** U-Boot's board identity string: from the FRU fields to an environment variable and back. */
module Identity {
  import opened Options
  import opened Bytes
  import opened FruSpec
  import opened FruValidate
  import opened FruEdit
  import opened FruDate
  import opened FruCreate
  import opened Memory
  import FruStore
  import Fsbl

  const COMMA: Byte := 44
  const DASH: Byte := 45

  // ----------------------------------------------------------- text functions

  function Strip(s: seq<Byte>): (r: seq<Byte>)
    ensures |r| <= |s| && r == s[..|r|]
    ensures forall i :: |r| <= i < |s| ==> s[i] == SPACE
    ensures r != [] ==> r[|r| - 1] != SPACE
  {
    if s != [] && s[|s| - 1] == SPACE then Strip(s[..|s| - 1]) else s
  }

  /** Underscores to dashes, spaces to underscores, commas to slashes. */
  function TranslateByte(b: Byte): Byte {
    if b == 95 then DASH else if b == SPACE then 95 else if b == COMMA then 47 else b
  }

  function Translate(s: seq<Byte>): (r: seq<Byte>)
    ensures |r| == |s| && forall i :: 0 <= i < |s| ==> r[i] == TranslateByte(s[i])
  {
    seq(|s|, i requires 0 <= i < |s| => TranslateByte(s[i]))
  }

  /** The C string at the start of a buffer. */
  function CString(s: seq<Byte>): (r: seq<Byte>)
    ensures |r| <= |s| && r == s[..|r|] && 0 !in r
    ensures |r| < |s| ==> s[|r|] == 0
  {
    if s == [] || s[0] == 0 then [] else [s[0]] + CString(s[1..])
  }

  lemma CStringIs(s: seq<Byte>, n: nat)
    requires n < |s| && s[n] == 0 && forall i :: 0 <= i < n ==> s[i] != 0
    ensures CString(s) == s[..n]
  {
  }

  predicate Printable(b: Byte) {
    32 <= b <= 126
  }

  predicate AllPrintable(s: seq<Byte>) {
    forall i :: 0 <= i < |s| ==> Printable(s[i])
  }

  function Commas(s: seq<Byte>): nat {
    if s == [] then 0 else Commas(s[..|s| - 1]) + (if s[|s| - 1] == COMMA then 1 else 0)
  }

  lemma {:induction false} CommasAreCounted(s: seq<Byte>)
    ensures Commas(s) == multiset(s)[44]
  {
    if s != [] {
      var front := s[..|s| - 1];
      CommasAreCounted(front);
      assert s == front + [s[|s| - 1]];
    }
  }

  lemma {:induction false} CommasAppend(s: seq<Byte>, t: seq<Byte>)
    ensures Commas(s + t) == Commas(s) + Commas(t)
  {
    if t == [] {
      assert s + t == s;
    } else {
      var r := s + t;
      assert r[..|r| - 1] == s + t[..|t| - 1];
      CommasAppend(s, t[..|t| - 1]);
    }
  }

  lemma {:induction false} NoCommas(s: seq<Byte>)
    requires COMMA !in s
    ensures Commas(s) == 0
  {
    if s != [] {
      NoCommas(s[..|s| - 1]);
    }
  }

  /** What U-Boot keeps of a field. */
  function Cleaned(raw: seq<Byte>): seq<Byte> {
    Translate(CString(Strip(raw)))
  }

  /** `r` is `raw` up to its first NUL or its trailing spaces, '_' as '-', ' ' as '_' and ',' as '/'. */
  predicate IsCleaned(raw: seq<Byte>, r: seq<Byte>) {
    && |r| <= |raw|
    && (forall i :: 0 <= i < |r| ==>
          raw[i] != 0
          && r[i] == if raw[i] == 95 then 45 else if raw[i] == 32 then 95 else if raw[i] == 44 then 47 else raw[i])
    && (|r| < |raw| && raw[|r|] != 0 ==> forall i :: |r| <= i < |raw| ==> raw[i] == 32)
    && (0 !in raw && r != [] ==> raw[|r| - 1] != 32)
  }

  lemma CleanedIs(raw: seq<Byte>)
    ensures IsCleaned(raw, Cleaned(raw))
  {
    var t := Strip(raw);
    var c := CString(t);
    assert forall i :: 0 <= i < |c| ==> c[i] == t[i] == raw[i] && c[i] in c;
    if |c| < |t| {
      assert t[|c|] == raw[|c|] == 0;
    }
  }

  // -------------------------------------------------------- reading the image

  /** ivfru_get_bia_predefined_fields on a memory that holds `s`: where product, serial and part number are. */
  method PredefinedFields(mem: array<Byte>, ghost s: Image)
    returns (product: nat, product_len: nat, sn: nat, sn_len: nat, pn: nat, pn_len: nat)
    requires Readable(mem[..]) && Holds(mem[..], s)
    ensures |s.board.predef| == PREDEF
    ensures product + product_len <= mem.Length && sn + sn_len <= mem.Length && pn + pn_len <= mem.Length
    ensures mem[product..product + product_len] == s.board.predef[1].data
    ensures mem[sn..sn + sn_len] == s.board.predef[2].data
    ensures mem[pn..pn + pn_len] == s.board.predef[3].data
  {
    hide Holds, BoardLength, BoardAt, PredefOffset, Marked, Unpadded, WfFields;
    HeldIsMarked(mem[..], s);
    PredefStart(s.board);
    ghost var len := mem[9];
    var address := 14;
    var _, _, next := ReadField(mem, address, s.board, len, 0);
    product, product_len, next := ReadField(mem, next, s.board, len, 1);
    sn, sn_len, next := ReadField(mem, next, s.board, len, 2);
    pn, pn_len, next := ReadField(mem, next, s.board, len, 3);
  }

  /** One predefined field: where its data is, its length, and where the next field starts. */
  method ReadField(mem: array<Byte>, address: nat, ghost s: Board, ghost len: Byte, ghost k: nat)
    returns (data: nat, n: nat, next: nat)
    requires WfShape(s) && BoardAt(mem[..], s, len) && k < PREDEF && address == 8 + PredefOffset(s, k)
    ensures data + n <= mem.Length && mem[data..data + n] == s.predef[k].data
    ensures next == 8 + PredefOffset(s, k + 1)
  {
    hide FieldLength, BoardAt, PredefOffset, WfFields;
    PredefData(mem[..], s, len, k);
    data, n := address + 1, FieldLength(mem[address]);
    next := data + n;
    SliceOfAll(mem, data, data + n);
  }

  lemma PredefStart(s: Board)
    ensures PredefOffset(s, 0) == 6
  {
    assert s.predef[..0] == [];
    EmptyFields();
  }

  lemma {:induction false} PredefData(m: seq<Byte>, s: Board, len: Byte, k: nat)
    requires WfShape(s) && BoardAt(m, s, len) && k < PREDEF
    ensures var a := 8 + PredefOffset(s, k);
            && a < |m| && 8 + PredefOffset(s, k + 1) == a + 1 + FieldLength(m[a]) <= |m|
            && m[a + 1..a + 1 + FieldLength(m[a])] == s.predef[k].data
  {
    hide FieldsBytes, FieldLength, WfFields, BoardAt;
    PredefAt(m, s, len, k);
    FieldInside(s.predef, k);
    PredefArea(m, s, len);
    var all, o, n := FieldsBytes(s.predef), |FieldsBytes(s.predef[..k])|, |s.predef[k].data|;
    SliceOfSlice(m, 14, 14 + |all|, o + 1, o + 1 + n);
  }

  lemma PredefArea(m: seq<Byte>, s: Board, len: Byte)
    requires BoardAt(m, s, len)
    ensures var n := |FieldsBytes(s.predef)|; 14 + n <= |m| && m[14..14 + n] == FieldsBytes(s.predef)
  {
    hide FieldsBytes, Checksum, ZeroBetween;
    SliceOfSlice(m, 8, 8 + Size(s), 6, 6 + |FieldsBytes(s.predef)|);
  }

  lemma FieldInside(fs: seq<Field>, k: nat)
    requires k < |fs| && WfFields(fs)
    ensures var o, n := |FieldsBytes(fs[..k])|, |fs[k].data|;
            n == FieldLength(fs[k].tl) && o + 1 + n <= |FieldsBytes(fs)| && FieldsBytes(fs)[o + 1..o + 1 + n] == fs[k].data
  {
    hide FieldsBytes;
    FieldsBytesSplit(fs, k);
    FieldsBytesStep(fs, k);
    var x, y, z := FieldsBytes(fs[..k]), fs[k].data, FieldsBytes(fs[k + 1..]);
    assert FieldsBytes(fs) == x + ([fs[k].tl] + y + z);
    assert (x + ([fs[k].tl] + y + z))[|x| + 1..|x| + 1 + |y|] == y;
  }

  /** strcpy_ipmi_field, in a destination with room for the terminator. */
  method CopyIpmiField(dest: array<Byte>, src: seq<Byte>)
    requires dest.Length > |src|
    modifies dest
    ensures CString(dest[..]) == Cleaned(src) && IsCleaned(src, CString(dest[..]))
  {
    hide CString, Strip, IsCleaned, Translate, Splice;
    CleanedIs(src);
    Copy(dest, 0, src);
    assert dest[..][0..|src|] == src;
    dest[|src|] := 0;
    assert dest[..|src|] == src;
    StripLoop(dest, src);
    ghost var n := |CString(Strip(src))|;
    ghost var kept := dest[..n];
    TranslateLoop(dest, n);
    CStringIs(dest[..], n);
    assert CString(Strip(src)) == kept;
  }

  /** Trailing spaces become terminators. */
  method StripLoop(dest: array<Byte>, src: seq<Byte>)
    requires dest.Length > |src| && dest[..|src|] == src && dest[|src|] == 0
    modifies dest
    ensures var n := |CString(Strip(src))|;
            n < dest.Length && dest[..n] == CString(Strip(src)) && dest[n] == 0
            && (forall i :: 0 <= i < n ==> dest[i] != 0)
  {
    hide CString, Strip;
    assert forall k :: 0 <= k < |src| ==> dest[k] == dest[..|src|][k] == src[k];
    assert src[..|src|] == src;
    var i: int := |src| - 1;
    while i >= 0
      invariant -1 <= i < |src|
      invariant Strip(src) == Strip(src[..i + 1])
      invariant forall k :: 0 <= k <= i ==> dest[k] == src[k]
      invariant dest[i + 1] == 0 && (i >= 0 ==> src[i] == dest[i])
    {
      if dest[i] != 32 { break; }
      StripStep(src, i);
      dest[i] := 0;
      i := i - 1;
    }
    assert dest[..][..i + 1] == src[..i + 1];
    StrippedPrefix(dest[..], src[..i + 1]);
  }

  lemma StripStep(s: seq<Byte>, i: nat)
    requires i < |s| && s[i] == SPACE
    ensures Strip(s[..i + 1]) == Strip(s[..i])
  {
    assert s[..i + 1][..i] == s[..i];
  }

  /** A stripped text followed by a terminator is that C string. */
  lemma StrippedPrefix(d: seq<Byte>, r: seq<Byte>)
    requires |r| < |d| && d[..|r|] == r && d[|r|] == 0 && (r != [] ==> r[|r| - 1] != SPACE)
    ensures Strip(r) == r
    ensures var c := CString(r);
            |c| < |d| && d[..|c|] == c && d[|c|] == 0 && forall i :: 0 <= i < |c| ==> d[i] != 0
  {
    var c := CString(r);
    assert d[..|c|] == d[..|r|][..|c|];
    assert |c| < |r| ==> d[|c|] == r[|c|];
    assert forall i :: 0 <= i < |c| ==> d[i] == c[i];
  }

  /** The character replacements, up to the terminator. */
  method TranslateLoop(dest: array<Byte>, ghost n: nat)
    requires n < dest.Length && dest[n] == 0 && forall i :: 0 <= i < n ==> dest[i] != 0
    modifies dest
    ensures dest[..n] == Translate(old(dest[..n])) && dest[n] == 0
    ensures forall i :: 0 <= i < n ==> dest[i] != 0
  {
    var p := 0;
    while dest[p] != 0
      invariant 0 <= p <= n && dest[n] == 0
      invariant forall i :: 0 <= i < p ==> dest[i] == TranslateByte(old(dest[i])) && dest[i] != 0
      invariant forall i :: p <= i < dest.Length ==> dest[i] == old(dest[i])
      decreases n - p
    {
      if dest[p] == 95 {
        dest[p] := DASH;
      } else if dest[p] == 32 {
        dest[p] := 95;
      } else if dest[p] == COMMA {
        dest[p] := 47;
      }
      p := p + 1;
    }
  }

  // ----------------------------------------------------------- the environment

  datatype BoardClass = MB | IO | BP

  const IV_MB: seq<Byte> := [105, 118, 95, 109, 98]
  const IV_IO: seq<Byte> := [105, 118, 95, 105, 111]
  const IV_BP: seq<Byte> := [105, 118, 95, 98, 112]
  const FORCED: seq<Byte> := [95, 102, 111, 114, 99, 101, 100]
  const ORD: seq<Byte> := [95, 111, 114, 100]
  /** "none,none,Unknown" */
  const DEFAULT_IPMI: seq<Byte> :=
    [110, 111, 110, 101, 44, 110, 111, 110, 101, 44, 85, 110, 107, 110, 111, 119, 110]
  const FIELD_LEN := 64

  /** class2string */
  function VarName(c: BoardClass): seq<Byte> {
    match c case MB => IV_MB case IO => IV_IO case BP => IV_BP
  }

  type Vars = map<seq<Byte>, seq<Byte>>

  /** strsep: the token before the first separator, and what follows it if there was one. */
  function Strsep(s: seq<Byte>, c: Byte): (r: (seq<Byte>, Option<seq<Byte>>))
    ensures c !in r.0
    ensures if r.1.Some? then s == r.0 + [c] + r.1.value else s == r.0
  {
    if s == [] then ([], None)
    else if s[0] == c then ([], Some(s[1..]))
    else
      var (token, rest) := Strsep(s[1..], c);
      ([s[0]] + token, rest)
  }

  /** strsep on a pointer that may already be NULL. */
  function Token(s: Option<seq<Byte>>, c: Byte): (Option<seq<Byte>>, Option<seq<Byte>>) {
    match s
    case None => (None, None)
    case Some(text) => var (token, rest) := Strsep(text, c); (Some(token), rest)
  }

  datatype BoardField = FieldNone | FieldPN | FieldSN | FieldName
  datatype SubField = SubNone | PnOrdinal | PnVariant | PnRevision

  /** The copy that iv_board_get_field makes: at most 63 characters. */
  function Seen(p: seq<Byte>): (s: seq<Byte>)
    ensures s == if |p| <= 63 then p else p[..63]
  {
    if |p| >= FIELD_LEN then p[..FIELD_LEN - 1] else p
  }

  /** iv_board_get_field: splits the variable at commas, and the part number at dashes. */
  function GetField(vars: Vars, c: BoardClass, field: BoardField, sub: SubField): Option<seq<Byte>> {
    var p := if VarName(c) in vars then vars[VarName(c)] else [];
    var s := Seen(p);
    if field == FieldNone then Some(s)
    else
      var (pn, s1) := Strsep(s, COMMA);
      if field == FieldPN then
        if sub == SubNone then Some(pn)
        else
          var (_, t1) := Strsep(pn, DASH);
          var (ordinal, t2) := Token(t1, DASH);
          if sub == PnOrdinal then ordinal
          else
            var (variant, t3) := Token(t2, DASH);
            if sub == PnVariant then variant else Token(t3, DASH).0
      else
        var (sn, s2) := Token(s1, COMMA);
        if field == FieldSN then sn else Token(s2, COMMA).0
  }

  /** The text `ord` lies between the first two dashes of the part number. */
  predicate BetweenDashes(text: seq<Byte>, head: seq<Byte>, ord: seq<Byte>, rest: seq<Byte>) {
    && text == head + [45] + ord + rest && (rest == [] || rest[0] == 45 || rest[0] == 44)
    && 45 !in head && 44 !in head && 45 !in ord && 44 !in ord
  }

  lemma {:induction false} StrsepAt(s: seq<Byte>, c: Byte, token: seq<Byte>, rest: seq<Byte>)
    requires c !in token && s == token + [c] + rest
    ensures Strsep(s, c) == (token, Some(rest))
  {
    if token != [] {
      StrsepAt(s[1..], c, token[1..], rest);
      assert s[1..] == token[1..] + [c] + rest;
      assert token == [token[0]] + token[1..];
    } else {
      assert s[1..] == rest;
    }
  }

  lemma {:induction false} StrsepLast(s: seq<Byte>, c: Byte)
    requires c !in s
    ensures Strsep(s, c) == (s, None)
  {
    if s != [] {
      StrsepLast(s[1..], c);
      assert s == [s[0]] + s[1..];
    }
  }

  /** The token of a text that goes on with the separator or ends. */
  lemma StrsepToken(s: seq<Byte>, c: Byte, token: seq<Byte>, rest: seq<Byte>)
    requires c !in token && s == token + rest && (rest == [] || rest[0] == c)
    ensures Strsep(s, c).0 == token
    ensures Strsep(s, c).1 == if rest == [] then None else Some(rest[1..])
  {
    if rest == [] {
      StrsepLast(s, c);
    } else {
      assert s == token + [c] + rest[1..];
      StrsepAt(s, c, token, rest[1..]);
    }
  }

  /** Splitting at commas and then at dashes gives that text. */
  lemma OrdinalIsBetween(vars: Vars, c: BoardClass, head: seq<Byte>, ord: seq<Byte>, rest: seq<Byte>)
    requires VarName(c) in vars && BetweenDashes(Seen(vars[VarName(c)]), head, ord, rest)
    ensures GetField(vars, c, FieldPN, PnOrdinal) == Some(ord)
  {
    hide Strsep, VarName, Seen;
    var s := Seen(vars[VarName(c)]);
    if COMMA in rest {
      var k :| 0 <= k < |rest| && rest[k] == COMMA && COMMA !in rest[..k] by { FirstAt(rest, COMMA); }
      OrdinalOfPn(head, ord, rest[..k]);
      assert s == (head + [DASH] + ord + rest[..k]) + rest[k..];
      StrsepToken(s, COMMA, head + [DASH] + ord + rest[..k], rest[k..]);
    } else {
      OrdinalOfPn(head, ord, rest);
      StrsepLast(s, COMMA);
    }
  }

  lemma FirstAt(s: seq<Byte>, c: Byte)
    requires c in s
    ensures exists k :: 0 <= k < |s| && s[k] == c && c !in s[..k]
  {
    if s[0] != c {
      FirstAt(s[1..], c);
      var k :| 0 <= k < |s[1..]| && s[1..][k] == c && c !in s[1..][..k];
      assert s[..k + 1] == [s[0]] + s[1..][..k];
      assert s[k + 1] == c && c !in s[..k + 1];
    } else {
      assert s[..0] == [];
    }
  }

  lemma OrdinalOfPn(head: seq<Byte>, ord: seq<Byte>, rest: seq<Byte>)
    requires DASH !in head && DASH !in ord && (rest == [] || rest[0] == DASH)
    ensures var t := Strsep(head + [DASH] + ord + rest, DASH);
            t.1.Some? && Strsep(t.1.value, DASH).0 == ord
  {
    hide Strsep;
    assert head + [DASH] + ord + rest == head + [DASH] + (ord + rest);
    StrsepAt(head + [DASH] + ord + rest, DASH, head, ord + rest);
    StrsepToken(ord + rest, DASH, ord, rest);
  }

  /** The part number has no dash. */
  predicate NoDashes(text: seq<Byte>, pn: seq<Byte>, rest: seq<Byte>) {
    text == pn + rest && 44 !in pn && 45 !in pn && (rest == [] || rest[0] == 44)
  }

  /** Without a dash in the part number there is no ordinal. */
  lemma NoOrdinal(vars: Vars, c: BoardClass, pn: seq<Byte>, rest: seq<Byte>)
    requires VarName(c) in vars && NoDashes(Seen(vars[VarName(c)]), pn, rest)
    ensures GetField(vars, c, FieldPN, PnOrdinal) == None
  {
    hide Strsep, VarName;
    StrsepToken(pn + rest, COMMA, pn, rest);
    StrsepLast(pn, DASH);
  }

  /** "pn,sn,name" */
  function Joined(pn: seq<Byte>, sn: seq<Byte>, name: seq<Byte>): seq<Byte> {
    pn + [COMMA] + sn + [COMMA] + name
  }

  /** The string with spaces made underscores, or the hardcoded default when it is not acceptable. */
  function Checked(s: seq<Byte>): (r: seq<Byte>) {
    var t := Underscored(s);
    if AllPrintable(t) && Commas(t) == 2 then t else DEFAULT_IPMI
  }

  function Underscored(s: seq<Byte>): (t: seq<Byte>)
    ensures |t| == |s| && forall i :: 0 <= i < |s| ==> t[i] == if s[i] == SPACE then 95 else s[i]
  {
    seq(|s|, i requires 0 <= i < |s| => if s[i] == SPACE then 95 else s[i])
  }

  /** The verification loop of set_ipmi_env. */
  method CheckString(s: seq<Byte>) returns (t: seq<Byte>, nonprintable: nat, commas: nat)
    ensures t == Underscored(s)
    ensures nonprintable == 0 <==> AllPrintable(t)
    ensures commas == Commas(t)
  {
    t, nonprintable, commas := s, 0, 0;
    for p := 0 to |s|
      invariant |t| == |s|
      invariant forall i :: 0 <= i < p ==> t[i] == if s[i] == SPACE then 95 else s[i]
      invariant forall i :: p <= i < |s| ==> t[i] == s[i]
      invariant nonprintable == 0 <==> AllPrintable(t[..p])
      invariant commas == Commas(t[..p])
    {
      ghost var done := t[..p];
      if t[p] == 32 {
        t := t[p := 95];
      }
      assert t[..p] == done && t[..p + 1] == done + [t[p]];
      if !Printable(t[p]) {
        nonprintable := nonprintable + 1;
        assert !Printable(t[..p + 1][p]);
      }
      if t[p] == COMMA {
        commas := commas + 1;
      }
      assert t[..p + 1][..p] == done;
    }
    assert t[..|s|] == t;
  }

  /** The three cleaned fields, each built in its own buffer, joined by commas. */
  method JoinFields(product_raw: seq<Byte>, sn_raw: seq<Byte>, pn_raw: seq<Byte>) returns (s: seq<Byte>)
    requires |product_raw| < FIELD_LEN && |sn_raw| < FIELD_LEN && |pn_raw| < FIELD_LEN
    ensures s == Joined(Cleaned(pn_raw), Cleaned(sn_raw), Cleaned(product_raw))
  {
    hide Cleaned;
    var pn, sn, name := new Byte[FIELD_LEN](_ => 0), new Byte[FIELD_LEN](_ => 0), new Byte[FIELD_LEN](_ => 0);
    CopyIpmiField(pn, pn_raw);
    CopyIpmiField(sn, sn_raw);
    CopyIpmiField(name, product_raw);
    s := Joined(CString(pn[..]), CString(sn[..]), CString(name[..]));
  }

  class Environment {
    var vars: Vars

    /** set_ipmi_env, on the raw fields of an image. Without a forced value the joined string must fit its buffer. */
    method SetIpmiEnv(c: BoardClass, product_raw: seq<Byte>, sn_raw: seq<Byte>, pn_raw: seq<Byte>)
      requires |product_raw| < FIELD_LEN && |sn_raw| < FIELD_LEN && |pn_raw| < FIELD_LEN
      requires !(VarName(c) + FORCED in vars && vars[VarName(c) + FORCED] != []) ==>
                 |Joined(Cleaned(pn_raw), Cleaned(sn_raw), Cleaned(product_raw))| < FIELD_LEN
      modifies this
      ensures VarName(c) in vars
      ensures var forced := VarName(c) + FORCED;
              var text := if forced in old(vars) && old(vars[forced]) != [] then old(vars[forced])
                          else Joined(Cleaned(pn_raw), Cleaned(sn_raw), Cleaned(product_raw));
              vars[VarName(c)] == Checked(text) && IsChecked(text, vars[VarName(c)])
      ensures IsUnderscored(old(vars), vars, VarName(c) + FORCED)
      ensures forall other :: other !in {VarName(c), VarName(c) + FORCED, VarName(c) + ORD} ==>
                SameAt(old(vars), vars, other)
      ensures OrdinalIsSet(old(vars), vars, c)
    {
      hide Checked, IsChecked, Joined, Cleaned, VarName, GetField, BetweenDashes, Underscored, WithOrdinal, OrdinalIsSet;
      VarNamesDiffer(c);
      ghost var before := vars;
      SetString(c, product_raw, sn_raw, pn_raw);
      ghost var between := vars;
      SetOrdinal(c);
      WithOrdinalSets(between, c);
      OrdinalFrom(before, between, vars, c);
      OthersCompose(before, between, vars, c);
    }

    /** The variable itself: the forced string or the joined fields, checked. */
    method SetString(c: BoardClass, product_raw: seq<Byte>, sn_raw: seq<Byte>, pn_raw: seq<Byte>)
      requires |product_raw| < FIELD_LEN && |sn_raw| < FIELD_LEN && |pn_raw| < FIELD_LEN
      modifies this
      ensures VarName(c) in vars
      ensures var forced := VarName(c) + FORCED;
              var text := if forced in old(vars) && old(vars[forced]) != [] then old(vars[forced])
                          else Joined(Cleaned(pn_raw), Cleaned(sn_raw), Cleaned(product_raw));
              vars[VarName(c)] == Checked(text) && IsChecked(text, vars[VarName(c)])
      ensures IsUnderscored(old(vars), vars, VarName(c) + FORCED)
      ensures forall other :: other !in {VarName(c), VarName(c) + FORCED} ==> SameAt(old(vars), vars, other)
    {
      hide Checked, Cleaned, Underscored, Joined, VarName, AllPrintable, Commas, IsChecked, IsUnderscored, SameAt;
      var name := VarName(c);
      var forced := name + FORCED;
      VarNamesDiffer(c);
      vars := vars - {name};
      var use_forced := forced in vars && vars[forced] != [];
      var text;
      if use_forced {
        text := vars[forced];
      } else {
        text := JoinFields(product_raw, sn_raw, pn_raw);
      }
      var ipmi_string, nonprintable, commas := CheckString(text);
      CheckedIs(text);
      if use_forced {
        vars := vars[forced := ipmi_string];
      }
      if nonprintable > 0 || commas != 2 {
        ipmi_string := DEFAULT_IPMI;
      }
      vars := vars[name := ipmi_string];
      StringIsSet(old(vars), vars, name, forced, ipmi_string);
    }

    /** The ordinal variable, from the variable just set. */
    method SetOrdinal(c: BoardClass)
      modifies this
      ensures vars == WithOrdinal(old(vars), c)
    {
      var p := GetField(vars, c, FieldPN, PnOrdinal);
      if p.Some? && |p.value| + |VarName(c)| < FIELD_LEN {
        vars := EnvSet(vars, VarName(c) + ORD, p.value);
      }
    }
  }

  function WithOrdinal(vars: Vars, c: BoardClass): Vars {
    var p := GetField(vars, c, FieldPN, PnOrdinal);
    if p.Some? && |p.value| + |VarName(c)| < FIELD_LEN then EnvSet(vars, VarName(c) + ORD, p.value) else vars
  }

  /**
   The ordinal variable holds the text between the first two dashes of the part number, if
   there is a dash and the text is short enough; otherwise it is as before.
   */
  ghost predicate OrdinalIsSet(before: Vars, after: Vars, c: BoardClass) {
    && VarName(c) in after
    && var v := Seen(after[VarName(c)]);
       && (forall head, ord, rest :: BetweenDashes(v, head, ord, rest) ==>
             if |ord| + 5 < FIELD_LEN then IsSet(after, VarName(c) + ORD, ord) else SameAt(before, after, VarName(c) + ORD))
       && (forall pn, rest :: NoDashes(v, pn, rest) ==> SameAt(before, after, VarName(c) + ORD))
  }

  /** Spaces in the value become underscores. */
  predicate IsUnderscored(before: Vars, after: Vars, name: seq<Byte>) {
    (name in after <==> name in before) && (name in after ==> after[name] == Underscored(before[name]))
  }

  lemma StringIsSet(before: Vars, after: Vars, name: seq<Byte>, forced: seq<Byte>, r: seq<Byte>)
    requires name != forced
    requires after == if forced in before && before[forced] != []
                      then (before - {name})[forced := Underscored(before[forced])][name := r]
                      else (before - {name})[name := r]
    ensures IsUnderscored(before, after, forced)
    ensures forall other :: other !in {name, forced} ==> SameAt(before, after, other)
  {
    hide Underscored;
    UnderscoredNothing();
  }

  lemma OthersCompose(before: Vars, between: Vars, after: Vars, c: BoardClass)
    requires IsUnderscored(before, between, VarName(c) + FORCED)
    requires forall other :: other !in {VarName(c), VarName(c) + FORCED} ==> SameAt(before, between, other)
    requires forall other :: other != VarName(c) + ORD ==> SameAt(between, after, other)
    ensures IsUnderscored(before, after, VarName(c) + FORCED)
    ensures forall other :: other !in {VarName(c), VarName(c) + FORCED, VarName(c) + ORD} ==>
              SameAt(before, after, other)
  {
    hide VarName, Underscored;
    assert VarName(c) + FORCED != VarName(c) + ORD by { VarNamesDiffer(c); }
    assert SameAt(between, after, VarName(c) + FORCED);
    forall other | other !in {VarName(c), VarName(c) + FORCED, VarName(c) + ORD}
      ensures SameAt(before, after, other)
    {
      assert SameAt(before, between, other) && SameAt(between, after, other);
    }
  }

  lemma OrdinalFrom(before: Vars, between: Vars, after: Vars, c: BoardClass)
    requires OrdinalIsSet(between, after, c) && SameAt(before, between, VarName(c) + ORD)
    ensures OrdinalIsSet(before, after, c)
  {
    hide BetweenDashes, VarName;
  }

  /** Only the ordinal variable changes. */
  lemma WithOrdinalSets(vars: Vars, c: BoardClass)
    requires VarName(c) in vars
    ensures var w := WithOrdinal(vars, c);
            && OrdinalIsSet(vars, w, c) && VarName(c) in w && w[VarName(c)] == vars[VarName(c)]
            && forall other :: other != VarName(c) + ORD ==> SameAt(vars, w, other)
  {
    hide GetField, BetweenDashes, NoDashes, VarName, Seen;
    VarNamesDiffer(c);
    var v := Seen(vars[VarName(c)]);
    forall head, ord, rest | BetweenDashes(v, head, ord, rest)
      ensures GetField(vars, c, FieldPN, PnOrdinal) == Some(ord)
    {
      OrdinalIsBetween(vars, c, head, ord, rest);
    }
    forall pn, rest | NoDashes(v, pn, rest)
      ensures GetField(vars, c, FieldPN, PnOrdinal) == None
    {
      NoOrdinal(vars, c, pn, rest);
    }
  }

  lemma UnderscoredNothing()
    ensures Underscored([]) == []
  {
  }

  /** env_set: an empty value removes the variable. */
  function EnvSet(vars: Vars, name: seq<Byte>, value: seq<Byte>): Vars {
    if value == [] then vars - {name} else vars[name := value]
  }

  predicate IsSet(vars: Vars, name: seq<Byte>, value: seq<Byte>) {
    if value == [] then name !in vars else name in vars && vars[name] == value
  }

  predicate SameAt(v: Vars, w: Vars, name: seq<Byte>) {
    (name in v <==> name in w) && (name in v ==> v[name] == w[name])
  }

  /** Spaces as underscores; "none,none,Unknown" unless printable with two commas. */
  predicate IsChecked(s: seq<Byte>, r: seq<Byte>) {
    var t := Underscored(s);
    if (forall i :: 0 <= i < |t| ==> 32 <= t[i] <= 126) && multiset(t)[44] == 2 then r == t else r == DEFAULT_IPMI
  }

  lemma CheckedIs(s: seq<Byte>)
    ensures IsChecked(s, Checked(s))
    ensures var t := Underscored(s);
            Checked(s) == if AllPrintable(t) && Commas(t) == 2 then t else DEFAULT_IPMI
  {
    CommasAreCounted(Underscored(s));
  }

  lemma VarNamesDiffer(c: BoardClass)
    ensures |VarName(c)| == 5
    ensures VarName(c) != VarName(c) + FORCED && VarName(c) != VarName(c) + ORD
    ensures VarName(c) + FORCED != VarName(c) + ORD
  {
    assert |VarName(c) + FORCED| == 12 && |VarName(c) + ORD| == 9;
  }

  // ---------------------------------------------------------------- end to end

  lemma StripIs(s: seq<Byte>, r: seq<Byte>)
    requires |r| <= |s| && r == s[..|r|]
    requires forall i :: |r| <= i < |s| ==> s[i] == SPACE
    requires r != [] ==> r[|r| - 1] != SPACE
    ensures Strip(s) == r
  {
    var q := Strip(s);
    assert |q| > 0 ==> s[|q| - 1] == q[|q| - 1];
    assert |r| > 0 ==> s[|r| - 1] == r[|r| - 1];
  }

  /** The value of a field in the identity string: trailing spaces stripped, '_', ' ' and ',' replaced. */
  function Kept(text: seq<Byte>): (k: seq<Byte>)
    ensures |k| <= |text| && (forall i :: |k| <= i < |text| ==> text[i] == 32) && (k != [] ==> text[|k| - 1] != 32)
    ensures forall i :: 0 <= i < |k| ==>
              k[i] == if text[i] == 95 then 45 else if text[i] == 32 then 95 else if text[i] == 44 then 47 else text[i]
  {
    Translate(Strip(text))
  }

  /** Blank padding is invisible to U-Boot. */
  lemma CleanedOfPadded(text: seq<Byte>, n: nat)
    requires |text| <= n && IsText(text)
    ensures Cleaned(PaddedText(text, n)) == Kept(text)
  {
    var r := Strip(text);
    var padded := PaddedText(text, n);
    assert r == padded[..|r|];
    StripIs(padded, r);
    assert CString(r) == r;
  }

  lemma KeptIsClean(text: seq<Byte>)
    requires AllPrintable(text)
    ensures AllPrintable(Kept(text)) && COMMA !in Kept(text) && SPACE !in Kept(text) && |Kept(text)| <= |text|
  {
    var r := Strip(text);
    assert forall i :: 0 <= i < |r| ==> r[i] == text[i];
  }

  /** Splitting a joined string of comma-free parts gives the parts back. */
  lemma {:induction false} JoinedSplits(vars: Vars, c: BoardClass, pn: seq<Byte>, sn: seq<Byte>, name: seq<Byte>)
    requires COMMA !in pn && COMMA !in sn && COMMA !in name
    requires VarName(c) in vars && vars[VarName(c)] == Joined(pn, sn, name)
    requires |Joined(pn, sn, name)| < FIELD_LEN
    ensures GetField(vars, c, FieldPN, SubNone) == Some(pn)
    ensures GetField(vars, c, FieldSN, SubNone) == Some(sn)
    ensures GetField(vars, c, FieldName, SubNone) == Some(name)
  {
    hide Strsep;
    var s := Joined(pn, sn, name);
    var rest := sn + [COMMA] + name;
    assert s == pn + [COMMA] + rest;
    StrsepAt(s, COMMA, pn, rest);
    StrsepAt(rest, COMMA, sn, name);
    StrsepLast(name, COMMA);
  }

  /** Texts joined by dashes. */
  function Dashed(parts: seq<seq<Byte>>): seq<Byte>
    requires parts != []
  {
    if |parts| == 1 then parts[0] else parts[0] + [45] + Dashed(parts[1..])
  }

  function At(parts: seq<seq<Byte>>, i: nat): Option<seq<Byte>> {
    if i < |parts| then Some(parts[i]) else None
  }

  lemma DashedSplits(parts: seq<seq<Byte>>)
    requires parts != [] && forall i :: 0 <= i < |parts| ==> DASH !in parts[i]
    ensures Strsep(Dashed(parts), DASH).0 == parts[0]
    ensures Strsep(Dashed(parts), DASH).1 == if |parts| == 1 then None else Some(Dashed(parts[1..]))
  {
    hide Strsep;
    if |parts| == 1 {
      StrsepLast(parts[0], DASH);
    } else {
      StrsepAt(Dashed(parts), DASH, parts[0], Dashed(parts[1..]));
    }
  }

  /** For a part number of any number of dash-free texts the subfields are the second, third and fourth, if there. */
  lemma PnSplits(vars: Vars, c: BoardClass, parts: seq<seq<Byte>>, sn: seq<Byte>, name: seq<Byte>)
    requires parts != [] && (forall i :: 0 <= i < |parts| ==> DASH !in parts[i]) && COMMA !in Dashed(parts)
    requires VarName(c) in vars && vars[VarName(c)] == Joined(Dashed(parts), sn, name)
    requires |Joined(Dashed(parts), sn, name)| < FIELD_LEN
    ensures GetField(vars, c, FieldPN, PnOrdinal) == At(parts, 1)
    ensures GetField(vars, c, FieldPN, PnVariant) == At(parts, 2)
    ensures GetField(vars, c, FieldPN, PnRevision) == At(parts, 3)
  {
    hide Strsep, Dashed, VarName;
    var pn, rest := Dashed(parts), sn + [COMMA] + name;
    assert Joined(pn, sn, name) == pn + [COMMA] + rest;
    StrsepAt(Joined(pn, sn, name), COMMA, pn, rest);
    DashedSplits(parts);
    if |parts| > 1 { DashedSplits(parts[1..]); }
    if |parts| > 2 { DashedSplits(parts[2..]); }
    if |parts| > 3 { DashedSplits(parts[3..]); }
    assert |parts| > 1 ==> parts[1..][1..] == parts[2..];
    assert |parts| > 2 ==> parts[2..][1..] == parts[3..];
  }

  /** The part number has the ordinal `ord`: no underscore, which would become a dash, and nothing else replaced. */
  predicate HasOrdinal(pn: seq<Byte>, head: seq<Byte>, ord: seq<Byte>, rest: seq<Byte>) {
    && pn == head + [45] + ord + rest && (rest == [] || rest[0] == 45 || rest[0] == 95)
    && 45 !in head && 95 !in head && 45 !in ord && 95 !in ord && 44 !in ord && 32 !in ord
  }

  /** The ordinal survives stripping and translating. */
  lemma OrdinalIsKept(pn: seq<Byte>, sn: seq<Byte>, name: seq<Byte>, head: seq<Byte>, ord: seq<Byte>, rest: seq<Byte>)
    returns (head': seq<Byte>, rest': seq<Byte>)
    requires HasOrdinal(pn, head, ord, rest)
    ensures BetweenDashes(Joined(Kept(pn), sn, name), head', ord, rest')
  {
    var tail := StripKeepsOrdinal(pn, head, ord, rest);
    hide Strip, Translate;
    KeptParts(head, ord, tail);
    DashStays(tail);
    NoDashAppears(head);
    head', rest' := Translate(head), Translate(tail) + [COMMA] + sn + [COMMA] + name;
    assert (head' + [45] + ord + Translate(tail)) + [COMMA] + sn + [COMMA] + name == head' + [45] + ord + rest';
  }

  lemma StripKeepsOrdinal(pn: seq<Byte>, head: seq<Byte>, ord: seq<Byte>, rest: seq<Byte>) returns (tail: seq<Byte>)
    requires HasOrdinal(pn, head, ord, rest)
    ensures Strip(pn) == head + [45] + ord + tail && (tail == [] || tail[0] == 45 || tail[0] == 95)
  {
    hide Strip;
    var n, r := |head| + 1 + |ord|, Strip(pn);
    assert ord == [] ==> pn[n - 1] == 45;
    assert ord != [] ==> pn[n - 1] == ord[|ord| - 1] && pn[n - 1] in ord;
    assert pn[n - 1] != SPACE;
    tail := r[n..];
    assert r == pn[..|r|] == head + [45] + ord + rest[..|r| - n];
  }

  lemma KeptParts(head: seq<Byte>, ord: seq<Byte>, tail: seq<Byte>)
    requires 95 !in ord && 44 !in ord && 32 !in ord
    ensures Translate(head + [45] + ord + tail) == Translate(head) + [45] + ord + Translate(tail)
  {
    hide Translate;
    TranslateConcat(head + [45] + ord, tail);
    TranslateConcat(head + [45], ord);
    TranslateConcat(head, [45]);
    OrdinalIsFixed(ord);
    DashIsFixed();
  }

  lemma DashStays(tail: seq<Byte>)
    requires tail == [] || tail[0] == 45 || tail[0] == 95
    ensures Translate(tail) == [] || Translate(tail)[0] == 45
  {
  }

  lemma NoDashAppears(head: seq<Byte>)
    requires 45 !in head && 95 !in head
    ensures 45 !in Translate(head) && 44 !in Translate(head)
  {
    assert forall i :: 0 <= i < |head| ==> head[i] in head;
  }

  lemma TranslateConcat(s: seq<Byte>, t: seq<Byte>)
    ensures Translate(s + t) == Translate(s) + Translate(t)
  {
  }

  lemma OrdinalIsFixed(ord: seq<Byte>)
    requires 95 !in ord && 44 !in ord && 32 !in ord
    ensures Translate(ord) == ord
  {
    assert forall i :: 0 <= i < |ord| ==> ord[i] in ord;
  }

  lemma DashIsFixed()
    ensures Translate([45]) == [45]
  {
  }

  /** A joined string of clean parts is accepted unchanged and has exactly two commas. */
  lemma {:induction false} JoinedIsAccepted(pn: seq<Byte>, sn: seq<Byte>, name: seq<Byte>)
    requires COMMA !in pn && COMMA !in sn && COMMA !in name
    requires SPACE !in pn && SPACE !in sn && SPACE !in name
    requires AllPrintable(pn) && AllPrintable(sn) && AllPrintable(name)
    ensures Commas(Joined(pn, sn, name)) == 2 && Checked(Joined(pn, sn, name)) == Joined(pn, sn, name)
  {
    var s := Joined(pn, sn, name);
    JoinedCommas(pn, sn, name);
    assert SPACE !in s;
    assert forall i :: 0 <= i < |s| ==> s[i] in s;
    assert Underscored(s) == s;
    assert AllPrintable(s);
  }

  lemma {:induction false} JoinedCommas(pn: seq<Byte>, sn: seq<Byte>, name: seq<Byte>)
    requires COMMA !in pn && COMMA !in sn && COMMA !in name
    ensures Commas(Joined(pn, sn, name)) == 2
  {
    hide Commas;
    CommasAppend(pn, [COMMA]);
    CommasAppend(pn + [COMMA], sn);
    CommasAppend(pn + [COMMA] + sn, [COMMA]);
    CommasAppend(pn + [COMMA] + sn + [COMMA], name);
    NoCommas(pn);
    NoCommas(sn);
    NoCommas(name);
    OneComma();
  }

  lemma OneComma()
    ensures Commas([COMMA]) == 1
  {
  }

  /** The raw predefined fields of a created image are the blank-padded strings. */
  lemma CreatedFields(date: seq<Byte>, strs: seq<seq<Byte>>)
    requires |date| == 3 && |strs| == PREDEF && LengthsOk(strs, DEFAULT_LENGTHS)
    ensures var fs := CreatedBoard(date, strs, DEFAULT_LENGTHS).predef;
            && |fs| == PREDEF && |strs[1]| <= 16 && |strs[2]| <= 10 && |strs[3]| <= 15
            && fs[1].data == PaddedText(strs[1], 16) && fs[2].data == PaddedText(strs[2], 10)
            && fs[3].data == PaddedText(strs[3], 15)
  {
    hide LengthsOk, PaddedText;
    DefaultLengthsOk(strs);
  }

  /**
   ivfru_create, ivfru_write to the board storage, and U-Boot's board scan of it: for printable
   strings and no forced value the variable is "pn,sn,name" with exactly two commas, and
   splitting it returns each string with trailing spaces stripped and characters translated.
   */
  method CreateThenScan(mem: array<Byte>, store: array<Byte>, back: array<Byte>, env: Environment, c: BoardClass,
                        mfgdate: seq<Byte>, product: seq<Byte>, sn: seq<Byte>, pn: seq<Byte>, mfr: Option<seq<Byte>>)
    returns (ret: Ret)
    requires mem.Length >= 352 && store.Length >= 72 && back.Length >= 136
    requires mem != store && mem != back && store != back
    requires AllPrintable(product) && AllPrintable(sn) && AllPrintable(pn)
    requires VarName(c) + FORCED !in env.vars
    modifies mem, store, back, env
    ensures ret == Success <==>
            IsDate(mfgdate) && |WithManufacturer([], mfr)[0]| <= 10 && |product| <= 16 && |sn| <= 10 && |pn| <= 15
    ensures ret == Success ==>
              && VarName(c) in env.vars
              && env.vars[VarName(c)] == Joined(Kept(pn), Kept(sn), Kept(product))
                                      == Kept(pn) + [44] + Kept(sn) + [44] + Kept(product)
              && Commas(env.vars[VarName(c)]) == 2
              && GetField(env.vars, c, FieldPN, SubNone) == Some(Kept(pn))
              && GetField(env.vars, c, FieldSN, SubNone) == Some(Kept(sn))
              && GetField(env.vars, c, FieldName, SubNone) == Some(Kept(product))
    ensures ret == Success ==>
              forall head, ord, rest :: HasOrdinal(pn, head, ord, rest) ==> IsSet(env.vars, VarName(c) + ORD, ord)
    ensures ret == Success ==> Readable(mem[..]) && IsCreated(mem[..], [product, sn, pn], mfr)
  {
    hide Cleaned, Kept, GetField, Checked, Joined, Holds, ImageVerdict, CreatedBoard, Commas, VarName, LengthsOk;
    hide StoredDate, IsDate, Readable, HasOrdinal, IsSet, OrdinalIsSet, IsChecked, IsUnderscored, SameAt;
    ghost var m := mem[..];
    var total;
    ret, total := Create(mem, mfgdate, product, sn, pn, mfr);
    if ret == Success {
      ghost var strs := WithManufacturer([product, sn, pn], mfr);
      ghost var s := Image(CH_DEFAULT, CreatedBoard(StoredDate(m, mfgdate), strs, DEFAULT_LENGTHS));
      DefaultSize(StoredDate(m, mfgdate), strs);
      StoreCreated(mem, store, back, s);
      var res := Validate(back);
      assert res == Valid;
      CreatedFields(StoredDate(m, mfgdate), strs);
      var product_at, product_len, sn_at, sn_len, pn_at, pn_len := PredefinedFields(back, s);
      FieldsAreKept(product, sn, pn);
      env.SetIpmiEnv(c, back[product_at..product_at + product_len], back[sn_at..sn_at + sn_len],
                     back[pn_at..pn_at + pn_len]);
      JoinedIsAccepted(Kept(pn), Kept(sn), Kept(product));
      JoinedSplits(env.vars, c, Kept(pn), Kept(sn), Kept(product));
      JoinedIs(Kept(pn), Kept(sn), Kept(product));
      forall head, ord, rest | HasOrdinal(pn, head, ord, rest)
        ensures IsSet(env.vars, VarName(c) + ORD, ord)
      {
        OrdinalOfScanned(old(env.vars), env.vars, c, product, sn, pn, head, ord, rest);
      }
    }
  }

  lemma JoinedIs(pn: seq<Byte>, sn: seq<Byte>, name: seq<Byte>)
    ensures Joined(pn, sn, name) == pn + [44] + sn + [44] + name
  {
  }

  /** The memory holds the image of these strings in the default lengths, with some date. */
  ghost predicate IsCreated(m: seq<Byte>, given: seq<seq<Byte>>, mfr: Option<seq<Byte>>)
    requires Readable(m) && |given| == 3
  {
    var strs := WithManufacturer(given, mfr);
    LengthsOk(strs, DEFAULT_LENGTHS)
    && exists date :: |date| == 3 && Holds(m, Image(CH_DEFAULT, CreatedBoard(date, strs, DEFAULT_LENGTHS)))
  }

  lemma OrdinalOfScanned(before: Vars, after: Vars, c: BoardClass, product: seq<Byte>, sn: seq<Byte>, pn: seq<Byte>,
                         head: seq<Byte>, ord: seq<Byte>, rest: seq<Byte>)
    requires OrdinalIsSet(before, after, c) && HasOrdinal(pn, head, ord, rest) && |pn| <= 15
    requires VarName(c) in after && after[VarName(c)] == Joined(Kept(pn), Kept(sn), Kept(product))
    requires |Joined(Kept(pn), Kept(sn), Kept(product))| < FIELD_LEN
    ensures IsSet(after, VarName(c) + ORD, ord)
  {
    hide BetweenDashes, VarName, IsSet, SameAt, Joined, Kept;
    var head', rest' := OrdinalIsKept(pn, Kept(sn), Kept(product), head, ord, rest);
    assert BetweenDashes(Seen(after[VarName(c)]), head', ord, rest');
    assert |ord| <= |pn|;
  }

  /**
   The two readers agree: for a decimal ordinal the variable is its text and the boot loader's
   get_pn_ord, on the same image, its value.
   */
  method CreateThenScanAndBoot(mem: array<Byte>, store: array<Byte>, back: array<Byte>, env: Environment, c: BoardClass,
                               mfgdate: seq<Byte>, product: seq<Byte>, sn: seq<Byte>, pn: seq<Byte>, mfr: Option<seq<Byte>>,
                               ghost head: seq<Byte>, ghost ord: seq<Byte>, ghost rest: seq<Byte>)
    returns (ret: Ret, ordinal: int)
    requires mem.Length >= 352 && store.Length >= 72 && back.Length >= 136
    requires mem != store && mem != back && store != back
    requires AllPrintable(product) && AllPrintable(sn) && AllPrintable(pn)
    requires VarName(c) + FORCED !in env.vars
    requires HasOrdinal(pn, head, ord, rest) && ord != [] && forall i :: 0 <= i < |ord| ==> IsDigit(ord[i])
    modifies mem, store, back, env
    ensures ret == Success ==>
              && ordinal == Decimal(ord)
              && VarName(c) + ORD in env.vars && env.vars[VarName(c) + ORD] == ord
  {
    hide AllPrintable, VarName, IsDigit, Decimal, Holds, ImageVerdict, Readable, LengthsOk, CreatedBoard, IsCreated;
    hide Joined, Kept, GetField, Commas, StoredDate, IsDate, Fsbl.PnOrdinal, HasOrdinal;
    ordinal := -1;
    ret := CreateThenScan(mem, store, back, env, c, mfgdate, product, sn, pn, mfr);
    if ret == Success {
      PrintableIsText(pn);
      BootReads(mem[..], [product, sn, pn], mfr, head, ord, rest);
      ordinal := Fsbl.PnOrdinal(mem[..][..72]);
    }
  }

  lemma BootReads(m: seq<Byte>, given: seq<seq<Byte>>, mfr: Option<seq<Byte>>,
                  head: seq<Byte>, ord: seq<Byte>, rest: seq<Byte>)
    requires Readable(m) && |given| == 3 && IsCreated(m, given, mfr)
    requires HasOrdinal(given[2], head, ord, rest) && IsText(given[2])
    requires ord != [] && forall i :: 0 <= i < |ord| ==> IsDigit(ord[i])
    ensures |m| >= 72 && Fsbl.PnOrdinal(m[..72]) == Decimal(ord)
  {
    hide Decimal, Holds, ImageVerdict, Readable, LengthsOk, CreatedBoard, IsText, Fsbl.IsStruct, Fsbl.PnOrdinal;
    var strs := WithManufacturer(given, mfr);
    var date :| |date| == 3 && Holds(m, Image(CH_DEFAULT, CreatedBoard(date, strs, DEFAULT_LENGTHS)));
    Fsbl.CreatedIsStruct(m, date, strs);
    Fsbl.OrdinalIsReadBack(m[..72], strs, head, ord, rest);
  }

  /** A 64-byte board goes to the storage and comes back. */
  method StoreCreated(mem: array<Byte>, store: array<Byte>, back: array<Byte>, ghost s: Image)
    requires store.Length >= 72 && back.Length >= 136 && mem != store && mem != back && store != back
    requires Readable(mem[..]) && Holds(mem[..], s) && s.header == CH_DEFAULT && Size(s.board) == 64
    modifies store, back
    ensures Readable(back[..]) && Holds(back[..], s) && ImageVerdict(back[..]) == Valid
  {
    hide Holds, ImageVerdict, Size;
    HeldImageIsValid(mem[..], s);
    DefaultIsNotOld();
    assert mem[..][..8] == mem[..8];
    var length, read_len := FruStore.WriteThenRead(store, mem, back);
    assert back[..][..72] == back[..72] && mem[..][..72] == mem[..72];
    HoldsByPrefix(mem[..], back[..], s);
    HeldImageIsValid(back[..], s);
  }

  /** What the scan makes of three printable default-length strings. */
  lemma FieldsAreKept(product: seq<Byte>, sn: seq<Byte>, pn: seq<Byte>)
    requires AllPrintable(product) && AllPrintable(sn) && AllPrintable(pn)
    requires |product| <= 16 && |sn| <= 10 && |pn| <= 15
    ensures Cleaned(PaddedText(product, 16)) == Kept(product) && Cleaned(PaddedText(sn, 10)) == Kept(sn)
    ensures Cleaned(PaddedText(pn, 15)) == Kept(pn)
    ensures |Joined(Kept(pn), Kept(sn), Kept(product))| < FIELD_LEN
    ensures AllPrintable(Kept(product)) && COMMA !in Kept(product) && SPACE !in Kept(product)
    ensures AllPrintable(Kept(sn)) && COMMA !in Kept(sn) && SPACE !in Kept(sn)
    ensures AllPrintable(Kept(pn)) && COMMA !in Kept(pn) && SPACE !in Kept(pn)
  {
    hide Cleaned, Kept, PaddedText;
    PrintableIsText(product);
    PrintableIsText(sn);
    PrintableIsText(pn);
    hide AllPrintable, IsText;
    CleanedOfPadded(product, 16);
    CleanedOfPadded(sn, 10);
    CleanedOfPadded(pn, 15);
    KeptIsClean(product);
    KeptIsClean(sn);
    KeptIsClean(pn);
  }

  lemma DefaultIsNotOld()
    ensures CH_DEFAULT != CH_OLD
  {
    assert CH_DEFAULT[3] != CH_OLD[3];
  }

  lemma PrintableIsText(s: seq<Byte>)
    requires AllPrintable(s)
    ensures IsText(s)
  {
  }
}
