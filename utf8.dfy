/** hfsp_utf8_wctomb (hfsp_debug.c:6-54): the table-driven encoder of one
    UTF-16 code unit into UTF-8, specified by the bit patterns of section 3
    of RFC 3629 and checked against a decoder and the well-formedness
    grammar of section 4 of RFC 3629. */
module Utf8 {
  import opened Bytes

  /** One row of utf8_table: the lead-byte mask and marker, the shift of
      the lead byte's payload, and the largest (and smallest) value the
      row's sequence length encodes. */
  datatype Row = Row(cmask: bv32, cval: bv32, shift: bv32, lmask: bv32, lval: bv32)

  /** utf8_table: rows for sequences of one to six bytes, then an
      all-zero row that ends the table. */
  const UTF8_TABLE: seq<Row> := [
    Row(0x80, 0x00, 0, 0x7F, 0),
    Row(0xE0, 0xC0, 6, 0x7FF, 0x80),
    Row(0xF0, 0xE0, 12, 0xFFFF, 0x800),
    Row(0xF8, 0xF0, 18, 0x1F_FFFF, 0x1_0000),
    Row(0xFC, 0xF8, 24, 0x3FF_FFFF, 0x20_0000),
    Row(0xFE, 0xFC, 30, 0x7FFF_FFFF, 0x400_0000),
    Row(0, 0, 0, 0, 0)]

  /** Bytes in the UTF-8 form of a code unit. */
  function Utf8Length(wc: bv16): nat
  {
    if wc < 0x80 then 1 else if wc < 0x800 then 2 else 3
  }

  /** The UTF-8 form of a code unit, from the bit patterns of section 3 of
      RFC 3629: 0xxxxxxx, 110xxxxx 10xxxxxx, 1110xxxx 10xxxxxx 10xxxxxx. */
  function Utf8Encode(wc: bv16): (r: seq<byte>)
    ensures |r| == Utf8Length(wc)
  {
    if wc < 0x80 then [wc as byte]
    else if wc < 0x800 then [(0xC0 | (wc >> 6)) as byte, (0x80 | (wc & 0x3F)) as byte]
    else [(0xE0 | (wc >> 12)) as byte, (0x80 | ((wc >> 6) & 0x3F)) as byte, (0x80 | (wc & 0x3F)) as byte]
  }

  /** A trailing byte 10xxxxxx (UTF8-tail of section 4 of RFC 3629). */
  predicate IsTail(b: byte)
  {
    0x80 <= b <= 0xBF
  }

  /** The well-formed one- to three-byte sequences of the grammar in
      section 4 of RFC 3629: shortest form only, and no surrogate code
      points (the ED lead only with A0-BF excluded). */
  predicate WellFormed(s: seq<byte>)
  {
    (|s| == 1 && s[0] <= 0x7F)
    || (|s| == 2 && 0xC2 <= s[0] <= 0xDF && IsTail(s[1]))
    || (|s| == 3 && IsTail(s[2]) &&
        ((s[0] == 0xE0 && 0xA0 <= s[1] <= 0xBF)
         || ((0xE1 <= s[0] <= 0xEC || 0xEE <= s[0] <= 0xEF) && IsTail(s[1]))
         || (s[0] == 0xED && 0x80 <= s[1] <= 0x9F)))
  }

  /** The payload of a two-byte sequence: five bits of the lead byte,
      then six of the trailing byte. */
  function Decode2(b0: byte, b1: byte): bv16
  {
    ((b0 & 0x1F) as bv16 << 6) | (b1 & 0x3F) as bv16
  }

  /** The payload of a three-byte sequence: four bits of the lead byte,
      then six from each trailing byte. */
  function Decode3(b0: byte, b1: byte, b2: byte): bv16
  {
    ((b0 & 0x0F) as bv16 << 12) | ((b1 & 0x3F) as bv16 << 6) | (b2 & 0x3F) as bv16
  }

  /** Decoding of a one- to three-byte sequence. */
  function Utf8Decode(s: seq<byte>): bv16
    requires 1 <= |s| <= 3
  {
    if |s| == 1 then s[0] as bv16
    else if |s| == 2 then Decode2(s[0], s[1])
    else Decode3(s[0], s[1], s[2])
  }

  /** Decoding the encoder's output gives back the code unit, so distinct
      code units never share a UTF-8 form. */
  lemma DecodeEncode(wc: bv16)
    ensures Utf8Decode(Utf8Encode(wc)) == wc
  {
    var e := Utf8Encode(wc);
    if wc < 0x80 {
    } else if wc < 0x800 {
      assert Decode2((0xC0 | (wc >> 6)) as byte, (0x80 | (wc & 0x3F)) as byte) == wc;
    } else {
      assert Decode3((0xE0 | (wc >> 12)) as byte, (0x80 | ((wc >> 6) & 0x3F)) as byte,
        (0x80 | (wc & 0x3F)) as byte) == wc;
    }
  }

  /** The encoder writes a well-formed sequence exactly for the code units
      that are not surrogates (0xD800-0xDFFF, which section 3 of RFC 3629
      excludes and the encoder does not). */
  lemma EncodeWellFormed(wc: bv16)
    ensures WellFormed(Utf8Encode(wc)) <==> !(0xD800 <= wc <= 0xDFFF)
  {
    var e := Utf8Encode(wc);
    if wc < 0x80 {
    } else if wc < 0x800 {
      assert 0xC2 <= e[0] <= 0xDF;
    } else {
      assert e[0] == 0xED <==> 0xD000 <= wc <= 0xDFFF;
      assert e[0] == 0xE0 <==> wc < 0x1000;
    }
  }

  /** The lead byte is never a trailing byte and every other byte is one,
      so a reader can find the start of each sequence. */
  lemma EncodeShape(wc: bv16)
    ensures !IsTail(Utf8Encode(wc)[0])
    ensures forall j :: 1 <= j < |Utf8Encode(wc)| ==> IsTail(Utf8Encode(wc)[j])
  {
  }

  /** hfsp_utf8_wctomb succeeds when maxLen is negative (no limit: the
      countdown never reaches zero) or leaves room for the whole sequence. */
  predicate Fits(wc: bv16, maxLen: int)
  {
    maxLen < 0 || Utf8Length(wc) <= maxLen
  }

  /** Row t of the table holds wc exactly when wc's sequence has t + 1 bytes. */
  lemma RowHolds(wc: bv16, t: nat)
    requires t < Utf8Length(wc)
    ensures UTF8_TABLE[t].cmask != 0
    ensures wc as bv32 <= UTF8_TABLE[t].lmask <==> t == Utf8Length(wc) - 1
  {
  }

  /** The lead byte the table writes is the first byte of the sequence. */
  lemma LeadByte(wc: bv16, row: Row, b: byte)
    requires row == UTF8_TABLE[|Utf8Encode(wc)| - 1]
    requires b == ((row.cval | ((wc as bv32) >> row.shift)) & 0xFF) as byte
    ensures b == Utf8Encode(wc)[0]
  {
    var l := wc as bv32;
    if wc < 0x80 {
      assert (l >> 0) & 0xFF == l;
    } else if wc < 0x800 {
      assert ((0xC0 | (l >> 6)) & 0xFF) as byte == (0xC0 | (wc >> 6)) as byte;
    } else {
      assert ((0xE0 | (l >> 12)) & 0xFF) as byte == (0xE0 | (wc >> 12)) as byte;
    }
  }

  /** The shift that leaves k six-bit groups below it. */
  function GroupShift(k: nat): bv32
    requires k <= 2
  {
    if k == 0 then 0 else if k == 1 then 6 else 12
  }

  /** The continuation byte of hfsp_debug.c:46: the six bits that sit c
      bits up in wc, under the 10xxxxxx marker; for continuation byte j,
      c leaves |Utf8Encode(wc)| - 1 - j groups below it. */
  method ContinuationByte(wc: bv16, j: nat, c: bv32) returns (b: byte)
    requires 1 <= j < |Utf8Encode(wc)| && c == GroupShift(|Utf8Encode(wc)| - 1 - j)
    ensures b == Utf8Encode(wc)[j]
  {
    b := (0x80 | (((wc as bv32) >> c) & 0x3F)) as byte;
  }

  /** The body of the matching row (hfsp_debug.c:42-49): the lead byte,
      then a continuation byte for every six bits of shift left. */
  method StoreSequence(sp: array<byte>, off: nat, wc: bv16, shift: bv32, lead: byte)
    requires off + |Utf8Encode(wc)| <= sp.Length
    requires shift == GroupShift(|Utf8Encode(wc)| - 1) && lead == Utf8Encode(wc)[0]
    modifies sp
    ensures sp[off..off + |Utf8Encode(wc)|] == Utf8Encode(wc)
    ensures forall i :: 0 <= i < sp.Length && !(off <= i < off + |Utf8Encode(wc)|) ==> sp[i] == old(sp[i])
  {
    var c := shift;
    sp[off] := lead;
    var j := 1;
    while c > 0
      invariant 1 <= j <= |Utf8Encode(wc)| && c == GroupShift(|Utf8Encode(wc)| - j)
      invariant forall k :: 0 <= k < j ==> sp[off + k] == Utf8Encode(wc)[k]
      invariant forall i :: 0 <= i < sp.Length && !(off <= i < off + j) ==> sp[i] == old(sp[i])
      decreases |Utf8Encode(wc)| - j
    {
      c := c - 6;
      var b := ContinuationByte(wc, j, c);
      sp[off + j] := b;
      j := j + 1;
    }
    assert sp[off..off + |Utf8Encode(wc)|] == Utf8Encode(wc);
  }

  /** The row walk of hfsp_debug.c:37-41: one row per byte of allowance,
      counting rows in nc, until the row whose range holds wc. */
  method SelectRow(wc: bv16, maxLen: int) returns (nc: int)
    ensures nc == if Fits(wc, maxLen) then Utf8Length(wc) else -1
  {
    var t := 0;
    var left := maxLen;
    nc := 0;
    while UTF8_TABLE[t].cmask != 0 && left != 0
      invariant 0 <= t < Utf8Length(wc) && nc == t && left == maxLen - t
      invariant maxLen >= 0 ==> t <= maxLen
      decreases Utf8Length(wc) - t
    {
      nc := nc + 1;
      RowHolds(wc, t);
      if wc as bv32 <= UTF8_TABLE[t].lmask {
        return;
      }
      t := t + 1;
      left := left - 1;
    }
    nc := -1;
  }

  /** hfsp_utf8_wctomb(sp + off, wc, maxLen) (hfsp_debug.c:25-54). A null
      destination gives 0; otherwise the row walk picks the row, which
      writes its sequence, or gives -1 and nothing is written. */
  method Wctomb(sp: array?<byte>, off: nat, wc: bv16, maxLen: int) returns (n: int)
    requires sp != null && Fits(wc, maxLen) ==> off + |Utf8Encode(wc)| <= sp.Length
    modifies sp
    ensures sp == null ==> n == 0
    ensures sp != null ==> n == if Fits(wc, maxLen) then |Utf8Encode(wc)| else -1
    ensures sp != null && n > 0 ==> sp[off..off + n] == Utf8Encode(wc)
    ensures sp != null ==> forall i :: 0 <= i < sp.Length && !(off <= i < off + n) ==> sp[i] == old(sp[i])
  {
    if sp == null {
      return 0;
    }
    n := SelectRow(wc, maxLen);
    if n > 0 {
      var row := UTF8_TABLE[n - 1];
      var lead := ((row.cval | ((wc as bv32) >> row.shift)) & 0xFF) as byte;
      LeadByte(wc, row, lead);
      StoreSequence(sp, off, wc, row.shift, lead);
    }
  }
}
