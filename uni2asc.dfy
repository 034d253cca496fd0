/** hfsp_uni2asc (hfsp_debug.c:56-88): the conversion of a catalog name,
    stored as big-endian UTF-16 code units, into UTF-8 bytes, one unit at a
    time through hfsp_utf8_wctomb. The code as written is modelled as a
    step function, which exhibits its three defects; the corrected
    conversion is a method proved against a greedy specification. */
module Names {
  import opened Bytes
  import opened Hfsp
  import opened Utf8

  /** struct hfsp_unistr: hu_len code units, stored big-endian in the bytes
      of hu_str (unit i in bytes 2i and 2i + 1). */
  datatype UniStr = UniStr(len: nat, str: seq<byte>)

  predicate ValidUniStr(u: UniStr)
  {
    2 * u.len <= |u.str|
  }

  /** be16toh(hu_str[i]). */
  function Unit(u: UniStr, i: nat): bv16
    requires ValidUniStr(u) && i < u.len
  {
    BE16(u.str, 2 * i)
  }

  /** The code unit handed to the encoder: NUL becomes U+2400 (SYMBOL FOR
      NULL); every other unit is itself. */
  function Substitute(c: bv16): bv16
  {
    if c == 0 then 0x2400 else c
  }

  /** The bytes one code unit turns into. A unit in 0x01-0x7F is copied as
      one byte, which is also its UTF-8 form. */
  function UnitBytes(c: bv16): (r: seq<byte>)
    ensures 1 <= |r| <= 3
  {
    Utf8Encode(Substitute(c))
  }

  /** The bytes each unit of the name turns into, in order. */
  function Pieces(u: UniStr): (ps: seq<seq<byte>>)
    requires ValidUniStr(u)
    ensures |ps| == u.len
    ensures forall i :: 0 <= i < u.len ==> ps[i] == UnitBytes(Unit(u, i))
  {
    seq(u.len, i requires 0 <= i < u.len => UnitBytes(Unit(u, i)))
  }

  /** Every piece holds at least one byte. */
  predicate NonEmpty(ps: seq<seq<byte>>)
  {
    forall i :: 0 <= i < |ps| ==> |ps[i]| >= 1
  }

  /** The first n pieces, one after another. */
  function Concat(ps: seq<seq<byte>>, n: nat): seq<byte>
    requires n <= |ps|
  {
    if n == 0 then [] else Concat(ps, n - 1) + ps[n - 1]
  }

  /** The bytes of the first n units of the name. */
  function Encoded(u: UniStr, n: nat): seq<byte>
    requires ValidUniStr(u) && n <= u.len
  {
    Concat(Pieces(u), n)
  }

  /** Each further piece adds at least one byte, and what was there stays
      a prefix. */
  lemma {:induction false} ConcatGrows(ps: seq<seq<byte>>, m: nat, n: nat)
    requires NonEmpty(ps) && m <= n <= |ps|
    ensures |Concat(ps, m)| + (n - m) <= |Concat(ps, n)|
    ensures Concat(ps, m) == Concat(ps, n)[..|Concat(ps, m)|]
    decreases n - m
  {
    if m < n {
      ConcatGrows(ps, m, n - 1);
    }
  }

  /** The greedy piece count from n on: keep taking pieces while their
      bytes still fit in len. */
  function FitCount(ps: seq<seq<byte>>, len: int, n: nat): (r: nat)
    requires n <= |ps|
    ensures n <= r <= |ps|
    decreases |ps| - n
  {
    if n == |ps| || |Concat(ps, n + 1)| > len then n else FitCount(ps, len, n + 1)
  }

  /** The number of units the corrected conversion takes. */
  function Converted(u: UniStr, len: int): nat
    requires ValidUniStr(u)
  {
    FitCount(Pieces(u), len, 0)
  }

  /** The prefix FitCount gives fits. */
  lemma {:induction false} FitCountFits(ps: seq<seq<byte>>, len: int, n: nat)
    requires n <= |ps| && (n == 0 || |Concat(ps, n)| <= len)
    ensures var r := FitCount(ps, len, n); r == 0 || |Concat(ps, r)| <= len
    decreases |ps| - n
  {
    if n < |ps| && |Concat(ps, n + 1)| <= len {
      FitCountFits(ps, len, n + 1);
    }
  }

  /** One piece more than FitCount gives does not fit. */
  lemma {:induction false} FitCountMaximal(ps: seq<seq<byte>>, len: int, n: nat)
    requires n <= |ps|
    ensures var r := FitCount(ps, len, n); r < |ps| ==> |Concat(ps, r + 1)| > len
    decreases |ps| - n
  {
    if n < |ps| && |Concat(ps, n + 1)| <= len {
      FitCountMaximal(ps, len, n + 1);
    }
  }

  /** No unit turns into zero bytes. */
  lemma PiecesNonEmpty(u: UniStr)
    requires ValidUniStr(u)
    ensures NonEmpty(Pieces(u))
  {
    var ps := Pieces(u);
    forall i | 0 <= i < |ps|
      ensures |ps[i]| >= 1
    {
      assert ps[i] == UnitBytes(Unit(u, i));
    }
  }

  /** Converted(u, len) is the longest prefix of the name whose bytes fit
      in len bytes: it fits, and no longer prefix does. */
  lemma ConvertedIsLongest(u: UniStr, len: int, m: nat)
    requires ValidUniStr(u) && m <= u.len
    ensures Converted(u, len) == 0 || |Encoded(u, Converted(u, len))| <= len
    ensures Converted(u, len) < m ==> |Encoded(u, m)| > len
  {
    FitCountFits(Pieces(u), len, 0);
    FitCountMaximal(Pieces(u), len, 0);
    var r := Converted(u, len);
    if r < m {
      PiecesNonEmpty(u);
      ConcatGrows(Pieces(u), r + 1, m);
    }
  }

  /** A unit in 0x01-0x7F is plain ASCII: its byte is the unit itself. */
  predicate Ascii(c: bv16)
  {
    0 < c <= 0x7F
  }

  lemma {:induction false} AsciiEncoded(u: UniStr, n: nat)
    requires ValidUniStr(u) && n <= u.len
    requires forall i :: 0 <= i < u.len ==> Ascii(Unit(u, i))
    ensures |Encoded(u, n)| == n
    ensures forall i :: 0 <= i < n ==> Encoded(u, n)[i] as bv16 == Unit(u, i)
  {
    if n > 0 {
      AsciiEncoded(u, n - 1);
      EncodedStep(u, n - 1);
      var c := Unit(u, n - 1);
      AsciiUnitBytes(c);
      var e, e1 := Encoded(u, n - 1), Encoded(u, n);
      assert e1 == e + [c as byte];
      forall i | 0 <= i < n
        ensures e1[i] as bv16 == Unit(u, i)
      {
        if i < n - 1 {
          assert e1[i] == e[i];
        }
      }
    }
  }

  /** An ASCII unit is copied as the one byte that holds it. */
  lemma AsciiUnitBytes(c: bv16)
    requires Ascii(c)
    ensures UnitBytes(c) == [c as byte] && (c as byte) as bv16 == c
  {
  }

  /** A name of ASCII units with room for all of them converts whole, one
      byte per unit. */
  lemma AsciiConvertsWhole(u: UniStr, len: int)
    requires ValidUniStr(u) && u.len <= len
    requires forall i :: 0 <= i < u.len ==> Ascii(Unit(u, i))
    ensures Converted(u, len) == u.len
    ensures |Encoded(u, u.len)| == u.len
  {
    AsciiEncoded(u, u.len);
    FitCountIs(Pieces(u), len, 0, u.len);
  }

  /** A count n that fits while one piece more would not is the greedy
      count from any m up to n. */
  lemma {:induction false} FitCountIs(ps: seq<seq<byte>>, len: int, m: nat, n: nat)
    requires m <= n <= |ps| && (n == 0 || |Concat(ps, n)| <= len)
    requires n == |ps| || |Concat(ps, n + 1)| > len
    ensures FitCount(ps, len, m) == n
    decreases n - m
  {
    if m < n {
      ConcatLonger(ps, m + 1, n);
      assert m < |ps| && |Concat(ps, m + 1)| <= len;
      FitCountIs(ps, len, m + 1, n);
    }
  }

  /** A longer prefix is never shorter in bytes. */
  lemma {:induction false} ConcatLonger(ps: seq<seq<byte>>, m: nat, n: nat)
    requires m <= n <= |ps|
    ensures |Concat(ps, m)| <= |Concat(ps, n)|
    decreases n - m
  {
    if m < n {
      ConcatLonger(ps, m, n - 1);
    }
  }

  /** The bytes of the first n + 1 units are those of the first n, then
      those of unit n, which number one to three. */
  lemma EncodedStep(u: UniStr, n: nat)
    requires ValidUniStr(u) && n < u.len
    ensures Encoded(u, n + 1) == Encoded(u, n) + UnitBytes(Unit(u, n))
    ensures |Encoded(u, n)| < |Encoded(u, n + 1)| <= |Encoded(u, n)| + 3
  {
  }

  /** Writing piece over a at out, and nothing else, leaves done + piece
      in front of the rest of orig. */
  lemma Splice(a: seq<byte>, b: seq<byte>, done: seq<byte>, piece: seq<byte>, orig: seq<byte>)
    requires |a| == |b| == |orig| && |done| + |piece| <= |a|
    requires a == done + orig[|done|..]
    requires b[|done|..|done| + |piece|] == piece
    requires forall i :: 0 <= i < |b| && !(|done| <= i < |done| + |piece|) ==> b[i] == a[i]
    ensures b == (done + piece) + orig[|done| + |piece|..]
  {
    var out := |done|;
    forall i | 0 <= i < |b|
      ensures b[i] == ((done + piece) + orig[out + |piece|..])[i]
    {
      if out <= i < out + |piece| {
        assert b[i] == b[out..out + |piece|][i - out];
      }
    }
  }

  /** The loop body of hfsp_debug.c:66-81 for the unit c at output offset
      out with left bytes of room: a NUL or non-ASCII unit goes through
      the encoder, an ASCII unit is copied. It writes the unit's bytes and
      gives their count, or gives -1 when they do not fit, and writes
      nothing else. */
  method WriteUnit(astrp: array<byte>, out: nat, c: bv16, left: int) returns (size: int)
    requires left > 0 && out + left <= astrp.Length
    modifies astrp
    ensures size == if |UnitBytes(c)| <= left then |UnitBytes(c)| else -1
    ensures size > 0 ==> astrp[out..out + size] == UnitBytes(c)
    ensures forall i :: 0 <= i < astrp.Length && !(out <= i < out + size) ==> astrp[i] == old(astrp[i])
  {
    if c == 0 || c > 0x7F {
      size := Wctomb(astrp, out, Substitute(c), left);
    } else {
      astrp[out] := c as byte;
      size := 1;
      assert astrp[out..out + size] == [c as byte];
    }
  }

  /** WriteUnit for unit process of the name, placed after the bytes of
      the units before it: the bytes written extend the converted prefix
      by one unit, or -1 says that one unit more does not fit. */
  method PutUnit(astrp: array<byte>, u: UniStr, process: nat, out: nat, left: int,
                 ghost done: seq<byte>, ghost orig: seq<byte>) returns (size: int, ghost next: seq<byte>)
    requires ValidUniStr(u) && process < u.len && left > 0 && out + left <= astrp.Length
    requires done == Encoded(u, process) && out == |done| && |orig| == astrp.Length
    requires astrp[..] == done + orig[out..]
    modifies astrp
    ensures next == Encoded(u, process + 1)
    ensures size > 0 ==> size <= left && out + size == |next|
    ensures size > 0 ==> astrp[..] == next + orig[out + size..]
    ensures size <= 0 ==> size == -1 && |next| > out + left
    ensures size <= 0 ==> astrp[..] == old(astrp[..])
  {
    ghost var before := astrp[..];
    size := WriteUnit(astrp, out, Unit(u, process), left);
    EncodedStep(u, process);
    next := Encoded(u, process + 1);
    if size > 0 {
      Splice(before, astrp[..], done, UnitBytes(Unit(u, process)), orig);
    } else {
      assert astrp[..] == before;
    }
  }

  /** One pass of the corrected loop: unit process is converted and the
      indices move past it, or it does not fit and nothing changes. */
  method Advance(u: UniStr, astrp: array<byte>, len: int, process: nat, out: nat, left: int,
                 ghost done: seq<byte>, ghost orig: seq<byte>)
      returns (full: bool, process2: nat, out2: nat, left2: int, ghost done2: seq<byte>)
    requires ValidUniStr(u) && len <= astrp.Length && |orig| == astrp.Length
    requires process < u.len && left > 0
    requires done == Encoded(u, process) && out == |done| && left == len - out
    requires astrp[..] == done + orig[out..]
    modifies astrp
    ensures full ==> process2 == process && out2 == out && left2 == left && done2 == done
    ensures full ==> |Encoded(u, process + 1)| > len && astrp[..] == old(astrp[..])
    ensures !full ==> process2 == process + 1
    ensures done2 == Encoded(u, process2) && out2 == |done2| && left2 == len - out2
    ensures out2 <= len && astrp[..] == done2 + orig[out2..]
  {
    var size;
    ghost var next;
    size, next := PutUnit(astrp, u, process, out, left, done, orig);
    if size == -1 {
      return true, process, out, left, done;
    }
    return false, process + 1, out + size, left - size, next;
  }

  /** The loop of hfsp_debug.c:64-82 with its defects corrected: a unit
      index and an output index of their own, the allowance shrinking by
      the bytes written, and a stop at the first unit that does not fit.
      It leaves the bytes of the first process units at the front of
      astrp, and stops only at the end of the name or where one unit more
      would not fit in len bytes. */
  method ConvertPrefix(u: UniStr, astrp: array<byte>, len: int) returns (process: nat, out: nat)
    requires ValidUniStr(u) && len <= astrp.Length
    modifies astrp
    ensures process <= u.len && out == |Encoded(u, process)| && out <= astrp.Length
    ensures process == 0 || out <= len
    ensures process < u.len ==> |Encoded(u, process + 1)| > len
    ensures astrp[..] == Encoded(u, process) + old(astrp[..])[out..]
  {
    ghost var orig := astrp[..];
    ghost var done: seq<byte> := [];
    process := 0;
    out := 0;
    var left := len;
    var full := false;
    while process < u.len && left > 0 && !full
      invariant process <= u.len && done == Encoded(u, process)
      invariant out == |done| && left == len - out
      invariant process == 0 || out <= len
      invariant out <= astrp.Length
      invariant astrp[..] == done + orig[out..]
      invariant full ==> process < u.len && |Encoded(u, process + 1)| > len
      decreases u.len - process, if full then 0 else 1
    {
      full, process, out, left, done := Advance(u, astrp, len, process, out, left, done, orig);
    }
    if process < u.len && left <= 0 {
      EncodedStep(u, process);
    }
  }

  /** hfsp_uni2asc(ustrp, astrp, len) with its defects corrected. It
      converts the longest prefix of the name that fits in len bytes into
      the front of astrp and leaves the rest alone, and gives EINVAL when
      that prefix misses more than the last unit. */
  method Uni2Asc(u: UniStr, astrp: array<byte>, len: int) returns (err: int)
    requires ValidUniStr(u) && len <= astrp.Length
    modifies astrp
    ensures var n := Converted(u, len);
      |Encoded(u, n)| <= astrp.Length &&
      astrp[..] == Encoded(u, n) + old(astrp[..])[|Encoded(u, n)|..] &&
      err == if n < u.len - 1 then EINVAL else 0
  {
    var process, out := ConvertPrefix(u, astrp, len);
    FitCountIs(Pieces(u), len, 0, process);
    if process < u.len - 1 {
      return EINVAL;
    }
    return 0;
  }

  // ---------------------------------------------------------------------
  // The code as written.

  /** The variables of the loop at hfsp_debug.c:64-82: the index that is
      used both to read units and to place output (process), the
      allowance (left), and the bytes stored so far, by offset in astrp. */
  datatype State = State(process: nat, left: int, out: map<int, byte>)

  /** bs stored at astrp[at], astrp[at + 1], ... */
  function Store(out: map<int, byte>, at: int, bs: seq<byte>): map<int, byte>
    decreases |bs|
  {
    if bs == [] then out else Store(out[at := bs[0]], at + 1, bs[1..])
  }

  /** The loop condition of hfsp_debug.c:64. */
  predicate Running(u: UniStr, s: State)
  {
    s.process < u.len && s.left > 0
  }

  /** One pass of the loop body as written (hfsp_debug.c:66-81). An encoded
      unit is stored at astrp + process, the index that also reads the
      input; its length is then ADDED to left; and when the encoder gives
      -1, nothing changes at all. */
  function Step(u: UniStr, s: State): State
    requires ValidUniStr(u) && Running(u, s)
  {
    var c := Unit(u, s.process);
    if c == 0 || c > 0x7F then
      var wc := Substitute(c);
      if Fits(wc, s.left) then
        var size := |Utf8Encode(wc)|;
        State(s.process + size, s.left + size, Store(s.out, s.process, Utf8Encode(wc)))
      else s
    else State(s.process + 1, s.left - 1, s.out[s.process := c as byte])
  }

  /** The loop run for at most fuel passes: None when it is still running
      after that many. */
  function Run(u: UniStr, s: State, fuel: nat): Option<State>
    requires ValidUniStr(u)
    decreases fuel
  {
    if !Running(u, s) then Some(s)
    else if fuel == 0 then None
    else Run(u, Step(u, s), fuel - 1)
  }

  /** hfsp_uni2asc as written, given fuel passes of the loop: the errno and
      the bytes stored, or None when the loop has not finished. */
  function Uni2AscAsWritten(u: UniStr, len: int, fuel: nat): Option<(int, map<int, byte>)>
    requires ValidUniStr(u)
  {
    match Run(u, State(0, len, map[]), fuel)
    case None => None
    case Some(s) => Some((if s.process < u.len - 1 then EINVAL else 0, s.out))
  }

  /** A name holding a single NUL, with one byte of room: U+2400 needs three
      bytes, the encoder gives -1, and the state never changes, so the
      loop of hfsp_debug.c:64-75 never ends. */
  lemma {:induction false} NulNeverFinishes(fuel: nat)
    ensures Uni2AscAsWritten(UniStr(1, [0x00, 0x00]), 1, fuel) == None
  {
    var u := UniStr(1, [0x00, 0x00]);
    var s := State(0, 1, map[]);
    assert Unit(u, 0) == 0;
    assert Step(u, s) == s;
    RunStuck(u, s, fuel);
  }

  lemma {:induction false} RunStuck(u: UniStr, s: State, fuel: nat)
    requires ValidUniStr(u) && Running(u, s) && Step(u, s) == s
    ensures Run(u, s, fuel) == None
  {
    if fuel > 0 {
      RunStuck(u, s, fuel - 1);
    }
  }

  /** "éAB" (00E9 0041 0042) with room for ten bytes: é takes two bytes
      and advances the unit index by two, so the 'A' is never read; the
      corrected conversion gives C3 A9 41 42. */
  lemma SkipsUnit()
    ensures Uni2AscAsWritten(UniStr(3, [0x00, 0xE9, 0x00, 0x41, 0x00, 0x42]), 10, 2)
      == Some((0, map[0 := 0xC3, 1 := 0xA9, 2 := 0x42]))
    ensures Encoded(UniStr(3, [0x00, 0xE9, 0x00, 0x41, 0x00, 0x42]), 3) == [0xC3, 0xA9, 0x41, 0x42]
  {
    var u := UniStr(3, [0x00, 0xE9, 0x00, 0x41, 0x00, 0x42]);
    assert Unit(u, 0) == 0xE9 && Unit(u, 1) == 0x41 && Unit(u, 2) == 0x42;
    assert Utf8Encode(0xE9) == [0xC3, 0xA9];
    var s1 := State(2, 12, map[0 := 0xC3, 1 := 0xA9]);
    assert Step(u, State(0, 10, map[])) == s1;
    assert Step(u, s1) == State(3, 11, map[0 := 0xC3, 1 := 0xA9, 2 := 0x42]);
  }

  /** "éAA" (00E9 0041 0041) with room for two bytes: é fills both, but
      left grows to 4 instead of falling to 0, so the loop goes on and
      stores 'A' at astrp[2], past the len bytes the caller provided. */
  lemma WritesPastLen()
    ensures var r := Uni2AscAsWritten(UniStr(3, [0x00, 0xE9, 0x00, 0x41, 0x00, 0x41]), 2, 2);
      r.Some? && 2 in r.value.1 && r.value.1[2] == 0x41
  {
    var u := UniStr(3, [0x00, 0xE9, 0x00, 0x41, 0x00, 0x41]);
    assert Unit(u, 0) == 0xE9 && Unit(u, 2) == 0x41;
    assert Utf8Encode(0xE9) == [0xC3, 0xA9];
    var s1 := State(2, 4, map[0 := 0xC3, 1 := 0xA9]);
    assert Step(u, State(0, 2, map[])) == s1;
    assert Step(u, s1) == State(3, 3, map[0 := 0xC3, 1 := 0xA9, 2 := 0x41]);
  }

  /** The bytes the loop as written has stored after k ASCII units: unit i
      at astrp[i]. */
  function AsciiOut(u: UniStr, k: nat): map<int, byte>
    requires ValidUniStr(u) && k <= u.len
  {
    map i | 0 <= i < k :: LowByte(Unit(u, i))
  }

  /** (char)c: the low byte of a code unit. */
  function LowByte(c: bv16): byte
  {
    (c & 0xFF) as byte
  }

  /** From the state after k units of an ASCII name with room for all of
      them, the loop as written copies the remaining units one by one and
      finishes within u.len - k passes. */
  lemma {:induction false} AsciiRunFinishes(u: UniStr, len: int, k: nat, fuel: nat)
    requires ValidUniStr(u) && u.len <= len && k <= u.len && u.len - k <= fuel
    requires forall i :: 0 <= i < u.len ==> Ascii(Unit(u, i))
    ensures Run(u, State(k, len - k, AsciiOut(u, k)), fuel) == Some(State(u.len, len - u.len, AsciiOut(u, u.len)))
    decreases u.len - k
  {
    var s := State(k, len - k, AsciiOut(u, k));
    if k < u.len {
      AsciiStep(u, s);
      AsciiOutNext(u, k);
      var t := State(k + 1, len - (k + 1), AsciiOut(u, k + 1));
      assert Step(u, s) == t;
      AsciiRunFinishes(u, len, k + 1, fuel - 1);
      assert Run(u, s, fuel) == Run(u, t, fuel - 1);
    }
  }

  lemma AsciiOutNext(u: UniStr, k: nat)
    requires ValidUniStr(u) && k < u.len
    ensures AsciiOut(u, k)[k := LowByte(Unit(u, k))] == AsciiOut(u, k + 1)
  {
  }

  /** Off the defective paths the code as written agrees with the corrected
      conversion: an ASCII name with room for every unit finishes within
      u.len passes, gives 0, and stores exactly the bytes Uni2Asc writes,
      the whole name one byte per unit. */
  lemma AsWrittenAgreesOnAscii(u: UniStr, len: int)
    requires ValidUniStr(u) && u.len <= len
    requires forall i :: 0 <= i < u.len ==> Ascii(Unit(u, i))
    ensures Converted(u, len) == u.len
    ensures Uni2AscAsWritten(u, len, u.len) ==
      Some((0, map i | 0 <= i < |Encoded(u, u.len)| :: Encoded(u, u.len)[i]))
  {
    AsciiConvertsWhole(u, len);
    AsciiEncoded(u, u.len);
    assert AsciiOut(u, 0) == map[];
    AsciiRunFinishes(u, len, 0, u.len);
    var e := Encoded(u, u.len);
    forall i | 0 <= i < u.len
      ensures LowByte(Unit(u, i)) == e[i]
    {
      assert e[i] as bv16 == Unit(u, i);
    }
    assert AsciiOut(u, u.len) == map i | 0 <= i < |e| :: e[i];
  }

  /** An ASCII unit is stored at the unit's own index and uses one byte of
      the allowance (hfsp_debug.c:76-81); this much of the code is right. */
  lemma AsciiStep(u: UniStr, s: State)
    requires ValidUniStr(u) && Running(u, s) && Ascii(Unit(u, s.process))
    ensures Step(u, s) == State(s.process + 1, s.left - 1, s.out[s.process := Unit(u, s.process) as byte])
  {
  }
}
