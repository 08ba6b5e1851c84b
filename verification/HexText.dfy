/** The textual form of byte strings in the delta. */
module HexText {
  import opened Common

  const DIGITS: string := "0123456789abcdef"

  // ----- printing -----

  function HexDigit(d: nat): char
    requires d < 16
  {
    DIGITS[d]
  }

  function HexPair(b: Byte): string {
    [HexDigit(b as nat / 16), HexDigit(b as nat % 16)]
  }

  function HexOf(bytes: seq<Byte>): string {
    if |bytes| == 0 then ""
    else
      var m := |bytes| - 1;
      HexOf(bytes[..m]) + (if m > 0 then " " else "") + HexPair(bytes[m])
  }

  method Bytes2Hex(bytes: seq<Byte>) returns (buf: string)
    ensures buf == HexOf(bytes)
    ensures forall i :: 0 <= i < |buf| ==> buf[i] == ' ' || '0' <= buf[i] <= '9' || 'a' <= buf[i] <= 'f'
  {
    buf := "";
    var i := 0;
    while i < |bytes|
      invariant 0 <= i <= |bytes|
      invariant buf == HexOf(bytes[..i])
    {
      if i != 0 {
        buf := buf + " ";
      }
      buf := buf + HexPair(bytes[i]);
      assert bytes[..i + 1][..i] == bytes[..i];
      i := i + 1;
    }
    assert bytes[..i] == bytes;
    HexOfIsLowerCase(bytes);
  }

  // ----- parsing -----

  predicate IsDigit(c: char) {
    '0' <= c <= '9' || 'a' <= c <= 'f' || 'A' <= c <= 'F'
  }

  predicate IsSpace(c: char) {
    c == ' ' || '\t' <= c <= '\r'
  }

  function DigitValue(c: char): (d: nat)
    requires IsDigit(c)
    ensures d < 16
  {
    if '0' <= c <= '9' then c as int - '0' as int
    else if 'a' <= c <= 'f' then c as int - 'a' as int + 10
    else c as int - 'A' as int + 10
  }

  /** Non-empty texts of hex digits and white space that end in a digit. */
  predicate Readable(s: string) {
    && 0 < |s|
    && (forall i :: 0 <= i < |s| ==> IsDigit(s[i]) || IsSpace(s[i]))
    && IsDigit(s[|s| - 1])
  }

  /** Texts on which the reading loop is well behaved: hex numbers of at most 8 digits, so that each
      fits an unsigned int, separated by white space, the last one ending the text. */
  ghost predicate IsHexText(s: string) {
    Readable(s) && forall i: nat :: i + 9 <= |s| ==> SpaceNear(s, i)
  }

  ghost predicate SpaceNear(s: string, i: nat)
    requires i + 9 <= |s|
  {
    exists j :: i <= j < i + 9 && IsSpace(s[j])
  }

  function TokenStart(s: string, i: nat): (k: nat)
    requires i < |s| && IsDigit(s[|s| - 1])
    ensures i <= k < |s| && !IsSpace(s[k])
    ensures forall j :: i <= j < k ==> IsSpace(s[j])
    decreases |s| - i
  {
    if IsSpace(s[i]) then TokenStart(s, i + 1) else i
  }

  function TokenEnd(s: string, i: nat): (k: nat)
    requires i <= |s|
    ensures i <= k <= |s|
    ensures k < |s| ==> !IsDigit(s[k])
    ensures forall j :: i <= j < k ==> IsDigit(s[j])
    ensures i < |s| && IsDigit(s[i]) ==> i < k
    decreases |s| - i
  {
    if i < |s| && IsDigit(s[i]) then TokenEnd(s, i + 1) else i
  }

  function Value(s: string, from: nat, to: nat): nat
    requires from <= to <= |s| && forall j :: from <= j < to ==> IsDigit(s[j])
  {
    if from == to then 0 else Value(s, from, to - 1) * 16 + DigitValue(s[to - 1])
  }

  function LowByte(n: nat): Byte {
    (n % 256) as Byte
  }

  /** The bytes read from position i on; numbers are cut to their low 8 bits. */
  function BytesFrom(s: string, i: nat): seq<Byte>
    requires Readable(s) && i <= |s|
    decreases |s| - i
  {
    if i == |s| then []
    else
      var from := TokenStart(s, i);
      var to := TokenEnd(s, from);
      [LowByte(Value(s, from, to))] + BytesFrom(s, to)
  }

  lemma BytesFromStep(s: string, i: nat)
    requires Readable(s) && i < |s|
    ensures var from := TokenStart(s, i); var to := TokenEnd(s, from);
            BytesFrom(s, i) == [LowByte(Value(s, from, to))] + BytesFrom(s, to)
  {
  }

  ghost function BytesOf(s: string): seq<Byte>
    requires IsHexText(s)
  {
    BytesFrom(s, 0)
  }

  method Hex2Bytes(hex: string) returns (result: seq<Byte>)
    requires IsHexText(hex)
    ensures result == BytesOf(hex)
  {
    assert Readable(hex);
    hide IsHexText, Readable, TokenStart, TokenEnd, Value, BytesFrom, LowByte, IsDigit, IsSpace;
    result := [];
    var pos := 0;
    while pos < |hex|
      invariant 0 <= pos <= |hex|
      invariant BytesOf(hex) == result + BytesFrom(hex, pos)
    {
      var n;
      BytesFromStep(hex, pos);
      n, pos := ExtractHex(hex, pos);
      ghost var rest := BytesFrom(hex, pos);
      assert result + ([LowByte(n)] + rest) == result + [LowByte(n)] + rest;
      result := result + [LowByte(n)];
    }
    NothingLeft(hex);
  }

  lemma NothingLeft(s: string)
    requires Readable(s)
    ensures BytesFrom(s, |s|) == []
  {
  }

  /** One formatted extraction `s >> std::hex >> n`. */
  method ExtractHex(s: string, i: nat) returns (n: nat, pos: nat)
    requires Readable(s) && i < |s|
    ensures i < pos <= |s|
    ensures var from := TokenStart(s, i); pos == TokenEnd(s, from) && n == Value(s, from, pos)
  {
    pos := i;
    while IsSpace(s[pos])
      invariant i <= pos < |s| && TokenStart(s, i) == TokenStart(s, pos)
      decreases |s| - pos
    {
      pos := pos + 1;
    }
    n := 0;
    ghost var from := pos;
    while pos < |s| && IsDigit(s[pos])
      invariant from <= pos <= |s| && TokenEnd(s, from) == TokenEnd(s, pos)
      invariant forall j :: from <= j < pos ==> IsDigit(s[j])
      invariant n == Value(s, from, pos)
    {
      n := n * 16 + DigitValue(s[pos]);
      pos := pos + 1;
    }
  }

  // ----- printing and parsing undo each other -----

  lemma HexDigitValue(d: nat)
    requires d < 16
    ensures IsDigit(HexDigit(d)) && DigitValue(HexDigit(d)) == d
  {
    assert DIGITS == "0123456789" + "abcdef";
  }

  /** The printed text, character by character. */
  lemma {:induction false} HexOfAt(b: seq<Byte>, k: nat)
    requires k < |b|
    ensures |HexOf(b)| == 3 * |b| - 1
    ensures HexOf(b)[3 * k..3 * k + 2] == HexPair(b[k])
    ensures k + 1 < |b| ==> HexOf(b)[3 * k + 2] == ' '
  {
    var m := |b| - 1;
    if m == 0 {
    } else {
      HexOfAt(b[..m], if k < m then k else m - 1);
      HexOfLast(b, k);
    }
  }

  lemma HexOfLast(b: seq<Byte>, k: nat)
    requires k < |b| && 1 < |b| && |HexOf(b[..|b| - 1])| == 3 * |b| - 4
    ensures |HexOf(b)| == 3 * |b| - 1
    ensures k == |b| - 1 ==> HexOf(b)[3 * k..3 * k + 2] == HexPair(b[k])
    ensures k < |b| - 1 ==> HexOf(b)[3 * k..3 * k + 2] == HexOf(b[..|b| - 1])[3 * k..3 * k + 2]
    ensures k < |b| - 2 ==> HexOf(b)[3 * k + 2] == HexOf(b[..|b| - 1])[3 * k + 2]
    ensures k == |b| - 2 ==> HexOf(b)[3 * k + 2] == ' '
  {
    var prefix, pair := HexOf(b[..|b| - 1]), HexPair(b[|b| - 1]);
    assert HexOf(b) == prefix + " " + pair;
  }

  lemma HexOfDigits(b: seq<Byte>, k: nat)
    requires k < |b|
    ensures |HexOf(b)| == 3 * |b| - 1
    ensures HexOf(b)[3 * k] == HexDigit(b[k] as nat / 16) && HexOf(b)[3 * k + 1] == HexDigit(b[k] as nat % 16)
    ensures k + 1 < |b| ==> HexOf(b)[3 * k + 2] == ' '
    ensures IsDigit(HexOf(b)[3 * k]) && IsDigit(HexOf(b)[3 * k + 1])
  {
    HexOfAt(b, k);
    var s := HexOf(b)[3 * k..3 * k + 2];
    assert s[0] == HexOf(b)[3 * k] && s[1] == HexOf(b)[3 * k + 1];
    HexDigitValue(b[k] as nat / 16);
    HexDigitValue(b[k] as nat % 16);
  }

  lemma HexOfReadable(b: seq<Byte>)
    requires 0 < |b|
    ensures Readable(HexOf(b))
  {
    hide HexOf, HexDigit;
    var s := HexOf(b);
    HexOfDigits(b, |b| - 1);
    forall i: nat | i < |s| ensures IsDigit(s[i]) || IsSpace(s[i]) {
      HexOfDigits(b, i / 3);
      assert i == 3 * (i / 3) || i == 3 * (i / 3) + 1 || i == 3 * (i / 3) + 2;
    }
  }

  lemma HexOfIsHexText(b: seq<Byte>)
    requires 0 < |b|
    ensures IsHexText(HexOf(b))
  {
    hide HexOf, HexDigit, Readable, IsDigit;
    var s := HexOf(b);
    HexOfReadable(b);
    HexOfDigits(b, 0);
    forall i: nat | i + 9 <= |s| ensures SpaceNear(s, i) {
      HexOfDigits(b, i / 3);
      assert i <= 3 * (i / 3) + 2 < i + 9 && IsSpace(s[3 * (i / 3) + 2]);
    }
  }

  lemma PairValue(s: string, from: nat, b: Byte)
    requires from + 2 <= |s|
    requires s[from] == HexDigit(b as nat / 16) && s[from + 1] == HexDigit(b as nat % 16)
    ensures IsDigit(s[from]) && IsDigit(s[from + 1])
    ensures Value(s, from, from + 2) == b as nat
  {
    HexDigitValue(b as nat / 16);
    HexDigitValue(b as nat % 16);
    assert Value(s, from, from + 1) == Value(s, from, from) * 16 + DigitValue(s[from]);
  }

  lemma {:induction false} BytesFromHexOf(b: seq<Byte>, k: nat)
    requires k < |b| && Readable(HexOf(b))
    ensures |HexOf(b)| == 3 * |b| - 1
    ensures BytesFrom(HexOf(b), if k == 0 then 0 else 3 * k - 1) == b[k..]
    decreases |b| - k
  {
    hide HexOf, Readable, TokenStart, TokenEnd, Value, BytesFrom, LowByte, IsDigit, IsSpace;
    var s := HexOf(b);
    PairToken(b, k, s);
    BytesFromStep(s, if k == 0 then 0 else 3 * k - 1);
    LowByteOfByte(b[k]);
    assert b[k..] == [b[k]] + b[k + 1..];
    if k + 1 < |b| {
      BytesFromHexOf(b, k + 1);
    } else {
      NothingLeft(s);
    }
  }

  lemma LowByteOfByte(b: Byte)
    ensures LowByte(b as nat) == b
  {
    LowByteIsCut(b as nat);
  }

  lemma LowByteIsCut(n: nat)
    requires n < 256
    ensures LowByte(n) == n as Byte
  {
    assert n % 256 == n;
  }

  /** The k-th token of a printed text. */
  lemma PairToken(b: seq<Byte>, k: nat, s: string)
    requires k < |b| && s == HexOf(b) && Readable(s)
    ensures |s| == 3 * |b| - 1
    ensures TokenStart(s, if k == 0 then 0 else 3 * k - 1) == 3 * k
    ensures TokenEnd(s, 3 * k) == 3 * k + 2
    ensures Value(s, 3 * k, 3 * k + 2) == b[k] as nat
  {
    hide HexOf, HexDigit, Value;
    HexOfDigits(b, k);
    if k > 0 {
      HexOfDigits(b, k - 1);
      assert IsSpace(s[3 * k - 1]) && TokenStart(s, 3 * k - 1) == TokenStart(s, 3 * k);
    }
    assert TokenEnd(s, 3 * k) == TokenEnd(s, 3 * k + 1) == TokenEnd(s, 3 * k + 2);
    PairValue(s, 3 * k, b[k]);
  }

  /** Reading back what was printed gives the same bytes. */
  lemma HexRoundTrip(b: seq<Byte>)
    requires 0 < |b|
    ensures |HexOf(b)| == 3 * |b| - 1
    ensures IsHexText(HexOf(b)) && BytesOf(HexOf(b)) == b
  {
    HexOfIsHexText(b);
    BytesFromHexOf(b, 0);
  }

  // ----- the characters themselves -----

  predicate IsLowerHex(c: char) {
    '0' <= c <= '9' || 'a' <= c <= 'f'
  }

  lemma HexDigitIsLowerCase(d: nat)
    requires d < 16
    ensures IsLowerHex(HexDigit(d))
  {
    assert DIGITS == "0123456789" + "abcdef";
  }

  lemma HexOfIsLowerCase(b: seq<Byte>)
    ensures forall i :: 0 <= i < |HexOf(b)| ==> HexOf(b)[i] == ' ' || IsLowerHex(HexOf(b)[i])
  {
    hide HexDigit, HexOf;
    var s := HexOf(b);
    if b == [] {
      NothingPrinted(b);
    } else {
      HexOfDigits(b, 0);
      forall i: nat | i < |s| ensures s[i] == ' ' || IsLowerHex(s[i]) {
        var k := i / 3;
        HexOfDigits(b, k);
        HexDigitIsLowerCase(b[k] as nat / 16);
        HexDigitIsLowerCase(b[k] as nat % 16);
        assert i == 3 * k || i == 3 * k + 1 || i == 3 * k + 2;
      }
    }
  }

  lemma NothingPrinted(b: seq<Byte>)
    requires b == []
    ensures HexOf(b) == ""
  {
  }

  /** Both cases of a digit are read, with the same value. */
  lemma DigitsOfBothCases(d: nat)
    requires d < 16
    ensures IsDigit("0123456789abcdef"[d]) && DigitValue("0123456789abcdef"[d]) == d
    ensures IsDigit("0123456789ABCDEF"[d]) && DigitValue("0123456789ABCDEF"[d]) == d
  {
    assert "0123456789abcdef" == "0123456789" + "abcdef";
    assert "0123456789ABCDEF" == "0123456789" + "ABCDEF";
  }

  /** The value of a number is positional in base 16. */
  lemma {:induction false} ValueIsPositional(s: string, from: nat, mid: nat, end: nat)
    requires from <= mid <= end <= |s| && forall j :: from <= j < end ==> IsDigit(s[j])
    ensures Value(s, from, end) == Value(s, from, mid) * Pow16(end - mid) + Value(s, mid, end)
    decreases end
  {
    hide IsDigit, DigitValue;
    if mid == end {
    } else {
      ValueIsPositional(s, from, mid, end - 1);
      OneMoreDigit(Value(s, from, mid), Pow16(end - 1 - mid), Value(s, mid, end - 1), DigitValue(s[end - 1]));
    }
  }

  lemma OneMoreDigit(a: nat, p: nat, b: nat, d: nat)
    ensures (a * p + b) * 16 + d == a * (16 * p) + (b * 16 + d)
  {
  }

  function Pow16(n: nat): (r: nat)
    ensures 0 < r
  {
    if n == 0 then 1 else 16 * Pow16(n - 1)
  }

  /** Of a number only the low 8 bits are kept. */
  lemma LowByteWraps(n: nat)
    ensures LowByte(n) == LowByte(n + 256)
  {
    assert (n + 256) % 256 == n % 256;
  }
}
