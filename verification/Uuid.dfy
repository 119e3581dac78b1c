/**
  The UUID routines of `util.c`.
 */
module Uuid {
  import opened Bytes

  // `isxdigit`
  predicate IsHex(c: char) {
    '0' <= c <= '9' || 'a' <= c <= 'f' || 'A' <= c <= 'F'
  }

  predicate IsDash(i: int) {
    i == 8 || i == 13 || i == 18 || i == 23
  }

  // `uuid_validate`
  predicate Valid(s: string) {
    && |s| == 36
    && forall i | 0 <= i < 36 :: if IsDash(i) then s[i] == '-' else IsHex(s[i])
  }

  method UuidValidate(s: string) returns (r: int)
    ensures r == if Valid(s) then 0 else -1
    ensures r == 0 <==> |s| == 36 && forall i | 0 <= i < 36 ::
              if i in [8, 13, 18, 23] then s[i] == '-' else '0' <= s[i] <= '9' || 'a' <= s[i] <= 'f' || 'A' <= s[i] <= 'F'
  {
    if |s| != 36 {
      return -1;
    }
    var i := 0;
    while i < 36
      invariant 0 <= i <= 36
      invariant forall k | 0 <= k < i :: if IsDash(k) then s[k] == '-' else IsHex(s[k])
    {
      if IsDash(i) {
        if s[i] != '-' {
          return -1;
        }
      } else if !IsHex(s[i]) {
        return -1;
      }
      i := i + 1;
    }
    r := 0;
  }

  function Lower(c: char): char {
    if 'A' <= c <= 'Z' then c - 'A' + 'a' else c
  }

  function LowerAll(s: string): (r: string)
    ensures |r| == |s|
  {
    seq(|s|, i requires 0 <= i < |s| => Lower(s[i]))
  }

  // `strcasecmp`
  predicate SameIgnoringCase(s: string, t: string) {
    LowerAll(s) == LowerAll(t)
  }

  // ------------------------------------------------- text and bytes

  function HexValue(c: char): (r: nat)
    ensures r < 16
  {
    if '0' <= c <= '9' then (c - '0') as int
    else if 'a' <= c <= 'f' then (c - 'a') as int + 10
    else if 'A' <= c <= 'F' then (c - 'A') as int + 10
    else 0
  }

  function CharAt(s: string, i: nat): char {
    if i < |s| then s[i] else '\0'
  }

  // `isspace`
  predicate IsSpace(c: char) {
    c == ' ' || 9 <= c as int <= 13
  }

  // `uuid_byte`: what `strtoul` makes of two characters, as a byte. It skips a
  // blank, takes a sign, and reads digits up to a character that is none.
  function HexByte(s: string, i: nat): byte {
    var a, b := CharAt(s, i), CharAt(s, i + 1);
    if IsHex(a) then (if IsHex(b) then (16 * HexValue(a) + HexValue(b)) as byte else HexValue(a) as byte)
    else if !IsHex(b) then 0
    else if IsSpace(a) || a == '+' then HexValue(b) as byte
    else if a == '-' then ((256 - HexValue(b)) % 256) as byte
    else 0
  }

  // The first three fields of a UUID are stored with their lowest byte first.
  // `uuid_parse`
  function Parse(s: string): (r: seq<byte>)
    ensures |r| == 16
  {
    [HexByte(s, 6), HexByte(s, 4), HexByte(s, 2), HexByte(s, 0),
     HexByte(s, 11), HexByte(s, 9),
     HexByte(s, 16), HexByte(s, 14),
     HexByte(s, 19), HexByte(s, 21),
     HexByte(s, 24), HexByte(s, 26), HexByte(s, 28), HexByte(s, 30), HexByte(s, 32), HexByte(s, 34)]
  }

  function HexDigit(n: nat): char
    requires n < 16
  {
    if n < 10 then '0' + n as char else 'a' + (n - 10) as char
  }

  function HexText(b: byte): string {
    [HexDigit(b as nat / 16), HexDigit(b as nat % 16)]
  }

  // The usual text of the 16 stored bytes, in lower case.
  function Format(u: seq<byte>): (r: string)
    requires |u| == 16
    ensures |r| == 36
  {
    (HexText(u[3]) + HexText(u[2]) + HexText(u[1]) + HexText(u[0]) + "-")
    + (HexText(u[5]) + HexText(u[4]) + "-")
    + (HexText(u[7]) + HexText(u[6]) + "-")
    + (HexText(u[8]) + HexText(u[9]) + "-")
    + (HexText(u[10]) + HexText(u[11]) + HexText(u[12]) + HexText(u[13]) + HexText(u[14]) + HexText(u[15]))
  }

  lemma DigitRoundTrip(c: char)
    requires IsHex(c)
    ensures HexDigit(HexValue(c)) == Lower(c)
  {
  }

  lemma PairText(h: nat, l: nat)
    requires h < 16 && l < 16
    ensures 16 * h + l < 256 && HexText((16 * h + l) as byte) == [HexDigit(h), HexDigit(l)]
  {
    hide HexDigit;
    assert (16 * h + l) / 16 == h && (16 * h + l) % 16 == l;
  }

  lemma ByteRoundTrip(s: string, i: nat)
    requires i + 1 < |s| && IsHex(s[i]) && IsHex(s[i + 1])
    ensures HexText(HexByte(s, i)) == LowerAll(s)[i..i + 2]
  {
    hide HexText, HexDigit, HexValue, Lower, IsHex;
    PairText(HexValue(s[i]), HexValue(s[i + 1]));
    DigitRoundTrip(s[i]);
    DigitRoundTrip(s[i + 1]);
    assert LowerAll(s)[i..i + 2] == [Lower(s[i]), Lower(s[i + 1])];
  }

  // A text of 36 characters with four dashes, in pieces.
  lemma Pieces(t: string)
    requires |t| == 36 && t[8] == '-' && t[13] == '-' && t[18] == '-' && t[23] == '-'
    ensures t == (t[0..8] + "-") + (t[9..13] + "-") + (t[14..18] + "-") + (t[19..23] + "-") + t[24..36]
  {
    assert t[0..8] + "-" == t[0..9] && t[9..13] + "-" == t[9..14];
    assert t[14..18] + "-" == t[14..19] && t[19..23] + "-" == t[19..24];
    assert t[0..9] + t[9..14] == t[0..14];
    assert t[0..14] + t[14..19] == t[0..19];
    assert t[0..19] + t[19..24] == t[0..24];
    assert t[0..24] + t[24..36] == t;
  }

  lemma TwoPairs(t: string, i: nat)
    requires i + 4 <= |t|
    ensures t[i..i + 2] + t[i + 2..i + 4] == t[i..i + 4]
  {
  }

  lemma FourPairs(t: string, i: nat)
    requires i + 8 <= |t|
    ensures t[i..i + 2] + t[i + 2..i + 4] + t[i + 4..i + 6] + t[i + 6..i + 8] == t[i..i + 8]
  {
    TwoPairs(t, i);
    TwoPairs(t, i + 4);
    assert t[i..i + 4] + t[i + 4..i + 6] + t[i + 6..i + 8] == t[i..i + 4] + t[i + 4..i + 8];
  }

  lemma SixPairs(t: string, i: nat)
    requires i + 12 <= |t|
    ensures t[i..i + 2] + t[i + 2..i + 4] + t[i + 4..i + 6] + t[i + 6..i + 8] + t[i + 8..i + 10] + t[i + 10..i + 12] == t[i..i + 12]
  {
    FourPairs(t, i);
    TwoPairs(t, i + 8);
    assert t[i..i + 8] + t[i + 8..i + 10] + t[i + 10..i + 12] == t[i..i + 8] + t[i + 8..i + 12];
  }

  // The bytes of a valid UUID stand at the right places.
  lemma ParsedBytes(s: string)
    requires Valid(s)
    ensures forall i | i in {0, 2, 4, 6, 9, 11, 14, 16, 19, 21, 24, 26, 28, 30, 32, 34} ::
              HexText(HexByte(s, i)) == LowerAll(s)[i..i + 2]
  {
    hide HexByte, HexText, LowerAll;
    forall i | i in {0, 2, 4, 6, 9, 11, 14, 16, 19, 21, 24, 26, 28, 30, 32, 34}
      ensures HexText(HexByte(s, i)) == LowerAll(s)[i..i + 2]
    {
      assert !IsDash(i) && !IsDash(i + 1) && 0 <= i < 35;
      assert IsHex(s[i]) && IsHex(s[i + 1]);
      ByteRoundTrip(s, i);
    }
  }

  lemma DashesStay(s: string)
    requires Valid(s)
    ensures |LowerAll(s)| == 36
    ensures var t := LowerAll(s); t[8] == '-' && t[13] == '-' && t[18] == '-' && t[23] == '-'
  {
    assert IsDash(8) && IsDash(13) && IsDash(18) && IsDash(23);
  }

  // The fields of the text that comes back.
  lemma FirstFields(s: string)
    requires Valid(s)
    ensures var t, u := LowerAll(s), Parse(s);
            && HexText(u[3]) + HexText(u[2]) + HexText(u[1]) + HexText(u[0]) == t[0..8]
            && HexText(u[5]) + HexText(u[4]) == t[9..13]
  {
    hide HexByte, HexText, LowerAll, Valid;
    DashesStay(s);
    ParsedBytes(s);
    FourPairs(LowerAll(s), 0);
    TwoPairs(LowerAll(s), 9);
  }

  lemma MiddleFields(s: string)
    requires Valid(s)
    ensures var t, u := LowerAll(s), Parse(s);
            && HexText(u[7]) + HexText(u[6]) == t[14..18]
            && HexText(u[8]) + HexText(u[9]) == t[19..23]
  {
    hide HexByte, HexText, LowerAll, Valid;
    DashesStay(s);
    ParsedBytes(s);
    TwoPairs(LowerAll(s), 14);
    TwoPairs(LowerAll(s), 19);
  }

  lemma LastField(s: string)
    requires Valid(s)
    ensures var t, u := LowerAll(s), Parse(s);
            HexText(u[10]) + HexText(u[11]) + HexText(u[12]) + HexText(u[13]) + HexText(u[14]) + HexText(u[15]) == t[24..36]
  {
    hide HexByte, HexText, LowerAll, Valid;
    DashesStay(s);
    ParsedBytes(s);
    SixPairs(LowerAll(s), 24);
  }

  // A valid UUID comes back from its bytes, up to the case of its digits.
  lemma ParseRoundTrip(s: string)
    requires Valid(s)
    ensures Format(Parse(s)) == LowerAll(s)
  {
    hide Parse, HexText, LowerAll, Valid;
    DashesStay(s);
    FirstFields(s);
    MiddleFields(s);
    LastField(s);
    Pieces(LowerAll(s));
  }
}
