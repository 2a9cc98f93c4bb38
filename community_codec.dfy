/**
 * Rendering of a standard community (section 1 of RFC 1997: the high 16 bits
 * are an AS number, the low 16 bits a locally assigned value) as the string
 * `"high:low"` in decimal, which is what `fmt.Sprintf("%d:%d", c >> 16,
 * c & 0xFFFF)` produces. For unsigned values the shift is a division by 2^16
 * and the mask a remainder. A parser for the same form is the inverse that
 * shows the rendering loses nothing.
 */
module CommunityCodec {
  import opened Wrappers
  import opened MachineInts

  predicate IsDigit(ch: char)
  {
    '0' <= ch <= '9'
  }

  function DigitChar(d: nat): (ch: char)
    requires d < 10
  {
    (('0' as int) + d) as char
  }

  function DigitValue(ch: char): nat
    requires IsDigit(ch)
  {
    (ch as int) - ('0' as int)
  }

  predicate AllDigits(s: string)
  {
    forall i :: 0 <= i < |s| ==> IsDigit(s[i])
  }

  /** A canonical decimal numeral: at least one digit, digits only, no leading zero. */
  predicate IsDecimal(s: string)
  {
    |s| >= 1 && AllDigits(s) && (|s| == 1 || s[0] != '0')
  }

  /** The number a string of digits denotes. */
  function DecimalValue(s: string): nat
    requires AllDigits(s)
  {
    if |s| == 0 then 0 else 10 * DecimalValue(s[..|s| - 1]) + DigitValue(s[|s| - 1])
  }

  /** `%d` of a non-negative integer: the canonical numeral that denotes `n`. */
  function DecimalString(n: nat): (r: string)
    ensures IsDecimal(r) && DecimalValue(r) == n
  {
    if n < 10 then
      [DigitChar(n)]
    else
      var prefix := DecimalString(n / 10);
      var r := prefix + [DigitChar(n % 10)];
      assert r[..|r| - 1] == prefix;
      r
  }

  /** A canonical numeral is the rendering of its own value. */
  lemma {:induction false} DecimalStringOfValue(s: string)
    requires IsDecimal(s)
    ensures DecimalString(DecimalValue(s)) == s
  {
    if |s| > 1 {
      var prefix := s[..|s| - 1];
      assert IsDecimal(prefix) && prefix[0] == s[0];
      DecimalValuePositive(prefix);
      DecimalStringOfValue(prefix);
    }
  }

  /** A numeral that does not start with `'0'` denotes a positive number. */
  lemma {:induction false} DecimalValuePositive(s: string)
    requires IsDecimal(s) && s[0] != '0'
    ensures DecimalValue(s) >= 1
  {
    if |s| > 1 {
      var prefix := s[..|s| - 1];
      assert IsDecimal(prefix) && prefix[0] == s[0];
      DecimalValuePositive(prefix);
    }
  }

  /** The high 16 bits, `c >> 16`. */
  function High16(c: uint32): uint16
  {
    c / 0x1_0000
  }

  /** The low 16 bits, `c & 0xFFFF`. */
  function Low16(c: uint32): uint16
  {
    c % 0x1_0000
  }

  /** The index of the first `':'` in `s`, if there is one. */
  function ColonIndex(s: string): (r: Option<nat>)
    ensures r.Some? ==> r.value < |s| && s[r.value] == ':'
    ensures r.Some? ==> forall i :: 0 <= i < r.value ==> s[i] != ':'
    ensures r.None? ==> forall i :: 0 <= i < |s| ==> s[i] != ':'
  {
    if |s| == 0 then None
    else if s[0] == ':' then Some(0)
    else match ColonIndex(s[1..])
      case None => None
      case Some(k) => Some(k + 1)
  }

  /** Reads `"high:low"` back into a 32-bit community; `None` for any other string. */
  function ParseCommunity(s: string): Option<uint32>
  {
    match ColonIndex(s)
    case None => None
    case Some(k) =>
      var high, low := s[..k], s[k + 1..];
      if IsDecimal(high) && IsDecimal(low) && DecimalValue(high) < 0x1_0000 && DecimalValue(low) < 0x1_0000
      then Some(DecimalValue(high) * 0x1_0000 + DecimalValue(low))
      else None
  }

  /** The string the engine records for one community value. */
  function FormatCommunity(c: uint32): string
  {
    DecimalString(High16(c)) + ":" + DecimalString(Low16(c))
  }

  /**
   * The rendering's first `':'` separates the canonical numeral of the
   * high 16 bits from the canonical numeral of the low 16 bits.
   */
  lemma FormatCommunityShape(c: uint32)
    ensures ColonIndex(FormatCommunity(c)).Some?
    ensures var r, k := FormatCommunity(c), ColonIndex(FormatCommunity(c)).value;
      && IsDecimal(r[..k]) && DecimalValue(r[..k]) == c / 0x1_0000
      && IsDecimal(r[k + 1..]) && DecimalValue(r[k + 1..]) == c % 0x1_0000
  {
    ColonSplit(DecimalString(High16(c)), DecimalString(Low16(c)));
  }

  /** Parsing the rendering gives the community back. */
  lemma FormatCommunityRoundTrip(c: uint32)
    ensures ParseCommunity(FormatCommunity(c)) == Some(c)
  {
    ParseJoined(DecimalString(High16(c)), DecimalString(Low16(c)));
    HighLowRecompose(c);
  }

  /** Two canonical 16-bit numerals joined by `':'` parse to the value they spell. */
  lemma ParseJoined(high: string, low: string)
    requires IsDecimal(high) && IsDecimal(low)
    requires DecimalValue(high) < 0x1_0000 && DecimalValue(low) < 0x1_0000
    ensures ParseCommunity(high + ":" + low) == Some(DecimalValue(high) * 0x1_0000 + DecimalValue(low))
  {
    ColonSplit(high, low);
    ParseAtColon(high + ":" + low, |high|);
  }

  /** A string whose first colon separates two canonical 16-bit numerals parses to the value they spell. */
  lemma ParseAtColon(s: string, k: nat)
    requires ColonIndex(s) == Some(k)
    requires IsDecimal(s[..k]) && IsDecimal(s[k + 1..])
    requires DecimalValue(s[..k]) < 0x1_0000 && DecimalValue(s[k + 1..]) < 0x1_0000
    ensures ParseCommunity(s) == Some(DecimalValue(s[..k]) * 0x1_0000 + DecimalValue(s[k + 1..]))
  {
  }

  /** A value put together from two 16-bit halves splits back into them. */
  lemma HalvesOfJoined(h: nat, l: nat)
    requires h < 0x1_0000 && l < 0x1_0000
    ensures 0 <= h * 0x1_0000 + l < 0x1_0000_0000
    ensures (h * 0x1_0000 + l) / 0x1_0000 == h && (h * 0x1_0000 + l) % 0x1_0000 == l
  {
  }

  /** The two halves put back together give the community value. */
  lemma HighLowRecompose(c: uint32)
    ensures High16(c) * 0x1_0000 + Low16(c) == c
  {
  }

  /** Joining two numerals with `':'` puts the first colon between them. */
  lemma ColonSplit(high: string, low: string)
    requires AllDigits(high) && AllDigits(low)
    ensures var s := high + ":" + low;
      ColonIndex(s) == Some(|high|) && s[..|high|] == high && s[|high| + 1..] == low
  {
    var s := high + ":" + low;
    assert s[|high|] == ':';
    assert forall i :: 0 <= i < |high| ==> s[i] == high[i];
    assert s[..|high|] == high && s[|high| + 1..] == low;
  }

  /** Every string the parser accepts is the rendering of what it parses to. */
  lemma ParseCommunityIsInverse(s: string, c: uint32)
    requires ParseCommunity(s) == Some(c)
    ensures FormatCommunity(c) == s
  {
    var k := ColonIndex(s).value;
    var high, low := s[..k], s[k + 1..];
    assert IsDecimal(high) && IsDecimal(low);
    var h, l := DecimalValue(high), DecimalValue(low);
    assert h < 0x1_0000 && l < 0x1_0000;
    assert c == h * 0x1_0000 + l;
    HalvesOfJoined(h, l);
    assert High16(c) == h && Low16(c) == l;
    DecimalStringOfValue(high);
    DecimalStringOfValue(low);
    assert s == high + ":" + low;
  }

  /** Distinct community values never render to the same string. */
  lemma FormatCommunityInjective(a: uint32, b: uint32)
    ensures FormatCommunity(a) == FormatCommunity(b) <==> a == b
  {
    FormatCommunityRoundTrip(a);
    FormatCommunityRoundTrip(b);
  }

  /** 0x0002000A is AS 2, value 10. */
  lemma FormatCommunityExample()
    ensures FormatCommunity(0x0002000A) == "2:10"
  {
    assert High16(0x0002000A) == 2 && Low16(0x0002000A) == 10;
    assert DecimalString(2) == "2" && DecimalString(10) == "10";
  }

  /** The strings the inner community loop appends, one per value, in order. */
  function FormatAll(cs: seq<uint32>): (r: seq<string>)
    ensures |r| == |cs|
    ensures forall i :: 0 <= i < |cs| ==> r[i] == FormatCommunity(cs[i])
  {
    if cs == [] then [] else FormatAll(cs[..|cs| - 1]) + [FormatCommunity(cs[|cs| - 1])]
  }
}
