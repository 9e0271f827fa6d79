/**
 * `parseInt(year) || 0`, the key the publication list is ordered by.
 * `parseInt` follows section 19.2.5 of ECMAScript 2023 with the radix
 * argument absent: skip leading whitespace, read an optional sign, read an
 * optional `0x`/`0X` prefix that switches to radix 16, then read the longest
 * run of digits of the radix. No digits gives NaN, and `NaN || 0` is 0.
 */
module JsParseInt {
  import opened Wrappers
  import opened Strings

  predicate IsDecimalDigit(c: char) {
    '0' <= c <= '9'
  }

  /** The value of `c` read as a digit in some radix up to 16. */
  function DigitValue(c: char): (v: Option<nat>)
    ensures v.Some? ==> v.value < 16
    ensures v.Some? && v.value < 10 <==> IsDecimalDigit(c)
  {
    if '0' <= c <= '9' then Some(c as int - '0' as int)
    else if 'a' <= c <= 'f' then Some(c as int - 'a' as int + 10)
    else if 'A' <= c <= 'F' then Some(c as int - 'A' as int + 10)
    else None
  }

  predicate IsDigitIn(c: char, radix: nat) {
    DigitValue(c).Some? && DigitValue(c).value < radix
  }

  /** The index of the first non-whitespace character at or after `i`. */
  function SkipSpaces(s: string, i: nat): (k: nat)
    requires i <= |s|
    ensures i <= k <= |s|
    ensures forall j :: i <= j < k ==> IsJsSpace(s[j])
    ensures k == |s| || !IsJsSpace(s[k])
    decreases |s| - i
  {
    if i < |s| && IsJsSpace(s[i]) then SkipSpaces(s, i + 1) else i
  }

  /** The end of the longest run of `radix` digits that starts at `i`. */
  function DigitRunEnd(s: string, i: nat, radix: nat): (k: nat)
    requires i <= |s|
    ensures i <= k <= |s|
    ensures forall j :: i <= j < k ==> IsDigitIn(s[j], radix)
    ensures k == |s| || !IsDigitIn(s[k], radix)
    decreases |s| - i
  {
    if i < |s| && IsDigitIn(s[i], radix) then DigitRunEnd(s, i + 1, radix) else i
  }

  /** The number the digits `s[lo..hi]` spell in `radix`, read left to right. */
  function DigitsValue(s: string, lo: nat, hi: nat, radix: nat): int
    requires lo <= hi <= |s|
    requires forall j :: lo <= j < hi ==> IsDigitIn(s[j], radix)
    decreases hi - lo
  {
    if hi == lo then 0
    else
      assert IsDigitIn(s[hi - 1], radix);
      DigitsValue(s, lo, hi - 1, radix) * radix + DigitValue(s[hi - 1]).value
  }

  /** The digits of `radix` from `start` on; `None` when there are none (NaN). */
  function ParseDigits(s: string, start: nat, radix: nat): Option<int>
    requires start <= |s|
  {
    var end := DigitRunEnd(s, start, radix);
    if end == start then None else Some(DigitsValue(s, start, end, radix))
  }

  /** After the sign: an optional `0x`/`0X` prefix selects radix 16, otherwise radix 10. */
  function ParseUnsigned(s: string, d: nat): Option<int>
    requires d <= |s|
  {
    if d + 1 < |s| && s[d] == '0' && (s[d + 1] == 'x' || s[d + 1] == 'X') then
      ParseDigits(s, d + 2, 16)
    else
      ParseDigits(s, d, 10)
  }

  /** After the whitespace: an optional `+` or `-`. */
  function ParseSigned(s: string, k: nat): Option<int>
    requires k <= |s|
  {
    if k < |s| && s[k] == '-' then
      match ParseUnsigned(s, k + 1)
      case None => None
      case Some(m) => Some(-m)
    else if k < |s| && s[k] == '+' then
      match ParseUnsigned(s, k + 1)
      case None => None
      case Some(m) => Some(m)
    else
      match ParseUnsigned(s, k)
      case None => None
      case Some(m) => Some(m)
  }

  /** `parseInt(s)` with no radix; `None` stands for NaN. */
  function ParseInt(s: string): Option<int> {
    ParseSigned(s, SkipSpaces(s, 0))
  }

  /** `parseInt(year) || 0`: NaN (and the negative zero of `"-0"`) become 0. */
  function ParseYear(year: string): (r: int)
    ensures r != 0 ==> exists j :: 0 <= j < |year| && IsDecimalDigit(year[j])
  {
    ValueOr(ParseInt(year), 0)
  }

  function Pow10(n: nat): (p: nat)
    ensures p >= 1
  {
    if n == 0 then 1 else 10 * Pow10(n - 1)
  }

  predicate AllDecimal(d: string) {
    forall j :: 0 <= j < |d| ==> IsDecimalDigit(d[j])
  }

  /**
   * The value of a decimal numeral by place value: the leading digit weighs
   * `10^(|d|-1)`. An independent reference for the left-to-right reading.
   */
  function Decimal(d: string): int
    requires AllDecimal(d)
  {
    if |d| == 0 then 0
    else
      assert AllDecimal(d[1..]) by {
        forall j | 0 <= j < |d| - 1 ensures IsDecimalDigit(d[1..][j]) {
          assert d[1..][j] == d[j + 1];
        }
      }
      DigitValue(d[0]).value * Pow10(|d| - 1) + Decimal(d[1..])
  }

  /** Splitting off the leading digit of a run. */
  lemma {:induction false} DigitsValueLeading(s: string, lo: nat, hi: nat)
    requires lo < hi <= |s|
    requires forall j :: lo <= j < hi ==> IsDigitIn(s[j], 10)
    ensures DigitsValue(s, lo, hi, 10)
         == DigitValue(s[lo]).value * Pow10(hi - lo - 1) + DigitsValue(s, lo + 1, hi, 10)
    decreases hi - lo
  {
    var lead := DigitValue(s[lo]).value;
    if hi - lo > 1 {
      assert IsDigitIn(s[hi - 1], 10);
      var last := DigitValue(s[hi - 1]).value;
      var inner := DigitsValue(s, lo + 1, hi - 1, 10);
      var p := Pow10(hi - lo - 2);
      DigitsValueLeading(s, lo, hi - 1);
      assert DigitsValue(s, lo, hi - 1, 10) == lead * p + inner;
      assert DigitsValue(s, lo, hi, 10) == (lead * p + inner) * 10 + last;
      assert DigitsValue(s, lo + 1, hi, 10) == inner * 10 + last;
      assert Pow10(hi - lo - 1) == 10 * p;
      assert (lead * p + inner) * 10 == lead * (10 * p) + inner * 10;
    } else {
      assert DigitsValue(s, lo + 1, hi, 10) == 0;
      assert DigitsValue(s, lo, hi, 10) == 0 * 10 + lead;
    }
  }

  /** Reading the digits of `d` in place, inside a longer string, gives `Decimal(d)`. */
  lemma {:induction false} DigitsValueIsDecimal(s: string, lo: nat, d: string)
    requires lo + |d| <= |s| && s[lo..lo + |d|] == d && AllDecimal(d)
    ensures forall j :: lo <= j < lo + |d| ==> IsDigitIn(s[j], 10)
    ensures DigitsValue(s, lo, lo + |d|, 10) == Decimal(d)
    decreases |d|
  {
    forall j | lo <= j < lo + |d|
      ensures IsDigitIn(s[j], 10)
    {
      assert s[j] == d[j - lo];
    }
    if |d| > 0 {
      assert s[lo] == d[0];
      assert s[lo + 1..lo + 1 + |d[1..]|] == d[1..];
      DigitsValueIsDecimal(s, lo + 1, d[1..]);
      DigitsValueLeading(s, lo, lo + |d|);
    }
  }

  /** A decimal numeral `d` at `start`, not continued by a digit, reads as `Decimal(d)`. */
  lemma ParseDigitsOfNumeral(s: string, start: nat, d: string)
    requires start + |d| <= |s| && s[start..start + |d|] == d
    requires |d| > 0 && AllDecimal(d)
    requires start + |d| == |s| || !IsDecimalDigit(s[start + |d|])
    ensures ParseDigits(s, start, 10) == Some(Decimal(d))
  {
    DigitsValueIsDecimal(s, start, d);
    DigitRunEndAt(s, start, start + |d|, 10);
  }

  lemma {:induction false} DigitRunEndAt(s: string, i: nat, e: nat, radix: nat)
    requires i <= e <= |s|
    requires forall j :: i <= j < e ==> IsDigitIn(s[j], radix)
    requires e == |s| || !IsDigitIn(s[e], radix)
    ensures DigitRunEnd(s, i, radix) == e
    decreases e - i
  {
    if i < e {
      DigitRunEndAt(s, i + 1, e, radix);
    }
  }

  /**
   * A year written as optional whitespace, an optional sign, a decimal
   * numeral and anything that does not continue the numeral parses to that
   * numeral with its sign. A lone `0` followed by `x` or `X` is excluded: that
   * is the hexadecimal prefix.
   */
  lemma ParseYearDecimal(ws: string, sign: string, d: string, rest: string)
    requires AllSpace(ws)
    requires sign == "" || sign == "+" || sign == "-"
    requires |d| > 0 && AllDecimal(d)
    requires |rest| == 0 || !IsDecimalDigit(rest[0])
    requires !(d == "0" && |rest| > 0 && (rest[0] == 'x' || rest[0] == 'X'))
    ensures ParseYear(ws + sign + d + rest) == if sign == "-" then -Decimal(d) else Decimal(d)
  {
    Layout(ws, sign, d, rest);
    ParseYearOfPieces(ws + sign + d + rest, |ws|, sign, d, rest);
  }

  /** The same, for a string already cut into its four pieces at `n`. */
  lemma ParseYearOfPieces(s: string, n: nat, sign: string, d: string, rest: string)
    requires n + |sign| + |d| + |rest| == |s|
    requires AllSpace(s[..n])
    requires s[n..n + |sign|] == sign
    requires s[n + |sign|..n + |sign| + |d|] == d
    requires s[n + |sign| + |d|..] == rest
    requires sign == "" || sign == "+" || sign == "-"
    requires |d| > 0 && AllDecimal(d)
    requires |rest| == 0 || !IsDecimalDigit(rest[0])
    requires !(d == "0" && |rest| > 0 && (rest[0] == 'x' || rest[0] == 'X'))
    ensures ParseYear(s) == if sign == "-" then -Decimal(d) else Decimal(d)
  {
    ParseUnsignedDecimal(s, n + |sign|, d, rest);
    LeadingCharNotSpace(s, n, sign, d);
    SkipLeadingSpaces(s, n);
    assert ParseInt(s) == ParseSigned(s, n);
    ParseSignedAt(s, n, sign, Decimal(d));
    assert ParseYear(s) == ValueOr(ParseSigned(s, n), 0);
  }

  /** Where the four pieces of `ws + sign + d + rest` sit. */
  lemma Layout(ws: string, sign: string, d: string, rest: string)
    ensures var s := ws + sign + d + rest;
      && s[..|ws|] == ws
      && s[|ws|..|ws| + |sign|] == sign
      && s[|ws| + |sign|..|ws| + |sign| + |d|] == d
      && s[|ws| + |sign| + |d|..] == rest
  {
  }

  lemma LeadingCharNotSpace(s: string, n: nat, sign: string, d: string)
    requires sign == "" || sign == "+" || sign == "-"
    requires |d| > 0 && AllDecimal(d)
    requires n + |sign| + |d| <= |s|
    requires s[n..n + |sign|] == sign && s[n + |sign|..n + |sign| + |d|] == d
    ensures !IsJsSpace(s[n])
    ensures sign == "" ==> s[n] != '-' && s[n] != '+'
  {
    if sign == "" {
      assert s[n] == d[0];
    } else {
      assert s[n] == sign[0];
    }
  }

  /** How the sign in front of a parsed magnitude `m` shapes the result. */
  lemma ParseSignedAt(s: string, k: nat, sign: string, m: int)
    requires sign == "" || sign == "+" || sign == "-"
    requires k + |sign| <= |s| && s[k..k + |sign|] == sign
    requires sign == "" ==> k < |s| && s[k] != '-' && s[k] != '+'
    requires ParseUnsigned(s, k + |sign|) == Some(m)
    ensures ValueOr(ParseSigned(s, k), 0) == if sign == "-" then -m else m
  {
    if sign != "" {
      assert s[k] == sign[0];
    }
  }

  lemma SkipLeadingSpaces(s: string, n: nat)
    requires n < |s| && AllSpace(s[..n]) && !IsJsSpace(s[n])
    ensures SkipSpaces(s, 0) == n
  {
    forall j | 0 <= j < n ensures IsJsSpace(s[j]) {
      assert s[..n][j] == s[j];
    }
    SkipSpacesAt(s, 0, n);
  }

  lemma ParseUnsignedDecimal(s: string, start: nat, d: string, rest: string)
    requires start + |d| + |rest| == |s|
    requires s[start..start + |d|] == d && s[start + |d|..] == rest
    requires |d| > 0 && AllDecimal(d)
    requires |rest| == 0 || !IsDecimalDigit(rest[0])
    requires !(d == "0" && |rest| > 0 && (rest[0] == 'x' || rest[0] == 'X'))
    ensures ParseUnsigned(s, start) == Some(Decimal(d))
  {
    assert s[start] == d[0];
    var notHex := !(start + 1 < |s| && s[start] == '0' && (s[start + 1] == 'x' || s[start + 1] == 'X'));
    assert notHex by {
      if |d| > 1 {
        assert s[start + 1] == d[1];
      } else if |rest| > 0 {
        assert s[start + 1] == rest[0];
      }
    }
    assert start + |d| == |s| || !IsDecimalDigit(s[start + |d|]) by {
      if start + |d| < |s| {
        assert s[start + |d|] == rest[0];
      }
    }
    ParseDigitsOfNumeral(s, start, d);
  }

  lemma {:induction false} SkipSpacesAt(s: string, i: nat, e: nat)
    requires i <= e <= |s|
    requires forall j :: i <= j < e ==> IsJsSpace(s[j])
    requires e == |s| || !IsJsSpace(s[e])
    ensures SkipSpaces(s, i) == e
    decreases e - i
  {
    if i < e {
      SkipSpacesAt(s, i + 1, e);
    }
  }

  /** A year with no decimal digit at all parses to 0. */
  lemma ParseYearWithoutDigits(s: string)
    requires forall j :: 0 <= j < |s| ==> !IsDecimalDigit(s[j])
    ensures ParseYear(s) == 0
  {
  }

  /**
   * A year whose first non-blank text is not a numeral parses to 0, wherever
   * digits appear later: "Spring 2024", "in press (2025)", "abc2023", "- 5".
   * After the whitespace comes an optional sign and then a character that is
   * not a digit; with no sign, that character is not a sign either.
   */
  lemma ParseYearWithoutLeadingNumeral(ws: string, sign: string, rest: string)
    requires AllSpace(ws)
    requires sign == "" || sign == "+" || sign == "-"
    requires |rest| > 0 && !IsDecimalDigit(rest[0])
    requires sign == "" ==> !IsJsSpace(rest[0]) && rest[0] != '+' && rest[0] != '-'
    ensures ParseYear(ws + sign + rest) == 0
  {
    var s := ws + sign + rest;
    var n := |ws|;
    assert s[..n] == ws;
    assert s[n + |sign|] == rest[0];
    if sign != "" {
      assert s[n] == sign[0];
    }
    SkipLeadingSpaces(s, n);
    assert ParseUnsigned(s, n + |sign|) == None;
  }

  /** Plain four-digit years. */
  lemma ParseYearPlainExamples()
    ensures ParseYear("2023") == 2023
    ensures ParseYear("2024") == 2024
  {
    assert Decimal("2023") == 2023 by {
      assert "2023"[1..] == "023";
      assert "023"[1..] == "23";
      assert "23"[1..] == "3";
      assert "3"[1..] == "";
    }
    ParseYearDecimal("", "", "2023", "");
    assert "" + "" + "2023" + "" == "2023";
    assert Decimal("2024") == 2024 by {
      assert "2024"[1..] == "024";
      assert "024"[1..] == "24";
      assert "24"[1..] == "4";
      assert "4"[1..] == "";
    }
    ParseYearDecimal("", "", "2024", "");
    assert "" + "" + "2024" + "" == "2024";
  }

  /** Leading whitespace and a sign are read, trailing text is ignored. */
  lemma ParseYearSignedExample()
    ensures ParseYear(" -12ab") == -12
  {
    assert Decimal("12") == 12 by {
      assert "12"[1..] == "2";
      assert "2"[1..] == "";
    }
    ParseYearDecimal(" ", "-", "12", "ab");
    assert " " + "-" + "12" + "ab" == " -12ab";
  }

  /** Empty and non-numeric years fall back to 0. */
  lemma ParseYearFallbackExamples()
    ensures ParseYear("") == 0
    ensures ParseYear("abc") == 0
  {
    ParseYearWithoutDigits("");
    ParseYearWithoutDigits("abc");
  }

  /** `0x` switches to hexadecimal: `"0x7E8"` is 2024, while `"0"` alone before `"8"` is decimal. */
  lemma ParseYearHexExample()
    ensures ParseYear("0x7E8") == 2024
  {
    var s := "0x7E8";
    assert SkipSpaces(s, 0) == 0;
    assert DigitRunEnd(s, 2, 16) == 5 by {
      assert IsDigitIn(s[2], 16) && IsDigitIn(s[3], 16) && IsDigitIn(s[4], 16);
    }
    assert DigitsValue(s, 2, 5, 16) == 2024 by {
      assert DigitsValue(s, 2, 3, 16) == 7;
      assert DigitsValue(s, 2, 4, 16) == 7 * 16 + 14;
    }
  }
}
