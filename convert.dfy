/**
 * Convert: the text conversions of logical and int values with their "NA" sentinels,
 * and the NA handling around the double conversions.
 */
module Convert {
  import opened Wrappers
  import opened RTypes
  import opened JavaDouble
  import RLogical
  import RDouble

  /** Java's NumberFormatException. */
  datatype NumberFormatError = NumberFormatError

  /** string2lgl: only the four spellings of TRUE and FALSE are read; anything else is NA. */
  function String2Lgl(b: string): (r: int32)
    ensures r == RLogical.TRUE || r == RLogical.FALSE || r == RLogical.NA
    ensures r == RLogical.TRUE <==> b == "TRUE" || b == "T"
    ensures r == RLogical.FALSE <==> b == "FALSE" || b == "F"
  {
    if b == "TRUE" || b == "T" then 1
    else if b == "FALSE" || b == "F" then 0
    else RLogical.NA
  }

  /** logical2string: FALSE and NA have their own spellings; every other code prints TRUE. */
  function Logical2String(i: int32): string
  {
    if i == 0 then "FALSE"
    else if i == RLogical.NA then "NA"
    else "TRUE"
  }

  /** The three logical codes survive printing and reading back. */
  lemma LogicalRoundTrip(v: int32)
    requires v == RLogical.TRUE || v == RLogical.FALSE || v == RLogical.NA
    ensures String2Lgl(Logical2String(v)) == v
  {
  }

  /** Any other non-zero code prints as TRUE and so reads back as 1. */
  lemma OtherCodesReadBackTrue(v: int32)
    requires v != RLogical.FALSE && v != RLogical.NA
    ensures String2Lgl(Logical2String(v)) == RLogical.TRUE
  {
  }

  /** Reading then printing gives the text back exactly for the canonical spellings. */
  lemma LogicalTextRoundTrip(b: string)
    ensures Logical2String(String2Lgl(b)) == b <==> b == "TRUE" || b == "FALSE" || b == "NA"
  {
    if b == "T" {
      assert Logical2String(String2Lgl(b)) == "TRUE";
    } else if b == "F" {
      assert Logical2String(String2Lgl(b)) == "FALSE";
    }
  }

  function DigitChar(d: nat): (c: char)
    requires d < 10
    ensures '0' <= c <= '9'
  {
    "0123456789"[d]
  }

  function DigitValue(c: char): (d: nat)
    requires '0' <= c <= '9'
    ensures d < 10
  {
    (c as int) - ('0' as int)
  }

  predicate AllDigits(s: string)
  {
    |s| > 0 && forall k :: 0 <= k < |s| ==> '0' <= s[k] <= '9'
  }

  /** The decimal digits of n, most significant first, without leading zeros. */
  function Digits(n: nat): (s: string)
    ensures AllDigits(s)
    ensures |s| > 1 ==> s[0] != '0'
  {
    if n < 10 then [DigitChar(n)] else Digits(n / 10) + [DigitChar(n % 10)]
  }

  /** The value a string of decimal digits denotes. */
  function DigitsValue(s: string): nat
    requires AllDigits(s)
  {
    if |s| == 1 then DigitValue(s[0])
    else
      assert AllDigits(s[..|s| - 1]);
      DigitsValue(s[..|s| - 1]) * 10 + DigitValue(s[|s| - 1])
  }

  lemma DigitRoundTrip(d: nat)
    requires d < 10
    ensures DigitValue(DigitChar(d)) == d
  {
  }

  /** Reading the printed digits of n gives n back. */
  lemma {:induction false} DigitsRoundTrip(n: nat)
    ensures DigitsValue(Digits(n)) == n
  {
    DigitRoundTrip(n % 10);
    if n >= 10 {
      var s := Digits(n);
      assert s[..|s| - 1] == Digits(n / 10);
      DigitsRoundTrip(n / 10);
    }
  }

  /** Integer.toString. */
  function DecimalText(i: int32): string
  {
    if i < 0 then "-" + Digits(-(i as int)) else Digits(i as int)
  }

  /** Integer.parseInt over ASCII digits: an optional sign, digits, and a value that fits. */
  function ParseInt(s: string): Result<int32, NumberFormatError>
  {
    if |s| == 0 then Err(NumberFormatError)
    else
      var signed := s[0] == '-' || s[0] == '+';
      var body := if signed then s[1..] else s;
      if !AllDigits(body) then Err(NumberFormatError)
      else
        var v: int := if s[0] == '-' then -(DigitsValue(body) as int) else DigitsValue(body);
        if INT_MIN as int <= v <= INT_MAX as int then Ok(v as int32) else Err(NumberFormatError)
  }

  /** int2string: NA prints as "NA", any other value as its decimal text with an "L" suffix. */
  function Int2String(i: int32): string
  {
    if i == INT_NA then "NA" else DecimalText(i) + "L"
  }

  /** string2int: "NA" is the integer NA; other text is parsed and may fail. */
  function String2Int(v: string): Result<int32, NumberFormatError>
  {
    if v == "NA" then Ok(INT_NA) else ParseInt(v)
  }

  /** Integer.parseInt reads back what Integer.toString prints, for every int. */
  lemma DecimalTextRoundTrip(i: int32)
    ensures String2Int(DecimalText(i)) == Ok(i)
  {
    var n: nat := if i < 0 then -(i as int) else i as int;
    DigitsRoundTrip(n);
    var s := DecimalText(i);
    if i < 0 {
      assert s[1..] == Digits(n);
    }
    assert s != "NA";
  }

  /** int2string prints "NA" exactly for the NA value. */
  lemma Int2StringNA(i: int32)
    ensures Int2String(i) == "NA" <==> i == INT_NA
  {
    if i != INT_NA {
      var s := Int2String(i);
      assert s[|s| - 1] == 'L';
    }
  }

  /**
   * int2string and string2int are not inverses: the "L" suffix makes parsing fail for
   * every non-NA value, while the text without the suffix reads back. Only NA survives
   * the round trip as printed.
   */
  lemma Int2StringReadBack(i: int32)
    ensures i == INT_NA ==> String2Int(Int2String(i)) == Ok(i)
    ensures i != INT_NA ==> String2Int(Int2String(i)).Err?
    ensures i != INT_NA ==> String2Int(Int2String(i)[..|Int2String(i)| - 1]) == Ok(i)
  {
    if i != INT_NA {
      var s := Int2String(i);
      assert s[..|s| - 1] == DecimalText(i);
      DecimalTextRoundTrip(i);
      assert s[|s| - 1] == 'L';
      assert !AllDigits(s) && (|s| > 1 ==> !AllDigits(s[1..]));
    }
  }

  /** The text of Integer.MIN_VALUE also reads as the integer NA. */
  lemma MinValueTextIsNA()
    ensures String2Int(DecimalText(INT_MIN)) == Ok(INT_NA)
  {
    DecimalTextRoundTrip(INT_MIN);
  }

  /** string2double: "NA" gives the NA pattern; other text goes to Double.parseDouble. */
  function String2Double(v: string, parseDouble: string -> Result<Double, NumberFormatError>): Result<Double, NumberFormatError>
  {
    if v == "NA" then Ok(RDouble.NA) else parseDouble(v)
  }

  /** double2string: the NA pattern prints as "NA"; everything else goes to Double.toString. */
  function Double2String(d: Double, toString: Double -> string): string
  {
    if IsNaN(d) && d == RDouble.NA_LONGBITS then "NA" else toString(d)
  }

  /**
   * "NA" survives reading and printing whatever Double.parseDouble and Double.toString
   * do, and a NaN other than NA is printed by Double.toString.
   */
  lemma DoubleNARoundTrip(parseDouble: string -> Result<Double, NumberFormatError>, toString: Double -> string, d: Double)
    ensures String2Double("NA", parseDouble) == Ok(RDouble.NA)
    ensures Double2String(RDouble.NA, toString) == "NA"
    ensures Double2String(d, toString) == "NA" <== RDouble.IsNA(d)
    ensures !RDouble.IsNA(d) ==> Double2String(d, toString) == toString(d)
  {
    RDouble.NAIsOneOfTheNaNs();
  }

  /**
   * R's int-to-double conversion, which ValueCopy.INT_TO_DOUBLE applies through
   * Convert.int2double (Convert.int2double is not part of this model): NA becomes the
   * double NA and every other int widens exactly.
   */
  function Int2Double(i: int32): (d: Double)
    ensures RDouble.IsNA(d) <==> i == INT_NA
    ensures i != INT_NA ==> d == WideningCast(i)
  {
    if i == INT_NA then RDouble.NA
    else
      RDouble.WidenedIntIsNotNA(i);
      WideningCast(i)
  }
}
