/** Decoded numbers, and how `fmt.Sprint`, `json.Marshal` and JavaScript's `String` spell them. */
module Numbers {
  import opened Text

  /** The 64-bit float 0.`digits` times 10^`point`, by its shortest digits; zero has none. */
  datatype Number = Number(negative: bool, digits: string, point: int)

  /** Shortest digits neither start nor end with a zero. */
  predicate Proper(n: Number)
  {
    (forall c :: c in n.digits ==> IsDigit(c)) &&
    if n.digits == "" then n.point == 0 else n.digits[0] != '0' && n.digits[|n.digits| - 1] != '0'
  }

  function Zeros(k: nat): (s: string)
    ensures |s| == k && forall i :: 0 <= i < k ==> s[i] == '0'
  {
    seq(k, _ => '0')
  }

  /** Positional notation. */
  function Fixed(digits: string, point: int): string
  {
    if digits == "" then "0"
    else if point <= 0 then "0." + Zeros(-point) + digits
    else if |digits| <= point then digits + Zeros(point - |digits|)
    else digits[..point] + "." + digits[point..]
  }

  function Mantissa(digits: string): string
    requires digits != ""
  {
    [digits[0]] + if |digits| > 1 then "." + digits[1..] else ""
  }

  function Sign(e: int): string { if e < 0 then "e-" else "e+" }

  function Abs(e: int): nat { if e < 0 then -e else e }

  /** Go pads exponents to two digits, JavaScript does not. */
  function GoExponent(e: int): string { Sign(e) + (if Abs(e) < 10 then "0" else "") + Decimal(Abs(e)) }

  function JsExponent(e: int): string { Sign(e) + Decimal(Abs(e)) }

  /** `strconv`'s `%g` with shortest digits: positional for exponents from -4 to 5. */
  function GoMagnitude(digits: string, point: int): string
  {
    if digits != "" && (point - 1 < -4 || point - 1 >= 6) then Mantissa(digits) + GoExponent(point - 1)
    else Fixed(digits, point)
  }

  /** ECMAScript's Number::toString: positional for exponents from -6 to 20. */
  function JsMagnitude(digits: string, point: int): string
  {
    if digits != "" && !(-6 < point <= 21) then Mantissa(digits) + JsExponent(point - 1) else Fixed(digits, point)
  }

  /** `fmt.Sprint` of a float. */
  function GoText(n: Number): string { (if n.negative then "-" else "") + GoMagnitude(n.digits, n.point) }

  /** `String` of a number; JavaScript does not show the sign of zero. */
  function JsText(n: Number): string
  {
    (if n.negative && n.digits != "" then "-" else "") + JsMagnitude(n.digits, n.point)
  }

  /** `json.Marshal` of a float follows the JavaScript notation, but shows the sign of zero. */
  function JsonText(n: Number): string { (if n.negative then "-" else "") + JsMagnitude(n.digits, n.point) }

  function Whole(n: nat): Number
  {
    if n == 0 then Number(false, "", 0) else Number(false, TrimRight(Decimal(n), '0'), |Decimal(n)|)
  }

  /** Where both notations coincide: not for numbers from 10^6 up to 10^21, nor from 10^-9 up to 10^-4, nor for
      negative zero. */
  predicate SpelledAlike(n: Number)
  {
    if n.digits == "" then !n.negative else !(7 <= n.point <= 21) && !(-8 <= n.point <= -4)
  }

  lemma {:induction false} FixedHasNoExponent(digits: string, point: int)
    requires forall c :: c in digits ==> IsDigit(c)
    ensures 'e' !in Fixed(digits, point)
  {
    var zeros := Zeros(Abs(point));
    if digits != "" && point > 0 && |digits| > point {
      assert forall c :: c in digits[..point] ==> c in digits;
      assert forall c :: c in digits[point..] ==> c in digits;
    }
  }

  lemma {:induction false} ExponentsDiffer(m: string, e: int)
    ensures m + GoExponent(e) == m + JsExponent(e) <==> Abs(e) >= 10
  {
    assert |m + GoExponent(e)| == |m| + |GoExponent(e)| && |m + JsExponent(e)| == |m| + |JsExponent(e)|;
    if Abs(e) >= 10 { assert Sign(e) + "" == Sign(e); }
  }

  lemma {:induction false} MagnitudesAlikeExactly(digits: string, point: int)
    requires digits != "" && forall c :: c in digits ==> IsDigit(c)
    ensures GoMagnitude(digits, point) == JsMagnitude(digits, point) <==> !(7 <= point <= 21) && !(-8 <= point <= -4)
  {
    hide Fixed;
    if 7 <= point <= 21 || point == -5 || point == -4 {
      FixedHasNoExponent(digits, point);
      var m, x := Mantissa(digits), GoExponent(point - 1);
      assert (m + x)[|m|] == x[0] == 'e';
    } else if point < -5 || point > 21 {
      ExponentsDiffer(Mantissa(digits), point - 1);
    }
  }

  /** Go and JavaScript spell a number alike exactly outside those ranges. */
  lemma {:induction false} NumbersAlikeExactly(n: Number)
    requires Proper(n)
    ensures GoText(n) == JsText(n) <==> SpelledAlike(n)
  {
    hide Fixed;
    if n.digits == "" {
      assert Fixed("", 0) == "0" by { ZeroFixed(); }
    } else {
      MagnitudesAlikeExactly(n.digits, n.point);
      var g, j := GoMagnitude(n.digits, n.point), JsMagnitude(n.digits, n.point);
      assert n.negative ==> ("-" + g)[1..] == g && ("-" + j)[1..] == j;
      assert "" + g == g && "" + j == j;
    }
  }

  lemma {:induction false} ZeroFixed()
    ensures Fixed("", 0) == "0"
  {
  }
}
