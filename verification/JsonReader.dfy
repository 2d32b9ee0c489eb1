/** A reader for the grammar of RFC 8259, and what it makes of marshalled documents. */
module JsonReader {
  import opened Text
  import opened Options
  import opened Numbers
  import opened Json
  import opened Utf8
  import opened JsonText
  import opened Decoding

  // ----- white space and literals (sections 2 and 3)

  predicate IsSpace(c: char) { c == ' ' || c == '\t' || c == '\n' || c == '\r' }

  function SkipSpace(s: string): (r: string)
    ensures |r| <= |s|
  {
    if s != "" && IsSpace(s[0]) then SkipSpace(s[1..]) else s
  }

  // ----- strings (section 7)

  predicate IsHex(c: char) { '0' <= c <= '9' || 'a' <= c <= 'f' || 'A' <= c <= 'F' }

  function HexOf(c: char): (d: nat)
    requires IsHex(c)
    ensures d < 16
  {
    if '0' <= c <= '9' then c as int - '0' as int
    else if 'a' <= c <= 'f' then c as int - 'a' as int + 10
    else c as int - 'A' as int + 10
  }

  predicate FourHex(s: string)
  {
    |s| >= 6 && s[0] == '\\' && s[1] == 'u' && IsHex(s[2]) && IsHex(s[3]) && IsHex(s[4]) && IsHex(s[5])
  }

  function CodeUnit(s: string): (n: nat)
    requires FourHex(s)
    ensures n < 0x1_0000
  {
    ((HexOf(s[2]) * 16 + HexOf(s[3])) * 16 + HexOf(s[4])) * 16 + HexOf(s[5])
  }

  /** An escape sequence at the start of a text: its bytes and its length. Surrogates come in pairs; a lone one is
      replaced. */
  function ReadEscape(s: string): (r: Option<(string, nat)>)
    requires s != "" && s[0] == '\\'
    ensures r.Some? ==> 2 <= r.value.1 <= |s|
  {
    if |s| < 2 then None
    else if s[1] == '"' || s[1] == '\\' || s[1] == '/' then Some(([s[1]], 2))
    else if s[1] == 'b' then Some(([8 as char], 2))
    else if s[1] == 'f' then Some(([12 as char], 2))
    else if s[1] == 'n' then Some(("\n", 2))
    else if s[1] == 'r' then Some(("\r", 2))
    else if s[1] == 't' then Some(("\t", 2))
    else if !FourHex(s) then None
    else
      var n := CodeUnit(s);
      if !(0xD800 <= n < 0xE000) then Some((Bytes(n), 6))
      else if n < 0xDC00 && FourHex(s[6..]) && 0xDC00 <= CodeUnit(s[6..]) < 0xE000 then
        Some((Bytes(0x1_0000 + (n - 0xD800) * 1024 + (CodeUnit(s[6..]) - 0xDC00)), 12))
      else Some((REPLACEMENT, 6))
  }

  /** The rest of a string, up to and including its closing quote. */
  function ReadChars(s: string): (r: Option<(string, string)>)
    ensures r.Some? ==> |r.value.1| < |s|
    decreases |s|
  {
    if s == "" then None
    else if s[0] == '"' then Some(("", s[1..]))
    else if s[0] == '\\' then
      match ReadEscape(s)
      case None => None
      case Some((bytes, n)) =>
        (match ReadChars(s[n..])
         case None => None
         case Some((more, rest)) => Some((bytes + more, rest)))
    else if s[0] < ' ' then None
    else
      match ReadChars(s[1..])
      case None => None
      case Some((more, rest)) => Some(([s[0]] + more, rest))
  }

  // ----- numbers (section 6)

  /** The number of leading digits. */
  function Span(s: string): (n: nat)
    ensures n <= |s| && forall i :: 0 <= i < n ==> IsDigit(s[i])
    ensures n < |s| ==> !IsDigit(s[n])
  {
    if s != "" && IsDigit(s[0]) then 1 + Span(s[1..]) else 0
  }

  function LeadingZeros(m: string): (z: nat)
    ensures z <= |m|
  {
    if m != "" && m[0] == '0' then 1 + LeadingZeros(m[1..]) else 0
  }

  /** 0.`m` times 10^`point`, by its shortest digits. */
  function Normalized(negative: bool, m: string, point: int): Number
  {
    var z := LeadingZeros(m);
    var digits := TrimRight(m[z..], '0');
    if digits == "" then Number(negative, "", 0) else Number(negative, digits, point - z)
  }

  /** An exponent part, if there is one: its value and what follows. */
  function ReadExponent(s: string): (r: Option<(int, string)>)
    ensures r.Some? ==> |r.value.1| <= |s|
  {
    if s == "" || (s[0] != 'e' && s[0] != 'E') then Some((0, s))
    else
      var signed := |s| > 1 && (s[1] == '+' || s[1] == '-');
      var digits := if signed then s[2..] else s[1..];
      var n := Span(digits);
      if n == 0 then None
      else
        var e: int := Value(digits[..n]);
        Some((if signed && s[1] == '-' then -e else e, digits[n..]))
  }

  /** A fraction part, if there is one: its digits and what follows. */
  function ReadFraction(s: string): (r: Option<(string, string)>)
    ensures r.Some? ==> |r.value.1| <= |s|
  {
    if s == "" || s[0] != '.' then Some(("", s))
    else
      var n := Span(s[1..]);
      if n == 0 then None else Some((s[1..][..n], s[1..][n..]))
  }

  function ReadMagnitude(s: string, negative: bool): (r: Option<(Number, string)>)
    ensures r.Some? ==> |r.value.1| < |s|
  {
    var n := if s != "" && s[0] == '0' then 1 else Span(s);
    if n == 0 then None
    else
      match ReadFraction(s[n..])
      case None => None
      case Some((fraction, more)) =>
        (match ReadExponent(more)
         case None => None
         case Some((e, rest)) => Some((Normalized(negative, s[..n] + fraction, n + e), rest)))
  }

  function ReadNumber(s: string): (r: Option<(Number, string)>)
    ensures r.Some? ==> |r.value.1| < |s|
  {
    if s != "" && s[0] == '-' then ReadMagnitude(s[1..], true) else ReadMagnitude(s, false)
  }

  // ----- values, arrays and objects (sections 3, 4 and 5)

  function ReadValue(text: string): (r: Option<(Json, string)>)
    ensures r.Some? ==> |r.value.1| < |text|
    decreases |text|, 1
  {
    var s := SkipSpace(text);
    if s == "" then None
    else if "null" <= s then Some((Null, s[4..]))
    else if "true" <= s then Some((Bool(true), s[4..]))
    else if "false" <= s then Some((Bool(false), s[5..]))
    else if s[0] == '"' then
      match ReadChars(s[1..])
      case None => None
      case Some((chars, rest)) => Some((Str(chars), rest))
    else if s[0] == '[' then
      var inside := SkipSpace(s[1..]);
      if inside != "" && inside[0] == ']' then Some((Arr([]), inside[1..]))
      else
        match ReadItems(inside)
        case None => None
        case Some((items, rest)) => Some((Arr(items), rest))
    else if s[0] == '{' then
      var inside := SkipSpace(s[1..]);
      if inside != "" && inside[0] == '}' then Some((Obj([]), inside[1..]))
      else
        match ReadFields(inside)
        case None => None
        case Some((fields, rest)) => Some((Obj(fields), rest))
    else
      match ReadNumber(s)
      case None => None
      case Some((n, rest)) => Some((Num(n), rest))
  }

  /** Values separated by commas, up to and including the closing bracket. */
  function ReadItems(s: string): (r: Option<(seq<Json>, string)>)
    ensures r.Some? ==> |r.value.1| < |s|
    decreases |s|, 2
  {
    match ReadValue(s)
    case None => None
    case Some((v, more)) =>
      var after := SkipSpace(more);
      if after != "" && after[0] == ']' then Some(([v], after[1..]))
      else if after != "" && after[0] == ',' then
        match ReadItems(after[1..])
        case None => None
        case Some((items, rest)) => Some(([v] + items, rest))
      else None
  }

  /** Members separated by commas, up to and including the closing brace. */
  function ReadFields(text: string): (r: Option<(seq<Field>, string)>)
    ensures r.Some? ==> |r.value.1| < |text|
    decreases |text|, 2
  {
    var s := SkipSpace(text);
    if s == "" || s[0] != '"' then None
    else
      match ReadChars(s[1..])
      case None => None
      case Some((name, more)) =>
        var colon := SkipSpace(more);
        if colon == "" || colon[0] != ':' then None
        else
          match ReadValue(colon[1..])
          case None => None
          case Some((v, more)) =>
            var after := SkipSpace(more);
            if after != "" && after[0] == '}' then Some(([Field(name, v)], after[1..]))
            else if after != "" && after[0] == ',' then
              match ReadFields(after[1..])
              case None => None
              case Some((fields, rest)) => Some(([Field(name, v)] + fields, rest))
            else None
  }

  /** A whole JSON text. */
  function ReadDocument(text: string): Option<Json>
  {
    match ReadValue(text)
    case None => None
    case Some((v, rest)) => if SkipSpace(rest) == "" then Some(v) else None
  }

  // ----- reading what the marshaller wrote: strings

  lemma {:induction false} HexBack(d: nat)
    requires d < 16
    ensures IsHex(Hex(d)) && HexOf(Hex(d)) == d
  {
  }

  /** An escape of two hex digits. */
  lemma {:induction false} HexEscapeReads(n: nat, more: string)
    requires n < 0x80
    ensures
      var t := "\\u00" + [Hex(n / 16 % 16), Hex(n % 16)] + more;
      t[0] == '\\' && ReadEscape(t) == Some(([n as char], 6)) && t[6..] == more
  {
    hide Hex, HexOf;
    var t := "\\u00" + [Hex(n / 16 % 16), Hex(n % 16)] + more;
    HexBack(n / 16 % 16);
    HexBack(n % 16);
    assert IsHex('0') && HexOf('0') == 0 by { ZeroHex(); }
    assert t[2] == '0' && t[3] == '0' && t[4] == Hex(n / 16 % 16) && t[5] == Hex(n % 16) && t[6..] == more;
    assert CodeUnit(t) == n;
  }

  lemma {:induction false} ZeroHex()
    ensures IsHex('0') && HexOf('0') == 0
  {
  }

  /** The escape of one character, in front of anything, is read as the character. */
  lemma {:induction false} EscapedCharReads(c: char, more: string)
    requires !PlainChar(c)
    ensures
      var t := EscapeChar(c) + more;
      t[0] == '\\' && ReadEscape(t) == Some(([c], |EscapeChar(c)|)) && t[|EscapeChar(c)|..] == more
  {
    hide Hex, HexOf, CodeUnit, Bytes;
    var e := EscapeChar(c);
    if |e| == 6 {
      HexEscapeReads(c as int, more);
    } else {
      assert (e + more)[1] == e[1] && (e + more)[2..] == more;
    }
  }

  lemma {:induction false} SeparatorReads(s: string, more: string)
    requires Separator(s)
    ensures
      var e := "\\u202" + [Hex(s[2] as int - 0xA0)];
      var t := e + more;
      t[0] == '\\' && ReadEscape(t) == Some((s[..3], 6)) && t[6..] == more
  {
    var e := "\\u202" + [Hex(s[2] as int - 0xA0)];
    var t := e + more;
    HexBack(s[2] as int - 0xA0);
    assert t[2] == '2' && t[3] == '0' && t[4] == '2' && t[5] == e[5] && t[6..] == more;
    var n := CodeUnit(t);
    assert n == 0x2020 + (s[2] as int - 0xA0);
    assert Bytes(n) == [0xE2 as char, 0x80 as char, s[2]];
    assert s[..3] == [s[0], s[1], s[2]];
  }

  lemma {:induction false} ReadCharsPlain(c: char, more: string)
    requires PlainChar(c)
    ensures ReadChars([c] + more) ==
      match ReadChars(more)
      case None => None
      case Some((chars, rest)) => Some(([c] + chars, rest))
  {
    assert ([c] + more)[1..] == more;
  }

  lemma {:induction false} ReadCharsEscape(t: string, bytes: string, n: nat)
    requires t != "" && t[0] == '\\' && ReadEscape(t) == Some((bytes, n))
    ensures ReadChars(t) ==
      match ReadChars(t[n..])
      case None => None
      case Some((chars, rest)) => Some((bytes + chars, rest))
  {
  }

  /** An escaped string, up to its closing quote, is read as the string. */
  lemma {:induction false} EscapedReads(s: string, rest: string)
    ensures ReadChars(Escape(s) + "\"" + rest) == Some((s, rest))
    decreases |s|
  {
    hide ReadEscape, EscapeChar;
    if s == "" {
      assert "" + "\"" + rest == "\"" + rest;
      ClosingQuote(rest);
    } else if Separator(s) {
      hide ReadChars;
      var more := Escape(s[3..]) + "\"" + rest;
      var e := "\\u202" + [Hex(s[2] as int - 0xA0)];
      assert Escape(s) + "\"" + rest == e + more;
      SeparatorReads(s, more);
      ReadCharsEscape(e + more, s[..3], 6);
      EscapedReads(s[3..], rest);
      assert s[..3] + s[3..] == s;
    } else {
      hide ReadChars;
      var more := Escape(s[1..]) + "\"" + rest;
      var e := EscapeChar(s[0]);
      assert Escape(s) + "\"" + rest == e + more;
      EscapedReads(s[1..], rest);
      assert [s[0]] + s[1..] == s;
      if PlainChar(s[0]) {
        PlainIsItself(s[0]);
        ReadCharsPlain(s[0], more);
      } else {
        EscapedCharReads(s[0], more);
        ReadCharsEscape(e + more, [s[0]], |e|);
      }
    }
  }

  lemma {:induction false} PlainIsItself(c: char)
    requires PlainChar(c)
    ensures EscapeChar(c) == [c]
  {
  }

  lemma {:induction false} ClosingQuote(rest: string)
    ensures ReadChars("\"" + rest) == Some(("", rest))
  {
    assert ("\"" + rest)[1..] == rest;
  }

  // ----- numbers

  /** What may follow a value in a marshalled document. */
  predicate Stops(rest: string)
  {
    rest == "" || rest[0] == ',' || rest[0] == ']' || rest[0] == '}'
  }

  predicate AllDigits(d: string) { forall i :: 0 <= i < |d| ==> IsDigit(d[i]) }

  lemma {:induction false} SpanOf(d: string, more: string)
    requires AllDigits(d) && (more == "" || !IsDigit(more[0]))
    ensures Span(d + more) == |d|
  {
    if d == "" {
      assert d + more == more;
    } else {
      assert (d + more)[0] == d[0] && (d + more)[1..] == d[1..] + more;
      SpanOf(d[1..], more);
    }
  }

  lemma {:induction false} LeadingZerosOf(z: nat, more: string)
    requires more != "" && more[0] != '0'
    ensures LeadingZeros(Zeros(z) + more) == z
  {
    var t := Zeros(z) + more;
    if z > 0 {
      assert t[0] == Zeros(z)[0];
      assert t[1..] == Zeros(z - 1) + more by {
        assert Zeros(z)[1..] == Zeros(z - 1);
      }
      LeadingZerosOf(z - 1, more);
    } else {
      assert t == more;
    }
  }

  lemma {:induction false} TrimZeros(d: string, b: nat)
    requires d != "" && d[|d| - 1] != '0'
    ensures TrimRight(d + Zeros(b), '0') == d
  {
    var t := d + Zeros(b);
    if b > 0 {
      assert t[|t| - 1] == Zeros(b)[b - 1];
      assert t[..|t| - 1] == d + Zeros(b - 1) by {
        assert Zeros(b)[..b - 1] == Zeros(b - 1);
      }
      TrimZeros(d, b - 1);
    } else {
      assert t == d;
    }
  }

  lemma {:induction false} NormalizedIs(negative: bool, z: nat, d: string, b: nat, point: int)
    requires d != "" && d[0] != '0' && d[|d| - 1] != '0'
    ensures Normalized(negative, Zeros(z) + d + Zeros(b), point) == Number(negative, d, point - z)
  {
    var m := Zeros(z) + d + Zeros(b);
    assert m == Zeros(z) + (d + Zeros(b));
    LeadingZerosOf(z, d + Zeros(b));
    assert m[z..] == d + Zeros(b);
    TrimZeros(d, b);
  }

  /** Digits, possibly a fraction, and a tail that is an exponent part or none. */
  lemma {:induction false} PartsRead(
      negative: bool, whole: string, fraction: string, tail: string, e: int, rest: string)
    requires whole != "" && AllDigits(whole) && AllDigits(fraction) && (whole[0] == '0' ==> |whole| == 1)
    requires tail == "" || (!IsDigit(tail[0]) && tail[0] != '.')
    requires ReadExponent(tail) == Some((e, rest))
    ensures
      var text := whole + (if fraction != "" then "." + fraction else "") + tail;
      ReadMagnitude(text, negative) == Some((Normalized(negative, whole + fraction, |whole| + e), rest))
  {
    hide ReadExponent, Normalized;
    var middle := if fraction != "" then "." + fraction else "";
    var text := whole + middle + tail;
    var after := middle + tail;
    assert text == whole + after;
    assert text[0] == whole[0];
    SpanOf(whole, after);
    assert text[..|whole|] == whole && text[|whole|..] == after;
    if fraction != "" {
      assert after[0] == '.' && after[1..] == fraction + tail;
      SpanOf(fraction, tail);
      assert (fraction + tail)[..|fraction|] == fraction && (fraction + tail)[|fraction|..] == tail;
      assert ReadFraction(after) == Some((fraction, tail));
    } else {
      assert after == tail;
      assert ReadFraction(after) == Some(("", tail));
    }
  }

  lemma {:induction false} SignedExponent(t: string, negative: bool, d: string, rest: string)
    requires t == (if negative then "e-" else "e+") + (d + rest)
    requires d != "" && AllDigits(d) && (rest == "" || !IsDigit(rest[0]))
    ensures ReadExponent(t) == Some((if negative then -(Value(d) as int) else Value(d), rest))
  {
    hide Span, Value;
    var digits := d + rest;
    assert t[0] == 'e' && t[2..] == digits;
    assert t[1] == '-' <==> negative;
    SpanOf(d, rest);
    assert digits[..|d|] == d && digits[|d|..] == rest;
  }

  lemma {:induction false} ExponentReads(e: int, rest: string)
    requires Stops(rest)
    ensures ReadExponent(JsExponent(e) + rest) == Some((e, rest))
  {
    hide ReadExponent, Decimal, Value;
    var d := Decimal(Abs(e));
    ValueOfDecimal(Abs(e));
    assert AllDigits(d) by { assert forall i :: 0 <= i < |d| ==> d[i] in d; }
    assert JsExponent(e) + rest == Sign(e) + (d + rest);
    SignedExponent(JsExponent(e) + rest, e < 0, d, rest);
  }

  lemma {:induction false} PaddedExponentReads(e: int, rest: string)
    requires Stops(rest)
    ensures ReadExponent(GoExponent(e) + rest) == Some((e, rest))
  {
    hide ReadExponent, Decimal, Value;
    var d := Decimal(Abs(e));
    var padded := (if Abs(e) < 10 then "0" else "") + d;
    ValueOfDecimal(Abs(e));
    PaddedValue(d);
    assert "" + d == d;
    assert AllDigits(padded) by { assert forall i :: 0 <= i < |padded| ==> padded[i] in padded; }
    assert GoExponent(e) == Sign(e) + padded;
    assert GoExponent(e) + rest == Sign(e) + (padded + rest);
    SignedExponent(GoExponent(e) + rest, e < 0, padded, rest);
  }

  lemma {:induction false} NoExponent(rest: string)
    requires Stops(rest)
    ensures ReadExponent(rest) == Some((0, rest))
  {
  }

  lemma {:induction false} FixedReads(negative: bool, digits: string, point: int, rest: string)
    requires Proper(Number(negative, digits, point)) && Stops(rest)
    ensures ReadMagnitude(Fixed(digits, point) + rest, negative) == Some((Number(negative, digits, point), rest))
  {
    hide Normalized, ReadMagnitude, ReadExponent, LeadingZeros, TrimRight;
    if digits == "" {
      NoExponent(rest);
      PartsRead(negative, "0", "", rest, 0, rest);
      assert "0" + "" + rest == "0" + rest && "0" + "" == "0";
      ZeroIs(negative);
    } else if point <= 0 {
      SmallReads(negative, digits, point, rest);
    } else if |digits| <= point {
      LargeReads(negative, digits, point, rest);
    } else {
      MiddleReads(negative, digits, point, rest);
    }
  }

  lemma {:induction false} LargeReads(negative: bool, digits: string, point: int, rest: string)
    requires Proper(Number(negative, digits, point)) && Stops(rest) && digits != "" && |digits| <= point
    ensures ReadMagnitude(Fixed(digits, point) + rest, negative) == Some((Number(negative, digits, point), rest))
  {
    hide Normalized, ReadMagnitude, ReadExponent, LeadingZeros, TrimRight;
    assert AllDigits(digits) by { assert forall i :: 0 <= i < |digits| ==> digits[i] in digits; }
    NoExponent(rest);
    var whole := digits + Zeros(point - |digits|);
    assert whole[0] == digits[0];
    PartsRead(negative, whole, "", rest, 0, rest);
    assert whole + "" + rest == whole + rest && whole + "" == whole;
    assert Zeros(0) + digits + Zeros(point - |digits|) == whole;
    NormalizedIs(negative, 0, digits, point - |digits|, point);
  }

  lemma {:induction false} MiddleParts(digits: string, point: int)
    requires (forall c :: c in digits ==> IsDigit(c)) && 0 < point < |digits|
    ensures AllDigits(digits[..point]) && AllDigits(digits[point..]) && digits[..point] + digits[point..] == digits
    ensures digits[..point][0] == digits[0] && digits[point..] != ""
  {
    assert forall i :: 0 <= i < |digits| ==> digits[i] in digits;
  }

  lemma {:induction false} MiddleReads(negative: bool, digits: string, point: int, rest: string)
    requires Proper(Number(negative, digits, point)) && Stops(rest) && 0 < point < |digits|
    ensures ReadMagnitude(Fixed(digits, point) + rest, negative) == Some((Number(negative, digits, point), rest))
  {
    hide Normalized, ReadMagnitude, ReadExponent, LeadingZeros, TrimRight, AllDigits;
    NoExponent(rest);
    var whole, fraction := digits[..point], digits[point..];
    MiddleParts(digits, point);
    PartsRead(negative, whole, fraction, rest, 0, rest);
    Regrouped(whole, fraction, rest);
    NormalizedIs(negative, 0, digits, 0, point);
    assert Zeros(0) + digits + Zeros(0) == digits;
  }

  lemma {:induction false} Regrouped(a: string, b: string, c: string)
    ensures a + ("." + b) + c == a + "." + b + c
  {
  }

  lemma {:induction false} ZerosAreDigits(k: nat)
    ensures AllDigits(Zeros(k))
  {
  }

  lemma {:induction false} ZeroIs(negative: bool)
    ensures Normalized(negative, "0", 1) == Number(negative, "", 0)
  {
    assert "0"[1..] == "";
    assert LeadingZeros("0") == 1;
  }

  lemma {:induction false} SmallSpelled(z: string, d: string, rest: string)
    ensures "0" + ("." + (z + d)) + rest == "0." + z + d + rest
  {
  }

  lemma {:induction false} OneMoreZero(k: nat, d: string)
    ensures "0" + (Zeros(k) + d) == Zeros(k + 1) + d + Zeros(0)
  {
    var a, b := "0" + (Zeros(k) + d), Zeros(k + 1) + d + Zeros(0);
    assert forall i :: 0 <= i < |a| ==> a[i] == b[i];
  }

  lemma {:induction false} SmallReads(negative: bool, digits: string, point: int, rest: string)
    requires Proper(Number(negative, digits, point)) && Stops(rest) && digits != "" && point <= 0
    ensures ReadMagnitude(Fixed(digits, point) + rest, negative) == Some((Number(negative, digits, point), rest))
  {
    hide Normalized, ReadMagnitude, ReadExponent, LeadingZeros, TrimRight;
    assert AllDigits(digits) by { assert forall i :: 0 <= i < |digits| ==> digits[i] in digits; }
    var fraction := Zeros(-point) + digits;
    ZerosAreDigits(-point);
    assert AllDigits(fraction);
    NoExponent(rest);
    PartsRead(negative, "0", fraction, rest, 0, rest);
    SmallSpelled(Zeros(-point), digits, rest);
    OneMoreZero(-point, digits);
    NormalizedIs(negative, -point + 1, digits, 0, 1);
  }

  lemma {:induction false} MantissaReads(negative: bool, digits: string, point: int, e: string, rest: string)
    requires Proper(Number(negative, digits, point)) && Stops(rest) && digits != ""
    requires e != "" && e[0] == 'e' && ReadExponent(e + rest) == Some((point - 1, rest))
    ensures ReadMagnitude(Mantissa(digits) + e + rest, negative) == Some((Number(negative, digits, point), rest))
  {
    hide Normalized, ReadMagnitude, ReadExponent, LeadingZeros, TrimRight, AllDigits;
    var whole, fraction := [digits[0]], digits[1..];
    FirstAndRest(digits);
    PartsRead(negative, whole, fraction, e + rest, point - 1, rest);
    assert whole + (if fraction != "" then "." + fraction else "") == Mantissa(digits);
    Regroup(Mantissa(digits), e, rest);
    NormalizedIs(negative, 0, digits, 0, point);
    assert Zeros(0) + digits + Zeros(0) == digits;
  }

  lemma {:induction false} FirstAndRest(digits: string)
    requires digits != "" && forall c :: c in digits ==> IsDigit(c)
    ensures AllDigits([digits[0]]) && AllDigits(digits[1..]) && [digits[0]] + digits[1..] == digits
  {
    assert forall i :: 0 <= i < |digits| ==> digits[i] in digits;
  }

  lemma {:induction false} ExponentStarts(e: int)
    ensures JsExponent(e) != "" && JsExponent(e)[0] == 'e' && GoExponent(e) != "" && GoExponent(e)[0] == 'e'
  {
    assert Sign(e)[0] == 'e';
  }

  lemma {:induction false} Regroup(a: string, b: string, c: string)
    ensures a + b + c == a + (b + c)
  {
  }

  lemma {:induction false} MagnitudeReads(negative: bool, digits: string, point: int, rest: string)
    requires Proper(Number(negative, digits, point)) && Stops(rest)
    ensures ReadMagnitude(JsMagnitude(digits, point) + rest, negative) == Some((Number(negative, digits, point), rest))
  {
    hide ReadMagnitude, Fixed, Mantissa, JsExponent;
    if digits != "" && !(-6 < point <= 21) {
      ExponentStarts(point - 1);
      ExponentReads(point - 1, rest);
      MantissaReads(negative, digits, point, JsExponent(point - 1), rest);
    } else {
      FixedReads(negative, digits, point, rest);
    }
  }

  lemma {:induction false} MagnitudeStarts(digits: string, point: int)
    requires forall c :: c in digits ==> IsDigit(c)
    ensures JsMagnitude(digits, point) != "" && IsDigit(JsMagnitude(digits, point)[0])
  {
    if digits != "" { assert digits[0] in digits; }
  }

  lemma {:induction false} NumberReads(n: Number, rest: string)
    requires Proper(n) && Stops(rest)
    ensures ReadNumber(Numbers.JsonText(n) + rest) == Some((n, rest))
    ensures Numbers.JsonText(n) != "" && (IsDigit(Numbers.JsonText(n)[0]) || Numbers.JsonText(n)[0] == '-')
  {
    hide ReadMagnitude, JsMagnitude;
    var m := JsMagnitude(n.digits, n.point);
    MagnitudeReads(n.negative, n.digits, n.point, rest);
    MagnitudeStarts(n.digits, n.point);
    if n.negative {
      assert ("-" + m + rest)[1..] == m + rest;
    } else {
      assert "" + m == m;
    }
  }

  /** The default Go format, too, is read as the number it prints. */
  lemma {:induction false} GoNumberReads(n: Number, rest: string)
    requires Proper(n) && Stops(rest)
    ensures ReadNumber(GoText(n) + rest) == Some((n, rest))
  {
    hide ReadMagnitude, GoMagnitude;
    var m := GoMagnitude(n.digits, n.point);
    GoMagnitudeReads(n.negative, n.digits, n.point, rest);
    if n.negative {
      assert ("-" + m + rest)[1..] == m + rest;
    } else {
      assert "" + m == m;
      GoMagnitudeStarts(n.digits, n.point);
    }
  }

  lemma {:induction false} GoMagnitudeStarts(digits: string, point: int)
    requires forall c :: c in digits ==> IsDigit(c)
    ensures GoMagnitude(digits, point) != "" && IsDigit(GoMagnitude(digits, point)[0])
  {
    if digits != "" { assert digits[0] in digits; }
  }

  lemma {:induction false} GoMagnitudeReads(negative: bool, digits: string, point: int, rest: string)
    requires Proper(Number(negative, digits, point)) && Stops(rest)
    ensures ReadMagnitude(GoMagnitude(digits, point) + rest, negative) == Some((Number(negative, digits, point), rest))
  {
    hide ReadMagnitude, Fixed, Mantissa, GoExponent;
    if digits != "" && (point - 1 < -4 || point - 1 >= 6) {
      ExponentStarts(point - 1);
      PaddedExponentReads(point - 1, rest);
      MantissaReads(negative, digits, point, GoExponent(point - 1), rest);
    } else {
      FixedReads(negative, digits, point, rest);
    }
  }

  // ----- documents

  /** A document as the marshaller lists it: members in key order, at every level. */
  function Canonical(v: Json): Json
    decreases v
  {
    match v
    case Arr(items) => Arr(CanonicalItems(items))
    case Obj(fields) => Obj(CanonicalFields(v, Sorted(fields)))
    case _ => v
  }

  function CanonicalItems(items: seq<Json>): (r: seq<Json>)
    ensures |r| == |items|
    decreases items
  {
    if items == [] then [] else [Canonical(items[0])] + CanonicalItems(items[1..])
  }

  function CanonicalFields(owner: Json, fields: seq<Field>): (r: seq<Field>)
    requires owner.Obj? && forall f :: f in fields ==> f in owner.fields
    ensures |r| == |fields|
    decreases owner, 0, |fields|
  {
    if fields == [] then []
    else
      var f := fields[0];
      assert f in owner.fields && f.value < f < owner;
      [Field(f.name, Canonical(f.value))] + CanonicalFields(owner, fields[1..])
  }

  lemma {:induction false} MarshalStarts(v: Json)
    requires Decoded(v)
    ensures
      var m := Marshal(v);
      m != "" && !IsSpace(m[0]) && m[0] != ']' && m[0] != '}'
    ensures v.Num? ==> IsDigit(Marshal(v)[0]) || Marshal(v)[0] == '-'
  {
    if v.Num? { NumberReads(v.n, ""); }
  }

  /** A marshalled value, in front of what may follow one, is read as the canonical value. */
  lemma {:induction false} MarshalReads(v: Json, rest: string)
    requires Decoded(v) && Stops(rest)
    ensures ReadValue(Marshal(v) + rest) == Some((Canonical(v), rest))
    decreases v, 1
  {
    MarshalStarts(v);
    var s := Marshal(v) + rest;
    match v {
      case Null => assert s[..4] == "null" && s[4..] == rest;
      case Bool(b) => BoolReads(b, rest);
      case Num(n) => NumReads(n, rest);
      case Str(chars) => StringReads(chars, rest);
      case Arr(items) => ArrayReads(items, rest);
      case Obj(fields) => ObjectReads(v, rest);
    }
  }

  lemma {:induction false} BoolReads(b: bool, rest: string)
    ensures ReadValue(Marshal(Bool(b)) + rest) == Some((Bool(b), rest))
  {
    var s := Marshal(Bool(b)) + rest;
    if b {
      assert s[..4] == "true" && s[4..] == rest;
    } else {
      assert s[..5] == "false" && s[5..] == rest;
    }
  }

  lemma {:induction false} NumReads(n: Number, rest: string)
    requires Proper(n) && Stops(rest)
    ensures ReadValue(Marshal(Num(n)) + rest) == Some((Num(n), rest))
  {
    hide ReadNumber, Numbers.JsonText;
    NumberReads(n, rest);
    var s := Marshal(Num(n)) + rest;
    assert s[0] == Numbers.JsonText(n)[0];
    assert SkipSpace(s) == s;
  }

  lemma {:induction false} StringReads(chars: string, rest: string)
    ensures ReadValue(Quoted(chars) + rest) == Some((Str(chars), rest))
    ensures (Quoted(chars) + rest)[0] == '"' && ReadChars((Quoted(chars) + rest)[1..]) == Some((chars, rest))
  {
    hide ReadChars, Escape;
    EscapedReads(chars, rest);
    var s := Quoted(chars) + rest;
    assert s[1..] == Escape(chars) + "\"" + rest;
    assert s[0] == '"' && SkipSpace(s) == s;
  }

  lemma {:induction false} ItemsStart(items: seq<Json>)
    requires items != [] && forall i :: 0 <= i < |items| ==> Decoded(items[i])
    ensures
      var m := MarshalItems(items);
      m != "" && !IsSpace(m[0]) && m[0] != ']'
  {
    hide Marshal;
    MarshalStarts(items[0]);
    assert MarshalItems(items)[0] == Marshal(items[0])[0];
  }

  lemma {:induction false} ArrayReads(items: seq<Json>, rest: string)
    requires (forall i :: 0 <= i < |items| ==> Decoded(items[i])) && Stops(rest)
    ensures ReadValue(Marshal(Arr(items)) + rest) == Some((Arr(CanonicalItems(items)), rest))
    decreases items, 2
  {
    hide ReadItems, MarshalItems;
    var inside := MarshalItems(items) + "]" + rest;
    var s := Marshal(Arr(items)) + rest;
    assert s == "[" + inside;
    assert s[0] == '[' && s[1..] == inside && SkipSpace(s) == s;
    if items == [] {
      NoItems();
      assert inside == "]" + rest;
      assert inside[0] == ']' && inside[1..] == rest && SkipSpace(inside) == inside;
    } else {
      ItemsStart(items);
      assert inside[0] == MarshalItems(items)[0] && SkipSpace(inside) == inside;
      ItemsRead(items, rest);
    }
  }

  lemma {:induction false} NoItems()
    ensures MarshalItems([]) == ""
  {
  }

  lemma {:induction false} ItemsRead(items: seq<Json>, rest: string)
    requires items != [] && (forall i :: 0 <= i < |items| ==> Decoded(items[i]))
    ensures ReadItems(MarshalItems(items) + "]" + rest) == Some((CanonicalItems(items), rest))
    decreases items, 1
  {
    hide ReadValue, Marshal, Canonical;
    var s := MarshalItems(items) + "]" + rest;
    if |items| == 1 {
      NoItems();
      var after := "]" + rest;
      assert items[1..] == [] && s == Marshal(items[0]) + after;
      MarshalReads(items[0], after);
      assert after[0] == ']' && after[1..] == rest && SkipSpace(after) == after;
      assert CanonicalItems(items) == [Canonical(items[0])];
    } else {
      var more := MarshalItems(items[1..]) + "]" + rest;
      var after := "," + more;
      assert s == Marshal(items[0]) + after;
      MarshalReads(items[0], after);
      assert after[0] == ',' && after[1..] == more && SkipSpace(after) == after;
      ItemsRead(items[1..], rest);
    }
  }

  lemma {:induction false} FieldsStart(owner: Json, fields: seq<Field>)
    requires owner.Obj? && (forall f :: f in fields ==> f in owner.fields) && fields != []
    ensures MarshalFields(owner, fields) != "" && MarshalFields(owner, fields)[0] == '"'
  {
    hide Marshal, Escape;
  }

  lemma {:induction false} ObjectReads(v: Json, rest: string)
    requires v.Obj? && Decoded(v) && Stops(rest)
    ensures ReadValue(Marshal(v) + rest) == Some((Canonical(v), rest))
    decreases v, 0
  {
    hide ReadFields, MarshalFields, CanonicalFields, Sorted;
    var sorted := Sorted(v.fields);
    var inside := MarshalFields(v, sorted) + "}" + rest;
    var s := Marshal(v) + rest;
    assert s == "{" + inside;
    assert s[0] == '{' && s[1..] == inside && SkipSpace(s) == s;
    if sorted == [] {
      NoFields(v);
      assert inside == "}" + rest;
      assert inside[0] == '}' && inside[1..] == rest && SkipSpace(inside) == inside;
    } else {
      FieldsStart(v, sorted);
      assert inside[0] == '"' && SkipSpace(inside) == inside;
      FieldsRead(v, sorted, rest);
    }
  }

  lemma {:induction false} NoFields(owner: Json)
    requires owner.Obj?
    ensures MarshalFields(owner, []) == "" && CanonicalFields(owner, []) == []
  {
  }

  /** One member in front of what follows it. */
  lemma {:induction false} FieldReads(owner: Json, fields: seq<Field>, tail: string)
    requires owner.Obj? && (forall f :: f in fields ==> f in owner.fields) && fields != [] && Decoded(owner)
    ensures MarshalFields(owner, fields) + tail
         == Quoted(fields[0].name) + (":" + (Marshal(fields[0].value)
            + ((if |fields| > 1 then "," else "") + (MarshalFields(owner, fields[1..]) + tail))))
  {
    hide Marshal, Quoted;
    var name, value, rest := Quoted(fields[0].name), Marshal(fields[0].value), MarshalFields(owner, fields[1..]);
    FourParts(name, value, Comma(fields), rest, tail);
  }

  lemma {:induction false} FourParts(a: string, b: string, c: string, d: string, tail: string)
    ensures a + ":" + b + c + d + tail == a + (":" + (b + (c + (d + tail))))
  {
  }

  /** One round of the reader over members. */
  lemma {:induction false} ReadFieldsLast(s: string, name: string, text: string, v: Json, rest: string)
    requires s != "" && s[0] == '"' && ReadChars(s[1..]) == Some((name, ":" + text))
    requires ReadValue(text) == Some((v, "}" + rest))
    ensures ReadFields(s) == Some(([Field(name, v)], rest))
  {
    hide ReadChars, ReadValue;
    var colon, after := ":" + text, "}" + rest;
    assert SkipSpace(s) == s;
    assert colon[0] == ':' && colon[1..] == text && SkipSpace(colon) == colon;
    assert after[0] == '}' && after[1..] == rest && SkipSpace(after) == after;
  }

  lemma {:induction false} ReadFieldsMore(
      s: string, name: string, text: string, v: Json, more: string, fields: seq<Field>, rest: string)
    requires s != "" && s[0] == '"' && ReadChars(s[1..]) == Some((name, ":" + text))
    requires ReadValue(text) == Some((v, "," + more)) && ReadFields(more) == Some((fields, rest))
    ensures ReadFields(s) == Some(([Field(name, v)] + fields, rest))
  {
    hide ReadChars, ReadValue;
    var colon, after := ":" + text, "," + more;
    assert SkipSpace(s) == s;
    assert colon[0] == ':' && colon[1..] == text && SkipSpace(colon) == colon;
    assert after[0] == ',' && after[1..] == more && SkipSpace(after) == after;
  }

  lemma {:induction false} FieldsRead(owner: Json, fields: seq<Field>, rest: string)
    requires owner.Obj? && (forall f :: f in fields ==> f in owner.fields) && fields != [] && Decoded(owner)
    ensures ReadFields(MarshalFields(owner, fields) + "}" + rest) == Some((CanonicalFields(owner, fields), rest))
    decreases owner, 0, |fields|
  {
    hide ReadValue, Marshal, Canonical, ReadChars, Quoted, MarshalFields, ReadFields, SkipSpace;
    var f := fields[0];
    assert f in owner.fields && f.value < f < owner;
    var tail := "}" + rest;
    var s := MarshalFields(owner, fields) + "}" + rest;
    assert s == MarshalFields(owner, fields) + tail;
    FieldReads(owner, fields, tail);
    var after := (if |fields| > 1 then "," else "") + (MarshalFields(owner, fields[1..]) + tail);
    StringReads(f.name, ":" + (Marshal(f.value) + after));
    assert s == Quoted(f.name) + (":" + (Marshal(f.value) + after));
    if |fields| == 1 {
      NoFields(owner);
      assert fields[1..] == [] && after == tail;
      MarshalReads(f.value, tail);
      ReadFieldsLast(s, f.name, Marshal(f.value) + tail, Canonical(f.value), rest);
      assert CanonicalFields(owner, fields) == [Field(f.name, Canonical(f.value))];
    } else {
      var more := MarshalFields(owner, fields[1..]) + "}" + rest;
      assert after == "," + more;
      MarshalReads(f.value, after);
      FieldsRead(owner, fields[1..], rest);
      ReadFieldsMore(s, f.name, Marshal(f.value) + after, Canonical(f.value), more,
                     CanonicalFields(owner, fields[1..]), rest);
    }
  }

  // ----- the canonical document is the same document

  lemma {:induction false} CanonicalFind(owner: Json, fields: seq<Field>, f: Field)
    requires owner.Obj? && (forall g :: g in fields ==> g in owner.fields) && f in fields
    requires forall g :: g in fields && g.name == f.name ==> g == f
    ensures Find(CanonicalFields(owner, fields), f.name) == Some(Canonical(f.value))
    decreases |fields|
  {
    hide Canonical;
    var c := CanonicalFields(owner, fields);
    assert c[0].name == fields[0].name && c[1..] == CanonicalFields(owner, fields[1..]);
    if fields[0].name != f.name {
      assert f in fields[1..] by { assert fields == [fields[0]] + fields[1..]; }
      CanonicalFind(owner, fields[1..], f);
    } else {
      assert fields[0] == f;
    }
  }

  lemma {:induction false} CanonicalNames(owner: Json, fields: seq<Field>, i: nat)
    requires owner.Obj? && (forall g :: g in fields ==> g in owner.fields) && i < |fields|
    ensures CanonicalFields(owner, fields)[i].name == fields[i].name
  {
    hide Canonical;
    if i > 0 { CanonicalNames(owner, fields[1..], i - 1); }
  }

  lemma {:induction false} FindMember(fields: seq<Field>, f: Field)
    requires f in fields
    ensures Find(fields, f.name).Some?
  {
    if fields[0].name != f.name { FindMember(fields[1..], f); }
  }

  lemma {:induction false} CanonicalIsSame(v: Json)
    requires DistinctNames(v)
    ensures SameDocument(v, Canonical(v))
    decreases v
  {
    match v {
      case Arr(items) =>
        forall i | 0 <= i < |items|
          ensures SameDocument(items[i], CanonicalItems(items)[i])
        {
          CanonicalItemAt(items, i);
          CanonicalIsSame(items[i]);
        }
      case Obj(fields) =>
        var sorted := Sorted(fields);
        var c := CanonicalFields(v, sorted);
        forall i | 0 <= i < |c|
          ensures Find(fields, c[i].name).Some?
        {
          CanonicalNames(v, sorted, i);
          FindMember(fields, sorted[i]);
        }
        forall i | 0 <= i < |fields|
          ensures Find(c, fields[i].name) == Some(Canonical(fields[i].value))
          ensures SameDocument(fields[i].value, Canonical(fields[i].value))
        {
          CanonicalFind(v, sorted, fields[i]);
          CanonicalIsSame(fields[i].value);
        }
      case _ =>
    }
  }

  lemma {:induction false} CanonicalItemAt(items: seq<Json>, i: nat)
    requires i < |items|
    ensures CanonicalItems(items)[i] == Canonical(items[i])
  {
    hide Canonical;
    if i > 0 { CanonicalItemAt(items[1..], i - 1); }
  }

  /** A text that denotes a document: it is JSON, and reads as the document up to the order of members. */
  ghost predicate Denotes(text: string, v: Json)
  {
    ReadDocument(text).Some? && SameDocument(v, ReadDocument(text).value)
  }

  /** A marshalled document denotes the document. */
  lemma {:induction false} MarshalDenotes(v: Json)
    requires Decoded(v) && DistinctNames(v)
    ensures Denotes(Marshal(v), v)
  {
    MarshalReads(v, "");
    assert Marshal(v) + "" == Marshal(v);
    CanonicalIsSame(v);
  }
}
