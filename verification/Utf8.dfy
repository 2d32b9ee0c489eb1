/** UTF-8 as Go's decoder sees it, and what a trip through a JSON column does to a text. */
module Utf8 {
  import opened Text

  predicate Between(c: char, low: int, high: int) { low <= c as int <= high }

  /** A continuation byte. */
  predicate Continues(c: char) { Between(c, 0x80, 0xBF) }

  /** The second byte of a three- or four-byte rune: no overlong forms, no surrogates, nothing above U+10FFFF. */
  predicate SecondOk(first: char, second: char)
  {
    if first as int == 0xE0 then Between(second, 0xA0, 0xBF)
    else if first as int == 0xED then Between(second, 0x80, 0x9F)
    else if first as int == 0xF0 then Between(second, 0x90, 0xBF)
    else if first as int == 0xF4 then Between(second, 0x80, 0x8F)
    else Continues(second)
  }

  /** The size of the rune a text starts with; 0 if its first byte starts none. */
  function RuneSize(s: string): (n: nat)
    requires s != ""
    ensures n <= |s| && n <= 4
    ensures forall i :: 1 <= i < n ==> Continues(s[i])
  {
    if Between(s[0], 0x00, 0x7F) then 1
    else if Between(s[0], 0xC2, 0xDF) then if |s| >= 2 && Continues(s[1]) then 2 else 0
    else if Between(s[0], 0xE0, 0xEF) then if |s| >= 3 && SecondOk(s[0], s[1]) && Continues(s[2]) then 3 else 0
    else if Between(s[0], 0xF0, 0xF4) then
      if |s| >= 4 && SecondOk(s[0], s[1]) && Continues(s[2]) && Continues(s[3]) then 4 else 0
    else 0
  }

  predicate ValidUtf8(s: string)
    decreases |s|
  {
    s == "" || (RuneSize(s) > 0 && ValidUtf8(s[RuneSize(s)..]))
  }

  /** U+FFFD. */
  const REPLACEMENT: string := [0xEF as char, 0xBF as char, 0xBD as char]

  /** What `json.Marshal` and `json.Unmarshal` in turn make of a text: every byte that belongs to no rune becomes
      U+FFFD. */
  function Coerced(s: string): string
    decreases |s|
  {
    if s == "" then ""
    else
      var n := RuneSize(s);
      if n > 0 then s[..n] + Coerced(s[n..]) else REPLACEMENT + Coerced(s[1..])
  }

  lemma {:induction false} CoercedLength(s: string)
    ensures |Coerced(s)| >= |s|
    ensures |Coerced(s)| == |s| ==> ValidUtf8(s)
    decreases |s|
  {
    if s != "" {
      var n := RuneSize(s);
      CoercedLength(s[if n > 0 then n else 1..]);
    }
  }

  lemma {:induction false} CoercedKeeps(s: string)
    requires ValidUtf8(s)
    ensures Coerced(s) == s
    decreases |s|
  {
    if s != "" {
      CoercedKeeps(s[RuneSize(s)..]);
      assert s == s[..RuneSize(s)] + s[RuneSize(s)..];
    }
  }

  /** The column gives a text back unchanged exactly when it is valid UTF-8. */
  lemma {:induction false} CoercedExactly(s: string)
    ensures Coerced(s) == s <==> ValidUtf8(s)
  {
    CoercedLength(s);
    if ValidUtf8(s) { CoercedKeeps(s); }
  }

  // ----- joining and cutting valid texts

  lemma {:induction false} RuneOfPrefix(a: string, b: string)
    requires a != "" && RuneSize(a) > 0
    ensures RuneSize(a + b) == RuneSize(a)
  {
    assert forall i :: 0 <= i < |a| ==> (a + b)[i] == a[i];
  }

  lemma {:induction false} ValidJoin(a: string, b: string)
    requires ValidUtf8(a)
    ensures ValidUtf8(a + b) <==> ValidUtf8(b)
    decreases |a|
  {
    if a == "" {
      assert a + b == b;
    } else {
      var n := RuneSize(a);
      RuneOfPrefix(a, b);
      assert (a + b)[n..] == a[n..] + b;
      ValidJoin(a[n..], b);
    }
  }

  lemma {:induction false} AsciiIsValid(s: string)
    requires forall c :: c in s ==> Between(c, 0x00, 0x7F)
    ensures ValidUtf8(s)
  {
    if s != "" {
      assert s[0] in s;
      AsciiIsValid(s[1..]);
    }
  }

  lemma {:induction false} ValidStarts(v: string)
    requires v != "" && ValidUtf8(v)
    ensures !Continues(v[0])
  {
  }

  /** A scan for a valid text that does not match at a rune passes over the whole rune. */
  lemma {:induction false} RuneSkipped(s: string, v: string, w: string)
    requires s != "" && RuneSize(s) > 0 && v != "" && !Continues(v[0]) && !(v <= s)
    ensures ReplaceAll(s, v, w) == s[..RuneSize(s)] + ReplaceAll(s[RuneSize(s)..], v, w)
  {
    var n := RuneSize(s);
    var more := ReplaceAll(s[n..], v, w);
    hide RuneSize;
    assert s[1..] == s[1..n] + s[n..];
    assert forall c :: c in s[1..n] ==> Continues(c);
    SkipWithout(s[1..n], s[n..], v, w);
    assert [s[0]] + (s[1..n] + more) == s[..n] + more;
  }

  /** Replacing one valid text by another keeps a text valid: a match never starts or ends inside a rune. */
  lemma {:induction false} ReplaceKeepsValid(s: string, v: string, w: string)
    requires ValidUtf8(s) && v != "" && ValidUtf8(v) && ValidUtf8(w)
    ensures ValidUtf8(ReplaceAll(s, v, w))
    decreases |s|
  {
    hide RuneSize;
    if s == "" {
    } else if v <= s {
      assert s == v + s[|v|..];
      ValidJoin(v, s[|v|..]);
      ReplaceKeepsValid(s[|v|..], v, w);
      ValidJoin(w, ReplaceAll(s[|v|..], v, w));
    } else {
      var n := RuneSize(s);
      ValidStarts(v);
      RuneSkipped(s, v, w);
      ReplaceKeepsValid(s[n..], v, w);
      RuneIsValid(s);
      ValidJoin(s[..n], ReplaceAll(s[n..], v, w));
    }
  }

  lemma {:induction false} RuneIsValid(s: string)
    requires s != "" && RuneSize(s) > 0
    ensures ValidUtf8(s[..RuneSize(s)])
  {
    var r := s[..RuneSize(s)];
    assert RuneSize(r) == RuneSize(s) && r[RuneSize(r)..] == "";
  }

  // ----- what valid UTF-8 is: section 3 of RFC 3629

  /** The UTF-8 bytes of a code point. */
  function Bytes(n: nat): string
    requires n < 0x11_0000
  {
    if n < 0x80 then [n as char]
    else if n < 0x800 then [(0xC0 + n / 64) as char, (0x80 + n % 64) as char]
    else if n < 0x1_0000 then [(0xE0 + n / 4096) as char, (0x80 + n / 64 % 64) as char, (0x80 + n % 64) as char]
    else [(0xF0 + n / 262144) as char, (0x80 + n / 4096 % 64) as char, (0x80 + n / 64 % 64) as char,
          (0x80 + n % 64) as char]
  }

  /** A code point that is no surrogate. */
  predicate IsScalar(n: int) { 0 <= n < 0xD800 || 0xE000 <= n < 0x11_0000 }

  predicate Scalars(ns: seq<nat>) { forall i :: 0 <= i < |ns| ==> IsScalar(ns[i]) }

  function Encoded(ns: seq<nat>): string
    requires Scalars(ns)
  {
    if ns == [] then "" else Bytes(ns[0]) + Encoded(ns[1..])
  }

  lemma {:induction false} EncodedStarts(n: nat, rest: string)
    requires IsScalar(n)
    ensures RuneSize(Bytes(n) + rest) == |Bytes(n)|
  {
    if n < 0x80 {
    } else if n < 0x800 {
      assert 0xC2 <= 0xC0 + n / 64 <= 0xDF;
    } else if n < 0x1_0000 {
      ThreeBytes(n, rest);
    } else {
      FourBytes(n, rest);
    }
  }

  lemma {:induction false} ThreeBytes(n: nat, rest: string)
    requires IsScalar(n) && 0x800 <= n < 0x1_0000
    ensures RuneSize(Bytes(n) + rest) == 3
  {
    var x, y := n / 4096, n / 64 % 64;
    assert x == 0 ==> y >= 32;
    assert x == 13 ==> y < 32;
    var s := Bytes(n) + rest;
    assert s[0] as int == 0xE0 + x && s[1] as int == 0x80 + y;
  }

  lemma {:induction false} FourBytes(n: nat, rest: string)
    requires IsScalar(n) && n >= 0x1_0000
    ensures RuneSize(Bytes(n) + rest) == 4
  {
    var x, y := n / 262144, n / 4096 % 64;
    assert x == 0 ==> y >= 16;
    assert x == 4 ==> y < 16;
    var s := Bytes(n) + rest;
    assert s[0] as int == 0xF0 + x && s[1] as int == 0x80 + y;
  }

  lemma {:induction false} TwoBack(a: nat, b: nat)
    requires b < 64
    ensures (a * 64 + b) / 64 == a && (a * 64 + b) % 64 == b
  {
  }

  /** The rune a text starts with is the encoding of a code point. */
  lemma {:induction false} RuneDecodes(s: string) returns (n: nat)
    requires s != "" && RuneSize(s) > 0
    ensures IsScalar(n) && Bytes(n) == s[..RuneSize(s)]
  {
    var a := s[0] as int;
    if RuneSize(s) == 1 {
      n := a;
    } else if RuneSize(s) == 2 {
      n := (a - 0xC0) * 64 + (s[1] as int - 0x80);
    } else if RuneSize(s) == 3 {
      n := ThreeDecode(s);
    } else {
      n := FourDecode(s);
    }
  }

  lemma {:induction false} ThreeDecode(s: string) returns (n: nat)
    requires s != "" && RuneSize(s) == 3
    ensures IsScalar(n) && Bytes(n) == s[..3]
  {
    var a, b, c := s[0] as int - 0xE0, s[1] as int - 0x80, s[2] as int - 0x80;
    n := (a * 64 + b) * 64 + c;
    assert 0 <= a < 16 && 0 <= b < 64 && 0 <= c < 64;
    assert a == 0 ==> b >= 32;
    assert a == 13 ==> b < 32;
    TwoBack(a * 64 + b, c);
    TwoBack(a, b);
    assert n / 4096 == a;
    assert s[..3] == [s[0], s[1], s[2]];
  }

  lemma {:induction false} FourDecode(s: string) returns (n: nat)
    requires s != "" && RuneSize(s) == 4
    ensures IsScalar(n) && Bytes(n) == s[..4]
  {
    var a, b, c, d := s[0] as int - 0xF0, s[1] as int - 0x80, s[2] as int - 0x80, s[3] as int - 0x80;
    n := ((a * 64 + b) * 64 + c) * 64 + d;
    assert 0 <= a < 5 && 0 <= b < 64 && 0 <= c < 64 && 0 <= d < 64;
    assert a == 0 ==> b >= 16;
    assert a == 4 ==> b < 16;
    TwoBack((a * 64 + b) * 64 + c, d);
    TwoBack(a * 64 + b, c);
    TwoBack(a, b);
    assert n / 4096 == a * 64 + b && n / 262144 == a;
    assert s[..4] == [s[0], s[1], s[2], s[3]];
  }

  lemma {:induction false} EncodedIsValid(ns: seq<nat>)
    requires Scalars(ns)
    ensures ValidUtf8(Encoded(ns))
  {
    hide Bytes, RuneSize;
    if ns != [] {
      var rest := Encoded(ns[1..]);
      EncodedIsValid(ns[1..]);
      EncodedStarts(ns[0], rest);
      BytesNotEmpty(ns[0]);
      assert (Bytes(ns[0]) + rest)[|Bytes(ns[0])|..] == rest;
    }
  }

  lemma {:induction false} BytesNotEmpty(n: nat)
    requires IsScalar(n)
    ensures 1 <= |Bytes(n)| <= 4
  {
  }

  lemma {:induction false} ValidDecodes(s: string) returns (ns: seq<nat>)
    requires ValidUtf8(s)
    ensures Scalars(ns) && Encoded(ns) == s
    decreases |s|
  {
    hide Bytes, RuneSize;
    if s == "" {
      ns := [];
    } else {
      var k := RuneSize(s);
      var more := ValidDecodes(s[k..]);
      var n := RuneDecodes(s);
      ns := [n] + more;
      assert ns[1..] == more && s[..k] + s[k..] == s;
    }
  }

  /** The valid texts are the encodings of sequences of code points that are no surrogates. */
  lemma {:induction false} ValidExactly(s: string)
    ensures ValidUtf8(s) <==> exists ns :: Scalars(ns) && Encoded(ns) == s
  {
    if ValidUtf8(s) { var ns := ValidDecodes(s); }
    if ns :| Scalars(ns) && Encoded(ns) == s { EncodedIsValid(ns); }
  }

  /** No code point's encoding starts the text. */
  ghost predicate StartsNoRune(s: string)
  {
    forall n: nat :: IsScalar(n) ==> !(Bytes(n) <= s)
  }

  lemma {:induction false} NoRuneExactly(s: string)
    requires s != ""
    ensures RuneSize(s) == 0 <==> StartsNoRune(s)
  {
    hide Bytes, RuneSize;
    if RuneSize(s) > 0 {
      var n := RuneDecodes(s);
      assert Bytes(n) <= s;
    }
    if n: nat :| IsScalar(n) && Bytes(n) <= s {
      EncodedStarts(n, s[|Bytes(n)|..]);
      BytesNotEmpty(n);
      assert Bytes(n) + s[|Bytes(n)|..] == s;
    }
  }

  lemma {:induction false} CoercedRune(a: string, b: string)
    requires ValidUtf8(a) && a != ""
    ensures 0 < RuneSize(a) <= |a| && ValidUtf8(a[RuneSize(a)..])
    ensures Coerced(a + b) == a[..RuneSize(a)] + Coerced(a[RuneSize(a)..] + b)
  {
    var k := RuneSize(a);
    assert RuneSize(a + b) == k;
    assert (a + b)[..k] == a[..k] && (a + b)[k..] == a[k..] + b;
  }

  lemma {:induction false} CoercedBad(b: string)
    requires b != "" && StartsNoRune(b)
    ensures Coerced(b) == Bytes(0xFFFD) + Coerced(b[1..])
  {
    hide StartsNoRune, RuneSize;
    NoRuneExactly(b);
    assert Bytes(0xFFFD) == REPLACEMENT;
  }

  /** After valid text, a byte that starts no code point becomes U+FFFD, and the rest is treated alike. */
  lemma {:induction false} CoercedAt(a: string, b: string)
    requires ValidUtf8(a) && b != "" && StartsNoRune(b)
    ensures Coerced(a + b) == a + (Bytes(0xFFFD) + Coerced(b[1..]))
    decreases |a|
  {
    hide RuneSize, StartsNoRune, Bytes, Coerced, ValidUtf8;
    if a == "" {
      CoercedBad(b);
      assert a + b == b;
    } else {
      CoercedRune(a, b);
      var k := RuneSize(a);
      CoercedAt(a[k..], b);
      Halves(a, k, Bytes(0xFFFD) + Coerced(b[1..]));
    }
  }

  lemma {:induction false} Halves(a: string, k: nat, rest: string)
    requires k <= |a|
    ensures a[..k] + (a[k..] + rest) == a + rest
  {
  }
}
