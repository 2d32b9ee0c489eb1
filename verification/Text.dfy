/** Go string operations on byte strings: a `char` stands for one byte. */
module Text {

  /** `strings.Contains`. */
  predicate Contains(s: string, sub: string)
  {
    sub <= s || (|s| > 0 && Contains(s[1..], sub))
  }

  function LowerChar(c: char): char
  {
    if 'A' <= c <= 'Z' then (c as int + 32) as char else c
  }

  /** `strings.ToLower` on ASCII letters. */
  function Lower(s: string): string
  {
    if s == "" then "" else [LowerChar(s[0])] + Lower(s[1..])
  }

  /** `strings.ReplaceAll` for a non-empty `old`: leftmost, non-overlapping, inserted text is not rescanned. */
  function ReplaceAll(s: string, old_: string, new_: string): string
    requires |old_| > 0
    decreases |s|
  {
    if s == "" then ""
    else if old_ <= s then new_ + ReplaceAll(s[|old_|..], old_, new_)
    else [s[0]] + ReplaceAll(s[1..], old_, new_)
  }

  /** `strings.Split` on a one-character separator. */
  function Split(s: string, sep: char): (parts: seq<string>)
    ensures |parts| > 0
  {
    if s == "" then [""]
    else
      var rest := Split(s[1..], sep);
      if s[0] == sep then [""] + rest
      else [[s[0]] + rest[0]] + rest[1..]
  }

  /** How often a character occurs. */
  function Count(s: string, c: char): nat
  {
    if s == "" then 0 else (if s[0] == c then 1 else 0) + Count(s[1..], c)
  }

  /** `strings.Index` of a character; `|s|` stands for "absent". */
  function IndexOf(s: string, c: char): (i: nat)
    ensures i <= |s|
    ensures c !in s[..i]
    ensures i < |s| ==> s[i] == c
  {
    if s == "" || s[0] == c then 0 else
      var i := IndexOf(s[1..], c) + 1;
      assert s[..i] == [s[0]] + s[1..][..i - 1];
      i
  }

  function TrimLeft(s: string, c: char): string
  {
    if s != "" && s[0] == c then TrimLeft(s[1..], c) else s
  }

  function TrimRight(s: string, c: char): string
  {
    if s != "" && s[|s| - 1] == c then TrimRight(s[..|s| - 1], c) else s
  }

  function Digit(d: nat): char
    requires d < 10
  {
    "0123456789"[d]
  }

  predicate IsDigit(c: char) { '0' <= c <= '9' }

  function DigitValue(c: char): (d: nat)
    requires IsDigit(c)
    ensures d < 10
  {
    c as int - '0' as int
  }

  /** `strconv.Itoa` for a natural number. */
  function Decimal(n: nat): (s: string)
    ensures |s| > 0
    ensures forall c :: c in s ==> IsDigit(c)
  {
    if n < 10 then [Digit(n)] else Decimal(n / 10) + [Digit(n % 10)]
  }

  /** The number a run of digits denotes. */
  function Value(s: string): nat
    requires forall c :: c in s ==> IsDigit(c)
  {
    if s == "" then 0 else Value(s[..|s| - 1]) * 10 + DigitValue(s[|s| - 1])
  }

  lemma {:induction false} ValueOfDecimal(n: nat)
    ensures Value(Decimal(n)) == n
  {
    if n >= 10 {
      ValueOfDecimal(n / 10);
      assert Decimal(n)[..|Decimal(n)| - 1] == Decimal(n / 10);
    }
  }

  lemma {:induction false} PaddedValue(d: string)
    requires |d| > 0 && forall c :: c in d ==> IsDigit(c)
    ensures forall c :: c in "0" + d ==> IsDigit(c)
    ensures Value("0" + d) == Value(d)
  {
    if |d| > 1 {
      PaddedValue(d[..|d| - 1]);
      assert ("0" + d)[..|d|] == "0" + d[..|d| - 1];
    } else {
      assert ("0" + d)[..1] == "0" && "0"[..0] == "" && d[..0] == "";
    }
  }

  lemma {:induction false} ContainsAt(s: string, sub: string, i: nat)
    requires i <= |s| && sub <= s[i..]
    ensures Contains(s, sub)
  {
    if i > 0 {
      assert s[1..][i - 1..] == s[i..];
      ContainsAt(s[1..], sub, i - 1);
    }
  }

  lemma {:induction false} TooShort(s: string, sub: string)
    requires |s| < |sub|
    ensures !Contains(s, sub)
  {
    if s != "" { TooShort(s[1..], sub); }
  }

  lemma {:induction false} PrefixLetter(s: string, sub: string, c: char)
    requires c in sub
    ensures sub <= s ==> c in s
  {
    var i :| 0 <= i < |sub| && sub[i] == c;
    assert sub <= s ==> s[i] == c;
  }

  lemma {:induction false} LacksLetter(s: string, sub: string, c: char)
    requires c in sub && c !in s
    ensures !Contains(s, sub)
  {
    PrefixLetter(s, sub, c);
    if s != "" { LacksLetter(s[1..], sub, c); }
  }

  /** A character that only starts `old_` and does not occur in `u` lets a scan pass over `u`. */
  lemma {:induction false} SkipWithout(u: string, rest: string, old_: string, new_: string)
    requires |old_| > 0 && old_[0] !in u
    ensures ReplaceAll(u + rest, old_, new_) == u + ReplaceAll(rest, old_, new_)
  {
    if u == "" {
      assert u + rest == rest;
    } else {
      assert (u + rest)[0] == u[0];
      assert (u + rest)[1..] == u[1..] + rest;
      SkipWithout(u[1..], rest, old_, new_);
      assert u == [u[0]] + u[1..];
      assert u + ReplaceAll(rest, old_, new_) == [u[0]] + (u[1..] + ReplaceAll(rest, old_, new_));
    }
  }

  lemma {:induction false} SplitSingle(a: string, sep: char)
    requires sep !in a
    ensures Split(a, sep) == [a]
  {
    if a != "" {
      SplitSingle(a[1..], sep);
      assert a == [a[0]] + a[1..];
    }
  }

  lemma {:induction false} SplitJoin(a: string, b: string, sep: char)
    requires sep !in a
    ensures Split(a + [sep] + b, sep) == [a] + Split(b, sep)
  {
    var w := a + [sep] + b;
    if a == "" {
      assert w == [sep] + b;
      assert w[0] == sep && w[1..] == b;
    } else {
      assert w[0] == a[0] && w[1..] == a[1..] + [sep] + b;
      SplitJoin(a[1..], b, sep);
      assert a == [a[0]] + a[1..];
    }
  }

  /** The first occurrence in a prefix is the first occurrence. */
  lemma {:induction false} IndexOfPrefix(p: string, w: string, c: char)
    requires p <= w && c in p
    ensures IndexOf(w, c) == IndexOf(p, c) < |p|
  {
    var i, k := IndexOf(p, c), IndexOf(w, c);
    assert p == p[..i] + p[i..];
    assert i < |p| && w[i] == c;
    assert forall j :: 0 <= j < i ==> p[..i][j] == w[j] && w[j] != c;
    assert forall j :: 0 <= j < k ==> w[..k][j] == w[j] && w[j] != c;
  }

  lemma {:induction false} IndexOfAfter(a: string, b: string, c: char)
    requires c !in a
    ensures IndexOf(a + [c] + b, c) == |a|
  {
    var w := a + [c] + b;
    var k := IndexOf(w, c);
    assert w[|a|] == c;
    assert forall j :: 0 <= j < |a| ==> w[j] == a[j];
    assert forall j :: 0 <= j < k ==> w[..k][j] == w[j] && w[j] != c;
  }

  lemma {:induction false} SplitCount(s: string, sep: char)
    ensures |Split(s, sep)| == 1 + Count(s, sep)
  {
    if s != "" { SplitCount(s[1..], sep); }
  }

  lemma {:induction false} CountAppend(a: string, b: string, c: char)
    ensures Count(a + b, c) == Count(a, c) + Count(b, c)
  {
    if a == "" {
      assert a + b == b;
    } else {
      assert (a + b)[1..] == a[1..] + b;
      CountAppend(a[1..], b, c);
    }
  }

  lemma {:induction false} CountZero(s: string, c: char)
    ensures Count(s, c) == 0 <==> c !in s
  {
    if s != "" {
      CountZero(s[1..], c);
      assert s == [s[0]] + s[1..];
    }
  }

  lemma {:induction false} ReplaceAbsent(s: string, v: string, w: string)
    requires v != "" && !Contains(s, v)
    ensures ReplaceAll(s, v, w) == s
    decreases |s|
  {
    if s != "" {
      ReplaceAbsent(s[1..], v, w);
      assert s == [s[0]] + s[1..];
    }
  }

  function Occurrences(s: string, v: string): nat
    requires v != ""
    decreases |s|
  {
    if s == "" then 0 else if v <= s then 1 + Occurrences(s[|v|..], v) else Occurrences(s[1..], v)
  }

  lemma {:induction false} OneMore(n: nat, d: int)
    ensures (1 + n) * d == d + n * d
  {
  }

  lemma {:induction false} ReplaceLength(s: string, v: string, w: string)
    requires v != ""
    ensures |ReplaceAll(s, v, w)| == |s| + Occurrences(s, v) * (|w| - |v|)
    decreases |s|
  {
    if s != "" {
      if v <= s {
        ReplaceLength(s[|v|..], v, w);
        OneMore(Occurrences(s[|v|..], v), |w| - |v|);
      } else {
        ReplaceLength(s[1..], v, w);
      }
    }
  }

  lemma {:induction false} ReplacePresent(s: string, v: string, w: string)
    requires v != "" && Contains(s, v) && w != v
    ensures ReplaceAll(s, v, w) != s && Occurrences(s, v) > 0
    decreases |s|
  {
    if s != "" && v <= s {
      ReplaceLength(s, v, w);
      var rest := ReplaceAll(s[|v|..], v, w);
      if |w| == |v| {
        assert (w + rest)[..|w|] == w && s[..|v|] == v;
      } else if |w| > |v| {
        Grows(Occurrences(s, v), |w| - |v|);
      } else {
        Grows(Occurrences(s, v), |v| - |w|);
        assert Occurrences(s, v) * (|w| - |v|) == -(Occurrences(s, v) * (|v| - |w|));
      }
    } else if s != "" {
      ReplacePresent(s[1..], v, w);
      assert ([s[0]] + ReplaceAll(s[1..], v, w))[1..] == ReplaceAll(s[1..], v, w);
    }
  }

  lemma {:induction false} Grows(n: nat, d: nat)
    requires n > 0 && d > 0
    ensures n * d > 0
  {
  }

  /** Replacing a text by another changes something exactly when the text occurs. */
  lemma {:induction false} ReplaceKeepsExactly(s: string, v: string, w: string)
    requires v != "" && w != v
    ensures ReplaceAll(s, v, w) == s <==> !Contains(s, v)
  {
    if Contains(s, v) { ReplacePresent(s, v, w); } else { ReplaceAbsent(s, v, w); }
  }

  // ----- what the string operations mean

  /** A text contains another exactly when that stands somewhere in it. */
  lemma {:induction false} ContainsExactly(s: string, sub: string)
    ensures Contains(s, sub) <==> exists i :: StandsAt(s, sub, i)
  {
    if Contains(s, sub) {
      if sub <= s {
        assert StandsAt(s, sub, 0);
      } else {
        ContainsExactly(s[1..], sub);
        var i :| StandsAt(s[1..], sub, i);
        StandsInTail(s, sub, i);
      }
    }
    if i :| StandsAt(s, sub, i) {
      assert s[i..][..|sub|] == sub;
      ContainsAt(s, sub, i);
    }
  }

  predicate StandsAt(s: string, sub: string, i: int)
  {
    0 <= i <= |s| - |sub| && s[i..i + |sub|] == sub
  }

  lemma {:induction false} StandsInTail(s: string, v: string, k: nat)
    requires s != ""
    ensures StandsAt(s[1..], v, k) <==> StandsAt(s, v, k + 1)
  {
    if k + |v| <= |s| - 1 { assert s[1..][k..k + |v|] == s[k + 1..k + 1 + |v|]; }
  }

  /** `ReplaceAll` replaces the leftmost occurrence and goes on behind it; with `ReplaceAbsent`, that determines it.
      */
  lemma {:induction false} ReplaceAtFirst(s: string, v: string, w: string, i: nat)
    requires v != "" && StandsAt(s, v, i) && forall k: nat :: k < i ==> !StandsAt(s, v, k)
    ensures ReplaceAll(s, v, w) == s[..i] + w + ReplaceAll(s[i + |v|..], v, w)
  {
    if i == 0 {
      assert v <= s;
      assert s[..0] + w == w;
    } else {
      hide StandsAt, ReplaceAll;
      FirstInTail(s, v, i);
      ReplaceAtFirst(s[1..], v, w, i - 1);
      ReplaceLater(s, v, w, i);
    }
  }

  lemma {:induction false} ReplaceLater(s: string, v: string, w: string, i: nat)
    requires i > 0 && v != "" && i + |v| <= |s| && !StandsAt(s, v, 0)
    requires ReplaceAll(s[1..], v, w) == s[1..][..i - 1] + w + ReplaceAll(s[1..][i - 1 + |v|..], v, w)
    ensures ReplaceAll(s, v, w) == s[..i] + w + ReplaceAll(s[i + |v|..], v, w)
  {
    ReplaceStep(s, v, w);
    RestAfterFirst(s, i, |v|);
    hide ReplaceAll;
    ConsParts(s[0], s[1..][..i - 1], w, ReplaceAll(s[i + |v|..], v, w));
  }

  lemma {:induction false} FirstInTail(s: string, v: string, i: nat)
    requires i > 0 && v != "" && StandsAt(s, v, i) && forall k: nat :: k < i ==> !StandsAt(s, v, k)
    ensures i + |v| <= |s| && !StandsAt(s, v, 0)
    ensures StandsAt(s[1..], v, i - 1) && forall k: nat :: k < i - 1 ==> !StandsAt(s[1..], v, k)
  {
    assert i + |v| <= |s|;
    hide StandsAt;
    forall k: nat | k < i - 1
      ensures !StandsAt(s[1..], v, k)
    {
      StandsInTail(s, v, k);
      assert !StandsAt(s, v, k + 1);
    }
    StandsInTail(s, v, i - 1);
  }

  lemma {:induction false} ReplaceStep(s: string, v: string, w: string)
    requires s != "" && v != "" && !StandsAt(s, v, 0)
    ensures ReplaceAll(s, v, w) == [s[0]] + ReplaceAll(s[1..], v, w)
  {
  }

  lemma {:induction false} ConsParts(c: char, a: string, w: string, rest: string)
    ensures [c] + (a + w + rest) == [c] + a + w + rest
  {
  }

  lemma {:induction false} RestAfterFirst(s: string, i: nat, n: nat)
    requires 0 < i && i + n <= |s|
    ensures s[1..][i - 1 + n..] == s[i + n..] && s[..i] == [s[0]] + s[1..][..i - 1]
  {
  }

  /** Splitting cuts exactly at the separators: the parts hold none, and joined by it they give the text back. */
  lemma {:induction false} SplitExactly(s: string, sep: char)
    ensures Joined(Split(s, sep), sep) == s
    ensures forall part :: part in Split(s, sep) ==> sep !in part
  {
    if s != "" {
      SplitExactly(s[1..], sep);
      var rest := Split(s[1..], sep);
      assert s == [s[0]] + s[1..];
      if s[0] == sep {
        assert ([""] + rest)[1..] == rest;
        assert "" + [sep] + Joined(rest, sep) == [sep] + Joined(rest, sep);
      } else {
        var parts := [[s[0]] + rest[0]] + rest[1..];
        assert parts[1..] == rest[1..];
        if |rest| > 1 {
          assert ([s[0]] + rest[0]) + [sep] + Joined(rest[1..], sep)
              == [s[0]] + (rest[0] + [sep] + Joined(rest[1..], sep));
        }
      }
    }
  }

  function Joined(parts: seq<string>, sep: char): string
    requires |parts| > 0
    decreases |parts|
  {
    if |parts| == 1 then parts[0] else parts[0] + [sep] + Joined(parts[1..], sep)
  }

  /** Only ASCII capitals change. */
  lemma {:induction false} LowerExactly(s: string)
    ensures |Lower(s)| == |s|
    ensures forall i :: 0 <= i < |s| ==>
      Lower(s)[i] == if 'A' <= s[i] <= 'Z' then "abcdefghijklmnopqrstuvwxyz"[s[i] as int - 'A' as int] else s[i]
  {
    if s != "" { LowerExactly(s[1..]); }
  }

  /** Decimal numerals have no leading zero, except zero itself. */
  lemma {:induction false} DecimalExactly(n: nat)
    ensures Value(Decimal(n)) == n
    ensures n > 0 ==> Decimal(n)[0] != '0'
    ensures n == 0 ==> Decimal(n) == "0"
  {
    ValueOfDecimal(n);
    if n >= 10 { DecimalExactly(n / 10); }
  }
}
