/** Base 128 varints as read by the body parser. Unsigned 64-bit words are naturals below 2^64. */
module Varint {
  import opened Options

  type byte = b: int | 0 <= b < 256

  function Pow2(n: nat): (p: nat)
    ensures p > 0
  {
    if n == 0 then 1 else 2 * Pow2(n - 1)
  }

  const WORD := 0x1_0000_0000_0000_0000

  /** Bitwise or. */
  function Or(a: nat, b: nat): nat
    decreases a + b
  {
    if a == 0 && b == 0 then 0
    else (if a % 2 == 1 || b % 2 == 1 then 1 else 0) + 2 * Or(a / 2, b / 2)
  }

  /** `x << n` on a 64-bit word. */
  function Shl(x: nat, n: nat): nat { x * Pow2(n) % WORD }

  const MAX_GROUPS := 10

  /** The loop of `readVarint` from byte `i` on. */
  function ReadFrom(body: seq<byte>, i: nat, value: nat): Option<(nat, nat)>
    decreases |body| - i
  {
    if i >= |body| || i >= MAX_GROUPS then None
    else
      var next := Or(value, Shl(body[i] % 128, 7 * i));
      if body[i] < 128 then Some((next, i + 1)) else ReadFrom(body, i + 1, next)
  }

  /** Value and number of bytes; `None` stands for the result `(0, -1)`. */
  function ReadVarint(body: seq<byte>): Option<(nat, nat)> { ReadFrom(body, 0, 0) }

  method ReadVarintLoop(body: seq<byte>) returns (value: nat, n: int)
    ensures n <= 0 ==> ReadVarint(body).None?
    ensures n > 0 ==> ReadVarint(body) == Some((value, n))
  {
    value := 0;
    var i := 0;
    while i < |body| && i < MAX_GROUPS
      invariant 0 <= i
      invariant ReadFrom(body, i, value) == ReadVarint(body)
    {
      value := Or(value, Shl(body[i] % 128, 7 * i));
      if body[i] < 128 {
        return value, i + 1;
      }
      i := i + 1;
    }
    return 0, -1;
  }

  // ----- or is addition

  lemma {:induction false} OrZero(b: nat)
    ensures Or(0, b) == b
    decreases b
  {
    if b > 0 { OrZero(b / 2); }
  }

  /** A number below 2^k and a multiple of 2^k share no bit. */
  lemma {:induction false} OrIsPlus(a: nat, b: nat, k: nat)
    requires a < Pow2(k)
    ensures Or(a, b * Pow2(k)) == a + b * Pow2(k)
    decreases k
  {
    if k == 0 {
      OrZero(b);
    } else {
      var h := b * Pow2(k - 1);
      assert b * Pow2(k) == 2 * h by {
        assert b * (2 * Pow2(k - 1)) == 2 * (b * Pow2(k - 1));
      }
      OrIsPlus(a / 2, b, k - 1);
      assert (2 * h) % 2 == 0 && (2 * h) / 2 == h;
    }
  }

  /** 128^i, the weight of group `i`. */
  function Weight(i: nat): (w: nat)
    ensures w > 0
  {
    if i == 0 then 1 else 128 * Weight(i - 1)
  }

  lemma {:induction false} Pow2Plus7(n: nat)
    ensures Pow2(n + 7) == 128 * Pow2(n)
  {
    assert Pow2(n + 7) == 2 * Pow2(n + 6) && Pow2(n + 6) == 2 * Pow2(n + 5) && Pow2(n + 5) == 2 * Pow2(n + 4);
    assert Pow2(n + 4) == 2 * Pow2(n + 3) && Pow2(n + 3) == 2 * Pow2(n + 2) && Pow2(n + 2) == 2 * Pow2(n + 1);
  }

  lemma {:induction false} WeightIsShift(i: nat)
    ensures Pow2(7 * i) == Weight(i)
  {
    if i > 0 {
      WeightIsShift(i - 1);
      Pow2Plus7(7 * (i - 1));
      assert 7 * (i - 1) + 7 == 7 * i;
    }
  }

  lemma {:induction false} WeightGrows(i: nat, j: nat)
    requires i <= j
    ensures Weight(i) <= Weight(j)
    decreases j
  {
    if i < j { WeightGrows(i, j - 1); }
  }

  lemma {:induction false} WeightOfNine()
    ensures Weight(9) * 2 == WORD
  {
    assert Weight(3) == 0x20_0000 by {
      assert Weight(1) == 128 * Weight(0) && Weight(2) == 128 * Weight(1);
    }
    assert Weight(6) == 0x400_0000_0000 by {
      assert Weight(4) == 128 * Weight(3) && Weight(5) == 128 * Weight(4);
    }
    assert Weight(7) == 128 * Weight(6) && Weight(8) == 128 * Weight(7);
  }

  /** The mathematical value of the first `n` groups. */
  function Groups(body: seq<byte>, n: nat): nat
    requires n <= |body|
  {
    if n == 0 then 0 else Groups(body, n - 1) + body[n - 1] % 128 * Weight(n - 1)
  }

  lemma {:induction false} Times(a: nat, b: nat, p: nat)
    requires a <= b
    ensures a * p <= b * p
  {
  }

  lemma {:induction false} GroupsBound(body: seq<byte>, n: nat)
    requires n <= |body|
    ensures Groups(body, n) < Weight(n)
  {
    if n > 0 {
      GroupsBound(body, n - 1);
      Times(body[n - 1] % 128, 127, Weight(n - 1));
    }
  }

  /** Of the tenth group only the lowest bit survives. */
  lemma {:induction false} TopGroup(v: nat, g: nat, p: nat)
    requires v < p && p * 2 == WORD
    ensures g * p % WORD == g % 2 * p
    ensures (v + g * p) % WORD == v + g % 2 * p
  {
    var h, r := g / 2, g % 2;
    assert g * p == h * WORD + r * p by {
      assert g == 2 * h + r;
      assert (2 * h + r) * p == h * (p * 2) + r * p;
    }
    ModOf(r * p, h);
    ModOf(v + r * p, h);
  }

  lemma {:induction false} ModOf(x: nat, h: nat)
    requires x < WORD
    ensures (h * WORD + x) % WORD == x
  {
  }

  lemma {:induction false} LowShift(v: nat, g: nat, k: nat)
    requires v < Pow2(k) && g * Pow2(k) < WORD
    ensures Or(v, Shl(g, k)) == v + g * Pow2(k)
  {
    ModOf(g * Pow2(k), 0);
    OrIsPlus(v, g, k);
  }

  lemma {:induction false} TopShift(v: nat, g: nat, k: nat)
    requires v < Pow2(k) && Pow2(k) * 2 == WORD
    ensures Or(v, Shl(g, k)) == (v + g * Pow2(k)) % WORD
  {
    TopGroup(v, g, Pow2(k));
    OrIsPlus(v, g % 2, k);
  }

  lemma {:induction false} LowWeight(v: nat, g: nat, i: nat)
    requires v < Weight(i) && g < 128 && i < 9
    ensures v + g * Weight(i) < WORD
  {
    WeightOfNine();
    Times(g, 127, Weight(i));
    WeightGrows(i + 1, 9);
  }

  /** One round: or-ing in a shifted group adds it, modulo 2^64, and nothing is lost before the tenth. */
  lemma {:induction false} RoundValue(v: nat, g: nat, i: nat)
    requires v < Weight(i) && g < 128 && i < MAX_GROUPS
    ensures Or(v, Shl(g, 7 * i)) == (v + g * Weight(i)) % WORD
    ensures i < 9 ==> v + g * Weight(i) < WORD
  {
    WeightIsShift(i);
    if i < 9 {
      LowWeight(v, g, i);
      LowShift(v, g, 7 * i);
      ModOf(v + g * Weight(i), 0);
    } else {
      WeightOfNine();
      TopShift(v, g, 7 * i);
    }
  }

  /** One round of the loop, in terms of the groups read so far. */
  lemma {:induction false} RoundAdds(body: seq<byte>, i: nat)
    requires i < |body| && i < MAX_GROUPS
    ensures Or(Groups(body, i), Shl(body[i] % 128, 7 * i)) == Groups(body, i + 1) % WORD
    ensures i < 9 ==> Groups(body, i + 1) % WORD == Groups(body, i + 1)
  {
    GroupsBound(body, i);
    RoundValue(Groups(body, i), body[i] % 128, i);
    if i < 9 { ModOf(Groups(body, i + 1), 0); }
  }

  /** The first `n` bytes are a whole varint: continuation bits on all but the last. */
  predicate Whole(body: seq<byte>, n: nat)
  {
    1 <= n <= 10 && n <= |body| && body[n - 1] < 128 && forall k :: 0 <= k < n - 1 ==> body[k] >= 128
  }

  lemma {:induction false} ReadFromExactly(body: seq<byte>, i: nat)
    requires i <= |body| && i <= MAX_GROUPS && forall k :: 0 <= k < i ==> body[k] >= 128
    ensures i < MAX_GROUPS ==>
      var r := ReadFrom(body, i, Groups(body, i));
      (r.Some? ==> Whole(body, r.value.1) && r.value.1 > i && r.value.0 == Groups(body, r.value.1) % WORD) &&
      (r.None? ==> forall n :: n > i ==> !Whole(body, n))
    decreases MAX_GROUPS - i
  {
    if i < |body| && i < MAX_GROUPS {
      RoundAdds(body, i);
      if body[i] >= 128 {
        ReadFromExactly(body, i + 1);
      }
    }
  }

  /** Reading succeeds exactly on a whole varint of one to ten bytes, and gives the sum of its groups modulo 2^64. */
  lemma {:induction false} ReadVarintExactly(body: seq<byte>, v: nat, n: nat)
    ensures ReadVarint(body) == Some((v, n)) <==> Whole(body, n) && v == Groups(body, n) % WORD
    ensures ReadVarint(body).None? <==> forall m :: !Whole(body, m)
  {
    ReadFromExactly(body, 0);
    var r := ReadVarint(body);
    if r.Some? && Whole(body, n) {
      OneWhole(body, n, r.value.1);
    }
  }

  lemma {:induction false} OneWhole(body: seq<byte>, m: nat, n: nat)
    requires Whole(body, m) && Whole(body, n)
    ensures m == n
  {
  }

  // ----- the encoder of the specification

  function Encode(v: nat): (e: seq<byte>)
    ensures |e| > 0
  {
    if v < 128 then [v] else [v % 128 + 128] + Encode(v / 128)
  }

  lemma {:induction false} EncodeLength(v: nat, k: nat)
    requires v < Weight(k) && k > 0
    ensures |Encode(v)| <= k
    decreases k
  {
    if v >= 128 {
      assert k > 1 && v / 128 < Weight(k - 1);
      EncodeLength(v / 128, k - 1);
    }
  }

  lemma {:induction false} EncodeBytes(v: nat, rest: seq<byte>)
    ensures
      var e := Encode(v);
      e[|e| - 1] < 128 && forall k :: 0 <= k < |e| - 1 ==> e[k] >= 128
  {
    if v >= 128 { EncodeBytes(v / 128, rest); }
  }

  /** Groups of a sequence, from its first byte. */
  lemma {:induction false} GroupsCons(b: byte, body: seq<byte>, n: nat)
    requires n <= |body|
    ensures Groups([b] + body, n + 1) == b % 128 + 128 * Groups(body, n)
  {
    var all := [b] + body;
    if n == 0 {
      assert Groups(all, 0) == 0 && Weight(0) == 1;
    } else {
      GroupsCons(b, body, n - 1);
      assert all[n] == body[n - 1];
      Distribute(Groups(body, n - 1), body[n - 1] % 128, Weight(n - 1));
    }
  }

  lemma {:induction false} Distribute(v: nat, g: nat, p: nat)
    ensures 128 * (v + g * p) == 128 * v + g * (128 * p)
  {
  }

  lemma {:induction false} NoGroups(body: seq<byte>)
    ensures Groups(body, 0) == 0
  {
  }

  lemma {:induction false} GroupsOfEncoded(v: nat, rest: seq<byte>)
    ensures Groups(Encode(v) + rest, |Encode(v)|) == v
  {
    hide Groups;
    if v < 128 {
      NoGroups(rest);
      GroupsCons(v, rest, 0);
    } else {
      GroupsOfEncoded(v / 128, rest);
      GroupsCons(v % 128 + 128, Encode(v / 128) + rest, |Encode(v / 128)|);
      assert Encode(v) + rest == [v % 128 + 128] + (Encode(v / 128) + rest);
    }
  }

  /** Round trip: any 64-bit value, any trailing bytes. */
  lemma {:induction false} VarintRoundTrip(v: nat, rest: seq<byte>)
    requires v < WORD
    ensures |Encode(v)| <= MAX_GROUPS && ReadVarint(Encode(v) + rest) == Some((v, |Encode(v)|))
  {
    hide Groups, ReadVarint;
    var e := Encode(v);
    WeightOfNine();
    EncodeLength(v, 10);
    EncodeBytes(v, rest);
    GroupsOfEncoded(v, rest);
    assert forall k :: 0 <= k < |e| ==> (e + rest)[k] == e[k];
    ReadVarintExactly(e + rest, v, |e|);
  }

  /** Every proper prefix of an encoding is refused. */
  lemma {:induction false} VarintTruncated(v: nat, m: nat)
    requires m < |Encode(v)|
    ensures ReadVarint(Encode(v)[..m]) == None
  {
    var e := Encode(v)[..m];
    EncodeBytes(v, []);
    assert forall k :: 0 <= k < |e| ==> e[k] == Encode(v)[k];
    ReadVarintExactly(e, 0, 0);
  }
}
