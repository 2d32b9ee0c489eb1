/** Documents as Go's JSON decoder yields them: every text in them is valid UTF-8, and so is what is made of them. */
module Decoding {
  import opened Text
  import opened Json
  import opened Numbers
  import opened Paths
  import opened Sources
  import JsonText
  import opened Utf8

  /** The decoder replaces invalid bytes, and yields floats. */
  ghost predicate Decoded(v: Json)
    decreases v
  {
    match v
    case Str(s) => ValidUtf8(s)
    case Num(n) => Proper(n)
    case Arr(items) => forall i :: 0 <= i < |items| ==> Decoded(items[i])
    case Obj(fields) => forall i :: 0 <= i < |fields| ==> ValidUtf8(fields[i].name) && Decoded(fields[i].value)
    case _ => true
  }

  predicate Ascii(s: string) { forall c :: c in s ==> Between(c, 0x00, 0x7F) }

  lemma {:induction false} ValidConcat(a: string, b: string)
    requires ValidUtf8(a) && ValidUtf8(b)
    ensures ValidUtf8(a + b)
  {
    ValidJoin(a, b);
  }

  // ----- numbers

  lemma {:induction false} FixedAscii(digits: string, point: int)
    requires forall c :: c in digits ==> IsDigit(c)
    ensures Ascii(Fixed(digits, point))
  {
    var zeros := Zeros(Abs(point));
    if digits != "" && point > 0 && |digits| > point {
      assert forall c :: c in digits[..point] ==> c in digits;
      assert forall c :: c in digits[point..] ==> c in digits;
    }
  }

  lemma {:induction false} MantissaAscii(digits: string)
    requires digits != "" && forall c :: c in digits ==> IsDigit(c)
    ensures Ascii(Mantissa(digits))
  {
    assert digits[0] in digits && forall c :: c in digits[1..] ==> c in digits;
  }

  lemma {:induction false} NumbersAreAscii(n: Number)
    requires Proper(n)
    ensures Ascii(GoText(n)) && Ascii(Numbers.JsonText(n))
  {
    hide Fixed, Mantissa;
    FixedAscii(n.digits, n.point);
    if n.digits != "" { MantissaAscii(n.digits); }
  }

  // ----- what responses offer

  lemma {:induction false} LookupDecoded(v: Json, p: Path)
    requires Decoded(v) && Lookup(v, p).Some?
    ensures Decoded(Lookup(v, p).value)
    ensures ValidUtf8(Spell(p))
    decreases |p|
  {
    if p != [] {
      match p[0] {
        case Key(name) =>
          var n := FindWhere(v.fields, name);
          LookupDecoded(v.fields[n].value, p[1..]);
          AsciiIsValid(".");
          ValidConcat(".", name);
        case At(i) =>
          LookupDecoded(v.items[i], p[1..]);
          AsciiIsValid(SpellStep(p[0]));
      }
      ValidConcat(SpellStep(p[0]), Spell(p[1..]));
    }
  }

  /** Cutting a valid text where no rune continues leaves a valid text. */
  lemma {:induction false} ValidFront(a: string, b: string)
    requires ValidUtf8(a + b) && b != "" && !Continues(b[0])
    ensures ValidUtf8(a)
    decreases |a|
  {
    if a != "" {
      var n := RuneSize(a + b);
      assert n <= |a| by { assert (a + b)[|a|] == b[0]; }
      assert forall i :: 0 <= i < |a| ==> (a + b)[i] == a[i];
      assert (a + b)[n..] == a[n..] + b;
      assert RuneSize(a) == n;
      ValidFront(a[n..], b);
    }
  }

  lemma {:induction false} TrimLeftValid(s: string, c: char)
    requires ValidUtf8(s) && Between(c, 0x00, 0x7F)
    ensures ValidUtf8(TrimLeft(s, c))
  {
    if s != "" && s[0] == c { TrimLeftValid(s[1..], c); }
  }

  lemma {:induction false} TrimRightValid(s: string, c: char)
    requires ValidUtf8(s) && Between(c, 0x00, 0x7F)
    ensures ValidUtf8(TrimRight(s, c))
  {
    if s != "" && s[|s| - 1] == c {
      assert s == s[..|s| - 1] + [c];
      ValidFront(s[..|s| - 1], [c]);
      TrimRightValid(s[..|s| - 1], c);
    }
  }

  lemma {:induction false} KeyValid(path: string)
    requires ValidUtf8(path)
    ensures ValidUtf8(ExtractionKey(path))
  {
    var rest := if "$." <= path then path[2..] else path;
    if "$." <= path {
      AsciiIsValid("$.");
      assert path == "$." + rest;
      ValidJoin("$.", rest);
    }
    AsciiIsValid("_");
    AsciiIsValid("[");
    AsciiIsValid("]");
    AsciiIsValid(".");
    var one := ReplaceAll(rest, "[", "_");
    ReplaceKeepsValid(rest, "[", "_");
    ReplaceKeepsValid(one, "]", "");
    ReplaceKeepsValid(ReplaceAll(one, "]", ""), ".", "_");
    TrimLeftValid(Flatten(rest), '_');
    TrimRightValid(TrimLeft(Flatten(rest), '_'), '_');
    NamedByLength(Normal(path));
  }

  lemma {:induction false} NamedByLength(n: string)
    ensures ValidUtf8("value_" + Decimal(|n|)) && ValidUtf8("value")
  {
    AsciiIsValid("value_" + Decimal(|n|));
    AsciiIsValid("value");
  }

  /** Values and keys of sources are valid UTF-8. */
  lemma {:induction false} SourceDecoded(step: string, root: Json, s: Source)
    requires DistinctNames(root) && Decoded(root) && s in PrimitiveSources(step, root)
    ensures ValidUtf8(s.value) && ValidUtf8(s.key)
  {
    var k :| 0 <= k < |PrimitiveSources(step, root)| && PrimitiveSources(step, root)[k] == s;
    SourceReadsBack(step, root, k);
    WalkSound(root, root, [], k);
    var f := Walk(root, [])[k];
    LookupDecoded(root, f.at);
    AsciiIsValid("$");
    ValidConcat("$", Spell(f.at));
    KeyValid(s.path);
    OfferedValid(f.value);
  }

  lemma {:induction false} OfferedValid(v: Json)
    requires Decoded(v) && Offers(v)
    ensures ValidUtf8(Sprint(v))
  {
    match v {
      case Num(n) =>
        NumbersAreAscii(n);
        AsciiIsValid(GoText(n));
      case Bool(b) => AsciiIsValid(BoolText(b));
      case Str(_) =>
    }
  }

  // ----- marshalled documents

  lemma {:induction false} EscapePlainChar(s: string)
    requires s != "" && JsonText.PlainChar(s[0]) && !JsonText.Separator(s)
    ensures JsonText.Escape(s) == [s[0]] + JsonText.Escape(s[1..])
  {
  }

  lemma {:induction false} EscapeContinuing(u: string, rest: string)
    requires forall c :: c in u ==> Continues(c)
    ensures JsonText.Escape(u + rest) == u + JsonText.Escape(rest)
  {
    hide JsonText.Escape;
    if u == "" {
      assert u + rest == rest;
    } else {
      assert u[0] in u && (u + rest)[0] == u[0] && (u + rest)[1..] == u[1..] + rest;
      EscapePlainChar(u + rest);
      EscapeContinuing(u[1..], rest);
      assert u + JsonText.Escape(rest) == [u[0]] + (u[1..] + JsonText.Escape(rest));
    }
  }

  lemma {:induction false} EscapeValid(s: string)
    requires ValidUtf8(s)
    ensures ValidUtf8(JsonText.Escape(s))
    decreases |s|
  {
    if s != "" {
      var n := RuneSize(s);
      EscapeValid(s[n..]);
      if n == 1 {
        AsciiIsValid(JsonText.EscapeChar(s[0]));
        ValidConcat(JsonText.EscapeChar(s[0]), JsonText.Escape(s[1..]));
      } else if JsonText.Separator(s) {
        var x := "\\u202" + [JsonText.Hex(s[2] as int - 0xA0)];
        AsciiIsValid(x);
        ValidConcat(x, JsonText.Escape(s[3..]));
      } else {
        EscapeRune(s);
        RuneIsValid(s);
        ValidConcat(s[..n], JsonText.Escape(s[n..]));
      }
    }
  }

  lemma {:induction false} EscapeRune(s: string)
    requires s != "" && RuneSize(s) > 1 && !JsonText.Separator(s)
    ensures JsonText.Escape(s) == s[..RuneSize(s)] + JsonText.Escape(s[RuneSize(s)..])
  {
    hide JsonText.Escape;
    var n := RuneSize(s);
    assert s[1..] == s[1..n] + s[n..];
    assert forall c :: c in s[1..n] ==> Continues(c);
    EscapePlainChar(s);
    EscapeContinuing(s[1..n], s[n..]);
    assert JsonText.PlainChar(s[0]);
    assert [s[0]] + (s[1..n] + JsonText.Escape(s[n..])) == s[..n] + JsonText.Escape(s[n..]);
  }

  lemma {:induction false} QuotedValid(s: string)
    requires ValidUtf8(s)
    ensures ValidUtf8(JsonText.Quoted(s))
  {
    EscapeValid(s);
    AsciiIsValid("\"");
    ValidConcat("\"", JsonText.Escape(s));
    ValidConcat("\"" + JsonText.Escape(s), "\"");
  }

  lemma {:induction false} BetweenAscii(a: string, b: string, c: string)
    requires Ascii(a) && ValidUtf8(b) && Ascii(c)
    ensures ValidUtf8(a + b + c)
  {
    AsciiIsValid(a);
    AsciiIsValid(c);
    ValidConcat(a, b);
    ValidConcat(a + b, c);
  }

  /** Marshalling a decoded document gives valid UTF-8. */
  lemma {:induction false} MarshalValid(v: Json)
    requires Decoded(v)
    ensures ValidUtf8(JsonText.Marshal(v))
    decreases v
  {
    match v {
      case Null => AsciiIsValid("null");
      case Bool(b) => AsciiIsValid(BoolText(b));
      case Num(n) =>
        NumbersAreAscii(n);
        AsciiIsValid(JsonText.Marshal(v));
      case Str(s) => QuotedValid(s);
      case Arr(items) =>
        MarshalItemsValid(items);
        BetweenAscii("[", JsonText.MarshalItems(items), "]");
      case Obj(fields) =>
        assert forall f :: f in Sorted(fields) ==> f in fields;
        MarshalFieldsValid(v, Sorted(fields));
        BetweenAscii("{", JsonText.MarshalFields(v, Sorted(fields)), "}");
    }
  }

  lemma {:induction false} MarshalItemsValid(items: seq<Json>)
    requires forall i :: 0 <= i < |items| ==> Decoded(items[i])
    ensures ValidUtf8(JsonText.MarshalItems(items))
    decreases items
  {
    if items != [] {
      MarshalValid(items[0]);
      MarshalItemsValid(items[1..]);
      var comma := if |items| > 1 then "," else "";
      BetweenAscii("", JsonText.Marshal(items[0]), comma);
      assert "" + JsonText.Marshal(items[0]) == JsonText.Marshal(items[0]);
      ValidConcat(JsonText.Marshal(items[0]) + comma, JsonText.MarshalItems(items[1..]));
    }
  }

  lemma {:induction false} MarshalFieldsValid(owner: Json, fields: seq<Field>)
    requires owner.Obj? && forall f :: f in fields ==> f in owner.fields
    requires Decoded(owner)
    ensures ValidUtf8(JsonText.MarshalFields(owner, fields))
    decreases owner, 0, |fields|
  {
    if fields != [] {
      var f := fields[0];
      assert f in owner.fields && f.value < f < owner;
      QuotedValid(f.name);
      MarshalValid(f.value);
      MarshalFieldsValid(owner, fields[1..]);
      BetweenAscii("", JsonText.Quoted(f.name), ":");
      assert "" + JsonText.Quoted(f.name) == JsonText.Quoted(f.name);
      var head := JsonText.Quoted(f.name) + ":";
      ValidConcat(head, JsonText.Marshal(f.value));
      BetweenAscii("", head + JsonText.Marshal(f.value), JsonText.Comma(fields));
      assert "" + (head + JsonText.Marshal(f.value)) == head + JsonText.Marshal(f.value);
      var front := head + JsonText.Marshal(f.value) + JsonText.Comma(fields);
      ValidConcat(front, JsonText.MarshalFields(owner, fields[1..]));
    }
  }

  /** So does the text of a body template. */
  lemma {:induction false} BodyTemplateValid(fields: seq<Field>)
    requires Decoded(Obj(fields))
    ensures ValidUtf8(JsonText.BodyTemplateText(fields))
  {
    TemplatedDecoded(fields);
    MarshalValid(Obj(JsonText.TemplatedAll(fields)));
  }

  lemma {:induction false} TemplatedDecoded(fields: seq<Field>)
    requires Decoded(Obj(fields))
    ensures Decoded(Obj(JsonText.TemplatedAll(fields)))
  {
    if fields != [] {
      assert Decoded(Obj(fields[1..])) by {
        assert forall i :: 0 <= i < |fields[1..]| ==> fields[1..][i] == fields[i + 1];
      }
      TemplatedDecoded(fields[1..]);
      var f, more := fields[0], JsonText.TemplatedAll(fields[1..]);
      PlaceholderValid("${input.", f.name);
      assert forall i :: 0 < i < |more| + 1 ==> ([JsonText.Templated(f)] + more)[i] == more[i - 1];
    }
  }

  lemma {:induction false} PlaceholderValid(open: string, key: string)
    requires Ascii(open) && ValidUtf8(key)
    ensures ValidUtf8(open + key + "}")
  {
    BetweenAscii(open, key, "}");
  }
}
