/** JSON paths as text: what the source walk prints and what the runner reads back. */
module Paths {
  import opened Text
  import opened Options
  import opened Json

  datatype Step = Key(name: string) | At(i: nat)
  type Path = seq<Step>

  /** The value at a place of the document. */
  function Lookup(v: Json, p: Path): Option<Json>
    decreases |p|
  {
    if p == [] then Some(v)
    else match p[0]
      case Key(name) =>
        if v.Obj? && Find(v.fields, name).Some? then Lookup(Find(v.fields, name).value, p[1..]) else None
      case At(i) =>
        if v.Arr? && i < |v.items| then Lookup(v.items[i], p[1..]) else None
  }

  function SpellStep(s: Step): string
  {
    match s
    case Key(name) => "." + name
    case At(i) => "[" + Decimal(i) + "]"
  }

  function Spell(p: Path): string
  {
    if p == [] then "" else SpellStep(p[0]) + Spell(p[1..])
  }

  /** The path text of a place: `$`, `$.a.b`, `$.a[0].b`. */
  function PathText(p: Path): string { "$" + Spell(p) }

  lemma {:induction false} SpellAppend(a: Path, b: Path)
    ensures Spell(a + b) == Spell(a) + Spell(b)
  {
    if a == [] {
      assert a + b == b;
    } else {
      assert (a + b)[1..] == a[1..] + b;
      SpellAppend(a[1..], b);
    }
  }

  // ----- the reader

  datatype Token = Token(field: string, index: Option<int>)

  const INT64_LIMIT := 0x8000_0000_0000_0000

  predicate Digits(s: string) { s != "" && forall c :: c in s ==> IsDigit(c) }

  /** `strconv.Atoi`: optional sign, decimal digits, 64-bit range. */
  function Atoi(s: string): Option<int>
  {
    var signed := s != "" && (s[0] == '-' || s[0] == '+');
    var digits := if signed then s[1..] else s;
    if !Digits(digits) then None
    else
      var n: int := if signed && s[0] == '-' then -(Value(digits) as int) else Value(digits) as int;
      if -INT64_LIMIT <= n < INT64_LIMIT then Some(n) else None
  }

  predicate Spells(s: string, n: int, sign: string, digits: string)
  {
    s == sign + digits && Digits(digits) && (sign == "" || sign == "+" || sign == "-") &&
    n == if sign == "-" then -(Value(digits) as int) else Value(digits) as int
  }

  /** A text is read as a number exactly when it is a possibly signed run of digits for a 64-bit integer. */
  lemma {:induction false} AtoiExactly(s: string, n: int)
    ensures Atoi(s) == Some(n) <==>
      -0x8000_0000_0000_0000 <= n < 0x8000_0000_0000_0000 && exists sign, digits :: Spells(s, n, sign, digits)
  {
    if Atoi(s) == Some(n) {
      if s[0] == '-' || s[0] == '+' {
        assert s == s[..1] + s[1..] && (s[..1] == "+" || s[..1] == "-");
        assert Spells(s, n, s[..1], s[1..]);
      } else {
        assert "" + s == s && Spells(s, n, "", s);
      }
    }
    if sign, digits :| Spells(s, n, sign, digits) {
      assert sign != "" ==> s[0] == sign[0] && s[1..] == digits;
      assert sign == "" ==> s == digits && s[0] in digits;
    }
  }

  predicate Bracketed(part: string)
  {
    '[' in part && part[|part| - 1] == ']'
  }

  function TokenOf(part: string): Token
  {
    if Bracketed(part) then
      var open := IndexOf(part, '[');
      OpenBeforeEnd(part);
      Token(part[..open], Atoi(part[open + 1..|part| - 1]))
    else Token(part, None)
  }

  lemma {:induction false} OpenBeforeEnd(part: string)
    requires Bracketed(part)
    ensures IndexOf(part, '[') < |part| - 1
  {
    IndexOfPrefix(part, part, '[');
  }

  function TokensOf(parts: seq<string>): seq<Token>
  {
    if parts == [] then [] else [TokenOf(parts[0])] + TokensOf(parts[1..])
  }

  /** `splitJSONPath`. */
  function SplitPath(path: string): seq<Token> { TokensOf(Split(path, '.')) }

  /** One round of the reader: a field, then possibly one element of it. */
  function ReadToken(v: Json, token: Token): Option<Json>
  {
    if v.Obj? && Find(v.fields, token.field).Some? then
      var next := Find(v.fields, token.field).value;
      match token.index
      case None => Some(next)
      case Some(i) => if next.Arr? && 0 <= i < |next.items| then Some(next.items[i]) else None
    else None
  }

  function ReadTokens(v: Json, tokens: seq<Token>): Option<Json>
    decreases |tokens|
  {
    if tokens == [] then Some(v)
    else
      match ReadToken(v, tokens[0])
      case None => None
      case Some(next) => ReadTokens(next, tokens[1..])
  }

  /** `jsonPathValue` on a decoded body. */
  function ReadPath(root: Json, path: string): Option<Json>
  {
    if path == "$" then Some(root)
    else if "$." <= path then ReadTokens(root, SplitPath(path[2..]))
    else None
  }

  /** The loop form of `splitJSONPath`. */
  method SplitJSONPath(path: string) returns (tokens: seq<Token>)
    ensures tokens == SplitPath(path)
  {
    var raw := Split(path, '.');
    tokens := [];
    for k := 0 to |raw|
      invariant tokens + TokensOf(raw[k..]) == TokensOf(raw)
    {
      assert raw[k..][1..] == raw[k + 1..];
      tokens := tokens + [TokenOf(raw[k])];
    }
  }

  method FollowToken(v: Json, token: Token) returns (r: Option<Json>)
    ensures r == ReadToken(v, token)
  {
    if !v.Obj? { return None; }
    var next := Find(v.fields, token.field);
    if next.None? { return None; }
    if token.index.Some? {
      var i := token.index.value;
      if !next.value.Arr? || i < 0 || i >= |next.value.items| { return None; }
      return Some(next.value.items[i]);
    }
    return next;
  }

  /** The loop form of `jsonPathValue`. */
  method JsonPathValue(root: Json, path: string) returns (r: Option<Json>)
    ensures r == ReadPath(root, path)
  {
    hide ReadToken, SplitPath;
    if path == "$" { return Some(root); }
    if !("$." <= path) { return None; }
    var tokens := SplitJSONPath(path[2..]);
    var current := root;
    for k := 0 to |tokens|
      invariant ReadTokens(root, tokens) == ReadTokens(current, tokens[k..])
    {
      assert tokens[k..][0] == tokens[k] && tokens[k..][1..] == tokens[k + 1..];
      var next := FollowToken(current, tokens[k]);
      if next.None? { return None; }
      current := next.value;
    }
    return Some(current);
  }

  /** Reading does not depend on the order of members. */
  lemma {:induction false} SameTokens(a: Json, b: Json, tokens: seq<Token>)
    requires SameDocument(a, b) && ReadTokens(a, tokens).Some?
    ensures ReadTokens(b, tokens).Some? && SameDocument(ReadTokens(a, tokens).value, ReadTokens(b, tokens).value)
    decreases |tokens|
  {
    if tokens != [] {
      var n := FindWhere(a.fields, tokens[0].field);
      SameTokens(ReadToken(a, tokens[0]).value, ReadToken(b, tokens[0]).value, tokens[1..]);
    }
  }

  lemma {:induction false} SameRead(a: Json, b: Json, path: string)
    requires SameDocument(a, b) && ReadPath(a, path).Some?
    ensures ReadPath(b, path).Some? && SameDocument(ReadPath(a, path).value, ReadPath(b, path).value)
  {
    if path != "$" { SameTokens(a, b, SplitPath(path[2..])); }
  }

  // ----- which places can be read back

  /** Field, or field with one index; names without `.`, and without anything the index syntax would claim. */
  predicate Segments(p: Path)
    decreases |p|
  {
    p == [] ||
    (p[0].Key? && '.' !in p[0].name &&
     if |p| > 1 && p[1].At? then
       '[' !in p[0].name && p[1].i < INT64_LIMIT && Segments(p[2..])
     else
       !Bracketed(p[0].name) && Segments(p[1..]))
  }

  predicate Addressable(p: Path) { Segments(p) }

  function TokensFor(p: Path): seq<Token>
    requires Segments(p)
    decreases |p|
  {
    if p == [] then []
    else if |p| > 1 && p[1].At? then [Token(p[0].name, Some(p[1].i))] + TokensFor(p[2..])
    else [Token(p[0].name, None)] + TokensFor(p[1..])
  }

  lemma {:induction false} ReadTokensFor(v: Json, p: Path)
    requires Segments(p)
    ensures ReadTokens(v, TokensFor(p)) == Lookup(v, p)
    decreases |p|
  {
    if p != [] && v.Obj? && Find(v.fields, p[0].name).Some? {
      var next := Find(v.fields, p[0].name).value;
      if |p| > 1 && p[1].At? {
        assert p[1..][0] == p[1] && p[1..][1..] == p[2..];
        if next.Arr? && p[1].i < |next.items| { ReadTokensFor(next.items[p[1].i], p[2..]); }
      } else {
        ReadTokensFor(next, p[1..]);
      }
    }
  }

  lemma {:induction false} AtoiDecimal(n: nat)
    requires n < INT64_LIMIT
    ensures Atoi(Decimal(n)) == Some(n)
  {
    ValueOfDecimal(n);
    var d := Decimal(n);
    assert IsDigit(d[0]);
  }

  lemma {:induction false} BracketParts(name: string, inner: string)
    requires '[' !in name
    ensures
      var part := name + ("[" + inner + "]");
      Bracketed(part) && IndexOf(part, '[') == |name|
  {
    var part := name + ("[" + inner + "]");
    assert part == name + ['['] + (inner + "]");
    IndexOfAfter(name, inner + "]", '[');
    assert part[|name|] == '[' && part[|part| - 1] == ']';
  }

  lemma {:induction false} TokenOfBrackets(name: string, inner: string)
    requires '[' !in name
    ensures TokenOf(name + ("[" + inner + "]")) == Token(name, Atoi(inner))
  {
    hide Atoi, IndexOf;
    var part := name + ("[" + inner + "]");
    BracketParts(name, inner);
    assert part[..|name|] == name;
    assert part[|name| + 1..|part| - 1] == inner;
  }

  lemma {:induction false} TokenOfIndexed(name: string, i: nat)
    requires '[' !in name && i < INT64_LIMIT
    ensures TokenOf(name + SpellStep(At(i))) == Token(name, Some(i))
  {
    TokenOfBrackets(name, Decimal(i));
    AtoiDecimal(i);
  }

  lemma {:induction false} SpellTail(p: Path)
    requires p != [] && p[0].Key?
    ensures Spell(p) != "" && Spell(p)[1..] == p[0].name + Spell(p[1..])
  {
    assert Spell(p) == "." + (p[0].name + Spell(p[1..]));
  }

  /** The text of a place that is not the root starts with its first field name. */
  lemma {:induction false} SpellHead(p: Path)
    requires p != [] && p[0].Key?
    ensures Spell(p)[0] == '.' && Spell(p)[1..] == p[0].name + Spell(p[1..])
    ensures PathText(p)[..2] == "$." && PathText(p)[2..] == Spell(p)[1..] && PathText(p) != "$"
  {
    assert Spell(p) == "." + (p[0].name + Spell(p[1..]));
    assert PathText(p) == "$." + Spell(p)[1..];
  }

  lemma {:induction false} SplitPathCons(here: string, more: string)
    requires '.' !in here
    ensures SplitPath(here + ("." + more)) == [TokenOf(here)] + SplitPath(more)
    ensures SplitPath(here) == [TokenOf(here)]
  {
    SplitSingle(here, '.');
    SplitJoin(here, more, '.');
    assert here + ['.'] + more == here + ("." + more);
    var parts := [here] + Split(more, '.');
    assert parts[0] == here && parts[1..] == Split(more, '.');
    assert TokensOf([here][1..]) == [];
  }

  /** Cutting the text at its first dot: `here` is a name with its indices, `rest` starts with a field. */
  lemma {:induction false} SplitHere(here: string, rest: Path)
    requires '.' !in here && (rest == [] || rest[0].Key?)
    ensures SplitPath(here + Spell(rest))
         == [TokenOf(here)] + (if rest == [] then [] else SplitPath(Spell(rest)[1..]))
  {
    if rest == [] {
      assert here + Spell(rest) == here;
      SplitPathCons(here, "");
    } else {
      SpellHead(rest);
      assert Spell(rest) == "." + Spell(rest)[1..];
      SplitPathCons(here, Spell(rest)[1..]);
    }
  }

  lemma {:induction false} NoDotInIndex(i: nat)
    ensures '.' !in SpellStep(At(i))
  {
    var d := Decimal(i);
    assert forall c :: c in SpellStep(At(i)) ==> c == '[' || c == ']' || c in d;
  }

  /** The text of `p` after its leading dot: a first part without dots, then the text of `rest`. */
  lemma {:induction false} SpellParts(p: Path, n: nat)
    requires p != [] && p[0].Key? && n < |p|
    ensures Spell(p) != "" && Spell(p)[1..] == (p[0].name + Spell(p[1..n + 1])) + Spell(p[n + 1..])
  {
    hide Spell;
    var a, b := p[1..n + 1], p[n + 1..];
    SpellTail(p);
    assert p[1..] == a + b;
    SpellAppend(a, b);
    Regroup(p[0].name, Spell(a), Spell(b));
  }

  lemma {:induction false} Regroup(a: string, b: string, c: string)
    ensures a + (b + c) == (a + b) + c
  {
  }

  lemma {:induction false} SpellOne(p: Path)
    requires |p| > 1
    ensures Spell(p[1..2]) == SpellStep(p[1])
    ensures Spell(p[1..1]) == ""
  {
    assert p[1..2] == [p[1]] && [p[1]][1..] == [];
  }

  lemma {:induction false} SplitPrinted(p: Path)
    requires Segments(p) && p != []
    ensures SplitPath(Spell(p)[1..]) == TokensFor(p)
    decreases |p|
  {
    var n := if |p| > 1 && p[1].At? then 1 else 0;
    var here, rest := p[0].name + Spell(p[1..n + 1]), p[n + 1..];
    SpellParts(p, n);
    assert TokenOf(here) == TokensFor(p)[0] && '.' !in here by {
      if n == 1 {
        SpellOne(p);
        NoDotInIndex(p[1].i);
        TokenOfIndexed(p[0].name, p[1].i);
      } else {
        assert here == p[0].name;
      }
    }
    SplitHere(here, rest);
    if rest != [] { SplitPrinted(rest); }
  }

  /** An addressable place is read back from its text, in every document, present or not. */
  lemma {:induction false} AddressableReadsBack(v: Json, p: Path)
    requires Addressable(p)
    ensures ReadPath(v, PathText(p)) == Lookup(v, p)
  {
    if p != [] {
      SpellHead(p);
      SplitPrinted(p);
      ReadTokensFor(v, p);
    }
  }

  // ----- and only those

  /** A document holding the string "x" at `p` and nothing else. */
  function Only(p: Path): Json
  {
    if p == [] then Str("x")
    else match p[0]
      case Key(name) => Obj([Field(name, Only(p[1..]))])
      case At(i) => Arr(seq(i, _ => Null) + [Only(p[1..])])
  }

  lemma {:induction false} OnlyHolds(p: Path)
    ensures DistinctNames(Only(p)) && Lookup(Only(p), p) == Some(Str("x"))
  {
    if p != [] { OnlyHolds(p[1..]); }
  }

  /** The tokens lead exactly along `p`. */
  predicate Matches(p: Path, tokens: seq<Token>)
    decreases |tokens|
  {
    if tokens == [] then p == []
    else
      p != [] && p[0] == Key(tokens[0].field) &&
      match tokens[0].index
      case None => Matches(p[1..], tokens[1..])
      case Some(i) => |p| > 1 && i >= 0 && p[1] == At(i) && Matches(p[2..], tokens[1..])
  }

  lemma {:induction false} FindSingle(name: string, v: Json, field: string)
    ensures Find([Field(name, v)], field) == if name == field then Some(v) else None
  {
    assert [Field(name, v)][1..] == [];
  }

  lemma {:induction false} ReadNull(tokens: seq<Token>)
    ensures ReadTokens(Null, tokens) != Some(Str("x"))
  {
  }

  lemma {:induction false} ReadOnly(p: Path, tokens: seq<Token>)
    ensures ReadTokens(Only(p), tokens) == Some(Str("x")) ==> Matches(p, tokens)
    decreases |tokens|
  {
    if tokens == [] {
    } else if p == [] || p[0].At? {
    } else {
      var q := p[1..];
      FindSingle(p[0].name, Only(q), tokens[0].field);
      ReadOnly(q, tokens[1..]);
      if tokens[0].index.Some? && q != [] && q[0].At? {
        assert q[0] == p[1] && q[1..] == p[2..];
        assert Only(q).items == seq(q[0].i, _ => Null) + [Only(q[1..])];
        ReadOnly(p[2..], tokens[1..]);
        ReadNull(tokens[1..]);
      }
    }
  }

  lemma {:induction false} FieldBound(part: string)
    ensures |TokenOf(part).field| <= |part|
    ensures TokenOf(part).index.None? && TokenOf(part).field == part ==> !Bracketed(part)
    ensures '[' in part && Bracketed(part) ==> |TokenOf(part).field| == IndexOf(part, '[') < |part|
    ensures TokenOf(part).index.Some? ==>
      Bracketed(part) && '[' !in TokenOf(part).field && TokenOf(part).index.value < INT64_LIMIT
  {
    if Bracketed(part) { OpenBeforeEnd(part); }
  }

  function Ats(p: Path): (n: nat)
    ensures n <= |p|
    ensures forall k :: 0 <= k < n ==> p[k].At?
    ensures n < |p| ==> p[n].Key?
  {
    if p == [] || p[0].Key? then 0 else
      var n := Ats(p[1..]) + 1;
      assert forall k :: 1 <= k < n ==> p[k] == p[1..][k - 1];
      n
  }

  lemma {:induction false} NoDotInAts(p: Path)
    requires forall k :: 0 <= k < |p| ==> p[k].At?
    ensures '.' !in Spell(p)
  {
    if p != [] {
      NoDotInIndex(p[0].i);
      NoDotInAts(p[1..]);
    }
  }

  lemma {:induction false} DottedNameMismatch(name: string, tail: string)
    requires '.' in name
    ensures |Split(name + tail, '.')[0]| < |name|
  {
    var k := IndexOf(name, '.');
    IndexOfPrefix(name, name, '.');
    var a, b := name[..k], name[k + 1..] + tail;
    assert name + tail == a + ['.'] + b;
    SplitJoin(a, b, '.');
  }

  /** The first part is the name with its run of indices; the other parts belong to the rest. */
  lemma {:induction false} FirstPart(p: Path, n: nat)
    requires p != [] && p[0].Key? && '.' !in p[0].name && n == Ats(p[1..])
    ensures SplitPath(Spell(p)[1..])
         == [TokenOf(p[0].name + Spell(p[1..n + 1]))]
             + (if p[n + 1..] == [] then [] else SplitPath(Spell(p[n + 1..])[1..]))
  {
    var run, rest := p[1..n + 1], p[n + 1..];
    assert run == p[1..][..n];
    assert rest != [] ==> rest[0] == p[1..][n];
    SpellParts(p, n);
    NoDotInAts(run);
    SplitHere(p[0].name + Spell(run), rest);
  }

  lemma {:induction false} NameHasNoDot(p: Path)
    requires p != [] && p[0].Key? && Matches(p, SplitPath(Spell(p)[1..]))
    ensures '.' !in p[0].name
  {
    SpellHead(p);
    FieldBound(Split(Spell(p)[1..], '.')[0]);
    if '.' in p[0].name { DottedNameMismatch(p[0].name, Spell(p[1..])); }
  }

  lemma {:induction false} MatchedIsSegments(p: Path)
    requires p != [] && p[0].Key? && Matches(p, SplitPath(Spell(p)[1..]))
    ensures Segments(p)
    decreases |p|
  {
    NameHasNoDot(p);
    var n := Ats(p[1..]);
    var here, rest := p[0].name + Spell(p[1..n + 1]), p[n + 1..];
    FirstPart(p, n);
    FieldBound(here);
    var tokens := SplitPath(Spell(p)[1..]);
    assert tokens[0] == TokenOf(here);
    assert rest == [] ==> tokens[1..] == [];
    assert rest != [] ==> tokens[1..] == SplitPath(Spell(rest)[1..]) && tokens[1..] != [];
    hide TokenOf, Bracketed;
    PartHolds(p, n, tokens);
    if rest != [] { MatchedIsSegments(rest); }
  }

  /** The part in front holds one name, or one name and one index. */
  lemma {:induction false} PartHolds(p: Path, n: nat, tokens: seq<Token>)
    requires p != [] && p[0].Key? && n == Ats(p[1..]) && tokens != [] && Matches(p, tokens)
    requires tokens[0] == TokenOf(p[0].name + Spell(p[1..n + 1])) && (p[n + 1..] == [] <==> tokens[1..] == [])
    ensures tokens[0].index.None? ==> n == 0 && p[0].name + Spell(p[1..n + 1]) == p[0].name
    ensures tokens[0].index.Some? ==> n == 1 && p[1] == At(tokens[0].index.value) && p[n + 1..] == p[2..]
    ensures Matches(p[n + 1..], tokens[1..])
  {
    hide TokenOf;
    var tail := p[1..];
    if tokens[0].index.None? {
      assert tail == [] || tail[0].Key?;
      assert p[1..1] == [];
    } else {
      assert tail[0] == p[1] && tail[1..] == p[2..];
      assert p[2..] == [] || p[2..][0].Key?;
    }
  }

  /** The text of a place names that place in every document exactly when the place is addressable. */
  lemma {:induction false} AddressableExactly(p: Path)
    ensures (forall v | DistinctNames(v) :: ReadPath(v, PathText(p)) == Lookup(v, p)) <==> Addressable(p)
  {
    if Addressable(p) {
      forall v { AddressableReadsBack(v, p); }
    }
    if forall v | DistinctNames(v) :: ReadPath(v, PathText(p)) == Lookup(v, p) {
      OnlyHolds(p);
      assert ReadPath(Only(p), PathText(p)) == Some(Str("x"));
      if p != [] {
        assert PathText(p)[1] == SpellStep(p[0])[0];
        assert "$." <= PathText(p);
        SpellHead(p);
        ReadOnly(p, SplitPath(PathText(p)[2..]));
        MatchedIsSegments(p);
      }
    }
  }
}
