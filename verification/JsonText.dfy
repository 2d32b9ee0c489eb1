/** `json.Marshal` of decoded values, and request bodies turned into templates. */
module JsonText {
  import opened Text
  import opened Json
  import Numbers
  import opened Templates
  import opened Sources

  function Hex(d: nat): char
    requires d < 16
  {
    "0123456789abcdef"[d]
  }

  predicate PlainChar(c: char)
  {
    ' ' <= c && c != '"' && c != '\\' && c != '<' && c != '>' && c != '&'
  }

  function EscapeChar(c: char): string
  {
    if PlainChar(c) then [c]
    else if c == '"' then "\\\"" else if c == '\\' then "\\\\"
    else if c == '\n' then "\\n" else if c == '\r' then "\\r" else if c == '\t' then "\\t"
    else if c as int == 8 then "\\b" else if c as int == 12 then "\\f"
    else "\\u00" + [Hex(c as int / 16 % 16), Hex(c as int % 16)]
  }

  /** U+2028 or U+2029 at the start of a text: the bytes E2 80 A8 or E2 80 A9. */
  predicate Separator(s: string)
  {
    |s| >= 3 && s[0] as int == 0xE2 && s[1] as int == 0x80 && 0xA8 <= s[2] as int <= 0xA9
  }

  function Escape(s: string): string
    decreases |s|
  {
    if s == "" then ""
    else if Separator(s) then "\\u202" + [Hex(s[2] as int - 0xA0)] + Escape(s[3..])
    else EscapeChar(s[0]) + Escape(s[1..])
  }

  /** No character and no separator needs an escape. */
  predicate Plain(s: string)
  {
    (forall i :: 0 <= i < |s| ==> PlainChar(s[i])) && forall i :: 0 <= i < |s| ==> !Separator(s[i..])
  }

  function Quoted(s: string): string { "\"" + Escape(s) + "\"" }

  function Marshal(v: Json): string
    decreases v
  {
    match v
    case Null => "null"
    case Bool(b) => BoolText(b)
    case Num(n) => Numbers.JsonText(n)
    case Str(s) => Quoted(s)
    case Arr(items) => "[" + MarshalItems(items) + "]"
    case Obj(fields) => "{" + MarshalFields(v, Sorted(fields)) + "}"
  }

  function MarshalItems(items: seq<Json>): string
    decreases items
  {
    if items == [] then ""
    else Marshal(items[0]) + (if |items| > 1 then "," else "") + MarshalItems(items[1..])
  }

  function MarshalFields(owner: Json, fields: seq<Field>): string
    requires owner.Obj? && forall f :: f in fields ==> f in owner.fields
    decreases owner, 0, |fields|
  {
    if fields == [] then ""
    else
      var f := fields[0];
      assert f in owner.fields && f.value < f < owner;
      Quoted(f.name) + ":" + Marshal(f.value) + Comma(fields) + MarshalFields(owner, fields[1..])
  }

  function Comma(fields: seq<Field>): string { if |fields| > 1 then "," else "" }

  /** Escaping changes a string exactly when some character needs it. */
  lemma {:induction false} EscapeIsIdentity(s: string)
    ensures |Escape(s)| >= |s|
    ensures Escape(s) == s <==> Plain(s)
    decreases |s|
  {
    if s == "" {
    } else if Separator(s) {
      EscapeIsIdentity(s[3..]);
      assert s[0..] == s;
    } else {
      EscapeIsIdentity(s[1..]);
      assert s == [s[0]] + s[1..];
      PlainCons(s);
      assert !PlainChar(s[0]) ==> |EscapeChar(s[0])| > 1;
    }
  }

  predicate SeparatorAt(s: string, i: int)
  {
    0 <= i < |s| - 2 && s[i] as int == 0xE2 && s[i + 1] as int == 0x80 &&
    (s[i + 2] as int == 0xA8 || s[i + 2] as int == 0xA9)
  }

  /** The strings that escaping keeps: no control characters, none of `"`, `\`, `<`, `>`, `&`, and neither of U+2028
      and U+2029. */
  lemma {:induction false} PlainExactly(s: string)
    ensures Plain(s) <==>
      (forall i :: 0 <= i < |s| ==> s[i] as int >= 0x20 && s[i] !in "\"\\<>&") && forall i :: !SeparatorAt(s, i)
  {
    forall i | 0 <= i < |s|
      ensures Separator(s[i..]) <==> SeparatorAt(s, i)
      ensures PlainChar(s[i]) <==> s[i] as int >= 0x20 && s[i] !in "\"\\<>&"
    {
      PlainCharExactly(s[i]);
    }
  }

  lemma {:induction false} PlainCharExactly(c: char)
    ensures PlainChar(c) <==> c as int >= 0x20 && c !in "\"\\<>&"
  {
    var special := "\"\\<>&";
    assert special[0] == '"' && special[1] == '\\' && special[2] == '<' && special[3] == '>' && special[4] == '&';
  }

  lemma {:induction false} PlainCons(s: string)
    requires s != ""
    ensures Plain(s) <==> PlainChar(s[0]) && !Separator(s) && Plain(s[1..])
  {
    var t := s[1..];
    assert s[0..] == s;
    assert forall i :: 0 <= i < |t| ==> t[i] == s[i + 1] && t[i..] == s[i + 1..];
    if PlainChar(s[0]) && !Separator(s) && Plain(t) {
      forall i | 0 <= i < |s|
        ensures PlainChar(s[i]) && !Separator(s[i..])
      {
        if i > 0 { assert t[i - 1] == s[i] && t[i - 1..] == s[i..]; }
      }
    }
  }

  // ----- templates of request bodies

  /** A top-level member that becomes an input: a string under a name that is not sensitive. */
  predicate IsInput(f: Field)
  {
    f.value.Str? && !Sensitive(f.name)
  }

  /** A member becomes an input exactly when it is a string and its name holds none of seven words, in any case. */
  lemma {:induction false} InputsExactly(f: Field)
    ensures
      var n := Lower(f.name);
      IsInput(f) <==>
      f.value.Str? && !Contains(n, "token") && !Contains(n, "secret") && !Contains(n, "password") &&
      !Contains(n, "auth") && !Contains(n, "csrf") && !Contains(n, "session") && !Contains(n, "key")
  {
    hide Contains, Sensitive;
    SensitiveExactly(f.name);
  }

  function Templated(f: Field): Field
  {
    if IsInput(f) then Field(f.name, Str(Placeholder(Input(f.name)))) else f
  }

  function TemplatedAll(fields: seq<Field>): seq<Field>
  {
    if fields == [] then [] else [Templated(fields[0])] + TemplatedAll(fields[1..])
  }

  predicate HasInput(fields: seq<Field>)
  {
    exists i :: 0 <= i < |fields| && IsInput(fields[i])
  }

  /** `inferBodyTemplate`, when it has anything to replace. */
  function BodyTemplateText(fields: seq<Field>): string
  {
    Marshal(Obj(TemplatedAll(fields)))
  }

  /** The same text as a template. */
  function BodyTemplate(fields: seq<Field>): Template
  {
    Chars("{") + FieldsTemplate(Sorted(fields)) + Chars("}")
  }

  function ValueTemplate(f: Field): Template
  {
    if IsInput(f) then Chars("\"") + [Hole(Input(f.name))] + Chars("\"") else Chars(Marshal(f.value))
  }

  function FieldsTemplate(fields: seq<Field>): Template
  {
    if fields == [] then []
    else
      Chars(Quoted(fields[0].name) + ":") + ValueTemplate(fields[0]) + Chars(Comma(fields))
      + FieldsTemplate(fields[1..])
  }

  lemma {:induction false} TemplatedCons(f: Field, fields: seq<Field>)
    ensures TemplatedAll([f] + fields) == [Templated(f)] + TemplatedAll(fields)
    ensures Templated(f).name == f.name
  {
    assert ([f] + fields)[1..] == fields;
  }

  lemma {:induction false} InsertTemplated(f: Field, sorted: seq<Field>)
    ensures Insert(Templated(f), TemplatedAll(sorted)) == TemplatedAll(Insert(f, sorted))
  {
    hide Templated, Less;
    TemplatedCons(f, sorted);
    if sorted != [] {
      assert sorted == [sorted[0]] + sorted[1..];
      TemplatedCons(sorted[0], sorted[1..]);
      TemplatedCons(sorted[0], Insert(f, sorted[1..]));
      InsertTemplated(f, sorted[1..]);
    } else {
      assert [f] + [] == [f];
    }
  }

  lemma {:induction false} SortedTemplated(fields: seq<Field>)
    ensures Sorted(TemplatedAll(fields)) == TemplatedAll(Sorted(fields))
  {
    if fields != [] {
      SortedTemplated(fields[1..]);
      assert TemplatedAll(fields)[1..] == TemplatedAll(fields[1..]);
      InsertTemplated(fields[0], Sorted(fields[1..]));
    }
  }

  /** The inputs of a body are spelled in JSON text as they are. */
  ghost predicate PlainInputs(fields: seq<Field>)
  {
    forall f :: f in fields && IsInput(f) ==> Plain(f.name) && Plain(f.value.s)
  }

  lemma {:induction false} PlainPlaceholder(name: string)
    requires Plain(name)
    ensures Escape(Placeholder(Input(name))) == Placeholder(Input(name))
  {
    PlainInside("${input.", name);
    EscapeIsIdentity(Placeholder(Input(name)));
  }

  lemma {:induction false} PlainInside(open: string, name: string)
    requires Plain(name) && forall c :: c in open ==> PlainChar(c) && c as int < 0x80
    ensures Plain(open + name + "}")
    decreases |open| + |name|
  {
    var s := open + name + "}";
    if open != "" {
      assert open[0] in open && s[0] == open[0] && s[1..] == open[1..] + name + "}";
      PlainInside(open[1..], name);
      PlainCons(s);
    } else if name != "" {
      PlainCons(name);
      assert s[0] == name[0] && s[1..] == "" + name[1..] + "}";
      PlainInside("", name[1..]);
      PlainCons(s);
    } else {
      assert s == "}" && s[0..] == s;
    }
  }

  lemma {:induction false} RenderParts(a: string, v: Template, c: string, rest: Template)
    ensures Render(Chars(a) + v + Chars(c) + rest) == a + Render(v) + c + Render(rest)
  {
    RenderAppend(Chars(a) + v + Chars(c), rest);
    RenderAppend(Chars(a) + v, Chars(c));
    RenderAppend(Chars(a), v);
    RenderChars(a);
    RenderChars(c);
  }

  lemma {:induction false} RenderWrap(a: string, v: Template, c: string)
    ensures Render(Chars(a) + v + Chars(c)) == a + Render(v) + c
  {
    RenderAppend(Chars(a) + v, Chars(c));
    RenderAppend(Chars(a), v);
    RenderChars(a);
    RenderChars(c);
  }

  lemma {:induction false} RenderHole(r: Ref)
    ensures Render(Chars("\"") + [Hole(r)] + Chars("\"")) == "\"" + Placeholder(r) + "\""
  {
    RenderWrap("\"", [Hole(r)], "\"");
    assert [Hole(r)][1..] == [];
    assert Render([Hole(r)]) == Placeholder(r);
  }

  lemma {:induction false} ValueTemplateRenders(f: Field)
    requires IsInput(f) ==> Plain(f.name)
    ensures Render(ValueTemplate(f)) == Marshal(Templated(f).value)
  {
    if IsInput(f) {
      PlainPlaceholder(f.name);
      RenderHole(Input(f.name));
    } else {
      RenderChars(Marshal(f.value));
    }
  }

  lemma {:induction false} FieldsTemplateRenders(owner: Json, fields: seq<Field>)
    requires owner.Obj? && forall f :: f in TemplatedAll(fields) ==> f in owner.fields
    requires PlainInputs(fields)
    ensures Render(FieldsTemplate(fields)) == MarshalFields(owner, TemplatedAll(fields))
  {
    if fields != [] {
      assert TemplatedAll(fields)[1..] == TemplatedAll(fields[1..]);
      FieldsTemplateRenders(owner, fields[1..]);
      ValueTemplateRenders(fields[0]);
      RenderParts(Quoted(fields[0].name) + ":", ValueTemplate(fields[0]), Comma(fields), FieldsTemplate(fields[1..]));
      TemplatedLength(fields);
      assert Comma(TemplatedAll(fields)) == Comma(fields);
    }
  }

  lemma {:induction false} TemplatedLength(fields: seq<Field>)
    ensures |TemplatedAll(fields)| == |fields|
  {
    if fields != [] { TemplatedLength(fields[1..]); }
  }

  /** The stored body text is the rendering of the template. */
  lemma {:induction false} BodyTemplateRenders(fields: seq<Field>)
    requires PlainInputs(fields)
    ensures Render(BodyTemplate(fields)) == BodyTemplateText(fields)
  {
    var sorted, owner := Sorted(fields), Obj(TemplatedAll(fields));
    SortedTemplated(fields);
    assert TemplatedAll(sorted) == Sorted(owner.fields);
    FieldsTemplateRenders(owner, sorted);
    RenderWrap("{", FieldsTemplate(sorted), "}");
    MarshalOfObject(owner);
  }

  lemma {:induction false} MarshalOfObject(owner: Json)
    requires owner.Obj?
    ensures Marshal(owner) == "{" + MarshalFields(owner, Sorted(owner.fields)) + "}"
  {
  }

  lemma {:induction false} FillParts(a: string, v: Template, c: string, rest: Template, env: map<Ref, string>)
    ensures Fill(Chars(a) + v + Chars(c) + rest, env) == Chars(a) + Fill(v, env) + Chars(c) + Fill(rest, env)
  {
    FillAppend(Chars(a) + v + Chars(c), rest, env);
    FillAppend(Chars(a) + v, Chars(c), env);
    FillAppend(Chars(a), v, env);
    FillChars(a, env);
    FillChars(c, env);
  }

  lemma {:induction false} FillWrap(a: string, v: Template, c: string, env: map<Ref, string>)
    ensures Fill(Chars(a) + v + Chars(c), env) == Chars(a) + Fill(v, env) + Chars(c)
  {
    FillAppend(Chars(a) + v, Chars(c), env);
    FillAppend(Chars(a), v, env);
    FillChars(a, env);
    FillChars(c, env);
  }

  lemma {:induction false} CharsAppend(a: string, b: string)
    ensures Chars(a + b) == Chars(a) + Chars(b)
  {
  }

  lemma {:induction false} CharsParts(a: string, b: string, c: string, d: string)
    ensures Chars(a + b + c + d) == Chars(a) + Chars(b) + Chars(c) + Chars(d)
  {
    CharsAppend(a + b + c, d);
    CharsAppend(a + b, c);
    CharsAppend(a, b);
  }

  lemma {:induction false} ValueTemplateFills(f: Field, env: map<Ref, string>)
    requires IsInput(f) ==> Plain(f.value.s) && Input(f.name) in env && env[Input(f.name)] == f.value.s
    ensures Fill(ValueTemplate(f), env) == Chars(Marshal(f.value))
  {
    if IsInput(f) {
      var hole := [Hole(Input(f.name))];
      FillWrap("\"", hole, "\"", env);
      assert hole[1..] == [];
      assert Fill(hole, env) == Chars(f.value.s);
      EscapeIsIdentity(f.value.s);
      CharsAppend("\"" + f.value.s, "\"");
      CharsAppend("\"", f.value.s);
    } else {
      FillChars(Marshal(f.value), env);
    }
  }

  lemma {:induction false} FieldsTemplateFills(owner: Json, fields: seq<Field>, env: map<Ref, string>)
    requires owner.Obj? && forall f :: f in fields ==> f in owner.fields
    requires PlainInputs(fields)
    requires forall f :: f in fields && IsInput(f) ==> Input(f.name) in env && env[Input(f.name)] == f.value.s
    ensures Fill(FieldsTemplate(fields), env) == Chars(MarshalFields(owner, fields))
  {
    if fields != [] {
      FieldsTemplateFills(owner, fields[1..], env);
      ValueTemplateFills(fields[0], env);
      FillParts(Quoted(fields[0].name) + ":", ValueTemplate(fields[0]), Comma(fields), FieldsTemplate(fields[1..]),
          env);
      CharsParts(Quoted(fields[0].name) + ":", Marshal(fields[0].value), Comma(fields),
          MarshalFields(owner, fields[1..]));
    }
  }

  /** Filling the template with the captured values gives the captured object, marshalled again. */
  lemma {:induction false} BodyTemplateFills(fields: seq<Field>, env: map<Ref, string>)
    requires PlainInputs(fields)
    requires forall f :: f in fields && IsInput(f) ==> Input(f.name) in env && env[Input(f.name)] == f.value.s
    ensures Fill(BodyTemplate(fields), env) == Chars(Marshal(Obj(fields)))
  {
    hide Fill, FieldsTemplate, MarshalFields, Sorted, Chars;
    FieldsTemplateFills(Obj(fields), Sorted(fields), env);
    FillWrap("{", FieldsTemplate(Sorted(fields)), "}", env);
    CharsAppend("{" + MarshalFields(Obj(fields), Sorted(fields)), "}");
    CharsAppend("{", MarshalFields(Obj(fields), Sorted(fields)));
  }

  lemma {:induction false} FieldsTemplateHoles(fields: seq<Field>, r: Ref)
    ensures Hole(r) in FieldsTemplate(fields) ==> exists f :: f in fields && IsInput(f) && r == Input(f.name)
  {
    hide Quoted, Marshal, Comma, IsInput;
    if fields != [] { FieldsTemplateHoles(fields[1..], r); }
  }

  lemma {:induction false} FieldsTemplateHasHole(fields: seq<Field>, f: Field)
    requires f in fields && IsInput(f)
    ensures Hole(Input(f.name)) in FieldsTemplate(fields)
  {
    hide Quoted, Marshal, Comma;
    var r := Hole(Input(f.name));
    if fields[0] == f {
      var t := Chars("\"") + [r] + Chars("\"");
      assert t[1] == r && ValueTemplate(f) == t;
      assert r in ValueTemplate(f);
    } else {
      FieldsTemplateHasHole(fields[1..], f);
    }
  }

  /** Every input is a hole. */
  lemma {:induction false} BodyTemplateHasHole(fields: seq<Field>, f: Field)
    requires f in fields && IsInput(f)
    ensures Hole(Input(f.name)) in BodyTemplate(fields)
  {
    FieldsTemplateHasHole(Sorted(fields), f);
  }

  /** The only holes are the inputs. */
  lemma {:induction false} BodyTemplateHoles(fields: seq<Field>, r: Ref)
    ensures Hole(r) in BodyTemplate(fields) ==> exists f :: f in fields && IsInput(f) && r == Input(f.name)
  {
    FieldsTemplateHoles(Sorted(fields), r);
  }

  lemma {:induction false} FilledValue(f: Field)
    requires IsInput(f)
    ensures Render(Fill(ValueTemplate(f), map[Input(f.name) := f.value.s])) == "\"" + f.value.s + "\""
  {
    hide Escape, Marshal;
    var hole, env, v := [Hole(Input(f.name))], map[Input(f.name) := f.value.s], f.value.s;
    FillWrap("\"", hole, "\"", env);
    assert hole[1..] == [];
    assert Fill(hole, env) == Chars(v);
    RenderWrap("\"", Chars(v), "\"");
    RenderChars(v);
  }

  /** Substituting the captured string back is the captured JSON text exactly when the string needs no escaping:
      the runner pastes raw text between the quotes. */
  lemma {:induction false} InputFaithfulExactly(f: Field)
    requires IsInput(f)
    ensures Render(Fill(ValueTemplate(f), map[Input(f.name) := f.value.s])) == Marshal(f.value) <==> Plain(f.value.s)
  {
    hide Escape, Fill, Render, ValueTemplate;
    var v := f.value.s;
    FilledValue(f);
    EscapeIsIdentity(v);
    assert ("\"" + v + "\"")[1..|v| + 1] == v;
    assert Quoted(v)[1..|Escape(v)| + 1] == Escape(v);
  }
}
