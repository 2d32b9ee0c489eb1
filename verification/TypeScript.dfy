/** The evaluator inside exported TypeScript projects, and its agreement with the runner. */
module TypeScript {
  import opened Text
  import opened Options
  import opened Json
  import opened Numbers
  import opened Paths
  import opened Templates
  import JsonReader

  // ----- bind

  /** `String(input[key] ?? '')`. */
  function Get(m: map<string, string>, key: string): string
  {
    if key in m then m[key] else ""
  }

  function GetOutput(outputs: Outputs, step: string, key: string): string
  {
    if step in outputs then Get(outputs[step], key) else ""
  }

  /** A match of the input pattern at the start of `s`: its key. */
  function InputMatch(s: string): Option<string>
  {
    if "${input." <= s then
      var k := IndexOf(s[8..], '}');
      if 0 < k < |s| - 8 then Some(s[8..8 + k]) else None
    else None
  }

  /** A match of the step pattern at the start of `s`: step id and key. */
  function StepMatch(s: string): Option<(string, string)>
  {
    if "${steps." <= s then
      var rest := s[8..];
      var close := IndexOf(rest, '}');
      var dot := IndexOf(rest, '.');
      if 0 < dot < close - 1 && close < |rest| then Some((rest[..dot], rest[dot + 1..close])) else None
    else None
  }

  /** The first global replacement of `bind`. */
  function BindInputs(s: string, inputs: map<string, string>): string
    decreases |s|
  {
    if s == "" then ""
    else
      match InputMatch(s)
      case None => [s[0]] + BindInputs(s[1..], inputs)
      case Some(key) => Get(inputs, key) + BindInputs(s[9 + |key|..], inputs)
  }

  /** The second one. */
  function BindSteps(s: string, outputs: Outputs): string
    decreases |s|
  {
    if s == "" then ""
    else
      match StepMatch(s)
      case None => [s[0]] + BindSteps(s[1..], outputs)
      case Some((step, key)) => GetOutput(outputs, step, key) + BindSteps(s[10 + |step| + |key|..], outputs)
  }

  function Bind(s: string, inputs: map<string, string>, outputs: Outputs): string
  {
    BindSteps(BindInputs(s, inputs), outputs)
  }

  /** References with a non-empty key, and a non-empty step id. */
  predicate Named(r: Ref)
  {
    r.key != "" && (r.Output? ==> r.step != "")
  }

  predicate StartsWithInput(s: string, key: string)
  {
    key != "" && '}' !in key && "${input." + key + "}" <= s
  }

  predicate StartsWithStep(s: string, step: string, key: string)
  {
    step != "" && '.' !in step && '}' !in step && key != "" && '}' !in key && "${steps." + step + "." + key + "}" <= s
  }

  /** The input pattern: a non-empty key without `}` between its braces. */
  lemma {:induction false} InputMatchExactly(s: string, key: string)
    ensures InputMatch(s) == Some(key) <==> StartsWithInput(s, key)
  {
    var open, p := "${input.", "${input." + key + "}";
    if InputMatch(s) == Some(key) {
      assert s[..8] == open && s[8..8 + |key|] == key && s[8..][|key|] == '}';
      assert p == s[..9 + |key|];
    }
    if StartsWithInput(s, key) {
      assert s == p + s[|p|..];
      InputMatches(key, s[|p|..]);
    }
  }

  /** The step pattern: a non-empty step id without `.` and `}`, and a non-empty key without `}`. */
  lemma {:induction false} StepMatchExactly(s: string, step: string, key: string)
    ensures StepMatch(s) == Some((step, key)) <==> StartsWithStep(s, step, key)
  {
    var p := "${steps." + step + "." + key + "}";
    if StepMatch(s) == Some((step, key)) { StepMatchStarts(s, step, key); }
    if StartsWithStep(s, step, key) {
      assert s == p + s[|p|..];
      StepMatches(step, key, s[|p|..]);
    }
  }

  lemma {:induction false} StepMatchStarts(s: string, step: string, key: string)
    requires StepMatch(s) == Some((step, key))
    ensures StartsWithStep(s, step, key)
  {
    var rest := s[8..];
    var dot, close := IndexOf(rest, '.'), IndexOf(rest, '}');
    assert step == rest[..dot] && key == rest[dot + 1..close] && rest[dot] == '.' && rest[close] == '}';
    assert '}' !in rest[..close];
    assert forall c :: c in step ==> c in rest[..close] by { assert rest[..close][..dot] == step; }
    assert forall c :: c in key ==> c in rest[..close] by { assert rest[..close][dot + 1..] == key; }
    assert rest[..close + 1] == step + "." + key + "}";
    assert s[..8] == "${steps." && s[..9 + close] == "${steps." + (step + "." + key + "}");
    assert "${steps." + (step + "." + key + "}") == "${steps." + step + "." + key + "}";
  }

  /** Inputs are replaced first: a reference that comes with an input's value is replaced in turn. */
  lemma {:induction false} InputsComeFirst(name: string, step: string, key: string, outputs: Outputs)
    requires name != "" && '}' !in name
    requires step != "" && '.' !in step && '}' !in step && key != "" && '}' !in key
    ensures Bind(Placeholder(Input(name)), map[name := Placeholder(Output(step, key))], outputs)
         == GetOutput(outputs, step, key)
  {
    var p, q := Placeholder(Input(name)), Placeholder(Output(step, key));
    InputMatches(name, "");
    StepMatches(step, key, "");
    assert p + "" == p && q + "" == q;
    assert BindInputs("", map[name := q]) == "" && BindSteps("", outputs) == "";
    assert BindInputs(p, map[name := q]) == q + "" by { hide InputMatch, Placeholder; }
    assert BindSteps(q, outputs) == GetOutput(outputs, step, key) + "" by { hide StepMatch, Placeholder; }
  }

  lemma {:induction false} InputMatches(key: string, rest: string)
    requires '}' !in key && key != ""
    ensures
      var s := Placeholder(Input(key)) + rest;
      InputMatch(s) == Some(key) && s[9 + |key|..] == rest
  {
    var s := Placeholder(Input(key)) + rest;
    assert s == "${input." + (key + ['}'] + rest);
    assert s[..8] == "${input." && s[8..] == key + ['}'] + rest;
    IndexOfAfter(key, rest, '}');
    assert s[8..8 + |key|] == key;
  }

  lemma {:induction false} StepMatches(step: string, key: string, rest: string)
    requires '}' !in step && '.' !in step && step != "" && '}' !in key && key != ""
    ensures
      var s := Placeholder(Output(step, key)) + rest;
      StepMatch(s) == Some((step, key)) && s[10 + |step| + |key|..] == rest
  {
    hide IndexOf;
    var s := Placeholder(Output(step, key)) + rest;
    var body := step + "." + key;
    assert s == "${steps." + (body + ['}'] + rest);
    assert s[..8] == "${steps." && s[8..] == body + ['}'] + rest;
    IndexOfAfter(body, rest, '}');
    assert s[8..] == step + ['.'] + (key + ['}'] + rest);
    IndexOfAfter(step, key + ['}'] + rest, '.');
    assert s[8..][..|step|] == step && s[8..][|step| + 1..|body|] == key;
  }

  /** Neither pattern starts where no `${` starts, and each ignores the other's placeholders. */
  lemma {:induction false} NoMatch(s: string)
    requires |s| < 2 || s[0] != '$' || s[1] != '{'
    ensures InputMatch(s).None? && StepMatch(s).None?
  {
  }

  lemma {:induction false} OtherPattern(r: Ref, rest: string)
    ensures r.Output? ==> InputMatch(Placeholder(r) + rest).None?
    ensures r.Input? ==> StepMatch(Placeholder(r) + rest).None?
  {
    var s := Placeholder(r) + rest;
    assert s[2] == Placeholder(r)[2];
  }

  lemma {:induction false} BindInputsSkips(u: string, rest: string, inputs: map<string, string>)
    requires '$' !in u
    ensures BindInputs(u + rest, inputs) == u + BindInputs(rest, inputs)
  {
    hide InputMatch;
    if u == "" {
      assert u + rest == rest;
    } else {
      assert (u + rest)[0] == u[0] && u[0] in u && (u + rest)[1..] == u[1..] + rest;
      NoMatch(u + rest);
      BindInputsSkips(u[1..], rest, inputs);
      assert u + BindInputs(rest, inputs) == [u[0]] + (u[1..] + BindInputs(rest, inputs));
    }
  }

  lemma {:induction false} BindStepsSkips(u: string, rest: string, outputs: Outputs)
    requires '$' !in u
    ensures BindSteps(u + rest, outputs) == u + BindSteps(rest, outputs)
  {
    hide StepMatch;
    if u == "" {
      assert u + rest == rest;
    } else {
      assert (u + rest)[0] == u[0] && u[0] in u && (u + rest)[1..] == u[1..] + rest;
      NoMatch(u + rest);
      BindStepsSkips(u[1..], rest, outputs);
      assert u + BindSteps(rest, outputs) == [u[0]] + (u[1..] + BindSteps(rest, outputs));
    }
  }

  lemma {:induction false} NoMatchAtPlainChar(c: char, t: Template)
    requires c == '$' && t != [] ==> t[0] != Char('{')
    ensures InputMatch([c] + Render(t)).None? && StepMatch([c] + Render(t)).None?
  {
    var s := [c] + Render(t);
    if t != [] {
      FirstOfRender(t);
      assert s[1] == Render(t)[0];
    }
    NoMatch(s);
  }

  lemma {:induction false} TailHasNoDollar(r: Ref)
    requires GoodRef(r)
    ensures '$' !in Placeholder(r)[1..]
  {
  }

  /** Rendering after one atom was filled. */
  lemma {:induction false} RenderFilled(t: Template, env: map<Ref, string>)
    requires t != []
    ensures
      var rest := Render(Fill(t[1..], env));
      Render(Fill(t, env)) == (if t[0].Hole? && t[0].ref in env then env[t[0].ref] else RenderAtom(t[0])) + rest
  {
    var here := if t[0].Hole? && t[0].ref in env then Chars(env[t[0].ref]) else [t[0]];
    RenderAppend(here, Fill(t[1..], env));
    if t[0].Hole? && t[0].ref in env {
      RenderChars(env[t[0].ref]);
    } else {
      assert [t[0]][1..] == [];
      assert Render([t[0]]) == RenderAtom(t[0]);
    }
  }

  /** The input pass over one placeholder. */
  lemma {:induction false} InputPassHole(r: Ref, rest: string, inputs: map<string, string>)
    requires GoodRef(r) && Named(r)
    ensures BindInputs(Placeholder(r) + rest, inputs)
         == (if r.Input? then Get(inputs, r.key) else Placeholder(r)) + BindInputs(rest, inputs)
  {
    if r.Input? {
      InputMatches(r.key, rest);
    } else {
      OtherPattern(r, rest);
      TailHasNoDollar(r);
      InputPassSkips(Placeholder(r), rest, inputs);
    }
  }

  lemma {:induction false} InputPassSkips(p: string, rest: string, inputs: map<string, string>)
    requires p != "" && '$' !in p[1..] && InputMatch(p + rest).None?
    ensures BindInputs(p + rest, inputs) == p + BindInputs(rest, inputs)
  {
    hide InputMatch;
    assert (p + rest)[0] == p[0] && (p + rest)[1..] == p[1..] + rest;
    BindInputsSkips(p[1..], rest, inputs);
    assert p + BindInputs(rest, inputs) == [p[0]] + (p[1..] + BindInputs(rest, inputs));
  }

  /** The step pass over one placeholder of a step output. */
  lemma {:induction false} StepPassHole(r: Ref, rest: string, outputs: Outputs)
    requires GoodRef(r) && Named(r) && r.Output?
    ensures BindSteps(Placeholder(r) + rest, outputs) == GetOutput(outputs, r.step, r.key) + BindSteps(rest, outputs)
  {
    StepMatches(r.step, r.key, rest);
  }

  lemma {:induction false} PassesOverChar(c: char, t: Template, inputs: map<string, string>, outputs: Outputs)
    requires c == '$' && t != [] ==> t[0] != Char('{')
    ensures BindInputs([c] + Render(t), inputs) == [c] + BindInputs(Render(t), inputs)
    ensures BindSteps([c] + Render(t), outputs) == [c] + BindSteps(Render(t), outputs)
  {
    NoMatchAtPlainChar(c, t);
    assert ([c] + Render(t))[1..] == Render(t);
  }

  /** `env` gives the references of `t` what `bind` finds for them. */
  ghost predicate Finds(t: Template, env: map<Ref, string>, inputs: map<string, string>, outputs: Outputs)
  {
    forall r :: Hole(r) in t ==>
      r in env && env[r] == if r.Input? then Get(inputs, r.key) else GetOutput(outputs, r.step, r.key)
  }

  ghost predicate AllNamed(t: Template) { forall r :: Hole(r) in t ==> Named(r) }

  function InputsOf(env: map<Ref, string>): map<Ref, string> { map r | r in env && r.Input? :: env[r] }

  function OutputsOf(env: map<Ref, string>): map<Ref, string> { map r | r in env && r.Output? :: env[r] }

  lemma {:induction false} InputPassFills(
      t: Template, inputs: map<string, string>, outputs: Outputs, env: map<Ref, string>)
    requires GoodHoles(t) && Quiet(t) && AllNamed(t) && Finds(t, env, inputs, outputs)
    ensures BindInputs(Render(t), inputs) == Render(Fill(t, InputsOf(env)))
    decreases |t|
  {
    if t != [] {
      assert GoodHoles(t[1..]) && Quiet(t[1..]) && AllNamed(t[1..]) && Finds(t[1..], env, inputs, outputs);
      InputPassFills(t[1..], inputs, outputs, env);
      RenderFilled(t, InputsOf(env));
      match t[0] {
        case Char(c) => PassesOverChar(c, t[1..], inputs, map[]);
        case Hole(r) =>
          assert Hole(r) in t;
          InputPassHole(r, Render(t[1..]), inputs);
      }
    }
  }

  lemma {:induction false} StepPassFills(
      t: Template, inputs: map<string, string>, outputs: Outputs, env: map<Ref, string>)
    requires GoodHoles(t) && Quiet(t) && AllNamed(t) && Finds(t, env, inputs, outputs)
    requires forall r :: Hole(r) in t ==> r.Output?
    ensures BindSteps(Render(t), outputs) == Render(Fill(t, OutputsOf(env)))
    decreases |t|
  {
    if t != [] {
      assert GoodHoles(t[1..]) && Quiet(t[1..]) && AllNamed(t[1..]) && Finds(t[1..], env, inputs, outputs);
      StepPassFills(t[1..], inputs, outputs, env);
      RenderFilled(t, OutputsOf(env));
      match t[0] {
        case Char(c) => PassesOverChar(c, t[1..], map[], outputs);
        case Hole(r) =>
          assert Hole(r) in t;
          StepPassHole(r, Render(t[1..]), outputs);
      }
    }
  }

  lemma {:induction false} FillThen(t: Template, a: map<Ref, string>, b: map<Ref, string>)
    ensures Fill(Fill(t, a), b) == Fill(t, b + a)
  {
    if t != [] {
      FillThen(t[1..], a, b);
      if t[0].Hole? && t[0].ref in a {
        FillAppend(Chars(a[t[0].ref]), Fill(t[1..], a), b);
        FillChars(a[t[0].ref], b);
      } else {
        assert ([t[0]] + Fill(t[1..], a))[1..] == Fill(t[1..], a);
      }
    }
  }

  /** `bind` is the simultaneous substitution of what it finds, when that spells no `${`. */
  lemma {:induction false} BindFills(t: Template, inputs: map<string, string>, outputs: Outputs, env: map<Ref, string>)
    requires GoodHoles(t) && AllNamed(t) && Finds(t, env, inputs, outputs) && Quiet(Fill(t, env))
    ensures Bind(Render(t), inputs, outputs) == Render(Fill(t, env))
  {
    var first, second := InputsOf(env), OutputsOf(env);
    assert second + first == env;
    FillThen(t, first, second);
    var mid := Fill(t, first);
    QuietBefore(t, env);
    QuietBefore(mid, second);
    InputPassFills(t, inputs, outputs, env);
    forall r | Hole(r) in mid
      ensures Hole(r) in t && r.Output?
    {
      FilledHoles(t, first, r);
    }
    StepPassFills(mid, inputs, outputs, env);
  }

  lemma {:induction false} KnownAreFound(t: Template, inputs: map<string, string>, outputs: Outputs)
    requires forall r :: Hole(r) in t ==> r in Env(inputs, outputs)
    ensures Finds(t, Env(inputs, outputs), inputs, outputs)
  {
    forall r | Hole(r) in t
      ensures Env(inputs, outputs)[r] == if r.Input? then Get(inputs, r.key) else GetOutput(outputs, r.step, r.key)
    {
      assert Known(r, inputs, outputs);
    }
  }

  /** The exported `bind` performs the same simultaneous substitution as the runner: on a template all of whose
      references are named and known, and whose filled text has no `${`, it returns what every expansion of the
      runner returns. */
  lemma {:induction false} EvaluatorsAgree(t: Template, inputs: map<string, string>, outputs: Outputs)
    requires GoodHoles(t) && (forall r :: Hole(r) in t ==> Named(r) && r in Env(inputs, outputs))
    requires forall q :: q in Env(inputs, outputs) ==> GoodRef(q)
    requires Quiet(Fill(t, Env(inputs, outputs)))
    ensures forall r :: Expansion(Render(t), Env(inputs, outputs), r) <==> r == Bind(Render(t), inputs, outputs)
  {
    KnownAreFound(t, inputs, outputs);
    BindFills(t, inputs, outputs, Env(inputs, outputs));
    RenderExpands(t, Env(inputs, outputs));
  }

  // ----- unresolved references

  /** Names every JavaScript object inherits. */
  const INHERITED: set<string> := {
    "constructor", "hasOwnProperty", "isPrototypeOf", "propertyIsEnumerable", "toLocaleString", "toString", "valueOf",
    "__proto__", "__defineGetter__", "__defineSetter__", "__lookupGetter__", "__lookupSetter__" }

  /** A reference that cannot find an inherited property. */
  predicate Own(r: Ref)
  {
    r.key !in INHERITED && (r.Output? ==> r.step !in INHERITED)
  }

  function HolesOf(t: Template): (s: set<Ref>)
    ensures forall r :: r in s <==> Hole(r) in t
  {
    if t == [] then {}
    else
      assert t == [t[0]] + t[1..];
      (if t[0].Hole? then {t[0].ref} else {}) + HolesOf(t[1..])
  }

  /** Unresolved references of `t` read as empty. */
  function Blanked(t: Template, env: map<Ref, string>): map<Ref, string>
  {
    map r | r in HolesOf(t) + env.Keys :: if r in env then env[r] else ""
  }

  lemma {:induction false} BlankedIsFound(t: Template, inputs: map<string, string>, outputs: Outputs)
    ensures Finds(t, Blanked(t, Env(inputs, outputs)), inputs, outputs)
  {
    forall r | Hole(r) in t
      ensures Blanked(t, Env(inputs, outputs))[r] == if r.Input? then Get(inputs, r.key)
        else GetOutput(outputs, r.step, r.key)
    {
      assert r in Env(inputs, outputs) <==> Known(r, inputs, outputs);
    }
  }

  /** Reading unresolved references as empty shortens the text, unless there are none. */
  lemma {:induction false} BlankingShortens(t: Template, env: map<Ref, string>, all: map<Ref, string>)
    requires forall r :: Hole(r) in t ==> r in all && all[r] == if r in env then env[r] else ""
    ensures |Render(Fill(t, all))| <= |Render(Fill(t, env))|
    ensures |Render(Fill(t, all))| == |Render(Fill(t, env))| <==> forall r :: Hole(r) in t ==> r in env
    decreases |t|
  {
    if t != [] {
      BlankingShortens(t[1..], env, all);
      RenderFilled(t, env);
      RenderFilled(t, all);
      assert t == [t[0]] + t[1..];
      assert forall r :: Hole(r) in t <==> t[0] == Hole(r) || Hole(r) in t[1..];
    }
  }

  /** The two evaluators agree exactly when every reference is resolved: `bind` drops an unresolved one, the runner
      leaves it in the text. */
  lemma {:induction false} EvaluatorsAgreeExactly(t: Template, inputs: map<string, string>, outputs: Outputs)
    requires GoodHoles(t) && forall r :: Hole(r) in t ==> Named(r) && Own(r)
    requires forall q :: q in Env(inputs, outputs) ==> GoodRef(q)
    requires Quiet(Fill(t, Env(inputs, outputs))) && Quiet(Fill(t, Blanked(t, Env(inputs, outputs))))
    ensures (forall r :: Expansion(Render(t), Env(inputs, outputs), r) <==> r == Bind(Render(t), inputs, outputs))
            <==> forall r :: Hole(r) in t ==> r in Env(inputs, outputs)
  {
    hide Expansion;
    var env := Env(inputs, outputs);
    var all := Blanked(t, env);
    BlankedIsFound(t, inputs, outputs);
    BindFills(t, inputs, outputs, all);
    BlankingShortens(t, env, all);
    RenderExpands(t, env);
    if forall r :: Hole(r) in t ==> r in env {
      EvaluatorsAgree(t, inputs, outputs);
    } else {
      assert Expansion(Render(t), env, Render(Fill(t, env)));
    }
  }

  /** How the exported code prints an extracted value: `String(v ?? '')` for values that are not containers. */
  function JsPrint(v: Json): string
    requires !v.Arr? && !v.Obj?
  {
    match v
    case Null => ""
    case Bool(b) => BoolText(b)
    case Num(n) => JsText(n)
    case Str(s) => s
  }

  /** Go and JavaScript print a value alike exactly when it is no null, no number from 10^6 up to 10^21 or from 10^-9
      up to 10^-4 in size, and no negative zero. */
  lemma {:induction false} PrintsAlikeExactly(v: Json)
    requires !v.Arr? && !v.Obj? && (v.Num? ==> Proper(v.n))
    ensures JsPrint(v) == Sprint(v) <==> v != Null && (v.Num? ==> SpelledAlike(v.n))
  {
    if v.Num? { NumbersAlikeExactly(v.n); }
  }

  /** What the exported code prints: nothing for null, booleans and strings as they are, and for a number a text that
      reads as it, without the sign of zero. */
  lemma {:induction false} JsPrintExactly(v: Json)
    requires !v.Arr? && !v.Obj? && (v.Num? ==> Proper(v.n))
    ensures v.Null? ==> JsPrint(v) == ""
    ensures v.Bool? ==> JsPrint(v) == if v.b then "true" else "false"
    ensures v.Str? ==> JsPrint(v) == v.s
    ensures v.Num? ==>
      JsonReader.ReadNumber(JsPrint(v) + "") == Some((if v.n.digits == "" then Number(false, "", 0) else v.n, ""))
  {
    hide JsonReader.ReadNumber, JsMagnitude;
    if v.Num? {
      var n := if v.n.digits == "" then Number(false, "", 0) else v.n;
      assert n.digits == "" ==> v.n == Number(v.n.negative, "", 0);
      assert JsPrint(v) == Numbers.JsonText(n);
      JsonReader.NumberReads(n, "");
    }
  }

  ghost predicate SpellsSegment(part: string, field: string, index: Option<int>)
  {
    field != "" && '[' !in field &&
    match index
    case None => part == field
    case Some(i) => exists digits :: IndexDigits(digits, i) && part == field + ("[" + digits + "]")
  }

  predicate IndexDigits(digits: string, i: int) { Digits(digits) && i == Value(digits) }

  // ----- readPath

  /** The segment pattern: a name without `[`, then possibly one decimal index. */
  function SegmentMatch(part: string): Option<Token>
  {
    var k := IndexOf(part, '[');
    if k == 0 || part == "" then None
    else if k == |part| then Some(Token(part, None))
    else if part[|part| - 1] == ']' && k < |part| - 1 && Digits(part[k + 1..|part| - 1]) then
      Some(Token(part[..k], Some(Value(part[k + 1..|part| - 1]))))
    else None
  }

  lemma {:induction false} SegmentSpelled(part: string, field: string, index: Option<int>)
    requires SegmentMatch(part) == Some(Token(field, index))
    ensures SpellsSegment(part, field, index)
  {
    var k := IndexOf(part, '[');
    if index.Some? {
      var digits := part[k + 1..|part| - 1];
      assert part == field + ("[" + digits + "]") && IndexDigits(digits, index.value);
    } else {
      assert part[..k] == part;
    }
  }

  lemma {:induction false} IndexedMatches(field: string, digits: string)
    requires field != "" && '[' !in field && Digits(digits)
    ensures SegmentMatch(field + ("[" + digits + "]")) == Some(Token(field, Some(Value(digits))))
  {
    hide Value;
    var part := field + ("[" + digits + "]");
    assert part == field + ['['] + (digits + "]");
    IndexOfAfter(field, digits + "]", '[');
    assert part[|field| + 1..|part| - 1] == digits && part[..|field|] == field;
  }

  /** The segment pattern: a non-empty name without `[`, alone or with an index in decimal digits. */
  lemma {:induction false} SegmentMatchExactly(part: string, field: string, index: Option<int>)
    ensures SegmentMatch(part) == Some(Token(field, index)) <==> SpellsSegment(part, field, index)
  {
    if SegmentMatch(part) == Some(Token(field, index)) { SegmentSpelled(part, field, index); }
    if SpellsSegment(part, field, index) {
      if index.Some? {
        var digits :| IndexDigits(digits, index.value) && part == field + ("[" + digits + "]");
        IndexedMatches(field, digits);
      } else {
        NoneIndex(part);
      }
    }
  }

  lemma {:induction false} NoneIndex(part: string)
    requires '[' !in part
    ensures IndexOf(part, '[') == |part|
  {
  }

  /** An own property of an object or an array; `None` is `undefined`. Inherited properties are not modelled. */
  function Member(v: Json, name: string): Option<Json>
  {
    match v
    case Obj(fields) => Find(fields, name)
    case Arr(items) =>
      if name == "length" then Some(Num(Whole(|items|)))
      else if Digits(name) && Decimal(Value(name)) == name && Value(name) < |items| then Some(items[Value(name)])
      else None
    case _ => None
  }

  function ReadSegment(v: Json, part: string): Option<Json>
  {
    var token := SegmentMatch(part);
    if token.None? then None
    else
      var next := Member(v, token.value.field);
      match token.value.index
      case None => next
      case Some(i) => if next.Some? && next.value.Arr? &&
          0 <= i < |next.value.items| then Some(next.value.items[i]) else None
  }

  function ReadSegments(v: Json, parts: seq<string>): Option<Json>
    decreases |parts|
  {
    if parts == [] then Some(v)
    else
      match ReadSegment(v, parts[0])
      case None => None
      case Some(next) => ReadSegments(next, parts[1..])
  }

  function ReadPathTs(root: Json, path: string): Option<Json>
  {
    if path == "$" then Some(root)
    else if "$." <= path then ReadSegments(root, Split(path[2..], '.'))
    else None
  }

  predicate NameAlone(name: string) { name != "" && '.' !in name && '[' !in name }

  /** A name after an array: the exported reader finds the length and, under its decimal index, an element; the runner's
      reader finds nothing there. */
  lemma {:induction false} ArrayMemberExactly(list: string, items: seq<Json>, name: string)
    requires NameAlone(list) && NameAlone(name)
    ensures
      var root, path := Obj([Field(list, Arr(items))]), "$." + list + "." + name;
      ReadPath(root, path) == None && ReadPathTs(root, path) == ArrayMember(items, name)
  {
    var root, path := Obj([Field(list, Arr(items))]), "$." + list + "." + name;
    assert path[2..] == list + ['.'] + name && "$." <= path && path != "$";
    SplitJoin(list, name, '.');
    SplitSingle(name, '.');
    assert [list] + [name] == [list, name];
    NoneIndex(list);
    NoneIndex(name);
    assert list[..|list|] == list && name[..|name|] == name;
    var parts := [list, name];
    assert parts[1..] == [name] && [name][1..] == [];
    assert ReadSegment(root, list) == Some(Arr(items));
    NamedMember(items, name);
    assert ReadSegments(Arr(items), [name]) == ArrayMember(items, name) by {
      assert ReadSegment(Arr(items), name) == ArrayMember(items, name);
    }
    RunnerFindsNone(root, list, name, items);
  }

  function ArrayMember(items: seq<Json>, name: string): Option<Json>
  {
    if name == "length" then Some(Num(Whole(|items|))) else IndexedBy(items, name, |items|)
  }

  /** The element whose index is spelled so, among the first `n`. */
  function IndexedBy(items: seq<Json>, name: string, n: nat): Option<Json>
    requires n <= |items|
  {
    if n == 0 then None else if Decimal(n - 1) == name then Some(items[n - 1]) else IndexedBy(items, name, n - 1)
  }

  lemma {:induction false} IndexedWhere(items: seq<Json>, name: string, n: nat)
    requires n <= |items|
    ensures IndexedBy(items, name, n)
         == if Digits(name) && Decimal(Value(name)) == name && Value(name) < n then Some(items[Value(name)]) else None
  {
    hide Value, Decimal;
    if n > 0 {
      IndexedWhere(items, name, n - 1);
      ValueOfDecimal(n - 1);
    }
  }

  lemma {:induction false} NamedMember(items: seq<Json>, name: string)
    requires NameAlone(name)
    ensures ReadSegment(Arr(items), name) == ArrayMember(items, name)
  {
    hide IndexedBy;
    NoneIndex(name);
    IndexedWhere(items, name, |items|);
  }

  lemma {:induction false} RunnerFindsNone(root: Json, list: string, name: string, items: seq<Json>)
    requires NameAlone(list) && NameAlone(name) && root == Obj([Field(list, Arr(items))])
    ensures ReadPath(root, "$." + list + "." + name) == None
  {
    var path := "$." + list + "." + name;
    assert path[2..] == list + ['.'] + name && "$." <= path && path != "$";
    SplitJoin(list, name, '.');
    SplitSingle(name, '.');
    assert [list] + [name] == [list, name];
    var parts := [list, name];
    var tokens := TokensOf(parts);
    assert parts[1..] == [name] && [name][1..] == [];
    assert TokenOf(list) == Token(list, None) && TokenOf(name) == Token(name, None);
    assert TokensOf([name]) == [Token(name, None)];
    assert tokens == [Token(list, None), Token(name, None)];
    assert tokens[1..] == [Token(name, None)];
    assert ReadToken(root, tokens[0]) == Some(Arr(items));
    assert ReadTokens(Arr(items), tokens[1..]) == None;
    assert SplitPath(path[2..]) == tokens;
  }

  /** The emitted loop. */
  method ReadPathLoop(root: Json, path: string) returns (r: Option<Json>)
    ensures r == ReadPathTs(root, path)
  {
    if path == "$" { return Some(root); }
    if !("$." <= path) { return None; }
    var parts := Split(path[2..], '.');
    var current := root;
    for k := 0 to |parts|
      invariant ReadSegments(root, parts) == ReadSegments(current, parts[k..])
    {
      assert parts[k..][0] == parts[k] && parts[k..][1..] == parts[k + 1..];
      var next := ReadSegment(current, parts[k]);
      if next.None? { return None; }
      current := next.value;
    }
    return Some(current);
  }

  /** The text of each segment of an addressable place. */
  function Parts(p: Path): seq<string>
    requires Segments(p)
    decreases |p|
  {
    if p == [] then []
    else if |p| > 1 && p[1].At? then [p[0].name + SpellStep(p[1])] + Parts(p[2..])
    else [p[0].name] + Parts(p[1..])
  }

  lemma {:induction false} SplitIsParts(p: Path)
    requires Segments(p) && p != []
    ensures Spell(p) != "" && Split(Spell(p)[1..], '.') == Parts(p)
    decreases |p|
  {
    var n := if |p| > 1 && p[1].At? then 1 else 0;
    var here, rest := p[0].name + Spell(p[1..n + 1]), p[n + 1..];
    SpellParts(p, n);
    assert Parts(p) == [here] + Parts(rest) && '.' !in here by {
      if n == 1 {
        SpellOne(p);
        NoDotInIndex(p[1].i);
      } else {
        assert here == p[0].name;
      }
    }
    if rest == [] {
      SplitSingle(here, '.');
      assert here + Spell(rest) == here;
    } else {
      SplitIsParts(rest);
      SpellTail(rest);
      assert rest[0].Key? && Spell(rest) == "." + Spell(rest)[1..];
      SplitJoin(here, Spell(rest)[1..], '.');
      assert here + Spell(rest) == here + ['.'] + Spell(rest)[1..];
    }
  }

  /** Names the segment pattern accepts. */
  predicate PatternNames(p: Path)
  {
    forall k :: 0 <= k < |p| && p[k].Key? ==> p[k].name != "" && '[' !in p[k].name
  }

  lemma {:induction false} SegmentOfName(name: string)
    requires !Bracketed(name)
    ensures SegmentMatch(name) == if name != "" && '[' !in name then Some(Token(name, None)) else None
  {
    var k := IndexOf(name, '[');
    assert '[' in name ==> k < |name| by {
      if '[' in name { IndexOfPrefix(name, name, '['); }
    }
    assert k < |name| ==> name[k] in name;
  }

  lemma {:induction false} SegmentOfBrackets(name: string, inner: string)
    requires '[' !in name && Digits(inner)
    ensures SegmentMatch(name + ("[" + inner + "]")) == if name != "" then Some(Token(name, Some(Value(inner))))
      else None
  {
    var part := name + ("[" + inner + "]");
    BracketParts(name, inner);
    assert part[..|name|] == name;
    assert part[|name| + 1..|part| - 1] == inner;
  }

  lemma {:induction false} SegmentOfIndexed(name: string, i: nat)
    requires '[' !in name
    ensures SegmentMatch(name + SpellStep(At(i))) == if name != "" then Some(Token(name, Some(i))) else None
  {
    SegmentOfBrackets(name, Decimal(i));
    ValueOfDecimal(i);
  }

  /** One segment with an index, where the document has a value. */
  lemma {:induction false} ReadIndexedPart(v: Json, p: Path) returns (next: Json)
    requires Segments(p) && |p| > 1 && p[1].At? && Lookup(v, p).Some?
    ensures Lookup(next, p[2..]) == Lookup(v, p)
    ensures ReadSegment(v, p[0].name + SpellStep(p[1])) == if p[0].name != "" then Some(next) else None
  {
    SegmentOfIndexed(p[0].name, p[1].i);
    assert p[1..][0] == p[1] && p[1..][1..] == p[2..];
    next := Find(v.fields, p[0].name).value.items[p[1].i];
  }

  /** One segment without an index. */
  lemma {:induction false} ReadPlainPart(v: Json, p: Path) returns (next: Json)
    requires Segments(p) && p != [] && !(|p| > 1 && p[1].At?) && Lookup(v, p).Some?
    ensures Lookup(next, p[1..]) == Lookup(v, p)
    ensures ReadSegment(v, p[0].name) == if p[0].name != "" && '[' !in p[0].name then Some(next) else None
  {
    SegmentOfName(p[0].name);
    next := Find(v.fields, p[0].name).value;
  }

  /** Where the document has a value, each segment read is the step taken, if the pattern accepts the name. */
  lemma {:induction false} ReadPartsExactly(v: Json, p: Path)
    requires Segments(p) && Lookup(v, p).Some?
    ensures ReadSegments(v, Parts(p)) == if PatternNames(p) then Lookup(v, p) else None
    decreases |p|
  {
    if p != [] {
      if |p| > 1 && p[1].At? {
        NamesSplit(p, 1);
        var next := ReadIndexedPart(v, p);
        ReadPartsExactly(next, p[2..]);
        assert Parts(p)[1..] == Parts(p[2..]);
      } else {
        NamesSplit(p, 0);
        var next := ReadPlainPart(v, p);
        ReadPartsExactly(next, p[1..]);
        assert Parts(p)[1..] == Parts(p[1..]);
      }
    }
  }

  lemma {:induction false} NamesSplit(p: Path, n: nat)
    requires p != [] && p[0].Key? && n < |p| && forall k :: 1 <= k <= n ==> p[k].At?
    ensures PatternNames(p) <==> p[0].name != "" && '[' !in p[0].name && PatternNames(p[n + 1..])
  {
    var rest := p[n + 1..];
    assert forall k :: 0 <= k < |rest| ==> rest[k] == p[n + 1 + k];
    if PatternNames(rest) {
      forall k | 0 < k < |p| && p[k].Key?
        ensures p[k].name != "" && '[' !in p[k].name
      {
        assert rest[k - n - 1] == p[k];
      }
    }
  }

  /** On an addressable place that exists, the exported reader and the runner's reader agree exactly when every name
      is accepted by the segment pattern: non-empty and without `[`. */
  lemma {:induction false} ReadersAgreeExactly(v: Json, p: Path)
    requires Addressable(p) && Lookup(v, p).Some?
    ensures ReadPathTs(v, PathText(p)) == ReadPath(v, PathText(p)) <==> PatternNames(p)
  {
    AddressableReadsBack(v, p);
    ReadPartsExactly(v, p);
    if p != [] {
      SpellHead(p);
      SplitIsParts(p);
    }
  }
}
