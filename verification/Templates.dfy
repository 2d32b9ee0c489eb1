/** Text with `${input.k}` and `${steps.s.k}` placeholders, and the runner's textual substitution. */
module Templates {
  import opened Text

  datatype Ref = Input(key: string) | Output(step: string, key: string)

  /** How a reference is spelled inside a body or header. */
  function Placeholder(r: Ref): (p: string)
    ensures |p| > 1 && p[0] == '$' && p[1] == '{' && p[|p| - 1] == '}'
  {
    match r
    case Input(key) => "${input." + key + "}"
    case Output(step, key) => "${steps." + step + "." + key + "}"
  }

  /** A template: ordinary characters and holes. */
  datatype Atom = Char(c: char) | Hole(ref: Ref)
  type Template = seq<Atom>

  function RenderAtom(a: Atom): string
  {
    match a
    case Char(c) => [c]
    case Hole(r) => Placeholder(r)
  }

  function Render(t: Template): string
  {
    if t == [] then "" else RenderAtom(t[0]) + Render(t[1..])
  }

  function Chars(s: string): (t: Template)
    ensures |t| == |s|
    ensures forall i :: 0 <= i < |s| ==> t[i] == Char(s[i])
  {
    seq(|s|, i requires 0 <= i < |s| => Char(s[i]))
  }

  /** References whose spelling can be told apart from its surroundings. */
  predicate GoodRef(r: Ref)
  {
    '$' !in r.key && '}' !in r.key &&
    (r.Output? ==> '$' !in r.step && '}' !in r.step && '.' !in r.step)
  }

  ghost predicate GoodHoles(t: Template)
  {
    forall r :: Hole(r) in t ==> GoodRef(r)
  }

  /** No ordinary `$` directly before an ordinary `{`. */
  ghost predicate Quiet(t: Template)
  {
    forall i :: 0 <= i < |t| - 1 && t[i] == Char('$') ==> t[i + 1] != Char('{')
  }

  /** Simultaneous substitution; references outside `env` stay. */
  function Fill(t: Template, env: map<Ref, string>): Template
  {
    if t == [] then []
    else
      (if t[0].Hole? && t[0].ref in env then Chars(env[t[0].ref]) else [t[0]])
      + Fill(t[1..], env)
  }

  type Bindings = seq<(Ref, string)>

  /** One `strings.ReplaceAll` per binding, in the given order. */
  function Chain(s: string, order: Bindings): string
    decreases |order|
  {
    if order == [] then s
    else Chain(ReplaceAll(s, Placeholder(order[0].0), order[0].1), order[1..])
  }

  /** The bindings as a map; the first of several bindings for one reference wins. */
  function MapOf(order: Bindings): map<Ref, string>
  {
    if order == [] then map[] else MapOf(order[1..])[order[0].0 := order[0].1]
  }

  /** `r` is `s` after replacing every binding of `env`, one at a time, in some order. */
  ghost predicate Expansion(s: string, env: map<Ref, string>, r: string)
  {
    exists order :: MapOf(order) == env && r == Chain(s, order)
  }

  // ----- rendering

  lemma {:induction false} RenderAppend(a: Template, b: Template)
    ensures Render(a + b) == Render(a) + Render(b)
  {
    if a == [] {
      assert a + b == b;
    } else {
      assert (a + b)[1..] == a[1..] + b;
      RenderAppend(a[1..], b);
    }
  }

  lemma {:induction false} RenderChars(s: string)
    ensures Render(Chars(s)) == s
  {
    if s != "" {
      assert Chars(s)[1..] == Chars(s[1..]);
      RenderChars(s[1..]);
    }
  }

  lemma {:induction false} FillAppend(a: Template, b: Template, env: map<Ref, string>)
    ensures Fill(a + b, env) == Fill(a, env) + Fill(b, env)
  {
    if a == [] {
      assert a + b == b;
    } else {
      assert (a + b)[1..] == a[1..] + b;
      FillAppend(a[1..], b, env);
    }
  }

  lemma {:induction false} FillChars(s: string, env: map<Ref, string>)
    ensures Fill(Chars(s), env) == Chars(s)
  {
    if s != "" {
      assert Chars(s)[1..] == Chars(s[1..]);
      FillChars(s[1..], env);
      assert Chars(s) == [Char(s[0])] + Chars(s[1..]);
    } else {
      assert Chars(s) == [];
    }
  }

  // ----- placeholders are told apart

  lemma {:induction false} PlaceholderCloses(r: Ref)
    requires GoodRef(r)
    ensures IndexOf(Placeholder(r), '}') == |Placeholder(r)| - 1
  {
    var p := Placeholder(r);
    assert p == p[..|p| - 1] + ['}'] + "";
    IndexOfAfter(p[..|p| - 1], "", '}');
  }

  /** Two good references with comparable spellings are the same reference. */
  lemma {:induction false} PlaceholderPrefixFree(r: Ref, q: Ref, rest: string)
    requires GoodRef(r) && GoodRef(q) && r != q
    ensures !(Placeholder(r) <= Placeholder(q) + rest)
  {
    var p, o := Placeholder(r), Placeholder(q);
    PlaceholderCloses(r);
    PlaceholderCloses(q);
    IndexOfPrefix(o, o + rest, '}');
    DistinctPlaceholders(r, q);
    if p <= o + rest {
      IndexOfPrefix(p, o + rest, '}');
    }
  }

  lemma {:induction false} DistinctPlaceholders(r: Ref, q: Ref)
    requires GoodRef(r) && GoodRef(q) && r != q
    ensures Placeholder(r) != Placeholder(q)
  {
    var p, o := Placeholder(r), Placeholder(q);
    assert p[2] == if r.Input? then 'i' else 's';
    assert o[2] == if q.Input? then 'i' else 's';
    if r.Input? && q.Input? {
      assert p[8..|p| - 1] == r.key && o[8..|o| - 1] == q.key;
    } else if r.Output? && q.Output? {
      assert p[8..|p| - 1] == r.step + "." + r.key && o[8..|o| - 1] == q.step + "." + q.key;
      DotSplit(r.step, r.key, q.step, q.key);
    }
  }

  lemma {:induction false} DotSplit(s: string, a: string, u: string, b: string)
    requires '.' !in s && '.' !in u && (s != u || a != b)
    ensures s + "." + a != u + "." + b
  {
    var w, x := s + "." + a, u + "." + b;
    IndexOfAfter(s, a, '.');
    IndexOfAfter(u, b, '.');
    assert w[..|s|] == s && w[|s| + 1..] == a;
    assert x[..|u|] == u && x[|u| + 1..] == b;
  }

  // ----- one replacement

  lemma {:induction false} FirstOfRender(t: Template)
    requires t != []
    ensures |Render(t)| > 0 && Render(t)[0] == RenderAtom(t[0])[0]
  {
  }

  lemma {:induction false} NoMatchAtChar(c: char, t: Template, r: Ref)
    requires c == '$' && t != [] ==> t[0] != Char('{')
    ensures !(Placeholder(r) <= [c] + Render(t))
  {
    var p, w := Placeholder(r), [c] + Render(t);
    if t != [] {
      FirstOfRender(t);
      assert w[1] == Render(t)[0];
    }
    assert |w| > 1 ==> w[0] != p[0] || w[1] != p[1];
  }

  /** A scan for one placeholder passes over another. */
  lemma {:induction false} SkipPlaceholder(q: Ref, rest: string, r: Ref, v: string)
    requires GoodRef(r) && GoodRef(q) && r != q
    ensures ReplaceAll(Placeholder(q) + rest, Placeholder(r), v) == Placeholder(q) + ReplaceAll(rest, Placeholder(r), v)
  {
    var p, o := Placeholder(r), Placeholder(q);
    PlaceholderPrefixFree(r, q, rest);
    assert (o + rest)[1..] == o[1..] + rest;
    SkipWithout(o[1..], rest, p, v);
    assert o == [o[0]] + o[1..];
    assert o + ReplaceAll(rest, p, v) == [o[0]] + (o[1..] + ReplaceAll(rest, p, v));
  }

  /** One `ReplaceAll` fills exactly the holes of its reference. */
  lemma {:induction false} ReplaceFillsOne(t: Template, r: Ref, v: string)
    requires GoodRef(r) && GoodHoles(t) && Quiet(t)
    ensures ReplaceAll(Render(t), Placeholder(r), v) == Render(Fill(t, map[r := v]))
    decreases |t|
  {
    if t != [] {
      var p, rest, filled := Placeholder(r), Render(t[1..]), Fill(t[1..], map[r := v]);
      assert GoodHoles(t[1..]) && Quiet(t[1..]);
      ReplaceFillsOne(t[1..], r, v);
      if t[0] == Hole(r) {
        assert p <= p + rest && (p + rest)[|p|..] == rest;
        RenderAppend(Chars(v), filled);
        RenderChars(v);
      } else {
        assert Fill(t, map[r := v]) == [t[0]] + filled;
        RenderAppend([t[0]], filled);
        assert Render([t[0]]) == RenderAtom(t[0]);
        match t[0] {
          case Hole(q) => SkipPlaceholder(q, rest, r, v);
          case Char(c) =>
            NoMatchAtChar(c, t[1..], r);
            assert ([c] + rest)[1..] == rest;
        }
      }
    }
  }

  // ----- a chain of replacements

  lemma {:induction false} FillTwice(t: Template, r: Ref, v: string, env: map<Ref, string>)
    ensures Fill(Fill(t, map[r := v]), env) == Fill(t, env[r := v])
  {
    if t != [] {
      var m := map[r := v];
      FillTwice(t[1..], r, v, env);
      if t[0] == Hole(r) {
        FillAppend(Chars(v), Fill(t[1..], m), env);
        FillChars(v, env);
      } else {
        assert Fill(t, m) == [t[0]] + Fill(t[1..], m);
        assert ([t[0]] + Fill(t[1..], m))[1..] == Fill(t[1..], m);
      }
    }
  }

  /** Filling keeps adjacent ordinary characters adjacent. */
  lemma {:induction false} AdjacentCharsStay(t: Template, i: nat, env: map<Ref, string>) returns (k: nat)
    requires i + 1 < |t| && t[i].Char? && t[i + 1].Char?
    ensures k + 1 < |Fill(t, env)| && Fill(t, env)[k] == t[i] && Fill(t, env)[k + 1] == t[i + 1]
  {
    var pair := [t[i].c, t[i + 1].c];
    assert [t[i], t[i + 1]] == Chars(pair);
    assert t == t[..i] + (Chars(pair) + t[i + 2..]);
    FillAppend(t[..i], Chars(pair) + t[i + 2..], env);
    FillAppend(Chars(pair), t[i + 2..], env);
    FillChars(pair, env);
    k := |Fill(t[..i], env)|;
  }

  lemma {:induction false} QuietBefore(t: Template, env: map<Ref, string>)
    requires Quiet(Fill(t, env))
    ensures Quiet(t)
  {
    forall i | 0 <= i < |t| - 1 && t[i] == Char('$') && t[i + 1].Char?
      ensures t[i + 1] != Char('{')
    {
      var k := AdjacentCharsStay(t, i, env);
    }
  }

  lemma {:induction false} FilledHoles(t: Template, env: map<Ref, string>, r: Ref)
    ensures Hole(r) in Fill(t, env) <==> Hole(r) in t && r !in env
  {
    if t != [] {
      FilledHoles(t[1..], env, r);
      assert t == [t[0]] + t[1..];
    }
  }

  lemma {:induction false} NoChangeWithoutBindings(t: Template)
    ensures Fill(t, map[]) == t
  {
    if t != [] {
      NoChangeWithoutBindings(t[1..]);
      assert t == [t[0]] + t[1..];
    }
  }

  /** The chain of textual replacements equals one simultaneous substitution, in whatever order the
      bindings are visited, provided the substituted text has no `${` among its ordinary characters. */
  lemma {:induction false} ChainIsSubstitution(t: Template, order: Bindings)
    requires GoodHoles(t)
    requires forall r :: r in MapOf(order) ==> GoodRef(r)
    requires Quiet(Fill(t, MapOf(order)))
    ensures Chain(Render(t), order) == Render(Fill(t, MapOf(order)))
    decreases |order|
  {
    if order == [] {
      NoChangeWithoutBindings(t);
    } else {
      var (r, v) := order[0];
      var rest := MapOf(order[1..]);
      assert r in MapOf(order);
      FillTwice(t, r, v, rest);
      QuietBefore(t, MapOf(order));
      ReplaceFillsOne(t, r, v);
      var t' := Fill(t, map[r := v]);
      forall q ensures Hole(q) in t' ==> GoodRef(q) { FilledHoles(t, map[r := v], q); }
      assert forall q :: q in rest ==> q in MapOf(order);
      ChainIsSubstitution(t', order[1..]);
    }
  }

  /** Hence every expansion of a rendered template is that substitution: map order cannot be observed. */
  lemma {:induction false} ExpansionIsSubstitution(t: Template, env: map<Ref, string>, r: string)
    requires GoodHoles(t)
    requires forall q :: q in env ==> GoodRef(q)
    requires Quiet(Fill(t, env))
    ensures Expansion(Render(t), env, r) ==> r == Render(Fill(t, env))
  {
    if Expansion(Render(t), env, r) {
      var order :| MapOf(order) == env && r == Chain(Render(t), order);
      ChainIsSubstitution(t, order);
    }
  }

  // ----- the runner's loop over two Go maps

  type Outputs = map<string, map<string, string>>

  function OfInputs(keys: set<string>): (refs: set<Ref>)
    ensures forall q :: q in refs <==> q.Input? && q.key in keys
  {
    set k | k in keys :: Input(k)
  }

  function OfStep(step: string, keys: set<string>): (refs: set<Ref>)
    ensures forall q :: q in refs <==> q.Output? && q.step == step && q.key in keys
  {
    set k | k in keys :: Output(step, k)
  }

  function OfSteps(outputs: Outputs): (refs: set<Ref>)
    ensures forall q :: q in refs <==> q.Output? && q.step in outputs && q.key in outputs[q.step]
  {
    set s, k | s in outputs.Keys && k in outputs[s].Keys :: Output(s, k)
  }

  /** The references a run can substitute. */
  function Refs(inputs: map<string, string>, outputs: Outputs): (refs: set<Ref>)
    ensures forall q :: q in refs <==> Known(q, inputs, outputs)
  {
    OfInputs(inputs.Keys) + OfSteps(outputs)
  }

  predicate Known(q: Ref, inputs: map<string, string>, outputs: Outputs)
  {
    match q
    case Input(k) => k in inputs
    case Output(s, k) => s in outputs && k in outputs[s]
  }

  /** Everything a run can substitute: inputs and step outputs as one map. */
  function Env(inputs: map<string, string>, outputs: Outputs): (env: map<Ref, string>)
  {
    map q | q in Refs(inputs, outputs) :: if q.Input? then inputs[q.key] else outputs[q.step][q.key]
  }

  function InputEnv(inputs: map<string, string>): map<Ref, string>
  {
    map q | q in OfInputs(inputs.Keys) :: inputs[q.key]
  }

  function StepEnv(step: string, outputs: map<string, string>): map<Ref, string>
  {
    map q | q in OfStep(step, outputs.Keys) :: outputs[q.key]
  }

  lemma {:induction false} ChainAppend(s: string, a: Bindings, b: Bindings)
    ensures Chain(s, a + b) == Chain(Chain(s, a), b)
    decreases |a|
  {
    if a == [] {
      assert a + b == b;
    } else {
      assert (a + b)[1..] == a[1..] + b && (a + b)[0] == a[0];
      ChainAppend(ReplaceAll(s, Placeholder(a[0].0), a[0].1), a[1..], b);
    }
  }

  lemma {:induction false} MapOfAppend(a: Bindings, b: Bindings)
    ensures MapOf(a + b) == MapOf(b) + MapOf(a)
  {
    if a == [] {
      assert a + b == b;
    } else {
      assert (a + b)[1..] == a[1..] + b && (a + b)[0] == a[0];
      MapOfAppend(a[1..], b);
    }
  }

  /** Expansions compose. */
  lemma {:induction false} ExpansionThen(s: string, env: map<Ref, string>, m: string, more: map<Ref, string>, r: string)
    requires Expansion(s, env, m) && Expansion(m, more, r)
    ensures Expansion(s, more + env, r)
  {
    var a :| MapOf(a) == env && m == Chain(s, a);
    var b :| MapOf(b) == more && r == Chain(m, b);
    ChainAppend(s, a, b);
    MapOfAppend(a, b);
  }

  lemma {:induction false} ReplaceIsExpansion(s: string, r: Ref, v: string)
    ensures Expansion(s, map[r := v], ReplaceAll(s, Placeholder(r), v))
  {
    var order := [(r, v)];
    assert order[1..] == [];
    assert Chain(s, order) == Chain(ReplaceAll(s, Placeholder(r), v), []);
    assert MapOf(order) == map[r := v];
  }

  lemma {:induction false} NothingIsExpansion(s: string)
    ensures Expansion(s, map[], s)
  {
    assert MapOf([]) == map[] && Chain(s, []) == s;
  }

  lemma {:induction false} InputEnvGrows(inputs: map<string, string>, key: string, v: string)
    ensures InputEnv(inputs[key := v]) == map[Input(key) := v] + InputEnv(inputs - {key})
  {
  }

  lemma {:induction false} ReplaceOneInput(value: string, done: map<string, string>, m: string, key: string, v: string)
    requires key !in done && Expansion(value, InputEnv(done), m)
    ensures Expansion(value, InputEnv(done[key := v]), ReplaceAll(m, Placeholder(Input(key)), v))
  {
    ReplaceIsExpansion(m, Input(key), v);
    ExpansionThen(value, InputEnv(done), m, map[Input(key) := v], ReplaceAll(m, Placeholder(Input(key)), v));
    assert done - {key} == done;
    InputEnvGrows(done, key, v);
  }

  lemma {:induction false} ReplaceOneOutput(
      value: string, step: string, done: map<string, string>, m: string, key: string, v: string)
    requires key !in done && Expansion(value, StepEnv(step, done), m)
    ensures Expansion(value, StepEnv(step, done[key := v]), ReplaceAll(m, Placeholder(Output(step, key)), v))
  {
    ReplaceIsExpansion(m, Output(step, key), v);
    ExpansionThen(value, StepEnv(step, done), m, map[Output(step, key) := v],
        ReplaceAll(m, Placeholder(Output(step, key)), v));
    assert done - {key} == done;
    StepEnvGrows(step, done, key, v);
  }

  lemma {:induction false} StepEnvGrows(step: string, outputs: map<string, string>, key: string, v: string)
    ensures StepEnv(step, outputs[key := v]) == map[Output(step, key) := v] + StepEnv(step, outputs - {key})
  {
  }

  lemma {:induction false} EnvGrowsAt(
      inputs: map<string, string>, outputs: Outputs, step: string, more: map<string, string>, q: Ref)
    requires step !in outputs
    ensures q in Env(inputs, outputs[step := more]) <==> q in StepEnv(step, more) + Env(inputs, outputs)
    ensures q in Env(inputs, outputs[step := more]) ==>
      Env(inputs, outputs[step := more])[q] == (StepEnv(step, more) + Env(inputs, outputs))[q]
  {
  }

  lemma {:induction false} EnvGrows(
      inputs: map<string, string>, outputs: Outputs, step: string, more: map<string, string>)
    requires step !in outputs
    ensures Env(inputs, outputs[step := more]) == StepEnv(step, more) + Env(inputs, outputs)
  {
    var all, parts := Env(inputs, outputs[step := more]), StepEnv(step, more) + Env(inputs, outputs);
    forall q
      ensures q in all <==> q in parts
      ensures q in all ==> all[q] == parts[q]
    {
      EnvGrowsAt(inputs, outputs, step, more, q);
    }
  }

  /** Every environment can be visited in some order. */
  lemma {:induction false} OrderExists(env: map<Ref, string>) returns (order: Bindings)
    ensures MapOf(order) == env
    decreases |env|
  {
    if env == map[] {
      order := [];
    } else {
      var r :| r in env;
      var rest := OrderExists(env - {r});
      order := [(r, env[r])] + rest;
      assert order[1..] == rest;
    }
  }

  lemma {:induction false} RenderExpands(t: Template, env: map<Ref, string>)
    requires GoodHoles(t)
    requires forall q :: q in env ==> GoodRef(q)
    requires Quiet(Fill(t, env))
    ensures forall r :: Expansion(Render(t), env, r) <==> r == Render(Fill(t, env))
  {
    var order := OrderExists(env);
    ChainIsSubstitution(t, order);
    forall r { ExpansionIsSubstitution(t, env, r); }
  }

  method ReplaceInputs(value: string, inputs: map<string, string>) returns (r: string)
    ensures Expansion(value, InputEnv(inputs), r)
  {
    hide Expansion, ReplaceAll, Placeholder;
    r := value;
    ghost var done: map<string, string> := map[];
    var keys := inputs.Keys;
    NothingIsExpansion(value);
    assert InputEnv(done) == map[];
    while keys != {}
      invariant keys <= inputs.Keys
      invariant done == inputs - keys
      invariant Expansion(value, InputEnv(done), r)
    {
      var key :| key in keys;
      ReplaceOneInput(value, done, r, key, inputs[key]);
      r := ReplaceAll(r, Placeholder(Input(key)), inputs[key]);
      keys := keys - {key};
      done := done[key := inputs[key]];
    }
    assert done == inputs;
  }

  method ReplaceOutputs(value: string, step: string, outputs: map<string, string>) returns (r: string)
    ensures Expansion(value, StepEnv(step, outputs), r)
  {
    r := value;
    ghost var done: map<string, string> := map[];
    var keys := outputs.Keys;
    NothingIsExpansion(value);
    assert StepEnv(step, done) == map[];
    while keys != {}
      invariant keys <= outputs.Keys
      invariant done == outputs - keys
      invariant Expansion(value, StepEnv(step, done), r)
    {
      var key :| key in keys;
      ReplaceOneOutput(value, step, done, r, key, outputs[key]);
      r := ReplaceAll(r, Placeholder(Output(step, key)), outputs[key]);
      keys := keys - {key};
      done := done[key := outputs[key]];
    }
    assert done == outputs;
  }

  lemma {:induction false} EnvOfNothing(inputs: map<string, string>)
    ensures Env(inputs, map[]) == InputEnv(inputs)
  {
  }

  /** Inputs first, then every output of every step, each map visited in an arbitrary order. */
  method ReplaceBindings(value: string, inputs: map<string, string>, outputs: Outputs) returns (r: string)
    ensures Expansion(value, Env(inputs, outputs), r)
  {
    hide Expansion, Env, StepEnv, InputEnv;
    r := ReplaceInputs(value, inputs);
    ghost var done: Outputs := map[];
    EnvOfNothing(inputs);
    var steps := outputs.Keys;
    while steps != {}
      invariant steps <= outputs.Keys
      invariant done == outputs - steps
      invariant Expansion(value, Env(inputs, done), r)
    {
      var step :| step in steps;
      ghost var m := r;
      r := ReplaceOutputs(r, step, outputs[step]);
      EnvGrows(inputs, done, step, outputs[step]);
      ExpansionThen(value, Env(inputs, done), m, StepEnv(step, outputs[step]), r);
      steps := steps - {step};
      done := done[step := outputs[step]];
    }
    assert done == outputs;
  }

  lemma {:induction false} OtherPlaceholderStays(a: Ref, b: Ref, x: string)
    requires GoodRef(a) && GoodRef(b) && a != b
    ensures ReplaceAll(Placeholder(a), Placeholder(b), x) == Placeholder(a)
  {
    var p := Placeholder(a);
    SkipPlaceholder(a, "", b, x);
    assert p + "" == p && p + ReplaceAll("", Placeholder(b), x) == p;
  }

  /** Without the condition the visiting order shows: with a bound text `v`, whatever it is, the two orders agree
      exactly when `v` does not spell the other reference's placeholder. */
  lemma {:induction false} OrderShowsExactly(a: Ref, v: string, b: Ref, x: string)
    requires GoodRef(a) && GoodRef(b) && a != b && x != Placeholder(b)
    ensures MapOf([(a, v), (b, x)]) == MapOf([(b, x), (a, v)])
    ensures Chain(Placeholder(a), [(a, v), (b, x)]) == Chain(Placeholder(a), [(b, x), (a, v)])
            <==> !Contains(v, Placeholder(b))
  {
    hide ReplaceAll, Contains;
    var p, q := Placeholder(a), Placeholder(b);
    ReplaceWhole(p, v);
    OtherPlaceholderStays(a, b, x);
    ChainTwo(p, a, v, b, x);
    ChainTwo(p, b, x, a, v);
    ReplaceKeepsExactly(v, q, x);
  }

  lemma {:induction false} ChainTwo(s: string, a: Ref, v: string, b: Ref, w: string)
    ensures Chain(s, [(a, v), (b, w)]) == ReplaceAll(ReplaceAll(s, Placeholder(a), v), Placeholder(b), w)
    ensures MapOf([(a, v), (b, w)]) == map[b := w][a := v]
  {
    var order := [(a, v), (b, w)];
    var tail := [(b, w)];
    assert order[1..] == tail && tail[1..] == [];
    var m := ReplaceAll(s, Placeholder(a), v);
    assert Chain(m, tail) == Chain(ReplaceAll(m, Placeholder(b), w), []);
    assert MapOf(tail) == map[b := w];
  }

  lemma {:induction false} ReplaceWhole(p: string, v: string)
    requires |p| > 0
    ensures ReplaceAll(p, p, v) == v
  {
    assert p[|p|..] == "";
  }

  // ----- what a filling says about the values

  /** The text the first atom is filled with. */
  lemma {:induction false} FirstFilled(t: Template, env: map<Ref, string>) returns (here: string)
    requires t != [] && (t[0].Hole? ==> t[0].ref in env)
    ensures Fill(t, env) == Chars(here) + Fill(t[1..], env)
  {
    hide Placeholder;
    here := if t[0].Hole? then env[t[0].ref] else [t[0].c];
    assert t[0].Char? ==> [t[0]] == Chars([t[0].c]);
  }

  lemma {:induction false} CharsJoin(a: string, b: string)
    ensures Chars(a) + Chars(b) == Chars(a + b)
  {
  }

  /** Filling every hole leaves ordinary characters. */
  lemma {:induction false} FilledIsText(t: Template, env: map<Ref, string>)
    requires forall q :: Hole(q) in t ==> q in env
    ensures Fill(t, env) == Chars(Render(Fill(t, env)))
  {
    var text := FilledText(t, env);
    hide Fill, Render;
    RenderChars(text);
  }

  lemma {:induction false} FilledText(t: Template, env: map<Ref, string>) returns (text: string)
    requires forall q :: Hole(q) in t ==> q in env
    ensures Fill(t, env) == Chars(text)
  {
    if t == [] {
      text := "";
    } else {
      assert forall q :: Hole(q) in t[1..] ==> Hole(q) in t;
      var here := FirstFilled(t, env);
      var rest := FilledText(t[1..], env);
      hide Fill;
      CharsJoin(here, rest);
      text := here + rest;
    }
  }

  lemma {:induction false} FillLonger(t: Template, r: Ref, a: map<Ref, string>, b: map<Ref, string>)
    requires r in a && r in b && a - {r} == b - {r} && |a[r]| <= |b[r]|
    ensures |Fill(t, a)| <= |Fill(t, b)|
    ensures |a[r]| < |b[r]| && Hole(r) in t ==> |Fill(t, a)| < |Fill(t, b)|
  {
    if t != [] {
      FillLonger(t[1..], r, a, b);
      assert t == [t[0]] + t[1..];
      if t[0].Hole? && t[0].ref != r { SameElsewhere(t[0].ref, r, a, b); }
    }
  }

  lemma {:induction false} SameElsewhere(q: Ref, r: Ref, a: map<Ref, string>, b: map<Ref, string>)
    requires a - {r} == b - {r} && q != r
    ensures (q in a <==> q in b) && (q in a ==> a[q] == b[q])
  {
    assert (q in a <==> q in a - {r}) && (q in b <==> q in b - {r});
    if q in a { assert (a - {r})[q] == (b - {r})[q]; }
  }

  lemma {:induction false} FillOther(t: Template, r: Ref, a: map<Ref, string>, b: map<Ref, string>)
    requires r in a && r in b && a - {r} == b - {r} && |a[r]| == |b[r]| && a[r] != b[r] && Hole(r) in t
    ensures Fill(t, a) != Fill(t, b)
  {
    var x, y := Fill(t[1..], a), Fill(t[1..], b);
    if t[0] == Hole(r) {
      var i := DifferAt(a[r], b[r]);
      assert (Chars(a[r]) + x)[i] == Char(a[r][i]) && (Chars(b[r]) + y)[i] == Char(b[r][i]);
    } else {
      assert t == [t[0]] + t[1..];
      FillOther(t[1..], r, a, b);
      if t[0].Hole? { SameElsewhere(t[0].ref, r, a, b); }
      var head := if t[0].Hole? && t[0].ref in a then Chars(a[t[0].ref]) else [t[0]];
      assert Fill(t, a) == head + x && Fill(t, b) == head + y;
      assert (head + x)[|head|..] == x && (head + y)[|head|..] == y;
    }
  }

  lemma {:induction false} DifferAt(u: string, v: string) returns (i: nat)
    requires |u| == |v| && u != v
    ensures i < |u| && u[i] != v[i]
  {
    if u[0] != v[0] {
      i := 0;
    } else {
      assert u == [u[0]] + u[1..] && v == [v[0]] + v[1..];
      i := DifferAt(u[1..], v[1..]);
      i := i + 1;
    }
  }

  /** Two fillings that differ in the value of one reference of the template agree exactly when the values do. */
  lemma {:induction false} FillDiffers(t: Template, r: Ref, a: map<Ref, string>, b: map<Ref, string>)
    requires r in a && r in b && a - {r} == b - {r} && Hole(r) in t
    ensures Fill(t, a) == Fill(t, b) <==> a[r] == b[r]
  {
    hide Fill;
    if a[r] == b[r] {
      forall q
        ensures (q in a <==> q in b) && (q in a ==> a[q] == b[q])
      {
        if q != r { SameElsewhere(q, r, a, b); }
      }
      assert a == b;
    } else if |a[r]| < |b[r]| {
      FillLonger(t, r, a, b);
    } else if |a[r]| > |b[r]| {
      FillLonger(t, r, b, a);
    } else {
      FillOther(t, r, a, b);
    }
  }
}
