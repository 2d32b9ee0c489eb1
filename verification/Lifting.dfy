/** Replacing captured values by references, at the level of templates. */
module Lifting {
  import opened Text
  import opened Templates
  import opened Sources
  import opened Compiler

  /** The template starts with the ordinary characters of `v`. */
  predicate Begins(t: Template, v: string)
  {
    |v| <= |t| && t[..|v|] == Chars(v)
  }

  /** Every leftmost spelled-out `v` becomes a hole. */
  function Lift(t: Template, v: string, r: Ref): Template
    requires v != ""
    decreases |t|
  {
    if t == [] then []
    else if Begins(t, v) then [Hole(r)] + Lift(t[|v|..], v, r)
    else [t[0]] + Lift(t[1..], v, r)
  }

  /** `v` has no placeholder delimiter and does not occur inside the placeholder of `q`. */
  predicate Apart(v: string, q: Ref)
  {
    '$' !in v && '}' !in v && !Contains(Placeholder(q), v)
  }

  lemma {:induction false} NoMatchAcross(u: string, rest: string, v: string)
    requires v != "" && '}' !in v && !Contains(u, v) && u != "" && u[|u| - 1] == '}'
    ensures !(v <= u + rest)
  {
    assert (u + rest)[|u| - 1] == '}';
    assert |v| > |u| ==> v[|u| - 1] in v;
    assert |v| <= |u| ==> (u + rest)[..|v|] == u[..|v|];
  }

  /** A scan for `v` passes over the end of a placeholder. */
  lemma {:induction false} SkipTail(u: string, rest: string, v: string, w: string)
    requires v != "" && '}' !in v && !Contains(u, v) && (u == "" || u[|u| - 1] == '}')
    ensures ReplaceAll(u + rest, v, w) == u + ReplaceAll(rest, v, w)
  {
    if u == "" {
      assert u + rest == rest;
    } else {
      NoMatchAcross(u, rest, v);
      assert (u + rest)[0] == u[0] && (u + rest)[1..] == u[1..] + rest;
      SkipTail(u[1..], rest, v, w);
      assert u == [u[0]] + u[1..];
      assert u + ReplaceAll(rest, v, w) == [u[0]] + (u[1..] + ReplaceAll(rest, v, w));
    }
  }

  lemma {:induction false} PrefixCons(c: char, rest: string, v: string)
    requires v != ""
    ensures v <= [c] + rest <==> v[0] == c && v[1..] <= rest
  {
    assert v == [v[0]] + v[1..];
    if v <= [c] + rest {
      assert ([c] + rest)[1..][..|v| - 1] == v[1..];
    }
  }

  lemma {:induction false} BeginsCons(t: Template, v: string)
    requires v != "" && t != []
    ensures Begins(t, v) <==> t[0] == Char(v[0]) && Begins(t[1..], v[1..])
  {
    assert Chars(v) == [Char(v[0])] + Chars(v[1..]);
    if |v| <= |t| {
      assert t[..|v|] == [t[0]] + t[1..][..|v| - 1];
      assert t[..|v|][1..] == t[1..][..|v| - 1];
      assert Chars(v)[1..] == Chars(v[1..]);
    }
  }

  /** A value without `$` at the start of rendered text is spelled out there. */
  lemma {:induction false} RenderedPrefix(t: Template, v: string)
    requires '$' !in v
    ensures v <= Render(t) <==> Begins(t, v)
  {
    if v == "" {
      assert t[..0] == Chars("");
    } else if t != [] {
      BeginsCons(t, v);
      assert v[0] in v;
      match t[0] {
        case Char(c) =>
          RenderedPrefix(t[1..], v[1..]);
          PrefixCons(c, Render(t[1..]), v);
        case Hole(q) =>
          assert Render(t)[0] == '$';
      }
    }
  }

  lemma {:induction false} RenderBegins(t: Template, v: string)
    requires Begins(t, v)
    ensures Render(t) == v + Render(t[|v|..])
  {
    assert t == Chars(v) + t[|v|..];
    RenderAppend(Chars(v), t[|v|..]);
    RenderChars(v);
  }

  /** `ReplaceAll` of a value by a placeholder is lifting, when the value keeps apart from every placeholder present.
      */
  lemma {:induction false} LiftRenders(t: Template, v: string, r: Ref)
    requires v != "" && '$' !in v && '}' !in v
    requires forall q :: Hole(q) in t ==> Apart(v, q)
    ensures ReplaceAll(Render(t), v, Placeholder(r)) == Render(Lift(t, v, r))
    decreases |t|
  {
    if t == [] {
    } else if Begins(t, v) {
      RenderBegins(t, v);
      var rest := Render(t[|v|..]);
      assert (v + rest)[|v|..] == rest && v <= v + rest;
      LiftRenders(t[|v|..], v, r);
      assert ([Hole(r)] + Lift(t[|v|..], v, r))[1..] == Lift(t[|v|..], v, r);
    } else {
      RenderedPrefix(t, v);
      var rest, more := Render(t[1..]), Lift(t[1..], v, r);
      LiftRenders(t[1..], v, r);
      assert ([t[0]] + more)[1..] == more;
      match t[0] {
        case Char(c) => assert ([c] + rest)[1..] == rest;
        case Hole(q) =>
          assert Hole(q) in t;
          SkipTail(Placeholder(q), rest, v, Placeholder(r));
      }
    }
  }

  /** Filling undoes lifting. */
  lemma {:induction false} LiftFills(t: Template, v: string, r: Ref, env: map<Ref, string>)
    requires v != "" && r in env && env[r] == v
    ensures Fill(Lift(t, v, r), env) == Fill(t, env)
    decreases |t|
  {
    if t == [] {
    } else if Begins(t, v) {
      var more := Lift(t[|v|..], v, r);
      LiftFills(t[|v|..], v, r, env);
      assert ([Hole(r)] + more)[1..] == more;
      assert t == Chars(v) + t[|v|..];
      FillAppend(Chars(v), t[|v|..], env);
      FillChars(v, env);
    } else {
      var more := Lift(t[1..], v, r);
      LiftFills(t[1..], v, r, env);
      assert ([t[0]] + more)[1..] == more;
    }
  }

  lemma {:induction false} LiftHoles(t: Template, v: string, r: Ref, q: Ref)
    requires v != ""
    ensures Hole(q) in Lift(t, v, r) ==> Hole(q) in t || q == r
    decreases |t|
  {
    if t == [] {
    } else if Begins(t, v) {
      LiftHoles(t[|v|..], v, r, q);
    } else {
      LiftHoles(t[1..], v, r, q);
    }
  }

  // ----- what a damaged placeholder is replayed as

  /** In a text without `$`, the first replacement by a placeholder leaves a `$` where the text has none. */
  lemma {:induction false} FirstDollar(x: string, v: string, q: Ref) returns (i: nat)
    requires v != "" && '$' !in x && Contains(x, v)
    ensures
      var y := ReplaceAll(x, v, Placeholder(q));
      i < |x| && i < |y| && y[i] == '$' && x[..i] == y[..i]
    decreases |x|
  {
    if v <= x {
      i := 0;
    } else {
      i := FirstDollar(x[1..], v, q);
      var y := ReplaceAll(x[1..], v, Placeholder(q));
      assert x[..i + 1] == [x[0]] + x[1..][..i] && ([x[0]] + y)[..i + 1] == [x[0]] + y[..i];
      i := i + 1;
    }
  }

  /** No placeholder starts inside: none of another reference, in a text made of pieces without `$` and `q`'s own. */
  lemma {:induction false} OtherAbsent(x: string, v: string, r: Ref, q: Ref, u: string)
    requires GoodRef(r) && GoodRef(q) && r != q && v != "" && '$' !in x
    ensures
      var y := ReplaceAll(x, v, Placeholder(q));
      ReplaceAll(y, Placeholder(r), u) == y
    decreases |x|
  {
    if x != "" {
      if v <= x {
        var rest := ReplaceAll(x[|v|..], v, Placeholder(q));
        OtherAbsent(x[|v|..], v, r, q, u);
        SkipPlaceholder(q, rest, r, u);
      } else {
        var rest := ReplaceAll(x[1..], v, Placeholder(q));
        OtherAbsent(x[1..], v, r, q, u);
        assert x[0] in x && !(Placeholder(r) <= [x[0]] + rest);
        assert ([x[0]] + rest)[1..] == rest;
      }
    }
  }

  /** The shape of a placeholder: `$`, no further `$`, and one `}`, at the end. */
  lemma {:induction false} PlaceholderShape(r: Ref)
    requires GoodRef(r)
    ensures
      var p := Placeholder(r);
      |p| > 1 && p[0] == '$' && '$' !in p[1..] && p[|p| - 1] == '}' && '}' !in p[..|p| - 1]
  {
    var body := PlaceholderBody(r);
    hide Placeholder, GoodRef;
    var p := Placeholder(r);
    assert p[1..] == body + "}" && p[..|p| - 1] == "$" + body;
  }

  /** A text made of two without a character has none of it. */
  lemma {:induction false} NeitherHas(a: string, b: string, c: char)
    requires c !in a && c !in b
    ensures c !in a + b
  {
  }

  function Opening(r: Ref): string { if r.Input? then "{input." else "{steps." + r.step + "." }

  lemma {:induction false} PlaceholderSpelled(r: Ref)
    ensures Placeholder(r) == "$" + (Opening(r) + r.key) + "}"
  {
    assert r.Output? ==> "$" + (("{steps." + r.step + ".") + r.key) == "${steps." + r.step + "." + r.key;
  }

  lemma {:induction false} PlaceholderBody(r: Ref) returns (body: string)
    requires GoodRef(r)
    ensures Placeholder(r) == "$" + body + "}" && '$' !in body && '}' !in body
  {
    hide Placeholder;
    PlaceholderSpelled(r);
    if r.Output? {
      NeitherHas("{steps.", r.step, '$');
      NeitherHas("{steps.", r.step, '}');
      NeitherHas("{steps." + r.step, ".", '$');
      NeitherHas("{steps." + r.step, ".", '}');
    }
    body := Opening(r) + r.key;
    NeitherHas(Opening(r), r.key, '$');
    NeitherHas(Opening(r), r.key, '}');
  }

  lemma {:induction false} PrefixAgrees(t: string, s: string, k: nat)
    requires k < |t| && k < |s|
    ensures t <= s ==> t[k] == s[k]
  {
  }

  /** No placeholder starts at a `$` with another `$` before the next `}`. */
  lemma {:induction false} NotAtStart(p: Ref, y: string, i: nat)
    requires GoodRef(p) && i < |y| && y[i] == '$' && '}' !in y[..i]
    ensures !(Placeholder(p) <= "$" + y)
  {
    hide Placeholder;
    var t, s := Placeholder(p), "$" + y;
    PlaceholderShape(p);
    var n := |t| - 1;
    if i < n {
      assert t[1..][i] == t[i + 1] && t[i + 1] in t[1..] && s[i + 1] == '$';
      PrefixAgrees(t, s, i + 1);
    } else {
      assert y[..i][n - 1] == s[n] && s[n] in y[..i];
      PrefixAgrees(t, s, n);
    }
  }

  /** Why values must keep apart: a placeholder into which another value was bound is replayed, in every order of the
      bindings, as its own value exactly when that value did not occur in it. Some orders may undo the damage; not all
      do. */
  lemma {:induction false} PlaceholderReplayedExactly(r: Ref, u: string, q: Ref, v: string)
    requires GoodRef(r) && GoodRef(q) && r != q && v != ""
    requires '$' !in u && '$' !in v && '}' !in v
    ensures (forall x :: Expansion(ReplaceAll(Placeholder(r), v, Placeholder(q)), map[r := u, q := v], x) <==> x == u)
            <==> !Contains(Placeholder(r), v)
  {
    hide Placeholder, Expansion;
    if Contains(Placeholder(r), v) {
      var x := DamageShows(r, u, q, v);
      assert Expansion(ReplaceAll(Placeholder(r), v, Placeholder(q)), map[r := u, q := v], x);
    } else {
      ReplaceAbsent(Placeholder(r), v, Placeholder(q));
      PlaceholderAlone(r, u, map[r := u, q := v]);
    }
  }

  lemma {:induction false} PlaceholderAlone(r: Ref, u: string, env: map<Ref, string>)
    requires '$' !in u && r in env && env[r] == u && GoodRef(r) && forall q :: q in env ==> GoodRef(q)
    ensures forall x :: Expansion(Placeholder(r), env, x) <==> x == u
  {
    var t := [Hole(r)];
    assert t[1..] == [];
    var empty: Template := [];
    assert Render(empty) == "" && Fill(empty, env) == [];
    assert Render(t) == Placeholder(r);
    assert Fill(t, env) == Chars(u);
    RenderChars(u);
    assert Quiet(Chars(u)) by { assert forall i :: 0 <= i < |u| ==> u[i] in u; }
    RenderExpands(t, env);
  }

  /** Replacing the damaged reference first leaves a text with a `$`. */
  lemma {:induction false} DamageShows(r: Ref, u: string, q: Ref, v: string) returns (x: string)
    requires GoodRef(r) && GoodRef(q) && r != q && v != "" && Contains(Placeholder(r), v)
    requires '$' !in u && '$' !in v && '}' !in v
    ensures Expansion(ReplaceAll(Placeholder(r), v, Placeholder(q)), map[r := u, q := v], x) && x != u
  {
    hide Placeholder;
    var p := Placeholder(r);
    PlaceholderShape(r);
    var tail := p[1..];
    var y := ReplaceAll(tail, v, Placeholder(q));
    assert v[0] in v && !(v <= p);
    assert Contains(tail, v);
    assert ReplaceAll(p, v, Placeholder(q)) == "$" + y;
    var i := FirstDollar(tail, v, q);
    assert '}' !in y[..i] by {
      assert forall k :: 0 <= k < i ==> tail[..i][k] == y[..i][k] && tail[k] == p[k + 1] && p[k + 1] in p[..|p| - 1];
    }
    NotAtStart(r, y, i);
    NotAtStart(q, y, i);
    OtherAbsent(tail, v, r, q, u);
    assert ("$" + y)[1..] == y;
    x := ReplaceAll("$" + y, Placeholder(q), v);
    assert x[0] == '$';
    assert x != u by { assert u != "" ==> u[0] in u; }
    TwoBindings("$" + y, r, u, q, v);
  }

  lemma {:induction false} TwoBindings(s: string, r: Ref, u: string, q: Ref, v: string)
    requires r != q && ReplaceAll(s, Placeholder(r), u) == s
    ensures Expansion(s, map[r := u, q := v], ReplaceAll(s, Placeholder(q), v))
  {
    hide Placeholder;
    ChainTwo(s, r, u, q, v);
    assert MapOf([(r, u), (q, v)]) == map[r := u, q := v];
  }

  // ----- the whole body loop

  function LiftOne(t: Template, s: Source): Template
  {
    if Occurs(s, Render(t)) then Lift(t, s.value, RefOf(s)) else t
  }

  function LiftAll(t: Template, sources: seq<Source>): Template
    decreases |sources|
  {
    if sources == [] then t else LiftAll(LiftOne(t, sources[0]), sources[1..])
  }

  /** Every source in `uses` keeps apart from the placeholders of `uses` and from those of `held`. */
  ghost predicate KeepApart(uses: seq<Source>, held: set<Ref>)
  {
    forall s :: s in uses ==>
      (forall u :: u in uses ==> Apart(s.value, RefOf(u))) && (forall q :: q in held ==> Apart(s.value, q))
  }

  ghost predicate HolesWithin(t: Template, uses: seq<Source>, held: set<Ref>)
  {
    forall q :: Hole(q) in t ==> q in held || exists u :: u in uses && q == RefOf(u)
  }

  ghost predicate Binds(env: map<Ref, string>, uses: seq<Source>)
  {
    forall s :: s in uses ==> RefOf(s) in env && env[RefOf(s)] == s.value
  }

  lemma {:induction false} LiftOneStep(t: Template, s: Source, uses: seq<Source>, held: set<Ref>, env: map<Ref, string>)
    requires s in uses && s.value != "" && KeepApart(uses, held) && HolesWithin(t, uses, held)
    ensures ReplaceAll(Render(t), s.value, Placeholder(RefOf(s))) == Render(Lift(t, s.value, RefOf(s)))
    ensures Binds(env, uses) ==> Fill(Lift(t, s.value, RefOf(s)), env) == Fill(t, env)
    ensures HolesWithin(Lift(t, s.value, RefOf(s)), uses, held)
  {
    assert Apart(s.value, RefOf(s));
    LiftRenders(t, s.value, RefOf(s));
    if Binds(env, uses) { LiftFills(t, s.value, RefOf(s), env); }
    forall q | Hole(q) in Lift(t, s.value, RefOf(s))
      ensures q in held || exists u :: u in uses && q == RefOf(u)
    {
      LiftHoles(t, s.value, RefOf(s), q);
    }
  }

  /** Binding a body over all sources renders a lifted template with the same filling. */
  lemma {:induction false} LiftAllRenders(
      t: Template, sources: seq<Source>, uses: seq<Source>, held: set<Ref>, env: map<Ref, string>)
    requires forall s :: s in BodyUses(Render(t), sources) ==> s in uses
    requires KeepApart(uses, held) && HolesWithin(t, uses, held)
    ensures BindBody(Render(t), sources) == Render(LiftAll(t, sources))
    ensures Binds(env, uses) ==> Fill(LiftAll(t, sources), env) == Fill(t, env)
    ensures HolesWithin(LiftAll(t, sources), uses, held)
    decreases |sources|
  {
    if sources != [] {
      var s := sources[0];
      if Occurs(s, Render(t)) {
        assert s == BodyUses(Render(t), sources)[0];
        LiftOneStep(t, s, uses, held, env);
      }
      var next := LiftOne(t, s);
      assert Render(next) == BindOne(Render(t), s);
      assert forall u :: u in BodyUses(Render(next), sources[1..]) ==> u in BodyUses(Render(t), sources);
      LiftAllRenders(next, sources[1..], uses, held, env);
    }
  }

  // ----- nothing is left spelled out

  /** The ordinary characters of the template spell `v` somewhere. */
  predicate SpelledOut(t: Template, v: string)
  {
    Begins(t, v) || (t != [] && SpelledOut(t[1..], v))
  }

  lemma {:induction false} SpelledAt(t: Template, v: string, i: nat)
    requires i <= |t| && SpelledOut(t[i..], v)
    ensures SpelledOut(t, v)
  {
    if i == 0 {
      assert t[0..] == t;
    } else {
      assert t[1..][i - 1..] == t[i..];
      SpelledAt(t[1..], v, i - 1);
    }
  }

  /** What is spelled out in a template occurs in its text. */
  lemma {:induction false} SpelledOccurs(t: Template, v: string)
    requires SpelledOut(t, v)
    ensures Contains(Render(t), v)
  {
    if Begins(t, v) {
      RenderBegins(t, v);
    } else {
      SpelledOccurs(t[1..], v);
      var rest := Render(t[1..]);
      match t[0] {
        case Char(c) => assert ([c] + rest)[1..] == rest;
        case Hole(q) => BehindIsInside(Placeholder(q), rest, v);
      }
    }
  }

  lemma {:induction false} BehindIsInside(u: string, rest: string, v: string)
    requires Contains(rest, v)
    ensures Contains(u + rest, v)
  {
    if u == "" {
      assert u + rest == rest;
    } else {
      assert (u + rest)[1..] == u[1..] + rest;
      BehindIsInside(u[1..], rest, v);
    }
  }

  lemma {:induction false} LiftPrefix(t: Template, w: string, r: Ref, v: string)
    requires w != ""
    ensures Begins(Lift(t, w, r), v) ==> Begins(t, v)
    decreases |t|
  {
    if v == "" {
      assert t[..0] == Chars(v);
    } else if t != [] {
      var lifted := Lift(t, w, r);
      BeginsCons(lifted, v);
      BeginsCons(t, v);
      if !Begins(t, w) {
        assert lifted[1..] == Lift(t[1..], w, r);
        LiftPrefix(t[1..], w, r, v[1..]);
      }
    }
  }

  /** Lifting a value leaves it nowhere, and spells nothing new. */
  lemma {:induction false} LiftClears(t: Template, w: string, r: Ref, v: string)
    requires w != "" && v != "" && (SpelledOut(t, v) ==> v == w)
    ensures !SpelledOut(Lift(t, w, r), v)
    decreases |t|
  {
    if t != [] {
      var lifted := Lift(t, w, r);
      BeginsCons(lifted, v);
      if Begins(t, w) {
        assert lifted[1..] == Lift(t[|w|..], w, r);
        if SpelledOut(t[|w|..], v) { SpelledAt(t, v, |w|); }
        LiftClears(t[|w|..], w, r, v);
      } else {
        assert lifted[1..] == Lift(t[1..], w, r);
        LiftPrefix(t, w, r, v);
        LiftClears(t[1..], w, r, v);
      }
    }
  }

  lemma {:induction false} LiftAllKeepsClear(t: Template, sources: seq<Source>, v: string)
    requires v != "" && !SpelledOut(t, v)
    ensures !SpelledOut(LiftAll(t, sources), v)
    decreases |sources|
  {
    hide Occurs;
    if sources != [] {
      var s := sources[0];
      if Occurs(s, Render(t)) {
        OccursExactly(s, Render(t));
        LiftClears(t, s.value, RefOf(s), v);
      }
      LiftAllKeepsClear(LiftOne(t, s), sources[1..], v);
    }
  }

  lemma {:induction false} OccursExactly(s: Source, text: string)
    ensures Occurs(s, text) <==> s.value != "" && Contains(text, s.value)
  {
  }

  /** After the loop no source's value is spelled out. */
  lemma {:induction false} LiftAllClears(t: Template, sources: seq<Source>, s: Source)
    requires s in sources && s.value != ""
    ensures !SpelledOut(LiftAll(t, sources), s.value)
    decreases |sources|
  {
    hide Occurs;
    if s == sources[0] {
      OccursExactly(s, Render(t));
      if Occurs(s, Render(t)) {
        LiftClears(t, s.value, RefOf(s), s.value);
      } else if SpelledOut(t, s.value) {
        SpelledOccurs(t, s.value);
      }
      LiftAllKeepsClear(LiftOne(t, s), sources[1..], s.value);
    } else {
      LiftAllClears(LiftOne(t, sources[0]), sources[1..], s);
    }
  }
}
