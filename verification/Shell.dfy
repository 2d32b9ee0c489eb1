/** The exported curl command, and the words a POSIX shell makes of it. */
module Shell {
  import opened Options
  import opened Text
  import opened Json

  /** `shellQuote`. */
  function ShellQuote(value: string): string
  {
    if value == "" then "''" else "'" + ReplaceAll(value, "'", "'\\''") + "'"
  }

  // ----- the shell's word splitting and quote removal

  /** Characters that stand for themselves in an unquoted word. */
  predicate WordChar(c: char)
  {
    'a' <= c <= 'z' || 'A' <= c <= 'Z' || '0' <= c <= '9' || c == '-' || c == '_' || c == '.' || c == '/' || c == ':'
  }

  /** Sections 2.2.1, 2.2.2 and 2.3 of the POSIX.1-2017 Shell Command Language, for text whose unquoted characters are
      blanks, plain word characters, single quotes and backslash escapes; anything else gives `None`. */
  function Lex(s: string, quoted: bool, started: bool, word: string, done: seq<string>): Option<seq<string>>
    decreases |s|
  {
    if s == "" then
      if quoted then None else Some(if started then done + [word] else done)
    else if quoted then
      if s[0] == '\'' then Lex(s[1..], false, true, word, done) else Lex(s[1..], true, true, word + [s[0]], done)
    else if s[0] == '\'' then Lex(s[1..], true, true, word, done)
    else if s[0] == '\\' then
      if |s| == 1 then None
      else if s[1] == '\n' then Lex(s[2..], false, started, word, done)
      else Lex(s[2..], false, true, word + [s[1]], done)
    else if s[0] == ' ' || s[0] == '\t' then
      Lex(s[1..], false, false, "", if started then done + [word] else done)
    else if WordChar(s[0]) then Lex(s[1..], false, true, word + [s[0]], done)
    else None
  }

  function Words(command: string): Option<seq<string>> { Lex(command, false, false, "", []) }

  predicate Special(c: char)
  {
    c == '|' || c == '&' || c == ';' || c == '<' || c == '>' || c == '(' || c == ')' || c == '$' || c == '`' ||
    c == '"' || c == '\\' || c == '*' || c == '?' || c == '[' || c == '#' || c == '~' || c == '=' || c == '%' ||
    c == '!' || c == '{' || c == '}' || c == '\n'
  }

  /** No character with a meaning to the shell stands for itself unquoted. */
  lemma {:induction false} SpecialIsRefused(c: char)
    requires Special(c)
    ensures Words([c]) == None
  {
    assert !WordChar(c) && c != '\'' && c != ' ' && c != '\t';
  }

  // ----- the command

  datatype Part = Bare(word: string) | Quoted(value: string)

  function PartText(p: Part): string
  {
    match p
    case Bare(word) => word
    case Quoted(value) => ShellQuote(value)
  }

  function PartWord(p: Part): string
  {
    match p
    case Bare(word) => word
    case Quoted(value) => value
  }

  function Join(parts: seq<Part>): string
  {
    if parts == [] then "" else if |parts| == 1 then PartText(parts[0]) else PartText(parts[0]) + " " + Join(parts[1..])
  }

  function PartWords(parts: seq<Part>): seq<string>
  {
    if parts == [] then [] else [PartWord(parts[0])] + PartWords(parts[1..])
  }

  function HeaderParts(keys: seq<string>, headers: map<string, string>): seq<Part>
    requires forall k :: k in keys ==> k in headers
  {
    if keys == [] then []
    else [Bare("-H"), Quoted(keys[0] + ": " + headers[keys[0]])] + HeaderParts(keys[1..], headers)
  }

  function BodyParts(body: string): seq<Part> { if body != "" then [Bare("--data-binary"), Quoted(body)] else [] }

  function CurlParts(
      verb: string, keys: seq<string>, headers: map<string, string>, body: string, url: string): seq<Part>
    requires forall k :: k in keys ==> k in headers
  {
    [Bare("curl"), Bare("-X"), Quoted(verb)] + HeaderParts(keys, headers)
    + BodyParts(body) + [Quoted(url)]
  }

  /** The argument vector the command stands for. */
  function CurlWords(
      verb: string, keys: seq<string>, headers: map<string, string>, body: string, url: string): seq<string>
    requires forall k :: k in keys ==> k in headers
  {
    ["curl", "-X", verb] + HeaderWords(keys, headers) + (if body != "" then ["--data-binary", body] else []) + [url]
  }

  function HeaderWords(keys: seq<string>, headers: map<string, string>): seq<string>
    requires forall k :: k in keys ==> k in headers
  {
    if keys == [] then [] else ["-H", keys[0] + ": " + headers[keys[0]]] + HeaderWords(keys[1..], headers)
  }

  /** The keys in increasing byte order, each once. */
  ghost predicate SortedKeys(keys: seq<string>, all: set<string>)
  {
    (forall i, j :: 0 <= i < j < |keys| ==> Less(keys[i], keys[j])) && forall k :: k in keys <==> k in all
  }

  // ----- quoting and splitting are inverse

  lemma {:induction false} LexQuotedChar(c: char, tail: string, word: string, done: seq<string>)
    requires c != '\''
    ensures Lex([c] + tail, true, true, word, done) == Lex(tail, true, true, word + [c], done)
  {
    assert ([c] + tail)[1..] == tail;
  }

  lemma {:induction false} LexClosingQuote(rest: string, word: string, done: seq<string>)
    ensures Lex("'" + rest, true, true, word, done) == Lex(rest, false, true, word, done)
  {
    assert ("'" + rest)[1..] == rest;
  }

  /** Quoted text in front of anything, `end`, is read as itself. */
  lemma {:induction false} LexQuotedText(v: string, end: string, word: string, done: seq<string>)
    ensures Lex(ReplaceAll(v, "'", "'\\''") + end, true, true, word, done) == Lex(end, true, true, word + v, done)
    decreases |v|
  {
    hide Lex;
    if v == "" {
      assert "" + end == end && word + "" == word;
    } else {
      var more := ReplaceAll(v[1..], "'", "'\\''");
      assert ("'" <= v) == (v[0] == '\'');
      LexQuotedText(v[1..], end, word + [v[0]], done);
      assert (word + [v[0]]) + v[1..] == word + v;
      var first := if v[0] == '\'' then "'\\''" else [v[0]];
      assert (first + more) + end == first + (more + end);
      if v[0] == '\'' { EscapedQuote(more + end, word, done); } else { LexQuotedChar(v[0], more + end, word, done); }
    }
  }

  lemma {:induction false} LexInQuotes(v: string, rest: string, word: string, done: seq<string>)
    ensures Lex(ReplaceAll(v, "'", "'\\''") + "'" + rest, true, true, word, done)
      == Lex(rest, false, true, word + v, done)
  {
    hide Lex, ReplaceAll;
    var text := ReplaceAll(v, "'", "'\\''");
    assert text + "'" + rest == text + ("'" + rest);
    LexQuotedText(v, "'" + rest, word, done);
    LexClosingQuote(rest, word + v, done);
  }

  /** Close, an escaped quote, and open again. */
  lemma {:induction false} EscapedQuote(tail: string, word: string, done: seq<string>)
    ensures Lex("'\\''" + tail, true, true, word, done) == Lex(tail, true, true, word + "'", done)
  {
    var s := "'\\''" + tail;
    var t := s[1..];
    var u := t[2..];
    assert t[0] == '\\' && t[1] == '\'' && u == "'" + tail && u[1..] == tail;
    assert Lex(s, true, true, word, done) == Lex(t, false, true, word, done);
    assert Lex(t, false, true, word, done) == Lex(u, false, true, word + [t[1]], done);
    assert Lex(u, false, true, word + [t[1]], done) == Lex(tail, true, true, word + [t[1]], done);
    assert word + [t[1]] == word + "'";
  }

  lemma {:induction false} LexQuoted(v: string, rest: string, word: string, started: bool, done: seq<string>)
    ensures Lex(ShellQuote(v) + rest, false, started, word, done) == Lex(rest, false, true, word + v, done)
  {
    var s := ShellQuote(v) + rest;
    var tail := ReplaceAll(v, "'", "'\\''") + "'" + rest;
    assert s == "'" + tail;
    assert s[1..] == tail;
    LexInQuotes(v, rest, word, done);
  }

  lemma {:induction false} LexBare(w: string, rest: string, word: string, started: bool, done: seq<string>)
    requires w != "" && forall i :: 0 <= i < |w| ==> WordChar(w[i])
    ensures Lex(w + rest, false, started, word, done) == Lex(rest, false, true, word + w, done)
    decreases |w|
  {
    assert (w + rest)[0] == w[0] && (w + rest)[1..] == w[1..] + rest;
    assert Lex(w + rest, false, started, word, done) == Lex(w[1..] + rest, false, true, word + [w[0]], done);
    assert (word + [w[0]]) + w[1..] == word + w;
    if |w| > 1 {
      LexBare(w[1..], rest, word + [w[0]], true, done);
    } else {
      assert w == [w[0]] && w[1..] + rest == rest;
    }
  }

  predicate GoodPart(p: Part)
  {
    p.Bare? ==> p.word != "" && forall i :: 0 <= i < |p.word| ==> WordChar(p.word[i])
  }

  lemma {:induction false} LexPart(p: Part, rest: string, done: seq<string>)
    requires GoodPart(p)
    ensures Lex(PartText(p) + rest, false, false, "", done) == Lex(rest, false, true, PartWord(p), done)
  {
    assert "" + PartWord(p) == PartWord(p);
    match p {
      case Bare(word) => LexBare(word, rest, "", false, done);
      case Quoted(value) => LexQuoted(value, rest, "", false, done);
    }
  }

  lemma {:induction false} LexJoin(parts: seq<Part>, done: seq<string>)
    requires forall p :: p in parts ==> GoodPart(p)
    ensures Lex(Join(parts), false, false, "", done) == Some(done + PartWords(parts))
    decreases |parts|
  {
    hide PartText, PartWord;
    if parts == [] {
      assert done + [] == done;
    } else if |parts| == 1 {
      LexPart(parts[0], "", done);
      assert PartText(parts[0]) + "" == PartText(parts[0]);
      assert parts[1..] == [];
      assert PartWords(parts) == [PartWord(parts[0])];
    } else {
      var rest := " " + Join(parts[1..]);
      assert Join(parts) == PartText(parts[0]) + rest;
      LexPart(parts[0], rest, done);
      assert rest[1..] == Join(parts[1..]);
      LexJoin(parts[1..], done + [PartWord(parts[0])]);
      assert (done + [PartWord(parts[0])]) + PartWords(parts[1..]) == done + PartWords(parts);
    }
  }

  lemma {:induction false} PartWordsAppend(a: seq<Part>, b: seq<Part>)
    ensures PartWords(a + b) == PartWords(a) + PartWords(b)
  {
    if a == [] {
      assert a + b == b;
    } else {
      assert (a + b)[0] == a[0] && (a + b)[1..] == a[1..] + b;
      PartWordsAppend(a[1..], b);
    }
  }

  lemma {:induction false} TwoParts(p: Part, q: Part)
    ensures PartWords([p, q]) == [PartWord(p), PartWord(q)]
    ensures PartWords([p]) == [PartWord(p)]
  {
    assert [p, q][1..] == [q] && [q][1..] == [] && [p][1..] == [];
    assert PartWords([q]) == [PartWord(q)];
  }

  lemma {:induction false} HeaderPartsWords(keys: seq<string>, headers: map<string, string>)
    requires forall k :: k in keys ==> k in headers
    ensures PartWords(HeaderParts(keys, headers)) == HeaderWords(keys, headers)
    ensures forall p :: p in HeaderParts(keys, headers) ==> GoodPart(p)
  {
    if keys != [] {
      var here := [Bare("-H"), Quoted(keys[0] + ": " + headers[keys[0]])];
      HeaderPartsWords(keys[1..], headers);
      PartWordsAppend(here, HeaderParts(keys[1..], headers));
      TwoParts(here[0], here[1]);
    }
  }

  lemma {:induction false} StartWords(verb: string)
    ensures PartWords([Bare("curl"), Bare("-X"), Quoted(verb)]) == ["curl", "-X", verb]
  {
    var a := [Bare("curl"), Bare("-X")];
    TwoParts(a[0], a[1]);
    TwoParts(Quoted(verb), Quoted(verb));
    PartWordsAppend(a, [Quoted(verb)]);
    assert [Bare("curl"), Bare("-X"), Quoted(verb)] == a + [Quoted(verb)];
  }

  lemma {:induction false} EndWords(body: string, url: string)
    ensures PartWords(BodyParts(body) + [Quoted(url)]) == (if body != "" then ["--data-binary", body] else []) + [url]
  {
    PartWordsAppend(BodyParts(body), [Quoted(url)]);
    TwoParts(Bare("--data-binary"), Quoted(body));
    TwoParts(Quoted(url), Quoted(url));
  }

  lemma {:induction false} CurlPartsWords(
      verb: string, keys: seq<string>, headers: map<string, string>, body: string, url: string)
    requires forall k :: k in keys ==> k in headers
    ensures PartWords(CurlParts(verb, keys, headers, body, url)) == CurlWords(verb, keys, headers, body, url)
    ensures forall p :: p in CurlParts(verb, keys, headers, body, url) ==> GoodPart(p)
  {
    hide PartWords;
    var a, b, c := [Bare("curl"), Bare("-X"), Quoted(verb)], HeaderParts(keys, headers), BodyParts(body)
        + [Quoted(url)];
    assert CurlParts(verb, keys, headers, body, url) == (a + b) + c;
    PartWordsAppend(a + b, c);
    PartWordsAppend(a, b);
    StartWords(verb);
    HeaderPartsWords(keys, headers);
    EndWords(body, url);
    assert (["curl", "-X", verb] + HeaderWords(keys, headers))
      + ((if body != "" then ["--data-binary", body] else []) + [url])
        == CurlWords(verb, keys, headers, body, url);
  }

  /** A shell splits the exported command into exactly the intended arguments: for every method, header map, body
      and URL, whatever characters they contain. */
  lemma {:induction false} CommandRoundTrip(
      verb: string, keys: seq<string>, headers: map<string, string>, body: string, url: string)
    requires SortedKeys(keys, headers.Keys)
    ensures Words(Join(CurlParts(verb, keys, headers, body, url))) == Some(CurlWords(verb, keys, headers, body, url))
  {
    CurlPartsWords(verb, keys, headers, body, url);
    LexJoin(CurlParts(verb, keys, headers, body, url), []);
    assert [] + CurlWords(verb, keys, headers, body, url) == CurlWords(verb, keys, headers, body, url);
  }

  // ----- the imperative form

  lemma {:induction false} LessTotal(a: string, b: string)
    ensures a == b || Less(a, b) || Less(b, a)
    ensures !Less(a, a) && !(Less(a, b) && Less(b, a))
  {
    if a != "" { LessTotal(a[1..], a[1..]); }
    if a != "" && b != "" {
      LessTotal(a[1..], b[1..]);
      assert a == [a[0]] + a[1..] && b == [b[0]] + b[1..];
    }
  }

  lemma {:induction false} LessTransitive(a: string, b: string, c: string)
    requires Less(a, b) && Less(b, c)
    ensures Less(a, c)
  {
    if a != "" && a[0] == b[0] == c[0] { LessTransitive(a[1..], b[1..], c[1..]); }
  }

  /** Insert a new key into sorted keys. */
  method InsertKey(keys: seq<string>, key: string, ghost all: set<string>) returns (r: seq<string>)
    requires SortedKeys(keys, all) && key !in all
    ensures SortedKeys(r, all + {key})
  {
    var i := 0;
    while i < |keys| && Less(keys[i], key)
      invariant 0 <= i <= |keys|
      invariant forall k :: 0 <= k < i ==> Less(keys[k], key)
    {
      i := i + 1;
    }
    forall k | i <= k < |keys|
      ensures Less(key, keys[k])
    {
      assert keys[i] in keys && keys[k] in keys;
      LessTotal(key, keys[i]);
      if i < k { LessTransitive(key, keys[i], keys[k]); }
    }
    r := keys[..i] + [key] + keys[i..];
    assert forall x :: x in keys <==> x in keys[..i] || x in keys[i..] by {
      assert keys == keys[..i] + keys[i..];
    }
  }

  method SortKeys(all: set<string>) returns (keys: seq<string>)
    ensures SortedKeys(keys, all)
  {
    keys := [];
    var left := all;
    while left != {}
      invariant left <= all && SortedKeys(keys, all - left)
    {
      var key :| key in left;
      keys := InsertKey(keys, key, all - left);
      assert all - left + {key} == all - (left - {key});
      left := left - {key};
    }
    assert all - {} == all;
  }

  /** `Curl`, after redaction. */
  method Curl(verb: string, headers: map<string, string>, body: string, url: string) returns (command: string)
    ensures exists keys :: SortedKeys(keys, headers.Keys)
                           && command == Join(CurlParts(verb, keys, headers, body, url))
                           && Words(command) == Some(CurlWords(verb, keys, headers, body, url))
  {
    var sorted := SortKeys(headers.Keys);
    var parts := [Bare("curl"), Bare("-X"), Quoted(verb)];
    for i := 0 to |sorted|
      invariant parts + HeaderParts(sorted[i..], headers)
             == [Bare("curl"), Bare("-X"), Quoted(verb)] + HeaderParts(sorted, headers)
    {
      var key := sorted[i];
      assert sorted[i..][0] == key && sorted[i..][1..] == sorted[i + 1..];
      parts := parts + [Bare("-H"), Quoted(key + ": " + headers[key])];
    }
    assert sorted[|sorted|..] == [];
    if |body| > 0 {
      parts := parts + [Bare("--data-binary"), Quoted(body)];
    }
    parts := parts + [Quoted(url)];
    assert parts == CurlParts(verb, sorted, headers, body, url);
    command := Join(parts);
    CommandRoundTrip(verb, sorted, headers, body, url);
  }
}
