/** Server-sent events as read by the body parser. */
module Sse {
  import opened Text

  datatype Event = Event(event: string, id: string, data: string)

  const EMPTY := Event("", "", "")

  function Flush(current: Event): seq<Event>
  {
    if current == EMPTY then [] else [current]
  }

  /** What a non-empty line adds to the current event. */
  function Absorb(current: Event, line: string): Event
    requires line != ""
  {
    if line[0] == ':' then current
    else
      var k := IndexOf(line, ':');
      var key := line[..k];
      var after := if k < |line| then line[k + 1..] else "";
      var value := if k < |line| && " " <= after then after[1..] else after;
      if key == "event" then current.(event := value)
      else if key == "id" then current.(id := value)
      else if key == "data" then
        current.(data := if current.data != "" then current.data + "\n" + value else value)
      else current
  }

  function ParseLines(lines: seq<string>, current: Event): seq<Event>
    decreases |lines|
  {
    if lines == [] then Flush(current)
    else
      var line := TrimRight(lines[0], '\r');
      if line == "" then Flush(current) + ParseLines(lines[1..], EMPTY)
      else ParseLines(lines[1..], Absorb(current, line))
  }

  /** `parseSSE`. */
  function Parse(text: string): seq<Event> { ParseLines(Split(text, '\n'), EMPTY) }

  method ParseSse(text: string) returns (events: seq<Event>)
    ensures events == Parse(text)
  {
    events := [];
    var current := EMPTY;
    var lines := Split(text, '\n');
    ghost var rest, goal := lines, Parse(text);
    for k := 0 to |lines|
      invariant rest == lines[k..] && events + ParseLines(rest, current) == goal
    {
      assert rest[0] == lines[k] && rest[1..] == lines[k + 1..];
      var line := TrimRight(lines[k], '\r');
      if line == "" {
        FlushFirst(events, current, ParseLines(rest[1..], EMPTY));
        if current.event != "" || current.id != "" || current.data != "" {
          events := events + [current];
        }
        current := EMPTY;
      } else {
        current := Absorb(current, line);
      }
      rest := rest[1..];
    }
    if current.event != "" || current.id != "" || current.data != "" {
      events := events + [current];
    }
  }

  lemma {:induction false} FlushFirst(events: seq<Event>, current: Event, more: seq<Event>)
    ensures events + (Flush(current) + more) == (if current == EMPTY then events else events + [current]) + more
  {
  }

  // ----- what an event can look like

  predicate OneLine(s: string)
  {
    '\n' !in s && (s != "" ==> s[|s| - 1] != '\r')
  }

  /** Data lines without trailing carriage returns, the first not empty. */
  predicate DataOk(data: string)
  {
    (data != "" ==> data[0] != '\n') && forall l :: l in Split(data, '\n') ==> OneLine(l)
  }

  predicate Good(e: Event)
  {
    e != EMPTY && OneLine(e.event) && OneLine(e.id) && DataOk(e.data)
  }

  predicate Sound(e: Event)
  {
    OneLine(e.event) && OneLine(e.id) && DataOk(e.data)
  }

  lemma {:induction false} TrimRightEnds(s: string, c: char)
    ensures TrimRight(s, c) <= s && (TrimRight(s, c) != "" ==> TrimRight(s, c)[|TrimRight(s, c)| - 1] != c)
  {
    if s != "" && s[|s| - 1] == c { TrimRightEnds(s[..|s| - 1], c); }
  }

  lemma {:induction false} SplitClean(s: string, sep: char)
    ensures forall l :: l in Split(s, sep) ==> sep !in l
  {
    if s != "" { SplitClean(s[1..], sep); }
  }

  lemma {:induction false} SuffixOneLine(line: string, k: nat)
    requires OneLine(line) && k <= |line|
    ensures OneLine(line[k..])
  {
  }

  lemma {:induction false} AppendLine(data: string, l: string)
    requires DataOk(data) && OneLine(l)
    ensures DataOk(if data != "" then data + "\n" + l else l)
  {
    if data == "" {
      SplitSingle(l, '\n');
    } else {
      SplitAppend(data, l);
    }
  }

  lemma {:induction false} SplitAppend(a: string, b: string)
    requires '\n' !in b
    ensures Split(a + "\n" + b, '\n') == Split(a, '\n') + [b]
  {
    var w := a + "\n" + b;
    if a == "" {
      assert w == "" + ['\n'] + b;
      SplitSingle(b, '\n');
      SplitJoin("", b, '\n');
    } else {
      assert w[0] == a[0] && w[1..] == a[1..] + "\n" + b;
      SplitAppend(a[1..], b);
      var rest := Split(a[1..], '\n');
      assert (rest + [b])[0] == rest[0] && (rest + [b])[1..] == rest[1..] + [b];
      assert Split(a, '\n') + [b] == if a[0] == '\n' then [""] + (rest + [b])
        else [[a[0]] + rest[0]] + (rest[1..] + [b]);
    }
  }

  lemma {:induction false} AbsorbSound(current: Event, line: string)
    requires Sound(current) && OneLine(line) && line != ""
    ensures Sound(Absorb(current, line))
  {
    var k := IndexOf(line, ':');
    var after := if k < |line| then line[k + 1..] else "";
    var value := if k < |line| && " " <= after then after[1..] else after;
    if k < |line| { SuffixOneLine(line, k + 1); }
    if after != "" { SuffixOneLine(after, 1); }
    AppendLine(current.data, value);
  }

  lemma {:induction false} ParseLinesGood(lines: seq<string>, current: Event)
    requires Sound(current) && forall l :: l in lines ==> '\n' !in l
    ensures forall e :: e in ParseLines(lines, current) ==> Good(e)
    decreases |lines|
  {
    if lines != [] {
      var line := TrimRight(lines[0], '\r');
      TrimRightEnds(lines[0], '\r');
      assert lines[0] in lines;
      SplitSingle("", '\n');
      if line == "" {
        ParseLinesGood(lines[1..], EMPTY);
      } else {
        AbsorbSound(current, line);
        ParseLinesGood(lines[1..], Absorb(current, line));
      }
    }
  }

  /** From any text, every parsed event is good. */
  lemma {:induction false} ParsedIsGood(text: string)
    ensures forall e :: e in Parse(text) ==> Good(e)
  {
    SplitClean(text, '\n');
    SplitSingle("", '\n');
    ParseLinesGood(Split(text, '\n'), EMPTY);
  }

  // ----- printing

  function DataLines(lines: seq<string>): seq<string>
  {
    if lines == [] then [] else ["data: " + lines[0]] + DataLines(lines[1..])
  }

  function EventLine(e: Event): seq<string> { if e.event != "" then ["event: " + e.event] else [] }

  function IdLine(e: Event): seq<string> { if e.id != "" then ["id: " + e.id] else [] }

  function DataPart(e: Event): seq<string> { if e.data != "" then DataLines(Split(e.data, '\n')) else [] }

  function EventLines(e: Event): seq<string>
  {
    EventLine(e) + IdLine(e) + DataPart(e) + [""]
  }

  function AllLines(events: seq<Event>): seq<string>
  {
    if events == [] then [] else EventLines(events[0]) + AllLines(events[1..])
  }

  function Unlines(lines: seq<string>): string
  {
    if lines == [] then "" else lines[0] + "\n" + Unlines(lines[1..])
  }

  /** The events as an event stream. */
  function Print(events: seq<Event>): string { Unlines(AllLines(events)) }

  lemma {:induction false} SplitUnlines(lines: seq<string>)
    requires forall l :: l in lines ==> '\n' !in l
    ensures Split(Unlines(lines), '\n') == lines + [""]
  {
    if lines != [] {
      assert lines[0] in lines;
      SplitUnlines(lines[1..]);
      SplitJoin(lines[0], Unlines(lines[1..]), '\n');
      assert lines[0] + ['\n'] + Unlines(lines[1..]) == Unlines(lines);
      assert [lines[0]] + (lines[1..] + [""]) == lines + [""];
    }
  }

  lemma {:induction false} CutLine(key: string, value: string)
    requires ':' !in key && key != ""
    ensures
      var line := key + ": " + value;
      IndexOf(line, ':') == |key| < |line| && line[..|key|] == key && line[|key| + 1..] == " " + value && line[0] != ':'
  {
    var line := key + ": " + value;
    assert line == key + [':'] + (" " + value);
    IndexOfAfter(key, " " + value, ':');
    assert key[0] in key;
  }

  lemma {:induction false} FieldLine(current: Event, key: string, value: string)
    requires key == "event" || key == "id" || key == "data"
    requires OneLine(value)
    ensures
      var line := key + ": " + value;
      TrimRight(line, '\r') == line &&
      Absorb(current, line) ==
        if key == "event" then current.(event := value)
        else if key == "id" then current.(id := value)
        else current.(data := if current.data != "" then current.data + "\n" + value else value)
  {
    hide IndexOf;
    var line := key + ": " + value;
    assert line[|line| - 1] == if value == "" then ' ' else value[|value| - 1];
    CutLine(key, value);
    assert (" " + value)[1..] == value;
  }

  function JoinLines(first: string, rest: seq<string>): string
    decreases |rest|
  {
    if rest == [] then first else JoinLines(first + "\n" + rest[0], rest[1..])
  }

  lemma {:induction false} JoinPrefix(a: string, first: string, rest: seq<string>)
    ensures JoinLines(a + first, rest) == a + JoinLines(first, rest)
    decreases |rest|
  {
    if rest != [] {
      assert (a + first) + "\n" + rest[0] == a + (first + "\n" + rest[0]);
      JoinPrefix(a, first + "\n" + rest[0], rest[1..]);
    }
  }

  lemma {:induction false} JoinOfSplit(s: string)
    ensures
      var ls := Split(s, '\n');
      JoinLines(ls[0], ls[1..]) == s
  {
    if s != "" {
      var ls := Split(s[1..], '\n');
      JoinOfSplit(s[1..]);
      assert s == [s[0]] + s[1..];
      if s[0] == '\n' {
        assert ([""] + ls)[1..] == ls;
        assert "" + "\n" + ls[0] == "\n" + ls[0];
        JoinPrefix("\n", ls[0], ls[1..]);
      } else {
        JoinPrefix([s[0]], ls[0], ls[1..]);
      }
    }
  }

  /** Data lines after the first are appended one by one. */
  lemma {:induction false} ParseDataLines(ls: seq<string>, rest: seq<string>, current: Event)
    requires current.data != "" && forall l :: l in ls ==> OneLine(l)
    ensures ParseLines(DataLines(ls) + rest, current) == ParseLines(rest, current.(data := JoinLines(current.data, ls)))
    decreases |ls|
  {
    hide ParseLines, Absorb, TrimRight;
    if ls == [] {
      assert DataLines(ls) + rest == rest;
    } else {
      assert ls[0] in ls;
      FieldLine(current, "data", ls[0]);
      var more := DataLines(ls[1..]) + rest;
      assert DataLines(ls) + rest == ["data: " + ls[0]] + more;
      assert "data: " + ls[0] == "data" + ": " + ls[0];
      var next := current.(data := current.data + "\n" + ls[0]);
      ParseOneLine("data: " + ls[0], more, current, next);
      ParseDataLines(ls[1..], rest, next);
    }
  }

  lemma {:induction false} ParseOneLine(line: string, rest: seq<string>, current: Event, next: Event)
    requires line != "" && TrimRight(line, '\r') == line && Absorb(current, line) == next
    ensures ParseLines([line] + rest, current) == ParseLines(rest, next)
  {
    assert ([line] + rest)[1..] == rest;
  }

  lemma {:induction false} ParseData(data: string, rest: seq<string>, current: Event)
    requires data != "" && DataOk(data) && current.data == ""
    ensures ParseLines(DataLines(Split(data, '\n')) + rest, current) == ParseLines(rest, current.(data := data))
  {
    var ls := Split(data, '\n');
    assert ls[0] in ls;
    assert ls[0] != "" && ls[0][0] == data[0];
    FieldLine(current, "data", ls[0]);
    var more := DataLines(ls[1..]) + rest;
    assert DataLines(ls) + rest == ["data: " + ls[0]] + more;
    assert "data: " + ls[0] == "data" + ": " + ls[0];
    ParseOneLine("data: " + ls[0], more, current, current.(data := ls[0]));
    ParseDataLines(ls[1..], rest, current.(data := ls[0]));
    JoinOfSplit(data);
  }

  lemma {:induction false} ParseEventLine(e: Event, rest: seq<string>)
    requires OneLine(e.event)
    ensures ParseLines(EventLine(e) + rest, EMPTY) == ParseLines(rest, Event(e.event, "", ""))
  {
    if e.event == "" {
      assert EventLine(e) + rest == rest;
    } else {
      FieldLine(EMPTY, "event", e.event);
      assert "event: " + e.event == "event" + ": " + e.event;
      ParseOneLine("event: " + e.event, rest, EMPTY, Event(e.event, "", ""));
    }
  }

  lemma {:induction false} ParseIdLine(e: Event, rest: seq<string>)
    requires OneLine(e.id)
    ensures ParseLines(IdLine(e) + rest, Event(e.event, "", "")) == ParseLines(rest, Event(e.event, e.id, ""))
  {
    if e.id == "" {
      assert IdLine(e) + rest == rest;
    } else {
      FieldLine(Event(e.event, "", ""), "id", e.id);
      assert "id: " + e.id == "id" + ": " + e.id;
      ParseOneLine("id: " + e.id, rest, Event(e.event, "", ""), Event(e.event, e.id, ""));
    }
  }

  lemma {:induction false} ParseDataPart(e: Event, rest: seq<string>)
    requires DataOk(e.data)
    ensures ParseLines(DataPart(e) + rest, Event(e.event, e.id, "")) == ParseLines(rest, e)
  {
    if e.data == "" {
      assert DataPart(e) + rest == rest;
    } else {
      ParseData(e.data, rest, Event(e.event, e.id, ""));
    }
  }

  lemma {:induction false} ParseBlankLine(rest: seq<string>, current: Event)
    ensures ParseLines([""] + rest, current) == Flush(current) + ParseLines(rest, EMPTY)
  {
    assert ([""] + rest)[1..] == rest && TrimRight("", '\r') == "";
  }

  lemma {:induction false} ParseEventLines(e: Event, rest: seq<string>)
    requires Good(e)
    ensures ParseLines(EventLines(e) + rest, EMPTY) == [e] + ParseLines(rest, EMPTY)
  {
    hide ParseLines, EventLine, IdLine, DataPart;
    var end := [""] + rest;
    assert EventLines(e) + rest == EventLine(e) + (IdLine(e) + (DataPart(e) + end));
    ParseEventLine(e, IdLine(e) + (DataPart(e) + end));
    ParseIdLine(e, DataPart(e) + end);
    ParseDataPart(e, end);
    ParseBlankLine(rest, e);
  }

  lemma {:induction false} ParseAllLines(events: seq<Event>, rest: seq<string>)
    requires forall e :: e in events ==> Good(e)
    ensures ParseLines(AllLines(events) + rest, EMPTY) == events + ParseLines(rest, EMPTY)
  {
    if events == [] {
      assert AllLines(events) + rest == rest;
    } else {
      var more := AllLines(events[1..]) + rest;
      assert events[0] in events;
      assert AllLines(events) + rest == EventLines(events[0]) + more;
      ParseEventLines(events[0], more);
      ParseAllLines(events[1..], rest);
      Regrouped(events, ParseLines(rest, EMPTY));
    }
  }

  lemma {:induction false} Regrouped(events: seq<Event>, tail: seq<Event>)
    requires events != []
    ensures events + tail == [events[0]] + (events[1..] + tail)
  {
  }

  lemma {:induction false} DataLinesClean(ls: seq<string>)
    requires forall l :: l in ls ==> '\n' !in l
    ensures forall l :: l in DataLines(ls) ==> '\n' !in l
  {
    if ls != [] {
      assert ls[0] in ls;
      DataLinesClean(ls[1..]);
    }
  }

  lemma {:induction false} EventLinesClean(e: Event)
    requires Good(e)
    ensures forall l :: l in EventLines(e) ==> '\n' !in l
  {
    DataLinesClean(Split(e.data, '\n'));
  }

  lemma {:induction false} AllLinesClean(events: seq<Event>)
    requires forall e :: e in events ==> Good(e)
    ensures forall l :: l in AllLines(events) ==> '\n' !in l
  {
    if events != [] {
      assert events[0] in events;
      EventLinesClean(events[0]);
      AllLinesClean(events[1..]);
    }
  }

  /** Printing and parsing a list of events gives it back exactly when every event is good. */
  lemma {:induction false} RoundTripExactly(events: seq<Event>)
    ensures Parse(Print(events)) == events <==> forall e :: e in events ==> Good(e)
  {
    if forall e :: e in events ==> Good(e) {
      AllLinesClean(events);
      SplitUnlines(AllLines(events));
      ParseAllLines(events, [""]);
      assert [""][1..] == [] && TrimRight("", '\r') == "";
      assert ParseLines([""], EMPTY) == [];
      assert events + [] == events;
    }
    ParsedIsGood(Print(events));
  }

  // ----- line endings

  function ToCrLf(text: string): string { ReplaceAll(text, "\n", "\r\n") }

  function WithReturns(lines: seq<string>): seq<string>
    requires |lines| > 0
  {
    if |lines| == 1 then lines else [lines[0] + "\r"] + WithReturns(lines[1..])
  }

  lemma {:induction false} SplitCrLf(text: string)
    ensures Split(ToCrLf(text), '\n') == WithReturns(Split(text, '\n'))
  {
    if text != "" {
      var rest, crlf := Split(text[1..], '\n'), ToCrLf(text[1..]);
      SplitCrLf(text[1..]);
      assert ("\n" <= text) == (text[0] == '\n');
      if text[0] == '\n' {
        assert ToCrLf(text) == "\r" + ['\n'] + crlf;
        SplitJoin("\r", crlf, '\n');
        assert ([""] + rest)[1..] == rest && "" + "\r" == "\r";
      } else {
        assert ToCrLf(text) == [text[0]] + crlf;
        assert ToCrLf(text)[1..] == crlf;
        PrependReturns(text[0], rest);
      }
    }
  }

  lemma {:induction false} PrependReturns(c: char, lines: seq<string>)
    requires |lines| > 0
    ensures WithReturns([[c] + lines[0]] + lines[1..])
         == [[c] + WithReturns(lines)[0]] + WithReturns(lines)[1..]
  {
    var all := [[c] + lines[0]] + lines[1..];
    assert all[1..] == lines[1..];
    if |lines| > 1 { assert ([c] + lines[0]) + "\r" == [c] + (lines[0] + "\r"); }
  }

  lemma {:induction false} ParseWithReturns(lines: seq<string>, current: Event)
    requires |lines| > 0
    ensures ParseLines(WithReturns(lines), current) == ParseLines(lines, current)
    decreases |lines|
  {
    if |lines| > 1 {
      var l := lines[0] + "\r";
      assert l[..|l| - 1] == lines[0] && l[|l| - 1] == '\r';
      assert TrimRight(l, '\r') == TrimRight(lines[0], '\r');
      assert WithReturns(lines)[1..] == WithReturns(lines[1..]);
      var line := TrimRight(lines[0], '\r');
      ParseWithReturns(lines[1..], if line == "" then EMPTY else Absorb(current, line));
    }
  }

  /** Turning every line feed into carriage return and line feed changes nothing, for any text. */
  lemma {:induction false} LineEndingsDoNotMatter(text: string)
    ensures Parse(ToCrLf(text)) == Parse(text)
  {
    SplitCrLf(text);
    ParseWithReturns(Split(text, '\n'), EMPTY);
  }

  lemma {:induction false} ParseThenBlank(lines: seq<string>, current: Event)
    ensures ParseLines(lines + [""], current) == ParseLines(lines, current)
    decreases |lines|
  {
    if lines == [] {
      assert [""] + [] == [""] && lines + [""] == [""];
      ParseBlankLine([], current);
    } else {
      assert (lines + [""])[0] == lines[0] && (lines + [""])[1..] == lines[1..] + [""];
      var line := TrimRight(lines[0], '\r');
      ParseThenBlank(lines[1..], if line == "" then EMPTY else Absorb(current, line));
    }
  }

  /** The end of the text ends an event as a blank line does. */
  lemma {:induction false} EndFlushes(text: string)
    ensures Parse(text + "\n\n") == Parse(text)
  {
    EndLine(text);
    EndLine(text + "\n");
    assert (text + "\n") + "\n" == text + "\n\n";
  }

  lemma {:induction false} EndLine(text: string)
    ensures Parse(text + "\n") == Parse(text)
  {
    SplitAppend(text, "");
    assert text + "\n" + "" == text + "\n";
    ParseThenBlank(Split(text, '\n'), EMPTY);
  }

  // ----- single lines

  /** A field line is read the same with one space after the colon or with none; further spaces belong to the value.
      */
  lemma {:induction false} FieldExactly(current: Event, key: string, value: string)
    requires key != "" && ':' !in key
    ensures
      var next :=
        if key == "event" then current.(event := value)
        else if key == "id" then current.(id := value)
        else if key == "data" then current.(data := if current.data != "" then current.data + "\n" + value else value)
        else current;
      Absorb(current, key + ": " + value) == next &&
      (value == "" || value[0] != ' ' ==> Absorb(current, key + ":" + value) == next) &&
      (value == "" ==> Absorb(current, key) == next)
  {
    CutLine(key, value);
    assert (" " + value)[1..] == value;
    var line := key + ":" + value;
    assert line == key + [':'] + value;
    IndexOfAfter(key, value, ':');
    assert line[..|key|] == key && line[|key| + 1..] == value && line[0] == key[0] && key[0] in key;
    NoColon(key);
    assert key[..|key|] == key;
  }

  lemma {:induction false} NoColon(key: string)
    requires ':' !in key
    ensures IndexOf(key, ':') == |key|
  {
    forall i | 0 <= i < |key|
      ensures key[i] != ':'
    {
      assert key[i] in key;
    }
  }

  /** A comment changes nothing. */
  lemma {:induction false} CommentIgnored(current: Event, comment: string)
    ensures Absorb(current, ":" + comment) == current
  {
  }
}
