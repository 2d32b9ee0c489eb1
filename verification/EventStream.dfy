/** Event streams by section 9.2.6 of the WHATWG HTML standard, and where the body parser agrees with it. An event
    without a type is of type `message` there; here its type stays empty. */
module EventStream {
  import opened Text
  import opened Sse

  datatype Buffers = Buffers(event: string, data: string, id: string)

  /** The lines of a text, ended by CRLF, LF or CR; what follows the last end of line is never dispatched. */
  function Lines(text: string): seq<string>
    decreases |text|
  {
    var k := LineEnd(text);
    if k == |text| then []
    else [text[..k]] + Lines(if "\r\n" <= text[k..] then text[k + 2..] else text[k + 1..])
  }

  function LineEnd(text: string): (k: nat)
    ensures k <= |text| && forall i :: 0 <= i < k ==> text[i] != '\n' && text[i] != '\r'
    ensures k < |text| ==> text[k] == '\n' || text[k] == '\r'
  {
    if text == "" || text[0] == '\n' || text[0] == '\r' then 0 else LineEnd(text[1..]) + 1
  }

  /** Field name and value of a line; one space after the colon is dropped. */
  function FieldOf(line: string): (string, string)
  {
    var k := IndexOf(line, ':');
    if k == |line| then (line, "")
    else
      var after := line[k + 1..];
      (line[..k], if " " <= after then after[1..] else after)
  }

  /** Processing a non-empty line; the reconnection time is not modelled. */
  function Process(b: Buffers, line: string): Buffers
    requires line != ""
  {
    if line[0] == ':' then b
    else
      var (field, value) := FieldOf(line);
      if field == "event" then b.(event := value)
      else if field == "data" then b.(data := b.data + value + "\n")
      else if field == "id" && '\0' !in value then b.(id := value)
      else b
  }

  /** An event is dispatched if it has data; the last event id stays. */
  function Dispatched(b: Buffers): seq<Event>
  {
    if b.data == "" then [] else [Event(b.event, b.id, b.data[..|b.data| - 1])]
  }

  function Interpret(lines: seq<string>, b: Buffers): seq<Event>
    decreases |lines|
  {
    if lines == [] then []
    else if lines[0] == "" then Dispatched(b) + Interpret(lines[1..], Buffers("", "", b.id))
    else Interpret(lines[1..], Process(b, lines[0]))
  }

  const BYTE_ORDER_MARK: string := [0xEF as char, 0xBB as char, 0xBF as char]

  function Standard(text: string): seq<Event>
  {
    Interpret(Lines(if BYTE_ORDER_MARK <= text then text[3..] else text), Buffers("", "", ""))
  }

  /** A line ends at the first CRLF, LF or CR; a CR and an LF after it are one end. */
  lemma {:induction false} LinesExactly(line: string, rest: string)
    requires '\n' !in line && '\r' !in line
    ensures Lines(line) == []
    ensures Lines(line + ("\n" + rest)) == [line] + Lines(rest)
    ensures Lines(line + ("\r\n" + rest)) == [line] + Lines(rest)
    ensures !("\n" <= rest) ==> Lines(line + ("\r" + rest)) == [line] + Lines(rest)
  {
    Unended(line);
    hide Lines, LineEnd;
    LineCut(line, "\n" + rest);
    LineCut(line, "\r\n" + rest);
    LineCut(line, "\r" + rest);
    EndsOfLine(rest);
  }

  lemma {:induction false} EndsOfLine(rest: string)
    ensures !("\r\n" <= "\n" + rest) && ("\n" + rest)[1..] == rest
    ensures "\r\n" <= "\r\n" + rest && ("\r\n" + rest)[2..] == rest
    ensures ("\r\n" <= "\r" + rest ==> "\n" <= rest) && ("\r" + rest)[1..] == rest
  {
    assert ("\n" + rest)[0] == '\n';
    assert "\r\n" <= "\r" + rest ==> ("\r" + rest)[..2][1] == '\n';
  }

  lemma {:induction false} Unended(line: string)
    requires '\n' !in line && '\r' !in line
    ensures Lines(line) == []
  {
    LineEndIs(line, "");
    assert line + "" == line;
  }

  lemma {:induction false} LineEndIs(line: string, more: string)
    requires '\n' !in line && '\r' !in line && (more != "" ==> more[0] == '\n' || more[0] == '\r')
    ensures LineEnd(line + more) == |line|
  {
    var k := LineEnd(line + more);
    assert forall i :: 0 <= i < |line| ==> (line + more)[i] == line[i] && line[i] in line;
    assert more != "" ==> (line + more)[|line|] == more[0];
  }

  lemma {:induction false} LineCut(line: string, more: string)
    requires '\n' !in line && '\r' !in line && more != "" && (more[0] == '\n' || more[0] == '\r')
    ensures Lines(line + more) == [line] + Lines(if "\r\n" <= more then more[2..] else more[1..])
  {
    LineEndIs(line, more);
    var text := line + more;
    assert text[..|line|] == line && text[|line|..] == more;
    assert text[|line| + 1..] == more[1..];
    assert |more| > 1 ==> text[|line| + 2..] == more[2..];
  }

  /** A leading byte order mark, U+FEFF, is dropped, once. */
  lemma {:induction false} MarkIsDropped(text: string)
    ensures Standard([0xEF as char, 0xBB as char, 0xBF as char] + text) == Interpret(Lines(text), Buffers("", "", ""))
    ensures text == "" || text[0] as int != 0xEF ==> Standard(text) == Interpret(Lines(text), Buffers("", "", ""))
  {
    var marked := [0xEF as char, 0xBB as char, 0xBF as char] + text;
    assert marked[3..] == text;
    assert BYTE_ORDER_MARK <= marked;
  }

  /** What a field does: a type replaces, data is appended with a line feed, an id replaces unless it holds NUL, any
      other name does nothing. */
  lemma {:induction false} FieldDoes(b: Buffers, name: string, value: string)
    requires name != "" && ':' !in name && (value == "" || value[0] != ' ')
    ensures
      var r := Process(b, name + ": " + value);
      r == (if name == "event" then b.(event := value)
            else if name == "data" then b.(data := b.data + value + "\n")
            else if name == "id" && '\0' !in value then b.(id := value)
            else b) && r == Process(b, name + ":" + value)
  {
    IndexOfAfter(name, " " + value, ':');
    IndexOfAfter(name, value, ':');
    var spaced, tight := name + ": " + value, name + ":" + value;
    assert spaced == name + [':'] + (" " + value) && tight == name + [':'] + value;
    assert name[0] in name;
    assert spaced[..|name|] == name && spaced[|name| + 1..] == " " + value && (" " + value)[1..] == value;
    assert tight[..|name|] == name && tight[|name| + 1..] == value;
  }

  // ----- printed events

  /** What the standard makes of printed events: those without data are dropped, ids are inherited. */
  function Seen(events: seq<Event>, last: string): seq<Event>
  {
    if events == [] then []
    else
      var e := events[0];
      var id := if e.id != "" then e.id else last;
      (if e.data != "" then [Event(e.event, id, e.data)] else []) + Seen(events[1..], id)
  }

  predicate NoReturns(e: Event)
  {
    '\r' !in e.event && '\r' !in e.id && '\r' !in e.data && '\0' !in e.id
  }

  lemma {:induction false} LineEndAfter(line: string, rest: string)
    requires '\n' !in line && '\r' !in line
    ensures LineEnd(line + "\n" + rest) == |line|
  {
    var text := line + "\n" + rest;
    var k := LineEnd(text);
    assert text[|line|] == '\n';
    assert forall i :: 0 <= i < |line| ==> text[i] == line[i] && line[i] in line;
  }

  lemma {:induction false} LinesOf(lines: seq<string>)
    requires forall l :: l in lines ==> '\n' !in l && '\r' !in l
    ensures Lines(Unlines(lines)) == lines
  {
    if lines != [] {
      var l, rest := lines[0], Unlines(lines[1..]);
      var text := l + "\n" + rest;
      assert l in lines;
      LineEndAfter(l, rest);
      assert text[..|l|] == l && text[|l| + 1..] == rest && text[|l|..][0] == '\n';
      LinesOf(lines[1..]);
    }
  }

  lemma {:induction false} FieldLineOf(key: string, value: string)
    requires ':' !in key && key != ""
    ensures FieldOf(key + ": " + value) == (key, value) && (key + ": " + value)[0] != ':'
  {
    CutLine(key, value);
    assert (" " + value)[1..] == value;
  }

  lemma {:induction false} InterpretLine(line: string, rest: seq<string>, b: Buffers)
    requires line != ""
    ensures Interpret([line] + rest, b) == Interpret(rest, Process(b, line))
  {
    assert ([line] + rest)[1..] == rest;
  }

  lemma {:induction false} InterpretBlank(rest: seq<string>, b: Buffers)
    ensures Interpret([""] + rest, b) == Dispatched(b) + Interpret(rest, Buffers("", "", b.id))
  {
    assert ([""] + rest)[1..] == rest;
  }

  lemma {:induction false} InterpretEventLine(e: Event, rest: seq<string>, b: Buffers)
    requires b.event == ""
    ensures Interpret(EventLine(e) + rest, b) == Interpret(rest, b.(event := e.event))
  {
    hide Interpret;
    if e.event == "" {
      assert EventLine(e) + rest == rest;
    } else {
      FieldLineOf("event", e.event);
      assert "event: " + e.event == "event" + ": " + e.event;
      InterpretLine("event: " + e.event, rest, b);
    }
  }

  lemma {:induction false} InterpretIdLine(e: Event, rest: seq<string>, b: Buffers)
    requires '\0' !in e.id
    ensures Interpret(IdLine(e) + rest, b) == Interpret(rest, if e.id != "" then b.(id := e.id) else b)
  {
    hide Interpret;
    if e.id == "" {
      assert IdLine(e) + rest == rest;
    } else {
      FieldLineOf("id", e.id);
      assert "id: " + e.id == "id" + ": " + e.id;
      InterpretLine("id: " + e.id, rest, b);
    }
  }

  lemma {:induction false} InterpretDataLines(ls: seq<string>, rest: seq<string>, b: Buffers)
    ensures Interpret(DataLines(ls) + rest, b) == Interpret(rest, b.(data := b.data + Unlines(ls)))
    decreases |ls|
  {
    hide Interpret, FieldOf;
    if ls == [] {
      assert DataLines(ls) + rest == rest && b.data + "" == b.data;
    } else {
      var more := DataLines(ls[1..]) + rest;
      assert DataLines(ls) + rest == ["data: " + ls[0]] + more;
      FieldLineOf("data", ls[0]);
      assert "data: " + ls[0] == "data" + ": " + ls[0];
      InterpretLine("data: " + ls[0], more, b);
      InterpretDataLines(ls[1..], rest, b.(data := b.data + ls[0] + "\n"));
      assert b.data + ls[0] + "\n" + Unlines(ls[1..]) == b.data + (ls[0] + "\n" + Unlines(ls[1..]));
    }
  }

  lemma {:induction false} UnlinesOfSplit(s: string)
    ensures Unlines(Split(s, '\n')) == s + "\n"
  {
    if s != "" {
      UnlinesOfSplit(s[1..]);
      var rest := Split(s[1..], '\n');
      assert s == [s[0]] + s[1..];
      if s[0] == '\n' {
        assert ([""] + rest)[1..] == rest;
      } else {
        assert Split(s, '\n')[1..] == rest[1..];
        assert ([s[0]] + rest[0]) + "\n" + Unlines(rest[1..]) == [s[0]] + (rest[0] + "\n" + Unlines(rest[1..]));
      }
    } else {
      assert [""][1..] == [];
    }
  }

  lemma {:induction false} InterpretData(e: Event, rest: seq<string>, b: Buffers)
    requires b.data == ""
    ensures Interpret(DataPart(e) + rest, b) == Interpret(rest, b.(data := if e.data != "" then e.data + "\n" else ""))
  {
    hide Interpret;
    if e.data == "" {
      assert DataPart(e) + rest == rest;
    } else {
      InterpretDataLines(Split(e.data, '\n'), rest, b);
      UnlinesOfSplit(e.data);
      assert "" + (e.data + "\n") == e.data + "\n";
    }
  }

  lemma {:induction false} InterpretEvent(e: Event, rest: seq<string>, last: string)
    requires '\0' !in e.id
    ensures
      var id := if e.id != "" then e.id else last;
      Interpret(EventLines(e) + rest, Buffers("", "", last))
      == (if e.data != "" then [Event(e.event, id, e.data)] else []) + Interpret(rest, Buffers("", "", id))
  {
    hide Interpret, EventLine, IdLine, DataPart;
    var end := [""] + rest;
    var id := if e.id != "" then e.id else last;
    assert EventLines(e) + rest == EventLine(e) + (IdLine(e) + (DataPart(e) + end));
    InterpretEventLine(e, IdLine(e) + (DataPart(e) + end), Buffers("", "", last));
    InterpretIdLine(e, DataPart(e) + end, Buffers(e.event, "", last));
    InterpretData(e, end, Buffers(e.event, "", id));
    var b := Buffers(e.event, if e.data != "" then e.data + "\n" else "", id);
    InterpretBlank(rest, b);
    assert (e.data + "\n")[..|e.data|] == e.data;
  }

  lemma {:induction false} InterpretEvents(events: seq<Event>, last: string)
    requires forall e :: e in events ==> NoReturns(e)
    ensures Interpret(AllLines(events), Buffers("", "", last)) == Seen(events, last)
    decreases |events|
  {
    hide EventLines;
    if events != [] {
      var e := events[0];
      assert e in events;
      InterpretEvent(e, AllLines(events[1..]), last);
      InterpretEvents(events[1..], if e.id != "" then e.id else last);
    }
  }

  lemma {:induction false} NoReturnsInLines(events: seq<Event>)
    requires forall e :: e in events ==> Good(e) && NoReturns(e)
    ensures forall l :: l in AllLines(events) ==> '\n' !in l && '\r' !in l
  {
    if events != [] {
      var e := events[0];
      assert e in events;
      NoReturnsInEvent(e);
      NoReturnsInLines(events[1..]);
    }
  }

  lemma {:induction false} NoReturnsInEvent(e: Event)
    requires Good(e) && NoReturns(e)
    ensures forall l :: l in EventLines(e) ==> '\n' !in l && '\r' !in l
  {
    SplitClean(e.data, '\n');
    SplitKeeps(e.data, '\r');
    DataLinesWithout(Split(e.data, '\n'));
  }

  lemma {:induction false} SplitKeeps(s: string, c: char)
    requires c !in s
    ensures forall l :: l in Split(s, '\n') ==> c !in l
  {
    if s != "" { SplitKeeps(s[1..], c); }
  }

  lemma {:induction false} DataLinesWithout(ls: seq<string>)
    requires forall l :: l in ls ==> '\n' !in l && '\r' !in l
    ensures forall l :: l in DataLines(ls) ==> '\n' !in l && '\r' !in l
  {
    if ls != [] {
      assert ls[0] in ls;
      DataLinesWithout(ls[1..]);
    }
  }

  /** Every event has data, and none without an id comes after one with an id. */
  ghost predicate Dispatchable(events: seq<Event>, last: string)
  {
    forall k :: 0 <= k < |events| ==>
      events[k].data != "" && (events[k].id != "" || (last == "" && forall j :: 0 <= j < k ==> events[j].id == ""))
  }

  lemma {:induction false} SeenShorter(events: seq<Event>, last: string)
    ensures |Seen(events, last)| <= |events|
  {
    if events != [] { SeenShorter(events[1..], if events[0].id != "" then events[0].id else last); }
  }

  lemma {:induction false} DispatchableCons(events: seq<Event>, last: string)
    requires events != []
    ensures
      var e := events[0];
      Dispatchable(events, last)
      <==> e.data != "" && (e.id != "" || last == "") && Dispatchable(events[1..], if e.id != "" then e.id else last)
  {
    var e, rest := events[0], events[1..];
    assert forall k :: 0 <= k < |rest| ==> rest[k] == events[k + 1];
    if e.data != "" && (e.id != "" || last == "") && Dispatchable(rest, if e.id != "" then e.id else last) {
      forall k | 0 <= k < |events|
        ensures events[k].data != ""
        ensures events[k].id != "" || (last == "" && forall j :: 0 <= j < k ==> events[j].id == "")
      {
        if k > 0 {
          assert rest[k - 1] == events[k];
          assert forall j :: 0 < j < k ==> events[j] == rest[j - 1];
        }
      }
    }
    if Dispatchable(events, last) {
      forall k | 0 <= k < |rest|
        ensures rest[k].data != ""
        ensures rest[k].id != "" ||
          ((if e.id != "" then e.id else last) == "" && forall j :: 0 <= j < k ==> rest[j].id == "")
      {
        assert rest[k] == events[k + 1] && (events[k + 1].id == "" ==> events[0].id == "");
      }
    }
  }

  lemma {:induction false} SeenExactly(events: seq<Event>, last: string)
    ensures Seen(events, last) == events <==> Dispatchable(events, last)
    decreases |events|
  {
    if events != [] {
      var e := events[0];
      var id := if e.id != "" then e.id else last;
      DispatchableCons(events, last);
      SeenExactly(events[1..], id);
      SeenShorter(events[1..], id);
      assert events == [e] + events[1..];
      if e.data != "" {
        assert ([Event(e.event, id, e.data)] + Seen(events[1..], id))[1..] == Seen(events[1..], id);
        assert ([Event(e.event, id, e.data)] + Seen(events[1..], id))[0] == Event(e.event, id, e.data);
      }
    }
  }

  lemma {:induction false} NoMark(events: seq<Event>)
    requires forall e :: e in events ==> Good(e)
    ensures !(BYTE_ORDER_MARK <= Print(events))
  {
    if events != [] {
      assert events[0] in events;
      FirstByte(events);
    }
  }

  lemma {:induction false} FirstByte(events: seq<Event>)
    requires events != [] && Good(events[0])
    ensures Print(events) != "" && Print(events)[0] as int < 0x80
  {
    var e := events[0];
    var lines := AllLines(events);
    assert lines[0] == EventLines(e)[0];
    assert EventLines(e)[0] == if e.event != "" then "event: " + e.event else if e.id != "" then "id: " + e.id
      else "data: " + Split(e.data, '\n')[0];
  }

  /** On printed events without carriage returns and NUL bytes, the body parser and the standard agree exactly when
      every event has data and no event without an id follows one with an id: the standard drops events without data,
      and keeps the last id. */
  lemma {:induction false} StandardAgreesExactly(events: seq<Event>)
    requires forall e :: e in events ==> Good(e) && NoReturns(e)
    ensures Standard(Print(events)) == Parse(Print(events)) <==> Dispatchable(events, "")
  {
    hide Lines, Interpret, Parse, Print, AllLines, Seen;
    RoundTripExactly(events);
    NoMark(events);
    NoReturnsInLines(events);
    LinesOf(AllLines(events));
    PrintIs(events);
    InterpretEvents(events, "");
    SeenExactly(events, "");
  }

  lemma {:induction false} PrintIs(events: seq<Event>)
    ensures Print(events) == Unlines(AllLines(events))
  {
  }
}
