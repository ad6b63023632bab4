/**
 Server-sent events, components/ESPAsyncWebServer/src/AsyncEventSource.cpp: the text that
 generateEventMessage makes, read back by the interpreter of sections 9.2.5 and 9.2.6 of the HTML
 Standard, and the acknowledgement of queued messages.
 */
module ServerSentEvents {
  import opened Bytes
  import opened Decimals
  import opened Wrappers

  predicate IsBreak(c: char) {
    c == '\n' || c == '\r'
  }

  /** A text without line breaks. */
  predicate Plain(s: string) {
    forall i :: 0 <= i < |s| ==> !IsBreak(s[i])
  }

  function FirstBreak(s: string): (i: nat)
    ensures i <= |s| && Plain(s[..i]) && (i < |s| ==> IsBreak(s[i]))
  {
    if s == "" || IsBreak(s[0]) then 0
    else
      var i := 1 + FirstBreak(s[1..]);
      assert s[..i] == [s[0]] + s[1..][..i - 1];
      i
  }

  lemma PlainBefore(s: string, i: nat)
    requires i <= |s| && Plain(s[..i])
    ensures forall j :: 0 <= j < i ==> !IsBreak(s[j])
  {
    forall j | 0 <= j < i ensures !IsBreak(s[j]) {
      assert s[..i][j] == s[j];
    }
  }

  lemma FirstBreakIs(s: string, i: nat)
    requires i <= |s| && Plain(s[..i]) && (i < |s| ==> IsBreak(s[i]))
    ensures FirstBreak(s) == i
  {
    var k := FirstBreak(s);
    PlainBefore(s, i);
    PlainBefore(s, k);
  }

  // ---------- the interpreter of the standard ----------

  datatype Event = Event(kind: string, data: string, lastId: string)

  /** The buffers of section 9.2.6, and the events dispatched so far. An empty kind stands for the
      type "message". */
  datatype Reader = Reader(data: string, kind: string, lastId: string, retry: nat, events: seq<Event>)

  function FirstColon(s: string): (i: nat)
    ensures i <= |s| && (i < |s| ==> s[i] == ':') && ':' !in s[..i]
  {
    if s == "" || s[0] == ':' then 0
    else
      var i := 1 + FirstColon(s[1..]);
      assert s[..i] == [s[0]] + s[1..][..i - 1];
      i
  }

  function ProcessField(r: Reader, name: string, value: string): Reader {
    if name == "event" then r.(kind := value)
    else if name == "data" then r.(data := r.data + value + "\n")
    else if name == "id" then (if '\0' in value then r else r.(lastId := value))
    else if name == "retry" && IsDigits(value) then r.(retry := Value(value))
    else r
  }

  function Dispatch(r: Reader): Reader {
    if r.data == "" then r.(kind := "")
    else
      var data := if r.data[|r.data| - 1] == '\n' then r.data[..|r.data| - 1] else r.data;
      r.(data := "", kind := "", events := r.events + [Event(r.kind, data, r.lastId)])
  }

  function ProcessLine(r: Reader, line: string): Reader {
    var i := FirstColon(line);
    if line == "" then Dispatch(r)
    else if i == 0 then r
    else if i == |line| then ProcessField(r, line, "")
    else ProcessField(r, line[..i], if i + 1 < |line| && line[i + 1] == ' ' then line[i + 2..] else line[i + 1..])
  }

  /** Lines end at CR LF, LF or CR; an unfinished last line is not read. */
  function Interpret(r: Reader, text: string): Reader
    decreases |text|
  {
    var i := FirstBreak(text);
    if i == |text| then r else Interpret(ProcessLine(r, text[..i]), NextLines(text, i))
  }

  /** The text behind the line end at i; CR LF is one line end. */
  function NextLines(text: string, i: nat): (rest: string)
    requires i < |text|
    ensures |rest| < |text|
  {
    text[i + if text[i] == '\r' && i + 1 < |text| && text[i + 1] == '\n' then 2 else 1..]
  }

  lemma InterpretStep(r: Reader, text: string)
    ensures var i := FirstBreak(text);
            Interpret(r, text) == if i == |text| then r else Interpret(ProcessLine(r, text[..i]), NextLines(text, i))
  {
    hide ProcessLine, NextLines;
  }

  // ---------- what the generator writes ----------

  function Text(lines: seq<string>): string {
    if lines == [] then "" else lines[0] + "\r\n" + Text(lines[1..])
  }

  predicate AllPlain(lines: seq<string>) {
    forall k :: 0 <= k < |lines| ==> Plain(lines[k])
  }

  function ProcessAll(r: Reader, lines: seq<string>): Reader
    decreases |lines|
  {
    if lines == [] then r else ProcessAll(ProcessLine(r, lines[0]), lines[1..])
  }

  lemma LineRead(r: Reader, line: string, rest: string)
    requires Plain(line)
    ensures Interpret(r, line + "\r\n" + rest) == Interpret(ProcessLine(r, line), rest)
  {
    hide ProcessLine, Interpret;
    var text := line + "\r\n" + rest;
    assert text[..|line|] == line;
    FirstBreakIs(text, |line|);
    assert text[|line| + 2..] == rest;
    InterpretStep(r, text);
  }

  lemma {:induction false} TextRead(r: Reader, lines: seq<string>, rest: string)
    requires AllPlain(lines)
    ensures Interpret(r, Text(lines) + rest) == Interpret(ProcessAll(r, lines), rest)
    decreases |lines|
  {
    hide ProcessLine, Interpret, Plain;
    if lines == [] {
      assert Text(lines) + rest == rest;
    } else {
      LineRead(r, lines[0], Text(lines[1..]) + rest);
      assert Text(lines) + rest == lines[0] + "\r\n" + (Text(lines[1..]) + rest);
      TextRead(ProcessLine(r, lines[0]), lines[1..], rest);
    }
  }

  lemma {:induction false} ProcessConcat(r: Reader, a: seq<string>, b: seq<string>)
    ensures ProcessAll(r, a + b) == ProcessAll(ProcessAll(r, a), b)
    decreases |a|
  {
    hide ProcessLine;
    if a == [] {
      assert a + b == b;
    } else {
      assert (a + b)[1..] == a[1..] + b;
      ProcessConcat(ProcessLine(r, a[0]), a[1..], b);
    }
  }

  lemma {:induction false} TextConcat(a: seq<string>, b: seq<string>)
    ensures Text(a + b) == Text(a) + Text(b)
  {
    if a == [] {
      assert a + b == b;
    } else {
      assert (a + b)[1..] == a[1..] + b;
      TextConcat(a[1..], b);
    }
  }

  /** How many characters the generator takes for the break at i: "\r\n" is one, and so is "\n\r". */
  function BreakLength(s: string, i: nat): (n: nat)
    requires i < |s|
    ensures 1 <= n <= |s| - i
  {
    if i + 1 < |s| && IsBreak(s[i + 1]) && s[i + 1] != s[i] then 2 else 1
  }

  /** The lines of a message under the generator's rule. A break at the end opens no new line. */
  function Lines(m: string): (lines: seq<string>)
    ensures lines != [] && AllPlain(lines)
    decreases |m|
  {
    var i := FirstBreak(m);
    if i == |m| then
      assert m[..i] == m;
      [m]
    else
      var rest := m[i + BreakLength(m, i)..];
      [m[..i]] + if rest == "" then [] else Lines(rest)
  }

  function DataLines(lines: seq<string>): seq<string> {
    if lines == [] then [] else ["data: " + lines[0]] + DataLines(lines[1..])
  }

  function FieldIf(present: bool, tag: string, value: string): seq<string> {
    if present then [tag + value] else []
  }

  function FieldLines(event: Option<string>, id: nat, reconnect: nat): seq<string> {
    FieldIf(reconnect != 0, "retry: ", Decimal(reconnect)) + FieldIf(id != 0, "id: ", Decimal(id)) +
    FieldIf(event.Some?, "event: ", if event.Some? then event.value else "")
  }

  function MessageLines(m: string): seq<string> {
    DataLines(Lines(m)) + [""]
  }

  /** The data of the event: the lines joined by "\n". */
  function JoinedLines(lines: seq<string>): string
    requires lines != []
  {
    if |lines| == 1 then lines[0] else lines[0] + "\n" + JoinedLines(lines[1..])
  }

  // ---------- the generator ----------

  /** strchr from an offset; -1 stands for a null pointer. */
  method StrChr(s: string, from: nat, c: char) returns (at: int)
    requires from <= |s|
    ensures at == -1 || from <= at < |s|
    ensures at == -1 ==> forall k :: from <= k < |s| ==> s[k] != c
    ensures at != -1 ==> s[at] == c && forall k :: from <= k < at ==> s[k] != c
  {
    at := from;
    while at < |s|
      invariant from <= at <= |s|
      invariant forall k :: from <= k < at ==> s[k] != c
    {
      if s[at] == c {
        return;
      }
      at := at + 1;
    }
    at := -1;
  }

  /** The two searches of the loop find the next line break. */
  lemma NextBreak(m: string, from: nat, nextN: int, nextR: int)
    requires from <= |m|
    requires nextN == -1 || from <= nextN < |m|
    requires nextR == -1 || from <= nextR < |m|
    requires nextN == -1 ==> forall k :: from <= k < |m| ==> m[k] != '\n'
    requires nextR == -1 ==> forall k :: from <= k < |m| ==> m[k] != '\r'
    requires nextN != -1 ==> m[nextN] == '\n' && forall k :: from <= k < nextN ==> m[k] != '\n'
    requires nextR != -1 ==> m[nextR] == '\r' && forall k :: from <= k < nextR ==> m[k] != '\r'
    ensures FirstBreak(m[from..]) ==
            if nextN == -1 && nextR == -1 then |m| - from
            else if nextN == -1 || (nextR != -1 && nextR < nextN) then nextR - from
            else nextN - from
  {
    var i := if nextN == -1 && nextR == -1 then |m| - from
             else if nextN == -1 || (nextR != -1 && nextR < nextN) then nextR - from
             else nextN - from;
    FirstBreakIs(m[from..], i);
  }

  function DataText(line: string): string {
    "data: " + line + "\r\n"
  }

  /** The text of the part of a message that starts at a line. */
  function Rest(m: string): string {
    Text(MessageLines(m))
  }

  lemma RestStep(m: string)
    ensures var i := FirstBreak(m);
            var tail := if i < |m| then m[i + BreakLength(m, i)..] else "";
            Rest(m) == DataText(m[..i]) + if tail == "" then "\r\n" else Rest(tail)
  {
    hide FirstBreak, BreakLength, Plain, DataText, Text;
    var lines := Lines(m);
    var i := FirstBreak(m);
    assert lines[0] == m[..i];
    FirstLine(lines);
    if i == |m| || m[i + BreakLength(m, i)..] == "" {
      assert lines[1..] == [];
      assert DataLines([]) + [""] == [""];
      OneLine("");
      assert "" + "\r\n" == "\r\n";
    } else {
      assert lines[1..] == Lines(m[i + BreakLength(m, i)..]);
    }
  }

  lemma FirstLine(lines: seq<string>)
    requires lines != []
    ensures Text(DataLines(lines) + [""]) == DataText(lines[0]) + Text(DataLines(lines[1..]) + [""])
  {
    var tail := DataLines(lines[1..]) + [""];
    assert DataLines(lines) + [""] == ["data: " + lines[0]] + tail;
    TextConcat(["data: " + lines[0]], tail);
    OneLine("data: " + lines[0]);
  }

  /** generateEventMessage, with its loop over the lines of the message. */
  method GenerateEventMessage(message: Option<string>, event: Option<string>, id: nat, reconnect: nat)
    returns (ev: string)
    ensures ev == Text(FieldLines(event, id, reconnect)) +
                  if message.Some? then Text(MessageLines(message.value)) else ""
  {
    ev := GenerateFields(event, id, reconnect);
    if message.Some? {
      var lines := GenerateLines(message.value);
      ev := ev + lines;
    }
  }

  method GenerateFields(event: Option<string>, id: nat, reconnect: nat) returns (ev: string)
    ensures ev == Text(FieldLines(event, id, reconnect))
  {
    hide Text, Decimal, FieldIf;
    ghost var a := FieldIf(reconnect != 0, "retry: ", Decimal(reconnect));
    ghost var b := FieldIf(id != 0, "id: ", Decimal(id));
    ev := "";
    FieldAdded([], reconnect != 0, "retry: ", Decimal(reconnect));
    FieldAdded(a, id != 0, "id: ", Decimal(id));
    FieldAdded(a + b, event.Some?, "event: ", if event.Some? then event.value else "");
    if reconnect != 0 {
      ev := ev + "retry: ";
      ev := ev + Decimal(reconnect);
      ev := ev + "\r\n";
    }
    assert ev == Text(a);
    if id != 0 {
      ev := ev + "id: ";
      ev := ev + Decimal(id);
      ev := ev + "\r\n";
    }
    assert ev == Text(a + b);
    if event.Some? {
      ev := ev + "event: ";
      ev := ev + event.value;
      ev := ev + "\r\n";
    }
  }

  lemma FieldAdded(lines: seq<string>, present: bool, tag: string, value: string)
    ensures Text(lines + FieldIf(present, tag, value)) ==
            if present then Text(lines) + tag + value + "\r\n" else Text(lines)
    ensures lines == [] ==> Text(lines) == "" && lines + FieldIf(present, tag, value) == FieldIf(present, tag, value)
  {
    TextConcat(lines, FieldIf(present, tag, value));
    if present {
      OneLine(tag + value);
      assert Text(lines) + (tag + value + "\r\n") == Text(lines) + tag + value + "\r\n";
    }
  }

  lemma OneLine(line: string)
    ensures Text([line]) == line + "\r\n"
  {
    assert Text([line]) == line + "\r\n" + Text([]);
  }

  method GenerateLines(message: string) returns (ev: string)
    ensures ev == Rest(message)
  {
    hide *;
    ev := "";
    var lineStart: nat, first := 0, true;
    Begins(message);
    while first || lineStart < |message|
      invariant lineStart <= |message| && Rest(message) == ev + Left(message, lineStart, first)
      decreases first, |message| - lineStart
    {
      var lineEnd, nextLine := NextLine(message, lineStart);
      LeftStep(message, lineStart, first, lineEnd, nextLine);
      Regroup(ev, DataText(message[lineStart..lineEnd]), "\r\n");
      Regroup(ev, DataText(message[lineStart..lineEnd]), Left(message, nextLine, false));
      ev := ev + DataText(message[lineStart..lineEnd]);
      Ends(message, ev + "\r\n");
      if lineEnd == |message| {
        ev := ev + "\r\n";
        lineStart := |message|;
      } else {
        lineStart := nextLine;
        if lineStart == |message| {
          ev := ev + "\r\n";
        }
      }
      first := false;
    }
    Ends(message, ev);
  }

  /** What the loop has still to write. */
  function Left(m: string, lineStart: nat, first: bool): string
    requires lineStart <= |m|
  {
    if first || lineStart < |m| then Rest(m[lineStart..]) else ""
  }

  lemma Begins(m: string)
    ensures Rest(m) == "" + Left(m, 0, true)
  {
    assert m[0..] == m;
  }

  lemma Ends(m: string, ev: string)
    ensures ev + Left(m, |m|, false) == ev
  {
  }

  /** lineEnd is the end of the line that starts at from, nextLine the start of the next one; both
      are the end of the message when there is no break left. */
  predicate IsNextLine(m: string, from: nat, lineEnd: nat, nextLine: nat)
    requires from <= |m|
  {
    lineEnd == from + FirstBreak(m[from..]) && lineEnd <= nextLine <= |m| &&
    if lineEnd == |m| then nextLine == |m|
    else lineEnd < nextLine && nextLine == lineEnd + BreakLength(m[from..], lineEnd - from)
  }

  lemma LeftStep(m: string, from: nat, first: bool, lineEnd: nat, nextLine: nat)
    requires from <= |m| && (first || from < |m|) && IsNextLine(m, from, lineEnd, nextLine)
    ensures from <= lineEnd <= nextLine <= |m|
    ensures (lineEnd == |m| ==> nextLine == |m|) && (lineEnd < |m| ==> from < nextLine)
    ensures Left(m, from, first) ==
            DataText(m[from..lineEnd]) + if nextLine == |m| then "\r\n" else Left(m, nextLine, false)
  {
    hide Rest, BreakLength, DataText, FirstBreak;
    RestStep(m[from..]);
    assert m[from..][..lineEnd - from] == m[from..lineEnd];
    if lineEnd < |m| {
      assert m[from..][nextLine - from..] == m[nextLine..];
    }
  }

  /** The searches and the choice of the loop. */
  method NextLine(message: string, lineStart: nat) returns (lineEnd: nat, nextLine: nat)
    requires lineStart <= |message|
    ensures IsNextLine(message, lineStart, lineEnd, nextLine)
  {
    hide FirstBreak, IsBreak, Plain, BreakLength;
    var nextN := StrChr(message, lineStart, '\n');
    var nextR := StrChr(message, lineStart, '\r');
    NextBreak(message, lineStart, nextN, nextR);
    if nextN == -1 && nextR == -1 {
      return |message|, |message|;
    }
    if nextN != -1 && nextR != -1 {
      if nextR < nextN {
        lineEnd := nextR;
        nextLine := if nextN == nextR + 1 then nextN + 1 else nextR + 1;
      } else {
        lineEnd := nextN;
        nextLine := if nextR == nextN + 1 then nextR + 1 else nextN + 1;
      }
    } else if nextN != -1 {
      lineEnd, nextLine := nextN, nextN + 1;
    } else {
      lineEnd, nextLine := nextR, nextR + 1;
    }
    SkipsBreak(message, lineStart, lineEnd, nextLine, nextN, nextR);
  }

  /** The loop goes on after the whole break. */
  lemma SkipsBreak(m: string, from: nat, lineEnd: nat, nextLine: nat, nextN: int, nextR: int)
    requires from <= lineEnd < |m|
    requires nextN == -1 ==> forall k :: from <= k < |m| ==> m[k] != '\n'
    requires nextR == -1 ==> forall k :: from <= k < |m| ==> m[k] != '\r'
    requires nextN != -1 ==> lineEnd <= nextN < |m| && m[nextN] == '\n'
    requires nextN != -1 ==> forall k :: from <= k < nextN ==> m[k] != '\n'
    requires nextR != -1 ==> lineEnd <= nextR < |m| && m[nextR] == '\r'
    requires nextR != -1 ==> forall k :: from <= k < nextR ==> m[k] != '\r'
    requires lineEnd == nextN || lineEnd == nextR
    requires nextLine == if nextN != -1 && nextR != -1 && (nextN == nextR + 1 || nextR == nextN + 1) then lineEnd + 2
                         else lineEnd + 1
    ensures nextLine == lineEnd + BreakLength(m[from..], lineEnd - from)
    ensures lineEnd < nextLine <= |m|
  {
  }

  // ---------- one event arrives ----------

  lemma FieldRead(r: Reader, name: string, value: string)
    requires name != "" && ':' !in name
    ensures ProcessLine(r, name + ": " + value) == ProcessField(r, name, value)
  {
    hide ProcessField;
    var line := name + ": " + value;
    var i := FirstColon(line);
    assert line[|name|] == ':';
    assert forall j :: 0 <= j < i ==> line[..i][j] == line[j] && line[j] != ':';
    assert forall j :: 0 <= j < |name| ==> line[j] == name[j] && line[j] != ':';
    assert line[..|name|] == name && line[|name| + 2..] == value;
  }

  lemma DataFieldRead(r: Reader, value: string)
    ensures ProcessLine(r, "data: " + value) == r.(data := r.data + value + "\n")
  {
    hide ProcessLine;
    FieldRead(r, "data", value);
    assert "data" + ": " == "data: ";
  }

  lemma {:induction false} DataRead(r: Reader, lines: seq<string>)
    requires lines != []
    ensures ProcessAll(r, DataLines(lines)) == r.(data := r.data + (JoinedLines(lines) + "\n"))
    decreases |lines|
  {
    hide ProcessLine, ProcessField;
    var next := r.(data := r.data + lines[0] + "\n");
    DataFieldRead(r, lines[0]);
    var tail := lines[1..];
    assert DataLines(lines)[1..] == DataLines(tail);
    assert ProcessAll(r, DataLines(lines)) == ProcessAll(next, DataLines(tail));
    if tail != [] {
      DataRead(next, tail);
      Fuse(r.data, lines[0], JoinedLines(tail));
    } else {
      assert r.data + lines[0] + "\n" == r.data + (lines[0] + "\n");
    }
  }

  lemma Fuse(a: string, b: string, c: string)
    ensures (a + b + "\n") + (c + "\n") == a + ((b + "\n" + c) + "\n")
  {
  }

  /** The reader after one event made of these fields and this data. */
  function After(r: Reader, m: string, event: Option<string>, id: nat, reconnect: nat): Reader {
    var lastId := if id != 0 then Decimal(id) else r.lastId;
    Reader("", "", lastId, if reconnect != 0 then reconnect else r.retry,
           r.events + [Event(if event.Some? then event.value else "", JoinedLines(Lines(m)), lastId)])
  }

  function WithFields(r: Reader, event: Option<string>, id: nat, reconnect: nat): Reader {
    r.(lastId := if id != 0 then Decimal(id) else r.lastId,
       retry := if reconnect != 0 then reconnect else r.retry,
       kind := if event.Some? then event.value else r.kind)
  }

  lemma RetryFieldRead(r: Reader, n: nat)
    ensures ProcessLine(r, "retry: " + Decimal(n)) == r.(retry := n)
  {
    hide ProcessLine, Decimal;
    ValueOfDecimal(n);
    FieldRead(r, "retry", Decimal(n));
    assert "retry" + ": " == "retry: ";
  }

  lemma IdFieldRead(r: Reader, n: nat)
    ensures ProcessLine(r, "id: " + Decimal(n)) == r.(lastId := Decimal(n))
  {
    hide ProcessLine, Decimal;
    ValueOfDecimal(n);
    FieldRead(r, "id", Decimal(n));
    assert "id" + ": " == "id: ";
  }

  lemma EventFieldRead(r: Reader, kind: string)
    ensures ProcessLine(r, "event: " + kind) == r.(kind := kind)
  {
    hide ProcessLine;
    FieldRead(r, "event", kind);
    assert "event" + ": " == "event: ";
  }

  lemma FieldIfRead(r: Reader, present: bool, tag: string, value: string)
    ensures ProcessAll(r, FieldIf(present, tag, value)) == if present then ProcessLine(r, tag + value) else r
  {
    hide ProcessLine;
  }

  lemma FieldsRead(r: Reader, event: Option<string>, id: nat, reconnect: nat)
    ensures ProcessAll(r, FieldLines(event, id, reconnect)) == WithFields(r, event, id, reconnect)
  {
    hide ProcessLine, ProcessAll, Decimal, FieldIf;
    var a := FieldIf(reconnect != 0, "retry: ", Decimal(reconnect));
    var b := FieldIf(id != 0, "id: ", Decimal(id));
    var kind := if event.Some? then event.value else "";
    var r1 := if reconnect != 0 then r.(retry := reconnect) else r;
    var r2 := if id != 0 then r1.(lastId := Decimal(id)) else r1;
    RetryFieldRead(r, reconnect);
    FieldIfRead(r, reconnect != 0, "retry: ", Decimal(reconnect));
    IdFieldRead(r1, id);
    FieldIfRead(r1, id != 0, "id: ", Decimal(id));
    EventFieldRead(r2, kind);
    FieldIfRead(r2, event.Some?, "event: ", kind);
    ProcessConcat(r, a + b, FieldIf(event.Some?, "event: ", kind));
    ProcessConcat(r, a, b);
  }

  lemma {:induction false} DataLinesPlain(lines: seq<string>)
    requires AllPlain(lines)
    ensures AllPlain(DataLines(lines))
  {
    if lines != [] {
      DataLinesPlain(lines[1..]);
    }
  }

  lemma FieldIfPlain(present: bool, tag: string, value: string)
    requires Plain(tag) && (present ==> Plain(value))
    ensures AllPlain(FieldIf(present, tag, value))
  {
  }

  lemma FieldLinesPlain(event: Option<string>, id: nat, reconnect: nat)
    requires event.Some? ==> Plain(event.value)
    ensures AllPlain(FieldLines(event, id, reconnect))
  {
    hide Decimal, FieldIf;
    ValueOfDecimal(id);
    ValueOfDecimal(reconnect);
    FieldIfPlain(reconnect != 0, "retry: ", Decimal(reconnect));
    FieldIfPlain(id != 0, "id: ", Decimal(id));
    FieldIfPlain(event.Some?, "event: ", if event.Some? then event.value else "");
  }

  /** What the generator sends for a message. */
  function Wire(m: string, event: Option<string>, id: nat, reconnect: nat): string {
    Text(FieldLines(event, id, reconnect)) + Text(MessageLines(m))
  }

  /** One message gives exactly one event, with its type, its id and its lines. */
  lemma EventRead(r: Reader, m: string, event: Option<string>, id: nat, reconnect: nat, rest: string)
    requires r.data == "" && r.kind == "" && (event.Some? ==> Plain(event.value))
    ensures Interpret(r, Wire(m, event, id, reconnect) + rest) == Interpret(After(r, m, event, id, reconnect), rest)
  {
    hide ProcessLine, ProcessAll, Decimal, Interpret, FieldLines, Lines, JoinedLines, DataLines, Text;
    var fields, lines := FieldLines(event, id, reconnect), DataLines(Lines(m));
    FieldLinesPlain(event, id, reconnect);
    DataLinesPlain(Lines(m));
    var mid := WithFields(r, event, id, reconnect);
    FieldsRead(r, event, id, reconnect);
    DataRead(mid, Lines(m));
    ProcessConcat(mid, lines, [""]);
    Blank(ProcessAll(mid, lines), JoinedLines(Lines(m)));
    TextRead(r, fields, Text(lines + [""]) + rest);
    TextRead(mid, lines + [""], rest);
    assert Wire(m, event, id, reconnect) + rest == Text(fields) + (Text(lines + [""]) + rest);
  }

  lemma Blank(r: Reader, data: string)
    requires r.data == "" + (data + "\n")
    ensures ProcessAll(r, [""]) == r.(data := "", kind := "", events := r.events + [Event(r.kind, data, r.lastId)])
  {
    assert r.data[..|r.data| - 1] == data;
  }

  /** No event type ever holds a line break, whatever the text. */
  lemma {:induction false} KindsPlain(r: Reader, text: string, n: nat)
    requires n <= |r.events| && KindsPlainFrom(r, n)
    ensures n <= |Interpret(r, text).events| && KindsPlainFrom(Interpret(r, text), n)
    decreases |text|
  {
    hide ProcessLine, KindsPlainFrom, Plain, Interpret, FirstBreak, NextLines;
    InterpretStep(r, text);
    var i := FirstBreak(text);
    if i < |text| {
      ProcessKinds(r, text[..i], n);
      KindsPlain(ProcessLine(r, text[..i]), NextLines(text, i), n);
    }
  }

  ghost predicate KindsPlainFrom(r: Reader, n: nat) {
    Plain(r.kind) && forall k :: n <= k < |r.events| ==> Plain(r.events[k].kind)
  }

  lemma ProcessKinds(r: Reader, line: string, n: nat)
    requires n <= |r.events| && KindsPlainFrom(r, n) && Plain(line)
    ensures n <= |ProcessLine(r, line).events| && KindsPlainFrom(ProcessLine(r, line), n)
  {
    hide FirstColon;
  }

  /** Main result: between events, the text of a message is read as exactly that one event,
      if and only if the caller's event type holds no line break. */
  lemma EventArrives(r: Reader, m: string, event: Option<string>, id: nat, reconnect: nat)
    requires r.data == "" && r.kind == ""
    ensures Interpret(r, Wire(m, event, id, reconnect)) == After(r, m, event, id, reconnect) <==>
            (event.Some? ==> Plain(event.value))
  {
    hide Interpret, Wire;
    var wire := Wire(m, event, id, reconnect);
    if event.Some? ==> Plain(event.value) {
      EventRead(r, m, event, id, reconnect, "");
      assert wire + "" == wire;
      Silence(After(r, m, event, id, reconnect));
    } else {
      KindsPlain(r, wire, |r.events|);
      assert After(r, m, event, id, reconnect).events[|r.events|].kind == event.value;
    }
  }

  lemma Silence(r: Reader)
    ensures Interpret(r, "") == r
  {
  }

  // ---------- a whole stream ----------

  datatype Call = Call(message: string, event: Option<string>, id: nat, reconnect: nat)

  function Stream(calls: seq<Call>): string {
    if calls == [] then ""
    else Wire(calls[0].message, calls[0].event, calls[0].id, calls[0].reconnect) + Stream(calls[1..])
  }

  /** One event per message, in order; an id stays in force until the next one. */
  function EventsOf(lastId: string, calls: seq<Call>): (events: seq<Event>)
    ensures |events| == |calls|
    decreases |calls|
  {
    if calls == [] then []
    else
      var c := calls[0];
      var id := if c.id != 0 then Decimal(c.id) else lastId;
      [Event(if c.event.Some? then c.event.value else "", JoinedLines(Lines(c.message)), id)] + EventsOf(id, calls[1..])
  }

  ghost predicate PlainTypes(calls: seq<Call>) {
    forall k :: 0 <= k < |calls| && calls[k].event.Some? ==> Plain(calls[k].event.value)
  }

  /** Main result: a stream of messages is read as one event per message, if and only if no event
      type in it holds a line break. */
  lemma StreamArrives(r: Reader, calls: seq<Call>)
    requires r.data == "" && r.kind == ""
    ensures Interpret(r, Stream(calls)).events == r.events + EventsOf(r.lastId, calls) <==> PlainTypes(calls)
  {
    hide Interpret, Stream, Plain;
    var n, es := |r.events|, EventsOf(r.lastId, calls);
    if PlainTypes(calls) {
      PlainStreamArrives(r, calls);
    } else {
      var k :| 0 <= k < |calls| && calls[k].event.Some? && !Plain(calls[k].event.value);
      KindOf(r.lastId, calls, k);
      assert (r.events + es)[n + k] == es[k];
      assert Plain(r.kind) by { EmptyIsPlain(); }
      KindsPlain(r, Stream(calls), n);
    }
  }

  lemma EmptyIsPlain()
    ensures Plain("")
  {
  }

  lemma {:induction false} KindOf(lastId: string, calls: seq<Call>, k: nat)
    requires k < |calls|
    ensures EventsOf(lastId, calls)[k].kind == if calls[k].event.Some? then calls[k].event.value else ""
    decreases |calls|
  {
    hide JoinedLines, Lines, Decimal;
    if k > 0 {
      var id := if calls[0].id != 0 then Decimal(calls[0].id) else lastId;
      KindOf(id, calls[1..], k - 1);
    }
  }

  lemma {:induction false} PlainStreamArrives(r: Reader, calls: seq<Call>)
    requires r.data == "" && r.kind == "" && PlainTypes(calls)
    ensures Interpret(r, Stream(calls)).events == r.events + EventsOf(r.lastId, calls)
    decreases |calls|
  {
    hide Interpret, Wire, Lines, JoinedLines, Plain, Decimal;
    if calls == [] {
      Silence(r);
      assert r.events + [] == r.events;
    } else {
      var c := calls[0];
      var next := After(r, c.message, c.event, c.id, c.reconnect);
      EventRead(r, c.message, c.event, c.id, c.reconnect, Stream(calls[1..]));
      assert forall k :: 0 <= k < |calls[1..]| ==> calls[1..][k] == calls[k + 1];
      PlainStreamArrives(next, calls[1..]);
      Regroup(r.events, [next.events[|r.events|]], EventsOf(next.lastId, calls[1..]));
    }
  }

  // ---------- what the data is ----------

  /** A message but for one "\n" at its end. */
  function Trimmed(m: string): string {
    if m != "" && m[|m| - 1] == '\n' then m[..|m| - 1] else m
  }

  lemma TrimmedTail(line: string, rest: string)
    ensures Trimmed(line + "\n" + rest) == if rest == "" then line else line + "\n" + Trimmed(rest)
  {
    var m := line + "\n" + rest;
    if rest == "" {
      assert m[..|m| - 1] == line;
    } else {
      assert m[|m| - 1] == rest[|rest| - 1];
      assert m[..|m| - 1] == line + "\n" + rest[..|rest| - 1];
    }
  }

  /** Without "\r", the data is the message but for one "\n" at its end. */
  lemma {:induction false} DataWithoutReturns(m: string)
    requires '\r' !in m
    ensures JoinedLines(Lines(m)) == Trimmed(m)
    decreases |m|
  {
    hide FirstBreak, Trimmed, JoinedLines, Plain;
    var i := FirstBreak(m);
    if i < |m| {
      var rest := m[i + 1..];
      assert m[i] == '\n' && BreakLength(m, i) == 1;
      JoinStep(m[..i], rest);
      TrimmedTail(m[..i], rest);
      assert m == m[..i] + "\n" + rest;
      if rest != "" {
        DataWithoutReturns(rest);
      } else {
        assert Lines(m) == [m[..i]];
      }
    } else {
      assert m[..i] == m;
      NoTrim(m);
      JoinStep(m, "");
    }
  }

  lemma NoTrim(m: string)
    requires Plain(m)
    ensures Trimmed(m) == m
  {
  }

  lemma JoinStep(line: string, rest: string)
    ensures rest != "" ==> JoinedLines([line] + Lines(rest)) == line + "\n" + JoinedLines(Lines(rest))
    ensures JoinedLines([line]) == line
  {
    hide Lines;
    assert ([line] + Lines(rest))[1..] == Lines(rest);
  }

  lemma {:induction false} JoinedHasNoReturn(lines: seq<string>)
    requires lines != [] && AllPlain(lines)
    ensures '\r' !in JoinedLines(lines)
    decreases |lines|
  {
    assert Plain(lines[0]);
    if |lines| > 1 {
      JoinedHasNoReturn(lines[1..]);
    }
  }

  /** The listener gets the very message exactly when it has no "\r" and does not end in "\n". */
  lemma DataIsMessage(m: string)
    ensures JoinedLines(Lines(m)) == m <==> '\r' !in m && (m == "" || m[|m| - 1] != '\n')
  {
    hide Lines, JoinedLines;
    JoinedHasNoReturn(Lines(m));
    if '\r' !in m {
      DataWithoutReturns(m);
    }
  }

  /** Fields without a message dispatch nothing: they wait for the next message. */
  lemma FieldsWait(r: Reader, event: Option<string>, id: nat, reconnect: nat)
    requires event.Some? ==> Plain(event.value)
    ensures Interpret(r, Text(FieldLines(event, id, reconnect))) == WithFields(r, event, id, reconnect)
  {
    hide Interpret, FieldLines, ProcessAll, WithFields;
    var fields := FieldLines(event, id, reconnect);
    FieldLinesPlain(event, id, reconnect);
    FieldsRead(r, event, id, reconnect);
    TextRead(r, fields, "");
    assert Text(fields) + "" == Text(fields);
    Silence(ProcessAll(r, fields));
  }

  // ---------- acknowledgement ----------

  /** AsyncEventSourceMessage, as far as acknowledgement sees it. */
  class Message {
    const len: nat
    var acked: nat

    constructor (len: nat)
      ensures this.len == len && acked == 0
    {
      this.len := len;
      acked := 0;
    }

    /** Takes what it still needs and hands the extra bytes on. */
    method Ack(n: nat) returns (extra: nat)
      requires acked <= len
      modifies this
      ensures acked <= len && acked - old(acked) + extra == n && (extra > 0 ==> acked == len)
    {
      if acked + n > len {
        extra := acked + n - len;
        acked := len;
        return;
      }
      acked := acked + n;
      return 0;
    }

    predicate Finished()
      reads this
    {
      acked == len
    }
  }

  ghost predicate Sane(ms: seq<Message>)
    reads ms
  {
    Distinct(ms) && forall i :: 0 <= i < |ms| ==> ms[i].acked <= ms[i].len
  }

  /** The bytes of queued messages that are not acknowledged yet. */
  ghost function Outstanding(ms: seq<Message>): nat
    requires Sane(ms)
    reads ms
  {
    if ms == [] then 0 else ms[0].len - ms[0].acked + Outstanding(ms[1..])
  }

  class Client {
    var queue: seq<Message>

    constructor ()
      ensures queue == []
    {
      queue := [];
    }

    /** One round of the loop of _onAck. */
    method AckFront(n: nat) returns (left: nat)
      requires Sane(queue) && queue != []
      modifies this, queue[0]
      ensures Sane(queue) && Outstanding(queue) + n == old(Outstanding(queue)) + left
      ensures (queue == old(queue) && left == 0) || (queue == old(queue)[1..] && old(queue)[0].Finished())
    {
      ghost var ms := queue;
      var front := queue[0];
      assert forall i :: 1 <= i < |ms| ==> ms[i] != front;
      label L:
      left := front.Ack(n);
      CreditFront@L(ms);
      if front.Finished() {
        queue := queue[1..];
      }
    }

    /** The loop of _onAck and the first loop of _runQueue. Acknowledged bytes are credited in
        order: finished messages leave from the front, only the new front may be half done, and
        what is outstanding falls by exactly what arrived, down to nothing. */
    method OnAck(n: nat)
      requires Sane(queue)
      modifies this, queue
      ensures |queue| <= |old(queue)| && queue == old(queue)[|old(queue)| - |queue|..] && Sane(queue)
      ensures forall k :: 0 <= k < |old(queue)| - |queue| ==> old(queue)[k].Finished()
      ensures forall k :: |old(queue)| - |queue| < k < |old(queue)| ==> old(queue)[k].acked == old(queue[k].acked)
      ensures queue != [] ==> !queue[0].Finished()
      ensures Outstanding(queue) == if n <= old(Outstanding(queue)) then old(Outstanding(queue)) - n else 0
    {
      hide Outstanding, Sane, Distinct;
      var left := n;
      ghost var ms := queue;
      AreDistinct(ms);
      ghost var k := 0;
      while left != 0 && queue != []
        invariant 0 <= k <= |ms| && queue == ms[k..] && Sane(queue)
        invariant forall i :: 0 <= i < k ==> ms[i].Finished()
        invariant forall i :: k < i < |ms| ==> ms[i].acked == old(queue[i].acked)
        invariant Outstanding(queue) + n == old(Outstanding(queue)) + left
        decreases |queue|, left
      {
        Apart(ms, k);
        left := AckFront(left);
        if |queue| < |ms| - k {
          k := k + 1;
        }
      }
      NothingLeft();
      k := DropFinished(ms, k);
    }

    /** The first loop of _runQueue; k messages of ms have left before. */
    method DropFinished(ghost ms: seq<Message>, ghost gone: nat) returns (ghost k: nat)
      requires gone <= |ms| && queue == ms[gone..] && Sane(queue)
      requires forall i :: 0 <= i < gone ==> ms[i].Finished()
      modifies this
      ensures gone <= k <= |ms| && queue == ms[k..] && Sane(queue)
      ensures forall i :: 0 <= i < k ==> ms[i].Finished()
      ensures queue != [] ==> !queue[0].Finished()
      ensures Outstanding(queue) == old(Outstanding(queue))
    {
      k := gone;
      while queue != [] && queue[0].Finished()
        invariant gone <= k <= |ms| && queue == ms[k..] && Sane(queue)
        invariant forall i :: 0 <= i < k ==> ms[i].Finished()
        invariant Outstanding(queue) == old(Outstanding(queue))
        modifies this
        decreases |queue|
      {
        queue := queue[1..];
        k := k + 1;
      }
    }

    static lemma Apart(ms: seq<Message>, k: nat)
      requires Distinct(ms) && k < |ms|
      ensures forall i :: 0 <= i < k ==> ms[i] != ms[k]
      ensures forall i :: k < i < |ms| ==> ms[k] != ms[i]
    {
    }

    static lemma AreDistinct(ms: seq<Message>)
      requires Sane(ms)
      ensures Distinct(ms)
    {
    }

    lemma NothingLeft()
      requires Sane(queue)
      ensures queue == [] ==> Outstanding(queue) == 0
    {
    }
  }

  /** Crediting the front leaves the messages behind it alone. */
  twostate lemma CreditFront(ms: seq<Message>)
    requires ms != [] && old(Sane(ms)) && ms[0].acked <= ms[0].len && old(ms[0].acked) <= ms[0].acked
    requires forall i :: 1 <= i < |ms| ==> unchanged(ms[i])
    ensures Sane(ms) && Sane(ms[1..])
    ensures Outstanding(ms) + ms[0].acked == old(Outstanding(ms)) + old(ms[0].acked)
    ensures Outstanding(ms) == ms[0].len - ms[0].acked + Outstanding(ms[1..])
  {
    Unchanged(ms[1..]);
  }

  twostate lemma {:induction false} Unchanged(ms: seq<Message>)
    requires old(Sane(ms)) && forall i :: 0 <= i < |ms| ==> unchanged(ms[i])
    ensures Sane(ms) && Outstanding(ms) == old(Outstanding(ms))
  {
    if ms != [] {
      Unchanged(ms[1..]);
    }
  }
}
