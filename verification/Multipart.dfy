/**
 The byte-at-a-time multipart/form-data parser of
 components/ESPAsyncWebServer/src/WebRequest.cpp (body format: section 5.1.1 of RFC 2046).
 A byte is modelled as a char. After a carriage return the parser holds bytes back until it
 knows whether they open a delimiter; when they do not, it replays them into the item.
 */
module Multipart {
  import opened Bytes

  // ---------- header lines, with the slicing rules of the Arduino String class ----------

  function IndexOf(s: string, c: char): (i: int)
    ensures -1 <= i < |s|
    ensures i >= 0 ==> s[i] == c && c !in s[..i]
    ensures i < 0 ==> c !in s
  {
    if s == "" then -1
    else if s[0] == c then 0
    else
      var i := IndexOf(s[1..], c);
      assert s == [s[0]] + s[1..];
      assert i >= 0 ==> s[..i + 1] == [s[0]] + s[1..][..i];
      if i < 0 then -1 else i + 1
  }

  /** `substring`: bounds in the wrong order are swapped; a negative right bound, passed as
      unsigned, lies beyond the end of every string. */
  function Substring(s: string, left: nat, right: int): (r: string)
    ensures |r| <= |s| && (left > 0 && right < 0 && s != "" ==> |r| < |s|)
    ensures left <= right <= |s| ==> r == s[left..right]
  {
    var last := if right < 0 then |s| else right;
    var lo, hi := Min(left, last), if left < last then last else left;
    if lo >= |s| then "" else s[lo..Min(hi, |s|)]
  }

  function Lower(c: char): char {
    if 'A' <= c <= 'Z' then (c as int + 32) as char else c
  }

  predicate EqualsIgnoreCase(a: string, b: string) {
    |a| == |b| && forall i :: 0 <= i < |a| ==> Lower(a[i]) == Lower(b[i])
  }

  /** The same text, or letters of the other case in places. */
  predicate SameButCase(a: string, b: string) {
    |a| == |b| && forall i :: 0 <= i < |a| ==> a[i] == b[i] || CasesOf(a[i], b[i]) || CasesOf(b[i], a[i])
  }

  predicate CasesOf(large: char, small: char) {
    'A' <= large <= 'Z' && 'a' <= small <= 'z' && large as int - 'A' as int == small as int - 'a' as int
  }

  lemma IgnoresCase(a: string, b: string)
    ensures EqualsIgnoreCase(a, b) <==> SameButCase(a, b)
  {
    forall c: char, d: char ensures Lower(c) == Lower(d) <==> c == d || CasesOf(c, d) || CasesOf(d, c) {
    }
  }

  /** What the headers of the current item have said so far. */
  datatype Head = Head(name: string, filename: string, contentType: string, isFile: bool)

  function Attribute(h: Head, name: string, val: string): Head {
    if name == "name" then h.(name := val)
    else if name == "filename" then h.(filename := val, isFile := true)
    else h
  }

  /** The attribute list of a Content-Disposition line, attribute by attribute. */
  function Disposition(h: Head, t: string): Head
    decreases |t|
  {
    var semi, eq := IndexOf(t, ';'), IndexOf(t, '=');
    var name := Substring(t, 0, eq);
    if semi > 0 then
      Disposition(Attribute(h, name, Substring(t, eq + 2, semi - 1)), Substring(t, semi + 2, -1))
    else
      Attribute(h, name, Substring(t, eq + 2, |t| - 1))
  }

  predicate IsDisposition(line: string) {
    |line| > 19 && EqualsIgnoreCase(line[..19], "Content-Disposition")
  }

  function HeaderLine(h: Head, line: string): Head {
    if |line| > 12 && EqualsIgnoreCase(line[..12], "Content-Type") then
      h.(contentType := Substring(line, 14, -1), isFile := true)
    else if IsDisposition(line) then
      Disposition(h, Substring(line, IndexOf(line, ';') + 2, -1))
    else
      h
  }

  /** The name of a header may be written in any case ... */
  lemma TypeWithoutCase(h: Head, name: string, rest: string)
    requires SameButCase(name, "Content-Type")
    ensures HeaderLine(h, name + rest) ==
            if rest == "" then h else h.(contentType := if |rest| > 2 then rest[2..] else "", isFile := true)
  {
    var t := "Content-Type";
    assert |name| == 12;
    SameText(t);
    IgnoresCase(name, t);
    IgnoresCase(t, t);
    hide SameButCase, Lower, Disposition, EqualsIgnoreCase;
    var x, y := name + rest, t + rest;
    assert x[..12] == name && y[..12] == t;
    SubstringBehind(name, rest, 2);
    SubstringBehind(t, rest, 2);
  }

  lemma SameText(s: string)
    ensures SameButCase(s, s)
  {
  }

  lemma {:induction false} IndexBehind(a: string, b: string, c: char)
    requires c !in a
    ensures IndexOf(a + b, c) == if c in b then |a| + IndexOf(b, c) else -1
  {
    if a == "" {
      assert a + b == b;
    } else {
      assert a[0] != c && (a + b)[0] == a[0] && (a + b)[1..] == a[1..] + b;
      IndexBehind(a[1..], b, c);
    }
  }

  lemma DispositionWithoutCase(h: Head, name: string, rest: string)
    requires SameButCase(name, "Content-Disposition")
    ensures HeaderLine(h, name + rest) == HeaderLine(h, "Content-Disposition" + rest)
  {
    var d := "Content-Disposition";
    NoNameInHeader(h, name, rest);
    SameText(d);
    NoNameInHeader(h, d, rest);
  }

  /** What the line says, whatever the case of the header's name: the attributes behind the first
      semicolon, or nothing without one. */
  lemma NoNameInHeader(h: Head, name: string, rest: string)
    requires SameButCase(name, "Content-Disposition")
    ensures HeaderLine(h, name + rest) ==
            if ';' in rest then Disposition(h, Substring(rest, IndexOf(rest, ';') + 2, -1)) else h
  {
    var line := name + rest;
    DispositionName(name, rest);
    hide EqualsIgnoreCase, SameButCase, Disposition, IndexOf;
    IndexBehind(name, rest, ';');
    if ';' in rest {
      SubstringBehind(name, rest, IndexOf(rest, ';') + 2);
    } else if rest != "" {
      assert Substring(line, 1, -1) == line[1..];
      NoAttribute(h, name, rest);
    }
  }

  lemma DispositionName(name: string, rest: string)
    requires SameButCase(name, "Content-Disposition")
    ensures |name| == 19 && ';' !in name && '=' !in name
    ensures !EqualsIgnoreCase((name + rest)[..12], "Content-Type")
    ensures EqualsIgnoreCase((name + rest)[..19], "Content-Disposition")
  {
    var line := name + rest;
    assert line[..19] == name && line[..12][8] == name[8];
    IgnoresCase(name, "Content-Disposition");
    assert name[8] == 'D' || name[8] == 'd';
    assert Lower(name[8]) != Lower("Content-Type"[8]);
  }

  lemma SubstringBehind(a: string, b: string, k: nat)
    ensures Substring(a + b, |a| + k, -1) == Substring(b, k, -1)
  {
    if k < |b| {
      assert (a + b)[|a| + k..] == b[k..];
    }
  }

  /** Without a semicolon the whole line but its first byte is taken for one attribute, whose name is
      too long to be one that counts. */
  lemma NoAttribute(h: Head, name: string, rest: string)
    requires |name| == 19 && ';' !in name && '=' !in name && ';' !in rest
    ensures Disposition(h, (name + rest)[1..]) == h
  {
    var t := (name + rest)[1..];
    assert t == name[1..] + rest;
    IndexBehind(name[1..], rest, ';');
    IndexBehind(name[1..], rest, '=');
    var eq := IndexOf(t, '=');
    assert |Substring(t, 0, eq)| >= 18;
  }

  lemma OtherLines(h: Head, line: string)
    requires |line| > 12 ==> !SameButCase(line[..12], "Content-Type")
    requires |line| > 19 ==> !SameButCase(line[..19], "Content-Disposition")
    ensures HeaderLine(h, line) == h
  {
    hide SameButCase, EqualsIgnoreCase;
    if |line| > 12 {
      IgnoresCase(line[..12], "Content-Type");
    }
    if |line| > 19 {
      IgnoresCase(line[..19], "Content-Disposition");
    }
  }

  // ---------- the parser as a machine over single bytes ----------

  /** `Body(k)` holds back the first k bytes of the delimiter. `Undefined` is where the source
      stores an item byte through a null buffer pointer. */
  datatype Phase = Opening(n: nat) | Headers | Body(held: nat) | Delim | DelimReturn
                 | Finished | Failed | Undefined

  datatype Param = Field(name: string, value: string)
                 | FileParam(name: string, filename: string, size: nat)

  /** A file item that its delimiter has closed, with its bytes; also an empty one is listed. */
  datatype FileItem = FileItem(head: Head, value: string)

  datatype Machine = Machine(phase: Phase, line: string, head: Head, value: string, params: seq<Param>,
                             files: seq<FileItem>)

  /** The delimiter of section 5.1.1: CRLF, two dashes, the boundary. */
  function Delimiter(b: string): (d: string)
    ensures |d| == 4 + |b|
  {
    "\r\n--" + b
  }

  predicate BoundaryOk(b: string) {
    1 <= |b| <= 255
  }

  /** The item that a complete delimiter closes; an empty file leaves none. */
  function Closed(m: Machine): seq<Param> {
    if !m.head.isFile then m.params + [Field(m.head.name, m.value)]
    else if m.value != "" then m.params + [FileParam(m.head.name, m.head.filename, |m.value|)]
    else m.params
  }

  function ClosedFiles(m: Machine): seq<FileItem> {
    if m.head.isFile then m.files + [FileItem(m.head, m.value)] else m.files
  }

  /** The delimiter is complete. */
  function Close(m: Machine): Machine {
    m.(phase := Delim, params := Closed(m), files := ClosedFiles(m))
  }

  /** A byte that continues no delimiter, after `held` was given back to the item. */
  function Ordinary(m: Machine, held: string, c: char): Machine {
    if c == '\r' then m.(phase := Body(1), value := m.value + held)
    else m.(phase := Body(0), value := m.value + held + [c])
  }

  predicate MachineOk(b: string, m: Machine) {
    BoundaryOk(b) && (m.phase.Body? ==> m.phase.held < 4 + |b|)
  }

  function Step(b: string, m: Machine, c: char): (r: Machine)
    requires MachineOk(b, m)
    ensures MachineOk(b, r)
  {
    match m.phase
    case Opening(n) => OpeningStep(b, m, n, c)
    case Headers =>
      if c == '\n' then
        if m.line != "" then m.(head := HeaderLine(m.head, m.line), line := "")
        else m.(phase := Body(0), value := "")
      else if c == '\r' then m
      else m.(line := m.line + [c])
    case Body(k) =>
      if c == Delimiter(b)[k] then
        if k + 1 == 4 + |b| then Close(m)
        else m.(phase := Body(k + 1))
      else Ordinary(m, Delimiter(b)[..k], c)
    case Delim =>
      if c == '\r' then m.(phase := DelimReturn)
      else if c == '-' then m.(phase := Finished)
      else if m.head.isFile then m.(phase := Undefined)
      else Ordinary(m, Delimiter(b), c)
    case DelimReturn =>
      if c == '\n' then m.(phase := Headers, head := m.head.(isFile := false))
      else if m.head.isFile then m.(phase := Undefined)
      else Ordinary(m, Delimiter(b) + "\r", c)
    case _ => m
  }

  function OpeningStep(b: string, m: Machine, n: nat, c: char): Machine {
    var bad := (n < 2 && c != '-')
            || (2 <= n < 2 + |b| && b[n - 2] != c)
            || (n == 2 + |b| && c != '\r')
            || (n == 3 + |b| && c != '\n');
    if bad then m.(phase := Failed)
    else if n == 3 + |b| then m.(phase := Headers, head := m.head.(isFile := false))
    else m.(phase := Opening(n + 1))
  }

  ghost function Run(b: string, m: Machine, s: string): Machine
    requires MachineOk(b, m)
    ensures MachineOk(b, Run(b, m, s))
    decreases |s|
  {
    if s == "" then m else Run(b, Step(b, m, s[0]), s[1..])
  }

  lemma {:induction false} RunConcat(b: string, m: Machine, s: string, t: string)
    requires MachineOk(b, m)
    ensures Run(b, m, s + t) == Run(b, Run(b, m, s), t)
    decreases |s|
  {
    if s == "" {
      assert s + t == t;
    } else {
      assert (s + t)[1..] == s[1..] + t;
      RunConcat(b, Step(b, m, s[0]), s[1..], t);
    }
  }

  lemma RunOne(b: string, m: Machine, c: char)
    requires MachineOk(b, m)
    ensures Run(b, m, [c]) == Step(b, m, c)
  {
    assert [c][1..] == "";
    assert Run(b, Step(b, m, c), "") == Step(b, m, c);
  }

  lemma RunNext(b: string, m: Machine, s: string, i: nat)
    requires MachineOk(b, m) && i < |s|
    ensures Run(b, m, s[..i + 1]) == Step(b, Run(b, m, s[..i]), s[i])
  {
    hide Run, Step;
    assert s[..i + 1] == s[..i] + [s[i]];
    RunConcat(b, m, s[..i], [s[i]]);
    RunOne(b, Run(b, m, s[..i]), s[i]);
  }

  lemma RunNothing(b: string, m: Machine)
    requires MachineOk(b, m)
    ensures Run(b, m, "") == m
  {
  }

  lemma DeadStates(b: string, m: Machine, c: char)
    requires MachineOk(b, m)
    ensures m.phase.Finished? || m.phase.Failed? || m.phase.Undefined? ==> Step(b, m, c) == m
    ensures m.phase.Opening? ==> Step(b, m, c) == OpeningStep(b, m, m.phase.n, c)
  {
  }

  // ---------- the item scan ----------

  ghost predicate Contains(s: string, d: string) {
    exists j :: Occurs(s, d, j)
  }

  ghost predicate Occurs(s: string, d: string, j: int) {
    0 <= j <= |s| - |d| && s[j..j + |d|] == d
  }

  lemma SuffixOccurs(v: string, s: string, q: string, d: string)
    requires q + d == v + s && |d| <= |s|
    ensures Contains(s, d)
  {
    var j := |s| - |d|;
    assert s[j..] == (v + s)[|v| + j..] == (q + d)[|q|..] == d;
    assert s[j..j + |d|] == s[j..];
    assert Occurs(s, d, j);
  }

  lemma ContainsMore(p: string, c: char, d: string)
    ensures Contains(p, d) ==> Contains(p + [c], d)
  {
    if Contains(p, d) {
      var j :| Occurs(p, d, j);
      assert (p + [c])[j..j + |d|] == p[j..j + |d|];
      assert Occurs(p + [c], d, j);
    }
  }

  /** A body without the delimiter is all kept: in the item or held back, in order. */
  lemma {:induction false} BodyKept(b: string, m: Machine, s: string)
    requires MachineOk(b, m) && m.phase == Body(0) && !Contains(s, Delimiter(b))
    ensures var r := Run(b, m, s);
            r.phase.Body? && r.phase.held <= |s| && r.phase.held < 4 + |b| &&
            r.value + Delimiter(b)[..r.phase.held] == m.value + s &&
            r == m.(phase := r.phase, value := r.value)
    decreases |s|
  {
    var d := Delimiter(b);
    if s == "" {
      assert m.value + d[..0] == m.value + s;
    } else {
      var n := |s| - 1;
      var p, c := s[..n], s[n];
      assert s == p + [c];
      ContainsMore(p, c, d);
      BodyKept(b, m, p);
      var q := Run(b, m, p);
      BodyStep(b, m, p, q, c);
      RunOne(b, q, c);
      RunConcat(b, m, p, [c]);
    }
  }

  lemma BodyStep(b: string, m: Machine, p: string, q: Machine, c: char)
    requires MachineOk(b, m) && MachineOk(b, q) && q == m.(phase := q.phase, value := q.value)
    requires q.phase.Body? && q.phase.held <= |p|
    requires q.value + Delimiter(b)[..q.phase.held] == m.value + p
    requires !Contains(p + [c], Delimiter(b))
    ensures var r := Step(b, q, c); var s := p + [c];
            r.phase.Body? && r.phase.held <= |s| && r.phase.held < 4 + |b| && MachineOk(b, r) &&
            r.value + Delimiter(b)[..r.phase.held] == m.value + s &&
            r == m.(phase := r.phase, value := r.value)
  {
    var d, k, s := Delimiter(b), q.phase.held, p + [c];
    assert d[0] == '\r';
    var r := Step(b, q, c);
    if c == d[k] {
      assert d[..k + 1] == d[..k] + [c];
      Regroup(q.value, d[..k], [c]);
      Regroup(m.value, p, [c]);
      if k + 1 == |d| {
        assert d[..k + 1] == d;
        SuffixOccurs(m.value, s, q.value, d);
        assert false;
      }
    } else if c == '\r' {
      assert d[..1] == [c];
      Regroup(m.value, p, [c]);
    } else {
      assert d[..0] == "";
      assert r.value + d[..0] == r.value;
      Regroup(m.value, p, [c]);
    }
  }

  /** Once the carriage return of the delimiter has been seen, its other bytes follow it. */
  lemma {:induction false} DelimiterWalk(b: string, m: Machine, k: nat)
    requires MachineOk(b, m) && m.phase == Body(k)
    ensures var t := Delimiter(b)[k..];
            Run(b, m, t) == Close(m)
    decreases 4 + |b| - k
  {
    var d := Delimiter(b);
    var t := d[k..];
    var n := Step(b, m, t[0]);
    assert t[1..] == d[k + 1..];
    if k + 1 < |d| {
      DelimiterWalk(b, n, k + 1);
    } else {
      assert t[1..] == "";
    }
  }

  /** The main result on one item: whatever its bytes, if they do not contain the delimiter
      then the parser recovers exactly them when the delimiter arrives. */
  lemma ItemScan(b: string, m: Machine, body: string)
    requires MachineOk(b, m) && m.phase == Body(0)
    requires '\r' !in b && !Contains(body, Delimiter(b))
    ensures Run(b, m, body + Delimiter(b)) == Close(m.(value := m.value + body))
  {
    var d := Delimiter(b);
    BodyKept(b, m, body);
    var q := Run(b, m, body);
    var k := q.phase.held;
    assert k > 0 ==> d[k] != '\r' by {
      if k >= 4 {
        assert d[k] == b[k - 4];
      }
    }
    var r := Step(b, q, '\r');
    assert r == m.(phase := Body(1), value := m.value + body) by {
      if k == 0 {
        assert q.value + d[..0] == q.value;
      }
    }
    DelimiterWalk(b, r, 1);
    assert d == ['\r'] + d[1..];
    assert d[0] == '\r';
    assert Run(b, q, d) == Run(b, r, d[1..]);
    RunConcat(b, m, body, d);
  }

  // ---------- a whole form ----------

  const START := Machine(Opening(0), "", Head("", "", "", false), "", [], [])

  const DISPOSITION := "Content-Disposition: form-data; name=\""

  /** What a user agent sends as one part of a form. */
  datatype Part = Text(name: string, value: string)
                | File(name: string, filename: string, contentType: string, value: string)

  function HeadLine(p: Part): string {
    if p.Text? then DISPOSITION + p.name + "\""
    else DISPOSITION + p.name + "\"; filename=\"" + p.filename + "\""
  }

  function HeadText(p: Part): string {
    if p.Text? then HeadLine(p) + "\r\n"
    else (HeadLine(p) + "\r\n") + ("Content-Type: " + p.contentType + "\r\n")
  }

  function EncodePart(b: string, p: Part): string {
    HeadText(p) + ("\r\n" + (p.value + Delimiter(b)))
  }

  /** The parts one after the other; the last delimiter ends in two dashes. */
  function EncodeParts(b: string, ps: seq<Part>): string
    requires ps != []
  {
    if |ps| == 1 then EncodePart(b, ps[0]) + "--\r\n"
    else EncodePart(b, ps[0]) + ("\r\n" + EncodeParts(b, ps[1..]))
  }

  function EncodeForm(b: string, ps: seq<Part>): string
    requires ps != []
  {
    ("--" + b + "\r\n") + EncodeParts(b, ps)
  }

  /** The parameters of a form; a file without bytes gives none. */
  function ParamsOf(ps: seq<Part>): seq<Param> {
    if ps == [] then [] else ParamOf(ps[0]) + ParamsOf(ps[1..])
  }

  /** The files of a form, empty ones included. */
  function FilesOf(ps: seq<Part>): seq<FileItem> {
    if ps == [] then [] else FileOf(ps[0]) + FilesOf(ps[1..])
  }

  function FileOf(p: Part): seq<FileItem> {
    if p.File? then [FileItem(Head(p.name, p.filename, p.contentType, true), p.value)] else []
  }

  function ParamOf(p: Part): seq<Param> {
    if p.Text? then [Field(p.name, p.value)]
    else if p.value != "" then [FileParam(p.name, p.filename, |p.value|)]
    else []
  }

  /** Names that survive the header syntax, values that survive the body syntax. */
  ghost predicate PartOk(b: string, p: Part) {
    OneLine(p.name) && ';' !in p.name && !Contains(p.value, Delimiter(b)) &&
    (p.File? ==> OneLine(p.filename) && ';' !in p.filename && OneLine(p.contentType))
  }

  ghost predicate FormOk(b: string, ps: seq<Part>) {
    ps != [] && forall i :: 0 <= i < |ps| ==> PartOk(b, ps[i])
  }

  /** The opening line is accepted exactly when it is `--boundary`. */
  lemma {:induction false} OpeningWalk(b: string, m: Machine, s: string, n: nat)
    requires MachineOk(b, m) && m.phase == Opening(n) && n + |s| == 4 + |b| && n < 4 + |b|
    ensures Run(b, m, s) == if s == ("--" + b + "\r\n")[n..]
                            then m.(phase := Headers, head := m.head.(isFile := false))
                            else m.(phase := Failed)
    decreases |s|
  {
    var open := "--" + b + "\r\n";
    var q := Step(b, m, s[0]);
    assert s[0] == open[n] <==> q.phase != Failed;
    assert s == [s[0]] + s[1..] && open[n..] == [open[n]] + open[n + 1..];
    if q.phase == Failed {
      FailedStays(b, q, s[1..]);
    } else if n + 1 < 4 + |b| {
      OpeningWalk(b, q, s[1..], n + 1);
    } else {
      assert s[1..] == "" && open[n + 1..] == "";
    }
  }

  lemma {:induction false} FailedStays(b: string, m: Machine, s: string)
    requires MachineOk(b, m) && (m.phase == Failed || m.phase == Finished)
    ensures Run(b, m, s) == m
    decreases |s|
  {
    if s != "" {
      FailedStays(b, m, s[1..]);
    }
  }

  ghost predicate OneLine(s: string) {
    forall i :: 0 <= i < |s| ==> s[i] != '\r' && s[i] != '\n'
  }

  lemma {:induction false} LineCollected(b: string, m: Machine, s: string)
    requires MachineOk(b, m) && m.phase == Headers
    requires OneLine(s)
    ensures Run(b, m, s) == m.(line := m.line + s)
    decreases |s|
  {
    if s == "" {
      assert m.line + s == m.line;
    } else {
      assert s == [s[0]] + s[1..];
      assert forall i :: 0 <= i < |s[1..]| ==> s[1..][i] == s[i + 1];
      LineCollected(b, m.(line := m.line + [s[0]]), s[1..]);
      Regroup(m.line, [s[0]], s[1..]);
    }
  }

  lemma NameAttribute(h: Head, name: string)
    requires ';' !in name
    ensures Disposition(h, "name=\"" + name + "\"") == h.(name := name)
  {
    hide IndexOf;
    var t := "name=\"" + name + "\"";
    assert ';' !in t;
    FirstAt(t, '=', 4);
    assert t[..4] == "name" && t[6..|t| - 1] == name;
  }

  lemma FilenameAttribute(h: Head, filename: string)
    requires ';' !in filename
    ensures Disposition(h, "filename=\"" + filename + "\"") == h.(filename := filename, isFile := true)
  {
    hide IndexOf;
    var t := "filename=\"" + filename + "\"";
    assert ';' !in t;
    FirstAt(t, '=', 8);
    assert t[..8] == "filename" && t[10..|t| - 1] == filename;
  }

  lemma BothAttributes(h: Head, name: string, filename: string)
    requires ';' !in name && ';' !in filename
    ensures Disposition(h, "name=\"" + name + "\"; filename=\"" + filename + "\"")
            == h.(name := name, filename := filename, isFile := true)
  {
    hide Disposition;
    var rest := "filename=\"" + filename + "\"";
    assert "name=\"" + name + "\"; filename=\"" + filename + "\"" == "name=\"" + name + "\"; " + rest;
    FirstOfTwo(h, name, rest);
    FilenameAttribute(h.(name := name), filename);
  }

  lemma FirstOfTwo(h: Head, name: string, rest: string)
    requires ';' !in name
    ensures Disposition(h, "name=\"" + name + "\"; " + rest) == Disposition(h.(name := name), rest)
  {
    hide IndexOf, Substring;
    var t := "name=\"" + name + "\"; " + rest;
    var n := |name|;
    FirstAt(t, '=', 4);
    FirstAt(t, ';', 7 + n);
    Slices(t, name, rest);
    assert Disposition(h, t) ==
           Disposition(Attribute(h, Substring(t, 0, 4), Substring(t, 6, 6 + n)), Substring(t, 9 + n, -1));
  }

  lemma Slices(t: string, name: string, rest: string)
    requires t == "name=\"" + name + "\"; " + rest
    ensures Substring(t, 0, 4) == "name" && Substring(t, 6, 6 + |name|) == name && Substring(t, 9 + |name|, -1) == rest
  {
    assert t[0..4] == "name" && t[6..6 + |name|] == name && t[9 + |name|..] == rest;
  }

  lemma FirstAt(s: string, c: char, i: nat)
    requires i < |s| && s[i] == c && forall k :: 0 <= k < i ==> s[k] != c
    ensures IndexOf(s, c) == i
  {
    var k := IndexOf(s, c);
    assert k >= 0 ==> forall j :: 0 <= j < k ==> s[..k][j] == s[j] && s[j] != c;
  }

  function HeadOf(h: Head, p: Part): Head {
    if p.Text? then h.(name := p.name)
    else h.(name := p.name, filename := p.filename, contentType := p.contentType, isFile := true)
  }

  /** A Content-Disposition line is read as its attribute list. */
  lemma DispositionRead(h: Head, rest: string)
    ensures var line := "Content-Disposition: form-data; " + rest;
            HeaderLine(h, line) == Disposition(h, rest)
  {
    hide Disposition, IndexOf;
    var line := "Content-Disposition: form-data; " + rest;
    assert line[..19] == "Content-Disposition";
    assert line[..12][8] == 'D' && "Content-Type"[8] == 'T';
    FirstAt(line, ';', 30);
    assert Substring(line, 32, -1) == rest;
  }

  lemma ContentTypeRead(h: Head, contentType: string)
    ensures HeaderLine(h, "Content-Type: " + contentType) == h.(contentType := contentType, isFile := true)
  {
    hide Disposition, IsDisposition;
    var line := "Content-Type: " + contentType;
    assert line[..12] == "Content-Type";
    assert Substring(line, 14, -1) == contentType;
  }

  lemma HeadLineRead(h: Head, p: Part)
    requires ';' !in p.name && (p.File? ==> ';' !in p.filename)
    ensures HeaderLine(h, HeadLine(p)) ==
            if p.Text? then h.(name := p.name) else h.(name := p.name, filename := p.filename, isFile := true)
  {
    hide HeaderLine, Disposition;
    var rest := if p.Text? then "name=\"" + p.name + "\""
                else "name=\"" + p.name + "\"; filename=\"" + p.filename + "\"";
    assert HeadLine(p) == "Content-Disposition: form-data; " + rest;
    DispositionRead(h, rest);
    if p.Text? {
      NameAttribute(h, p.name);
    } else {
      BothAttributes(h, p.name, p.filename);
    }
  }

  /** A header line with its end. */
  lemma LineRead(b: string, m: Machine, line: string)
    requires MachineOk(b, m) && m.phase == Headers && m.line == "" && OneLine(line) && line != ""
    ensures Run(b, m, line + "\r\n") == m.(head := HeaderLine(m.head, line))
  {
    hide HeaderLine, Run;
    LineCollected(b, m, line);
    assert "" + line == line;
    RunConcat(b, m, line, "\r\n");
    RunEnd(b, m.(line := line));
  }

  lemma RunEnd(b: string, m: Machine)
    requires MachineOk(b, m)
    ensures Run(b, m, "\r\n") == Step(b, Step(b, m, '\r'), '\n')
  {
    hide Step;
    assert "\r\n"[1..] == "\n";
    RunOne(b, Step(b, m, '\r'), '\n');
  }

  lemma HeadRead(b: string, m: Machine, p: Part)
    requires MachineOk(b, m) && m.phase == Headers && m.line == "" && PartOk(b, p)
    ensures Run(b, m, HeadText(p)) == m.(head := HeadOf(m.head, p))
  {
    hide HeaderLine, Run, HeadLine, Contains;
    HeadIsOneLine(p);
    HeadLineRead(m.head, p);
    LineRead(b, m, HeadLine(p));
    if p.File? {
      var q := m.(head := HeaderLine(m.head, HeadLine(p)));
      ContentTypeRead(q.head, p.contentType);
      LineRead(b, q, "Content-Type: " + p.contentType);
      RunConcat(b, m, HeadLine(p) + "\r\n", "Content-Type: " + p.contentType + "\r\n");
    }
  }

  lemma HeadIsOneLine(p: Part)
    requires OneLine(p.name) && (p.File? ==> OneLine(p.filename) && OneLine(p.contentType))
    ensures OneLine(HeadLine(p)) && HeadLine(p) != ""
    ensures p.File? ==> OneLine("Content-Type: " + p.contentType)
  {
    assert OneLine(DISPOSITION) && OneLine("\"; filename=\"") && OneLine("Content-Type: ") && OneLine("\"");
    hide OneLine;
    var start, mid, q := DISPOSITION, "\"; filename=\"", "\"";
    OneLineJoined(start, p.name);
    if p.Text? {
      OneLineJoined(start + p.name, q);
    } else {
      OneLineJoined(start + p.name, mid);
      OneLineJoined(start + p.name + mid, p.filename);
      OneLineJoined(start + p.name + mid + p.filename, q);
      OneLineJoined("Content-Type: ", p.contentType);
    }
  }

  lemma OneLineJoined(a: string, b: string)
    requires OneLine(a) && OneLine(b)
    ensures OneLine(a + b) && (b != "" ==> a + b != "")
  {
  }

  /** One part, from its header lines up to and including the delimiter that closes it. */
  lemma PartRead(b: string, m: Machine, p: Part)
    requires MachineOk(b, m) && m.phase == Headers && m.line == "" && !m.head.isFile
    requires '\r' !in b && PartOk(b, p)
    ensures Run(b, m, EncodePart(b, p)) ==
            Machine(Delim, "", HeadOf(m.head, p), p.value, m.params + ParamOf(p), m.files + FileOf(p))
  {
    hide Run, HeadText, Contains, Delimiter;
    HeadRead(b, m, p);
    var m1 := m.(head := HeadOf(m.head, p));
    var m2 := m1.(phase := Body(0), value := "");
    RunEnd(b, m1);
    assert Run(b, m1, "\r\n") == m2;
    ItemScan(b, m2, p.value);
    var t := p.value + Delimiter(b);
    RunConcat(b, m1, "\r\n", t);
    RunConcat(b, m, HeadText(p), "\r\n" + t);
    assert m.params + [] == m.params && m.files + [] == m.files && "" + p.value == p.value;
  }

  /** The parts of a form are all recovered, in order, and nothing else is. */
  lemma {:induction false} PartsRead(b: string, m: Machine, ps: seq<Part>)
    requires MachineOk(b, m) && m.phase == Headers && m.line == "" && !m.head.isFile
    requires '\r' !in b && FormOk(b, ps)
    ensures var r := Run(b, m, EncodeParts(b, ps));
            r.phase == Finished && r.params == m.params + ParamsOf(ps) && r.files == m.files + FilesOf(ps)
    decreases |ps|
  {
    hide Run, PartOk, EncodePart, ParamOf, FileOf;
    var p := ps[0];
    var d := Machine(Delim, "", HeadOf(m.head, p), p.value, m.params + ParamOf(p), m.files + FileOf(p));
    PartRead(b, m, p);
    Regroup(m.params, ParamOf(p), ParamsOf(ps[1..]));
    Regroup(m.files, FileOf(p), FilesOf(ps[1..]));
    if |ps| == 1 {
      assert ParamsOf(ps[1..]) == [] && ParamOf(p) + [] == ParamOf(p);
      assert FilesOf(ps[1..]) == [] && FileOf(p) + [] == FileOf(p);
      RunConcat(b, m, EncodePart(b, p), "--\r\n");
      DashRead(b, d);
    } else {
      var rest := EncodeParts(b, ps[1..]);
      var n := d.(phase := Headers, head := d.head.(isFile := false));
      RunConcat(b, m, EncodePart(b, p), "\r\n" + rest);
      RunConcat(b, d, "\r\n", rest);
      RunEnd(b, d);
      PartsRead(b, n, ps[1..]);
    }
  }

  lemma DashRead(b: string, d: Machine)
    requires MachineOk(b, d) && d.phase == Delim
    ensures Run(b, d, "--\r\n") == d.(phase := Finished)
  {
    assert "--\r\n"[1..] == "-\r\n";
    FailedStays(b, d.(phase := Finished), "-\r\n");
  }

  /** End to end: parsing the encoded form gives back its fields and files. */
  lemma FormRoundTrip(b: string, ps: seq<Part>)
    requires BoundaryOk(b) && '\r' !in b && FormOk(b, ps)
    ensures var r := Run(b, START, EncodeForm(b, ps));
            r.phase == Finished && r.params == ParamsOf(ps) && r.files == FilesOf(ps)
  {
    hide Run, PartOk;
    var open := "--" + b + "\r\n";
    OpeningWalk(b, START, open, 0);
    assert open[0..] == open;
    RunConcat(b, START, open, EncodeParts(b, ps));
    PartsRead(b, Run(b, START, open), ps);
    assert START.params + ParamsOf(ps) == ParamsOf(ps) && START.files + FilesOf(ps) == FilesOf(ps);
  }

  // ---------- names that do not survive the header syntax ----------

  /** What the slicing of a header can yield: a semicolon only in this one way. */
  predicate Readable(v: string) {
    ';' !in v || v == "=;"
  }

  lemma SlicedValue(t: string, semi: int, eq: int)
    requires semi == IndexOf(t, ';') > eq == IndexOf(t, '=') >= 0
    ensures Readable(Substring(t, eq + 2, semi - 1))
  {
    hide IndexOf;
    if semi == eq + 1 {
      assert t[eq..eq + 2] == "=;";
    } else {
      assert forall k :: 0 <= k < semi ==> t[..semi][k] == t[k];
    }
  }

  lemma KeyIsWord(t: string, key: string)
    requires Substring(t, 0, IndexOf(t, '=')) == key && ';' !in key && key != "" && IndexOf(t, ';') >= 0
    ensures 0 <= IndexOf(t, '=') < IndexOf(t, ';')
  {
    hide IndexOf, Substring;
    var semi, eq := IndexOf(t, ';'), IndexOf(t, '=');
    WholeOrHead(t, eq);
  }

  lemma WholeOrHead(t: string, eq: int)
    requires -1 <= eq < |t|
    ensures eq == -1 ==> Substring(t, 0, eq) == t
    ensures forall k :: 0 <= k < eq ==> t[k] in Substring(t, 0, eq)
  {
    if eq >= 0 {
      assert Substring(t, 0, eq) == t[0..eq];
      assert forall k :: 0 <= k < eq ==> t[0..eq][k] == t[k];
    } else {
      assert t[0..|t|] == t;
    }
  }

  lemma SubstringKeeps(t: string, left: nat, right: int)
    requires ';' !in t
    ensures ';' !in Substring(t, left, right)
  {
  }

  lemma {:induction false} AttributeValues(h: Head, t: string)
    ensures var r := Disposition(h, t);
            (r.name == h.name || Readable(r.name)) && (r.filename == h.filename || Readable(r.filename))
    decreases |t|
  {
    hide IndexOf, Substring;
    var semi, eq := IndexOf(t, ';'), IndexOf(t, '=');
    var key := Substring(t, 0, eq);
    if semi > 0 {
      if key == "name" || key == "filename" {
        KeyIsWord(t, key);
        SlicedValue(t, semi, eq);
      }
      var rest := Substring(t, semi + 2, -1);
      AttributeValues(Attribute(h, key, Substring(t, eq + 2, semi - 1)), rest);
    } else if semi == 0 {
      if key == "name" || key == "filename" {
        KeyIsWord(t, key);
      }
    } else {
      SubstringKeeps(t, eq + 2, |t| - 1);
    }
  }

  /** Nothing to read in an empty rest, or in one that begins with a semicolon. */
  lemma NothingRead(h: Head, t: string)
    requires t == "" || t[0] == ';'
    ensures Disposition(h, t) == h
  {
    hide IndexOf, Substring;
    var eq := IndexOf(t, '=');
    var key := Substring(t, 0, eq);
    if t == "" {
      assert |key| == 0;
    } else {
      FirstAt(t, ';', 0);
      if key == "name" || key == "filename" {
        KeyIsWord(t, key);
      }
    }
  }

  lemma Semicolon(v: string) returns (k: nat)
    requires ';' in v
    ensures k < |v| && v[k] == ';' && forall j :: 0 <= j < k ==> v[j] != ';'
  {
    k := IndexOf(v, ';');
    assert forall j :: 0 <= j < k ==> v[..k][j] == v[j];
  }

  /** The first attribute of a list whose quoted value holds a semicolon. */
  lemma BrokenValue(h: Head, key: string, v: string, more: string, t: string)
    requires (key == "name" || key == "filename") && t == key + "=\"" + v + "\"" + more
    requires ';' in v && (more == "" || more[0] == ';')
    ensures var r := Disposition(h, t); if key == "name" then r.name != v else r.filename != v
  {
    hide IndexOf, Substring, Disposition;
    var k := Semicolon(v);
    Places(key, v, more, t);
    var first, rest := BrokenStep(h, key, v, t, k);
    var h1 := Attribute(h, key, first);
    AttributeValues(h1, rest);
    var r := Disposition(h1, rest);
    assert first != v;
    NotReadable(r.name, v);
    NotReadable(r.filename, v);
    hide Readable;
    if v == "=;" {
      RestSlice(t, key, more);
      NothingRead(h1, rest);
    }
  }

  lemma NotReadable(x: string, v: string)
    ensures Readable(x) && ';' in v && v != "=;" ==> x != v
  {
  }

  lemma BrokenStep(h: Head, key: string, v: string, t: string, k: nat) returns (first: string, rest: string)
    requires key <= t && |t| >= |key| + |v| + 3 && t[|key|] == '=' && t[|key| + 1] != ';'
    requires forall j :: 0 <= j < |v| ==> t[|key| + 2 + j] == v[j]
    requires forall j :: 0 <= j < |key| ==> t[j] != '=' && t[j] != ';'
    requires k < |v| && v[k] == ';' && forall j :: 0 <= j < k ==> v[j] != ';'
    ensures ';' !in first && rest == Substring(t, |key| + 4 + k, -1)
    ensures Disposition(h, t) == Disposition(Attribute(h, key, first), rest)
  {
    hide IndexOf, Substring, Disposition, Attribute;
    var n := |key|;
    assert forall j :: n + 2 <= j < n + 2 + k ==> t[j] == v[j - n - 2];
    FirstAt(t, '=', n);
    FirstAt(t, ';', n + 2 + k);
    KeySlice(t, key);
    DispositionStep(h, t);
    FirstSlice(t, n, k);
    first, rest := Substring(t, n + 2, n + 1 + k), Substring(t, n + 4 + k, -1);
  }

  lemma Places(key: string, v: string, more: string, t: string)
    requires t == key + "=\"" + v + "\"" + more && (key == "name" || key == "filename")
    ensures |t| == |key| + |v| + |more| + 3 && key <= t && t[|key|] == '='
    ensures forall j :: 0 <= j < |v| ==> t[|key| + 2 + j] == v[j]
    ensures forall j :: 0 <= j < |key| ==> t[j] != '=' && t[j] != ';'
    ensures t[|key| + 1] != ';'
  {
    assert forall j :: 0 <= j < |key| ==> t[j] == key[j];
  }

  lemma KeySlice(t: string, key: string)
    requires key <= t
    ensures Substring(t, 0, |key|) == key
  {
  }

  lemma DispositionStep(h: Head, t: string)
    ensures var semi, eq := IndexOf(t, ';'), IndexOf(t, '=');
            semi > 0 ==>
              Disposition(h, t) == Disposition(Attribute(h, Substring(t, 0, eq), Substring(t, eq + 2, semi - 1)),
                                               Substring(t, semi + 2, -1))
  {
  }

  lemma FirstSlice(t: string, n: nat, k: nat)
    requires n + 2 + k < |t| && forall j :: 0 <= j < n + 2 + k ==> t[j] != ';'
    ensures ';' !in Substring(t, n + 2, n + 1 + k)
  {
  }

  lemma RestSlice(t: string, key: string, more: string)
    requires t == key + "=\"=;\"" + more
    ensures Substring(t, |key| + 5, -1) == more
  {
    assert t[|key| + 5..] == more;
  }

  /** A text part is read back as it was sent if and only if its name has no semicolon. */
  lemma TextReadExactly(b: string, m: Machine, p: Part)
    requires MachineOk(b, m) && m.phase == Headers && m.line == "" && !m.head.isFile
    requires '\r' !in b && p.Text? && OneLine(p.name) && !Contains(p.value, Delimiter(b))
    ensures Run(b, m, EncodePart(b, p)).params == m.params + ParamOf(p) <==> ';' !in p.name
  {
    hide Run, Contains, Delimiter, HeadLine, HeaderLine, Disposition;
    if ';' in p.name {
      var rest := "name=\"" + p.name + "\"";
      TextLine(p);
      DispositionRead(m.head, rest);
      assert "name" + "=\"" + p.name + "\"" + "" == rest;
      BrokenValue(m.head, "name", p.name, "", rest);
      HeadIsOneLine(p);
      LineRead(b, m, HeadLine(p));
      ItemRead(b, m, p, m.(head := HeaderLine(m.head, HeadLine(p))));
      var r := Run(b, m, EncodePart(b, p));
      assert |r.params| == |m.params| + 1 ==> r.params[|m.params|] != Field(p.name, p.value);
    } else {
      PartRead(b, m, p);
    }
  }

  lemma TextLine(p: Part)
    requires p.Text?
    ensures HeadLine(p) == "Content-Disposition: form-data; " + ("name=\"" + p.name + "\"")
  {
    var d, n, q := "Content-Disposition: form-data; ", "name=\"", "\"";
    assert DISPOSITION == d + n;
    Regroup(d, n, p.name);
    Regroup(d, n + p.name, q);
  }

  /** From the blank line on, whatever the header lines have said. */
  lemma ItemRead(b: string, m: Machine, p: Part, q: Machine)
    requires MachineOk(b, m) && MachineOk(b, q) && q.phase == Headers && q.line == ""
    requires '\r' !in b && !Contains(p.value, Delimiter(b)) && Run(b, m, HeadText(p)) == q
    ensures Run(b, m, EncodePart(b, p)) == Close(q.(phase := Body(0), value := p.value))
  {
    hide Run, Contains, Delimiter, HeadText;
    var body := q.(phase := Body(0), value := "");
    RunEnd(b, q);
    ItemScan(b, body, p.value);
    var t := p.value + Delimiter(b);
    RunConcat(b, q, "\r\n", t);
    RunConcat(b, m, HeadText(p), "\r\n" + t);
    assert "" + p.value == p.value;
  }

  /** A file part is read back as it was sent if and only if neither name has a semicolon. */
  lemma FileReadExactly(b: string, m: Machine, p: Part)
    requires MachineOk(b, m) && m.phase == Headers && m.line == "" && !m.head.isFile
    requires '\r' !in b && p.File? && OneLine(p.name) && OneLine(p.filename) && OneLine(p.contentType)
    requires !Contains(p.value, Delimiter(b))
    ensures Run(b, m, EncodePart(b, p)).files == m.files + FileOf(p) <==> ';' !in p.name && ';' !in p.filename
  {
    hide Run, Contains, Delimiter, HeadLine, HeaderLine, Disposition;
    if ';' in p.name || ';' in p.filename {
      FileLine(p);
      var rest := "name=\"" + p.name + "\"; filename=\"" + p.filename + "\"";
      DispositionRead(m.head, rest);
      BrokenNames(m.head, p.name, p.filename);
      HeadIsOneLine(p);
      var q := m.(head := HeaderLine(m.head, HeadLine(p)));
      LineRead(b, m, HeadLine(p));
      ContentTypeRead(q.head, p.contentType);
      LineRead(b, q, "Content-Type: " + p.contentType);
      RunConcat(b, m, HeadLine(p) + "\r\n", "Content-Type: " + p.contentType + "\r\n");
      ItemRead(b, m, p, q.(head := q.head.(contentType := p.contentType, isFile := true)));
      var r := Run(b, m, EncodePart(b, p));
      assert r.files[|m.files|].head.name != p.name || r.files[|m.files|].head.filename != p.filename;
    } else {
      PartRead(b, m, p);
    }
  }

  lemma FileLine(p: Part)
    requires p.File?
    ensures HeadLine(p) == "Content-Disposition: form-data; " +
                           ("name=\"" + p.name + "\"; filename=\"" + p.filename + "\"")
  {
    var d, n, mid, q := "Content-Disposition: form-data; ", "name=\"", "\"; filename=\"", "\"";
    assert DISPOSITION == d + n;
    RegroupFive(d, n, p.name, mid, p.filename, q);
  }

  lemma RegroupFive(d: string, n: string, a: string, mid: string, b: string, q: string)
    ensures d + n + a + mid + b + q == d + (n + a + mid + b + q)
  {
  }

  lemma BrokenNames(h: Head, name: string, filename: string)
    requires ';' in name || ';' in filename
    ensures var r := Disposition(h, "name=\"" + name + "\"; filename=\"" + filename + "\"");
            r.name != name || r.filename != filename
  {
    hide Disposition;
    var second := "filename=\"" + filename + "\"";
    if ';' in name {
      var more := "; " + second;
      var t := "name=\"" + name + "\"; filename=\"" + filename + "\"";
      assert "name" + "=\"" + name + "\"" + more == t;
      BrokenValue(h, "name", name, more, t);
    } else {
      FirstOfTwo(h, name, second);
      assert "name=\"" + name + "\"; " + second == "name=\"" + name + "\"; filename=\"" + filename + "\"";
      assert "filename" + "=\"" + filename + "\"" + "" == second;
      BrokenValue(h.(name := name), "filename", filename, "", second);
    }
  }

  // ---------- bytes that stray behind a delimiter ----------

  /** Behind a delimiter come a dash, which ends the form, or CR LF; anything else is astray. */
  predicate Strays(t: string) {
    t != "" && t[0] != '-' && (t[0] != '\r' || (|t| >= 2 && t[1] != '\n'))
  }

  function FirstTwo(t: string): string {
    t[..Min(|t|, 2)]
  }

  lemma {:induction false} UndefinedStays(b: string, m: Machine, s: string)
    requires MachineOk(b, m) && m.phase == Undefined
    ensures Run(b, m, s) == m
    decreases |s|
  {
    if s != "" {
      UndefinedStays(b, m, s[1..]);
    }
  }

  lemma RunTwo(b: string, m: Machine, t: string)
    requires MachineOk(b, m)
    ensures Run(b, m, FirstTwo(t)) == if t == "" then m
                                      else if |t| == 1 then Step(b, m, t[0])
                                      else Step(b, Step(b, m, t[0]), t[1])
  {
    hide Step;
    var u := FirstTwo(t);
    if |t| == 1 {
      assert u == [t[0]];
      RunOne(b, m, t[0]);
    } else if |t| >= 2 {
      assert u == [t[0], t[1]] && u[1..] == [t[1]];
      RunOne(b, Step(b, m, t[0]), t[1]);
    }
  }

  /** The two bytes behind a delimiter decide. A stray byte behind a file is stored through the
      buffer pointer that has just been cleared; behind a text it opens the item again. */
  lemma BehindDelimiter(b: string, m: Machine, t: string)
    requires MachineOk(b, m) && m.phase == Delim
    ensures var r := Run(b, m, FirstTwo(t));
            (r.phase == Undefined <==> m.head.isFile && Strays(t)) &&
            (!m.head.isFile && Strays(t) ==>
              r.phase.Body? && r.params == m.params && m.value + Delimiter(b) <= r.value)
    ensures m.head.isFile && Strays(t) ==> Run(b, m, t).phase == Undefined
  {
    RunTwo(b, m, t);
    hide Run;
    var r := Run(b, m, FirstTwo(t));
    assert FirstTwo(t) + t[Min(|t|, 2)..] == t;
    RunConcat(b, m, FirstTwo(t), t[Min(|t|, 2)..]);
    if r.phase == Undefined {
      UndefinedStays(b, r, t[Min(|t|, 2)..]);
    }
  }

  /** For every body without the delimiter, of a file or a text item. */
  lemma BehindItem(b: string, m: Machine, body: string, t: string)
    requires MachineOk(b, m) && m.phase == Body(0) && '\r' !in b && !Contains(body, Delimiter(b))
    ensures var r := Run(b, m, body + Delimiter(b) + FirstTwo(t));
            (r.phase == Undefined <==> m.head.isFile && Strays(t)) &&
            (!m.head.isFile && Strays(t) ==>
              r.phase.Body? && r.params == m.params + [Field(m.head.name, m.value + body)])
    ensures m.head.isFile && Strays(t) ==> Run(b, m, body + Delimiter(b) + t).phase == Undefined
  {
    hide Run, Contains, Delimiter, FirstTwo, Strays;
    ItemScan(b, m, body);
    RunConcat(b, m, body + Delimiter(b), FirstTwo(t));
    RunConcat(b, m, body + Delimiter(b), t);
    BehindDelimiter(b, Close(m.(value := m.value + body)), t);
  }

  /** Behind stray bytes a text item goes on as if its delimiter had been part of it. */
  lemma TextGoesOn(b: string, q: Machine, more: string)
    requires MachineOk(b, q) && q.phase == Delim && !q.head.isFile && Strays(more)
    ensures Run(b, q, more) == Run(b, q.(phase := Body(0), value := q.value + Delimiter(b)), more)
  {
    var d := Delimiter(b);
    var p := q.(phase := Body(0), value := q.value + d);
    var c := more[0];
    assert d[..0] == "" && d[..1] == "\r" && d[0] == '\r' && d[1] == '\n';
    hide Run, Delimiter;
    if c != '\r' {
      assert more == [c] + more[1..];
      RunConcat(b, q, [c], more[1..]);
      RunConcat(b, p, [c], more[1..]);
      RunOne(b, q, c);
      RunOne(b, p, c);
      assert (q.value + d) + "" + [c] == q.value + d + [c];
    } else {
      var e := more[1];
      assert more == [c] + ([e] + more[2..]);
      RunConcat(b, q, [c], [e] + more[2..]);
      RunConcat(b, p, [c], [e] + more[2..]);
      RunOne(b, q, c);
      RunOne(b, p, c);
      var q1, p1 := Step(b, q, c), Step(b, p, c);
      RunConcat(b, q1, [e], more[2..]);
      RunConcat(b, p1, [e], more[2..]);
      RunOne(b, q1, e);
      RunOne(b, p1, e);
      Regroup(q.value, d, "\r");
    }
  }

  /** So it is added again, with its delimiter and all that came behind. */
  lemma TextAddedAgain(b: string, m: Machine, body: string, more: string)
    requires MachineOk(b, m) && m.phase == Body(0) && !m.head.isFile && Strays(more)
    requires '\r' !in b && !Contains(body, Delimiter(b)) && !Contains(more, Delimiter(b))
    ensures var v := m.value + body;
            Run(b, m, body + Delimiter(b) + (more + Delimiter(b))).params ==
            m.params + [Field(m.head.name, v), Field(m.head.name, v + Delimiter(b) + more)]
  {
    hide Run, Contains, Strays;
    var d := Delimiter(b);
    var q := Close(m.(value := m.value + body));
    var p := q.(phase := Body(0), value := q.value + d);
    ItemScan(b, m, body);
    RunConcat(b, m, body + d, more + d);
    RunConcat(b, q, more, d);
    TextGoesOn(b, q, more);
    RunConcat(b, p, more, d);
    ItemScan(b, p, more);
  }

  /** Parts that are followed by others. */
  function EncodeLeading(b: string, ps: seq<Part>): string {
    if ps == [] then "" else EncodePart(b, ps[0]) + ("\r\n" + EncodeLeading(b, ps[1..]))
  }

  lemma {:induction false} LeadingRead(b: string, m: Machine, ps: seq<Part>)
    requires MachineOk(b, m) && m.phase == Headers && m.line == "" && !m.head.isFile && '\r' !in b
    requires forall i :: 0 <= i < |ps| ==> PartOk(b, ps[i])
    ensures var r := Run(b, m, EncodeLeading(b, ps));
            r.phase == Headers && r.line == "" && !r.head.isFile && MachineOk(b, r) &&
            r.params == m.params + ParamsOf(ps) && r.files == m.files + FilesOf(ps)
    decreases |ps|
  {
    hide Run, PartOk, EncodePart, ParamOf, FileOf;
    if ps == [] {
      RunNothing(b, m);
    } else {
      var p := ps[0];
      var d := Machine(Delim, "", HeadOf(m.head, p), p.value, m.params + ParamOf(p), m.files + FileOf(p));
      var n := d.(phase := Headers, head := d.head.(isFile := false));
      PartRead(b, m, p);
      Regroup(m.params, ParamOf(p), ParamsOf(ps[1..]));
      Regroup(m.files, FileOf(p), FilesOf(ps[1..]));
      RunConcat(b, m, EncodePart(b, p), "\r\n" + EncodeLeading(b, ps[1..]));
      RunConcat(b, d, "\r\n", EncodeLeading(b, ps[1..]));
      RunEnd(b, d);
      LeadingRead(b, n, ps[1..]);
    }
  }

  /** The opening line, any parts and one more, up to and with the delimiter that closes it. */
  function EncodeUpTo(b: string, ps: seq<Part>, p: Part): string {
    ("--" + b + "\r\n") + (EncodeLeading(b, ps) + EncodePart(b, p))
  }

  lemma UpToRead(b: string, ps: seq<Part>, p: Part)
    requires BoundaryOk(b) && '\r' !in b && PartOk(b, p) && forall i :: 0 <= i < |ps| ==> PartOk(b, ps[i])
    ensures var r := Run(b, START, EncodeUpTo(b, ps, p));
            r.phase == Delim && (r.head.isFile <==> p.File?) && r.params == ParamsOf(ps) + ParamOf(p)
  {
    hide Run, PartOk, EncodePart, EncodeLeading, ParamOf, FileOf;
    var open := "--" + b + "\r\n";
    OpeningWalk(b, START, open, 0);
    assert open[0..] == open;
    RunConcat(b, START, open, EncodeLeading(b, ps) + EncodePart(b, p));
    var m := Run(b, START, open);
    LeadingRead(b, m, ps);
    RunConcat(b, m, EncodeLeading(b, ps), EncodePart(b, p));
    PartRead(b, Run(b, m, EncodeLeading(b, ps)), p);
    assert START.params + ParamsOf(ps) == ParamsOf(ps);
  }

  /** Main result on stray bytes, from the first byte of a body: behind any well-formed parts the
      parser writes through the cleared pointer if and only if the last part is a file and the bytes
      behind its delimiter stray. Behind a text there is one parameter for it, and it goes on. */
  lemma StrayBytes(b: string, ps: seq<Part>, p: Part, t: string)
    requires BoundaryOk(b) && '\r' !in b && PartOk(b, p) && forall i :: 0 <= i < |ps| ==> PartOk(b, ps[i])
    ensures var r := Run(b, START, EncodeUpTo(b, ps, p) + FirstTwo(t));
            (r.phase == Undefined <==> p.File? && Strays(t)) &&
            (p.Text? && Strays(t) ==> r.phase.Body? && r.params == ParamsOf(ps) + ParamOf(p))
    ensures p.File? && Strays(t) ==> Run(b, START, EncodeUpTo(b, ps, p) + t).phase == Undefined
  {
    hide Run, PartOk, EncodeUpTo, Delimiter, FirstTwo, Strays, ParamOf, ParamsOf;
    UpToRead(b, ps, p);
    RunConcat(b, START, EncodeUpTo(b, ps, p), FirstTwo(t));
    RunConcat(b, START, EncodeUpTo(b, ps, p), t);
    BehindDelimiter(b, Run(b, START, EncodeUpTo(b, ps, p)), t);
  }

  /** The byte c is stored through the cleared pointer. */
  predicate StoresThroughNull(m: Machine, c: char) {
    m.head.isFile && ((m.phase == Delim && c != '\r' && c != '-') || (m.phase == DelimReturn && c != '\n'))
  }

  /** In no stream of bytes at all is there another way to get there. */
  lemma {:induction false} OnlyBehindFiles(b: string, m: Machine, s: string)
    requires MachineOk(b, m) && m.phase != Undefined
    ensures Run(b, m, s).phase == Undefined <==>
            exists k :: 0 <= k < |s| && StoresThroughNull(Run(b, m, s[..k]), s[k])
    decreases |s|
  {
    hide Run, Step, StoresThroughNull;
    if s == "" {
      RunNothing(b, m);
    } else {
      var n := |s| - 1;
      var p, q := s[..n], Run(b, m, s[..n]);
      OnlyBehindFiles(b, m, p);
      RunNext(b, m, s, n);
      assert s[..n + 1] == s;
      forall k | 0 <= k < n ensures p[..k] == s[..k] && p[k] == s[k] {
      }
      if q.phase == Undefined {
        UndefinedStays(b, q, [s[n]]);
        RunOne(b, q, s[n]);
        var k :| 0 <= k < n && StoresThroughNull(Run(b, m, p[..k]), p[k]);
        assert StoresThroughNull(Run(b, m, s[..k]), s[k]);
      } else {
        UndefinedStep(b, q, s[n]);
        forall k | 0 <= k < n ensures !StoresThroughNull(Run(b, m, s[..k]), s[k]) {
          assert !StoresThroughNull(Run(b, m, p[..k]), p[k]);
        }
      }
    }
  }

  lemma UndefinedStep(b: string, m: Machine, c: char)
    requires MachineOk(b, m) && m.phase != Undefined
    ensures Step(b, m, c).phase == Undefined <==> StoresThroughNull(m, c)
  {
  }

  /** A body that gets there: a file of one byte, and a letter behind its delimiter. */
  lemma UndefinedReached()
    ensures Run("b", START, EncodeUpTo("b", [], File("f", "g", "t", "v")) + "x").phase == Undefined
  {
    hide Run, EncodeUpTo;
    var p := File("f", "g", "t", "v");
    TooShort("v", Delimiter("b"));
    StrayBytes("b", [], p, "x");
  }

  lemma TooShort(s: string, d: string)
    requires |s| < |d|
    ensures !Contains(s, d)
  {
  }

  // ---------- the upload calls of a file item ----------

  /** One call of the handler: the offset of the chunk in the file, its bytes, the last one. */
  datatype Upload = Upload(index: nat, data: string, final: bool)

  ghost function JoinedData(u: seq<Upload>): string {
    if u == [] then "" else JoinedData(u[..|u| - 1]) + u[|u| - 1].data
  }

  ghost predicate Contiguous(u: seq<Upload>) {
    forall i :: 0 <= i < |u| ==> u[i].index == |JoinedData(u[..i])|
  }

  /** Only the last chunk of a closed item is marked final, and only it may be empty. */
  ghost predicate OnlyLastFinal(u: seq<Upload>, closed: bool) {
    forall i :: 0 <= i < |u| ==>
      (u[i].final <==> closed && i == |u| - 1) && (u[i].final || u[i].data != "")
  }

  lemma UploadOneMore(u: seq<Upload>, x: Upload)
    requires Contiguous(u) && OnlyLastFinal(u, false) && x.index == |JoinedData(u)|
    requires x.final || x.data != ""
    ensures JoinedData(u + [x]) == JoinedData(u) + x.data
    ensures Contiguous(u + [x]) && OnlyLastFinal(u + [x], x.final)
  {
    var v := u + [x];
    assert v[..|v| - 1] == u;
    forall i | 0 <= i < |v| ensures v[i].index == |JoinedData(v[..i])| {
      if i < |u| {
        assert v[..i] == u[..i];
      }
    }
  }

  lemma ChunksHaveBytes(u: seq<Upload>)
    ensures u != [] && OnlyLastFinal(u, false) ==> JoinedData(u) != ""
  {
  }

  /** What the handler has seen of a closed file. */
  datatype Received = Received(head: Head, chunks: seq<Upload>)

  /** Its chunks follow each other, and only the last, if there is one, is marked final. */
  ghost predicate Complete(f: Received) {
    Contiguous(f.chunks) && OnlyLastFinal(f.chunks, true) && (f.chunks == [] <==> JoinedData(f.chunks) == "")
  }

  ghost predicate AllComplete(fs: seq<Received>) {
    forall i :: 0 <= i < |fs| ==> Complete(fs[i])
  }

  ghost function AsFiles(fs: seq<Received>): seq<FileItem> {
    seq(|fs|, i requires 0 <= i < |fs| => FileItem(fs[i].head, JoinedData(fs[i].chunks)))
  }

  lemma OneMoreFile(fs: seq<Received>, f: Received)
    requires AllComplete(fs) && Complete(f)
    ensures AllComplete(fs + [f]) && AsFiles(fs + [f]) == AsFiles(fs) + [FileItem(f.head, JoinedData(f.chunks))]
  {
  }

  lemma NoChunks(u: seq<Upload>)
    ensures u == [] ==> JoinedData(u) == "" && Contiguous(u) && OnlyLastFinal(u, true)
  {
  }

  // ---------- the parser object ----------

  datatype State = EXPECT_BOUNDARY | PARSE_HEADERS | WAIT_FOR_RETURN1 | EXPECT_FEED1 | EXPECT_DASH1
                 | EXPECT_DASH2 | BOUNDARY_OR_DATA | DASH3_OR_RETURN2 | EXPECT_FEED2
                 | PARSING_FINISHED | PARSE_ERROR | UNDEFINED

  const CHUNK: nat := 1460

  class Parser {
    const boundary: string
    var state: State
    var boundaryPosition: nat
    var parsedLength: nat
    var contentLength: int
    var temp: string
    var itemName: string
    var itemFilename: string
    var itemType: string
    var itemIsFile: bool
    var itemValue: string
    var itemSize: nat
    var itemBuffer: array?<char>
    var itemBufferIndex: nat
    var uploads: seq<Upload>
    var params: seq<Param>
    ghost var written: string
    ghost var received: seq<Received>

    ghost predicate Scanning()
      reads this
    {
      state.WAIT_FOR_RETURN1? || state.EXPECT_FEED1? || state.EXPECT_DASH1? || state.EXPECT_DASH2?
      || state.BOUNDARY_OR_DATA?
    }

    ghost predicate Delimited()
      reads this
    {
      state.DASH3_OR_RETURN2? || state.EXPECT_FEED2?
    }

    /** The open item: the bytes written to it are in itemValue, or in the chunks already handed
        to the handler followed by the buffer. */
    ghost predicate ItemOpen()
      reads this, itemBuffer
    {
      |written| == itemSize &&
      if itemIsFile then
        itemBuffer != null && itemBuffer.Length == CHUNK && itemBufferIndex < CHUNK &&
        JoinedData(uploads) + itemBuffer[..itemBufferIndex] == written &&
        Contiguous(uploads) && OnlyLastFinal(uploads, false)
      else itemValue == written
    }

    /** The file just closed: its chunks are the file, in order, and only the last is final. */
    ghost predicate FileClosed()
      reads this
    {
      itemBuffer == null && JoinedData(uploads) == written && Contiguous(uploads) &&
      (uploads == [] <==> written == "") && OnlyLastFinal(uploads, true)
    }

    ghost predicate Valid()
      reads this, itemBuffer
    {
      BoundaryOk(boundary) && AllComplete(received) &&
      (state.BOUNDARY_OR_DATA? ==> boundaryPosition < |boundary|) &&
      (Scanning() ==> ItemOpen()) &&
      (Delimited() ==> if itemIsFile then FileClosed() else ItemOpen())
    }

    /** The machine state this object stands for; n is the number of bytes parsed. */
    ghost function AbsAt(n: nat): Machine
      reads this
    {
      var phase := match state
        case EXPECT_BOUNDARY => Opening(n)
        case PARSE_HEADERS => Headers
        case WAIT_FOR_RETURN1 => Body(0)
        case EXPECT_FEED1 => Body(1)
        case EXPECT_DASH1 => Body(2)
        case EXPECT_DASH2 => Body(3)
        case BOUNDARY_OR_DATA => Body(4 + boundaryPosition)
        case DASH3_OR_RETURN2 => Delim
        case EXPECT_FEED2 => DelimReturn
        case PARSING_FINISHED => Finished
        case PARSE_ERROR => Failed
        case UNDEFINED => Undefined;
      Machine(phase, temp, Head(itemName, itemFilename, itemType, itemIsFile), written, params,
              AsFiles(received))
    }

    /** The state in which a byte is parsed: the first byte of a body finds a fresh one. */
    ghost function Begun(): Machine
      reads this
    {
      if parsedLength > 0 then AbsAt(parsedLength)
      else AbsAt(0).(phase := Opening(0), line := "", head := Head("", "", "", itemIsFile))
    }

    constructor (boundary: string, contentLength: nat)
      requires BoundaryOk(boundary)
      ensures this.boundary == boundary && Valid()
      ensures parsedLength == 0 && AbsAt(0) == START && itemBuffer == null
      ensures this.contentLength == contentLength
    {
      this.boundary := boundary;
      this.contentLength := contentLength;
      state := EXPECT_BOUNDARY;
      boundaryPosition, parsedLength := 0, 0;
      temp, itemName, itemFilename, itemType, itemValue := "", "", "", "", "";
      itemIsFile, itemSize, itemBuffer, itemBufferIndex := false, 0, null, 0;
      uploads, params, written, received := [], [], "", [];
    }

    method HandleUploadByte(data: char, last: bool)
      requires itemIsFile && itemBuffer != null && itemBuffer.Length == CHUNK && itemBufferIndex < CHUNK
      requires JoinedData(uploads) + itemBuffer[..itemBufferIndex] + [data] == written
      requires Contiguous(uploads) && OnlyLastFinal(uploads, false) && |written| == itemSize
      modifies this`itemBufferIndex, this`uploads, itemBuffer
      ensures ItemOpen() && (last ==> itemBufferIndex == 0)
    {
      hide JoinedData, Contiguous, OnlyLastFinal, AllComplete, AsFiles;
      ghost var held := itemBuffer[..itemBufferIndex];
      Regroup(JoinedData(uploads), held, [data]);
      itemBuffer[itemBufferIndex] := data;
      itemBufferIndex := itemBufferIndex + 1;
      assert itemBuffer[..itemBufferIndex] == held + [data];
      if last || itemBufferIndex == CHUNK {
        var chunk := Upload(itemSize - itemBufferIndex, itemBuffer[..itemBufferIndex], false);
        UploadOneMore(uploads, chunk);
        uploads := uploads + [chunk];
        itemBufferIndex := 0;
        assert itemBuffer[..0] == "";
      }
    }

    /** The macro itemWriteByte. */
    method ItemWriteByte(b: char, last: bool)
      requires ItemOpen()
      modifies this`itemSize, this`itemValue, this`itemBufferIndex, this`uploads, this`written, itemBuffer
      ensures ItemOpen() && written == old(written) + [b]
      ensures last && itemIsFile ==> itemBufferIndex == 0
    {
      itemSize := itemSize + 1;
      written := written + [b];
      if itemIsFile {
        HandleUploadByte(b, last);
      } else {
        itemValue := itemValue + [b];
      }
    }

    /** A row of itemWriteByte calls: literal held bytes, or a loop over boundary bytes. */
    method WriteBack(s: string, last: bool)
      requires ItemOpen()
      modifies this`itemSize, this`itemValue, this`itemBufferIndex, this`uploads, this`written, itemBuffer
      ensures ItemOpen() && written == old(written) + s
    {
      var i := 0;
      while i < |s|
        invariant i <= |s| && ItemOpen()
        invariant written == old(written) + s[..i]
      {
        ItemWriteByte(s[i], last);
        assert s[..i + 1] == s[..i] + [s[i]];
        i := i + 1;
      }
      assert s[..|s|] == s;
    }

    /** Two such rows. */
    method WriteBackBoth(s: string, t: string, last: bool)
      requires ItemOpen()
      modifies this`itemSize, this`itemValue, this`itemBufferIndex, this`uploads, this`written, itemBuffer
      ensures ItemOpen() && written == old(written) + (s + t)
    {
      WriteBack(s, last);
      WriteBack(t, last);
      Regroup(old(written), s, t);
    }

    method ParseOpening(data: char)
      requires Valid() && state.EXPECT_BOUNDARY?
      modifies this`state, this`itemIsFile
      ensures Valid() && !state.WAIT_FOR_RETURN1?
      ensures AbsAt(parsedLength + 1)
              == OpeningStep(boundary, old(AbsAt(parsedLength)), parsedLength, data)
    {
      if parsedLength < 2 && data != '-' {
        state := PARSE_ERROR;
      } else if 2 <= parsedLength && parsedLength - 2 < |boundary| && boundary[parsedLength - 2] != data {
        state := PARSE_ERROR;
      } else if parsedLength - 2 == |boundary| && data != '\r' {
        state := PARSE_ERROR;
      } else if parsedLength - 3 == |boundary| {
        if data != '\n' {
          state := PARSE_ERROR;
        } else {
          state := PARSE_HEADERS;
          itemIsFile := false;
        }
      }
    }

    method SetAttribute(name: string, val: string)
      modifies this`itemName, this`itemFilename, this`itemIsFile
      ensures Head(itemName, itemFilename, itemType, itemIsFile)
              == Attribute(old(Head(itemName, itemFilename, itemType, itemIsFile)), name, val)
    {
      if name == "name" {
        itemName := val;
      } else if name == "filename" {
        itemFilename := val;
        itemIsFile := true;
      }
    }

    /** The branch of PARSE_HEADERS for a complete, non-empty line. */
    method ParseHeaderLine()
      modifies this`temp, this`itemName, this`itemFilename, this`itemType, this`itemIsFile
      ensures Head(itemName, itemFilename, itemType, itemIsFile)
              == HeaderLine(old(Head(itemName, itemFilename, itemType, itemIsFile)), old(temp))
      ensures temp == ""
    {
      hide IndexOf, Substring, EqualsIgnoreCase, Attribute;
      if |temp| > 12 && EqualsIgnoreCase(temp[..12], "Content-Type") {
        itemType := Substring(temp, 14, -1);
        itemIsFile := true;
      } else if IsDisposition(temp) {
        temp := Substring(temp, IndexOf(temp, ';') + 2, -1);
        ghost var goal := Disposition(Head(itemName, itemFilename, itemType, itemIsFile), temp);
        while IndexOf(temp, ';') > 0
          invariant Disposition(Head(itemName, itemFilename, itemType, itemIsFile), temp) == goal
          decreases |temp|
        {
          var name := Substring(temp, 0, IndexOf(temp, '='));
          SetAttribute(name, Substring(temp, IndexOf(temp, '=') + 2, IndexOf(temp, ';') - 1));
          temp := Substring(temp, IndexOf(temp, ';') + 2, -1);
        }
        var name := Substring(temp, 0, IndexOf(temp, '='));
        SetAttribute(name, Substring(temp, IndexOf(temp, '=') + 2, |temp| - 1));
      }
      temp := "";
    }

    /** The end of the headers: the value starts. */
    method StartItem()
      requires BoundaryOk(boundary) && AllComplete(received)
      modifies this`state, this`itemSize, this`itemValue, this`itemBuffer, this`itemBufferIndex,
               this`uploads, this`written
      ensures Valid() && state == WAIT_FOR_RETURN1 && written == ""
      ensures itemBuffer == old(itemBuffer) || fresh(itemBuffer)
    {
      state := WAIT_FOR_RETURN1;
      itemSize := 0;
      itemValue := "";
      uploads, written := [], "";
      if itemIsFile {
        itemBuffer := new char[CHUNK];
        itemBufferIndex := 0;
        assert itemBuffer[..0] == "";
      }
    }

    /** The last byte of a delimiter: the item becomes a parameter. */
    method CloseItem()
      requires BoundaryOk(boundary) && ItemOpen() && AllComplete(received)
      modifies this`state, this`params, this`uploads, this`itemBuffer, this`itemBufferIndex, this`received
      ensures Valid() && state == DASH3_OR_RETURN2
      ensures params == Closed(old(AbsAt(0))) && AsFiles(received) == ClosedFiles(old(AbsAt(0)))
      ensures itemBuffer == old(itemBuffer) || itemBuffer == null
    {
      hide JoinedData, Contiguous;
      state := DASH3_OR_RETURN2;
      if !itemIsFile {
        params := params + [Field(itemName, itemValue)];
      } else {
        if itemSize != 0 {
          var chunk := Upload(itemSize - itemBufferIndex, itemBuffer[..itemBufferIndex], true);
          UploadOneMore(uploads, chunk);
          uploads := uploads + [chunk];
          itemBufferIndex := 0;
          params := params + [FileParam(itemName, itemFilename, itemSize)];
        } else {
          ChunksHaveBytes(uploads);
          NoChunks(uploads);
        }
        ghost var f := Received(Head(itemName, itemFilename, itemType, true), uploads);
        assert JoinedData(uploads) == written && Complete(f);
        OneMoreFile(received, f);
        received := received + [f];
        itemBuffer := null;
      }
    }

    /** One byte; `last` says that it ends the TCP segment, which flushes the upload buffer. */
    method ParseByte(data: char, last: bool)
      requires Valid()
      modifies this, itemBuffer
      ensures Valid() && parsedLength == old(parsedLength)
      ensures last && state.WAIT_FOR_RETURN1? && itemIsFile ==> itemBufferIndex == 0
      ensures AbsAt(parsedLength + 1) == Step(boundary, old(Begun()), data)
      ensures contentLength == if parsedLength > 0 && old(state).DASH3_OR_RETURN2? && data == '-' then parsedLength + 4
                               else old(contentLength)
      ensures itemBuffer == old(itemBuffer) || itemBuffer == null || fresh(itemBuffer)
      decreases parsedLength > 0 && !state.WAIT_FOR_RETURN1?, 4
    {
      hide Step, BoundaryOk, ItemOpen, FileClosed, AllComplete, AsFiles;
      if parsedLength == 0 {
        state := EXPECT_BOUNDARY;
        temp, itemName, itemFilename, itemType := "", "", "", "";
      }
      ParseState(data, last);
    }

    /** The branches over the states. */
    method ParseState(data: char, last: bool)
      requires Valid() && (state.EXPECT_BOUNDARY? || parsedLength > 0)
      modifies this, itemBuffer
      ensures Valid() && parsedLength == old(parsedLength)
      ensures last && state.WAIT_FOR_RETURN1? && itemIsFile ==> itemBufferIndex == 0
      ensures AbsAt(parsedLength + 1) == Step(boundary, old(AbsAt(parsedLength)), data)
      ensures contentLength == if old(state).DASH3_OR_RETURN2? && data == '-' then parsedLength + 4
                               else old(contentLength)
      ensures itemBuffer == old(itemBuffer) || itemBuffer == null || fresh(itemBuffer)
      decreases parsedLength > 0 && !state.WAIT_FOR_RETURN1?, 3
    {
      hide Step, OpeningStep, BoundaryOk, ItemOpen, FileClosed, AllComplete, AsFiles;
      DeadStates(boundary, AbsAt(parsedLength), data);
      if state.WAIT_FOR_RETURN1? {
        ParseItemByte(data, last);
      } else if state.EXPECT_BOUNDARY? {
        ParseOpening(data);
      } else if state.PARSE_HEADERS? {
        ParseHeaderByte(data);
      } else if !(state.PARSING_FINISHED? || state.PARSE_ERROR? || state.UNDEFINED?) {
        ParseDelimiter(data, last);
      }
    }

    /** The states inside a possible delimiter and behind a complete one. */
    method ParseDelimiter(data: char, last: bool)
      requires Valid() && parsedLength > 0 && (Scanning() || Delimited()) && !state.WAIT_FOR_RETURN1?
      modifies this, itemBuffer
      ensures Valid() && parsedLength == old(parsedLength)
      ensures last && state.WAIT_FOR_RETURN1? && itemIsFile ==> itemBufferIndex == 0
      ensures AbsAt(parsedLength + 1) == Step(boundary, old(AbsAt(parsedLength)), data)
      ensures contentLength == if old(state).DASH3_OR_RETURN2? && data == '-' then parsedLength + 4
                               else old(contentLength)
      ensures itemBuffer == old(itemBuffer) || itemBuffer == null || fresh(itemBuffer)
      decreases !state.WAIT_FOR_RETURN1?, 2
    {
      hide Step, BoundaryOk, ItemOpen, FileClosed, AllComplete, AsFiles;
      if state.DASH3_OR_RETURN2? {
        ParseAfterDelimiter(data, last);
      } else if state.EXPECT_FEED2? {
        ParseAfterReturn(data, last);
      } else {
        ParseHeld(data, last);
      }
    }

    method ParseItemByte(data: char, last: bool)
      requires Valid() && state.WAIT_FOR_RETURN1?
      modifies this`state, this`itemSize, this`itemValue, this`itemBufferIndex, this`uploads,
               this`written, itemBuffer
      ensures Valid()
      ensures last && state.WAIT_FOR_RETURN1? && itemIsFile ==> itemBufferIndex == 0
      ensures AbsAt(parsedLength + 1) == Step(boundary, old(AbsAt(parsedLength)), data)
    {
      hide JoinedData, Contiguous, OnlyLastFinal, AllComplete, AsFiles;
      assert written + Delimiter(boundary)[..0] == written;
      if data != '\r' {
        ItemWriteByte(data, last);
      } else {
        state := EXPECT_FEED1;
      }
    }

    method ParseHeaderByte(data: char)
      requires Valid() && state.PARSE_HEADERS?
      modifies this`state, this`temp, this`itemName, this`itemFilename, this`itemType, this`itemIsFile,
               this`itemSize, this`itemValue, this`itemBuffer, this`itemBufferIndex, this`uploads, this`written
      ensures Valid()
      ensures state.WAIT_FOR_RETURN1? && itemIsFile ==> itemBufferIndex == 0
      ensures AbsAt(parsedLength + 1) == Step(boundary, old(AbsAt(parsedLength)), data)
      ensures itemBuffer == old(itemBuffer) || fresh(itemBuffer)
    {
      hide HeaderLine, JoinedData, Contiguous, OnlyLastFinal, AllComplete, AsFiles;
      if data != '\r' && data != '\n' {
        temp := temp + [data];
      }
      if data == '\n' {
        if temp != "" {
          ParseHeaderLine();
        } else {
          StartItem();
        }
      }
    }

    /** The byte that the delimiter would have next, in a state that holds some of it back. */
    function Expected(): char
      requires BoundaryOk(boundary) && (state.BOUNDARY_OR_DATA? ==> boundaryPosition < |boundary|)
      reads this
    {
      match state
      case EXPECT_FEED1 => '\n'
      case EXPECT_DASH1 => '-'
      case EXPECT_DASH2 => '-'
      case BOUNDARY_OR_DATA => boundary[boundaryPosition]
      case _ => '\r'
    }

    /** The mismatch branches: what was held back is written to the item after all. */
    method GiveBack(last: bool)
      requires Valid() && Scanning()
      modifies this`state, this`itemSize, this`itemValue, this`itemBufferIndex, this`uploads,
               this`written, itemBuffer
      ensures Valid() && state.WAIT_FOR_RETURN1?
      ensures written == old(written) + Delimiter(boundary)[..old(AbsAt(0)).phase.held]
    {
      hide JoinedData, Contiguous, OnlyLastFinal, AllComplete, AsFiles;
      ghost var w, d := written, Delimiter(boundary);
      if state.EXPECT_FEED1? {
        WriteBack("\r", last);
        assert d[..1] == "\r";
      } else if state.EXPECT_DASH1? {
        WriteBack("\r\n", last);
        assert d[..2] == "\r\n";
      } else if state.EXPECT_DASH2? {
        WriteBack("\r\n-", last);
        assert d[..3] == "\r\n-";
      } else if state.BOUNDARY_OR_DATA? {
        WriteBack("\r\n--", last);
        WriteBack(boundary[..boundaryPosition], last);
        assert d[..4 + boundaryPosition] == "\r\n--" + boundary[..boundaryPosition];
        Regroup(w, "\r\n--", boundary[..boundaryPosition]);
      } else {
        assert w + d[..0] == w;
      }
      state := WAIT_FOR_RETURN1;
    }

    /** The matching branches: one more byte of a possible delimiter. */
    method HoldBack()
      requires Valid() && Scanning()
      modifies this`state, this`boundaryPosition, this`params, this`uploads, this`itemBuffer,
               this`itemBufferIndex, this`received
      ensures Valid()
      ensures AbsAt(0) == var m := old(AbsAt(0));
                          if m.phase.held + 1 == 4 + |boundary| then Close(m)
                          else m.(phase := Body(m.phase.held + 1))
      ensures itemBuffer == old(itemBuffer) || itemBuffer == null
    {
      hide Closed, ClosedFiles, JoinedData, Contiguous, OnlyLastFinal, AllComplete, AsFiles;
      if state.WAIT_FOR_RETURN1? {
        state := EXPECT_FEED1;
      } else if state.EXPECT_FEED1? {
        state := EXPECT_DASH1;
      } else if state.EXPECT_DASH1? {
        state := EXPECT_DASH2;
      } else if state.EXPECT_DASH2? {
        state := BOUNDARY_OR_DATA;
        boundaryPosition := 0;
      } else if boundaryPosition == |boundary| - 1 {
        CloseItem();
      } else {
        boundaryPosition := boundaryPosition + 1;
      }
    }

    /** The states that hold back the beginning of a possible delimiter. */
    method ParseHeld(data: char, last: bool)
      requires Valid() && parsedLength > 0 && Scanning() && !state.WAIT_FOR_RETURN1?
      modifies this, itemBuffer
      ensures Valid() && parsedLength == old(parsedLength)
      ensures last && state.WAIT_FOR_RETURN1? && itemIsFile ==> itemBufferIndex == 0
      ensures AbsAt(parsedLength + 1) == Step(boundary, old(AbsAt(parsedLength)), data)
      ensures contentLength == old(contentLength)
      ensures itemBuffer == old(itemBuffer) || itemBuffer == null || fresh(itemBuffer)
      decreases !state.WAIT_FOR_RETURN1?, 1
    {
      hide Closed, ClosedFiles, JoinedData, Contiguous, OnlyLastFinal, AllComplete, AsFiles, Ordinary;
      ghost var m := AbsAt(parsedLength);
      assert Expected() == Delimiter(boundary)[m.phase.held];
      if data != Expected() {
        GiveBack(last);
        Replay(Delimiter(boundary)[..m.phase.held], m, data, last);
      } else {
        HoldBack();
      }
    }

    method ParseAfterDelimiter(data: char, last: bool)
      requires Valid() && parsedLength > 0 && state.DASH3_OR_RETURN2?
      modifies this, itemBuffer
      ensures Valid() && parsedLength == old(parsedLength)
      ensures last && state.WAIT_FOR_RETURN1? && itemIsFile ==> itemBufferIndex == 0
      ensures AbsAt(parsedLength + 1) == Step(boundary, old(AbsAt(parsedLength)), data)
      ensures contentLength == if data == '-' then parsedLength + 4 else old(contentLength)
      ensures itemBuffer == old(itemBuffer) || itemBuffer == null || fresh(itemBuffer)
      decreases !state.WAIT_FOR_RETURN1?, 1
    {
      hide Closed, ClosedFiles, JoinedData, Contiguous, OnlyLastFinal, AllComplete, AsFiles, Ordinary;
      ghost var m := AbsAt(parsedLength);
      if data == '-' && contentLength - parsedLength - 4 != 0 {
        contentLength := parsedLength + 4;
      }
      if data == '\r' {
        state := EXPECT_FEED2;
      } else if data == '-' && contentLength == parsedLength + 4 {
        state := PARSING_FINISHED;
      } else if itemIsFile {
        state := UNDEFINED;
      } else {
        state := WAIT_FOR_RETURN1;
        WriteBack("\r\n--" + boundary, last);
        Replay(Delimiter(boundary), m, data, last);
      }
    }

    method ParseAfterReturn(data: char, last: bool)
      requires Valid() && parsedLength > 0 && state.EXPECT_FEED2?
      modifies this, itemBuffer
      ensures Valid() && parsedLength == old(parsedLength)
      ensures last && state.WAIT_FOR_RETURN1? && itemIsFile ==> itemBufferIndex == 0
      ensures AbsAt(parsedLength + 1) == Step(boundary, old(AbsAt(parsedLength)), data)
      ensures contentLength == old(contentLength)
      ensures itemBuffer == old(itemBuffer) || itemBuffer == null || fresh(itemBuffer)
      decreases !state.WAIT_FOR_RETURN1?, 1
    {
      hide Closed, ClosedFiles, JoinedData, Contiguous, OnlyLastFinal, AllComplete, AsFiles, Ordinary;
      ghost var m := AbsAt(parsedLength);
      if data == '\n' {
        state := PARSE_HEADERS;
        itemIsFile := false;
      } else if itemIsFile {
        state := UNDEFINED;
      } else {
        state := WAIT_FOR_RETURN1;
        WriteBackBoth("\r\n--" + boundary, "\r", last);
        Replay(Delimiter(boundary) + "\r", m, data, last);
      }
    }

    /** The held bytes are back in the item; the byte that did not fit is parsed again. */
    method Replay(ghost held: string, ghost m: Machine, data: char, last: bool)
      requires Valid() && state.WAIT_FOR_RETURN1? && parsedLength > 0
      requires AbsAt(parsedLength) == m.(phase := Body(0), value := m.value + held)
      modifies this, itemBuffer
      ensures Valid() && parsedLength == old(parsedLength) && contentLength == old(contentLength)
      ensures last && state.WAIT_FOR_RETURN1? && itemIsFile ==> itemBufferIndex == 0
      ensures AbsAt(parsedLength + 1) == Ordinary(m, held, data)
      ensures itemBuffer == old(itemBuffer) || itemBuffer == null || fresh(itemBuffer)
      decreases !state.WAIT_FOR_RETURN1?, 5
    {
      ParseByte(data, last);
    }

    /** The multipart branch of `_onData`: one TCP segment. */
    method OnData(buf: array<char>, len: nat)
      requires Valid() && len <= buf.Length && buf != itemBuffer
      requires state.EXPECT_BOUNDARY? || parsedLength > 0
      requires parsedLength == 0 ==> AbsAt(0) == START
      modifies this, itemBuffer
      ensures Valid() && parsedLength == old(parsedLength) + len
      // Where the segment ends in the bytes of a file, the handler has all of them.
      ensures len > 0 && state.WAIT_FOR_RETURN1? && itemIsFile ==> itemBufferIndex == 0
      ensures AbsAt(parsedLength) == Run(boundary, old(AbsAt(parsedLength)), buf[..len])
      // The handler has seen every file closed so far, chunk after chunk; the last of them may still
      // be in the upload record.
      ensures AllComplete(received) && AsFiles(received) == AbsAt(parsedLength).files
      ensures Delimited() && itemIsFile ==>
                JoinedData(uploads) == written && Contiguous(uploads) && OnlyLastFinal(uploads, true)
      ensures state.EXPECT_BOUNDARY? || parsedLength > 0
      ensures parsedLength == 0 ==> AbsAt(0) == START
      ensures itemBuffer == old(itemBuffer) || itemBuffer == null || fresh(itemBuffer)
    {
      hide Step, JoinedData, Contiguous, OnlyLastFinal, AllComplete, AsFiles;
      ghost var m := AbsAt(parsedLength);
      var i := 0;
      assert buf[..0] == "";
      while i < len
        invariant i <= len && Valid() && parsedLength == old(parsedLength) + i
        invariant state.EXPECT_BOUNDARY? || parsedLength > 0
        invariant parsedLength == 0 ==> AbsAt(0) == START
        invariant AbsAt(parsedLength) == Run(boundary, m, buf[..i])
        invariant i == len > 0 && state.WAIT_FOR_RETURN1? && itemIsFile ==> itemBufferIndex == 0
        invariant itemBuffer == old(itemBuffer) || itemBuffer == null || fresh(itemBuffer)
        invariant buf[..] == old(buf[..]) && itemBuffer != buf
      {
        RunNext(boundary, m, buf[..], i);
        assert buf[..][..i] == buf[..i] && buf[..][..i + 1] == buf[..i + 1];
        ParseByte(buf[i], i == len - 1);
        parsedLength := parsedLength + 1;
        i := i + 1;
      }
    }
  }

  /** Any segments, one `_onData` call each. */
  method ParseSegments(b: string, segments: seq<string>) returns (p: Parser)
    requires BoundaryOk(b)
    ensures fresh(p) && p.boundary == b && p.Valid()
    ensures p.AbsAt(p.parsedLength) == Run(b, START, Flatten(segments))
  {
    hide Run, JoinedData, Contiguous, OnlyLastFinal, AllComplete, AsFiles;
    p := new Parser(b, |Flatten(segments)|);
    RunNothing(b, START);
    var i := 0;
    assert segments[..0] == [] && Flatten(segments[..0]) == "";
    while i < |segments|
      invariant i <= |segments| && fresh(p) && p.boundary == b && p.Valid()
      invariant p.itemBuffer == null || fresh(p.itemBuffer)
      invariant p.state.EXPECT_BOUNDARY? || p.parsedLength > 0
      invariant p.parsedLength == 0 ==> p.AbsAt(0) == START
      invariant p.AbsAt(p.parsedLength) == Run(b, START, Flatten(segments[..i]))
    {
      var s := segments[i];
      var buf := new char[|s|](k requires 0 <= k < |s| => s[k]);
      assert buf[..|s|] == s;
      RunConcat(b, START, Flatten(segments[..i]), s);
      FlattenSnoc(segments[..i], s);
      assert segments[..i + 1] == segments[..i] + [s];
      p.OnData(buf, |s|);
      i := i + 1;
    }
    assert segments[..i] == segments;
  }

  /** End to end with the handler: a form in any segments gives its parameters, and every file in
      it has reached the handler whole: its chunks follow each other, join to its bytes, and only
      the last is marked final. */
  method ParseForm(b: string, ghost ps: seq<Part>, segments: seq<string>) returns (p: Parser)
    requires BoundaryOk(b) && '\r' !in b && FormOk(b, ps) && Flatten(segments) == EncodeForm(b, ps)
    ensures fresh(p) && p.state.PARSING_FINISHED? && p.params == ParamsOf(ps)
    ensures AsFiles(p.received) == FilesOf(ps) && AllComplete(p.received)
  {
    hide Run, AllComplete, AsFiles, PartOk;
    FormRoundTrip(b, ps);
    p := ParseSegments(b, segments);
  }
}
