/**
 What the event generator of components/ESPAsyncWebServer/src/AsyncEventSource.cpp takes for a line
 end, against sections 9.2.5 and 9.2.6 of the HTML Standard.
 */
module LineRules {
  import opened ServerSentEvents

  /** The lines of a message under the line ends of the standard, CR LF, LF and CR; again a line
      end at the very end opens no new line. */
  function StandardLines(m: string): (lines: seq<string>)
    ensures lines != []
    decreases |m|
  {
    var i := FirstBreak(m);
    if i == |m| then [m]
    else [m[..i]] + if NextLines(m, i) == "" then [] else StandardLines(NextLines(m, i))
  }

  /** What follows a line that has ended. */
  function More(m: string): seq<string> {
    if m == "" then [] else Lines(m)
  }

  function StandardMore(m: string): seq<string> {
    if m == "" then [] else StandardLines(m)
  }

  // ---------- stretches of line breaks ----------

  /** Two different line breaks meet at k. */
  predicate Joint(s: string, k: nat) {
    0 < k < |s| && IsBreak(s[k - 1]) && IsBreak(s[k]) && s[k - 1] != s[k]
  }

  /** s[i..j] is a stretch of line breaks in which neighbours differ, as long as can be. */
  predicate Stretch(s: string, i: nat, j: nat) {
    i < j <= |s| && IsBreak(s[i]) && (forall k :: i < k < j ==> Joint(s, k)) && !Joint(s, i) && !Joint(s, j)
  }

  /** A stretch in which the generator sees one line end less than the standard. */
  predicate Lossy(s: string, i: nat, j: nat) {
    Stretch(s, i, j) && s[i] == '\n' && s[j - 1] == '\r'
  }

  ghost predicate AnyLossy(s: string) {
    exists i, j :: Lossy(s, i, j)
  }

  /** The end of the stretch that starts at i. */
  function StretchEnd(s: string, i: nat): (j: nat)
    requires i < |s| && IsBreak(s[i])
    ensures i < j <= |s| && (forall k :: i < k < j ==> Joint(s, k)) && !Joint(s, j)
    decreases |s| - i
  {
    if Joint(s, i + 1) then StretchEnd(s, i + 1) else i + 1
  }

  lemma JointShift(m: string, n: nat)
    requires n <= |m|
    ensures forall k :: 0 < k ==> (Joint(m[n..], k) <==> Joint(m, n + k))
  {
    forall k | 0 < k ensures Joint(m[n..], k) <==> Joint(m, n + k) {
      assert k < |m| - n ==> m[n..][k] == m[n + k] && m[n..][k - 1] == m[n + k - 1];
    }
  }

  /** The later part of a stretch is a stretch of the later part. */
  lemma StretchFrom(m: string, i: nat, j: nat, n: nat)
    requires Stretch(m, i, j) && i <= n < j
    ensures Stretch(m[n..], 0, j - n)
  {
    assert IsBreak(m[n]) by {
      assert n > i ==> Joint(m, n);
    }
    JointShift(m, n);
    hide Joint;
    assert !Joint(m[n..], 0) by { NotAtStart(m[n..]); }
    forall k | 0 < k < j - n ensures Joint(m[n..], k) {
      assert Joint(m, n + k);
    }
    assert !Joint(m, n + (j - n));
  }

  lemma NotAtStart(s: string)
    ensures !Joint(s, 0)
  {
  }

  lemma StretchShift(m: string, n: nat, p: nat, q: nat)
    requires n <= |m| && p < q <= |m| - n && !Joint(m, n)
    ensures Stretch(m[n..], p, q) <==> Stretch(m, n + p, n + q)
  {
    JointShift(m, n);
    NotAtStart(m[n..]);
    assert m[n..][p] == m[n + p];
    hide Joint;
    if Stretch(m[n..], p, q) {
      forall k | n + p < k < n + q ensures Joint(m, k) {
        assert Joint(m[n..], k - n);
      }
    }
    if Stretch(m, n + p, n + q) {
      forall k | p < k < q ensures Joint(m[n..], k) {
        assert Joint(m, n + k);
      }
    }
  }

  /** Two stretches of which one starts inside the other are the same. */
  lemma SameStretch(m: string, i: nat, j: nat, p: nat, q: nat)
    requires Stretch(m, i, j) && Stretch(m, p, q) && i <= p < j
    ensures p == i && q == j
  {
    hide Joint;
  }

  /** The stretches of a message are its first one and those of the rest. */
  lemma LossyFirstOrLater(m: string, i: nat, j: nat)
    requires i < |m| && i == FirstBreak(m) && j == StretchEnd(m, i)
    ensures Stretch(m, i, j) && (AnyLossy(m) <==> Lossy(m, i, j) || AnyLossy(m[j..]))
  {
    PlainBefore(m, i);
    assert !Joint(m, i);
    hide Joint, FirstBreak, StretchEnd;
    var rest := m[j..];
    forall p: nat, q: nat | Lossy(m, p, q) ensures Lossy(m, i, j) || AnyLossy(rest) {
      if p < j {
        SameStretch(m, i, j, p, q);
      } else {
        LossyShift(m, j, p - j, q - j);
      }
    }
    forall p: nat, q: nat | Lossy(rest, p, q) ensures AnyLossy(m) {
      LossyShift(m, j, p, q);
    }
  }

  lemma LossyShift(m: string, n: nat, p: nat, q: nat)
    requires n <= |m| && p < q <= |m| - n && !Joint(m, n)
    ensures Lossy(m[n..], p, q) <==> Lossy(m, n + p, n + q)
  {
    hide Stretch;
    StretchShift(m, n, p, q);
    assert m[n..][p] == m[n + p] && m[n..][q - 1] == m[n + q - 1];
  }

  /** The ends of a stretch tell the parity of its length. */
  lemma {:induction false} StretchParity(s: string, i: nat, j: nat)
    requires i < j <= |s| && IsBreak(s[i]) && forall k :: i < k < j ==> Joint(s, k)
    ensures s[i] == s[j - 1] <==> (j - i) % 2 == 1
    ensures IsBreak(s[j - 1])
    decreases j - i
  {
    if i + 1 < j {
      assert Joint(s, j - 1);
      StretchParity(s, i, j - 1);
    }
  }

  // ---------- the lines that a stretch makes ----------

  function Blanks(n: nat): seq<string> {
    seq(n, _ => "")
  }

  lemma BlankFirst(n: nat, rest: seq<string>)
    ensures [""] + (Blanks(n) + rest) == Blanks(n + 1) + rest
    ensures n == 0 ==> Blanks(n) + rest == rest
  {
  }

  /** A text that begins with a line end has an empty first line. */
  lemma FirstIsBlank(m: string)
    requires m != "" && IsBreak(m[0])
    ensures More(m) == [""] + More(m[BreakLength(m, 0)..])
    ensures StandardMore(m) == [""] + StandardMore(NextLines(m, 0))
  {
    FirstBreakIs(m, 0);
    assert m[..0] == "";
  }

  /** The generator pairs the breaks of a stretch from its start. */
  lemma {:induction false} StretchLines(s: string, k: nat)
    requires 0 < k <= |s| && Stretch(s, 0, k)
    ensures More(s) == Blanks((k + 1) / 2) + More(s[k..])
    decreases k
  {
    hide More, Stretch, Blanks, BreakLength, NextLines;
    var n := if k == 1 then 1 else 2;
    FirstBreakLengths(s, k);
    FirstIsBlank(s);
    if k == n {
      BlankFirst(0, More(s[n..]));
    } else {
      StretchFrom(s, 0, k, n);
      StretchLines(s[n..], k - n);
      assert s[n..][k - n..] == s[k..];
      BlankFirst((k - n + 1) / 2, More(s[k..]));
    }
  }

  lemma FirstBreakLengths(s: string, k: nat)
    requires 0 < k <= |s| && Stretch(s, 0, k)
    ensures BreakLength(s, 0) == if k == 1 then 1 else 2
    ensures NextLines(s, 0) == s[if s[0] == '\r' && k >= 2 then 2 else 1..]
    ensures s[0] == '\r' || s[0] == '\n'
    ensures k >= 2 ==> s[1] != s[0] && IsBreak(s[1])
    ensures k >= 3 ==> s[2] == s[0]
  {
    assert k >= 2 ==> Joint(s, 1);
    assert k >= 3 ==> Joint(s, 2);
    assert k == 1 ==> !Joint(s, 1);
  }

  /** The standard pairs them when the first is a CR ... */
  lemma {:induction false} ReturnFirst(s: string, k: nat)
    requires 0 < k <= |s| && Stretch(s, 0, k) && s[0] == '\r'
    ensures StandardMore(s) == Blanks((k + 1) / 2) + StandardMore(s[k..])
    decreases k
  {
    hide StandardMore, Stretch, Blanks, NextLines, BreakLength;
    var n := if k == 1 then 1 else 2;
    FirstBreakLengths(s, k);
    FirstIsBlank(s);
    if k == n {
      BlankFirst(0, StandardMore(s[n..]));
    } else {
      StretchFrom(s, 0, k, n);
      assert s[n..][0] == s[n];
      ReturnFirst(s[n..], k - n);
      assert s[n..][k - n..] == s[k..];
      BlankFirst((k - n + 1) / 2, StandardMore(s[k..]));
    }
  }

  /** ... and from the second on when it is an LF. */
  lemma StretchStandardLines(s: string, k: nat)
    requires 0 < k <= |s| && Stretch(s, 0, k)
    ensures StandardMore(s) == Blanks(if s[0] == '\r' then (k + 1) / 2 else 1 + k / 2) + StandardMore(s[k..])
  {
    hide StandardMore, Stretch, Blanks, NextLines, BreakLength;
    FirstBreakLengths(s, k);
    if s[0] == '\r' {
      ReturnFirst(s, k);
    } else {
      FirstIsBlank(s);
      if k == 1 {
        BlankFirst(0, StandardMore(s[1..]));
      } else {
        StretchFrom(s, 0, k, 1);
        assert s[1..][0] == s[1];
        ReturnFirst(s[1..], k - 1);
        assert s[1..][k - 1..] == s[k..];
        BlankFirst(k / 2, StandardMore(s[k..]));
      }
    }
  }

  /** Both rules on a first stretch. */
  lemma FirstStretchLines(m: string, i: nat, j: nat)
    requires Stretch(m, i, j)
    ensures var n := (j - i + 1) / 2; var rest := m[j..];
            More(m[i..]) == Blanks(n) + More(rest) &&
            StandardMore(m[i..]) == Blanks(if Lossy(m, i, j) then n + 1 else n) + StandardMore(rest)
  {
    hide More, StandardMore, Joint, Blanks;
    StretchFrom(m, i, j, i);
    assert m[i..][j - i..] == m[j..] && m[i..][0] == m[i];
    StretchLines(m[i..], j - i);
    StretchStandardLines(m[i..], j - i);
    StretchParity(m, i, j);
  }

  lemma LinesFromBreak(m: string)
    requires FirstBreak(m) < |m|
    ensures Lines(m)[0] == m[..FirstBreak(m)] && [""] + Lines(m)[1..] == More(m[FirstBreak(m)..])
  {
    hide FirstBreak, Plain;
    var i := FirstBreak(m);
    FirstIsBlank(m[i..]);
    assert BreakLength(m[i..], 0) == BreakLength(m, i);
    hide BreakLength;
    RestOfLines(m, i, i + BreakLength(m, i));
  }

  lemma RestOfLines(m: string, i: nat, n: nat)
    requires i == FirstBreak(m) < |m| && n == i + BreakLength(m, i)
    ensures m[i..][n - i..] == m[n..] && Lines(m)[1..] == More(m[n..]) && Lines(m)[0] == m[..i]
  {
    LinesAre(m);
    hide FirstBreak, BreakLength, Plain, AllPlain, Lines;
  }

  lemma LinesAre(m: string)
    requires FirstBreak(m) < |m|
    ensures var i := FirstBreak(m); var rest := m[i + BreakLength(m, i)..];
            Lines(m) == [m[..i]] + if rest == "" then [] else Lines(rest)
  {
    hide FirstBreak, BreakLength, Plain, AllPlain, IsBreak;
    var i := FirstBreak(m);
    var rest := m[i + BreakLength(m, i)..];
    var tail := if rest == "" then [] else Lines(rest);
    assert Lines(m) == [m[..i]] + tail;
  }

  lemma StandardLinesFromBreak(m: string)
    requires FirstBreak(m) < |m|
    ensures StandardLines(m)[0] == m[..FirstBreak(m)]
    ensures [""] + StandardLines(m)[1..] == StandardMore(m[FirstBreak(m)..])
  {
    hide FirstBreak, Plain;
    var i := FirstBreak(m);
    FirstIsBlank(m[i..]);
    assert NextLines(m[i..], 0) == NextLines(m, i);
    hide NextLines;
    assert StandardLines(m)[1..] == StandardMore(NextLines(m, i));
  }

  lemma SameAfterBlanks(n: nat, extra: nat, a: seq<string>, b: seq<string>)
    requires |a| <= |b|
    ensures |Blanks(n) + a| <= |Blanks(n + extra) + b|
    ensures Blanks(n) + a == Blanks(n + extra) + b <==> extra == 0 && a == b
  {
    if extra == 0 && Blanks(n) + a == Blanks(n) + b {
      assert (Blanks(n) + a)[n..] == a && (Blanks(n) + b)[n..] == b;
    }
  }

  lemma SameAfterHead(x: string, a: seq<string>, b: seq<string>)
    requires a != [] && b != [] && a[0] == x && b[0] == x
    ensures a == b <==> [""] + a[1..] == [""] + b[1..]
    ensures |[""] + a[1..]| == |a| && |[""] + b[1..]| == |b|
  {
    assert a == [x] + a[1..] && b == [x] + b[1..];
    assert ([""] + a[1..])[1..] == a[1..] && ([""] + b[1..])[1..] == b[1..];
  }

  lemma NoBreaks(m: string)
    requires Plain(m)
    ensures !AnyLossy(m) && Lines(m) == [m] == StandardLines(m)
  {
    FirstBreakIs(m, |m|);
    assert m[..|m|] == m;
  }

  /** Main result: the generator never finds more lines than the standard, and it finds the same
      lines if and only if no stretch of alternating line breaks begins with LF and ends with CR. */
  lemma {:induction false} LineRulesAgree(m: string)
    ensures |Lines(m)| <= |StandardLines(m)|
    ensures Lines(m) == StandardLines(m) <==> !AnyLossy(m)
    decreases |m|
  {
    hide AnyLossy, Lossy, Stretch, Blanks, Lines, StandardLines, FirstBreak, StretchEnd, Joint;
    var i := FirstBreak(m);
    if i == |m| {
      assert m[..i] == m;
      NoBreaks(m);
    } else {
      var j := StretchEnd(m, i);
      var rest := m[j..];
      LossyFirstOrLater(m, i, j);
      LinesFromBreak(m);
      StandardLinesFromBreak(m);
      SameAfterHead(m[..i], Lines(m), StandardLines(m));
      FirstStretchLines(m, i, j);
      if rest == "" {
        NoBreaks(rest);
      } else {
        LineRulesAgree(rest);
      }
      SameAfterBlanks((j - i + 1) / 2, if Lossy(m, i, j) then 1 else 0, More(rest), StandardMore(rest));
    }
  }

  // ---------- two inputs ----------

  lemma LineThenStretch(line: string, s: string)
    requires Plain(line) && s != "" && IsBreak(s[0])
    ensures Lines(line + s) == [line] + More(s[BreakLength(s, 0)..])
    ensures StandardLines(line + s) == [line] + StandardMore(NextLines(s, 0))
  {
    var m := line + s;
    var i := |line|;
    assert m[..i] == line && m[i..] == s && m[i] == s[0];
    FirstBreakIs(m, i);
    assert BreakLength(m, i) == BreakLength(s, 0) && NextLines(m, i) == NextLines(s, 0);
    assert m[i + BreakLength(m, i)..] == s[BreakLength(s, 0)..];
  }

  /** The empty line of "\n\r" is lost. */
  lemma FeedThenReturn()
    ensures Lines("a\n\rb") == ["a", "b"] && StandardLines("a\n\rb") == ["a", "", "b"]
  {
    hide Lines, StandardLines;
    NoBreaks("b");
    LineThenStretch("a", "\n\rb");
    LineThenStretch("", "\rb");
    assert "a" + "\n\rb" == "a\n\rb" && "" + "\rb" == "\rb";
    assert "\n\rb"[2..] == "b" && "\n\rb"[1..] == "\rb" && "\rb"[1..] == "b";
  }

  /** Nothing is lost in "\n\r\n", although "\n\r" stands there. */
  lemma FeedReturnFeed()
    ensures Lines("a\n\r\nb") == ["a", "", "b"] == StandardLines("a\n\r\nb")
  {
    hide Lines, StandardLines;
    NoBreaks("b");
    LineThenStretch("a", "\n\r\nb");
    LineThenStretch("", "\nb");
    LineThenStretch("", "\r\nb");
    assert "a" + "\n\r\nb" == "a\n\r\nb" && "" + "\nb" == "\nb" && "" + "\r\nb" == "\r\nb";
    assert "\n\r\nb"[2..] == "\nb" && "\n\r\nb"[1..] == "\r\nb";
    assert "\nb"[1..] == "b" && "\r\nb"[2..] == "b";
  }
}
