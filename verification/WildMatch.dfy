/**
 The wildcard matcher `matchWild` of components/ESPAsyncWebServer/src/SPIFFSEditor.cpp:
 a greedy scan that, on a mismatch, falls back to the most recent `*` only.
 */
module WildMatch {

  /** What a pattern means: `?` is any one character, `*` any string, the rest themselves. */
  ghost predicate Matches(p: string, t: string)
    decreases |p|
  {
    if p == "" then t == ""
    else if p[0] == '*' then exists k :: 0 <= k <= |t| && Matches(p[1..], t[k..])
    else t != "" && (p[0] == '?' || p[0] == t[0]) && Matches(p[1..], t[1..])
  }

  predicate Accepts(c: char, d: char) {
    c == '?' || c == d
  }

  /** A star-free stretch of pattern lying character by character on a stretch of text. */
  ghost predicate Aligned(seg: string, t: string) {
    |seg| == |t| &&
    forall i :: 0 <= i < |seg| ==> seg[i] != '*' && Accepts(seg[i], t[i])
  }

  lemma StarEmpty(p: string, t: string)
    requires p != "" && p[0] == '*' && Matches(p[1..], t)
    ensures Matches(p, t)
  {
    assert t[0..] == t;
  }

  /** A leading star absorbs any prefix of the text. */
  lemma StarAbsorbs(p: string, a: string, t: string)
    requires p != "" && p[0] == '*' && Matches(p, t)
    ensures Matches(p, a + t)
  {
    var k :| 0 <= k <= |t| && Matches(p[1..], t[k..]);
    assert (a + t)[|a| + k..] == t[k..];
  }

  /** A star either is empty or takes one character. */
  lemma StarStep(p: string, t: string)
    requires p != "" && p[0] == '*' && t != ""
    ensures Matches(p, t) <==> (Matches(p[1..], t) || Matches(p, t[1..]))
  {
    if Matches(p, t) {
      var k :| 0 <= k <= |t| && Matches(p[1..], t[k..]);
      if k == 0 {
        assert t[0..] == t;
      } else {
        assert t[1..][k - 1..] == t[k..];
      }
    }
    if Matches(p[1..], t) {
      StarEmpty(p, t);
    }
    if Matches(p, t[1..]) {
      StarAbsorbs(p, [t[0]], t[1..]);
      assert [t[0]] + t[1..] == t;
    }
  }

  /** Star-free pattern text is consumed one character for one. */
  lemma {:induction false} StretchForces(seg: string, p: string, t: string)
    requires '*' !in seg
    ensures Matches(seg + p, t) <==> |seg| <= |t| && Aligned(seg, t[..|seg|]) && Matches(p, t[|seg|..])
    decreases |seg|
  {
    if seg == "" {
      assert seg + p == p && t[0..] == t;
    } else {
      var q := seg + p;
      assert q[1..] == seg[1..] + p;
      assert seg[0] != '*';
      if t != "" {
        StretchForces(seg[1..], p, t[1..]);
        if |seg| <= |t| {
          var a, b := t[..|seg|], t[1..][..|seg| - 1];
          assert b == a[1..];
          assert t[1..][|seg| - 1..] == t[|seg|..];
          assert Aligned(seg, a) <==> Accepts(seg[0], a[0]) && Aligned(seg[1..], b) by {
            if Accepts(seg[0], a[0]) && Aligned(seg[1..], b) {
              forall i | 0 <= i < |seg| ensures seg[i] != '*' && Accepts(seg[i], a[i]) {
                if i > 0 {
                  assert seg[1..][i - 1] == seg[i] && b[i - 1] == a[i];
                }
              }
            }
            if Aligned(seg, a) {
              forall i | 0 <= i < |seg| - 1 ensures seg[1..][i] != '*' && Accepts(seg[1..][i], b[i]) {
                assert seg[i + 1] != '*' && Accepts(seg[i + 1], a[i + 1]);
              }
            }
          }
        }
      }
    }
  }

  /** How many characters a pattern needs at least. */
  ghost function MinLength(p: string): nat {
    if p == "" then 0 else (if p[0] == '*' then 0 else 1) + MinLength(p[1..])
  }

  lemma {:induction false} MatchIsLongEnough(p: string, t: string)
    requires Matches(p, t)
    ensures MinLength(p) <= |t|
    decreases |p|
  {
    if p != "" {
      if p[0] == '*' {
        var k :| 0 <= k <= |t| && Matches(p[1..], t[k..]);
        MatchIsLongEnough(p[1..], t[k..]);
      } else {
        MatchIsLongEnough(p[1..], t[1..]);
      }
    }
  }

  ghost predicate AllStars(p: string) {
    forall i :: 0 <= i < |p| ==> p[i] == '*'
  }

  lemma {:induction false} StarsMatchAll(p: string, t: string)
    requires AllStars(p) && (p != "" || t == "")
    ensures Matches(p, t)
    decreases |p|
  {
    if p != "" {
      StarsMatchAll(p[1..], t[|t|..]);
    }
  }

  lemma {:induction false} NonStarNeedsText(p: string)
    requires !AllStars(p)
    ensures MinLength(p) >= 1
    decreases |p|
  {
    if p[0] == '*' {
      var i :| 0 <= i < |p| && p[i] != '*';
      assert p[1..][i - 1] == p[i];
      NonStarNeedsText(p[1..]);
    }
  }

  lemma {:induction false} MinLengthConcat(a: string, b: string)
    ensures MinLength(a + b) == MinLength(a) + MinLength(b)
    decreases |a|
  {
    if a == "" {
      assert a + b == b;
    } else {
      assert (a + b)[1..] == a[1..] + b;
      MinLengthConcat(a[1..], b);
    }
  }

  lemma {:induction false} StretchMinLength(seg: string)
    requires '*' !in seg
    ensures MinLength(seg) == |seg|
  {
    if seg != "" {
      assert forall c :: c in seg[1..] ==> c in seg;
      StretchMinLength(seg[1..]);
    }
  }

  // ---------- the code's loop as a function ----------

  /** The variables of the loop: `pat` and `tst` are the two cursors, `star` is nxPat (-1 for
      the null pointer) and `from` is nxTst. */
  datatype Scan = Scan(pat: nat, tst: nat, star: int, from: nat)

  ghost predicate ScanOk(p: string, t: string, s: Scan) {
    s.pat <= |p| && s.tst <= |t| && -1 <= s.star < |p| &&
    (s.star >= 0 ==> s.star < s.pat && s.from <= s.tst)
  }

  /** What the whole loop answers from a given state on. */
  ghost predicate Answer(p: string, t: string, s: Scan)
    requires ScanOk(p, t, s)
    decreases |p| - s.star, |t| - s.from, |t| - s.tst
  {
    if s.tst == |t| then AllStars(p[s.pat..])
    else if s.pat < |p| && Accepts(p[s.pat], t[s.tst]) then
      Answer(p, t, s.(pat := s.pat + 1, tst := s.tst + 1))
    else if s.pat < |p| && p[s.pat] == '*' then
      Answer(p, t, Scan(s.pat + 1, s.tst, s.pat, s.tst))
    else if s.star >= 0 && s.from < |t| then
      Answer(p, t, Scan(s.star + 1, s.from + 1, s.star, s.from + 1))
    else
      false
  }

  const START := Scan(0, 0, -1, 0)

  /** The C strings end at a NUL, which is what the code reads there. */
  function At(s: string, i: nat): char
    requires i <= |s|
  {
    if i < |s| then s[i] else '\0'
  }

  method MatchWild(pattern: string, testee: string) returns (r: bool)
    requires '\0' !in pattern && '\0' !in testee
    ensures r == Answer(pattern, testee, START)
    ensures r ==> Matches(pattern, testee)
    ensures '*' !in testee || '*' !in pattern ==> r == Matches(pattern, testee)
  {
    Correct(pattern, testee);
    var pat, tst, nxPat, nxTst := 0, 0, -1, 0;
    while tst < |testee|
      invariant ScanOk(pattern, testee, Scan(pat, tst, nxPat, nxTst))
      invariant Answer(pattern, testee, Scan(pat, tst, nxPat, nxTst)) == Answer(pattern, testee, START)
      decreases |pattern| - nxPat, |testee| - nxTst, |testee| - tst
    {
      if At(pattern, pat) == '?' || At(pattern, pat) == testee[tst] {
        pat, tst := pat + 1, tst + 1;
      } else if At(pattern, pat) == '*' {
        nxPat, nxTst := pat, tst;
        pat := pat + 1;
      } else if nxPat != -1 {
        pat := nxPat + 1;
        nxTst := nxTst + 1;
        tst := nxTst;
      } else {
        return false;
      }
    }
    ghost var rest := pattern[pat..];
    while At(pattern, pat) == '*'
      invariant pat <= |pattern|
      invariant AllStars(rest) == AllStars(pattern[pat..])
      decreases |pattern| - pat
    {
      assert pattern[pat + 1..] == pattern[pat..][1..];
      AllStarsStep(pattern[pat..]);
      pat := pat + 1;
    }
    assert pat < |pattern| ==> pattern[pat..][0] != '*';
    return pat == |pattern|;
  }

  lemma AllStarsStep(p: string)
    requires p != "" && p[0] == '*'
    ensures AllStars(p) == AllStars(p[1..])
  {
    if AllStars(p[1..]) {
      forall i | 0 <= i < |p| ensures p[i] == '*' {
        if i > 0 {
          assert p[1..][i - 1] == p[i];
        }
      }
    }
  }

  // ---------- the loop against the meaning ----------

  /** What is still to be matched once the most recent star is `s.star`. */
  ghost predicate Pending(p: string, t: string, s: Scan)
    requires ScanOk(p, t, s)
  {
    if s.star < 0 then Matches(p[s.pat..], t[s.tst..]) else Matches(p[s.star..], t[s.from..])
  }

  /** After a star, the pattern read so far lies on the text read so far. */
  ghost predicate ScanLaid(p: string, t: string, s: Scan)
    requires ScanOk(p, t, s)
  {
    s.star >= 0 ==> p[s.star] == '*' && Aligned(p[s.star + 1..s.pat], t[s.from..s.tst])
  }

  /** The two ways the text can avoid the branch that takes `*` for a literal. */
  ghost predicate StarsApart(p: string, t: string) {
    '*' !in t || '*' !in p
  }

  lemma AdvanceKeeps(p: string, t: string, s: Scan)
    requires ScanOk(p, t, s) && ScanLaid(p, t, s)
    requires s.pat < |p| && s.tst < |t| && p[s.pat] != '*' && Accepts(p[s.pat], t[s.tst])
    ensures var n := s.(pat := s.pat + 1, tst := s.tst + 1);
            ScanLaid(p, t, n) && Pending(p, t, n) == Pending(p, t, s)
  {
    if s.star < 0 {
      assert p[s.pat..][1..] == p[s.pat + 1..] && t[s.tst..][1..] == t[s.tst + 1..];
    } else {
      assert p[s.star + 1..s.pat + 1] == p[s.star + 1..s.pat] + [p[s.pat]];
      assert t[s.from..s.tst + 1] == t[s.from..s.tst] + [t[s.tst]];
    }
  }

  /** `*seg*rest` and `*rest` ask the same of a text that begins with the stretch seg. */
  lemma TwoStars(star: string, seg: string, rest: string, u: string)
    requires star != "" && star[0] == '*' && star[1..] == seg + rest && '*' !in seg
    requires rest != "" && rest[0] == '*'
    requires |seg| <= |u| && Aligned(seg, u[..|seg|])
    ensures Matches(star, u) == Matches(rest, u[|seg|..])
  {
    if Matches(rest, u[|seg|..]) {
      StretchForces(seg, rest, u);
      StarEmpty(star, u);
    }
    if Matches(star, u) {
      var k :| 0 <= k <= |u| && Matches(seg + rest, u[k..]);
      StretchForces(seg, rest, u[k..]);
      var far := u[k..][|seg|..];
      var skipped := u[|seg|..k + |seg|];
      assert skipped + far == u[|seg|..];
      StarAbsorbs(rest, skipped, far);
    }
  }

  /** Forgetting the previous star at a new one loses nothing. */
  lemma NewStarKeeps(p: string, t: string, s: Scan)
    requires ScanOk(p, t, s) && ScanLaid(p, t, s) && s.pat < |p| && p[s.pat] == '*'
    ensures var n := Scan(s.pat + 1, s.tst, s.pat, s.tst);
            ScanLaid(p, t, n) && Pending(p, t, n) == Pending(p, t, s)
  {
    hide Matches, Accepts;
    if s.star >= 0 {
      StarReplaced(p, t, s);
    }
  }

  lemma StarReplaced(p: string, t: string, s: Scan)
    requires ScanOk(p, t, s) && s.star >= 0 && s.pat < |p| && p[s.pat] == '*'
    requires p[s.star] == '*' && Aligned(p[s.star + 1..s.pat], t[s.from..s.tst])
    ensures Matches(p[s.pat..], t[s.tst..]) == Matches(p[s.star..], t[s.from..])
  {
    hide Matches, Aligned;
    var seg, rest := p[s.star + 1..s.pat], p[s.pat..];
    var u := t[s.from..];
    NoStarInside(seg, t[s.from..s.tst]);
    assert p[s.star..][1..] == seg + rest;
    assert u[|seg|..] == t[s.tst..] && u[..|seg|] == t[s.from..s.tst];
    TwoStars(p[s.star..], seg, rest, u);
  }

  lemma NoStarInside(seg: string, u: string)
    requires Aligned(seg, u)
    ensures '*' !in seg && |seg| == |u|
  {
  }

  /** On a mismatch the star has to take one more character. */
  lemma BacktrackKeeps(p: string, t: string, s: Scan)
    requires ScanOk(p, t, s) && ScanLaid(p, t, s) && s.star >= 0 && s.tst < |t|
    requires s.pat < |p| ==> p[s.pat] != '*' && !Accepts(p[s.pat], t[s.tst])
    ensures var n := Scan(s.star + 1, s.from + 1, s.star, s.from + 1);
            ScanOk(p, t, n) && ScanLaid(p, t, n) && Pending(p, t, n) == Pending(p, t, s)
  {
    var u, q := t[s.from..], p[s.star..];
    StarStep(q, u);
    assert u[1..] == t[s.from + 1..];
    var seg, rest := p[s.star + 1..s.pat], p[s.pat..];
    assert q[1..] == seg + rest && '*' !in seg;
    StretchForces(seg, rest, u);
    assert u[|seg|..] == t[s.tst..];
    assert !Matches(rest, t[s.tst..]);
  }

  /** At the end of the text only trailing stars may be left. */
  lemma EndDecides(p: string, t: string, s: Scan)
    requires ScanOk(p, t, s) && ScanLaid(p, t, s) && s.tst == |t|
    ensures Pending(p, t, s) == AllStars(p[s.pat..])
  {
    var rest := p[s.pat..];
    assert t[s.tst..] == "";
    if AllStars(rest) {
      StarsMatchAll(rest, "");
    } else {
      NonStarNeedsText(rest);
    }
    if s.star < 0 {
      if Matches(rest, "") {
        MatchIsLongEnough(rest, "");
      }
    } else {
      var seg, u := p[s.star + 1..s.pat], t[s.from..];
      assert '*' !in seg && p[s.star..][1..] == seg + rest;
      assert u == t[s.from..s.tst];
      if AllStars(rest) {
        assert u[|seg|..] == "" && u[..|seg|] == u;
        StretchForces(seg, rest, u);
        StarEmpty(p[s.star..], u);
      } else if Matches(p[s.star..], u) {
        MatchIsLongEnough(p[s.star..], u);
        MinLengthConcat(seg, rest);
        StretchMinLength(seg);
      }
    }
  }

  lemma {:induction false} AnswerIsPending(p: string, t: string, s: Scan)
    requires ScanOk(p, t, s) && ScanLaid(p, t, s) && StarsApart(p, t)
    ensures Answer(p, t, s) == Pending(p, t, s)
    decreases |p| - s.star, |t| - s.from, |t| - s.tst
  {
    hide Matches, Aligned, AllStars, Accepts, Pending;
    if s.tst == |t| {
      EndDecides(p, t, s);
    } else if s.pat < |p| && Accepts(p[s.pat], t[s.tst]) {
      NotALiteralStar(p, t, s);
      AdvanceKeeps(p, t, s);
      AnswerIsPending(p, t, s.(pat := s.pat + 1, tst := s.tst + 1));
    } else if s.pat < |p| && p[s.pat] == '*' {
      NewStarKeeps(p, t, s);
      AnswerIsPending(p, t, Scan(s.pat + 1, s.tst, s.pat, s.tst));
    } else if s.star >= 0 {
      BacktrackKeeps(p, t, s);
      AnswerIsPending(p, t, Scan(s.star + 1, s.from + 1, s.star, s.from + 1));
    } else {
      NothingFits(p, t, s);
    }
  }

  lemma NotALiteralStar(p: string, t: string, s: Scan)
    requires StarsApart(p, t) && s.pat < |p| && s.tst < |t| && Accepts(p[s.pat], t[s.tst])
    ensures p[s.pat] != '*'
  {
    assert t[s.tst] in t && p[s.pat] in p;
  }

  /** A mismatch before any star. */
  lemma NothingFits(p: string, t: string, s: Scan)
    requires ScanOk(p, t, s) && s.star < 0 && s.tst < |t|
    requires s.pat < |p| ==> p[s.pat] != '*' && !Accepts(p[s.pat], t[s.tst])
    ensures !Pending(p, t, s)
  {
  }

  /** The full statement about `matchWild`: never a false match, and no lost match unless
      both strings contain a literal star. */
  lemma Correct(p: string, t: string)
    ensures Answer(p, t, START) ==> Matches(p, t)
    ensures StarsApart(p, t) ==> Answer(p, t, START) == Matches(p, t)
  {
    assert p[0..] == p && t[0..] == t;
    if Answer(p, t, START) {
      AnswerIsSound(p, t, START);
    }
    if StarsApart(p, t) {
      AnswerIsPending(p, t, START);
    }
  }

  /** The rest of the pattern fits the rest of the text, possibly after the star has grown. */
  ghost predicate Reachable(p: string, t: string, s: Scan)
    requires ScanOk(p, t, s)
  {
    Matches(p[s.pat..], t[s.tst..]) ||
    (s.star >= 0 && Matches(p[s.star..], t[s.from..]))
  }

  lemma {:induction false} AnswerIsSound(p: string, t: string, s: Scan)
    requires ScanOk(p, t, s) && Answer(p, t, s)
    requires s.star >= 0 ==> p[s.star] == '*'
    ensures Reachable(p, t, s)
    decreases |p| - s.star, |t| - s.from, |t| - s.tst
  {
    var q, u := p[s.pat..], t[s.tst..];
    if s.tst == |t| {
      StarsMatchAll(q, u);
    } else if s.pat < |p| && Accepts(p[s.pat], t[s.tst]) {
      var n := s.(pat := s.pat + 1, tst := s.tst + 1);
      AnswerIsSound(p, t, n);
      assert q[1..] == p[n.pat..] && u[1..] == t[n.tst..];
      if Matches(q[1..], u[1..]) && p[s.pat] == '*' {
        assert q[0] == '*';
      }
    } else if s.pat < |p| && p[s.pat] == '*' {
      AnswerIsSound(p, t, Scan(s.pat + 1, s.tst, s.pat, s.tst));
      assert q[1..] == p[s.pat + 1..];
      if Matches(q[1..], u) {
        StarEmpty(q, u);
      }
    } else {
      var n := Scan(s.star + 1, s.from + 1, s.star, s.from + 1);
      AnswerIsSound(p, t, n);
      var r, v := p[s.star..], t[s.from..];
      assert v[1..] == t[s.from + 1..] && r[1..] == p[s.star + 1..];
      if Matches(r[1..], v[1..]) {
        StarEmpty(r, v[1..]);
      }
      StarStep(r, v);
    }
  }

  // ---------- a literal star in both strings ----------

  function Repeat(c: char, n: nat): string {
    seq(n, _ => c)
  }

  /** Question marks are consumed one for one, whatever the text. */
  lemma {:induction false} QuestionsWalk(p: string, t: string, s: Scan, n: nat)
    requires ScanOk(p, t, s) && s.pat + n <= |p| && s.tst + n <= |t|
    requires forall i :: s.pat <= i < s.pat + n ==> p[i] == '?'
    ensures Answer(p, t, s) == Answer(p, t, s.(pat := s.pat + n, tst := s.tst + n))
    decreases n
  {
    if n > 0 {
      QuestionsWalk(p, t, s.(pat := s.pat + 1, tst := s.tst + 1), n - 1);
    }
  }

  lemma {:induction false} QuestionsMatch(n: nat, t: string)
    requires |t| == n
    ensures Matches(Repeat('?', n), t)
    decreases n
  {
    if n > 0 {
      assert Repeat('?', n)[1..] == Repeat('?', n - 1);
      QuestionsMatch(n - 1, t[1..]);
    }
  }

  /** For a text whose first star is at i, the pattern that defeats the code. */
  function Spoiler(t: string, i: nat): string
    requires i < |t|
  {
    Repeat('?', i) + ("*" + Repeat('?', |t| - i))
  }

  lemma SpoilerMatches(t: string, i: nat)
    requires i < |t|
    ensures Matches(Spoiler(t, i), t)
  {
    var head, tail := Repeat('?', i), "*" + Repeat('?', |t| - i);
    QuestionsMatch(|t| - i, t[i..]);
    assert tail[1..] == Repeat('?', |t| - i);
    StarEmpty(tail, t[i..]);
    assert Aligned(head, t[..i]) && '*' !in head;
    StretchForces(head, tail, t);
  }

  lemma SpoilerShape(t: string, i: nat)
    requires i < |t|
    ensures var p := Spoiler(t, i);
            |p| == |t| + 1 && p[i] == '*' &&
            forall k :: 0 <= k <= |t| && k != i ==> p[k] == '?'
  {
  }

  /** The star of the pattern meets the star of the text and is consumed as a literal. */
  lemma SpoilerRejected(t: string, i: nat)
    requires i < |t| && t[i] == '*' && '*' !in t[..i]
    ensures !Answer(Spoiler(t, i), t, START)
  {
    hide Matches, Spoiler;
    var p := Spoiler(t, i);
    SpoilerShape(t, i);
    QuestionsWalk(p, t, START, i);
    var s := Scan(i + 1, i + 1, -1, 0);
    assert Answer(p, t, Scan(i, i, -1, 0)) == Answer(p, t, s);
    QuestionsWalk(p, t, s, |t| - i - 1);
    assert p[|t|..][0] == '?';
  }

  /** A text is matched correctly by every pattern exactly when it holds no literal star. */
  lemma SafeTexts(t: string)
    ensures (forall p: string :: Answer(p, t, START) == Matches(p, t)) <==> '*' !in t
  {
    if '*' !in t {
      forall p: string ensures Answer(p, t, START) == Matches(p, t) {
        Correct(p, t);
      }
    } else {
      var i := FirstStar(t);
      SpoilerMatches(t, i);
      SpoilerRejected(t, i);
    }
  }

  /** A text that starts with the pattern itself is consumed as a literal. */
  lemma {:induction false} LiteralWalk(p: string, x: string, i: nat)
    requires i <= |p| && x != ""
    ensures !Answer(p, p + x, Scan(i, i, -1, 0))
    decreases |p| - i
  {
    if i < |p| {
      LiteralWalk(p, x, i + 1);
    }
  }

  lemma {:induction false} SelfMatches(p: string)
    ensures Matches(p, p)
  {
    if p != "" {
      SelfMatches(p[1..]);
    }
  }

  /** For a pattern whose first star is at i, the text that defeats the code. */
  function Decoy(p: string, i: nat): string
    requires i < |p|
  {
    "a" + p[i + 1..]
  }

  lemma AlignedWithSelf(seg: string)
    requires '*' !in seg
    ensures Aligned(seg, seg)
  {
  }

  lemma DecoyMatches(p: string, i: nat)
    requires i < |p| && p[i] == '*' && '*' !in p[..i]
    ensures Matches(p, p + Decoy(p, i))
  {
    hide Matches, Accepts;
    var head, tail, v := p[..i], p[i..], p[i + 1..];
    var t := p + Decoy(p, i);
    assert tail[1..] == v && head + tail == p;
    SelfMatches(v);
    StarEmpty(tail, v);
    StarAbsorbs(tail, tail + "a", v);
    assert tail + "a" + v == t[i..];
    assert t[..i] == head;
    AlignedWithSelf(head);
    StretchForces(head, tail, t);
  }

  /** A pattern is decided correctly on every text exactly when it holds no star. */
  lemma SafePatterns(p: string)
    ensures (forall t: string :: Answer(p, t, START) == Matches(p, t)) <==> '*' !in p
  {
    if '*' !in p {
      forall t: string ensures Answer(p, t, START) == Matches(p, t) {
        Correct(p, t);
      }
    } else {
      var i := FirstStar(p);
      DecoyMatches(p, i);
      LiteralWalk(p, Decoy(p, i), 0);
    }
  }

  lemma FirstStar(t: string) returns (i: nat)
    requires '*' in t
    ensures i < |t| && t[i] == '*' && '*' !in t[..i]
  {
    i := 0;
    while t[i] != '*'
      invariant i < |t| && '*' !in t[..i] && '*' in t[i..]
      decreases |t| - i
    {
      assert t[i..] == [t[i]] + t[i + 1..];
      assert t[..i + 1] == t[..i] + [t[i]];
      i := i + 1;
    }
  }
}
