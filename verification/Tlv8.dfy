/**
 TLV8 records (section 14.1 of the HomeKit Accessory Protocol Specification, R2):
 the resumable printer and parser of components/HK-HomeKit-Lib/src/utils/TLV8.cpp.
 The list is a singly linked list that grows at the front; here index 0 is the front.
 */
module Tlv8 {
  import opened Bytes

  datatype Item = Item(tag: byte, val: seq<byte>)

  // ---------- the list and its encoding ----------

  /** The list after `add`: a record whose tag equals the front's is merged into it. */
  function Add(items: seq<Item>, tag: byte, val: seq<byte>): (r: seq<Item>)
    ensures r != [] && r[0].tag == tag
  {
    if items != [] && items[0].tag == tag then
      [Item(tag, items[0].val + val)] + items[1..]
    else
      [Item(tag, val)] + items
  }

  /** No two neighbours share a tag: exactly the lists `add` can build, see BuiltByAdd. */
  ghost predicate Separated(items: seq<Item>) {
    forall i :: 0 <= i < |items| - 1 ==> items[i].tag != items[i + 1].tag
  }

  lemma AddKeepsSeparated(items: seq<Item>, tag: byte, val: seq<byte>)
    requires Separated(items)
    ensures Separated(Add(items, tag, val))
  {
    var r := Add(items, tag, val);
    forall i | 0 <= i < |r| - 1 ensures r[i].tag != r[i + 1].tag {
      if |r| == |items| {
        assert items[i].tag != items[i + 1].tag;
      } else if i > 0 {
        assert items[i - 1].tag != items[i].tag;
      }
    }
  }

  /** The records of L added one after the other. */
  function AddAll(items: seq<Item>, L: seq<Item>): (r: seq<Item>)
    decreases |L|
  {
    if L == [] then items else AddAll(Add(items, L[0].tag, L[0].val), L[1..])
  }

  lemma {:induction false} AddAllKeepsSeparated(items: seq<Item>, L: seq<Item>)
    requires Separated(items)
    ensures Separated(AddAll(items, L))
    decreases |L|
  {
    if L != [] {
      AddKeepsSeparated(items, L[0].tag, L[0].val);
      AddAllKeepsSeparated(Add(items, L[0].tag, L[0].val), L[1..]);
    }
  }

  /** One record on the wire: fragments of at most 255 bytes, all but the last full. */
  function EncodeItem(tag: byte, val: seq<byte>): (r: seq<byte>)
    ensures |r| >= 2 && r[0] == tag && r[1] == Min(|val|, 255)
    decreases |val|
  {
    if |val| <= 255 then
      [tag, |val|] + val
    else
      [tag, 255] + val[..255] + EncodeItem(tag, val[255..])
  }

  function Encode(items: seq<Item>): seq<byte> {
    if items == [] then [] else EncodeItem(items[0].tag, items[0].val) + Encode(items[1..])
  }

  /** The size formula of `pack_size` for one record. */
  function ItemSize(len: nat): nat {
    2 + len + (if len > 255 then 2 * ((len - 1) / 255) else 0)
  }

  lemma {:induction false} EncodedItemSize(tag: byte, val: seq<byte>)
    ensures |EncodeItem(tag, val)| == ItemSize(|val|)
    decreases |val|
  {
    if |val| > 255 {
      EncodedItemSize(tag, val[255..]);
      assert (|val| - 1) / 255 == (|val| - 255 - 1) / 255 + 1;
    }
  }

  lemma {:induction false} EncodeSnoc(items: seq<Item>, x: Item)
    ensures Encode(items + [x]) == Encode(items) + EncodeItem(x.tag, x.val)
  {
    if items == [] {
      assert [x][1..] == [];
      assert Encode([x]) == EncodeItem(x.tag, x.val) + Encode([]);
    } else {
      EncodeSnoc(items[1..], x);
      assert (items + [x])[1..] == items[1..] + [x];
    }
  }

  // ---------- the parser as a byte-at-a-time machine ----------

  datatype Parser = Parser(items: seq<Item>, tag: byte, left: nat, phase: nat)

  ghost predicate WellPhased(p: Parser) {
    p.phase <= 2 && (p.phase == 2 ==> 0 < p.left <= 255)
  }

  /** What one input byte does in each phase: 0 expects a tag, 1 a length, 2 a value byte. */
  ghost function Step(p: Parser, b: byte): (r: Parser)
    requires WellPhased(p)
    ensures WellPhased(r)
    ensures p.items != [] ==> r.items != []
  {
    if p.phase == 0 then
      p.(tag := b, phase := 1)
    else if p.phase == 1 then
      if b == 0 then p.(items := Add(p.items, p.tag, []), left := 0, phase := 0)
      else p.(left := b, phase := 2)
    else
      p.(items := Add(p.items, p.tag, [b]), left := p.left - 1, phase := if p.left == 1 then 0 else 2)
  }

  ghost function Feed(p: Parser, s: seq<byte>): (r: Parser)
    requires WellPhased(p)
    ensures WellPhased(r)
    ensures p.items != [] ==> r.items != []
    decreases |s|
  {
    if s == [] then p else Feed(Step(p, s[0]), s[1..])
  }

  lemma {:induction false} FeedConcat(p: Parser, a: seq<byte>, b: seq<byte>)
    requires WellPhased(p)
    ensures Feed(p, a + b) == Feed(Feed(p, a), b)
    decreases |a|
  {
    if a == [] {
      assert a + b == b;
    } else {
      assert (a + b)[1..] == a[1..] + b;
      FeedConcat(Step(p, a[0]), a[1..], b);
    }
  }

  lemma AddTwice(items: seq<Item>, tag: byte, v: seq<byte>, w: seq<byte>)
    ensures Add(Add(items, tag, v), tag, w) == Add(items, tag, v + w)
  {
    if items != [] && items[0].tag == tag {
      assert items[0].val + v + w == items[0].val + (v + w);
    }
  }

  /** A run of value bytes is one `add`: the chunk copy of `unpack` equals its bytes one by one. */
  lemma {:induction false} FeedChunk(p: Parser, c: seq<byte>)
    requires WellPhased(p) && p.phase == 2 && 0 < |c| <= p.left
    ensures Feed(p, c) == Parser(Add(p.items, p.tag, c), p.tag, p.left - |c|, if |c| == p.left then 0 else 2)
    decreases |c|
  {
    var q := Step(p, c[0]);
    if |c| == 1 {
      assert c == [c[0]] && c[1..] == [];
      assert Feed(q, []) == q;
    } else {
      FeedChunk(q, c[1..]);
      AddTwice(p.items, p.tag, [c[0]], c[1..]);
      assert [c[0]] + c[1..] == c;
    }
  }

  lemma FeedTwo(p: Parser, a: byte, b: byte)
    requires WellPhased(p)
    ensures Feed(p, [a, b]) == Step(Step(p, a), b)
  {
    assert [a, b][1..] == [b] && [b][1..] == [];
    assert Feed(Step(p, a), [b]) == Feed(Step(Step(p, a), b), []);
  }

  lemma FeedFragment(p: Parser, tag: byte, v: seq<byte>)
    requires WellPhased(p) && p.phase == 0 && |v| <= 255
    ensures Feed(p, [tag, |v|] + v) == Parser(Add(p.items, tag, v), tag, 0, 0)
  {
    FeedConcat(p, [tag, |v|], v);
    FeedTwo(p, tag, |v|);
    if v != [] {
      FeedChunk(Feed(p, [tag, |v|]), v);
    }
  }

  lemma {:induction false} FeedItem(p: Parser, tag: byte, val: seq<byte>)
    requires WellPhased(p) && p.phase == 0
    ensures Feed(p, EncodeItem(tag, val)) == Parser(Add(p.items, tag, val), tag, 0, 0)
    decreases |val|
  {
    if |val| <= 255 {
      FeedFragment(p, tag, val);
    } else {
      var v, w := val[..255], val[255..];
      FeedConcat(p, [tag, 255] + v, EncodeItem(tag, w));
      FeedFragment(p, tag, v);
      FeedItem(Parser(Add(p.items, tag, v), tag, 0, 0), tag, w);
      AddTwice(p.items, tag, v, w);
      assert v + w == val;
    }
  }

  /** Parsing what was printed adds the printed records in order, whatever was there before. */
  lemma {:induction false} FeedEncode(p: Parser, L: seq<Item>)
    requires WellPhased(p) && p.phase == 0
    ensures Feed(p, Encode(L)).items == AddAll(p.items, L)
    ensures Feed(p, Encode(L)).phase == 0
    decreases |L|
  {
    if L != [] {
      FeedConcat(p, EncodeItem(L[0].tag, L[0].val), Encode(L[1..]));
      FeedItem(p, L[0].tag, L[0].val);
      FeedEncode(Feed(p, EncodeItem(L[0].tag, L[0].val)), L[1..]);
    }
  }

  lemma {:induction false} AddAllSeparated(items: seq<Item>, L: seq<Item>)
    requires Separated(L)
    requires items == [] || L == [] || items[0].tag != L[0].tag
    ensures AddAll(items, L) == Reverse(L) + items
    decreases |L|
  {
    if L != [] {
      var n := Add(items, L[0].tag, L[0].val);
      assert n == [L[0]] + items;
      assert Separated(L[1..]) by {
        forall i | 0 <= i < |L[1..]| - 1 ensures L[1..][i].tag != L[1..][i + 1].tag {
          assert L[i + 1].tag != L[i + 2].tag;
        }
      }
      AddAllSeparated(n, L[1..]);
      Regroup(Reverse(L[1..]), [L[0]], items);
    }
  }

  lemma ReverseSeparated(L: seq<Item>)
    requires Separated(L)
    ensures Separated(Reverse(L))
  {
    forall i | 0 <= i < |L| - 1 ensures Reverse(L)[i].tag != Reverse(L)[i + 1].tag {
      ReverseAt(L, i);
      ReverseAt(L, i + 1);
      assert L[|L| - 2 - i].tag != L[|L| - 1 - i].tag;
    }
  }

  /** `Separated` is exactly what a fresh list can become by calls of `add`. */
  lemma BuiltByAdd(items: seq<Item>)
    ensures Separated(items) <==> exists L :: AddAll([], L) == items
  {
    if Separated(items) {
      var L := Reverse(items);
      ReverseTwice(items);
      ReverseSeparated(items);
      AddAllSeparated([], L);
      assert AddAll([], L) == items;
    }
    forall L | AddAll([], L) == items ensures Separated(items) {
      AddAllKeepsSeparated([], L);
    }
  }

  const FRESH := Parser([], 0, 0, 0)

  /** Unpacking the packed bytes into an empty list reverses it, and does so for exactly
      the lists without equal-tag neighbours: all that `add` and `unpack` ever build. */
  lemma RoundTrip(L: seq<Item>)
    ensures Feed(FRESH, Encode(L)).items == Reverse(L) <==> Separated(L)
    ensures Feed(FRESH, Encode(L)).phase == 0
  {
    FeedEncode(FRESH, L);
    if Separated(L) {
      AddAllSeparated([], L);
    } else {
      var i :| 0 <= i < |L| - 1 && L[i].tag == L[i + 1].tag;
      var j := |L| - 2 - i;
      ReverseAt(L, j);
      ReverseAt(L, j + 1);
      assert Reverse(L)[j].tag == Reverse(L)[j + 1].tag;
      assert !Separated(Reverse(L));
      AddAllKeepsSeparated([], L);
    }
  }

  lemma RoundTripTwice(L: seq<Item>)
    requires Separated(L)
    ensures Feed(FRESH, Encode(Feed(FRESH, Encode(L)).items)).items == L
  {
    RoundTrip(L);
    ReverseSeparated(L);
    RoundTrip(Reverse(L));
    ReverseTwice(L);
  }

  /** Two separated lists with the same wire form are the same list. */
  lemma EncodeInjective(L: seq<Item>, M: seq<Item>)
    requires Separated(L) && Separated(M) && Encode(L) == Encode(M)
    ensures L == M
  {
    RoundTrip(L);
    RoundTrip(M);
    ReverseTwice(L);
    ReverseTwice(M);
  }

  // ---------- splitting the input over several `unpack` calls ----------

  /** `unpack` forgets a half-read record when it is called on an empty list. */
  ghost function Reopen(p: Parser): Parser {
    if p.items == [] then p.(phase := 0) else p
  }

  ghost function UnpackCall(p: Parser, s: seq<byte>): (r: Parser)
    requires p.items == [] || WellPhased(p)
    ensures WellPhased(r)
  {
    Feed(Reopen(p), s)
  }

  ghost function UnpackCalls(p: Parser, pieces: seq<seq<byte>>): (r: Parser)
    requires WellPhased(p)
    decreases |pieces|
  {
    if pieces == [] then p else UnpackCalls(UnpackCall(p, pieces[0]), pieces[1..])
  }

  /** After the bytes `a`, the input may be cut for every possible continuation if and only if
      the list is already non-empty or no record is half read. */
  lemma CutIsHarmless(p: Parser, a: seq<byte>)
    requires p.items == [] || WellPhased(p)
    ensures var q := UnpackCall(p, a);
            (forall b: seq<byte> :: UnpackCall(q, b) == UnpackCall(p, a + b))
            <==> (q.items != [] || q.phase == 0)
  {
    var q := UnpackCall(p, a);
    forall b: seq<byte> ensures UnpackCall(p, a + b) == Feed(q, b) {
      FeedConcat(Reopen(p), a, b);
    }
    if q.items == [] && q.phase != 0 {
      // One more byte tells the two apart: the resumed parser is no longer awaiting a length.
      var b := [7];
      assert b[1..] == [];
      assert Feed(Reopen(q), b) == Feed(Step(Reopen(q), 7), []);
      assert Feed(q, b) == Feed(Step(q, 7), []);
      assert UnpackCall(q, b).phase == 1;
      assert UnpackCall(p, a + b).phase != 1;
    }
  }

  lemma {:induction false} CallsOnNonEmpty(p: Parser, pieces: seq<seq<byte>>)
    requires WellPhased(p) && p.items != []
    ensures UnpackCalls(p, pieces) == Feed(p, Flatten(pieces))
    decreases |pieces|
  {
    if pieces != [] {
      FeedConcat(p, pieces[0], Flatten(pieces[1..]));
      CallsOnNonEmpty(Feed(p, pieces[0]), pieces[1..]);
    }
  }

  // ---------- no shorter wire form ----------

  function Fill(n: nat): seq<byte> {
    seq(n, _ => 0)
  }

  lemma SizeOfAdd(items: seq<Item>, tag: byte, v: seq<byte>)
    requires |v| <= 255
    ensures |Encode(items)| + |v| <= |Encode(Add(items, tag, v))| <= |Encode(items)| + 2 + |v|
  {
    EncodedItemSize(tag, v);
    if items != [] {
      EncodedItemSize(tag, items[0].val);
      EncodedItemSize(tag, items[0].val + v);
    }
  }

  lemma SameSize(items: seq<Item>, tag: byte, v: seq<byte>, w: seq<byte>)
    requires |v| == |w|
    ensures |Encode(Add(items, tag, v))| == |Encode(Add(items, tag, w))|
  {
    EncodedItemSize(tag, v);
    EncodedItemSize(tag, w);
    if items != [] {
      EncodedItemSize(tag, items[0].val + v);
      EncodedItemSize(tag, items[0].val + w);
    }
  }

  /** How many input bytes the parser must have seen at least: the printed size of the list, with
      the record in progress finished at no cost but its own bytes. */
  ghost function Bound(p: Parser): int
    requires WellPhased(p)
  {
    if p.phase < 2 then |Encode(p.items)| + p.phase
    else |Encode(Add(p.items, p.tag, Fill(p.left)))| - p.left
  }

  lemma StepBound(p: Parser, b: byte)
    requires WellPhased(p)
    ensures Bound(Step(p, b)) <= Bound(p) + 1
  {
    hide Encode;
    if p.phase == 1 {
      SizeOfAdd(p.items, p.tag, Fill(b));
      SameSize(p.items, p.tag, Fill(b), if b == 0 then [] else Fill(b));
    } else if p.phase == 2 {
      var rest := Fill(p.left - 1);
      AddTwice(p.items, p.tag, [b], rest);
      SameSize(p.items, p.tag, [b] + rest, Fill(p.left));
      assert p.left == 1 ==> [b] + rest == [b];
    }
  }

  lemma {:induction false} FeedBound(p: Parser, s: seq<byte>)
    requires WellPhased(p)
    ensures |Encode(Feed(p, s).items)| <= Bound(Feed(p, s)) <= Bound(p) + |s|
    decreases |s|
  {
    hide Encode;
    if s != [] {
      StepBound(p, s[0]);
      FeedBound(Step(p, s[0]), s[1..]);
    } else if p.phase == 2 {
      SizeOfAdd(p.items, p.tag, Fill(p.left));
    }
  }

  lemma {:induction false} CallsBound(p: Parser, pieces: seq<seq<byte>>)
    requires WellPhased(p)
    ensures |Encode(UnpackCalls(p, pieces).items)| <= Bound(p) + |Flatten(pieces)|
    ensures p.items == [] ==> |Encode(UnpackCalls(p, pieces).items)| <= |Flatten(pieces)|
    decreases |pieces|
  {
    hide Encode, Feed;
    FeedBound(p, []);
    assert Feed(p, []) == p by { FeedNothing(p); }
    assert Encode([]) == [] by { EncodeNothing(); }
    if pieces != [] {
      FeedBound(Reopen(p), pieces[0]);
      CallsBound(UnpackCall(p, pieces[0]), pieces[1..]);
    }
  }

  lemma FeedNothing(p: Parser)
    requires WellPhased(p)
    ensures Feed(p, []) == p
  {
  }

  lemma EncodeNothing()
    ensures Encode([]) == []
  {
  }

  lemma {:induction false} EncodeReverse(L: seq<Item>)
    ensures |Encode(Reverse(L))| == |Encode(L)|
  {
    if L != [] {
      EncodeReverse(L[1..]);
      EncodeSnoc(Reverse(L[1..]), L[0]);
    }
  }

  /** The printed form of a list is the shortest of all the inputs that are read as that list. */
  lemma ShortestForm(L: seq<Item>, s: seq<byte>)
    requires Separated(L) && Feed(FRESH, s).items == Feed(FRESH, Encode(L)).items
    ensures |Encode(L)| <= |s|
  {
    hide Feed, Encode;
    RoundTrip(L);
    EncodeReverse(L);
    FeedBound(FRESH, s);
    EncodeNothing();
  }

  // ---------- the round trip in pieces ----------

  /** The first piece that is not empty holds the first record's header and, unless the record is
      empty, a byte of its value. */
  ghost predicate OpensWhole(pieces: seq<seq<byte>>) {
    pieces != [] ==>
      if pieces[0] == [] then OpensWhole(pieces[1..])
      else |pieces[0]| >= 3 || (|pieces[0]| == 2 && pieces[0][1] == 0)
  }

  /** Such a piece stores something, any other leaves the list empty inside a record. */
  lemma OpeningPiece(s: seq<byte>)
    requires s != []
    ensures var q := Feed(FRESH, s);
            if |s| >= 3 || (|s| == 2 && s[1] == 0) then q.items != [] else q.items == [] && q.phase != 0
  {
    var q := Step(FRESH, s[0]);
    assert Feed(FRESH, s) == Feed(q, s[1..]);
    if |s| == 1 {
      FeedNothing(q);
    } else {
      var r := Step(q, s[1]);
      assert s[1..][1..] == s[2..];
      assert Feed(q, s[1..]) == Feed(r, s[2..]);
      if |s| == 2 {
        FeedNothing(r);
      } else {
        assert s[2..][1..] == s[3..];
        assert Feed(r, s[2..]) == Feed(Step(r, s[2]), s[3..]);
      }
    }
  }

  /** Main result: the packed bytes, cut into any pieces, give back the list if and only if the
      cutting spares the opening of the first record. */
  lemma {:induction false} RoundTripInPieces(L: seq<Item>, pieces: seq<seq<byte>>)
    requires Separated(L) && Flatten(pieces) == Encode(L)
    ensures UnpackCalls(FRESH, pieces).items == Reverse(L) <==> OpensWhole(pieces)
    decreases |pieces|
  {
    hide Encode, Feed;
    EncodeReverse(L);
    if pieces == [] {
      RoundTrip(L);
      FeedNothing(FRESH);
    } else if pieces[0] == [] {
      FeedNothing(FRESH);
      assert Flatten(pieces) == Flatten(pieces[1..]);
      RoundTripInPieces(L, pieces[1..]);
    } else {
      var q := UnpackCall(FRESH, pieces[0]);
      OpeningPiece(pieces[0]);
      if q.items != [] {
        CallsOnNonEmpty(q, pieces[1..]);
        FeedConcat(FRESH, pieces[0], Flatten(pieces[1..]));
        RoundTrip(L);
      } else {
        CallsBound(q, pieces[1..]);
      }
    }
  }

  /** Cutting after the first tag loses it: the list [5 -> 01] is not recovered. */
  lemma CutAfterTagFails()
    ensures var L := [Item(5, [1])]; var e := Encode(L);
            UnpackCalls(FRESH, [e[..1], e[1..]]).items != Reverse(L)
  {
    var e := Encode([Item(5, [1])]);
    assert e == [5, 1, 1];
    var q := UnpackCall(FRESH, e[..1]);
    assert e[..1] == [5] && e[..1][1..] == [];
    assert Feed(FRESH, [5]) == Feed(Step(FRESH, 5), []);
    assert q == Parser([], 5, 0, 1);
    var t := e[1..];
    assert t == [1, 1] && t[1..] == [1] && t[1..][1..] == [];
    var q1 := Step(Reopen(q), 1);
    var q2 := Step(q1, 1);
    assert Feed(Reopen(q), t) == Feed(q1, t[1..]) == Feed(q2, []);
    assert UnpackCall(q, t).items == [];
    var pieces := [e[..1], t];
    var rest := pieces[1..];
    assert rest == [t] && |rest[1..]| == 0;
    assert UnpackCalls(FRESH, pieces) == UnpackCalls(q, [t]) == UnpackCalls(UnpackCall(q, t), []);
  }

  // ---------- the resumable printer's cursor ----------

  /** `off` is currentPackBuf relative to the value's start; endPackBuf is the value's end. */
  datatype Cursor = Cursor(it: nat, end: nat, off: nat, len: nat, phase: nat)

  ghost predicate CursorOk(items: seq<Item>, c: Cursor) {
    c.it <= c.end <= |items| && c.phase <= 3 &&
    (c.it < c.end && c.phase > 0 ==> c.off <= |items[c.it].val|) &&
    (c.it < c.end && c.phase == 3 ==> c.len <= 255 && c.off + c.len <= |items[c.it].val|)
  }

  /** The bytes `pack` still has to emit. */
  ghost function Remaining(items: seq<Item>, c: Cursor): seq<byte>
    requires CursorOk(items, c)
  {
    if c.it == c.end then []
    else OfRecord(items[c.it], c.off, c.len, c.phase) + Encode(items[c.it + 1..c.end])
  }

  ghost function OfRecord(x: Item, off: nat, len: nat, phase: nat): seq<byte>
    requires phase > 0 ==> off <= |x.val|
    requires phase > 2 ==> off + len <= |x.val|
  {
    if phase == 0 then EncodeItem(x.tag, x.val)
    else if phase == 1 then EncodeItem(x.tag, x.val[off..])
    else if phase == 2 then EncodeItem(x.tag, x.val[off..])[1..]
    else x.val[off..off + len] + AfterFragment(x, off + len)
  }

  ghost function AfterFragment(x: Item, off: nat): seq<byte>
    requires off <= |x.val|
  {
    if off == |x.val| then [] else EncodeItem(x.tag, x.val[off..])
  }

  lemma AfterFragmentIs(x: Item, off: nat)
    requires off <= |x.val|
    ensures AfterFragment(x, off) == if off == |x.val| then [] else EncodeItem(x.tag, x.val[off..])
  {
  }

  lemma RemainingAtStart(items: seq<Item>, c: Cursor)
    requires CursorOk(items, c) && c.phase == 0
    ensures Remaining(items, c) == Encode(items[c.it..c.end])
  {
    if c.it < c.end {
      assert items[c.it..c.end][1..] == items[c.it + 1..c.end];
    }
  }

  /** Phase 2 writes the fragment's length and leaves the fragment and what follows it. */
  lemma LengthThenFragment(x: Item, off: nat)
    requires off <= |x.val|
    ensures var n := Min(|x.val| - off, 255);
            EncodeItem(x.tag, x.val[off..])[1..]
            == [n] + (x.val[off..off + n] + AfterFragment(x, off + n))
  {
    var v := x.val[off..];
    if |v| <= 255 {
      assert x.val[off..off + |v|] == v;
      assert EncodeItem(x.tag, v)[1..] == [|v|] + v;
    } else {
      assert v[..255] == x.val[off..off + 255];
      assert v[255..] == x.val[off + 255..];
      assert EncodeItem(x.tag, v)[1..] == [255] + (v[..255] + EncodeItem(x.tag, v[255..]));
    }
  }

  lemma FirstFragment(x: Item, off: nat)
    requires off <= |x.val|
    ensures var n := Min(|x.val| - off, 255);
            EncodeItem(x.tag, x.val[off..])
            == ([x.tag, n] + x.val[off..off + n]) + AfterFragment(x, off + n)
  {
    var e := EncodeItem(x.tag, x.val[off..]);
    assert e == [e[0]] + e[1..];
    LengthThenFragment(x, off);
  }

  // What one turn of the `pack` loop does to the bytes still to be emitted.

  lemma PackLoad(items: seq<Item>, c: Cursor)
    requires CursorOk(items, c) && c.it < c.end && c.phase == 0
    ensures Remaining(items, c) == Remaining(items, c.(off := 0, phase := 1))
  {
    assert items[c.it].val[0..] == items[c.it].val;
  }

  lemma PackTag(items: seq<Item>, c: Cursor)
    requires CursorOk(items, c) && c.it < c.end && c.phase == 1
    ensures Remaining(items, c) == [items[c.it].tag] + Remaining(items, c.(phase := 2))
  {
    hide EncodeItem, Encode;
    var x := items[c.it];
    var e := EncodeItem(x.tag, x.val[c.off..]);
    assert e == [x.tag] + OfRecord(x, c.off, c.len, 2);
    Regroup([x.tag], OfRecord(x, c.off, c.len, 2), Encode(items[c.it + 1..c.end]));
  }

  lemma PackLength(items: seq<Item>, c: Cursor)
    requires CursorOk(items, c) && c.it < c.end && c.phase == 2
    ensures var n := Min(|items[c.it].val| - c.off, 255);
            Remaining(items, c) == [n] + Remaining(items, c.(len := n, phase := 3))
  {
    hide EncodeItem, Encode, AfterFragment;
    var x := items[c.it];
    var n := Min(|x.val| - c.off, 255);
    LengthThenFragment(x, c.off);
    assert OfRecord(x, c.off, c.len, 2) == [n] + OfRecord(x, c.off, n, 3);
    Regroup([n], OfRecord(x, c.off, n, 3), Encode(items[c.it + 1..c.end]));
  }

  lemma PackFragmentDone(items: seq<Item>, c: Cursor)
    requires CursorOk(items, c) && c.it < c.end && c.phase == 3 && c.len == 0
    ensures c.off == |items[c.it].val| ==>
              CursorOk(items, c.(it := c.it + 1, phase := 0)) &&
              Remaining(items, c) == Remaining(items, c.(it := c.it + 1, phase := 0))
    ensures c.off < |items[c.it].val| ==> Remaining(items, c) == Remaining(items, c.(phase := 1))
  {
    hide EncodeItem, Encode;
    var x := items[c.it];
    assert x.val[c.off..c.off + 0] == [];
    if c.off == |x.val| {
      RemainingAtStart(items, c.(it := c.it + 1, phase := 0));
    }
  }

  lemma PackCopy(items: seq<Item>, c: Cursor, k: nat)
    requires CursorOk(items, c) && c.it < c.end && c.phase == 3 && k <= c.len
    ensures Remaining(items, c)
            == items[c.it].val[c.off..c.off + k] + Remaining(items, c.(off := c.off + k, len := c.len - k))
  {
    hide EncodeItem, Encode, AfterFragment;
    var x := items[c.it];
    var piece, rest := x.val[c.off..c.off + k], x.val[c.off + k..c.off + c.len];
    assert x.val[c.off..c.off + c.len] == piece + rest;
    var after, tail := AfterFragment(x, c.off + c.len), Encode(items[c.it + 1..c.end]);
    Regroup(piece, rest, after);
    Regroup(piece, rest + after, tail);
  }

  lemma NothingRemains(items: seq<Item>, c: Cursor)
    requires CursorOk(items, c)
    ensures c.it == c.end ==> Remaining(items, c) == []
  {
  }

  /** Phases that write nothing are followed, in finitely many turns, by one that does. */
  ghost function Rank(phase: nat): nat {
    if phase == 0 then 2 else if phase == 3 then 1 else 0
  }

  class Tlv {
    var items: seq<Item>

    var currentPackIt: nat
    var endPackIt: nat
    var currentPackBuf: nat
    var endPackBuf: nat
    var currentPackPhase: nat
    var currentPackLen: nat

    var unpackTag: byte
    var unpackBytes: nat
    var unpackPhase: nat

    ghost predicate Valid()
      reads this
    {
      Separated(items)
    }

    ghost function Abs(): Parser
      reads this
    {
      Parser(items, unpackTag, unpackBytes, unpackPhase)
    }

    ghost function Cur(): Cursor
      reads this
    {
      Cursor(currentPackIt, endPackIt, currentPackBuf, currentPackLen, currentPackPhase)
    }

    /** The cursor points into the present list: true from PackInit until the list changes. */
    ghost predicate Packing()
      reads this
    {
      CursorOk(items, Cur()) &&
      (currentPackIt < endPackIt && currentPackPhase > 0 ==> endPackBuf == |items[currentPackIt].val|)
    }

    ghost function Unsent(): seq<byte>
      requires Packing()
      reads this
    {
      Remaining(items, Cur())
    }

    constructor ()
      ensures Valid() && items == []
    {
      items := [];
    }

    /** `add`. */
    method AddRecord(tag: byte, val: seq<byte>)
      requires Valid()
      modifies this`items
      ensures Valid() && items == Add(old(items), tag, val)
    {
      AddKeepsSeparated(items, tag, val);
      if items != [] && items[0].tag == tag {
        items := [items[0].(val := items[0].val + val)] + items[1..];
      } else {
        items := [Item(tag, val)] + items;
      }
    }

    /** `find`: the first record with this tag in the range, or the end of the list. */
    method Find(tag: byte, it1: nat, it2: nat) returns (it: nat)
      requires it1 <= it2 <= |items|
      ensures (it1 <= it < it2 && items[it].tag == tag && forall k :: it1 <= k < it ==> items[k].tag != tag)
           || (it == |items| && forall k :: it1 <= k < it2 ==> items[k].tag != tag)
    {
      it := it1;
      while it != it2 && items[it].tag != tag
        invariant it1 <= it <= it2
        invariant forall k :: it1 <= k < it ==> items[k].tag != tag
        decreases it2 - it
      {
        it := it + 1;
      }
      if it == it2 {
        it := |items|;
      }
    }

    method PackSize(it1: nat, it2: nat) returns (nBytes: nat)
      requires it1 <= it2 <= |items|
      ensures nBytes == |Encode(items[it1..it2])|
    {
      nBytes := 0;
      var it := it1;
      while it != it2
        invariant it1 <= it <= it2
        invariant nBytes == |Encode(items[it1..it])|
        decreases it2 - it
      {
        EncodedItemSize(items[it].tag, items[it].val);
        EncodeSnoc(items[it1..it], items[it]);
        assert items[it1..it] + [items[it]] == items[it1..it + 1];
        nBytes := nBytes + 2 + |items[it].val|;
        if |items[it].val| > 255 {
          nBytes := nBytes + 2 * ((|items[it].val| - 1) / 255);
        }
        it := it + 1;
      }
    }

    /** `tlv_t::osprint` and `TLV::osprint`: the bytes written to the stream. */
    method OsPrint(it1: nat, it2: nat) returns (os: seq<byte>)
      requires it1 <= it2 <= |items|
      ensures os == Encode(items[it1..it2])
    {
      os := [];
      var it := it1;
      while it != it2
        invariant it1 <= it <= it2
        invariant os == Encode(items[it1..it])
        decreases it2 - it
      {
        EncodeSnoc(items[it1..it], items[it]);
        assert items[it1..it] + [items[it]] == items[it1..it + 1];
        var record := OsPrintItem(items[it]);
        os := os + record;
        it := it + 1;
      }
    }

    static method OsPrintItem(x: Item) returns (os: seq<byte>)
      ensures os == EncodeItem(x.tag, x.val)
    {
      hide EncodeItem, AfterFragment;
      os := [];
      var p := 0;
      var done := false;
      assert x.val[0..] == x.val;
      while !done
        invariant p <= |x.val|
        invariant !done ==> os + EncodeItem(x.tag, x.val[p..]) == EncodeItem(x.tag, x.val)
        invariant done ==> os == EncodeItem(x.tag, x.val)
        invariant !done && p > 0 ==> p < |x.val|
        decreases |x.val| - p, !done
      {
        FirstFragment(x, p);
        AfterFragmentIs(x, Min(|x.val|, p + 255));
        var nBytes := if |x.val| - p > 255 then 255 else |x.val| - p;
        Regroup(os, [x.tag, nBytes] + x.val[p..p + nBytes], AfterFragment(x, p + nBytes));
        os := os + ([x.tag, nBytes] + x.val[p..p + nBytes]);
        assert os + [] == os;
        p := p + nBytes;
        done := !(p < |x.val|);
      }
    }

    method PackInit(it1: nat, it2: nat)
      requires it1 <= it2 <= |items|
      modifies this`currentPackIt, this`endPackIt, this`currentPackPhase
      ensures Packing() && Unsent() == Encode(items[it1..it2])
    {
      currentPackIt, endPackIt, currentPackPhase := it1, it2, 0;
      RemainingAtStart(items, Cur());
    }

    /** One turn of the `switch` inside `pack`, at output position nBytes. */
    method PackPhase(buf: array<byte>, bufSize: nat, nBytes: nat) returns (n: nat)
      requires Packing() && nBytes < bufSize <= buf.Length && currentPackIt != endPackIt
      modifies this`currentPackIt, this`currentPackBuf, this`endPackBuf, this`currentPackLen,
               this`currentPackPhase, buf
      ensures Packing() && nBytes <= n <= bufSize
      ensures old(Unsent()) == buf[nBytes..n] + Unsent()
      ensures buf[..nBytes] == old(buf[..nBytes]) && buf[n..] == old(buf[..])[n..]
      ensures n == nBytes ==>
                old(endPackIt - currentPackIt) > endPackIt - currentPackIt ||
                (old(endPackIt - currentPackIt) == endPackIt - currentPackIt &&
                 Rank(old(currentPackPhase)) > Rank(currentPackPhase))
    {
      hide Remaining;
      n := nBytes;
      ghost var c := Cur();
      var x := items[currentPackIt];
      if currentPackPhase == 0 {
        PackLoad(items, c);
        currentPackBuf := 0;
        endPackBuf := |x.val|;
        currentPackPhase := 1;
      } else if currentPackPhase == 1 {
        PackTag(items, c);
        buf[n] := x.tag;
        n := n + 1;
        currentPackPhase := 2;
      } else if currentPackPhase == 2 {
        PackLength(items, c);
        currentPackLen := endPackBuf - currentPackBuf;
        if currentPackLen > 255 {
          currentPackLen := 255;
        }
        buf[n] := currentPackLen;
        n := n + 1;
        currentPackPhase := 3;
      } else if currentPackLen == 0 {
        PackFragmentDone(items, c);
        if endPackBuf == currentPackBuf {
          currentPackIt := currentPackIt + 1;
          currentPackPhase := 0;
        } else {
          currentPackPhase := 1;
        }
      } else {
        n := CopyValue(buf, bufSize, n);
      }
    }

    /** The copying part of phase 3: as much of the fragment as the buffer takes. */
    method CopyValue(buf: array<byte>, bufSize: nat, nBytes: nat) returns (n: nat)
      requires Packing() && nBytes < bufSize <= buf.Length && currentPackIt != endPackIt
      requires currentPackPhase == 3 && currentPackLen > 0
      modifies this`currentPackBuf, this`currentPackLen, buf
      ensures Packing() && nBytes < n <= bufSize
      ensures old(Unsent()) == buf[nBytes..n] + Unsent()
      ensures buf[..nBytes] == old(buf[..nBytes]) && buf[n..] == old(buf[..])[n..]
    {
      hide Remaining;
      ghost var was := buf[..];
      var x := items[currentPackIt];
      var copyBytes := if currentPackLen < bufSize - nBytes then currentPackLen else bufSize - nBytes;
      PackCopy(items, Cur(), copyBytes);
      forall k | 0 <= k < copyBytes {
        buf[nBytes + k] := x.val[currentPackBuf + k];
      }
      n := nBytes + copyBytes;
      assert buf[nBytes..n] == x.val[currentPackBuf..currentPackBuf + copyBytes];
      assert forall k :: 0 <= k < |was| && !(nBytes <= k < n) ==> buf[k] == was[k];
      assert buf[..nBytes] == was[..nBytes] && buf[n..] == was[n..];
      currentPackBuf := currentPackBuf + copyBytes;
      currentPackLen := currentPackLen - copyBytes;
    }

    /** One `pack` call emits the next piece of the encoding, as much as the buffer takes. */
    method Pack(buf: array<byte>, bufSize: nat) returns (nBytes: nat)
      requires Packing() && bufSize <= buf.Length
      modifies this`currentPackIt, this`currentPackBuf, this`endPackBuf, this`currentPackLen,
               this`currentPackPhase, buf
      ensures Packing()
      ensures nBytes == Min(bufSize, |old(Unsent())|)
      ensures buf[..nBytes] == old(Unsent())[..nBytes]
      ensures Unsent() == old(Unsent())[nBytes..]
      ensures buf[nBytes..] == old(buf[..])[nBytes..]
    {
      hide Remaining;
      ghost var all := Unsent();
      ghost var was := buf[..];
      nBytes := 0;
      assert buf[..0] == [] && [] + all == all;
      while nBytes < bufSize && currentPackIt != endPackIt
        invariant nBytes <= bufSize
        invariant Packing()
        invariant all == buf[..nBytes] + Unsent()
        invariant buf[nBytes..] == was[nBytes..]
        decreases bufSize - nBytes, endPackIt - currentPackIt, Rank(currentPackPhase)
      {
        ghost var at, out := nBytes, buf[..nBytes];
        nBytes := PackPhase(buf, bufSize, nBytes);
        Regroup(out, buf[at..nBytes], Unsent());
        assert buf[..nBytes] == out + buf[at..nBytes];
        assert buf[nBytes..] == was[nBytes..];
      }
      NothingRemains(items, Cur());
      assert all[..nBytes] == buf[..nBytes] && all[nBytes..] == Unsent();
    }

    /** The one-shot `pack(buf)` of TLV8.h. */
    method PackWhole(buf: array<byte>) returns (nBytes: nat)
      requires |Encode(items)| <= buf.Length
      modifies this`currentPackIt, this`endPackIt, this`currentPackBuf, this`endPackBuf,
               this`currentPackLen, this`currentPackPhase, buf
      ensures Packing() && Unsent() == []
      ensures nBytes == |Encode(items)| && buf[..nBytes] == Encode(items)
    {
      ghost var all := Encode(items);
      PackInit(0, |items|);
      assert items[0..|items|] == items;
      var size := PackSize(0, |items|);
      nBytes := Pack(buf, size);
    }

    /** Any sequence of buffer sizes: the pieces are consecutive parts of the one encoding. */
    method PackInPieces(sizes: seq<nat>) returns (pieces: seq<seq<byte>>)
      requires Packing()
      modifies this`currentPackIt, this`currentPackBuf, this`endPackBuf, this`currentPackLen,
               this`currentPackPhase
      ensures Packing()
      ensures |pieces| == |sizes| && forall i :: 0 <= i < |sizes| ==> |pieces[i]| <= sizes[i]
      ensures Flatten(pieces) + Unsent() == old(Unsent())
      ensures forall i :: 0 <= i < |sizes| && |pieces[i]| < sizes[i] ==> Unsent() == []
    {
      hide Remaining;
      pieces := [];
      var i := 0;
      while i < |sizes|
        invariant i <= |sizes| && Packing()
        invariant |pieces| == i && forall k :: 0 <= k < i ==> |pieces[k]| <= sizes[k]
        invariant Flatten(pieces) + Unsent() == old(Unsent())
        invariant forall k :: 0 <= k < i && |pieces[k]| < sizes[k] ==> Unsent() == []
      {
        var buf := new byte[sizes[i]];
        ghost var before := Unsent();
        var n := Pack(buf, sizes[i]);
        ghost var piece := buf[..n];
        assert before == piece + Unsent();
        FlattenSnoc(pieces, piece);
        Regroup(Flatten(pieces), piece, Unsent());
        pieces := pieces + [buf[..n]];
        i := i + 1;
      }
    }

    /** One `unpack` call (without BER lengths): the byte-at-a-time machine over the buffer. */
    method Unpack(buf: array<byte>, bufSize: nat)
      requires Valid() && bufSize <= buf.Length
      // unpackPhase is first assigned by an unpack into an empty list.
      requires items == [] || WellPhased(Abs())
      modifies this`items, this`unpackTag, this`unpackBytes, this`unpackPhase
      ensures Valid() && WellPhased(Abs())
      ensures Abs() == UnpackCall(old(Abs()), buf[..bufSize])
    {
      if items == [] {
        unpackPhase := 0;
      }
      ghost var start := Abs();
      var i := 0;
      assert buf[..0] == [];
      while i < bufSize
        invariant i <= bufSize
        invariant WellPhased(Abs()) && Separated(items)
        invariant Abs() == Feed(start, buf[..i])
      {
        if unpackPhase == 0 {
          FeedNext(start, buf[..], i);
          unpackTag := buf[i];
          i := i + 1;
          unpackPhase := 1;
        } else if unpackPhase == 1 {
          FeedNext(start, buf[..], i);
          unpackBytes := buf[i];
          i := i + 1;
          if unpackBytes == 0 {
            AddRecord(unpackTag, []);
            unpackPhase := 0;
          } else {
            unpackPhase := 2;
          }
        } else {
          var copyBytes := if unpackBytes < bufSize - i then unpackBytes else bufSize - i;
          FeedNextChunk(start, buf[..], i, copyBytes);
          AddRecord(unpackTag, buf[i..i + copyBytes]);
          i := i + copyBytes;
          unpackBytes := unpackBytes - copyBytes;
          if unpackBytes == 0 {
            unpackPhase := 0;
          }
        }
      }
    }
  }

  lemma FeedNext(p: Parser, s: seq<byte>, i: nat)
    requires WellPhased(p) && i < |s|
    ensures Feed(p, s[..i + 1]) == Step(Feed(p, s[..i]), s[i])
  {
    hide Feed, Step;
    assert s[..i] + [s[i]] == s[..i + 1];
    FeedOne(p, s[..i], s[i]);
  }

  lemma FeedNextChunk(p: Parser, s: seq<byte>, i: nat, n: nat)
    requires WellPhased(p) && 0 < n && i + n <= |s|
    requires Feed(p, s[..i]).phase == 2 && n <= Feed(p, s[..i]).left
    ensures var q := Feed(p, s[..i]);
            Feed(p, s[..i + n])
            == Parser(Add(q.items, q.tag, s[i..i + n]), q.tag, q.left - n, if n == q.left then 0 else 2)
  {
    hide Feed, Add;
    var a, c := s[..i], s[i..i + n];
    assert a + c == s[..i + n];
    FeedConcat(p, a, c);
    FeedChunk(Feed(p, a), c);
  }

  lemma FeedOne(p: Parser, a: seq<byte>, b: byte)
    requires WellPhased(p)
    ensures Feed(p, a + [b]) == Step(Feed(p, a), b)
  {
    FeedConcat(p, a, [b]);
    assert [b][1..] == [];
    assert Feed(Feed(p, a), [b]) == Feed(Step(Feed(p, a), b), []);
  }
}
