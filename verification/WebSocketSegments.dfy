/** Which TCP segmentations of a stream of frames the WebSocket receiver stands, and what it then delivers. */
module WebSocketSegments {
  import opened Bytes
  import opened WebSocketFrames
  import opened WebSocketReceiver

  /** Data frames whose lengths fit size_t: what the receiver is meant for. */
  ghost predicate DataFrames(xs: seq<Sent>) {
    AllOk(xs) && forall i :: 0 <= i < |xs| ==> DataHead(HeadOf(xs[i].frame))
  }

  function HeaderSize(x: Sent): nat
    requires SentOk(x)
  {
    |Header(x.frame, x.form)|
  }

  function FrameSize(x: Sent): (n: nat)
    requires SentOk(x)
    ensures n == |EncodeFrame(x.frame, x.form)| == HeaderSize(x) + |x.frame.payload|
    ensures HeaderSize(x) >= 2
  {
    HeaderSize(x) + |x.frame.payload|
  }

  /** The place c of the stream lies strictly inside the header of some frame. */
  predicate InHeader(xs: seq<Sent>, c: nat)
    requires AllOk(xs)
    decreases |xs|
  {
    xs != [] &&
    (0 < c < HeaderSize(xs[0]) || (c >= FrameSize(xs[0]) && InHeader(xs[1..], c - FrameSize(xs[0]))))
  }

  /** No border between the pieces, counted from the place `at` of the stream, cuts a header. */
  ghost predicate CutsSpare(xs: seq<Sent>, at: nat, pieces: seq<seq<byte>>)
    requires AllOk(xs)
  {
    forall k :: 0 <= k <= |pieces| ==> !InHeader(xs, at + |Flatten(pieces[..k])|)
  }

  lemma CutsStep(xs: seq<Sent>, at: nat, pieces: seq<seq<byte>>)
    requires AllOk(xs)
    ensures CutsSpare(xs, at, pieces) <==>
            !InHeader(xs, at) && (pieces != [] ==> CutsSpare(xs, at + |pieces[0]|, pieces[1..]))
  {
    hide InHeader;
    assert pieces[..0] == [];
    if pieces != [] {
      var rest, next := pieces[1..], at + |pieces[0]|;
      forall k | 0 <= k <= |rest| ensures at + |Flatten(pieces[..k + 1])| == next + |Flatten(rest[..k])| {
        assert pieces[..k + 1][1..] == rest[..k];
      }
      if CutsSpare(xs, at, pieces) {
        forall k | 0 <= k <= |rest| ensures !InHeader(xs, next + |Flatten(rest[..k])|) {
          assert !InHeader(xs, at + |Flatten(pieces[..k + 1])|);
        }
      }
      if !InHeader(xs, at) && CutsSpare(xs, next, rest) {
        forall k | 0 <= k <= |pieces| ensures !InHeader(xs, at + |Flatten(pieces[..k])|) {
          if k > 0 {
            assert !InHeader(xs, next + |Flatten(rest[..k - 1])|);
          }
        }
      }
    }
  }

  lemma {:induction false} EncodeSplit(xs: seq<Sent>, k: nat)
    requires AllOk(xs) && k <= |xs|
    ensures EncodeAll(xs) == EncodeAll(xs[..k]) + EncodeAll(xs[k..])
    decreases k
  {
    hide EncodeFrame;
    if k == 0 {
      assert xs[..0] == [] && xs[0..] == xs;
    } else {
      EncodeSplit(xs[1..], k - 1);
      assert xs[..k][1..] == xs[1..][..k - 1] && xs[k..] == xs[1..][k - 1..];
      Regroup(EncodeFrame(xs[0].frame, xs[0].form), EncodeAll(xs[1..][..k - 1]), EncodeAll(xs[k..]));
    }
  }

  /** Whole frames before a place do not matter for it. */
  lemma {:induction false} InHeaderSkip(xs: seq<Sent>, k: nat, n: nat)
    requires AllOk(xs) && k <= |xs|
    ensures InHeader(xs, |EncodeAll(xs[..k])| + n) <==> InHeader(xs[k..], n)
    decreases k
  {
    hide EncodeFrame, Header;
    if k == 0 {
      assert xs[..0] == [] && xs[0..] == xs;
    } else {
      assert xs[..k][0] == xs[0] && xs[..k][1..] == xs[1..][..k - 1] && xs[k..] == xs[1..][k - 1..];
      assert |EncodeAll(xs[..k])| == FrameSize(xs[0]) + |EncodeAll(xs[1..][..k - 1])|;
      InHeaderSkip(xs[1..], k - 1, n);
    }
  }

  /** How much of the stream the receiver has seen. */
  ghost function Passed(rx: Rx, xs: seq<Sent>): int
    requires OnTrack(rx, xs)
  {
    |EncodeAll(xs)| - |ToCome(rx, xs)|
  }

  lemma PassedIdle(rx: Rx, xs: seq<Sent>)
    requires OnTrack(rx, xs) && !rx.busy
    ensures Passed(rx, xs) == |EncodeAll(xs[..rx.frames])|
  {
    EncodeSplit(xs, rx.frames);
  }

  lemma PassedBusy(rx: Rx, xs: seq<Sent>)
    requires OnTrack(rx, xs) && rx.busy
    ensures rx.frames > 0 && rx.index <= |xs[rx.frames - 1].frame.payload|
    ensures Passed(rx, xs) == |EncodeAll(xs[..rx.frames - 1])| + HeaderSize(xs[rx.frames - 1]) + rx.index
  {
    hide Log, Header;
    var k := rx.frames - 1;
    EncodeSplit(xs, k);
    assert xs[k..][1..] == xs[k + 1..] && xs[k..][0] == xs[k];
    assert |WirePayload(xs[k].frame)[rx.index..]| == |xs[k].frame.payload| - rx.index;
    assert FrameSize(xs[k]) == |EncodeFrame(xs[k].frame, xs[k].form)|;
  }

  /** Between two turns the receiver stands inside no header. */
  lemma NotInHeader(rx: Rx, xs: seq<Sent>)
    requires OnTrack(rx, xs) && (rx.busy ==> rx.index < rx.head.len)
    ensures Passed(rx, xs) >= 0 && !InHeader(xs, Passed(rx, xs))
  {
    hide Header, Log, EncodeAll, EncodeFrame;
    if rx.busy {
      var k := rx.frames - 1;
      PassedBusy(rx, xs);
      InHeaderSkip(xs, k, HeaderSize(xs[k]) + rx.index);
      assert xs[k..][0] == xs[k] && rx.head.len == |xs[k].frame.payload|;
    } else {
      PassedIdle(rx, xs);
      InHeaderSkip(xs, rx.frames, 0);
    }
  }

  /** At the start of a frame, the segment has the header whole exactly when it is long enough. */
  lemma HeaderWholeExactly(rx: Rx, xs: seq<Sent>, s: seq<byte>)
    requires OnTrack(rx, xs) && !rx.busy && s != [] && s <= ToCome(rx, xs)
    ensures rx.frames < |xs| && (HeaderWhole(s) <==> |s| >= HeaderSize(xs[rx.frames]))
    ensures HeaderWhole(s) ==> ReadHead(s) == HeadOf(xs[rx.frames].frame)
  {
    hide Log, HeaderWhole, HeaderLength, ReadHead, Header, WirePayload;
    assert ToCome(rx, xs) == EncodeAll(xs[rx.frames..]);
    var x, h := xs[rx.frames], Header(xs[rx.frames].frame, xs[rx.frames].form);
    if HeaderWhole(s) {
      BeginOnTrack(rx, xs, s);
      HeaderFits(s);
    }
    if |s| >= |h| {
      assert xs[rx.frames..][0] == x;
      FirstBytes(xs[rx.frames..], s);
      HeaderRoundTrip(x.frame, x.form, s[|h|..]);
    }
  }

  lemma FirstBytes(xs: seq<Sent>, s: seq<byte>)
    requires AllOk(xs) && xs != [] && s <= EncodeAll(xs) && |s| >= HeaderSize(xs[0])
    ensures s == Header(xs[0].frame, xs[0].form) + s[HeaderSize(xs[0])..]
  {
    hide Header, WirePayload;
    var h := Header(xs[0].frame, xs[0].form);
    assert EncodeAll(xs)[..|h|] == h;
  }

  lemma HeaderFits(s: seq<byte>)
    requires HeaderWhole(s)
    ensures HeaderLength(s) <= |s|
  {
  }

  lemma TurnAccepted(rx: Rx, xs: seq<Sent>, s: seq<byte>)
    requires OnTrack(rx, xs) && s <= ToCome(rx, xs) && DataFrames(xs) && s != []
    requires rx.busy ==> rx.index < rx.head.len
    ensures TurnOk(rx, s) <==> rx.busy || HeaderWhole(s)
  {
    hide Log, HeaderWhole, HeaderLength, ReadHead, Header;
    if !rx.busy {
      HeaderWholeExactly(rx, xs, s);
    }
  }

  lemma TurnMovesOn(rx: Rx, s: seq<byte>)
    requires s != [] && TurnOk(rx, s) && (rx.busy ==> rx.index < rx.head.len)
    ensures 0 < Taken(rx, s) <= |s| && (Turn(rx, s).busy ==> Turn(rx, s).index < Turn(rx, s).head.len)
    ensures SegmentOk(rx, s) <==> SegmentOk(Turn(rx, s), s[Taken(rx, s)..])
  {
    hide HeaderLength, ReadHead;
  }

  /** A segment is accepted if and only if it does not end inside a header. */
  lemma {:induction false} SegmentOkExactly(rx: Rx, xs: seq<Sent>, s: seq<byte>)
    requires OnTrack(rx, xs) && s <= ToCome(rx, xs) && DataFrames(xs)
    requires rx.busy ==> rx.index < rx.head.len
    ensures Passed(rx, xs) >= 0 && (SegmentOk(rx, s) <==> !InHeader(xs, Passed(rx, xs) + |s|))
    decreases |s|
  {
    hide OnTrack, ToCome, InHeader, DataFrames, SegmentOk, TurnOk, Turn, Taken, HeaderWhole, Passed;
    NotInHeader(rx, xs);
    if s == [] {
      EmptySegment(rx, xs);
    } else {
      TurnAccepted(rx, xs, s);
      if TurnOk(rx, s) {
        var r, n := Turn(rx, s), Taken(rx, s);
        TurnMovesOn(rx, s);
        TurnOnTrack(rx, xs, s);
        PassedMore(rx, r, xs, n);
        SegmentOkExactly(r, xs, s[n..]);
      } else {
        HeaderCut(rx, xs, s);
      }
    }
  }

  lemma EmptySegment(rx: Rx, xs: seq<Sent>)
    requires OnTrack(rx, xs) && (rx.busy ==> rx.index < rx.head.len)
    ensures SegmentOk(rx, [])
  {
  }

  lemma HeaderCut(rx: Rx, xs: seq<Sent>, s: seq<byte>)
    requires OnTrack(rx, xs) && s <= ToCome(rx, xs) && s != [] && !rx.busy && !HeaderWhole(s)
    ensures Passed(rx, xs) >= 0 && InHeader(xs, Passed(rx, xs) + |s|) && !SegmentOk(rx, s)
  {
    hide ToCome, HeaderWhole, SegmentOk, Passed, InHeader, OnTrack, HeaderSize, EncodeAll, SentOk;
    Tracked(rx, xs);
    HeaderWholeExactly(rx, xs, s);
    PassedIdle(rx, xs);
    InHeaderSkip(xs, rx.frames, |s|);
    FirstHeader(xs[rx.frames..], |s|);
    NoTurn(rx, s);
  }

  lemma Tracked(rx: Rx, xs: seq<Sent>)
    requires OnTrack(rx, xs)
    ensures AllOk(xs) && rx.frames <= |xs|
  {
  }

  lemma FirstHeader(xs: seq<Sent>, c: nat)
    requires AllOk(xs) && xs != [] && 0 < c < HeaderSize(xs[0])
    ensures InHeader(xs, c)
  {
  }

  lemma NoTurn(rx: Rx, s: seq<byte>)
    requires s != [] && !rx.busy && !HeaderWhole(s)
    ensures !SegmentOk(rx, s)
  {
  }

  lemma SegmentsStep(rx: Rx, pieces: seq<seq<byte>>)
    ensures SegmentsOk(rx, pieces) <==>
            pieces == [] || (SegmentOk(rx, pieces[0]) && SegmentsOk(Segment(rx, pieces[0]), pieces[1..]))
  {
    hide SegmentOk, Segment;
  }

  lemma PassedMore(rx: Rx, r: Rx, xs: seq<Sent>, n: nat)
    requires OnTrack(rx, xs) && OnTrack(r, xs) && n <= |ToCome(rx, xs)| && ToCome(r, xs) == ToCome(rx, xs)[n..]
    ensures Passed(r, xs) == Passed(rx, xs) + n
  {
    hide OnTrack, ToCome, EncodeAll;
  }

  lemma {:induction false} SegmentsOkFrom(rx: Rx, xs: seq<Sent>, pieces: seq<seq<byte>>)
    requires OnTrack(rx, xs) && Flatten(pieces) <= ToCome(rx, xs) && DataFrames(xs)
    requires rx.busy ==> rx.index < rx.head.len
    ensures Passed(rx, xs) >= 0 && (SegmentsOk(rx, pieces) <==> CutsSpare(xs, Passed(rx, xs), pieces))
    decreases |pieces|
  {
    hide OnTrack, ToCome, InHeader, SegmentOk, Segment, CutsSpare, Passed, SegmentsOk;
    NotInHeader(rx, xs);
    CutsStep(xs, Passed(rx, xs), pieces);
    SegmentsStep(rx, pieces);
    if pieces != [] {
      var p, rest := pieces[0], Flatten(pieces[1..]);
      assert Flatten(pieces) == p + rest;
      SegmentOkExactly(rx, xs, p);
      CutsStep(xs, Passed(rx, xs) + |p|, pieces[1..]);
      if SegmentOk(rx, p) {
        SegmentOnTrack(rx, xs, p);
        PassedMore(rx, Segment(rx, p), xs, |p|);
        assert rest == Flatten(pieces)[|p|..];
        SegmentsOkFrom(Segment(rx, p), xs, pieces[1..]);
      }
    }
  }

  lemma StartOnTrack(xs: seq<Sent>)
    requires AllOk(xs)
    ensures OnTrack(IDLE, xs) && ToCome(IDLE, xs) == EncodeAll(xs) && Passed(IDLE, xs) == 0
  {
    assert xs[0..] == xs && [] + EncodeAll(xs) == EncodeAll(xs);
  }

  /** The receiver's assumption in terms of the cuts: data frames cut into segments are processed
      as they should be if and only if no cut lies strictly inside a header. */
  lemma SegmentsOkExactly(xs: seq<Sent>, pieces: seq<seq<byte>>)
    requires DataFrames(xs) && Flatten(pieces) == EncodeAll(xs)
    ensures SegmentsOk(IDLE, pieces) <==> CutsSpare(xs, 0, pieces)
  {
    StartOnTrack(xs);
    SegmentsOkFrom(IDLE, xs, pieces);
  }

  /** The main result: data frames in any of the three length forms, masked or not, arriving in any
      segments that cut no header, are delivered completely, in order and unmasked. */
  lemma ReceivesAll(xs: seq<Sent>, pieces: seq<seq<byte>>)
    requires DataFrames(xs) && Flatten(pieces) == EncodeAll(xs) && CutsSpare(xs, 0, pieces)
    ensures SegmentsOk(IDLE, pieces)
    ensures var r := Segments(IDLE, pieces);
            !r.busy && r.frames == |xs| && DeliveredAll(r.events, xs)
  {
    SegmentsOkExactly(xs, pieces);
    SegmentsDeliver(xs, pieces);
  }

  /** Where no frame is empty, no empty chunk has bytes behind it. */
  lemma {:induction false} FilledUnharmed(rx: Rx, xs: seq<Sent>, s: seq<byte>)
    requires OnTrack(rx, xs) && s <= ToCome(rx, xs) && SegmentOk(rx, s)
    requires forall i :: 0 <= i < |xs| ==> xs[i].frame.payload != []
    ensures Unharmed(rx, s)
    decreases |s|
  {
    hide OnTrack, ToCome, SegmentOk;
    if s != [] {
      SegmentUnfolds(rx, s);
      TurnOnTrack(rx, xs, s);
      FilledChunk(rx, xs, s);
      hide Turn, Taken, TurnOk;
      FilledUnharmed(Turn(rx, s), xs, s[Taken(rx, s)..]);
    }
  }

  lemma FilledChunk(rx: Rx, xs: seq<Sent>, s: seq<byte>)
    requires OnTrack(rx, xs) && s <= ToCome(rx, xs) && SegmentOk(rx, s) && s != [] && TurnOk(rx, s)
    requires forall i :: 0 <= i < |xs| ==> xs[i].frame.payload != []
    ensures !rx.busy ==> HeaderWhole(s)
    ensures Taken(rx, s) > (if rx.busy then 0 else HeaderLength(s)) || Taken(rx, s) == |s|
  {
    hide Log, HeaderLength, ReadHead, Header, EncodeAll, ToCome;
    if !rx.busy {
      HeaderWholeExactly(rx, xs, s);
    }
  }

  /** The receiver object on such a stream, segment after segment; an application that writes behind
      its chunks must not be sent empty frames. */
  method Receive(ghost xs: seq<Sent>, pieces: seq<seq<byte>>, terminates: bool) returns (r: Receiver)
    requires DataFrames(xs) && Flatten(pieces) == EncodeAll(xs) && CutsSpare(xs, 0, pieces)
    requires terminates ==> forall i :: 0 <= i < |xs| ==> xs[i].frame.payload != []
    ensures fresh(r) && !r.Abs().busy && r.Abs().frames == |xs| && DeliveredAll(r.events, xs)
  {
    hide SegmentOk, Segment, CutsSpare, DeliveredAll, OnTrack, ToCome, Unharmed;
    ReceivesAll(xs, pieces);
    StartOnTrack(xs);
    r := new Receiver(terminates);
    var i := 0;
    assert pieces[0..] == pieces;
    while i < |pieces|
      invariant i <= |pieces| && fresh(r) && (r.masked ==> |r.mask| == 4) && r.terminates == terminates
      invariant SegmentsOk(r.Abs(), pieces[i..]) && Segments(r.Abs(), pieces[i..]) == Segments(IDLE, pieces)
      invariant OnTrack(r.Abs(), xs) && Flatten(pieces[i..]) <= ToCome(r.Abs(), xs)
    {
      var p := pieces[i];
      assert pieces[i..][1..] == pieces[i + 1..];
      var data := new byte[|p| + 1](k requires 0 <= k <= |p| => if k < |p| then p[k] else 0);
      assert data[..|p|] == p;
      assert [p] + pieces[i + 1..] == pieces[i..];
      Ahead(r.Abs(), xs, p, pieces[i + 1..]);
      if terminates {
        FilledUnharmed(r.Abs(), xs, p);
      }
      r.OnData(data, |p|);
      i := i + 1;
    }
    assert pieces[i..] == [];
  }

  lemma Ahead(rx: Rx, xs: seq<Sent>, p: seq<byte>, rest: seq<seq<byte>>)
    requires OnTrack(rx, xs) && Flatten([p] + rest) <= ToCome(rx, xs) && SegmentOk(rx, p)
    ensures p <= ToCome(rx, xs)
    ensures OnTrack(Segment(rx, p), xs) && Flatten(rest) <= ToCome(Segment(rx, p), xs)
  {
    hide OnTrack, ToCome, SegmentOk, Segment;
    assert ([p] + rest)[1..] == rest;
    assert Flatten([p] + rest) == p + Flatten(rest);
    assert p <= ToCome(rx, xs);
    SegmentOnTrack(rx, xs, p);
    assert Flatten(rest) == (p + Flatten(rest))[|p|..];
  }
}
