/**
 Receiving WebSocket data frames across TCP segments: AsyncWebSocketClient::_onData in
 components/ESPAsyncWebServer/src/AsyncWebSocket.cpp (sections 5.2 and 5.3 of RFC 6455).
 */
module WebSocketReceiver {
  import opened Bytes
  import opened WebSocketFrames

  /** One delivery to the application: which frame of the connection (counted from 0), the
      header, the offset of the bytes in the frame, and the unmasked bytes. */
  datatype Event = Event(frame: nat, head: Head, index: nat, data: seq<byte>)

  /** The receiver between two segments: `busy` while a frame is incomplete. */
  datatype Rx = Rx(busy: bool, head: Head, index: nat, frames: nat, events: seq<Event>)

  const IDLE := Rx(false, Head(false, 0, [], 0), 0, 0, [])

  function Unmask(h: Head, data: seq<byte>, at: nat): (r: seq<byte>)
    requires h.key == [] || |h.key| == 4
    ensures |r| == |data|
  {
    if h.key == [] then data else Masked(h.key, data, at)
  }

  predicate RxOk(rx: Rx) {
    (rx.head.key == [] || |rx.head.key| == 4) && (rx.busy ==> rx.frames > 0 && rx.index <= rx.head.len)
  }

  /** The bytes of the current frame that are in this segment go to the application. */
  function Chunk(rx: Rx, s: seq<byte>): (r: Rx)
    requires RxOk(rx) && rx.busy
    ensures RxOk(r)
  {
    var n := Min(rx.head.len - rx.index, |s|);
    var e := Event(rx.frames - 1, rx.head, rx.index, Unmask(rx.head, s[..n], rx.index));
    rx.(events := rx.events + [e], index := rx.index + n, busy := rx.index + n < rx.head.len)
  }

  function Begin(rx: Rx, s: seq<byte>): (r: Rx)
    requires HeaderWhole(s)
    ensures RxOk(r)
  {
    rx.(busy := true, head := ReadHead(s), index := 0, frames := rx.frames + 1)
  }

  function Turn(rx: Rx, s: seq<byte>): (r: Rx)
    requires TurnOk(rx, s)
    ensures RxOk(r)
  {
    if rx.busy then Chunk(rx, s) else Chunk(Begin(rx, s), s[HeaderLength(s)..])
  }

  /** One turn of the loop takes `Taken` bytes of the segment. */
  function Taken(rx: Rx, s: seq<byte>): (n: nat)
    requires TurnOk(rx, s)
    ensures s != [] && RxOk(rx) && (rx.busy ==> rx.index < rx.head.len) ==> 0 < n <= |s|
  {
    if rx.busy then Min(rx.head.len - rx.index, |s|)
    else HeaderLength(s) + Min(ReadHead(s).len, |s| - HeaderLength(s))
  }

  /** The assumption on segments: a header is never cut, the frame is a data frame and its
      length fits the 32-bit size_t of the loop. */
  predicate TurnOk(rx: Rx, s: seq<byte>) {
    RxOk(rx) &&
    if rx.busy then DataHead(rx.head) else HeaderWhole(s) && DataHead(ReadHead(s))
  }

  predicate DataHead(h: Head) {
    h.opcode < 8 && h.len < 0x1_0000_0000
  }

  predicate SegmentOk(rx: Rx, s: seq<byte>)
    decreases |s|
  {
    RxOk(rx) && (rx.busy ==> rx.index < rx.head.len) &&
    (s != [] ==> TurnOk(rx, s) && SegmentOk(Turn(rx, s), s[Taken(rx, s)..]))
  }

  function Segment(rx: Rx, s: seq<byte>): Rx
    requires SegmentOk(rx, s)
    decreases |s|
  {
    if s == [] then rx else Segment(Turn(rx, s), s[Taken(rx, s)..])
  }

  ghost predicate SegmentsOk(rx: Rx, pieces: seq<seq<byte>>)
    decreases |pieces|
  {
    pieces != [] ==> SegmentOk(rx, pieces[0]) && SegmentsOk(Segment(rx, pieces[0]), pieces[1..])
  }

  ghost function Segments(rx: Rx, pieces: seq<seq<byte>>): Rx
    requires SegmentsOk(rx, pieces)
    decreases |pieces|
  {
    if pieces == [] then rx else Segments(Segment(rx, pieces[0]), pieces[1..])
  }

  // ---------- what the application must have seen ----------

  /** The bytes delivered for frame i, in the order of delivery. */
  ghost function Collected(evs: seq<Event>, i: nat): seq<byte> {
    if evs == [] then []
    else
      var e := evs[|evs| - 1];
      Collected(evs[..|evs| - 1], i) + (if e.frame == i then e.data else [])
  }

  ghost predicate HasEvent(evs: seq<Event>, i: nat) {
    exists j :: 0 <= j < |evs| && evs[j].frame == i
  }

  /** Event j names its frame's header and continues exactly where the frame's bytes stood. */
  ghost predicate InOrder(evs: seq<Event>, xs: seq<Sent>, j: nat)
    requires j < |evs|
  {
    var e := evs[j];
    e.frame < |xs| && e.head == HeadOf(xs[e.frame].frame) &&
    e.index == |Collected(evs[..j], e.frame)| &&
    (j > 0 ==> evs[j - 1].frame <= e.frame)
  }

  /** Frame i was delivered, and its bytes are its payload. */
  ghost predicate Got(evs: seq<Event>, xs: seq<Sent>, i: nat)
    requires i < |xs|
  {
    HasEvent(evs, i) && Collected(evs, i) == xs[i].frame.payload
  }

  /** Events only of the first `frames` frames, in order; the first `done` frames complete. */
  ghost predicate Log(evs: seq<Event>, xs: seq<Sent>, frames: nat, done: nat)
    requires done <= |xs|
  {
    (forall j :: 0 <= j < |evs| ==> InOrder(evs, xs, j) && evs[j].frame < frames) &&
    (forall i :: 0 <= i < done ==> Got(evs, xs, i))
  }

  /** All frames of xs delivered: in order, with contiguous indices, each with its payload. */
  ghost predicate DeliveredAll(evs: seq<Event>, xs: seq<Sent>) {
    Log(evs, xs, |xs|, |xs|)
  }

  /** The receiver has seen the first rx.frames headers of xs, the last frame up to rx.index. */
  ghost predicate OnTrack(rx: Rx, xs: seq<Sent>) {
    RxOk(rx) && rx.frames <= |xs| && AllOk(xs) &&
    (rx.busy ==> rx.head == HeadOf(xs[rx.frames - 1].frame)) &&
    Log(rx.events, xs, rx.frames, if rx.busy then rx.frames - 1 else rx.frames) &&
    (rx.busy ==> Collected(rx.events, rx.frames - 1) == xs[rx.frames - 1].frame.payload[..rx.index])
  }

  /** The wire bytes that are still to come. */
  ghost function ToCome(rx: Rx, xs: seq<Sent>): seq<byte>
    requires OnTrack(rx, xs)
  {
    (if rx.busy then WirePayload(xs[rx.frames - 1].frame)[rx.index..] else []) + EncodeAll(xs[rx.frames..])
  }

  lemma CollectedSnoc(evs: seq<Event>, e: Event, i: nat)
    ensures Collected(evs + [e], i) == Collected(evs, i) + (if e.frame == i then e.data else [])
  {
    assert (evs + [e])[..|evs|] == evs;
  }

  lemma {:induction false} CollectedNone(evs: seq<Event>, i: nat)
    requires forall j :: 0 <= j < |evs| ==> evs[j].frame < i
    ensures Collected(evs, i) == []
  {
    if evs != [] {
      CollectedNone(evs[..|evs| - 1], i);
    }
  }

  lemma UnmaskedSlice(f: Frame, from: nat, to: nat)
    requires FrameOk(f) && from <= to <= |f.payload|
    ensures Unmask(HeadOf(f), WirePayload(f)[from..to], from) == f.payload[from..to]
  {
    hide Xor;
    if f.key != [] {
      MaskedSlice(f.key, f.payload, from, to);
      MaskedTwice(f.key, f.payload[from..to], from);
    }
  }

  /** A header read at the start of a frame. */
  lemma BeginOnTrack(rx: Rx, xs: seq<Sent>, s: seq<byte>)
    requires OnTrack(rx, xs) && !rx.busy && s != [] && s <= ToCome(rx, xs) && HeaderWhole(s)
    ensures rx.frames < |xs|
    ensures ReadHead(s) == HeadOf(xs[rx.frames].frame)
    ensures HeaderLength(s) == |Header(xs[rx.frames].frame, xs[rx.frames].form)|
    ensures ToCome(rx, xs) == Header(xs[rx.frames].frame, xs[rx.frames].form)
                              + (WirePayload(xs[rx.frames].frame) + EncodeAll(xs[rx.frames + 1..]))
  {
    hide ReadHead, HeaderLength, Header, WirePayload, InOrder;
    assert ToCome(rx, xs) == EncodeAll(xs[rx.frames..]);
    assert xs[rx.frames..] != [];
    var x := xs[rx.frames];
    assert xs[rx.frames..][1..] == xs[rx.frames + 1..];
    var h, rest := Header(x.frame, x.form), WirePayload(x.frame) + EncodeAll(xs[rx.frames + 1..]);
    Regroup(h, WirePayload(x.frame), EncodeAll(xs[rx.frames + 1..]));
    HeaderRoundTrip(x.frame, x.form, rest);
    HeaderByPrefix(s, h + rest);
  }

  /** A whole header reads the same whatever follows it. */
  lemma HeaderByPrefix(s: seq<byte>, t: seq<byte>)
    requires s <= t && HeaderWhole(s)
    ensures HeaderWhole(t) && HeaderLength(t) == HeaderLength(s) && ReadHead(t) == ReadHead(s)
  {
    hide FromBigEndian;
    var e := LengthBytes(s);
    assert s[0] == t[0] && s[1] == t[1];
    assert s[2..2 + e] == t[2..2 + e];
    assert s[1] >= 128 ==> s[2 + e..6 + e] == t[2 + e..6 + e];
  }

  lemma LogMore(evs: seq<Event>, xs: seq<Sent>, frames: nat)
    requires frames < |xs| && Log(evs, xs, frames, frames)
    ensures Log(evs, xs, frames + 1, frames)
  {
  }

  lemma Begun(rx: Rx, xs: seq<Sent>, s: seq<byte>)
    requires OnTrack(rx, xs) && !rx.busy && s != [] && s <= ToCome(rx, xs) && HeaderWhole(s)
    ensures var b := Begin(rx, s);
            OnTrack(b, xs) && HeaderLength(s) <= |s| && ToCome(b, xs) == ToCome(rx, xs)[HeaderLength(s)..] &&
            s[HeaderLength(s)..] <= ToCome(b, xs)
  {
    hide ReadHead, Header, WirePayload, InOrder, EncodeAll, Got;
    BeginOnTrack(rx, xs, s);
    CollectedNone(rx.events, rx.frames);
    assert HeaderLength(s) <= |s|;
    hide HeaderLength, HeaderWhole;
    LogMore(rx.events, xs, rx.frames);
    var b, x := Begin(rx, s), xs[rx.frames];
    assert x.frame.payload[..0] == [];
    assert WirePayload(x.frame)[0..] == WirePayload(x.frame);
  }

  /** One more event, of the last frame, at the offset reached. */
  lemma EventAdded(evs: seq<Event>, xs: seq<Sent>, frames: nat, e: Event)
    requires 0 < frames <= |xs| && Log(evs, xs, frames, frames - 1)
    requires e.frame == frames - 1 && e.head == HeadOf(xs[e.frame].frame)
    requires e.index == |Collected(evs, e.frame)|
    ensures Log(evs + [e], xs, frames, frames - 1)
    ensures HasEvent(evs + [e], frames - 1)
    ensures Collected(evs + [e], frames - 1) == Collected(evs, frames - 1) + e.data
  {
    hide Collected;
    var all := evs + [e];
    assert all[..|evs|] == evs;
    forall j | 0 <= j < |all| ensures InOrder(all, xs, j) && all[j].frame < frames {
      if j < |evs| {
        assert InOrder(evs, xs, j);
        assert all[..j] == evs[..j];
      }
    }
    forall i | 0 <= i < frames - 1 ensures Got(all, xs, i) {
      GotStays(evs, xs, e, i);
    }
    assert all[|evs|].frame == frames - 1;
    CollectedSnoc(evs, e, frames - 1);
  }

  lemma GotStays(evs: seq<Event>, xs: seq<Sent>, e: Event, i: nat)
    requires i < |xs| && Got(evs, xs, i) && e.frame != i
    ensures Got(evs + [e], xs, i)
  {
    var j :| 0 <= j < |evs| && evs[j].frame == i;
    assert (evs + [e])[j].frame == i;
    CollectedSnoc(evs, e, i);
    assert Collected(evs, i) + [] == Collected(evs, i);
  }

  lemma LastGot(evs: seq<Event>, xs: seq<Sent>, frames: nat)
    requires 0 < frames <= |xs| && Log(evs, xs, frames, frames - 1) && Got(evs, xs, frames - 1)
    ensures Log(evs, xs, frames, frames)
  {
  }

  /** The chunk taken from the segment, unmasked, is the next slice of the payload. */
  lemma ChunkData(rx: Rx, xs: seq<Sent>, s: seq<byte>)
    requires OnTrack(rx, xs) && rx.busy && s <= ToCome(rx, xs)
    ensures RxOk(rx) && rx.frames <= |xs|
    ensures var f := xs[rx.frames - 1].frame; var n := Min(rx.head.len - rx.index, |s|);
            rx.index + n <= |f.payload| && rx.head == HeadOf(f) &&
            Unmask(rx.head, s[..n], rx.index) == f.payload[rx.index..rx.index + n]
  {
    hide Log, EncodeAll, Unmask;
    var f := xs[rx.frames - 1].frame;
    var n := Min(rx.head.len - rx.index, |s|);
    assert SentOk(xs[rx.frames - 1]);
    hide WirePayload;
    var w := WirePayload(f);
    assert s[..n] == ToCome(rx, xs)[..n] == w[rx.index..rx.index + n];
    UnmaskedSlice(f, rx.index, rx.index + n);
  }

  /** Delivering the next slice of the payload keeps the log right. */
  lemma ChunkLogged(rx: Rx, xs: seq<Sent>, e: Event, to: nat)
    requires OnTrack(rx, xs) && rx.busy && rx.index <= to <= rx.head.len
    requires e.frame == rx.frames - 1 && e.head == rx.head && e.index == rx.index
    requires e.data == xs[rx.frames - 1].frame.payload[rx.index..to]
    ensures OnTrack(rx.(events := rx.events + [e], index := to, busy := to < rx.head.len), xs)
  {
    hide Log, AllOk, Collected, HasEvent, InOrder;
    var p := xs[rx.frames - 1].frame.payload;
    EventAdded(rx.events, xs, rx.frames, e);
    SlicesJoin(p, rx.index, to);
    if to == |p| {
      LastGot(rx.events + [e], xs, rx.frames);
    }
  }

  lemma SlicesJoin(p: seq<byte>, a: nat, b: nat)
    requires a <= b <= |p|
    ensures p[..a] + p[a..b] == p[..b] && (b == |p| ==> p[..b] == p)
  {
  }

  lemma ChunkOnTrack(rx: Rx, xs: seq<Sent>, s: seq<byte>)
    requires OnTrack(rx, xs) && rx.busy && s <= ToCome(rx, xs)
    ensures var r := Chunk(rx, s); var n := Min(rx.head.len - rx.index, |s|);
            OnTrack(r, xs) && ToCome(r, xs) == ToCome(rx, xs)[n..] && s[n..] <= ToCome(r, xs)
  {
    hide *;
    ChunkData(rx, xs, s);
    var e, n := ChunkParts(rx, s);
    ChunkLogged(rx, xs, e, rx.index + n);
    ChunkToCome(rx, xs, Chunk(rx, s), n);
    PrefixTail(s, ToCome(rx, xs), n);
  }

  lemma ChunkParts(rx: Rx, s: seq<byte>) returns (e: Event, n: nat)
    requires RxOk(rx) && rx.busy
    ensures n == Min(rx.head.len - rx.index, |s|) && n <= |s| && rx.index + n <= rx.head.len
    ensures e.frame == rx.frames - 1 && e.head == rx.head && e.index == rx.index
    ensures e.data == Unmask(rx.head, s[..n], rx.index)
    ensures Chunk(rx, s) == rx.(events := rx.events + [e], index := rx.index + n, busy := rx.index + n < rx.head.len)
  {
    hide Unmask;
    n := Min(rx.head.len - rx.index, |s|);
    e := Event(rx.frames - 1, rx.head, rx.index, Unmask(rx.head, s[..n], rx.index));
  }

  lemma PrefixTail(s: seq<byte>, t: seq<byte>, n: nat)
    requires n <= |s| && s <= t
    ensures s[n..] <= t[n..]
  {
  }

  lemma ChunkToCome(rx: Rx, xs: seq<Sent>, r: Rx, n: nat)
    requires OnTrack(rx, xs) && OnTrack(r, xs) && rx.busy && n <= rx.head.len - rx.index
    requires r == rx.(events := r.events, index := rx.index + n, busy := rx.index + n < rx.head.len)
    ensures n <= |ToCome(rx, xs)| && ToCome(r, xs) == ToCome(rx, xs)[n..]
  {
    hide Log, EncodeAll, Masked;
    assert SentOk(xs[rx.frames - 1]);
    var w := WirePayload(xs[rx.frames - 1].frame);
    var tail := EncodeAll(xs[rx.frames..]);
    assert (w[rx.index..] + tail)[n..] == w[rx.index + n..] + tail;
    assert !r.busy ==> w[rx.index + n..] == [];
  }

  lemma TurnOnTrack(rx: Rx, xs: seq<Sent>, s: seq<byte>)
    requires OnTrack(rx, xs) && s != [] && s <= ToCome(rx, xs) && TurnOk(rx, s)
    ensures var r := Turn(rx, s); var n := Taken(rx, s);
            n <= |s| && OnTrack(r, xs) && ToCome(r, xs) == ToCome(rx, xs)[n..] && s[n..] <= ToCome(r, xs)
  {
    hide OnTrack, ToCome, ReadHead, HeaderLength;
    if rx.busy {
      ChunkOnTrack(rx, xs, s);
    } else {
      Begun(rx, xs, s);
      var h := HeaderLength(s);
      var b := Begin(rx, s);
      ChunkOnTrack(b, xs, s[h..]);
      var n := Min(b.head.len, |s| - h);
      assert s[h..][n..] == s[h + n..];
      assert ToCome(rx, xs)[h..][n..] == ToCome(rx, xs)[h + n..];
    }
  }

  lemma {:induction false} SegmentOnTrack(rx: Rx, xs: seq<Sent>, s: seq<byte>)
    requires OnTrack(rx, xs) && s <= ToCome(rx, xs) && SegmentOk(rx, s)
    ensures OnTrack(Segment(rx, s), xs) && ToCome(Segment(rx, s), xs) == ToCome(rx, xs)[|s|..]
    ensures var r := Segment(rx, s); r.busy ==> r.index < r.head.len
    decreases |s|
  {
    hide OnTrack, ToCome, Turn, Taken, TurnOk;
    if s != [] {
      var n, r := Taken(rx, s), Turn(rx, s);
      TurnOnTrack(rx, xs, s);
      SegmentOnTrack(r, xs, s[n..]);
      assert ToCome(rx, xs)[n..][|s| - n..] == ToCome(rx, xs)[|s|..];
    }
  }

  lemma {:induction false} SegmentsOnTrack(rx: Rx, xs: seq<Sent>, pieces: seq<seq<byte>>)
    requires OnTrack(rx, xs) && Flatten(pieces) <= ToCome(rx, xs) && SegmentsOk(rx, pieces)
    requires rx.busy ==> rx.index < rx.head.len
    ensures var r := Segments(rx, pieces);
            OnTrack(r, xs) && ToCome(r, xs) == ToCome(rx, xs)[|Flatten(pieces)|..] && (r.busy ==> r.index < r.head.len)
    decreases |pieces|
  {
    hide OnTrack, ToCome, Segment, SegmentOk;
    if pieces != [] {
      var p, rest := pieces[0], Flatten(pieces[1..]);
      assert Flatten(pieces) == p + rest;
      SegmentOnTrack(rx, xs, p);
      assert rest == Flatten(pieces)[|p|..];
      SegmentsOnTrack(Segment(rx, p), xs, pieces[1..]);
      assert ToCome(rx, xs)[|p|..][|rest|..] == ToCome(rx, xs)[|p| + |rest|..];
    }
  }

  /** What all accepted segments together deliver. */
  lemma SegmentsDeliver(xs: seq<Sent>, pieces: seq<seq<byte>>)
    requires AllOk(xs) && Flatten(pieces) == EncodeAll(xs) && SegmentsOk(IDLE, pieces)
    ensures var r := Segments(IDLE, pieces);
            !r.busy && r.frames == |xs| && DeliveredAll(r.events, xs)
  {
    assert xs[0..] == xs && [] + EncodeAll(xs) == EncodeAll(xs);
    assert ToCome(IDLE, xs) == EncodeAll(xs);
    SegmentsOnTrack(IDLE, xs, pieces);
    var r := Segments(IDLE, pieces);
    assert ToCome(r, xs) == [];
    NothingToCome(r, xs);
  }

  lemma NothingToCome(rx: Rx, xs: seq<Sent>)
    requires OnTrack(rx, xs) && (rx.busy ==> rx.index < rx.head.len)
    ensures rx.busy || rx.frames < |xs| ==> |ToCome(rx, xs)| > 0
  {
    SomethingEncoded(xs[rx.frames..]);
  }

  lemma SomethingEncoded(xs: seq<Sent>)
    requires AllOk(xs)
    ensures xs != [] ==> |EncodeAll(xs)| > 0
  {
  }

  // ---------- the receiving half of the client object ----------

  lemma SegmentUnfolds(rx: Rx, s: seq<byte>)
    requires s != [] && SegmentOk(rx, s)
    ensures TurnOk(rx, s) && 0 < Taken(rx, s) <= |s| && (!rx.busy ==> HeaderWhole(s) && HeaderLength(s) <= |s|)
    ensures SegmentOk(Turn(rx, s), s[Taken(rx, s)..])
    ensures Segment(rx, s) == Segment(Turn(rx, s), s[Taken(rx, s)..])
  {
  }

  lemma SegmentEnds(rx: Rx)
    ensures SegmentOk(rx, []) ==> Segment(rx, []) == rx
  {
  }

  /** The receiver with the frame open that this turn works on, and the bytes of its payload. */
  ghost function Opened(rx: Rx, s: seq<byte>): (Rx, seq<byte>)
    requires !rx.busy ==> HeaderWhole(s) && HeaderLength(s) <= |s|
  {
    if rx.busy then (rx, s)
    else (rx.(busy := true, head := ReadHead(s), index := 0, frames := rx.frames + 1), s[HeaderLength(s)..])
  }

  lemma TurnIsChunk(rx: Rx, s: seq<byte>)
    requires s != [] && TurnOk(rx, s) && SegmentOk(rx, s)
    requires !rx.busy ==> HeaderLength(s) <= |s|
    ensures var (o, t) := Opened(rx, s);
            RxOk(o) && o.busy && o.frames > 0 && DataHead(o.head) && o.index <= o.head.len &&
            Turn(rx, s) == Chunk(o, t) && Taken(rx, s) <= |s| &&
            s[Taken(rx, s)..] == t[Min(o.head.len - o.index, |t|)..]
  {
    hide Chunk;
    if !rx.busy {
      var n := HeaderLength(s);
      assert s[n..][Min(ReadHead(s).len, |s| - n)..] == s[n + Min(ReadHead(s).len, |s| - n)..];
    }
  }

  /** Delivering the chunk at hand is one turn: the rest of the segment follows it. */
  lemma ChunkThenRest(rx: Rx, s: seq<byte>) returns (o: Rx, t: seq<byte>, n: nat)
    requires s != [] && SegmentOk(rx, s)
    ensures !rx.busy ==> HeaderWhole(s) && HeaderLength(s) <= |s|
    ensures (o, t) == Opened(rx, s)
    ensures RxOk(o) && o.busy && o.frames > 0 && DataHead(o.head) && o.index <= o.head.len
    ensures n == Min(o.head.len - o.index, |t|) <= |t| && (rx.busy ==> n > 0)
    ensures SegmentOk(Chunk(o, t), t[n..]) && Segment(Chunk(o, t), t[n..]) == Segment(rx, s)
  {
    hide Chunk, Turn;
    SegmentUnfolds(rx, s);
    TurnIsChunk(rx, s);
    o, t := Opened(rx, s).0, Opened(rx, s).1;
    n := Min(o.head.len - o.index, |t|);
  }

  lemma UnharmedRest(rx: Rx, s: seq<byte>, o: Rx, t: seq<byte>, n: nat)
    requires s != [] && SegmentOk(rx, s) && Unharmed(rx, s)
    requires !rx.busy ==> HeaderWhole(s) && HeaderLength(s) <= |s|
    requires (o, t) == Opened(rx, s) && RxOk(o) && o.busy && n == Min(o.head.len - o.index, |t|) <= |t|
    requires SegmentOk(Chunk(o, t), t[n..])
    ensures (n > 0 || t == []) && Unharmed(Chunk(o, t), t[n..])
  {
    SegmentUnfolds(rx, s);
    TurnIsChunk(rx, s);
    hide Chunk, SegmentOk;
  }

  /** No empty chunk has bytes behind it in its segment. */
  predicate Unharmed(rx: Rx, s: seq<byte>)
    requires SegmentOk(rx, s)
    decreases |s|
  {
    s == [] ||
    ((Taken(rx, s) > (if rx.busy then 0 else HeaderLength(s)) || Taken(rx, s) == |s|) &&
     Unharmed(Turn(rx, s), s[Taken(rx, s)..]))
  }

  /** A zero in place of the first byte of a header: it reads the same exactly when the frame was a
      continuation that is not final. */
  lemma ZeroedHeader(s: seq<byte>)
    requires HeaderWhole(s)
    ensures HeaderWhole([0] + s[1..])
    ensures ReadHead([0] + s[1..]) == ReadHead(s) <==> !ReadHead(s).final && ReadHead(s).opcode == 0
  {
    hide FromBigEndian;
    var t := [0] + s[1..];
    assert forall i :: 1 <= i < |s| ==> t[i] == s[i];
    assert |s| >= 4 ==> t[2..4] == s[2..4];
    assert |s| >= 10 ==> t[2..10] == s[2..10];
    var n := HeaderLength(s);
    assert n >= 6 ==> t[n - 4..n] == s[n - 4..n];
  }

  class Receiver {
    /** Whether the application writes a zero behind each chunk, as the library's examples do. */
    const terminates: bool
    var pstate: nat
    var final: bool
    var opcode: nat
    var masked: bool
    var len: nat
    var mask: seq<byte>
    var index: nat
    ghost var frames: nat
    ghost var events: seq<Event>

    ghost function Abs(): Rx
      reads this
    {
      Rx(pstate != 0, Head(final, opcode, if masked then mask else [], len), index, frames, events)
    }

    constructor (terminates: bool)
      ensures Abs() == IDLE && !masked && this.terminates == terminates
    {
      this.terminates := terminates;
      pstate, final, opcode, masked, len, mask, index := 0, false, 0, false, 0, [0, 0, 0, 0], 0;
      frames, events := 0, [];
    }

    /** Lines 620 to 642: the header, advancing over it. */
    method ReadHeader(data: array<byte>, pos: nat, plen: nat) returns (pos': nat, plen': nat)
      requires pos + plen <= data.Length && pstate == 0 && HeaderWhole(data[pos..pos + plen])
      modifies this`final, this`opcode, this`masked, this`len, this`mask, this`index
      ensures var s := data[pos..pos + plen];
              pos' == pos + HeaderLength(s) && plen' == plen - HeaderLength(s) &&
              Head(final, opcode, if masked then mask else [], len) == ReadHead(s) && index == 0 &&
              (masked ==> |mask| == 4)
    {
      hide FromBigEndian;
      var fdata := data[pos..pos + plen];
      index := 0;
      final := fdata[0] >= 128;
      opcode := fdata[0] % 16;
      masked := fdata[1] >= 128;
      len := fdata[1] % 128;
      var head := 2;
      if len == 126 {
        len := FromBigEndian(fdata[2..4]);
        head := head + 2;
      } else if len == 127 {
        len := FromBigEndian(fdata[2..10]);
        head := head + 8;
      }
      if masked {
        mask := fdata[head..head + 4];
        head := head + 4;
      }
      pos', plen' := pos + head, plen - head;
    }

    /** Lines 648 to 651: unmasking in place, with the key aligned to the offset in the frame. */
    method UnmaskInPlace(data: array<byte>, pos: nat, n: nat)
      requires pos + n <= data.Length && (masked ==> |mask| == 4)
      modifies data
      ensures data[pos..pos + n] == Unmask(Abs().head, old(data[pos..pos + n]), index)
      ensures forall k :: 0 <= k < data.Length && !(pos <= k < pos + n) ==> data[k] == old(data[k])
    {
      hide Xor;
      if masked {
        ghost var was := data[pos..pos + n];
        UnmaskLoop(data, pos, n);
        ghost var now := data[pos..pos + n];
        forall k | 0 <= k < n ensures now[k] == Xor(was[k], mask[(index + k) % 4]) {
          assert now[k] == data[pos + k];
          assert (index + (pos + k - pos)) % 4 == (index + k) % 4;
        }
        MaskedBytes(mask, was, now, index);
      }
    }

    static lemma MaskedBytes(key: seq<byte>, was: seq<byte>, now: seq<byte>, at: nat)
      requires |key| == 4 && |now| == |was|
      requires forall k :: 0 <= k < |was| ==> now[k] == Xor(was[k], key[(at + k) % 4])
      ensures now == Masked(key, was, at)
    {
      hide Xor;
    }

    /** The loop: byte by byte, the key starting at the offset in the frame. */
    method UnmaskLoop(data: array<byte>, pos: nat, n: nat)
      requires pos + n <= data.Length && |mask| == 4
      modifies data
      ensures forall k :: pos <= k < pos + n ==> data[k] == Xor(old(data[k]), mask[(index + (k - pos)) % 4])
      ensures forall k :: 0 <= k < data.Length && !(pos <= k < pos + n) ==> data[k] == old(data[k])
    {
      hide Xor;
      var i := 0;
      while i < n
        invariant i <= n
        invariant forall k :: pos <= k < pos + i ==> data[k] == Xor(old(data[k]), mask[(index + (k - pos)) % 4])
        invariant forall k :: 0 <= k < data.Length && !(pos <= k < pos + i) ==> data[k] == old(data[k])
      {
        data[pos + i] := Xor(data[pos + i], mask[(index + i) % 4]);
        i := i + 1;
      }
    }

    /** Lines 645 to 699 on an open frame: deliver what this segment holds of it. The byte after
        the chunk is saved and restored, so the buffer has one byte to spare. */
    method DeliverChunk(data: array<byte>, pos: nat, plen: nat) returns (datalen: nat)
      requires pos + plen < data.Length && RxOk(Abs().(busy := true, frames := frames)) && frames > 0
      requires len < 0x1_0000_0000 && opcode < 8 && (masked ==> |mask| == 4) && index <= len
      modifies this`pstate, this`index, this`events, data
      ensures datalen == Min(len - old(index), plen)
      ensures Abs() == Chunk(old(Abs()).(busy := true), old(data[pos..pos + plen]))
      // What the application wrote behind the chunk is undone, except behind an empty one.
      ensures datalen > 0 || !terminates ==>
                forall k :: 0 <= k < data.Length && !(pos <= k < pos + datalen) ==> data[k] == old(data[k])
      ensures datalen == 0 && terminates ==> data[..] == old(data[..])[pos := 0]
    {
      hide Unmask, Chunk;
      ghost var s := data[pos..pos + plen];
      ghost var e, n := ChunkParts(Abs().(busy := true), s);
      var left := (len - index) % 0x1_0000_0000;
      datalen := if left < plen then left else plen;
      assert s[..datalen] == data[pos..pos + datalen];
      var datalast := data[pos + datalen];
      HandOver(data, pos, datalen);
      if datalen + index < len {
        pstate := 1;
      } else {
        pstate := 0;
      }
      index := index + datalen;
      if datalen > 0 {
        data[pos + datalen] := datalast;
      }
    }

    /** The chunk is unmasked and given to the application, which may write a zero behind it. */
    method HandOver(data: array<byte>, pos: nat, n: nat)
      requires pos + n < data.Length && (masked ==> |mask| == 4) && frames > 0
      modifies this`events, data
      ensures events == old(events) +
                [Event(frames - 1, Abs().head, index, Unmask(Abs().head, old(data[pos..pos + n]), index))]
      ensures data[pos + n] == if terminates then 0 else old(data[pos + n])
      ensures forall k :: 0 <= k < data.Length && !(pos <= k <= pos + n) ==> data[k] == old(data[k])
    {
      hide Unmask;
      UnmaskInPlace(data, pos, n);
      events := events + [Event(frames - 1, Abs().head, index, data[pos..pos + n])];
      if terminates {
        data[pos + n] := 0;
      }
    }

    /** `_onData` for data frames. */
    method OnData(data: array<byte>, plen: nat)
      requires plen < data.Length && SegmentOk(Abs(), data[..plen]) && (masked ==> |mask| == 4)
      requires terminates ==> Unharmed(Abs(), data[..plen])
      modifies this, data
      ensures Abs() == Segment(old(Abs()), old(data[..plen]))
      ensures masked ==> |mask| == 4
    {
      hide Segment, SegmentOk, Unharmed;
      ghost var goal := Segment(Abs(), data[..plen]);
      var pos, left := 0, plen;
      assert data[..plen] == data[0..plen];
      while left > 0
        invariant pos + left == plen
        invariant SegmentOk(Abs(), data[pos..plen]) && Segment(Abs(), data[pos..plen]) == goal
        invariant terminates ==> Unharmed(Abs(), data[pos..plen])
        invariant masked ==> |mask| == 4
        decreases left
      {
        left := OneTurn(data, pos, plen);
        pos := plen - left;
      }
      SegmentEnds(Abs());
      assert data[pos..plen] == [];
    }

    /** One turn of the loop of `_onData`; the result is what is left of the segment. */
    method OneTurn(data: array<byte>, pos: nat, plen: nat) returns (left: nat)
      requires pos < plen < data.Length && SegmentOk(Abs(), data[pos..plen]) && (masked ==> |mask| == 4)
      requires terminates ==> Unharmed(Abs(), data[pos..plen])
      modifies this, data
      ensures left < plen - pos && (masked ==> |mask| == 4)
      ensures SegmentOk(Abs(), data[plen - left..plen])
      ensures terminates ==> Unharmed(Abs(), data[plen - left..plen])
      ensures Segment(Abs(), data[plen - left..plen]) == Segment(old(Abs()), old(data[pos..plen]))
    {
      hide Segment, SegmentOk, Chunk, HeaderLength, HeaderWhole, Unmask, LengthBytes, Opened, Unharmed;
      ghost var rx, s := Abs(), data[pos..plen];
      ghost var o, t, taken := ChunkThenRest(rx, s);
      if terminates {
        UnharmedRest(rx, s, o, t, taken);
      }
      var at := OpenFrame(data, pos, plen);
      var n := DeliverChunk(data, at, plen - at);
      left := plen - at - n;
      assert data[plen - left..plen] == t[n..];
    }

    /** Between frames, the header comes first. */
    method OpenFrame(data: array<byte>, pos: nat, plen: nat) returns (at: nat)
      requires pos <= plen <= data.Length
      requires pstate == 0 ==> HeaderWhole(data[pos..plen]) && HeaderLength(data[pos..plen]) <= plen - pos
      requires masked ==> |mask| == 4
      modifies this`final, this`opcode, this`masked, this`len, this`mask, this`index, this`frames
      ensures pos <= at <= plen && (pstate == 0 ==> pos < at) && (masked ==> |mask| == 4)
      ensures (Abs().(busy := true), data[at..plen]) == Opened(old(Abs()), data[pos..plen])
    {
      hide ReadHead, HeaderLength, HeaderWhole, LengthBytes;
      at := pos;
      if pstate == 0 {
        var rest;
        at, rest := ReadHeader(data, pos, plen - pos);
        assert data[at..plen] == data[pos..plen][at - pos..];
        frames := frames + 1;
      }
    }
  }
}
