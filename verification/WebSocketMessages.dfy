/** What an application makes of the receiver's deliveries: the messages behind the frames. */
module WebSocketMessages {
  import opened Bytes
  import opened WebSocketFrames
  import opened WebSocketReceiver
  import opened WebSocketSegments

  /** The messages that are whole, and the beginning of the next. */
  datatype Inbox = Inbox(messages: seq<seq<byte>>, partial: seq<byte>)

  const NO_MAIL := Inbox([], [])

  function More(box: Inbox, data: seq<byte>, whole: bool): Inbox {
    if whole then Inbox(box.messages + [box.partial + data], []) else box.(partial := box.partial + data)
  }

  /** The library's documented use: the message is whole where a frame ends that is final. */
  function Take(box: Inbox, e: Event): Inbox {
    More(box, e.data, e.index + |e.data| == e.head.len && e.head.final)
  }

  function TakeAll(evs: seq<Event>): Inbox {
    if evs == [] then NO_MAIL else Take(TakeAll(evs[..|evs| - 1]), evs[|evs| - 1])
  }

  /** The messages that a row of frames carries. */
  function Carried(xs: seq<Sent>): Inbox {
    if xs == [] then NO_MAIL
    else
      var f := xs[|xs| - 1].frame;
      More(Carried(xs[..|xs| - 1]), f.payload, f.fin)
  }

  /** The application has what the frames so far carry, and the part of the current one. */
  ghost predicate Follows(rx: Rx, xs: seq<Sent>)
    requires OnTrack(rx, xs)
  {
    TakeAll(rx.events) ==
    if rx.busy then More(Carried(xs[..rx.frames - 1]), xs[rx.frames - 1].frame.payload[..rx.index], false)
    else Carried(xs[..rx.frames])
  }

  lemma BeginFollows(rx: Rx, xs: seq<Sent>, s: seq<byte>)
    requires OnTrack(rx, xs) && !rx.busy && Follows(rx, xs) && HeaderWhole(s) && OnTrack(Begin(rx, s), xs)
    ensures Follows(Begin(rx, s), xs)
  {
    hide Log, ReadHead, HeaderWhole, Carried, TakeAll;
    assert Carried(xs[..rx.frames]).partial + [] == Carried(xs[..rx.frames]).partial;
  }

  lemma ChunkFollows(rx: Rx, xs: seq<Sent>, s: seq<byte>)
    requires OnTrack(rx, xs) && rx.busy && s <= ToCome(rx, xs) && Follows(rx, xs)
    requires OnTrack(Chunk(rx, s), xs)
    ensures Follows(Chunk(rx, s), xs)
  {
    hide OnTrack, ToCome, Chunk, Unmask, Carried, TakeAll;
    ChunkData(rx, xs, s);
    var e, n := ChunkParts(rx, s);
    var k, f := rx.frames - 1, xs[rx.frames - 1].frame;
    var was := Carried(xs[..k]);
    SlicesJoin(f.payload, rx.index, rx.index + n);
    Regroup(was.partial, f.payload[..rx.index], e.data);
    OneTaken(rx.events, e);
    OneCarried(xs, k);
  }

  lemma OneTaken(evs: seq<Event>, e: Event)
    ensures TakeAll(evs + [e]) == Take(TakeAll(evs), e)
  {
    assert (evs + [e])[..|evs|] == evs;
  }

  lemma OneCarried(xs: seq<Sent>, k: nat)
    requires k < |xs|
    ensures Carried(xs[..k + 1]) == More(Carried(xs[..k]), xs[k].frame.payload, xs[k].frame.fin)
  {
    assert xs[..k + 1][..k] == xs[..k];
  }

  lemma TurnFollows(rx: Rx, xs: seq<Sent>, s: seq<byte>)
    requires OnTrack(rx, xs) && s != [] && s <= ToCome(rx, xs) && TurnOk(rx, s) && Follows(rx, xs)
    requires OnTrack(Turn(rx, s), xs)
    ensures Follows(Turn(rx, s), xs)
  {
    hide OnTrack, ToCome, ReadHead, HeaderLength, Follows, Chunk;
    if rx.busy {
      ChunkFollows(rx, xs, s);
    } else {
      Begun(rx, xs, s);
      BeginFollows(rx, xs, s);
      ChunkFollows(Begin(rx, s), xs, s[HeaderLength(s)..]);
    }
  }

  lemma {:induction false} SegmentFollows(rx: Rx, xs: seq<Sent>, s: seq<byte>)
    requires OnTrack(rx, xs) && s <= ToCome(rx, xs) && SegmentOk(rx, s) && Follows(rx, xs)
    ensures OnTrack(Segment(rx, s), xs) && Follows(Segment(rx, s), xs)
    decreases |s|
  {
    hide OnTrack, ToCome, Turn, Taken, TurnOk, Follows;
    if s != [] {
      TurnOnTrack(rx, xs, s);
      TurnFollows(rx, xs, s);
      SegmentFollows(Turn(rx, s), xs, s[Taken(rx, s)..]);
    }
  }

  lemma {:induction false} SegmentsFollow(rx: Rx, xs: seq<Sent>, pieces: seq<seq<byte>>)
    requires OnTrack(rx, xs) && Flatten(pieces) <= ToCome(rx, xs) && SegmentsOk(rx, pieces) && Follows(rx, xs)
    ensures OnTrack(Segments(rx, pieces), xs) && Follows(Segments(rx, pieces), xs)
    decreases |pieces|
  {
    hide OnTrack, ToCome, Segment, SegmentOk, Follows;
    if pieces != [] {
      var p, rest := pieces[0], Flatten(pieces[1..]);
      assert Flatten(pieces) == p + rest;
      SegmentOnTrack(rx, xs, p);
      SegmentFollows(rx, xs, p);
      assert rest == Flatten(pieces)[|p|..];
      SegmentsFollow(Segment(rx, p), xs, pieces[1..]);
    }
  }

  /** For data frames in any segments that cut no header, the application ends up with exactly the
      messages that the frames carry. */
  lemma MessagesReceived(xs: seq<Sent>, pieces: seq<seq<byte>>)
    requires DataFrames(xs) && Flatten(pieces) == EncodeAll(xs) && CutsSpare(xs, 0, pieces)
    ensures SegmentsOk(IDLE, pieces) && TakeAll(Segments(IDLE, pieces).events) == Carried(xs)
  {
    hide Segment, SegmentOk, CutsSpare, EncodeAll, DeliveredAll;
    ReceivesAll(xs, pieces);
    StartOnTrack(xs);
    assert Follows(IDLE, xs) by {
      assert xs[..0] == [];
    }
    SegmentsFollow(IDLE, xs, pieces);
    assert xs[..|xs|] == xs;
  }
}
