/** Sender and receiver together: messages survive a whole connection. */
module WebSocket {
  import opened Bytes
  import opened WebSocketFrames
  import opened WebSocketSender
  import opened WebSocketReceiver
  import opened WebSocketSegments
  import opened WebSocketMessages

  /** The bytes delivered for the first n frames, frame after frame. */
  ghost function Gathered(evs: seq<Event>, n: nat): seq<byte> {
    if n == 0 then [] else Gathered(evs, n - 1) + Collected(evs, n - 1)
  }

  lemma {:induction false} GatheredPayloads(evs: seq<Event>, xs: seq<Sent>, n: nat)
    requires n <= |xs| && forall i :: 0 <= i < |xs| ==> Got(evs, xs, i)
    ensures Gathered(evs, n) == Payloads(xs[..n])
  {
    if n > 0 {
      GatheredPayloads(evs, xs, n - 1);
      assert xs[..n][..n - 1] == xs[..n - 1];
      assert Got(evs, xs, n - 1);
    }
  }

  /** Frames of data, in order, that the receiver can take. */
  lemma FragmentsAreData(xs: seq<Sent>, opcode: nat, mask: bool, complete: bool)
    requires Fragmented(xs, opcode, mask, complete) && opcode < 8
    ensures DataFrames(xs)
  {
    forall i | 0 <= i < |xs| ensures DataHead(HeadOf(xs[i].frame)) {
      assert SentOk(xs[i]);
      PowersOf256();
    }
  }

  /** A message cut into frames by `BasicMessage.Send`, for whatever windows, and cut again into
      TCP segments that leave headers whole, is put together again by `Receiver.OnData`. */
  lemma MessageArrives(d: Delivered, pieces: seq<seq<byte>>)
    requires Complete(d) && Flatten(pieces) == d.wire && AllOk(d.frames) && CutsSpare(d.frames, 0, pieces)
    ensures SegmentsOk(IDLE, pieces)
    ensures var r := Segments(IDLE, pieces);
            !r.busy && Gathered(r.events, |d.frames|) == d.message
  {
    FragmentsAreData(d.frames, d.opcode, d.mask, true);
    ReceivesAll(d.frames, pieces);
    var r := Segments(IDLE, pieces);
    GatheredPayloads(r.events, d.frames, |d.frames|);
    assert d.frames[..|d.frames|] == d.frames;
  }

  /** Frames that arrive whole, however many to a segment, meet the receiver's assumption. */
  lemma {:induction false} WholeFramesAccepted(rx: Rx, xs: seq<Sent>)
    requires RxOk(rx) && !rx.busy && DataFrames(xs)
    ensures SegmentOk(rx, EncodeAll(xs)) && !Segment(rx, EncodeAll(xs)).busy
    decreases |xs|
  {
    if xs != [] {
      var x, s := xs[0], EncodeAll(xs);
      FirstTurn(rx, xs);
      assert DataFrames(xs[1..]) by {
        forall i | 0 <= i < |xs[1..]| ensures SentOk(xs[1..][i]) && DataHead(HeadOf(xs[1..][i].frame)) {
          assert xs[1..][i] == xs[i + 1];
        }
      }
      WholeFramesAccepted(Turn(rx, s), xs[1..]);
    }
  }

  lemma FirstTurn(rx: Rx, xs: seq<Sent>)
    requires RxOk(rx) && !rx.busy && DataFrames(xs) && xs != []
    ensures var s := EncodeAll(xs);
            s != [] && TurnOk(rx, s) && !Turn(rx, s).busy && Taken(rx, s) <= |s| &&
            s[Taken(rx, s)..] == EncodeAll(xs[1..])
  {
    var x, s := xs[0], EncodeAll(xs);
    assert SentOk(x) && |Header(x.frame, x.form)| >= 2;
    hide Header, WirePayload, HeaderLength, ReadHead, HeaderWhole;
    var h, w, rest := Header(x.frame, x.form), WirePayload(x.frame), EncodeAll(xs[1..]);
    Regroup(h, w, rest);
    assert s == h + (w + rest);
    HeaderRoundTrip(x.frame, x.form, w + rest);
    assert s[|h| + |w|..] == rest;
  }

  // ---------- a whole connection ----------

  /** The frames of the messages handed over, one message after the other. */
  ghost function AllFrames(ds: seq<Delivered>): seq<Sent> {
    if ds == [] then [] else AllFrames(ds[..|ds| - 1]) + ds[|ds| - 1].frames
  }

  /** The texts that reach the other end: an empty message has no frame. */
  ghost function Texts(ds: seq<Delivered>): seq<seq<byte>> {
    if ds == [] then []
    else
      var m := ds[|ds| - 1].message;
      Texts(ds[..|ds| - 1]) + (if m == [] then [] else [m])
  }

  lemma {:induction false} EncodeConcat(xs: seq<Sent>, ys: seq<Sent>)
    requires AllOk(xs) && AllOk(ys)
    ensures AllOk(xs + ys) && EncodeAll(xs + ys) == EncodeAll(xs) + EncodeAll(ys)
  {
    hide SentOk;
    var all := xs + ys;
    assert all[..|xs|] == xs && all[|xs|..] == ys;
    EncodeSplit(all, |xs|);
  }

  lemma DataConcat(xs: seq<Sent>, ys: seq<Sent>)
    requires DataFrames(xs) && DataFrames(ys)
    ensures DataFrames(xs + ys)
  {
    hide SentOk, DataHead;
  }

  lemma CarriedSnoc(xs: seq<Sent>, x: Sent)
    ensures Carried(xs + [x]) == More(Carried(xs), x.frame.payload, x.frame.fin)
  {
    assert (xs + [x])[..|xs|] == xs;
  }

  lemma MoreTwice(box: Inbox, a: seq<byte>, b: seq<byte>, whole: bool)
    ensures More(More(box, a, false), b, whole) == More(box, a + b, whole)
  {
    Regroup(box.partial, a, b);
  }

  lemma {:induction false} PlainFragments(xs: seq<Sent>, ys: seq<Sent>)
    requires forall i :: 0 <= i < |ys| ==> !ys[i].frame.fin
    ensures Carried(xs + ys) == More(Carried(xs), Payloads(ys), false)
    decreases |ys|
  {
    hide Carried;
    if ys == [] {
      assert xs + ys == xs;
      assert Carried(xs).partial + [] == Carried(xs).partial;
    } else {
      var n := |ys| - 1;
      PlainFragments(xs, ys[..n]);
      LastFragment(xs, ys);
    }
  }

  lemma LastFragment(xs: seq<Sent>, ys: seq<Sent>)
    requires ys != []
    requires var n := |ys| - 1; Carried(xs + ys[..n]) == More(Carried(xs), Payloads(ys[..n]), false)
    ensures Carried(xs + ys) == More(Carried(xs), Payloads(ys), ys[|ys| - 1].frame.fin)
  {
    hide Carried, Payloads, More;
    var n := |ys| - 1;
    var zs, x := ys[..n], ys[n];
    CarriedSnoc(xs + zs, x);
    PayloadsSnoc(zs, x);
    assert zs + [x] == ys && (xs + zs) + [x] == xs + ys;
    MoreTwice(Carried(xs), Payloads(zs), x.frame.payload, x.frame.fin);
  }

  lemma OnlyLastFinal(ys: seq<Sent>, opcode: nat, mask: bool, complete: bool)
    requires Fragmented(ys, opcode, mask, complete)
    ensures forall i :: 0 <= i < |ys| ==> (ys[i].frame.fin <==> complete && i == |ys| - 1)
  {
    hide AllOk;
  }

  /** The frames of one message behind whole messages: the message, or its beginning. */
  lemma FragmentsCarry(xs: seq<Sent>, ys: seq<Sent>, opcode: nat, mask: bool, complete: bool)
    requires Fragmented(ys, opcode, mask, complete)
    ensures Carried(xs + ys) == More(Carried(xs), Payloads(ys), ys != [] && complete)
  {
    OnlyLastFinal(ys, opcode, mask, complete);
    hide Fragmented, Carried, Payloads, More;
    if ys != [] && complete {
      PlainFragments(xs, ys[..|ys| - 1]);
      LastFragment(xs, ys);
    } else {
      PlainFragments(xs, ys);
    }
  }

  lemma NoFrameForNothing(xs: seq<Sent>, opcode: nat, mask: bool, complete: bool)
    requires Fragmented(xs, opcode, mask, complete)
    ensures xs == [] <==> Payloads(xs) == []
  {
    if xs != [] {
      assert xs[|xs| - 1].frame.payload != [];
    }
  }

  lemma {:induction false} DeliveredCarry(ds: seq<Delivered>)
    requires forall i :: 0 <= i < |ds| ==> Complete(ds[i])
    ensures DataFrames(AllFrames(ds)) && EncodeAll(AllFrames(ds)) == DeliveredBytes(ds)
    ensures Carried(AllFrames(ds)) == Inbox(Texts(ds), [])
    decreases |ds|
  {
    hide DataFrames, Fragmented, EncodeAll, Payloads;
    if ds == [] {
      NothingSentYet();
    } else {
      var n := |ds| - 1;
      var d, before := ds[n], AllFrames(ds[..n]);
      DeliveredCarry(ds[..n]);
      FragmentsAreData(d.frames, d.opcode, d.mask, true);
      DataConcat(before, d.frames);
      DataAreOk(before);
      DataAreOk(d.frames);
      EncodeConcat(before, d.frames);
      FragmentsCarry(before, d.frames, d.opcode, d.mask, true);
      NoFrameForNothing(d.frames, d.opcode, d.mask, true);
      hide Carried;
      assert [] + d.message == d.message;
      assert Texts(ds[..n]) + [] == Texts(ds[..n]);
    }
  }

  lemma NothingSentYet()
    ensures DataFrames([]) && EncodeAll([]) == []
  {
  }

  lemma DataAreOk(xs: seq<Sent>)
    requires DataFrames(xs)
    ensures AllOk(xs)
  {
  }

  /** The frames on the connection: those of finished messages, then those of the front one. */
  ghost function FramesOf(c: WebSocketClient): seq<Sent>
    reads c, c.messageQueue
  {
    AllFrames(c.delivered) + if c.messageQueue == [] then [] else c.messageQueue[0].frames
  }

  /** What the other end should have: every finished message, and as much of the front one as has
      been sent, which is whole when all of it has. */
  ghost function Due(c: WebSocketClient): Inbox
    requires c.Valid()
    reads c, c.client, c.messageQueue, set m | m in c.messageQueue :: m.data
  {
    var box := Inbox(Texts(c.delivered), []);
    if c.messageQueue == [] then box
    else
      var m := c.messageQueue[0];
      More(box, m.message[..m.sent], m.sent == m.len && m.len > 0)
  }

  lemma ClientFrames(c: WebSocketClient)
    requires c.Valid()
    ensures DataFrames(FramesOf(c)) && EncodeAll(FramesOf(c)) == c.client.sent && Carried(FramesOf(c)) == Due(c)
  {
    hide DataFrames, EncodeAll, Carried, Payloads, Complete, Fragmented;
    var before := AllFrames(c.delivered);
    DeliveredCarry(c.delivered);
    if c.messageQueue == [] {
      assert before + [] == before;
      assert DeliveredBytes(c.delivered) + [] == DeliveredBytes(c.delivered);
    } else {
      var m := c.messageQueue[0];
      FragmentsAreData(m.frames, m.opcode, m.mask, m.sent == m.len);
      DataConcat(before, m.frames);
      DataAreOk(before);
      DataAreOk(m.frames);
      EncodeConcat(before, m.frames);
      FragmentsCarry(before, m.frames, m.opcode, m.mask, m.sent == m.len);
    }
  }

  /** Whatever a client has sent, in whatever order of calls and through whatever windows: cut into
      any segments that leave headers whole, the application at the other end has exactly the
      messages that are due to it, in order, whole and apart. */
  lemma MessagesArrive(c: WebSocketClient, pieces: seq<seq<byte>>)
    requires c.Valid() && Flatten(pieces) == c.client.sent
    requires AllOk(FramesOf(c)) && CutsSpare(FramesOf(c), 0, pieces)
    ensures SegmentsOk(IDLE, pieces) && TakeAll(Segments(IDLE, pieces).events) == Due(c)
  {
    hide FramesOf, Due, CutsSpare, Carried;
    ClientFrames(c);
    MessagesReceived(FramesOf(c), pieces);
  }
}
