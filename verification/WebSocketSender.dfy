/**
 Sending a WebSocket message in fragments under varying TCP windows (section 5.4 of RFC 6455):
 webSocketSendFrame, AsyncWebSocketBasicMessage and the message branch of _runQueue in
 components/ESPAsyncWebServer/src/AsyncWebSocket.cpp.
 */
module WebSocketSender {
  import opened Bytes
  import opened WebSocketFrames

  /** The AsyncClient as web sockets see it: `sent` is every byte accepted, `room` what space() reports.
      An add of at most `room` bytes succeeds. */
  class Connection {
    ghost var sent: seq<byte>
    var room: nat
    var sendable: bool

    constructor (room: nat, sendable: bool)
      requires room <= 0xFFFF
      ensures sent == [] && Valid()
    {
      this.sent, this.room, this.sendable := [], room, sendable;
    }

    /** The send buffer of the TCP stack is counted in 16 bits. */
    ghost predicate Valid()
      reads this
    {
      room <= 0xFFFF
    }

    method Add(data: seq<byte>)
      requires Valid() && |data| <= room
      modifies this
      ensures Valid() && sent == old(sent) + data
      ensures room == old(room) - |data| && sendable == old(sendable)
    {
      sent := sent + data;
      room := room - |data|;
    }
  }

  /** The window for one payload: eight bytes are kept for the longest header. */
  function FrameWindow(room: nat, sendable: bool): (w: nat)
    ensures (w > 0 <==> sendable && room >= 9) && (w > 0 ==> w + 8 == room)
  {
    if !sendable || room < 9 then 0 else room - 8
  }

  function SenderForm(len: nat): Form {
    if len < 126 then Short else Medium
  }

  function HeadLength(len: nat, mask: bool): nat {
    2 + (if len > 0 && mask then 4 else 0) + (if len > 125 then 2 else 0)
  }

  lemma SenderHeaderLength(f: Frame)
    requires FrameOk(f) && |f.payload| < 0x1_0000 && f.payload != []
    ensures |Header(f, SenderForm(|f.payload|))| == HeadLength(|f.payload|, f.key != [])
  {
  }

  /** The header bytes; what is not assigned is whatever malloc returned. */
  method BuildHeader(final: bool, opcode: nat, mask: bool, key: seq<byte>, headLen: nat, len: nat)
    returns (buf: array<byte>)
    requires opcode < 16 && |key| == 4 && len < 0x1_0000
    requires headLen >= 2 && (len >= 126 ==> headLen >= 4) && (len > 0 && mask ==> headLen >= 6)
    requires len >= 126 && mask ==> headLen >= 8
    ensures fresh(buf) && buf.Length == headLen
    ensures LooksLike(buf[..], final, opcode, if len > 0 && mask then key else [], len)
  {
    buf := new byte[headLen];
    buf[0] := opcode % 16;
    if final {
      buf[0] := buf[0] + 128;
    }
    if len < 126 {
      buf[1] := len % 128;
    } else {
      buf[1] := 126;
      buf[2] := len / 256 % 256;
      buf[3] := len % 256;
    }
    if len > 0 && mask {
      buf[1] := buf[1] + 128;
      forall k | 0 <= k < 4 {
        buf[headLen - 4 + k] := key[k];
      }
    }
  }

  /** The places of a header that the sender fills in. */
  ghost predicate LooksLike(s: seq<byte>, final: bool, opcode: nat, key: seq<byte>, len: nat) {
    |s| >= 2 + |key| && (len >= 126 ==> |s| >= 4 + |key|) &&
    s[0] == opcode + (if final then 128 else 0) &&
    s[1] == (if len < 126 then len else 126) + (if key != [] then 128 else 0) &&
    (len >= 126 ==> s[2] == len / 256 % 256 && s[3] == len % 256) &&
    (forall k :: 0 <= k < |key| ==> s[|s| - |key| + k] == key[k])
  }

  /** When the length is right, those places make up the header. */
  lemma LooksLikeHeader(s: seq<byte>, f: Frame)
    requires FrameOk(f) && |f.payload| < 0x1_0000
    requires LooksLike(s, f.fin, f.opcode, f.key, |f.payload|)
    requires |s| == 2 + |f.key| + (if |f.payload| > 125 then 2 else 0)
    ensures s == Header(f, SenderForm(|f.payload|))
  {
    hide BigEndian;
    assert s[|s| - |f.key|..] == f.key;
    if |f.payload| > 125 {
      TwoBytes(|f.payload|);
      assert s[..4] == [FirstByte(f), SecondByte(f, 126)] + BigEndian(|f.payload|, 2);
      assert s == s[..4] + s[4..];
    } else {
      assert s[..2] == [FirstByte(f), SecondByte(f, |f.payload|)];
      assert s == s[..2] + s[2..];
    }
  }

  /** webSocketSendFrame on data[off..off+len]. `key` holds the four random bytes. */
  method SendFrame(client: Connection, final: bool, opcode: nat, mask: bool, key: seq<byte>,
                   data: array<byte>, off: nat, len: nat) returns (n: nat)
    requires client.Valid() && off + len <= data.Length && opcode < 16 && |key| == 4
    modifies client, data
    ensures client.Valid() && client.sendable == old(client.sendable)
    // Nothing is written when not even the header fits.
    ensures !old(client.sendable) || old(client.room) < HeadLength(len, mask) ==>
              n == 0 && client.sent == old(client.sent) && data[..] == old(data[..])
    // A payload that does not fit is cut to the room left by the header.
    ensures old(client.sendable) && old(client.room) >= HeadLength(len, mask) ==>
              n == Min(len, old(client.room) - HeadLength(len, mask))
    // A frame that fits is written whole.
    ensures old(client.sendable) && old(client.room) >= HeadLength(len, mask) + len ==>
              var f := Frame(final, opcode, if len > 0 && mask then key else [], old(data[off..off + len]));
              FrameOk(f) && FormFits(SenderForm(len), len) &&
              client.sent == old(client.sent) + EncodeFrame(f, SenderForm(len))
    ensures forall k :: 0 <= k < data.Length && !(off <= k < off + len) ==> data[k] == old(data[k])
  {
    hide Masked, LooksLike, Header;
    if !client.sendable {
      return 0;
    }
    var space := client.room;
    if space < 2 {
      return 0;
    }
    var headLen := 2;
    if len > 0 && mask {
      headLen := headLen + 4;
    }
    if len > 125 {
      headLen := headLen + 2;
    }
    if space < headLen {
      return 0;
    }
    space := space - headLen;
    n := if len > space then space else len;
    ghost var before, chunk := client.sent, data[off..off + n];
    var buf := BuildHeader(final, opcode, mask, key, headLen, n);
    client.Add(buf[..]);
    if n > 0 {
      if mask {
        MaskInPlace(data, off, n, key);
      }
      client.Add(data[off..off + n]);
    } else {
      assert client.sent + [] == client.sent;
    }
    if n == len {
      ghost var f := Frame(final, opcode, if len > 0 && mask then key else [], chunk);
      LooksLikeHeader(buf[..], f);
      assert data[off..off + n] == WirePayload(f);
      Regroup(before, buf[..], data[off..off + n]);
    }
  }

  lemma TwoBytes(n: nat)
    requires n < 0x1_0000
    ensures BigEndian(n, 2) == [n / 256 % 256, n % 256]
  {
    assert BigEndian(n / 256, 1) == BigEndian(n / 256 / 256, 0) + [n / 256 % 256];
  }

  /** The masking loop: data[off..off+len] is overwritten by its masked form. */
  method MaskInPlace(data: array<byte>, off: nat, len: nat, key: seq<byte>)
    requires off + len <= data.Length && |key| == 4
    modifies data
    ensures data[off..off + len] == Masked(key, old(data[off..off + len]), 0)
    ensures forall k :: 0 <= k < len ==> data[off + k] == Xor(old(data[off + k]), key[k % 4])
    ensures forall k :: 0 <= k < data.Length && !(off <= k < off + len) ==> data[k] == old(data[k])
  {
    hide Xor;
    var i := 0;
    while i < len
      invariant i <= len
      invariant forall k :: 0 <= k < i ==> data[off + k] == Xor(old(data[off + k]), key[k % 4])
      invariant forall k :: 0 <= k < data.Length && !(off <= k < off + i) ==> data[k] == old(data[k])
    {
      data[off + i] := Xor(data[off + i], key[i % 4]);
      i := i + 1;
    }
    ghost var was := old(data[off..off + len]);
    assert forall k :: 0 <= k < len ==> was[k] == old(data[off + k]);
    assert data[off..off + len] == Masked(key, was, 0);
  }

  // ---------- one message ----------

  datatype Status = WS_MSG_SENDING | WS_MSG_SENT | WS_MSG_ERROR

  /** The payloads of the frames, put together. */
  ghost function Payloads(xs: seq<Sent>): seq<byte> {
    if xs == [] then [] else Payloads(xs[..|xs| - 1]) + xs[|xs| - 1].frame.payload
  }

  lemma PayloadsSnoc(xs: seq<Sent>, x: Sent)
    ensures Payloads(xs + [x]) == Payloads(xs) + x.frame.payload
  {
    assert (xs + [x])[..|xs|] == xs;
  }

  /** Fragmentation as section 5.4 wants it: the opcode on the first frame, continuations (0)
      after it, FIN on the last frame and only when the message is complete. */
  ghost predicate Fragmented(xs: seq<Sent>, opcode: nat, mask: bool, complete: bool) {
    AllOk(xs) &&
    forall i :: 0 <= i < |xs| ==>
      var f := xs[i].frame;
      f.payload != [] && f.opcode == (if i == 0 then opcode else 0) &&
      (f.fin <==> complete && i == |xs| - 1) && (f.key != [] <==> mask) &&
      xs[i].form == SenderForm(|f.payload|)
  }

  lemma FragmentedSnoc(xs: seq<Sent>, x: Sent, opcode: nat, mask: bool, complete: bool)
    requires Fragmented(xs, opcode, mask, false) && SentOk(x)
    requires x.frame.payload != [] && x.frame.opcode == (if xs == [] then opcode else 0)
    requires x.frame.fin == complete && (x.frame.key != [] <==> mask)
    requires x.form == SenderForm(|x.frame.payload|)
    ensures Fragmented(xs + [x], opcode, mask, complete)
  {
  }

  class BasicMessage {
    const opcode: nat
    const mask: bool
    const len: nat
    const data: array<byte>
    var sent: nat
    var ack: nat
    var acked: nat
    var status: Status
    ghost const message: seq<byte>
    ghost var frames: seq<Sent>

    ghost predicate Valid()
      reads this, data
    {
      opcode < 8 && data.Length == len + 1 && |message| == len && sent <= len &&
      data[sent..len] == message[sent..] &&
      Fragmented(frames, opcode, mask, sent == len) && (frames == [] <==> sent == 0) &&
      Payloads(frames) == message[..sent] &&
      ack == |EncodeAll(frames)| && acked <= ack &&
      status != WS_MSG_ERROR &&
      (status == WS_MSG_SENT ==> sent == len && acked == ack) &&
      (status == WS_MSG_SENDING && sent == len && len > 0 ==> acked < ack)
    }

    /** The bytes this message has put on the connection. */
    ghost function Wire(): seq<byte>
      requires Valid()
      reads this, data
    {
      EncodeAll(frames)
    }

    constructor (message: seq<byte>, opcode: nat, mask: bool)
      ensures Valid() && fresh(data) && frames == [] && status == WS_MSG_SENDING
      ensures this.message == message && this.opcode == opcode % 8 && this.mask == mask
    {
      this.opcode, this.mask, this.len, this.message := opcode % 8, mask, |message|, message;
      sent, ack, acked, status, frames := 0, 0, 0, WS_MSG_SENDING, [];
      data := new byte[|message| + 1](i => if 0 <= i < |message| then message[i] else 0);
    }

    predicate Finished()
      reads this
    {
      status != WS_MSG_SENDING
    }

    /** The record of a finished message. */
    ghost function Record(): (d: Delivered)
      requires Valid() && Finished()
      reads this, data
      ensures Complete(d) && d.wire == Wire() && d.message == message
    {
      assert message[..len] == message;
      Delivered(message, opcode, mask, frames, Wire())
    }

    lemma NothingSent()
      requires Valid() && frames == []
      ensures Wire() == []
    {
    }

    predicate BetweenFrames()
      reads this
    {
      acked == ack
    }

    /** The TCP stack acknowledges no more than it was handed. */
    method Ack(n: nat)
      requires Valid() && acked + n <= ack && (status == WS_MSG_SENT ==> n == 0)
      modifies this`acked, this`status
      ensures Valid() && acked == old(acked) + n
      ensures len > 0 ==> (status == WS_MSG_SENT <==> sent == len && acked == ack)
    {
      acked := acked + n;
      if sent == len && acked == ack {
        status := WS_MSG_SENT;
      }
    }

    /** One call of `send`; the caller has seen a non-empty window, as _runQueue does. */
    method Send(client: Connection, key: seq<byte>) returns (n: nat)
      requires Valid() && client.Valid() && |key| == 4
      requires FrameWindow(client.room, client.sendable) > 0
      modifies this`sent, this`ack, this`status, this`frames, data, client
      ensures Valid() && client.Valid()
      ensures old(Wire()) <= Wire()
      ensures client.sent == old(client.sent) + Wire()[|old(Wire())|..]
      ensures sent == old(sent) + n && client.sendable == old(client.sendable)
      ensures n == if old(status) == WS_MSG_SENDING && old(acked == ack)
                   then Min(len - old(sent), FrameWindow(old(client.room), old(client.sendable))) else 0
      ensures n == 0 ==> status == (if old(status == WS_MSG_SENDING && acked == ack && sent == len)
                                    then WS_MSG_SENT else old(status))
      ensures n > 0 ==> status == WS_MSG_SENDING && acked < ack
    {
      if status != WS_MSG_SENDING {
        return 0;
      }
      if acked < ack {
        return 0;
      }
      if sent == len {
        if acked == ack {
          status := WS_MSG_SENT;
        }
        return 0;
      }
      var toSend := len - sent;
      var window := FrameWindow(client.room, client.sendable);
      if window < toSend {
        toSend := window;
      }
      n := SendFragment(client, key, toSend);
    }

    /** The part of `send` from line 347 on. */
    method SendFragment(client: Connection, key: seq<byte>, toSend: nat) returns (n: nat)
      requires Valid() && client.Valid() && |key| == 4
      requires status == WS_MSG_SENDING && acked == ack && 0 < toSend <= len - sent
      requires toSend <= FrameWindow(client.room, client.sendable)
      modifies this`sent, this`ack, this`status, this`frames, data, client
      ensures Valid() && client.Valid() && n == toSend && sent == old(sent) + n
      ensures client.sendable == old(client.sendable)
      ensures old(Wire()) <= Wire() && client.sent == old(client.sent) + Wire()[|old(Wire())|..]
      ensures status == WS_MSG_SENDING && acked < ack
    {
      hide Payloads, EncodeAll, EncodeFrame, Fragmented, Header, WirePayload, FrameOk, FormFits, SenderForm, LooksLike;
      ghost var x := NextFrame(key, toSend);
      ghost var before := frames;
      assert x.frame.payload == data[sent..sent + toSend];
      sent := sent + toSend;
      ack := ack + toSend + (if toSend < 126 then 2 else 4) + (if mask then 4 else 0);
      var final := sent == len;
      var opCode := if toSend != 0 && sent == toSend then opcode else 0;
      n := SendFrame(client, final, opCode, mask, key, data, sent - toSend, toSend);
      assert data[sent..len] == old(data[sent..len])[toSend..];
      frames := before + [x];
    }

    /** The next frame, and what it adds to the message's record. */
    lemma NextFrame(key: seq<byte>, toSend: nat) returns (x: Sent)
      requires Valid() && |key| == 4 && 0 < toSend <= len - sent && toSend < 0x1_0000
      ensures x == Sent(Frame(sent + toSend == len, if sent == 0 then opcode else 0, if mask then key else [],
                              data[sent..sent + toSend]), SenderForm(toSend))
      ensures SentOk(x) && Fragmented(frames + [x], opcode, mask, sent + toSend == len)
      ensures EncodeAll(frames + [x]) == EncodeAll(frames) + EncodeFrame(x.frame, x.form)
      ensures |EncodeFrame(x.frame, x.form)| == HeadLength(toSend, mask) + toSend
      ensures Payloads(frames + [x]) == message[..sent + toSend]
    {
      hide Payloads, EncodeAll, EncodeFrame, Header;
      x := Sent(Frame(sent + toSend == len, if sent == 0 then opcode else 0, if mask then key else [],
                      data[sent..sent + toSend]), SenderForm(toSend));
      assert data[sent..len][..toSend] == data[sent..sent + toSend];
      assert message[sent..][..toSend] == message[sent..sent + toSend];
      assert x.frame.payload == message[sent..sent + toSend];
      Grow(x);
      hide Fragmented;
      SenderHeaderLength(x.frame);
      EncodedLength(x);
      PayloadsSnoc(frames, x);
      assert message[..sent] + x.frame.payload == message[..sent + toSend];
    }

    lemma EncodedLength(x: Sent)
      requires SentOk(x)
      ensures |EncodeFrame(x.frame, x.form)| == |Header(x.frame, x.form)| + |x.frame.payload|
    {
    }

    lemma Grow(x: Sent)
      requires Fragmented(frames, opcode, mask, false) && SentOk(x)
      requires x.frame.payload != [] && x.frame.opcode == (if frames == [] then opcode else 0)
      requires (x.frame.key != [] <==> mask) && x.form == SenderForm(|x.frame.payload|)
      ensures Fragmented(frames + [x], opcode, mask, x.frame.fin)
      ensures EncodeAll(frames + [x]) == EncodeAll(frames) + EncodeFrame(x.frame, x.form)
    {
      FragmentedSnoc(frames, x, opcode, mask, x.frame.fin);
      EncodeAllSnoc(frames, x);
    }
  }

  // ---------- the queue of messages of one connection ----------

  const MAX_QUEUED: nat := 32

  /** What a finished message leaves behind: its text and the frames that carried it. */
  datatype Delivered = Delivered(message: seq<byte>, opcode: nat, mask: bool, frames: seq<Sent>, wire: seq<byte>)

  ghost predicate Complete(d: Delivered) {
    d.opcode < 8 && Fragmented(d.frames, d.opcode, d.mask, true) && Payloads(d.frames) == d.message &&
    d.wire == EncodeAll(d.frames)
  }

  ghost function DeliveredBytes(ds: seq<Delivered>): seq<byte> {
    if ds == [] then [] else DeliveredBytes(ds[..|ds| - 1]) + ds[|ds| - 1].wire
  }

  /** What is left to do for a queued message: its bytes, one call to notice that there are none, and
      one to remove it. */
  ghost function Todo(m: BasicMessage): nat
    reads m
  {
    if m.Finished() || m.sent > m.len then 1 else m.len - m.sent + 2
  }

  ghost function Work(ms: seq<BasicMessage>): nat
    reads ms
  {
    if ms == [] then 0 else Todo(ms[0]) + Work(ms[1..])
  }

  class WebSocketClient {
    const client: Connection
    var messageQueue: seq<BasicMessage>
    ghost var delivered: seq<Delivered>

    /** No two queued messages share storage, and each is in order. */
    ghost predicate Separate()
      reads this, messageQueue, set m | m in messageQueue :: m.data
    {
      (forall i :: 0 <= i < |messageQueue| ==> messageQueue[i].Valid()) &&
      (forall i, j :: 0 <= i < j < |messageQueue| ==>
        messageQueue[i] != messageQueue[j] && messageQueue[i].data != messageQueue[j].data)
    }

    ghost function FrontBytes(): seq<byte>
      requires Separate()
      reads this, messageQueue, set m | m in messageQueue :: m.data
    {
      if messageQueue == [] then [] else messageQueue[0].Wire()
    }

    /** Only the front message has bytes on the wire, after those of the delivered ones. */
    ghost predicate Valid()
      reads this, client, messageQueue, set m | m in messageQueue :: m.data
    {
      client.Valid() && Separate() &&
      (forall i :: 0 < i < |messageQueue| ==> messageQueue[i].frames == []) &&
      (forall i :: 0 <= i < |delivered| ==> Complete(delivered[i])) &&
      client.sent == DeliveredBytes(delivered) + FrontBytes()
    }

    constructor (client: Connection)
      requires client.Valid() && client.sent == []
      ensures Valid() && messageQueue == [] && delivered == [] && this.client == client
    {
      this.client := client;
      messageQueue, delivered := [], [];
    }

    /** The front message is finished: it leaves the queue, its bytes stay on the wire. */
    method RemoveFront()
      requires Valid() && messageQueue != [] && messageQueue[0].Finished()
      modifies this
      ensures Valid() && messageQueue == old(messageQueue)[1..]
      ensures Moved(old(messageQueue), old(delivered), messageQueue, delivered)
      ensures Work(messageQueue) < old(Work(messageQueue))
    {
      hide BasicMessage.Valid, Complete, EncodeAll;
      var m := messageQueue[0];
      ghost var d := m.Record();
      ghost var was := delivered;
      delivered := delivered + [d];
      assert delivered[..|was|] == was;
      messageQueue := messageQueue[1..];
      assert Separate();
      if messageQueue != [] {
        messageQueue[0].NothingSent();
      }
      hide Separate;
      assert FrontBytes() == [];
      assert DeliveredBytes(delivered) == DeliveredBytes(was) + d.wire;
    }

    /** The loop at the start of `_runQueue`. */
    method RemoveFinished()
      requires Valid()
      modifies this
      ensures Valid() && (messageQueue == [] || !messageQueue[0].Finished())
      ensures Handed(old(messageQueue), old(delivered))
      ensures messageQueue == old(messageQueue) || Work(messageQueue) < old(Work(messageQueue))
      ensures old(messageQueue == [] || !messageQueue[0].Finished()) ==> messageQueue == old(messageQueue)
    {
      hide BasicMessage.Valid, Complete, Valid, Separate, Work;
      ghost var queue, before, work := messageQueue, delivered, Work(messageQueue);
      assert queue[0..] == queue;
      while messageQueue != [] && messageQueue[0].Finished()
        invariant Valid() && Moved(queue, before, messageQueue, delivered)
        invariant messageQueue == queue || (queue[0].Finished() && Work(messageQueue) < work)
        decreases |messageQueue|
      {
        hide Moved;
        ghost var mid, during := messageQueue, delivered;
        RemoveFront();
        MovedTwice(queue, before, mid, during, messageQueue, delivered);
      }
    }

    /** The message branch of `_runQueue` and the removal of finished messages before it. */
    method RunQueue(key: seq<byte>)
      requires Valid() && |key| == 4
      modifies this, client, messageQueue, set m | m in messageQueue :: m.data
      ensures Valid() && old(client.sent) <= client.sent
      ensures Handed(old(messageQueue), old(delivered))
      // Every finished message at the front is gone, and the next one sends what the window takes.
      ensures messageQueue != [] ==>
                var m := messageQueue[0];
                !old(m.Finished()) && m.acked == old(m.acked) &&
                m.sent == old(m.sent) + if old(m.BetweenFrames())
                                        then Min(m.len - old(m.sent),
                                                 FrameWindow(old(client.room), old(client.sendable)))
                                        else 0
      // With an open window, a front message that waits for no acknowledgement moves on.
      ensures old(Moving()) ==> Work(messageQueue) < old(Work(messageQueue))
      ensures client.sendable == old(client.sendable)
    {
      hide BasicMessage.Valid, Complete, Valid, Separate, FrameWindow;
      RemoveFinished();
      assert messageQueue != [] ==> messageQueue[0].sent <= messageQueue[0].len by { SentInLength(); }
      if messageQueue != [] && messageQueue[0].BetweenFrames() && FrameWindow(client.room, client.sendable) != 0 {
        SendFront(messageQueue[0], key);
      }
    }

    /** The window is open, and the front message is finished or between two frames. */
    ghost predicate Moving()
      reads this, client, messageQueue
    {
      messageQueue != [] && FrameWindow(client.room, client.sendable) > 0 &&
      (messageQueue[0].Finished() || messageQueue[0].BetweenFrames())
    }

    lemma SentInLength()
      requires Valid()
      ensures messageQueue != [] ==> messageQueue[0].sent <= messageQueue[0].len
    {
    }

    /** The queue lost a prefix, and exactly those messages were delivered, in order. */
    ghost predicate Handed(queue: seq<BasicMessage>, before: seq<Delivered>)
      reads this
    {
      Moved(queue, before, messageQueue, delivered)
    }

    static ghost predicate Moved(queue: seq<BasicMessage>, before: seq<Delivered>,
                                 rest: seq<BasicMessage>, after: seq<Delivered>)
    {
      |rest| <= |queue| && rest == queue[|queue| - |rest|..] &&
      |after| + |rest| == |before| + |queue| && after[..|before|] == before &&
      forall k :: |before| <= k < |after| ==> after[k].message == queue[k - |before|].message
    }

    static lemma MovedSuffix(queue: seq<BasicMessage>, before: seq<Delivered>,
                             rest: seq<BasicMessage>, after: seq<Delivered>)
      requires Moved(queue, before, rest, after)
      ensures |rest| <= |queue| && rest == queue[|queue| - |rest|..]
    {
    }

    static lemma MovedTwice(queue: seq<BasicMessage>, before: seq<Delivered>, mid: seq<BasicMessage>,
                            during: seq<Delivered>, rest: seq<BasicMessage>, after: seq<Delivered>)
      requires Moved(queue, before, mid, during) && Moved(mid, during, rest, after)
      ensures Moved(queue, before, rest, after)
    {
      assert after[..|before|] == after[..|during|][..|before|];
      forall k | |before| <= k < |after| ensures after[k].message == queue[k - |before|].message {
        if k < |during| {
          assert after[k] == after[..|during|][k];
        } else {
          assert mid[k - |during|] == queue[|queue| - |mid| + (k - |during|)];
        }
      }
    }

    method SendFront(m: BasicMessage, key: seq<byte>)
      requires Valid() && |key| == 4 && messageQueue != [] && m == messageQueue[0]
      requires FrameWindow(client.room, client.sendable) != 0
      modifies client, m`sent, m`ack, m`status, m`frames, m.data
      ensures Valid() && old(client.sent) <= client.sent
      ensures old(!m.Finished() && m.BetweenFrames()) ==>
                m.sent == old(m.sent) + Min(m.len - old(m.sent), FrameWindow(old(client.room), old(client.sendable))) &&
                Work(messageQueue) < old(Work(messageQueue))
      ensures client.sendable == old(client.sendable)
    {
      hide BasicMessage.Valid, Complete, DeliveredBytes, FrameWindow, EncodeAll;
      ghost var was := DeliveredBytes(delivered);
      ghost var w := m.Wire();
      var n := m.Send(client, key);
      assert Separate();
      Regroup(was, w, m.Wire()[|w|..]);
      assert w + m.Wire()[|w|..] == m.Wire();
    }

    /** `_onAck` without control frames: the front message is told, then the queue runs. */
    method OnAck(len: nat, key: seq<byte>)
      requires Valid() && |key| == 4
      requires messageQueue != [] ==> messageQueue[0].acked + len <= messageQueue[0].ack
      modifies this, client, messageQueue, set m | m in messageQueue :: m.data
      ensures Valid() && old(client.sent) <= client.sent
      ensures Handed(old(messageQueue), old(delivered))
      // A front message with everything sent and acknowledged leaves the queue.
      ensures old(messageQueue != [] && messageQueue[0].sent == messageQueue[0].len) &&
              old(messageQueue[0].acked) + len == old(messageQueue[0].ack) && len > 0 ==>
                |messageQueue| < |old(messageQueue)|
      // A frame that is acknowledged is followed by as much as the window takes.
      ensures messageQueue != [] ==>
                var m := messageQueue[0];
                var told := if m == old(messageQueue)[0] then len else 0;
                m.acked == old(m.acked) + told &&
                m.sent == old(m.sent) + if old(m.acked) + told == old(m.ack)
                                        then Min(m.len - old(m.sent),
                                                 FrameWindow(old(client.room), old(client.sendable)))
                                        else 0
      // When all that the front message sent is acknowledged and the window is open, something is done.
      ensures old(messageQueue != [] && FrameWindow(client.room, client.sendable) > 0 &&
                  messageQueue[0].acked + len == messageQueue[0].ack) ==>
                Work(messageQueue) < old(Work(messageQueue))
      ensures client.sendable == old(client.sendable)
    {
      hide BasicMessage.Valid, Complete, Valid, Separate, FrameWindow, Work, Moved;
      if len != 0 && messageQueue != [] {
        TellFront(messageQueue[0], len);
      }
      RunQueue(key);
      MovedSuffix(old(messageQueue), old(delivered), messageQueue, delivered);
    }

    /** The stack reports its window, and all that the front message has on the wire is acknowledged. */
    method AckAll(room: nat, key: seq<byte>)
      requires Valid() && |key| == 4 && client.sendable && messageQueue != [] && 9 <= room <= 0xFFFF
      modifies this, client, messageQueue, set m | m in messageQueue :: m.data
      ensures Valid() && client.sendable && Handed(old(messageQueue), old(delivered))
      ensures Work(messageQueue) < old(Work(messageQueue))
    {
      hide BasicMessage.Valid, Complete, Work, Valid, Moved;
      Report(room);
      AckedInOrder();
      OnAck(messageQueue[0].ack - messageQueue[0].acked, key);
    }

    method Report(room: nat)
      requires Valid() && room <= 0xFFFF
      modifies client`room
      ensures Valid() && client.room == room
    {
      hide BasicMessage.Valid, Complete, DeliveredBytes;
      client.room := room;
      assert Separate();
    }

    lemma AckedInOrder()
      requires Valid()
      ensures messageQueue != [] ==> messageQueue[0].acked <= messageQueue[0].ack
    {
    }

    /** A whole exchange of such turns, with windows that are arbitrary but open: after at most `Work`
        turns every queued message has been handed over, in order. */
    method Exchange(rooms: seq<nat>, key: seq<byte>)
      requires Valid() && |key| == 4 && client.sendable
      requires forall i :: 0 <= i < |rooms| ==> 9 <= rooms[i] <= 0xFFFF
      requires |rooms| >= Work(messageQueue)
      modifies this, client, messageQueue, set m | m in messageQueue :: m.data
      ensures Valid() && messageQueue == [] && Handed(old(messageQueue), old(delivered))
    {
      hide BasicMessage.Valid, Complete, Valid, Separate, Work;
      var i := 0;
      while i < |rooms| && messageQueue != []
        invariant i <= |rooms| && Valid() && client.sendable
        invariant Handed(old(messageQueue), old(delivered))
        invariant i + Work(messageQueue) <= |rooms|
        decreases |rooms| - i
      {
        AckAll(rooms[i], key);
        i := i + 1;
      }
      NoWork(messageQueue);
    }

    static lemma NoWork(ms: seq<BasicMessage>)
      ensures Work(ms) == 0 ==> ms == []
    {
    }

    lemma AreSeparate()
      requires Valid()
      ensures forall i, j :: 0 <= i < j < |messageQueue| ==> messageQueue[i] != messageQueue[j]
    {
    }

    /** The front message is told of acknowledged bytes; the queue has no more work for that. */
    method TellFront(m: BasicMessage, len: nat)
      requires Valid() && messageQueue != [] && m == messageQueue[0] && 0 < len
      requires m.acked + len <= m.ack
      modifies m`acked, m`status
      ensures Valid() && m.acked == old(m.acked) + len
      ensures m.Finished() <==> m.sent == m.len && m.BetweenFrames()
      ensures Work(messageQueue) <= old(Work(messageQueue))
    {
      AreSeparate();
      ghost var rest := messageQueue[1..];
      assert forall i :: 0 <= i < |rest| ==> rest[i] == messageQueue[i + 1];
      hide BasicMessage.Valid, Valid, Separate;
      Tell(m, len);
      assert Work(rest) == old(Work(rest));
    }

    method Tell(m: BasicMessage, len: nat)
      requires Valid() && messageQueue != [] && m == messageQueue[0] && 0 < len
      requires m.acked + len <= m.ack
      modifies m`acked, m`status
      ensures Valid() && m.acked == old(m.acked) + len
      ensures m.Finished() <==> m.sent == m.len && m.BetweenFrames()
      ensures old(m.Finished()) ==> m.Finished()
    {
      hide Complete, DeliveredBytes;
      assert m.status != WS_MSG_SENT && m.len > 0;
      m.Ack(len);
      assert m.Finished() <==> m.status == WS_MSG_SENT;
      hide BasicMessage.Valid;
      assert Separate();
    }

    /** `_queueMessage` on a connected client. */
    method QueueMessage(m: BasicMessage, key: seq<byte>)
      requires Valid() && |key| == 4 && m.Valid() && m.frames == []
      requires forall i :: 0 <= i < |messageQueue| ==> messageQueue[i] != m && messageQueue[i].data != m.data
      modifies this, client, messageQueue, set x | x in messageQueue :: x.data, m, m.data
      ensures Valid() && old(client.sent) <= client.sent
      ensures Handed(if |old(messageQueue)| < MAX_QUEUED then old(messageQueue) + [m] else old(messageQueue),
                     old(delivered))
      // The queue runs at once if the connection can take anything.
      ensures old(client.sendable) && messageQueue != [] ==>
                var f := messageQueue[0];
                !old(f.Finished()) &&
                f.sent == old(f.sent) + if old(f.BetweenFrames())
                                        then Min(f.len - old(f.sent),
                                                 FrameWindow(old(client.room), old(client.sendable)))
                                        else 0
      ensures !old(client.sendable) ==> client.sent == old(client.sent)
    {
      hide BasicMessage.Valid, Complete, Valid, Separate;
      if |messageQueue| < MAX_QUEUED {
        Append(m);
      }
      if client.sendable {
        RunQueue(key);
      }
    }

    method Append(m: BasicMessage)
      requires Valid() && m.Valid() && m.frames == []
      requires forall i :: 0 <= i < |messageQueue| ==> messageQueue[i] != m && messageQueue[i].data != m.data
      modifies this`messageQueue
      ensures Valid() && messageQueue == old(messageQueue) + [m]
    {
      hide BasicMessage.Valid, Complete, DeliveredBytes;
      ghost var front := FrontBytes();
      messageQueue := messageQueue + [m];
      assert Separate();
      assert FrontBytes() == front;
    }
  }
}
