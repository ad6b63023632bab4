/**
 AsyncBasicResponse of components/ESPAsyncWebServer/src/WebResponses.cpp: a head and a body sent
 through a TCP window that may be smaller than either.
 */
module BasicResponse {
  import opened Bytes

  datatype State = RESPONSE_SETUP | RESPONSE_HEADERS | RESPONSE_CONTENT | RESPONSE_WAIT_ACK | RESPONSE_END

  class Response {
    var state: State
    var content: string
    var contentLength: nat
    var sentLength: nat
    var ackedLength: nat
    var writtenLength: nat
    /** Every byte handed to the connection; a write of at most space() bytes succeeds. */
    ghost var wire: string
    ghost var head: string
    ghost const body: string

    /** The bytes that are still to be written. After the one-shot paths of Respond the content
        string is left as it was, although it has been written. */
    ghost function Pending(): string
      reads this
    {
      if state == RESPONSE_CONTENT then content else ""
    }

    /** The counters agree with what is left of the content. */
    ghost predicate Counted()
      reads this
    {
      |content| == contentLength - sentLength
    }

    ghost predicate Valid()
      reads this
    {
      writtenLength == |wire| && ackedLength <= writtenLength &&
      if state == RESPONSE_SETUP then
        content == body && contentLength == |body| && sentLength == 0 && wire == ""
      else
        state != RESPONSE_HEADERS && wire + Pending() == head + body &&
        (state == RESPONSE_CONTENT ==> Counted()) &&
        (state == RESPONSE_END ==> ackedLength == writtenLength)
    }

    constructor (content: string)
      ensures Valid() && state == RESPONSE_SETUP && body == content
    {
      this.body, this.content, contentLength := content, content, |content|;
      state, sentLength, ackedLength, writtenLength := RESPONSE_SETUP, 0, 0, 0;
      wire, head := "", "";
    }

    method Write(s: string)
      modifies this`writtenLength, this`wire
      ensures wire == old(wire) + s && writtenLength == old(writtenLength) + |s|
    {
      wire := wire + s;
      writtenLength := writtenLength + |s|;
    }

    /** `_respond`; `out` is the assembled head, `space` what the connection takes now. */
    method Respond(out: string, space: nat)
      requires Valid() && state == RESPONSE_SETUP && out != ""
      modifies this
      ensures Valid() && head == out && ackedLength == old(ackedLength)
      ensures state == RESPONSE_WAIT_ACK <==> space >= |out| + |body|
      ensures state == RESPONSE_WAIT_ACK || state == RESPONSE_CONTENT
      ensures |wire| <= space && Counted()
      // As much as fits goes out at once; only a head that fits exactly waits for its body.
      ensures |wire| == if space == |out| && body != "" then 0 else Min(space, |out| + |body|)
    {
      head := out;
      state := RESPONSE_HEADERS;
      var outLen := |out|;
      if contentLength == 0 && space >= outLen {
        Write(out);
        state := RESPONSE_WAIT_ACK;
      } else if contentLength != 0 && space >= outLen + contentLength {
        Write(out + content);
        state := RESPONSE_WAIT_ACK;
      } else if space != 0 && space < outLen {
        Write(out[..space]);
        content := out[space..] + content;
        contentLength := contentLength + (outLen - space);
        state := RESPONSE_CONTENT;
      } else if space > outLen && space < outLen + contentLength {
        var shift := space - outLen;
        sentLength := sentLength + shift;
        Write(out + content[..shift]);
        content := content[shift..];
        state := RESPONSE_CONTENT;
      } else {
        content := out + content;
        contentLength := contentLength + outLen;
        state := RESPONSE_CONTENT;
      }
    }

    /** `_ack`: n more bytes acknowledged (0 from a poll), `space` what the connection takes. */
    method Ack(n: nat, space: nat) returns (written: nat)
      requires Valid() && state != RESPONSE_SETUP && ackedLength + n <= writtenLength
      modifies this
      ensures Valid() && head == old(head) && ackedLength == old(ackedLength) + n
      ensures old(wire) <= wire && written == |wire| - |old(wire)| <= space
      ensures old(state) == RESPONSE_CONTENT ==>
                written == Min(space, |old(Pending())|) &&
                state == if space > |old(Pending())| then RESPONSE_WAIT_ACK else RESPONSE_CONTENT
      ensures old(state) == RESPONSE_WAIT_ACK ==>
                written == 0 && (state == RESPONSE_END <==> ackedLength == |head + body|)
      ensures old(state) == RESPONSE_END ==> state == RESPONSE_END && written == 0
      // The counters agree until the last chunk is written: it does not count as sent.
      ensures old(state) == RESPONSE_CONTENT ==> (Counted() <==> state == RESPONSE_CONTENT || old(content) == "")
      ensures old(state) != RESPONSE_CONTENT ==> Counted() == old(Counted())
      // Whenever there is room the response comes closer to its end.
      ensures space > 0 && old(state) == RESPONSE_CONTENT ==> Distance() < old(Distance())
    {
      ackedLength := ackedLength + n;
      written := 0;
      if state == RESPONSE_CONTENT {
        var available := contentLength - sentLength;
        if space > available {
          Write(content);
          content := "";
          state := RESPONSE_WAIT_ACK;
          written := available;
        } else {
          var out := content[..space];
          content := content[space..];
          sentLength := sentLength + space;
          Write(out);
          written := space;
        }
      } else if state == RESPONSE_WAIT_ACK {
        if ackedLength >= writtenLength {
          state := RESPONSE_END;
        }
      }
    }

    /** Bytes to write, then one last turn to notice that there are none. */
    ghost function Distance(): nat
      reads this
    {
      if state == RESPONSE_CONTENT then |content| + 2 else if state == RESPONSE_WAIT_ACK then 1 else 0
    }

    /** A whole exchange: the windows are arbitrary but open (the last acknowledgements may come
        as polls), and everything written is acknowledged in each turn. Head and body go out once
        and in order, and the response reaches its end after at most |out| + |body| + 2 turns. */
    method Exchange(out: string, first: nat, windows: seq<nat>)
      requires Valid() && state == RESPONSE_SETUP && out != ""
      requires |windows| >= |out| + |body| + 2 && forall i :: 0 <= i < |windows| ==> windows[i] > 0
      modifies this
      ensures Valid() && state == RESPONSE_END && wire == out + body
    {
      Respond(out, first);
      var i := 0;
      while i < |windows|
        invariant i <= |windows| && Valid() && head == out && state != RESPONSE_SETUP
        invariant Distance() == 0 || Distance() + i <= |out| + |body| + 2
        invariant Distance() == 0 ==> state == RESPONSE_END
      {
        var n := Ack(writtenLength - ackedLength, windows[i]);
        i := i + 1;
      }
      assert wire + "" == wire;
    }
  }
}
