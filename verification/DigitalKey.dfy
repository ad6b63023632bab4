/**
 The Digital Key secure channel of components/HK-HomeKit-Lib/src/crypto/DigitalKeySecureContext.cpp.
 AES-CBC and CMAC come from a library and appear as unknown functions: all that is assumed is that
 decryption undoes encryption under the same key and vector, and that a MAC has sixteen bytes.
 */
module DigitalKey {
  import opened Bytes

  const FLAG: byte := 0x80
  const BLOCK: nat := 16

  // ---------- padding ----------

  function Zeros(n: nat): seq<byte> {
    seq(n, _ => 0)
  }

  /** Zeros after the flag byte; never none, up to a whole block. */
  function PaddingLength(size: nat): nat {
    BLOCK - (size + 1) % BLOCK
  }

  function Pad(message: seq<byte>): seq<byte> {
    message + [FLAG] + Zeros(PaddingLength(|message|))
  }

  /** pad_mode_3 with block size 16: the buffer is filled in place. */
  method PadMode3(message: seq<byte>) returns (padded: seq<byte>)
    ensures padded == Pad(message)
    ensures |message| < |padded| && padded[..|message|] == message && padded[|message|] == 0x80
    ensures forall i :: |message| < i < |padded| ==> padded[i] == 0
  {
    var paddingLength := BLOCK - (|message| + 1) % BLOCK;
    var total := |message| + paddingLength + 1;
    var buf := new byte[total](_ => 0);
    forall i | 0 <= i < |message| {
      buf[i] := message[i];
    }
    buf[|message|] := FLAG;
    padded := buf[..];
  }

  /** Whole blocks, always more than the message; the least such number of blocks if and only if
      the flag byte does not by itself complete a block. */
  lemma PaddedLength(message: seq<byte>)
    ensures |Pad(message)| % BLOCK == 0 && |message| + 1 < |Pad(message)| <= |message| + 1 + BLOCK
    ensures |Pad(message)| - BLOCK <= |message| <==> (|message| + 1) % BLOCK != 0
  {
    var n := |message| + 1;
    var q := n / BLOCK;
    assert n + (BLOCK - n % BLOCK) == (q + 1) * BLOCK;
  }

  predicate NoFlag(s: seq<byte>) {
    forall i :: 0 <= i < |s| ==> s[i] != FLAG
  }

  /** unpad_mode_3: bytes other than zero are passed over as well. */
  method UnpadMode3(message: seq<byte>) returns (index: int)
    ensures -1 <= index < |message| && (index == -1 ==> message == [])
    ensures message != [] ==> message[..index] == Unpad(message)
  {
    var i := |message| - 1;
    while i >= 0
      invariant -1 <= i < |message| && NoFlag(message[i + 1..])
    {
      if message[i] == FLAG {
        assert message == message[..i] + [FLAG] + message[i + 1..];
        UnpadSplit(message, message[..i], message[i + 1..]);
        return i;
      } else if message[i] == 0 {
        i := i - 1;
        continue;
      }
      i := i - 1;
    }
    assert message[0..] == message;
    if message != [] {
      UnpadNone(message);
    }
    return |message| - 1;
  }

  /** What decrypt keeps of a padded message. */
  function Unpad(padded: seq<byte>): seq<byte> {
    if padded == [] then []
    else if padded[|padded| - 1] == FLAG || NoFlag(padded) then padded[..|padded| - 1]
    else Unpad(padded[..|padded| - 1])
  }

  lemma UnpadNone(padded: seq<byte>)
    requires padded != [] && NoFlag(padded)
    ensures Unpad(padded) == padded[..|padded| - 1]
  {
  }

  ghost predicate SplitsAt(padded: seq<byte>, message: seq<byte>, tail: seq<byte>) {
    padded == message + [FLAG] + tail && NoFlag(tail)
  }

  lemma {:induction false} UnpadSplit(padded: seq<byte>, message: seq<byte>, tail: seq<byte>)
    requires SplitsAt(padded, message, tail)
    ensures Unpad(padded) == message
    decreases |tail|
  {
    assert padded[|message|] == FLAG;
    if tail == [] {
      assert padded[..|padded| - 1] == message;
    } else {
      var shorter := tail[..|tail| - 1];
      assert padded[|padded| - 1] == tail[|tail| - 1];
      assert padded[..|padded| - 1] == message + [FLAG] + shorter;
      UnpadSplit(padded[..|padded| - 1], message, shorter);
    }
  }

  lemma NowhereSplit(padded: seq<byte>, message: seq<byte>, tail: seq<byte>)
    requires NoFlag(padded)
    ensures !SplitsAt(padded, message, tail)
  {
    var joined := message + [FLAG] + tail;
    assert joined[|message|] == FLAG;
  }

  /** Exactly when a padded text is read as a message: it ends at the last flag byte, or, with no
      flag byte at all, the last byte is lost. What follows the flag is not looked at. */
  lemma UnpadIs(padded: seq<byte>, message: seq<byte>)
    requires padded != []
    ensures Unpad(padded) == message <==>
            (exists tail :: SplitsAt(padded, message, tail)) || (NoFlag(padded) && message == padded[..|padded| - 1])
  {
    hide SplitsAt, Unpad, NoFlag;
    if NoFlag(padded) {
      UnpadNone(padded);
      forall tail ensures !SplitsAt(padded, message, tail) {
        NowhereSplit(padded, message, tail);
      }
    } else {
      var at := LastFlag(padded);
      Split(padded, at);
      UnpadSplit(padded, padded[..at], padded[at + 1..]);
      forall t | SplitsAt(padded, message, t) ensures Unpad(padded) == message {
        UnpadSplit(padded, message, t);
      }
    }
  }

  lemma Split(padded: seq<byte>, at: nat)
    requires at < |padded| && padded[at] == FLAG && NoFlag(padded[at + 1..])
    ensures SplitsAt(padded, padded[..at], padded[at + 1..])
  {
  }

  function LastFlag(s: seq<byte>): (at: nat)
    requires !NoFlag(s)
    ensures at < |s| && s[at] == FLAG && NoFlag(s[at + 1..])
  {
    if s[|s| - 1] == FLAG then |s| - 1
    else
      assert !NoFlag(s[..|s| - 1]) by {
        var i :| 0 <= i < |s| && s[i] == FLAG;
        assert s[..|s| - 1][i] == FLAG;
      }
      var at := LastFlag(s[..|s| - 1]);
      assert s[at + 1..] == s[..|s| - 1][at + 1..] + [s[|s| - 1]];
      at
  }

  /** Main result on padding: unpadding undoes it for every message, whatever it ends in. */
  lemma UnpadPad(message: seq<byte>)
    ensures Unpad(Pad(message)) == message
  {
    UnpadSplit(Pad(message), message, Zeros(PaddingLength(|message|)));
  }

  // ---------- the channel ----------

  datatype Crypto = Crypto(
    enc: (seq<byte>, seq<byte>, seq<byte>) -> seq<byte>,
    dec: (seq<byte>, seq<byte>, seq<byte>) -> seq<byte>,
    mac: (seq<byte>, seq<byte>) -> seq<byte>)

  ghost predicate Sound(c: Crypto) {
    (forall k, iv, m :: |m| % BLOCK == 0 ==> |c.enc(k, iv, m)| == |m|) &&
    (forall k, iv, m :: |m| % BLOCK == 0 ==> |c.dec(k, iv, m)| == |m|) &&
    (forall k, iv, m :: |m| % BLOCK == 0 ==> c.dec(k, iv, c.enc(k, iv, m)) == m) &&
    (forall k, m :: |c.mac(k, m)| == 16)
  }

  datatype Keys = Keys(kenc: seq<byte>, kmac: seq<byte>, krmac: seq<byte>)

  const COMMAND_PCB: seq<byte> := [0x00] + Zeros(14)
  const RESPONSE_PCB: seq<byte> := [0x80] + Zeros(14)

  /** The initial vector: the counter byte, encrypted. */
  function Icv(c: Crypto, key: seq<byte>, pcb: seq<byte>, counter: nat): seq<byte> {
    c.enc(key, Zeros(16), pcb + [(counter % 256) as byte])
  }

  function Sealed(c: Crypto, key: seq<byte>, pcb: seq<byte>, counter: nat, m: seq<byte>): seq<byte> {
    if m == [] then [] else c.enc(key, Icv(c, key, pcb, counter), Pad(m))
  }

  /** Ciphertext and the first eight bytes of its MAC, chained on sixteen zeros. */
  function Frame(c: Crypto, key: seq<byte>, macKey: seq<byte>, pcb: seq<byte>, counter: nat, m: seq<byte>)
    : (f: seq<byte>)
    requires Sound(c)
    ensures |f| >= 8
  {
    var ct := Sealed(c, key, pcb, counter, m);
    ct + c.mac(macKey, Zeros(16) + ct)[..8]
  }

  datatype Opened = Opened(plain: seq<byte>, counter: nat)

  /** What a receiver makes of a frame: nothing if the MAC is wrong or the length is no number of
      blocks; only a message that was decrypted moves the counter. */
  function Open(c: Crypto, key: seq<byte>, macKey: seq<byte>, pcb: seq<byte>, counter: nat, frame: seq<byte>): Opened
    requires Sound(c) && |frame| >= 8
  {
    var ct := frame[..|frame| - 8];
    if frame[|frame| - 8..] != c.mac(macKey, Zeros(16) + ct)[..8] then Opened([], counter)
    else if ct == [] || |ct| % BLOCK != 0 then Opened([], counter)
    else Opened(Unpad(c.dec(key, Icv(c, key, pcb, counter), ct)), counter + 1)
  }

  /** One frame: it opens to the very message, and the counter moves unless the message is empty.
      Equal counters modulo 256 are enough. */
  lemma OpenFrame(c: Crypto, key: seq<byte>, macKey: seq<byte>, pcb: seq<byte>, sender: nat, receiver: nat,
                  m: seq<byte>)
    requires Sound(c) && sender % 256 == receiver % 256
    ensures Open(c, key, macKey, pcb, receiver, Frame(c, key, macKey, pcb, sender, m)) ==
            Opened(m, if m == [] then receiver else receiver + 1)
  {
    hide Pad, Unpad;
    var ct := Sealed(c, key, pcb, sender, m);
    var frame := Frame(c, key, macKey, pcb, sender, m);
    assert frame[..|frame| - 8] == ct;
    assert frame[|frame| - 8..] == c.mac(macKey, Zeros(16) + ct)[..8];
    if m != [] {
      PaddedLength(m);
      UnpadPad(m);
      assert |ct| == |Pad(m)|;
    }
  }

  /** The MAC of a frame is right for its ciphertext. */
  ghost predicate Authentic(c: Crypto, macKey: seq<byte>, frame: seq<byte>)
    requires Sound(c) && |frame| >= 8
  {
    frame[|frame| - 8..] == c.mac(macKey, Zeros(16) + frame[..|frame| - 8])[..8]
  }

  /** A frame is taken if and only if its MAC is right and it holds at least one block, and only
      whole ones; any other yields nothing and leaves the counter. */
  lemma TakenExactly(c: Crypto, key: seq<byte>, macKey: seq<byte>, pcb: seq<byte>, counter: nat, frame: seq<byte>)
    requires Sound(c) && |frame| >= 8
    ensures var o := Open(c, key, macKey, pcb, counter, frame);
            (o.counter == counter + 1 <==> Authentic(c, macKey, frame) && |frame| > 8 && |frame| % BLOCK == 8) &&
            (o.counter != counter + 1 ==> o == Opened([], counter))
  {
    hide Unpad;
  }

  /** One wrong byte in the MAC of a frame is always noticed. */
  lemma WrongMacRefused(c: Crypto, key: seq<byte>, macKey: seq<byte>, pcb: seq<byte>, sender: nat, receiver: nat,
                        m: seq<byte>, k: nat, v: byte)
    requires Sound(c)
    requires var f := Frame(c, key, macKey, pcb, sender, m); |f| - 8 <= k < |f| && v != f[k]
    ensures var f := Frame(c, key, macKey, pcb, sender, m);
            Open(c, key, macKey, pcb, receiver, f[k := v]) == Opened([], receiver)
  {
    hide Pad, Unpad, Sealed;
    var ct := Sealed(c, key, pcb, sender, m);
    var f := Frame(c, key, macKey, pcb, sender, m);
    var g := f[k := v];
    assert g[..|g| - 8] == ct && f[|f| - 8..] == c.mac(macKey, Zeros(16) + ct)[..8];
    assert g[|g| - 8..][k - (|f| - 8)] == v;
    assert f[|f| - 8..][k - (|f| - 8)] == f[k];
  }

  /** Vectors repeat only after 256 messages, and those of the two directions never meet. */
  lemma VectorsDiffer(c: Crypto, key: seq<byte>, p: seq<byte>, q: seq<byte>, m: nat, n: nat)
    requires Sound(c) && |p| == |q| == 15
    ensures Icv(c, key, p, m) == Icv(c, key, q, n) <==> p == q && m % 256 == n % 256
  {
    var x, y := p + [(m % 256) as byte], q + [(n % 256) as byte];
    assert c.dec(key, Zeros(16), c.enc(key, Zeros(16), x)) == x;
    assert c.dec(key, Zeros(16), c.enc(key, Zeros(16), y)) == y;
    assert x[..15] == p && y[..15] == q && x[15] == (m % 256) as byte && y[15] == (n % 256) as byte;
  }

  // ---------- sessions ----------

  /** A command and its response. */
  datatype Round = Round(command: seq<byte>, response: seq<byte>)

  datatype Talked = Talked(heard: seq<Round>, device: nat, peer: nat)

  /** A run of the channel against a peer that does the same with the roles swapped: what each
      side reads of every round, and the counters at the end. */
  function Talk(c: Crypto, keys: Keys, device: nat, peer: nat, rounds: seq<Round>): Talked
    requires Sound(c)
    decreases |rounds|
  {
    if rounds == [] then Talked([], device, peer)
    else
      var command := Frame(c, keys.kenc, keys.kmac, COMMAND_PCB, device, rounds[0].command);
      var heard := Open(c, keys.kenc, keys.kmac, COMMAND_PCB, peer, command).plain;
      var response := Frame(c, keys.kenc, keys.krmac, RESPONSE_PCB, peer, rounds[0].response);
      var answer := Open(c, keys.kenc, keys.krmac, RESPONSE_PCB, device, response);
      var rest := Talk(c, keys, answer.counter, if rounds[0].response == [] then peer else peer + 1, rounds[1..]);
      rest.(heard := [Round(heard, answer.plain)] + rest.heard)
  }

  function Answered(rounds: seq<Round>): nat {
    if rounds == [] then 0 else (if rounds[0].response == [] then 0 else 1) + Answered(rounds[1..])
  }

  lemma InStep(device: nat, peer: nat, step: nat)
    requires device % 256 == peer % 256
    ensures (device + step) % 256 == (peer + step) % 256
  {
  }

  /** Main result: from counters that agree modulo 256, every command and every response of every
      session arrives as it was sent, and both counters advance in step. */
  lemma {:induction false} SessionDecrypts(c: Crypto, keys: Keys, device: nat, peer: nat, rounds: seq<Round>)
    requires Sound(c) && device % 256 == peer % 256
    ensures Talk(c, keys, device, peer, rounds) == Talked(rounds, device + Answered(rounds), peer + Answered(rounds))
    decreases |rounds|
  {
    hide Frame, Open, Sound, Zeros;
    if rounds != [] {
      OpenFrame(c, keys.kenc, keys.kmac, COMMAND_PCB, device, peer, rounds[0].command);
      OpenFrame(c, keys.kenc, keys.krmac, RESPONSE_PCB, peer, device, rounds[0].response);
      var step := if rounds[0].response == [] then 0 else 1;
      InStep(device, peer, step);
      SessionDecrypts(c, keys, device + step, peer + step, rounds[1..]);
      assert [rounds[0]] + rounds[1..] == rounds;
    }
  }

  class SecureContext {
    const c: Crypto
    const keys: Keys
    var counter: nat

    /** The three keys of the volatile key, one after the other. */
    constructor (c: Crypto, volatileKey: seq<byte>)
      requires |volatileKey| >= 48
      ensures counter == 0 && this.c == c
      ensures volatileKey[..48] == keys.kenc + keys.kmac + keys.krmac
      ensures |keys.kenc| == |keys.kmac| == |keys.krmac| == 16
    {
      this.c := c;
      counter := 0;
      keys := Keys(volatileKey[..16], volatileKey[16..32], volatileKey[32..48]);
    }

    method Encrypt(plaintext: seq<byte>, pcb: seq<byte>, key: seq<byte>) returns (out: seq<byte>)
      ensures out == Sealed(c, key, pcb, counter, plaintext)
      ensures plaintext != [] ==>
                out == c.enc(key, c.enc(key, Zeros(16), pcb + [(counter % 256) as byte]), Pad(plaintext))
    {
      if plaintext == [] {
        return [];
      }
      var padded := PadMode3(plaintext);
      var icv := c.enc(key, Zeros(16), pcb + [(counter % 256) as byte]);
      out := c.enc(key, icv, padded);
    }

    method Decrypt(ciphertext: seq<byte>, pcb: seq<byte>, key: seq<byte>) returns (plain: seq<byte>)
      requires Sound(c)
      modifies this
      ensures if ciphertext == [] || |ciphertext| % BLOCK != 0 then plain == [] && counter == old(counter)
              else plain == Unpad(c.dec(key, Icv(c, key, pcb, old(counter)), ciphertext)) && counter == old(counter) + 1
    {
      if ciphertext == [] {
        return [];
      }
      var icv := c.enc(key, Zeros(16), pcb + [(counter % 256) as byte]);
      if |ciphertext| % BLOCK != 0 {
        return [];
      }
      var dec := c.dec(key, icv, ciphertext);
      var paddingIndex := UnpadMode3(dec);
      plain := dec[..paddingIndex];
      counter := counter + 1;
    }

    /** encrypt_command: the counter stays. The whole MAC is returned beside the frame. */
    method EncryptCommand(data: seq<byte>) returns (result: seq<byte>, mac: seq<byte>)
      requires Sound(c)
      ensures result == Frame(c, keys.kenc, keys.kmac, COMMAND_PCB, counter, data)
      ensures |result| >= 8 && mac == c.mac(keys.kmac, Zeros(16) + result[..|result| - 8]) && |mac| == 16
      ensures result[|result| - 8..] == mac[..8]
    {
      var ciphertext := Encrypt(data, COMMAND_PCB, keys.kenc);
      mac := c.mac(keys.kmac, Zeros(16) + ciphertext);
      result := ciphertext + mac[..8];
      assert result[..|result| - 8] == ciphertext;
    }

    method DecryptResponse(data: seq<byte>) returns (plain: seq<byte>)
      requires Sound(c) && |data| >= 8
      modifies this
      ensures Opened(plain, counter) == Open(c, keys.kenc, keys.krmac, RESPONSE_PCB, old(counter), data)
      // Nothing is read from a response with a wrong MAC, and it does not move the counter.
      ensures plain != [] || counter != old(counter) ==>
                data[|data| - 8..] == c.mac(keys.krmac, Zeros(16) + data[..|data| - 8])[..8]
      ensures counter == old(counter) + 1 <==>
                Authentic(c, keys.krmac, data) && |data| > 8 && |data| % BLOCK == 8
    {
      var mac := c.mac(keys.krmac, Zeros(16) + data[..|data| - 8]);
      if data[|data| - 8..] != mac[..8] {
        return [];
      }
      plain := Decrypt(data[..|data| - 8], RESPONSE_PCB, keys.kenc);
    }
  }
}
