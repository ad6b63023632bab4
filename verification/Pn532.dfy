/**
 PN532 information frames (section 6.2.1 of the PN532 User Manual, UM0701-02): `writeFrame` and
 `readResponse` of components/PN532/src/PN532_SPI.cpp.
 */
module Pn532 {
  import opened Bytes

  const HOST_TO_PN532: byte := 0xD4
  const PN532_TO_HOST: byte := 0xD5
  const INVALID_FRAME := -3
  const NO_SPACE := -4
  const ERROR_FRAME := -5

  // ---------- the frames of the manual ----------

  function Sum(s: seq<byte>): nat {
    if s == [] then 0 else Sum(s[..|s| - 1]) + s[|s| - 1]
  }

  /** The low eight bits of a sum. */
  function Low(n: nat): byte {
    n % 256
  }

  /** The byte that makes a sum vanish modulo 256. */
  function Complement(n: nat): byte {
    (256 - n % 256) % 256
  }

  lemma LowAdd(a: nat, b: nat)
    ensures Low(Low(a) + b) == Low(a + b)
  {
  }

  lemma Vanishes(n: nat, b: byte)
    ensures Low(n + b) == 0 <==> b == Complement(n)
  {
    var r := n % 256;
    assert n + b == 256 * (n / 256) + (r + b);
    assert (n + b) % 256 == (r + b) % 256;
  }

  lemma LowDiffers(n: nat, a: byte, b: byte)
    ensures Low(n + a) == Low(n + b) ==> a == b
  {
    var x, y := n + a, n + b;
    assert x == 256 * (x / 256) + x % 256 && y == 256 * (y / 256) + y % 256;
  }

  lemma SumSnoc(s: seq<byte>, x: byte)
    ensures Sum(s + [x]) == Sum(s) + x
  {
    assert (s + [x])[..|s|] == s;
  }

  lemma {:induction false} SumConcat(s: seq<byte>, t: seq<byte>)
    ensures Sum(s + t) == Sum(s) + Sum(t)
    decreases |t|
  {
    if t == [] {
      assert s + t == s;
    } else {
      var n := |t| - 1;
      SumConcat(s, t[..n]);
      assert s + t == s + t[..n] + [t[n]];
      SumSnoc(s + t[..n], t[n]);
    }
  }

  lemma {:induction false} SumUpdate(s: seq<byte>, k: nat, v: byte)
    requires k < |s|
    ensures Sum(s[k := v]) == Sum(s) - s[k] + v
    decreases |s|
  {
    var n := |s| - 1;
    if k < n {
      SumUpdate(s[..n], k, v);
      assert s[k := v][..n] == s[..n][k := v];
    } else {
      assert s[k := v][..n] == s[..n];
    }
  }

  /** A normal information frame: LEN counts the frame identifier and the data. */
  function NormalFrame(tfi: byte, data: seq<byte>, postamble: byte): seq<byte>
    requires |data| < 255
  {
    var len := |data| + 1;
    [0, 0, 0xFF, len, Complement(len), tfi] + data + [Complement(tfi + Sum(data)), postamble]
  }

  /** An extended information frame, for longer data. */
  function ExtendedFrame(tfi: byte, data: seq<byte>, postamble: byte): seq<byte>
    requires |data| < 0xFFFF
  {
    var len := |data| + 1;
    [0, 0, 0xFF, 0xFF, 0xFF, len / 256, len % 256, Complement(len / 256 + len % 256), tfi] + data
    + [Complement(tfi + Sum(data)), postamble]
  }

  // ---------- writing ----------

  /** Appending bytes one by one, with a running 8-bit sum: both loops of `writeFrame`. */
  method PushAll(writeBuf: seq<byte>, sum: byte, data: seq<byte>) returns (out: seq<byte>, total: byte)
    ensures out == writeBuf + data && total == Low(sum + Sum(data))
  {
    hide Low;
    out, total := writeBuf, sum;
    assert writeBuf + data[..0] == writeBuf;
    LowOfByte(sum);
    for i := 0 to |data|
      invariant out == writeBuf + data[..i] && total == Low(sum + Sum(data[..i]))
    {
      SumSnoc(data[..i], data[i]);
      assert data[..i + 1] == data[..i] + [data[i]];
      LowAdd(sum + Sum(data[..i]), data[i]);
      out := out + [data[i]];
      total := Low((total as int) + data[i]);
    }
    assert data[..|data|] == data;
  }

  lemma LowOfByte(b: byte)
    ensures Low(b) == b
  {
  }

  /** `writeFrame`, with the 8-bit arithmetic of the source. */
  method WriteFrame(header: seq<byte>, body: seq<byte>) returns (writeBuf: seq<byte>)
    requires |header| < 256 && |body| < 256
    ensures |writeBuf| == 8 + |header| + |body|
    // Both checksums hold for every header and body ...
    ensures Low(writeBuf[3] as int + writeBuf[4]) == 0
    ensures Low(Sum(writeBuf[5..|writeBuf| - 1])) == 0
    // ... and the whole is the manual's frame exactly when the length fits its byte.
    ensures |header| + |body| < 255 ==> writeBuf == NormalFrame(HOST_TO_PN532, header + body, 0)
    ensures |header| + |body| >= 255 ==> writeBuf[3] != |header| + |body| + 1
  {
    hide Sum, Complement;
    var length: byte := Low(|header| + |body| + 1);
    writeBuf := [0, 0, 0xFF, length, Complement(length), HOST_TO_PN532];
    ghost var head := writeBuf;
    var sum: byte := HOST_TO_PN532;
    writeBuf, sum := PushAll(writeBuf, sum, header);
    writeBuf, sum := PushAll(writeBuf, sum, body);
    LowAdd(HOST_TO_PN532 + Sum(header), Sum(body));
    SumConcat(header, body);
    ghost var data := header + body;
    assert writeBuf == head + data && sum == Low(HOST_TO_PN532 + Sum(data));
    var checksum: byte := Complement(sum);
    ComplementOfLow(HOST_TO_PN532 + Sum(data));
    writeBuf := writeBuf + [checksum];
    writeBuf := writeBuf + [0];
    FrameSums(length, data, checksum);
    assert writeBuf[5..|writeBuf| - 1] == [HOST_TO_PN532] + data + [checksum];
  }

  lemma ComplementOfLow(n: nat)
    ensures Complement(Low(n)) == Complement(n)
  {
  }

  lemma FrameSums(length: byte, data: seq<byte>, checksum: byte)
    requires checksum == Complement(HOST_TO_PN532 + Sum(data))
    ensures Low(length as int + Complement(length)) == 0
    ensures Low(Sum([HOST_TO_PN532] + data + [checksum])) == 0
  {
    Vanishes(length, Complement(length));
    SumSnoc([HOST_TO_PN532] + data, checksum);
    SumConcat([HOST_TO_PN532], data);
    assert Sum([HOST_TO_PN532]) == HOST_TO_PN532;
    Vanishes(HOST_TO_PN532 + Sum(data), checksum);
  }

  // ---------- reading ----------

  /** What the bus delivers, byte by byte, for as long as it is read. */
  type Bus = nat -> byte

  datatype Reply = Accepted(body: seq<byte>) | Rejected(code: int)

  function Slice(w: Bus, from: nat, n: nat): (s: seq<byte>)
    ensures |s| == n
  {
    seq(n, i requires 0 <= i < n => w(from + i))
  }

  function IsExtended(w: Bus): bool {
    w(3) == 0xFF && w(4) == 0xFF
  }

  /** rxLen, in 16 bits: what the length field leaves for the body. */
  function BodyLength(w: Bus): (n: nat)
    ensures n < 0x1_0000
  {
    if IsExtended(w) then (w(5) as int * 256 + w(6) + 0xFFFE) % 0x1_0000
    else if w(3) >= 2 then w(3) - 2
    else w(3)
  }

  function BodyStart(w: Bus): nat {
    if IsExtended(w) then 10 else 7
  }

  predicate HeaderOk(w: Bus) {
    w(0) == 0 && w(1) == 0 && w(2) == 0xFF &&
    if IsExtended(w) then Low(w(5) as int + w(6) + w(7)) == 0 else Low(w(3) as int + w(4)) == 0
  }

  /** The decision of `readResponse` for the command sent before. */
  function Parse(w: Bus, command: byte, space: nat): Reply {
    if !HeaderOk(w) then Rejected(INVALID_FRAME)
    else
      var at, n := BodyStart(w), BodyLength(w);
      var tfi, cmd := w(at - 2), w(at - 1);
      var body := Slice(w, at, n);
      if n == 1 && tfi == 0x7F && cmd == 0x81 then Rejected(ERROR_FRAME)
      else if tfi != PN532_TO_HOST || cmd != command + 1 then Rejected(INVALID_FRAME)
      else if n > space then Rejected(NO_SPACE)
      else if Low(PN532_TO_HOST as int + cmd + Sum(body) + w(at + n)) != 0 then Rejected(INVALID_FRAME)
      else Accepted(body)
  }

  /** The bus starts with these bytes. */
  ghost predicate Carries(w: Bus, s: seq<byte>) {
    forall i :: 0 <= i < |s| ==> w(i) == s[i]
  }

  lemma SliceOfCarried(w: Bus, s: seq<byte>, from: nat, n: nat)
    requires Carries(w, s) && from + n <= |s|
    ensures Slice(w, from, n) == s[from..from + n]
  {
  }

  lemma DataSum(command: byte, body: seq<byte>)
    requires command < 255
    ensures Sum([command + 1] + body) == command + 1 + Sum(body)
  {
    SumConcat([command + 1], body);
    assert Sum([command + 1]) == command + 1;
  }

  lemma NormalAt(data: seq<byte>, postamble: byte)
    requires 0 < |data| < 255
    ensures var f := NormalFrame(PN532_TO_HOST, data, postamble); var len := |data| + 1;
            |f| == 8 + |data| && f[0] == 0 && f[1] == 0 && f[2] == 0xFF && f[3] == len &&
            f[4] == Complement(len) && f[5] == PN532_TO_HOST && f[6] == data[0] && f[6..6 + |data|] == data &&
            f[6 + |data|] == Complement(PN532_TO_HOST + Sum(data)) && f[7 + |data|] == postamble
  {
  }

  /** What the bus then shows, place by place. */
  lemma NormalSeen(w: Bus, data: seq<byte>, postamble: byte)
    requires 0 < |data| < 255 && Carries(w, NormalFrame(PN532_TO_HOST, data, postamble))
    ensures w(0) == 0 && w(1) == 0 && w(2) == 0xFF && w(3) == |data| + 1 && w(4) == Complement(|data| + 1)
    ensures w(5) == PN532_TO_HOST && w(6) == data[0] && Slice(w, 7, |data| - 1) == data[1..]
    ensures w(6 + |data|) == Complement(PN532_TO_HOST + Sum(data))
  {
    hide Sum, Complement, NormalFrame;
    var f := NormalFrame(PN532_TO_HOST, data, postamble);
    NormalAt(data, postamble);
    assert w(0) == f[0] && w(1) == f[1] && w(2) == f[2] && w(3) == f[3] && w(4) == f[4];
    assert w(5) == f[5] && w(6) == f[6] && w(6 + |data|) == f[6 + |data|];
    SliceOfCarried(w, f, 7, |data| - 1);
    assert f[7..6 + |data|] == f[6..6 + |data|][1..];
  }

  /** Any well-formed normal reply that fits is accepted with exactly its body, whatever the
      postamble. */
  lemma NormalAccepted(w: Bus, command: byte, body: seq<byte>, space: nat, postamble: byte)
    requires command < 255 && |body| < 254 && |body| <= space
    requires Carries(w, NormalFrame(PN532_TO_HOST, [command + 1] + body, postamble))
    ensures Parse(w, command, space) == Accepted(body)
  {
    hide Low, Complement, Sum, Slice, NormalFrame, Carries;
    var data := [command + 1] + body;
    NormalSeen(w, data, postamble);
    assert data[1..] == body;
    DataSum(command, body);
    Vanishes(PN532_TO_HOST + Sum(data), w(7 + |body|));
    Vanishes(|body| + 2, w(4));
    LengthNotExtended(|body| + 2);
  }

  /** A well-formed reply that does not fit is refused for that reason and no other. */
  lemma NormalTooLong(w: Bus, command: byte, body: seq<byte>, space: nat, postamble: byte)
    requires command < 255 && |body| < 254 && |body| > space
    requires Carries(w, NormalFrame(PN532_TO_HOST, [command + 1] + body, postamble))
    ensures Parse(w, command, space) == Rejected(-4)
  {
    hide Low, Complement, Sum, Slice, NormalFrame, Carries;
    var data := [command + 1] + body;
    NormalSeen(w, data, postamble);
    Vanishes(|body| + 2, w(4));
    LengthNotExtended(|body| + 2);
  }

  /** The error frame of the manual, section 6.2.1.5, and a reply to another command. */
  lemma ErrorFrame(w: Bus, command: byte, space: nat)
    requires Carries(w, [0x00, 0x00, 0xFF, 0x01, 0xFF, 0x7F, 0x81, 0x00])
    ensures Parse(w, command, space) == Rejected(-5)
  {
    var f: seq<byte> := [0x00, 0x00, 0xFF, 0x01, 0xFF, 0x7F, 0x81, 0x00];
    assert w(0) == f[0] && w(1) == f[1] && w(2) == f[2] && w(3) == f[3] && w(4) == f[4];
    assert w(5) == f[5] && w(6) == f[6];
    hide Sum, Slice;
  }

  lemma OtherCommand(w: Bus, command: byte, other: byte, body: seq<byte>, space: nat, postamble: byte)
    requires other < 255 && other != command && |body| < 254
    requires Carries(w, NormalFrame(PN532_TO_HOST, [other + 1] + body, postamble))
    ensures Parse(w, command, space) == Rejected(-3)
  {
    hide Low, Complement, Sum, Slice, NormalFrame, Carries;
    var data := [other + 1] + body;
    NormalSeen(w, data, postamble);
    Vanishes(|body| + 2, w(4));
    LengthNotExtended(|body| + 2);
  }

  lemma LengthNotExtended(n: nat)
    requires 2 <= n < 256
    ensures Complement(n) != 255
  {
  }

  lemma ExtendedSeen(w: Bus, data: seq<byte>, postamble: byte)
    requires 0 < |data| < 0xFFFF && Carries(w, ExtendedFrame(PN532_TO_HOST, data, postamble))
    ensures w(0) == 0 && w(1) == 0 && w(2) == 0xFF && w(3) == 0xFF && w(4) == 0xFF
    ensures var len := |data| + 1; w(5) == len / 256 && w(6) == len % 256 && w(7) == Complement(len / 256 + len % 256)
    ensures w(8) == PN532_TO_HOST && w(9) == data[0] && Slice(w, 10, |data| - 1) == data[1..]
    ensures w(9 + |data|) == Complement(PN532_TO_HOST + Sum(data))
  {
    hide Sum, Complement, ExtendedFrame;
    var f := ExtendedFrame(PN532_TO_HOST, data, postamble);
    ExtendedAt(data, postamble);
    assert w(0) == f[0] && w(1) == f[1] && w(2) == f[2] && w(3) == f[3] && w(4) == f[4];
    assert w(5) == f[5] && w(6) == f[6] && w(7) == f[7];
    assert w(8) == f[8] && w(9) == f[9] && w(9 + |data|) == f[9 + |data|];
    SliceOfCarried(w, f, 10, |data| - 1);
    assert f[10..9 + |data|] == f[9..9 + |data|][1..];
  }

  lemma ExtendedAccepted(w: Bus, command: byte, body: seq<byte>, space: nat, postamble: byte)
    requires command < 255 && |body| < 0xFFFE && |body| <= space
    requires Carries(w, ExtendedFrame(PN532_TO_HOST, [command + 1] + body, postamble))
    ensures Parse(w, command, space) == Accepted(body)
  {
    hide Low, Complement, Sum, Slice, ExtendedFrame, Carries;
    var data := [command + 1] + body;
    ExtendedSeen(w, data, postamble);
    assert data[1..] == body;
    DataSum(command, body);
    Vanishes(w(5) as int + w(6), w(7));
    Vanishes(PN532_TO_HOST + Sum(data), w(10 + |body|));
    TwoByteLength(|data| + 1);
  }

  lemma ExtendedAt(data: seq<byte>, postamble: byte)
    requires 0 < |data| < 0xFFFF
    ensures var f := ExtendedFrame(PN532_TO_HOST, data, postamble); var len := |data| + 1;
            |f| == 11 + |data| && f[0] == 0 && f[1] == 0 && f[2] == 0xFF && f[3] == 0xFF && f[4] == 0xFF &&
            f[5] == len / 256 && f[6] == len % 256 && f[7] == Complement(len / 256 + len % 256) &&
            f[8] == PN532_TO_HOST && f[9] == data[0] && f[9..9 + |data|] == data &&
            f[9 + |data|] == Complement(PN532_TO_HOST + Sum(data)) && f[10 + |data|] == postamble
  {
    hide Sum, Complement;
  }

  lemma TwoByteLength(len: nat)
    requires 2 <= len < 0x1_0000
    ensures ((len / 256) * 256 + len % 256 + 0xFFFE) % 0x1_0000 == len - 2
  {
    assert (len / 256) * 256 + len % 256 == len;
  }

  /** The converse: an accepted normal reply is a well-formed frame if and only if LEN counts the
      frame identifier and the command ... */
  lemma AcceptedNormal(w: Bus, command: byte, space: nat)
    requires Parse(w, command, space).Accepted? && !IsExtended(w)
    ensures command < 255 && |Parse(w, command, space).body| <= space
    ensures var body := Parse(w, command, space).body;
            w(3) >= 2 <==>
            |body| < 254 && Carries(w, NormalFrame(PN532_TO_HOST, [command + 1] + body, w(8 + |body|)))
  {
    if w(3) >= 2 {
      LongNormal(w, command, space);
    } else {
      hide Low, Complement, Sum;
      var body := Parse(w, command, space).body;
      var f := NormalFrame(PN532_TO_HOST, [command + 1] + body, w(8 + |body|));
      assert f[3] != w(3);
    }
  }

  lemma LongNormal(w: Bus, command: byte, space: nat)
    requires Parse(w, command, space).Accepted? && !IsExtended(w) && w(3) >= 2
    ensures var body := Parse(w, command, space).body;
            |body| <= space && |body| < 254 && command < 255 &&
            Carries(w, NormalFrame(PN532_TO_HOST, [command + 1] + body, w(8 + |body|)))
  {
    hide Low, Complement, Sum;
    var body := Parse(w, command, space).body;
    var data := [command + 1] + body;
    assert forall i :: 0 <= i < |body| ==> body[i] == w(7 + i);
    DataSum(command, body);
    hide Slice, NormalFrame;
    Vanishes(PN532_TO_HOST + Sum(data), w(7 + |body|));
    Vanishes(w(3), w(4));
    var f := NormalFrame(PN532_TO_HOST, data, w(8 + |body|));
    NormalAt(data, w(8 + |body|));
    forall i | 0 <= i < |f| ensures w(i) == f[i] {
      if 7 <= i < 7 + |body| {
        assert f[i] == f[6..6 + |data|][i - 6] == data[i - 6] == body[i - 7];
      }
    }
  }

  /** ... and likewise an accepted extended one; with a shorter length the code reads some 64 KiB. */
  lemma AcceptedExtended(w: Bus, command: byte, space: nat)
    requires Parse(w, command, space).Accepted? && IsExtended(w)
    ensures command < 255 && |Parse(w, command, space).body| <= space
    ensures var body := Parse(w, command, space).body;
            w(5) as int * 256 + w(6) >= 2 <==>
            |body| < 0xFFFE && Carries(w, ExtendedFrame(PN532_TO_HOST, [command + 1] + body, w(11 + |body|)))
  {
    if w(5) as int * 256 + w(6) >= 2 {
      LongExtended(w, command, space);
    }
  }

  lemma LongExtended(w: Bus, command: byte, space: nat)
    requires Parse(w, command, space).Accepted? && IsExtended(w) && w(5) as int * 256 + w(6) >= 2
    ensures var body := Parse(w, command, space).body;
            |body| <= space && |body| < 0xFFFE && command < 255 &&
            Carries(w, ExtendedFrame(PN532_TO_HOST, [command + 1] + body, w(11 + |body|)))
  {
    var body := Parse(w, command, space).body;
    ExtendedFacts(w, command, space);
    hide Low, Complement, Sum, Slice, Parse, ExtendedFrame, IsExtended, HeaderOk;
    var data := [command + 1] + body;
    DataSum(command, body);
    Vanishes(PN532_TO_HOST + Sum(data), w(10 + |body|));
    Vanishes(w(5) as int + w(6), w(7));
    var f := ExtendedFrame(PN532_TO_HOST, data, w(11 + |body|));
    ExtendedAt(data, w(11 + |body|));
    ExtendedBody(command, body, w(11 + |body|));
    assert w(7) == f[7] && w(10 + |body|) == f[10 + |body|];
    hide Carries;
    InThreeParts(w, f, body);
  }

  lemma InThreeParts(w: Bus, f: seq<byte>, body: seq<byte>)
    requires |f| == 12 + |body| && f[10..10 + |body|] == body
    requires w(0) == f[0] && w(1) == f[1] && w(2) == f[2] && w(3) == f[3] && w(4) == f[4]
    requires w(5) == f[5] && w(6) == f[6] && w(7) == f[7] && w(8) == f[8] && w(9) == f[9]
    requires forall i :: 0 <= i < |body| ==> body[i] == w(10 + i)
    requires w(10 + |body|) == f[10 + |body|] && w(11 + |body|) == f[11 + |body|]
    ensures Carries(w, f)
  {
    forall i | 10 <= i < 10 + |body| ensures w(i) == f[i] {
      assert f[i] == f[10..10 + |body|][i - 10] == body[i - 10] == w(10 + (i - 10));
    }
  }

  /** What an accepted extended reply looks like. */
  lemma ExtendedFacts(w: Bus, command: byte, space: nat)
    requires Parse(w, command, space).Accepted? && IsExtended(w) && w(5) as int * 256 + w(6) >= 2
    ensures w(0) == 0 && w(1) == 0 && w(2) == 0xFF && w(3) == 0xFF && w(4) == 0xFF
    ensures w(8) == PN532_TO_HOST && w(9) == command + 1
    ensures Low(w(5) as int + w(6) + w(7)) == 0
    ensures var body := Parse(w, command, space).body;
            |body| <= space && |body| + 2 == w(5) as int * 256 + w(6) &&
            (|body| + 2) / 256 == w(5) && (|body| + 2) % 256 == w(6) &&
            Low(PN532_TO_HOST as int + (command + 1) + Sum(body) + w(10 + |body|)) == 0 &&
            forall i :: 0 <= i < |body| ==> body[i] == w(10 + i)
  {
    hide Low, Sum;
    var len := w(5) as int * 256 + w(6);
    assert len / 256 == w(5) && len % 256 == w(6);
    TwoByteLength(len);
  }

  /** One wrong byte anywhere before the postamble of a normal reply is always noticed, but for the
      one that makes the longest such reply look like an extended one. */
  lemma OneWrongByteRejected(w: Bus, command: byte, body: seq<byte>, space: nat, postamble: byte, k: nat, v: byte)
    requires command < 255 && |body| <= 253 && !(|body| == 253 && k == 4 && v == 0xFF)
    requires var f := NormalFrame(PN532_TO_HOST, [command + 1] + body, postamble);
             k < |f| - 1 && v != f[k] && Carries(w, f[k := v])
    ensures Parse(w, command, space).Rejected? && Parse(w, command, space).code < 0
  {
    hide Low, Complement, Sum, Slice;
    var data := [command + 1] + body;
    var f := NormalFrame(PN532_TO_HOST, data, postamble);
    NormalAt(data, postamble);
    if k < 7 {
      WrongHead(w, command, data, postamble, k, v, space);
    } else {
      WrongData(w, command, body, postamble, k, v, space);
    }
  }

  lemma WrongHead(w: Bus, command: byte, data: seq<byte>, postamble: byte, k: nat, v: byte, space: nat)
    requires 0 < |data| <= 254 && k < 7 && data[0] == (command as int) + 1
    requires !(|data| == 254 && k == 4 && v == 0xFF)
    requires var f := NormalFrame(PN532_TO_HOST, data, postamble);
             |f| == 8 + |data| && v != f[k] && Carries(w, f[k := v])
    ensures Parse(w, command, space).Rejected? && Parse(w, command, space).code < 0
  {
    hide Low, Complement, Sum, Slice, NormalFrame;
    var f := NormalFrame(PN532_TO_HOST, data, postamble);
    NormalAt(data, postamble);
    var n := |data| + 1;
    assert w(k) == v;
    assert forall i :: 0 <= i < 7 && i != k ==> w(i) == f[i];
    hide Carries;
    LengthNotExtended(n);
    Vanishes(n, f[4]);
    Vanishes(n, w(4));
    if k == 3 {
      LowDiffers(f[4], n, v);
      assert f[4] as int + n == n + f[4];
      assert w(3) as int + w(4) == f[4] as int + v;
    }
  }

  lemma WrongData(w: Bus, command: byte, body: seq<byte>, postamble: byte, k: nat, v: byte, space: nat)
    requires command < 255 && |body| <= 253 && 7 <= k <= 7 + |body|
    requires var f := NormalFrame(PN532_TO_HOST, [command + 1] + body, postamble);
             |f| == 9 + |body| && v != f[k] && Carries(w, f[k := v])
    ensures Parse(w, command, space).Rejected? && Parse(w, command, space).code < 0
  {
    hide Low, Complement, Sum, Slice, NormalFrame;
    var data := [command + 1] + body;
    var f := NormalFrame(PN532_TO_HOST, data, postamble);
    NormalAt(data, postamble);
    var g := f[k := v];
    var n := |body|;
    assert w(3) == f[3] && w(4) == f[4] && w(7 + n) == g[7 + n];
    SliceOfCarried(w, g, 7, n);
    hide Carries;
    DataSum(command, body);
    LengthNotExtended(n + 2);
    assert f[7..7 + n] == f[6..6 + |data|][1..] == body;
    var rest := PN532_TO_HOST as int + (command + 1);
    Vanishes(rest + Sum(body), f[7 + n]);
    if k < 7 + n {
      assert f[k] == f[7..7 + n][k - 7];
      assert g[7..7 + n] == body[k - 7 := v];
      SumOff(body, k - 7, v, rest, f[7 + n]);
    } else {
      assert g[7..7 + n] == body;
      Vanishes(rest + Sum(body), w(7 + n));
    }
  }

  /** That one is accepted exactly when the bytes that follow happen to be an extended reply. */
  lemma NormalTakenForExtended(w: Bus, command: byte, body: seq<byte>, space: nat, postamble: byte)
    requires command < 255 && |body| == 253
    requires Carries(w, NormalFrame(PN532_TO_HOST, [command + 1] + body, postamble)[4 := 0xFF])
    ensures Parse(w, command, space).Accepted? <==>
            var n := 256 * PN532_TO_HOST + command - 1;
            Low(PN532_TO_HOST as int + command + 1 + body[0]) == 0 &&
            body[1] == PN532_TO_HOST && body[2] == command + 1 && n <= space &&
            Low(PN532_TO_HOST as int + command + 1 + Sum(Slice(w, 10, n)) + w(10 + n)) == 0
  {
    hide Low, Complement, Sum, Slice, NormalFrame;
    var data := [command + 1] + body;
    var f := NormalFrame(PN532_TO_HOST, data, postamble);
    NormalAt(data, postamble);
    var g := f[4 := 0xFF];
    assert f[7] == f[6..6 + |data|][1] && f[8] == f[6..6 + |data|][2] && f[9] == f[6..6 + |data|][3];
    assert w(0) == g[0] && w(1) == g[1] && w(2) == g[2] && w(3) == g[3] && w(4) == g[4];
    assert w(5) == g[5] && w(6) == g[6] && w(7) == g[7] && w(8) == g[8] && w(9) == g[9];
    hide Carries;
    TwoByteLength(256 * PN532_TO_HOST + (command + 1));
  }

  /** One wrong byte before the postamble of an extended reply is noticed, unless it is the second
      0xFF and becomes 1: the reply then looks like a normal one of 255 bytes, and is accepted exactly
      when its length bytes, its room and the sum of the first bytes happen to be right for that. */
  lemma OneWrongByteExtended(w: Bus, command: byte, body: seq<byte>, space: nat, postamble: byte, k: nat, v: byte)
    requires command < 255 && |body| < 0xFFFE
    requires var f := ExtendedFrame(PN532_TO_HOST, [command + 1] + body, postamble);
             k < |f| - 1 && v != f[k] && Carries(w, f[k := v])
    ensures Parse(w, command, space).Accepted? <==>
            k == 4 && v == 1 && |body| + 2 == 256 * PN532_TO_HOST + (command + 1) && space >= 253 &&
            Low(PN532_TO_HOST as int + (command + 1) + Sum(body[..251])) == 0
  {
    hide Low, Complement, Sum, Slice, Parse, ExtendedFrame;
    var data := [command + 1] + body;
    ExtendedAt(data, postamble);
    if k == 3 {
      FirstMark(w, command, data, postamble, v, space);
    } else if k == 4 {
      SecondMark(w, command, body, postamble, v, space);
    } else if k < 10 {
      WrongExtendedHead(w, command, data, postamble, k, v, space);
    } else {
      WrongExtendedData(w, command, body, postamble, k, v, space);
    }
  }

  /** Without the first 0xFF the length checksum of the reply settles the sum. */
  lemma FirstMark(w: Bus, command: byte, data: seq<byte>, postamble: byte, v: byte, space: nat)
    requires 0 < |data| < 0xFFFF && v != 0xFF
    requires Carries(w, ExtendedFrame(PN532_TO_HOST, data, postamble)[3 := v])
    ensures Parse(w, command, space).Rejected?
  {
    hide Complement, Sum, ExtendedFrame;
    var f := ExtendedFrame(PN532_TO_HOST, data, postamble);
    ExtendedAt(data, postamble);
    assert w(3) == v && w(4) == f[4] && w(5) == f[5] && w(6) == f[6] && w(7) == f[7] && w(8) == f[8];
    hide Carries;
    var len := |data| + 1;
    Vanishes(len / 256 + len % 256, f[7]);
    if v == 1 {
      assert Slice(w, 7, 1) == [w(7)];
      SumOfOne(w(7));
      hide Low;
      LowAdd(w(5) as int + w(6) + w(7), w(8));
    }
    hide Slice;
  }

  lemma SumOfOne(b: byte)
    ensures Sum([b]) == b
  {
    SumSnoc([], b);
    assert [] + [b] == [b];
  }

  /** Without the second 0xFF the reply reads as a normal one of 255 bytes, if that byte is 1. */
  lemma SecondMark(w: Bus, command: byte, body: seq<byte>, postamble: byte, v: byte, space: nat)
    requires command < 255 && |body| < 0xFFFE && v != 0xFF
    requires Carries(w, ExtendedFrame(PN532_TO_HOST, [command + 1] + body, postamble)[4 := v])
    ensures Parse(w, command, space).Accepted? <==>
            v == 1 && |body| + 2 == 256 * PN532_TO_HOST + (command + 1) && space >= 253 &&
            Low(PN532_TO_HOST as int + (command + 1) + Sum(body[..251])) == 0
  {
    hide Complement, Sum, Slice, ExtendedFrame;
    var data := [command + 1] + body;
    var f := ExtendedFrame(PN532_TO_HOST, data, postamble);
    ExtendedAt(data, postamble);
    var g := f[4 := v];
    assert w(0) == g[0] && w(1) == g[1] && w(2) == g[2] && w(3) == g[3] && w(4) == v;
    assert w(5) == g[5] && w(6) == g[6];
    var len := |body| + 2;
    assert len == 256 * PN532_TO_HOST + (command + 1) <==> w(5) == PN532_TO_HOST && w(6) == command + 1;
    if v == 1 && len == 256 * PN532_TO_HOST + (command + 1) {
      SumBehindLength(w, command, body, postamble, g);
      hide Carries;
      var first := PN532_TO_HOST as int + (command + 1);
      Vanishes(first, f[7]);
      hide Low;
      LowAdd(first + f[7], first + Sum(body[..251]));
      LowOfByte(0);
      LowAdd(0, first + Sum(body[..251]));
    }
  }

  /** What the code then sums up: length checksum, frame identifier, command and 251 bytes. */
  lemma SumBehindLength(w: Bus, command: byte, body: seq<byte>, postamble: byte, g: seq<byte>)
    requires command < 255 && 251 <= |body| < 0xFFFE
    requires var f := ExtendedFrame(PN532_TO_HOST, [command + 1] + body, postamble);
             |f| == 12 + |body| && g == f[4 := 1] && Carries(w, g)
    ensures Sum(Slice(w, 7, 253)) + w(260) ==
            Complement((|body| + 2) / 256 + (|body| + 2) % 256) + PN532_TO_HOST + (command + 1) + Sum(body[..251])
  {
    hide Complement, Sum, Slice, ExtendedFrame;
    var data := [command + 1] + body;
    var f := ExtendedFrame(PN532_TO_HOST, data, postamble);
    ExtendedAt(data, postamble);
    SliceOfCarried(w, g, 7, 253);
    assert w(260) == g[260];
    hide Carries;
    ExtendedBody(command, body, postamble);
    assert f[260] == f[10..10 + |body|][250];
    assert g[7..260] == [f[7], f[8], f[9]] + f[10..10 + |body|][..250];
    SumConcat([f[7], f[8], f[9]], body[..250]);
    SumOfThree(f[7], f[8], f[9]);
    SumSnoc(body[..250], body[250]);
    assert body[..251] == body[..250] + [body[250]];
  }

  lemma ExtendedBody(command: byte, body: seq<byte>, postamble: byte)
    requires command < 255 && |body| < 0xFFFE
    ensures var f := ExtendedFrame(PN532_TO_HOST, [command + 1] + body, postamble);
            |f| == 12 + |body| && f[10..10 + |body|] == body
  {
    var data := [command + 1] + body;
    ExtendedAt(data, postamble);
    hide ExtendedFrame;
    var f := ExtendedFrame(PN532_TO_HOST, data, postamble);
    assert f[10..10 + |body|] == f[9..9 + |data|][1..] == body;
  }

  lemma SumOfThree(a: byte, b: byte, c: byte)
    ensures Sum([a, b, c]) == a as int + b + c
  {
    hide Sum;
    SumOfOne(a);
    SumSnoc([a], b);
    SumSnoc([a, b], c);
    assert [a] + [b] == [a, b] && [a, b] + [c] == [a, b, c];
  }

  lemma WrongExtendedHead(w: Bus, command: byte, data: seq<byte>, postamble: byte, k: nat, v: byte, space: nat)
    requires 0 < |data| < 0xFFFF && k < 10 && k != 3 && k != 4 && data[0] == (command as int) + 1
    requires var f := ExtendedFrame(PN532_TO_HOST, data, postamble);
             |f| == 11 + |data| && v != f[k] && Carries(w, f[k := v])
    ensures Parse(w, command, space).Rejected?
  {
    hide Low, Complement, Sum, Slice, ExtendedFrame;
    var f := ExtendedFrame(PN532_TO_HOST, data, postamble);
    ExtendedAt(data, postamble);
    assert w(k) == v;
    assert forall i :: 0 <= i < 10 && i != k ==> w(i) == f[i];
    hide Carries;
    var a, b, c := f[5] as int, f[6] as int, f[7] as int;
    Vanishes(a + b, f[7]);
    Vanishes(a + b, w(7));
    if k == 5 {
      LowDiffers(b + c, f[5], v);
      assert b + c + a == a + b + c && b + c + v == w(5) as int + w(6) + w(7);
    } else if k == 6 {
      LowDiffers(a + c, f[6], v);
      assert a + c + b == a + b + c && a + c + v == w(5) as int + w(6) + w(7);
    }
  }

  lemma WrongExtendedData(w: Bus, command: byte, body: seq<byte>, postamble: byte, k: nat, v: byte, space: nat)
    requires command < 255 && |body| < 0xFFFE && 10 <= k <= 10 + |body|
    requires var f := ExtendedFrame(PN532_TO_HOST, [command + 1] + body, postamble);
             |f| == 12 + |body| && v != f[k] && Carries(w, f[k := v])
    ensures Parse(w, command, space).Rejected?
  {
    hide Low, Complement, Sum, Slice, ExtendedFrame;
    var data := [command + 1] + body;
    var f := ExtendedFrame(PN532_TO_HOST, data, postamble);
    ExtendedAt(data, postamble);
    var g := f[k := v];
    var n := |body|;
    assert w(3) == f[3] && w(4) == f[4] && w(5) == f[5] && w(6) == f[6] && w(10 + n) == g[10 + n];
    SliceOfCarried(w, g, 10, n);
    hide Carries;
    TwoByteLength(n + 2);
    DataSum(command, body);
    ExtendedBody(command, body, postamble);
    var rest := PN532_TO_HOST as int + (command + 1);
    Vanishes(rest + Sum(body), f[10 + n]);
    if k < 10 + n {
      assert f[k] == f[10..10 + n][k - 10];
      assert g[10..10 + n] == body[k - 10 := v];
      SumOff(body, k - 10, v, rest, f[10 + n]);
    } else {
      assert g[10..10 + n] == body;
      Vanishes(rest + Sum(body), w(10 + n));
    }
  }

  /** One wrong byte of the body spoils a sum that vanished. */
  lemma SumOff(body: seq<byte>, k: nat, v: byte, rest: nat, checksum: byte)
    requires k < |body| && v != body[k] && Low(rest + Sum(body) + checksum) == 0
    ensures Low(rest + Sum(body[k := v]) + checksum) != 0
  {
    hide Low;
    SumUpdate(body, k, v);
    SumAtLeast(body, k);
    var others := rest + (Sum(body) - body[k]) + checksum;
    LowDiffers(others, body[k], v);
    assert others + body[k] == rest + Sum(body) + checksum;
    assert others + v == rest + Sum(body[k := v]) + checksum;
  }

  lemma SumAtLeast(s: seq<byte>, k: nat)
    requires k < |s|
    ensures Sum(s) >= s[k]
  {
    SumUpdate(s, k, 0);
  }

  /** The code as the 16-bit signed number the function returns. */
  function AsInt16(n: nat): (r: int)
    requires n < 0x1_0000
    ensures -0x8000 <= r < 0x8000 && (r - n) % 0x1_0000 == 0
  {
    if n < 0x8000 then n else n - 0x1_0000
  }

  /** A rejected reply yields its code; an accepted one its length, with the body at the start of
      the buffer and the rest of the buffer as it was. */
  ghost predicate Answers(r: Reply, result: int, before: seq<byte>, after: seq<byte>) {
    match r
    case Rejected(code) => result == code
    case Accepted(body) =>
      |body| < 0x1_0000 && |body| <= |before| == |after| && result == AsInt16(|body|) &&
      after == body + before[|body|..]
  }

  class Spi {
    const wire: Bus
    var pos: nat
    var command: byte

    method ReadByte() returns (b: byte)
      modifies this`pos
      ensures b == wire(old(pos)) && pos == old(pos) + 1
    {
      b := wire(pos);
      pos := pos + 1;
    }

    method ReadArray(n: nat) returns (s: seq<byte>)
      modifies this`pos
      ensures s == Slice(wire, old(pos), n) && pos == old(pos) + n
    {
      s := Slice(wire, pos, n);
      pos := pos + n;
    }

    /** `readResponse` once the chip is ready; len is the room in buf. */
    method ReadResponse(buf: array<byte>, len: nat) returns (result: int)
      requires len <= buf.Length && len < 0x1_0000 && pos == 0
      modifies this`pos, buf
      ensures Answers(Parse(wire, command, len), result, old(buf[..]), buf[..])
    {
      hide Sum, Slice;
      var header := ReadArray(5);
      HeaderBytes();
      if header[0] != 0 || header[1] != 0 || header[2] != 0xFF {
        return INVALID_FRAME;
      }
      var rxLen := if header[3] >= 2 then header[3] - 2 else header[3];
      if header[3] == 0xFF && header[4] == 0xFF {
        var msByte := ReadByte();
        var lsByte := ReadByte();
        var lcs := ReadByte();
        if Low(msByte as int + lsByte + lcs) != 0 {
          return INVALID_FRAME;
        }
        rxLen := (msByte as int * 256 + lsByte + 0xFFFE) % 0x1_0000;
      } else if Low(header[3] as int + header[4]) != 0 {
        return INVALID_FRAME;
      }
      result := ReadBody(buf, len, rxLen);
    }

    static lemma SumOfNothing(b: byte)
      ensures Sum([]) == 0 && Low(b) == b
    {
    }

    lemma HeaderBytes()
      ensures var h := Slice(wire, 0, 5);
              h[0] == wire(0) && h[1] == wire(1) && h[2] == wire(2) && h[3] == wire(3) && h[4] == wire(4)
    {
    }

    /** From the frame identifier on. */
    method ReadBody(buf: array<byte>, len: nat, rxLen: nat) returns (result: int)
      requires len <= buf.Length && HeaderOk(wire) && rxLen == BodyLength(wire) && pos == BodyStart(wire) - 2
      modifies this`pos, buf
      ensures Answers(Parse(wire, command, len), result, old(buf[..]), buf[..])
    {
      hide BodyLength, BodyStart, IsExtended, HeaderOk, Slice, Low, Sum;
      var tfi := ReadByte();
      var cmd := ReadByte();
      var body := ReadArray(rxLen);
      if rxLen == 1 && tfi == 0x7F && cmd == 0x81 {
        return ERROR_FRAME;
      }
      if PN532_TO_HOST != tfi || command + 1 != cmd {
        return INVALID_FRAME;
      }
      if rxLen > len {
        return NO_SPACE;
      }
      ghost var was := buf[..];
      var sum := CopyBody(buf, body, Low(PN532_TO_HOST as int + cmd));
      LowAdd(PN532_TO_HOST as int + cmd, Sum(body));
      var checksum := ReadByte();
      LowAdd(PN532_TO_HOST as int + cmd + Sum(body), checksum);
      assert checksum == wire(BodyStart(wire) + rxLen);
      if Low(sum as int + checksum) != 0 {
        return INVALID_FRAME;
      }
      var postamble := ReadByte();
      result := AsInt16(rxLen);
      assert buf[..] == body + was[rxLen..];
    }

    /** The loop that copies the body and sums it up. */
    static method CopyBody(buf: array<byte>, body: seq<byte>, start: byte) returns (sum: byte)
      requires |body| <= buf.Length
      modifies buf
      ensures buf[..] == body + old(buf[..])[|body|..] && sum == Low(start as int + Sum(body))
    {
      hide Low, Sum;
      sum := start;
      SumOfNothing(start);
      ghost var was := buf[..];
      for i := 0 to |body|
        invariant buf[..i] == body[..i] && buf[i..] == was[i..]
        invariant sum == Low(start as int + Sum(body[..i]))
      {
        assert body[..i + 1] == body[..i] + [body[i]];
        SumSnoc(body[..i], body[i]);
        LowAdd(start as int + Sum(body[..i]), body[i]);
        sum := Low(sum as int + body[i]);
        buf[i] := body[i];
      }
      assert body[..|body|] == body;
      assert buf[..] == buf[..|body|] + buf[|body|..];
    }

    constructor (wire: Bus, command: byte)
      ensures this.wire == wire && this.command == command && pos == 0
    {
      this.wire, this.command, pos := wire, command, 0;
    }
  }
}
