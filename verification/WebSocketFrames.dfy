/** WebSocket frames on the wire (section 5.2 of RFC 6455): header, masking, whole frames. */
module WebSocketFrames {
  import opened Bytes

  /** Exclusive or of the low `bits` bits, from the lowest bit up. */
  function XorBits(a: nat, b: nat, bits: nat): (r: nat)
    ensures r < Pow2(bits)
  {
    if bits == 0 then 0 else (if a % 2 == b % 2 then 0 else 1) + 2 * XorBits(a / 2, b / 2, bits - 1)
  }

  function Pow2(bits: nat): nat {
    if bits == 0 then 1 else 2 * Pow2(bits - 1)
  }

  function Xor(a: byte, b: byte): (r: byte) {
    assert Pow2(4) == 16;
    XorBits(a, b, 8)
  }

  /** Bit i of a number. */
  function Bit(a: nat, i: nat): nat {
    if i == 0 then a % 2 else Bit(a / 2, i - 1)
  }

  /** The bits of a number determine it. */
  lemma {:induction false} BitsDetermine(a: nat, b: nat, bits: nat)
    requires a < Pow2(bits) && b < Pow2(bits) && forall i :: 0 <= i < bits ==> Bit(a, i) == Bit(b, i)
    ensures a == b
  {
    if bits > 0 {
      assert Bit(a, 0) == Bit(b, 0);
      forall i | 0 <= i < bits - 1 ensures Bit(a / 2, i) == Bit(b / 2, i) {
        assert Bit(a, i + 1) == Bit(b, i + 1);
      }
      BitsDetermine(a / 2, b / 2, bits - 1);
    }
  }

  /** It is the exclusive or: a bit of the result is set exactly where the two differ. */
  lemma {:induction false} XorBitsAt(a: nat, b: nat, bits: nat, i: nat)
    requires i < bits
    ensures Bit(XorBits(a, b, bits), i) == 1 <==> Bit(a, i) != Bit(b, i)
  {
    var x := XorBits(a, b, bits);
    assert x / 2 == XorBits(a / 2, b / 2, bits - 1);
    if i > 0 {
      XorBitsAt(a / 2, b / 2, bits - 1, i - 1);
    }
  }

  lemma XorAt(a: byte, b: byte, i: nat)
    requires i < 8
    ensures Bit(Xor(a, b), i) == 1 <==> Bit(a, i) != Bit(b, i)
  {
    hide XorBits, Bit;
    XorBitsAt(a, b, 8, i);
  }

  lemma {:induction false} XorBitsTwice(a: nat, b: nat, bits: nat)
    requires a < Pow2(bits)
    ensures XorBits(XorBits(a, b, bits), b, bits) == a
  {
    if bits > 0 {
      XorBitsTwice(a / 2, b / 2, bits - 1);
      var x := XorBits(a, b, bits);
      assert x / 2 == XorBits(a / 2, b / 2, bits - 1);
    }
  }

  lemma XorTwice(a: byte, b: byte)
    ensures Xor(Xor(a, b), b) == a
  {
    assert Pow2(4) == 16;
    XorBitsTwice(a, b, 8);
  }

  /** Payload bytes masked with the four-byte key; `at` is their offset in the frame. */
  function Masked(key: seq<byte>, data: seq<byte>, at: nat): (r: seq<byte>)
    requires |key| == 4
    ensures |r| == |data|
  {
    seq(|data|, i requires 0 <= i < |data| => Xor(data[i], key[(at + i) % 4]))
  }

  lemma MaskedTwice(key: seq<byte>, data: seq<byte>, at: nat)
    requires |key| == 4
    ensures Masked(key, Masked(key, data, at), at) == data
  {
    hide Xor;
    forall i | 0 <= i < |data| ensures Masked(key, Masked(key, data, at), at)[i] == data[i] {
      XorTwice(data[i], key[(at + i) % 4]);
    }
  }

  /** Masking a tail of the payload with the matching offset is the tail of the masked payload. */
  lemma MaskedSlice(key: seq<byte>, data: seq<byte>, from: nat, to: nat)
    requires |key| == 4 && from <= to <= |data|
    ensures Masked(key, data, 0)[from..to] == Masked(key, data[from..to], from)
  {
  }

  /** An unmasked frame has no key. */
  datatype Frame = Frame(fin: bool, opcode: nat, key: seq<byte>, payload: seq<byte>)

  /** The three length forms: 7 bits, 7+16 bits, 7+64 bits. */
  datatype Form = Short | Medium | Long

  predicate FrameOk(f: Frame) {
    f.opcode < 16 && (f.key == [] || |f.key| == 4)
  }

  predicate FormFits(form: Form, len: nat) {
    match form
    case Short => len < 126
    case Medium => len < 0x1_0000
    case Long => len < 0x1_0000_0000
  }

  /** Big-endian bytes. */
  function BigEndian(n: nat, width: nat): (r: seq<byte>)
    ensures |r| == width
  {
    if width == 0 then [] else BigEndian(n / 256, width - 1) + [n % 256]
  }

  function FromBigEndian(s: seq<byte>): nat {
    if s == [] then 0 else FromBigEndian(s[..|s| - 1]) * 256 + s[|s| - 1]
  }

  function Pow256(width: nat): nat {
    if width == 0 then 1 else 256 * Pow256(width - 1)
  }

  lemma {:induction false} BigEndianRoundTrip(n: nat, width: nat)
    requires n < Pow256(width)
    ensures FromBigEndian(BigEndian(n, width)) == n
  {
    if width > 0 {
      var s := BigEndian(n, width);
      assert s[..|s| - 1] == BigEndian(n / 256, width - 1);
      BigEndianRoundTrip(n / 256, width - 1);
    }
  }

  function FirstByte(f: Frame): (b: byte)
    requires FrameOk(f)
  {
    f.opcode + (if f.fin then 128 else 0)
  }

  function SecondByte(f: Frame, code: nat): (b: byte)
    requires code < 128
  {
    code + (if f.key != [] then 128 else 0)
  }

  function Header(f: Frame, form: Form): seq<byte>
    requires FrameOk(f) && FormFits(form, |f.payload|)
  {
    [FirstByte(f)] +
    (match form
     case Short => [SecondByte(f, |f.payload|)]
     case Medium => [SecondByte(f, 126)] + BigEndian(|f.payload|, 2)
     case Long => [SecondByte(f, 127)] + BigEndian(|f.payload|, 8)) +
    f.key
  }

  function WirePayload(f: Frame): (r: seq<byte>)
    requires FrameOk(f)
    ensures |r| == |f.payload|
  {
    if f.key == [] then f.payload else Masked(f.key, f.payload, 0)
  }

  function EncodeFrame(f: Frame, form: Form): seq<byte>
    requires FrameOk(f) && FormFits(form, |f.payload|)
  {
    Header(f, form) + WirePayload(f)
  }

  /** A frame together with the length form it is written in. */
  datatype Sent = Sent(frame: Frame, form: Form)

  predicate SentOk(x: Sent) {
    FrameOk(x.frame) && FormFits(x.form, |x.frame.payload|)
  }

  predicate AllOk(xs: seq<Sent>) {
    forall i :: 0 <= i < |xs| ==> SentOk(xs[i])
  }

  function EncodeAll(xs: seq<Sent>): seq<byte>
    requires AllOk(xs)
  {
    if xs == [] then [] else EncodeFrame(xs[0].frame, xs[0].form) + EncodeAll(xs[1..])
  }

  lemma {:induction false} EncodeAllSnoc(xs: seq<Sent>, x: Sent)
    requires AllOk(xs) && SentOk(x)
    ensures AllOk(xs + [x])
    ensures EncodeAll(xs + [x]) == EncodeAll(xs) + EncodeFrame(x.frame, x.form)
  {
    hide EncodeFrame, SentOk;
    if xs == [] {
      assert xs + [x] == [x] && [x][1..] == [];
    } else {
      assert (xs + [x])[1..] == xs[1..] + [x];
      EncodeAllSnoc(xs[1..], x);
    }
  }

  // ---------- reading a header back ----------

  datatype Head = Head(final: bool, opcode: nat, key: seq<byte>, len: nat)

  function HeadOf(f: Frame): Head {
    Head(f.fin, f.opcode, f.key, |f.payload|)
  }

  /** How many bytes the header at the start of s occupies. */
  function HeaderLength(s: seq<byte>): (n: nat)
    requires |s| >= 2
    ensures n >= 2
  {
    2 + LengthBytes(s) + (if s[1] >= 128 then 4 else 0)
  }

  function LengthBytes(s: seq<byte>): nat
    requires |s| >= 2
  {
    if s[1] % 128 == 126 then 2 else if s[1] % 128 == 127 then 8 else 0
  }

  predicate HeaderWhole(s: seq<byte>) {
    |s| >= 2 && |s| >= HeaderLength(s)
  }

  function ReadHead(s: seq<byte>): Head
    requires HeaderWhole(s)
  {
    var e := LengthBytes(s);
    Head(s[0] >= 128, s[0] % 16,
         if s[1] >= 128 then s[2 + e..6 + e] else [],
         if e == 0 then s[1] % 128 else FromBigEndian(s[2..2 + e]))
  }

  /** The parser's header reading inverts the header in all three length forms. */
  lemma HeaderRoundTrip(f: Frame, form: Form, rest: seq<byte>)
    requires FrameOk(f) && FormFits(form, |f.payload|)
    ensures var s := Header(f, form) + rest;
            HeaderWhole(s) && HeaderLength(s) == |Header(f, form)| && ReadHead(s) == HeadOf(f)
  {
    hide BigEndian, FromBigEndian;
    var s := Header(f, form) + rest;
    var n := |f.payload|;
    assert s[0] == FirstByte(f);
    match form
    case Short =>
      assert s[2..2 + |f.key|] == f.key;
    case Medium =>
      assert s[2..4] == BigEndian(n, 2) && s[4..4 + |f.key|] == f.key;
      PowersOf256();
      BigEndianRoundTrip(n, 2);
    case Long =>
      assert s[2..10] == BigEndian(n, 8) && s[10..10 + |f.key|] == f.key;
      PowersOf256();
      BigEndianRoundTrip(n, 8);
  }

  lemma PowersOf256()
    ensures Pow256(2) == 0x1_0000 && Pow256(8) == 0x1_0000_0000_0000_0000
  {
    assert Pow256(4) == 0x1_0000_0000;
  }
}
