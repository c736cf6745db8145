/**
 WebSocket frames (section 5.2 of RFC 6455; src/server/WebSocket.cpp:72-88 and 171-298): the server's encoder,
 the decoder of client frames, and the exact inverse relation between bytes and frames.
 */
module WsCodec {
  import opened Numbers

  // ----- numbers --------------------------------------------------------------------------------

  function Pow256(k: nat): (p: nat)
    ensures p > 0
  {
    if k == 0 then 1 else 256 * Pow256(k - 1)
  }

  /** k bytes, most significant first. */
  function BigEndian(n: nat, k: nat): (s: seq<byte>)
    ensures |s| == k
  {
    if k == 0 then [] else BigEndian(n / 256, k - 1) + [n % 256]
  }

  function Value(s: seq<byte>): nat
  {
    if s == [] then 0 else Value(s[..|s| - 1]) * 256 + s[|s| - 1]
  }

  lemma {:induction false} ValueOfBigEndian(n: nat, k: nat)
    requires n < Pow256(k)
    ensures Value(BigEndian(n, k)) == n
  {
    if k > 0 {
      var s := BigEndian(n, k);
      assert s[..|s| - 1] == BigEndian(n / 256, k - 1);
      ValueOfBigEndian(n / 256, k - 1);
    }
  }

  lemma {:induction false} BigEndianOfValue(s: seq<byte>)
    ensures Value(s) < Pow256(|s|) && BigEndian(Value(s), |s|) == s
  {
    if s != [] {
      var front, last := s[..|s| - 1], s[|s| - 1];
      BigEndianOfValue(front);
      assert s == front + [last];
      assert Value(s) / 256 == Value(front) && Value(s) % 256 == last;
    }
  }

  /** The byte i places from the left: what a shift by 8 * (k - 1 - i) leaves in the low byte. */
  lemma {:induction false} BigEndianAt(n: nat, k: nat, i: nat)
    requires i < k
    ensures BigEndian(n, k)[i] == (n / Pow256(k - 1 - i)) % 256
  {
    if i < k - 1 {
      BigEndianAt(n / 256, k - 1, i);
      DivTwice(n, Pow256(k - 2 - i));
    }
  }

  lemma DivTwice(n: nat, p: nat)
    requires p > 0
    ensures n / 256 / p == n / (256 * p)
  {
    var q := n / 256 / p;
    var r := n / 256 % p;
    assert n / 256 == q * p + r;
    assert n == (256 * p) * q + (256 * r + n % 256) by {
      assert n == 256 * (n / 256) + n % 256;
      assert 256 * (q * p + r) == (256 * p) * q + 256 * r;
    }
    assert 0 <= 256 * r + n % 256 < 256 * p;
    QuotientIs(n, 256 * p, q, 256 * r + n % 256);
  }

  // ----- masking --------------------------------------------------------------------------------

  /** Exclusive or of the lowest k bits. */
  function XorBits(a: nat, b: nat, k: nat): nat
  {
    if k == 0 then 0 else (if a % 2 == b % 2 then 0 else 1) + 2 * XorBits(a / 2, b / 2, k - 1)
  }

  lemma {:induction false} XorBitsTwice(a: nat, b: nat, k: nat)
    requires a < Pow2(k)
    ensures XorBits(a, b, k) < Pow2(k) && XorBits(XorBits(a, b, k), b, k) == a
  {
    if k > 0 {
      XorBitsTwice(a / 2, b / 2, k - 1);
      var x := XorBits(a, b, k);
      assert x / 2 == XorBits(a / 2, b / 2, k - 1);
    }
  }

  lemma ByteIsEightBits()
    ensures Pow2(8) == 256
  {
    assert Pow2(4) == 16;
  }

  function Xor(a: byte, b: byte): byte
  {
    ByteIsEightBits();
    XorBitsTwice(a, b, 8);
    XorBits(a, b, 8)
  }

  /** Bit i of a number, the lowest one being bit 0. */
  predicate Bit(a: nat, i: nat) { a / Pow2(i) % 2 == 1 }

  lemma {:induction false} XorBitsAt(a: nat, b: nat, k: nat, i: nat)
    requires i < k
    ensures Bit(XorBits(a, b, k), i) <==> Bit(a, i) != Bit(b, i)
  {
    hide *;
    var x := XorBits(a, b, k);
    LowBit(a);
    LowBit(b);
    LowBit(x);
    XorLow(a, b, k);
    if i > 0 {
      XorBitsAt(a / 2, b / 2, k - 1, i - 1);
      HigherBit(a, i);
      HigherBit(b, i);
      HigherBit(x, i);
    }
  }

  lemma XorLow(a: nat, b: nat, k: nat)
    requires k > 0
    ensures var x := XorBits(a, b, k);
            (x % 2 == 1 <==> a % 2 != b % 2) && x / 2 == XorBits(a / 2, b / 2, k - 1)
  {
  }

  lemma LowBit(a: nat)
    ensures Bit(a, 0) <==> a % 2 == 1
  {
  }

  lemma HigherBit(a: nat, i: nat)
    requires i > 0
    ensures Bit(a, i) <==> Bit(a / 2, i - 1)
  {
    HalfFirst(a, Pow2(i - 1));
  }

  lemma HalfFirst(n: nat, p: nat)
    requires p > 0
    ensures n / 2 / p == n / (2 * p)
  {
    var q, r := n / 2 / p, n / 2 % p;
    assert n / 2 == p * q + r;
    assert n == (2 * p) * q + (2 * r + n % 2) by {
      assert 2 * (p * q + r) == (2 * p) * q + 2 * r;
    }
    QuotientIs(n, 2 * p, q, 2 * r + n % 2);
  }

  /** Exclusive or: a bit is set in the result exactly when it differs in the two bytes. */
  lemma XorIsExclusive(a: byte, b: byte)
    ensures forall i: nat :: i < 8 ==> (Bit(Xor(a, b), i) <==> Bit(a, i) != Bit(b, i))
  {
    hide Bit, XorBits;
    forall i: nat | i < 8 ensures Bit(Xor(a, b), i) <==> Bit(a, i) != Bit(b, i) {
      XorBitsAt(a, b, 8, i);
    }
  }

  /** Nothing else has those bits. */
  lemma XorOnly(a: byte, b: byte, c: byte)
    requires forall i: nat :: i < 8 ==> (Bit(c, i) <==> Bit(a, i) != Bit(b, i))
    ensures c == Xor(a, b)
  {
    hide Bit, Xor;
    XorIsExclusive(a, b);
    ByteIsEightBits();
    BitsDecide(c, Xor(a, b), 8);
  }

  lemma {:induction false} BitsDecide(a: nat, b: nat, k: nat)
    requires a < Pow2(k) && b < Pow2(k) && forall i: nat :: i < k ==> (Bit(a, i) <==> Bit(b, i))
    ensures a == b
  {
    if k > 0 {
      assert Bit(a, 0) <==> Bit(b, 0);
      LowBit(a);
      LowBit(b);
      hide Bit;
      forall i: nat | i < k - 1 ensures Bit(a / 2, i) <==> Bit(b / 2, i) {
        HigherBit(a, i + 1);
        HigherBit(b, i + 1);
      }
      BitsDecide(a / 2, b / 2, k - 1);
    }
  }

  lemma XorTwice(a: byte, b: byte)
    ensures Xor(Xor(a, b), b) == a
  {
    ByteIsEightBits();
    XorBitsTwice(a, b, 8);
  }

  function Masked(payload: seq<byte>, key: seq<byte>): (r: seq<byte>)
    requires |key| == 4
    ensures |r| == |payload| && forall i :: 0 <= i < |payload| ==> r[i] == Xor(payload[i], key[i % 4])
  {
    seq(|payload|, i requires 0 <= i < |payload| => Xor(payload[i], key[i % 4]))
  }

  /** Unmasking is masking again. */
  lemma MaskedTwice(payload: seq<byte>, key: seq<byte>)
    requires |key| == 4
    ensures Masked(Masked(payload, key), key) == payload
  {
    forall i | 0 <= i < |payload| ensures Masked(Masked(payload, key), key)[i] == payload[i] {
      XorTwice(payload[i], key[i % 4]);
    }
  }

  method UnmaskPayload(payload: array<byte>, key: seq<byte>)
    requires |key| == 4
    modifies payload
    ensures payload[..] == Masked(old(payload[..]), key)
    ensures forall k, i: nat :: 0 <= k < payload.Length && i < 8
              ==> (Bit(payload[k], i) <==> Bit(old(payload[k]), i) != Bit(key[k % 4], i))
  {
    hide Bit, Xor;
    for i := 0 to payload.Length
      invariant forall k :: 0 <= k < i ==> payload[k] == Xor(old(payload[k]), key[k % 4])
      invariant forall k :: i <= k < payload.Length ==> payload[k] == old(payload[k])
    {
      payload[i] := Xor(payload[i], key[i % 4]);
    }
    forall k | 0 <= k < payload.Length
      ensures forall i: nat :: i < 8 ==> (Bit(payload[k], i) <==> Bit(old(payload[k]), i) != Bit(key[k % 4], i))
    {
      assert payload[k] == Xor(old(payload[k]), key[k % 4]);
      XorIsExclusive(old(payload[k]), key[k % 4]);
    }
  }

  // ----- server frames --------------------------------------------------------------------------

  const CONTINUATION := 0
  const TEXT := 1
  const BINARY := 2
  const CLOSE := 8
  const PING := 9
  const PONG := 10
  const LENGTH_LIMIT := 0x1_0000_0000_0000_0000

  type opcode = n: int | 0 <= n < 16

  predicate IsControl(op: opcode) { op >= 8 }

  /** The length byte and what follows it; `mask` is 128 for client frames. */
  function LengthBytes(n: nat, mask: byte): seq<byte>
    requires n < LENGTH_LIMIT && (mask == 0 || mask == 128)
  {
    if n < 126 then [mask + n] else if n <= 0xFFFF then [mask + 126] + BigEndian(n, 2) else [mask + 127] + BigEndian(n, 8)
  }

  function ServerFrame(op: opcode, payload: seq<byte>, fin: bool): seq<byte>
    requires |payload| < LENGTH_LIMIT
  {
    [op + if fin then 128 else 0] + LengthBytes(|payload|, 0) + payload
  }

  method EncodeServerFrame(op: opcode, payload: seq<byte>, fin: bool) returns (frame: seq<byte>)
    requires |payload| < LENGTH_LIMIT
    ensures frame == ServerFrame(op, payload, fin)
  {
    var len := |payload|;
    var headerSize := 2;
    if 126 <= len <= 0xFFFF {
      headerSize := 4;
    } else if len > 0xFFFF {
      headerSize := 10;
    }
    var bytes := new byte[headerSize + len];
    bytes[0] := op + if fin then 128 else 0;
    if len < 126 {
      bytes[1] := len;
      assert bytes[..2] == [bytes[0]] + LengthBytes(len, 0);
    } else if len <= 0xFFFF {
      bytes[1] := 126;
      bytes[2] := (len / 256) % 256;
      bytes[3] := len % 256;
      BigEndianTwo(len);
      assert bytes[..4] == [bytes[0]] + ([126] + BigEndian(len, 2));
    } else {
      bytes[1] := 127;
      for i := 0 to 8
        invariant bytes[0] == op + (if fin then 128 else 0) && bytes[1] == 127
        invariant forall j :: 0 <= j < i ==> bytes[2 + j] == BigEndian(len, 8)[j]
      {
        BigEndianAt(len, 8, i);
        bytes[2 + i] := (len / Pow256(7 - i)) % 256;
      }
      assert bytes[..10] == [bytes[0]] + ([127] + BigEndian(len, 8));
    }
    assert bytes[..headerSize] == [op + if fin then 128 else 0] + LengthBytes(len, 0);
    ghost var header := bytes[..headerSize];
    for i := 0 to len
      invariant bytes[..headerSize] == header
      invariant forall j :: 0 <= j < i ==> bytes[headerSize + j] == payload[j]
    {
      bytes[headerSize + i] := payload[i];
      assert bytes[..headerSize] == header;
    }
    frame := bytes[..];
    assert frame == header + payload;
  }

  lemma BigEndianTwo(n: nat)
    ensures BigEndian(n, 2) == [(n / 256) % 256, n % 256]
  {
    assert BigEndian(n / 256 / 256, 0) == [];
    assert BigEndian(n / 256, 1) == [(n / 256) % 256];
  }

  // ----- client frames --------------------------------------------------------------------------

  /** How the length is written; a client may use a longer form than it needs. */
  datatype Form = Short | Medium | Long

  datatype ClientFrame = ClientFrame(fin: bool, rsv: nat, op: opcode, form: Form, key: seq<byte>, payload: seq<byte>)

  function Extra(form: Form): nat { match form case Short => 0 case Medium => 2 case Long => 8 }

  function Capacity(form: Form): nat { match form case Short => 126 case Medium => 0x1_0000 case Long => LENGTH_LIMIT }

  predicate FrameOk(f: ClientFrame) { f.rsv < 8 && |f.key| == 4 && |f.payload| < Capacity(f.form) }

  function Head(f: ClientFrame): (h: seq<byte>)
    requires FrameOk(f)
    ensures |h| == 2 + Extra(f.form)
  {
    var n := |f.payload|;
    [(if f.fin then 128 else 0) + 16 * f.rsv + f.op]
    + match f.form
      case Short => [128 + n]
      case Medium => [254] + BigEndian(n, 2)
      case Long => [255] + BigEndian(n, 8)
  }

  function Encode(f: ClientFrame): seq<byte>
    requires FrameOk(f)
  {
    Head(f) + f.key + Masked(f.payload, f.key)
  }

  datatype FrameRead =
    | Cut
    | NoMask(rest: seq<byte>)
    | Large(rest: seq<byte>)
    | Frame(frame: ClientFrame, rest: seq<byte>)

  function FormOf(b1: byte): Form { if b1 % 128 == 126 then Medium else if b1 % 128 == 127 then Long else Short }

  function LengthOf(b: seq<byte>): nat
    requires |b| >= 2 && |b| >= 2 + Extra(FormOf(b[1]))
  {
    if FormOf(b[1]).Short? then b[1] % 128 else Value(b[2..2 + Extra(FormOf(b[1]))])
  }

  /** One frame at the front of the bytes. */
  function ReadFrame(b: seq<byte>, maxFrameBytes: nat): FrameRead
  {
    if |b| < 2 then Cut
    else if b[1] < 128 then NoMask(b[2..])
    else
      var form := FormOf(b[1]);
      var head := 2 + Extra(form);
      if |b| < head then Cut
      else
        var n := LengthOf(b);
        if n > maxFrameBytes then Large(b[head..])
        else if |b| < head + 4 + n then Cut
        else
          var key := b[head..head + 4];
          var f := ClientFrame(b[0] >= 128, b[0] / 16 % 8, b[0] % 16, form, key, Masked(b[head + 4..head + 4 + n], key));
          Frame(f, b[head + 4 + n..])
  }

  lemma HeadReads(f: ClientFrame, rest: seq<byte>)
    requires FrameOk(f)
    ensures var b := Head(f) + rest;
            && b[0] == (if f.fin then 128 else 0) + 16 * f.rsv + f.op && b[1] >= 128
            && FormOf(b[1]) == f.form && LengthOf(b) == |f.payload|
  {
    var n := |f.payload|;
    var b := Head(f) + rest;
    match f.form
    case Short =>
    case Medium =>
      assert b[2..4] == BigEndian(n, 2);
      assert Pow256(1) == 256 && Pow256(2) == 0x1_0000;
      ValueOfBigEndian(n, 2);
    case Long =>
      assert b[2..10] == BigEndian(n, 8);
      EightBytes();
      ValueOfBigEndian(n, 8);
  }

  lemma EightBytes()
    ensures Pow256(8) == LENGTH_LIMIT
  {
    assert Pow256(1) == 256;
    assert Pow256(3) == 0x100_0000;
    assert Pow256(5) == 0x100_0000_0000;
    assert Pow256(7) == 0x100_0000_0000_0000;
  }

  /** Every encoded frame is read back, and nothing after it is touched. */
  lemma EncodedReadsBack(f: ClientFrame, rest: seq<byte>, maxFrameBytes: nat)
    requires FrameOk(f) && |f.payload| <= maxFrameBytes
    ensures ReadFrame(Encode(f) + rest, maxFrameBytes) == Frame(f, rest)
  {
    var head := 2 + Extra(f.form);
    var n := |f.payload|;
    var after := f.key + Masked(f.payload, f.key) + rest;
    var b := Encode(f) + rest;
    hide Head, Masked;
    assert b == Head(f) + after;
    HeadReads(f, after);
    assert b[head..head + 4] == f.key;
    assert b[head + 4..head + 4 + n] == Masked(f.payload, f.key);
    assert b[head + 4 + n..] == rest;
    MaskedTwice(f.payload, f.key);
  }

  lemma HeadFromBytes(b: seq<byte>, f: ClientFrame)
    requires |b| >= 2 && b[1] >= 128 && |b| >= 2 + Extra(FormOf(b[1]))
    requires FrameOk(f) && f.form == FormOf(b[1]) && |f.payload| == LengthOf(b)
    requires f.fin == (b[0] >= 128) && f.rsv == b[0] / 16 % 8 && f.op == b[0] % 16
    ensures Head(f) == b[..2 + Extra(f.form)]
  {
    var head := 2 + Extra(f.form);
    if !f.form.Short? {
      BigEndianOfValue(b[2..head]);
    }
    assert Head(f)[0] == b[0];
    assert Head(f)[1] == b[1];
    assert b[..head] == [b[0], b[1]] + b[2..head];
  }

  lemma LengthFits(b: seq<byte>)
    requires |b| >= 2 && b[1] >= 128 && |b| >= 2 + Extra(FormOf(b[1]))
    ensures LengthOf(b) < Capacity(FormOf(b[1]))
  {
    if FormOf(b[1]).Medium? {
      BigEndianOfValue(b[2..4]);
      assert Pow256(1) == 256 && Pow256(2) == 0x1_0000;
    } else if FormOf(b[1]).Long? {
      BigEndianOfValue(b[2..10]);
      EightBytes();
    }
  }

  /** Only encoded frames are read. */
  lemma ReadIsEncoded(b: seq<byte>, maxFrameBytes: nat)
    requires ReadFrame(b, maxFrameBytes).Frame?
    ensures var r := ReadFrame(b, maxFrameBytes);
            FrameOk(r.frame) && |r.frame.payload| <= maxFrameBytes && b == Encode(r.frame) + r.rest
  {
    var r := ReadFrame(b, maxFrameBytes);
    LengthFits(b);
    var f := r.frame;
    HeadFromBytes(b, f);
    var head := 2 + Extra(f.form);
    var n := |f.payload|;
    MaskedTwice(b[head + 4..head + 4 + n], f.key);
    hide ReadFrame, Head, Masked, LengthOf, FormOf;
    FourParts(b, head, n);
  }

  lemma FourParts(b: seq<byte>, head: nat, n: nat)
    requires head + 4 + n <= |b|
    ensures b == b[..head] + b[head..head + 4] + b[head + 4..head + 4 + n] + b[head + 4 + n..]
  {
  }

  /** The masked and the plain text message of section 5.7 of RFC 6455. */
  lemma HelloFrames(b: seq<byte>, key: seq<byte>, masked: seq<byte>, plain: seq<byte>, rest: seq<byte>)
    requires key == [0x37, 0xfa, 0x21, 0x3d] && masked == [0x7f, 0x9f, 0x4d, 0x51, 0x58]
    requires plain == [0x48, 0x65, 0x6c, 0x6c, 0x6f] && b == [0x81, 0x85] + key + masked + rest
    ensures ReadFrame(b, 125) == Frame(ClientFrame(true, 0, TEXT, Short, key, plain), rest)
    ensures ServerFrame(TEXT, plain, true) == [0x81, 0x05] + plain
  {
    hide *;
    ReadsFive(b, key, masked, rest);
    ServesFive(plain);
    HelloUnmasked(key, masked, plain);
  }

  lemma HelloUnmasked(key: seq<byte>, masked: seq<byte>, plain: seq<byte>)
    requires key == [0x37, 0xfa, 0x21, 0x3d] && masked == [0x7f, 0x9f, 0x4d, 0x51, 0x58]
    requires plain == [0x48, 0x65, 0x6c, 0x6c, 0x6f]
    ensures Masked(masked, key) == plain
  {
    hide Xor;
    HelloMask();
    forall i | 0 <= i < 5 ensures Xor(masked[i], key[i % 4]) == plain[i] {
      if i < 4 {
        assert i % 4 == i;
      } else {
        assert i % 4 == 0;
      }
    }
  }

  lemma ReadsFive(b: seq<byte>, key: seq<byte>, masked: seq<byte>, rest: seq<byte>)
    requires |key| == 4 && |masked| == 5 && b == [0x81, 0x85] + key + masked + rest
    ensures ReadFrame(b, 125) == Frame(ClientFrame(true, 0, TEXT, Short, key, Masked(masked, key)), rest)
  {
    hide Masked;
    assert b[0] == 0x81 && b[1] == 0x85;
    assert b[2..6] == key && b[6..11] == masked && b[11..] == rest;
    assert FormOf(b[1]) == Short && LengthOf(b) == 5;
  }

  lemma ServesFive(plain: seq<byte>)
    requires |plain| == 5
    ensures ServerFrame(TEXT, plain, true) == [0x81, 0x05] + plain
  {
  }

  lemma HelloMask()
    ensures Xor(0x7f, 0x37) == 0x48 && Xor(0x9f, 0xfa) == 0x65 && Xor(0x4d, 0x21) == 0x6c && Xor(0x51, 0x3d) == 0x6c
    ensures Xor(0x58, 0x37) == 0x6f
  {
    hide Xor;
    XorSteps(0x7f, 0x37);
    XorSteps(0x9f, 0xfa);
    XorSteps(0x4d, 0x21);
    XorSteps(0x51, 0x3d);
    XorSteps(0x58, 0x37);
  }

  /** The exclusive or, bit by bit. */
  lemma XorSteps(a: byte, b: byte)
    ensures Xor(a, b) == Low(a, b) + 2 * Low(a / 2, b / 2) + 4 * Low(a / 4, b / 4) + 8 * Low(a / 8, b / 8)
                         + 16 * Low(a / 16, b / 16) + 32 * Low(a / 32, b / 32) + 64 * Low(a / 64, b / 64)
                         + 128 * Low(a / 128, b / 128)
  {
    FourSteps(a, b, 4);
    FourSteps(a / 16, b / 16, 0);
    assert XorBits(a / 16 / 16, b / 16 / 16, 0) == 0;
    hide XorBits, Low;
    assert a / 16 / 2 == a / 32 && a / 16 / 4 == a / 64 && a / 16 / 8 == a / 128;
    assert b / 16 / 2 == b / 32 && b / 16 / 4 == b / 64 && b / 16 / 8 == b / 128;
  }

  function Low(a: nat, b: nat): nat { if a % 2 == b % 2 then 0 else 1 }

  lemma FourSteps(a: nat, b: nat, k: nat)
    ensures XorBits(a, b, k + 4)
         == Low(a, b) + 2 * Low(a / 2, b / 2) + 4 * Low(a / 4, b / 4) + 8 * Low(a / 8, b / 8)
            + 16 * XorBits(a / 16, b / 16, k)
  {
    TwoSteps(a, b, k + 2);
    TwoSteps(a / 4, b / 4, k);
    hide XorBits, Low;
    assert a / 4 / 2 == a / 8 && a / 4 / 4 == a / 16 && b / 4 / 2 == b / 8 && b / 4 / 4 == b / 16;
  }

  lemma TwoSteps(a: nat, b: nat, k: nat)
    ensures XorBits(a, b, k + 2) == Low(a, b) + 2 * Low(a / 2, b / 2) + 4 * XorBits(a / 4, b / 4, k)
  {
    assert a / 2 / 2 == a / 4 && b / 2 / 2 == b / 4;
    assert XorBits(a, b, k + 2) == Low(a, b) + 2 * XorBits(a / 2, b / 2, k + 1);
    assert XorBits(a / 2, b / 2, k + 1) == Low(a / 2, b / 2) + 2 * XorBits(a / 2 / 2, b / 2 / 2, k);
  }
}
