/**
 The message reader of a WebSocket connection (src/server/WebSocket.cpp:518-554 and 608-709): what reading one
 message does to a connection, as a function, and the class that does it step by step.
 */
module WsReader {
  import opened Numbers
  import opened WsCodec

  datatype Limits = Limits(maxFrameBytes: nat, maxMessageBytes: nat)

  datatype Message =
    | Data(op: opcode, payload: seq<byte>)
    | Closed(code: nat, reason: seq<byte>)
    | Broken

  /** `input`: bytes the peer will still send; a read beyond them fails. `accepts`: how many more frames the
      socket takes before a write fails; `enabled`: whether the write chain still writes. */
  datatype Link = Link(input: seq<byte>, open: bool, closeCode: nat, closeReason: seq<byte>,
                       written: seq<seq<byte>>, enabled: bool, accepts: nat)

  function Bytes(s: string): seq<byte> { seq(|s|, i requires 0 <= i < |s| => s[i] as int % 256) }

  function CloseText(code: nat, reason: seq<byte>): seq<byte> { BigEndian(code, 2) + reason }

  // ----- writing --------------------------------------------------------------------------------

  function Write(l: Link, frame: seq<byte>): Link
  {
    if !l.enabled then l
    else if l.accepts == 0 then l.(enabled := false)
    else l.(accepts := l.accepts - 1, written := l.written + [frame])
  }

  function MarkClosed(l: Link, code: nat, reason: seq<byte>): Link
  {
    l.(open := false, enabled := false, closeCode := code, closeReason := reason)
  }

  /** A close frame is written, then the connection is closed. */
  function CloseWith(l: Link, code: nat, reason: seq<byte>): Link
    requires |reason| < 0x1_0000
  {
    MarkClosed(Write(l, ServerFrame(CLOSE, CloseText(code, reason), true)), code, reason)
  }

  datatype Step = Step(message: Message, link: Link)

  function Refuse(l: Link, code: nat, reason: string): Step
    requires |reason| < 0x1_0000
  {
    Step(Closed(code, Bytes(reason)), CloseWith(l, code, Bytes(reason)))
  }

  // ----- reading --------------------------------------------------------------------------------

  /** What has been collected of a message: nothing yet, or the first frame's type and the payload so far. */
  datatype Partial = Nothing | Started(op: opcode, payload: seq<byte>)

  function CloseCodeOf(payload: seq<byte>): nat
  {
    if |payload| >= 2 then payload[0] as nat * 256 + payload[1] as nat else 1005
  }

  function CloseReasonOf(payload: seq<byte>): seq<byte> { if |payload| > 2 then payload[2..] else [] }

  datatype Effect = Continues(link: Link, partial: Partial) | Ends(step: Step)

  /** What one frame does. */
  function Take(l: Link, p: Partial, f: ClientFrame, lim: Limits): Effect
  {
    if IsControl(f.op) && !f.fin then Ends(Refuse(l, 1002, "fragmented control"))
    else if IsControl(f.op) && |f.payload| > 125 then Ends(Refuse(l, 1002, "control frame too large"))
    else if f.op == PING then Continues(Write(l, ServerFrame(PONG, f.payload, true)), p)
    else if f.op == PONG then Continues(l, p)
    else if f.op == CLOSE then
      var code := CloseCodeOf(f.payload);
      var reason := CloseReasonOf(f.payload);
      Ends(Step(Closed(code, reason), CloseWith(l, code, reason)))
    else if f.op != CONTINUATION then Collected(l, f.op, f.payload, f.fin)
    else if p.Nothing? then Ends(Refuse(l, 1002, "unexpected continuation"))
    else if |p.payload| + |f.payload| > lim.maxMessageBytes then Ends(Refuse(l, 1009, "message too large"))
    else Collected(l, p.op, p.payload + f.payload, f.fin)
  }

  function Collected(l: Link, op: opcode, payload: seq<byte>, fin: bool): Effect
  {
    if fin then Ends(Step(Data(if op == TEXT then TEXT else BINARY, payload), l)) else Continues(l, Started(op, payload))
  }

  /** Frames are read until a message is complete, the connection is closed or the input ends. */
  function Receive(l: Link, p: Partial, lim: Limits): Step
    decreases |l.input|
  {
    match ReadFrame(l.input, lim.maxFrameBytes)
    case Cut => Step(Broken, l.(input := []))
    case NoMask(rest) => Refuse(l.(input := rest), 1002, "unmasked client frame")
    case Large(rest) => Refuse(l.(input := rest), 1009, "frame too large")
    case Frame(f, rest) =>
      match Take(l.(input := rest), p, f, lim)
      case Ends(step) => step
      case Continues(next, q) => Receive(next, q, lim)
  }

  function ReadMessage(l: Link, lim: Limits): Step
  {
    if !l.open then Step(Closed(l.closeCode, l.closeReason), l) else Receive(l, Nothing, lim)
  }

  // ----- decoding one frame from memory ---------------------------------------------------------

  datatype Problem = Incomplete | Unmasked | FrameTooLarge | FragmentedControl | ControlTooLarge

  datatype Decoded =
    | Threw(problem: Problem)
    | Plain(op: opcode, payload: seq<byte>, rest: seq<byte>)
    | CloseSeen(code: nat, reason: seq<byte>, rest: seq<byte>)

  /** decodeClientFrame: text, ping and pong keep their type, every other opcode but close becomes binary. */
  function DecodeClientFrame(bytes: seq<byte>, maxFrameBytes: nat): Decoded
  {
    match ReadFrame(bytes, maxFrameBytes)
    case Cut => Threw(Incomplete)
    case NoMask(_) => Threw(Unmasked)
    case Large(_) => Threw(FrameTooLarge)
    case Frame(f, rest) =>
      if IsControl(f.op) && !f.fin then Threw(FragmentedControl)
      else if IsControl(f.op) && |f.payload| > 125 then Threw(ControlTooLarge)
      else if f.op == CLOSE then CloseSeen(CloseCodeOf(f.payload), CloseReasonOf(f.payload), rest)
      else if f.op == TEXT || f.op == PING || f.op == PONG then Plain(f.op, f.payload, rest)
      else Plain(BINARY, f.payload, rest)
  }

  /** The connection's reader and the in-memory decoder agree on a final frame that starts a message. */
  lemma DecoderAgrees(l: Link, lim: Limits)
    requires l.open
    ensures var d := DecodeClientFrame(l.input, lim.maxFrameBytes);
            var r := ReadFrame(l.input, lim.maxFrameBytes);
            var s := ReadMessage(l, lim);
            match d
            case Threw(problem) =>
              s.message == (match problem
                            case Incomplete => Broken
                            case Unmasked => Closed(1002, Bytes("unmasked client frame"))
                            case FrameTooLarge => Closed(1009, Bytes("frame too large"))
                            case FragmentedControl => Closed(1002, Bytes("fragmented control"))
                            case ControlTooLarge => Closed(1002, Bytes("control frame too large")))
            case CloseSeen(code, reason, rest) => s.message == Closed(code, reason) && s.link.input == rest
            case Plain(op, payload, rest) =>
              op != PING && op != PONG && r.frame.fin && r.frame.op != CONTINUATION
              ==> s == Step(Data(op, payload), l.(input := rest))
  {
    hide ReadFrame, ServerFrame, Bytes;
  }

  // ----- step by step ---------------------------------------------------------------------------

  class Connection {
    var input: seq<byte>
    var written: seq<seq<byte>>
    var enabled: bool
    var accepts: nat
    var open: bool
    var closeCode: nat
    var closeReason: seq<byte>
    const limits: Limits

    constructor (input: seq<byte>, accepts: nat, limits: Limits)
      ensures AsLink() == Link(input, true, 1005, [], [], true, accepts) && this.limits == limits
    {
      this.input, this.accepts, this.limits := input, accepts, limits;
      written, enabled, open, closeCode, closeReason := [], true, true, 1005, [];
    }

    ghost function AsLink(): Link
      reads this
    {
      Link(input, open, closeCode, closeReason, written, enabled, accepts)
    }

    /** Exactly n bytes, or everything that is left and failure. */
    method ReadExactly(n: nat) returns (bytes: array<byte>, ok: bool)
      modifies this`input
      ensures ok == (n <= |old(input)|) && fresh(bytes)
      ensures ok ==> bytes.Length == n && bytes[..] == old(input)[..n] && input == old(input)[n..]
      ensures !ok ==> input == []
    {
      if n > |input| {
        bytes := new byte[0];
        input := [];
        return bytes, false;
      }
      bytes := new byte[n](i requires 0 <= i < n <= |input| reads this => input[i]);
      assert bytes[..] == input[..n];
      input := input[n..];
      ok := true;
    }

    method WriteRaw(frame: seq<byte>)
      modifies this
      ensures AsLink() == Write(old(AsLink()), frame)
    {
      if enabled {
        if accepts == 0 {
          enabled := false;
        } else {
          accepts := accepts - 1;
          written := written + [frame];
        }
      }
    }

    method MarkClosedNow(code: nat, reason: seq<byte>)
      modifies this
      ensures AsLink() == MarkClosed(old(AsLink()), code, reason)
    {
      open := false;
      enabled := false;
      closeCode := code;
      closeReason := reason;
    }

    method CloseNow(code: nat, reason: seq<byte>) returns (m: Message)
      requires |reason| < 0x1_0000
      modifies this
      ensures Step(m, AsLink()) == Step(Closed(code, reason), CloseWith(old(AsLink()), code, reason))
    {
      var frame := EncodeServerFrame(CLOSE, CloseText(code, reason), true);
      WriteRaw(frame);
      MarkClosedNow(code, reason);
      m := Closed(closeCode, closeReason);
    }

    /** The length of the frame whose first two bytes were read. */
    method ReadLength(header: seq<byte>) returns (n: nat, ok: bool)
      requires |header| == 2 && header[1] >= 128
      modifies this`input
      ensures var all := header + old(input);
              var head := 2 + Extra(FormOf(header[1]));
              ok == (|all| >= head) && (ok ==> n == LengthOf(all) && input == all[head..]) && (!ok ==> input == [])
    {
      n := header[1] % 128;
      ok := true;
      ghost var all := header + input;
      if n == 126 {
        var ext;
        ext, ok := ReadExactly(2);
        if ok {
          n := ext[0] as nat * 256 + ext[1] as nat;
          assert all[2..4] == [ext[0], ext[1]];
          TwoBytes(ext[0], ext[1]);
          assert input == all[4..];
        }
      } else if n == 127 {
        var ext;
        ext, ok := ReadExactly(8);
        if ok {
          n := 0;
          for i := 0 to 8
            invariant n == Value(ext[..i])
          {
            n := n * 256 + ext[i] as nat;
            assert ext[..i + 1][..i] == ext[..i];
          }
          assert all[2..10] == ext[..8];
          assert input == all[10..];
        }
      } else {
        assert input == all[2..];
      }
    }

    /** The key and the payload of a frame whose header takes `head` bytes of `all`. */
    method ReadMasked(n: nat, ghost all: seq<byte>, ghost head: nat) returns (key: seq<byte>, payload: seq<byte>, ok: bool)
      requires head <= |all| && input == all[head..]
      modifies this`input
      ensures ok == (|all| >= head + 4 + n)
      ensures ok ==> |key| == 4 && key == all[head..head + 4] && payload == Masked(all[head + 4..head + 4 + n], key)
                     && input == all[head + 4 + n..]
      ensures !ok ==> input == []
    {
      key, payload := [], [];
      var k;
      k, ok := ReadExactly(4);
      if !ok {
        return;
      }
      Slices(all, head, 4);
      key := k[..];
      var p;
      p, ok := ReadExactly(n);
      if !ok {
        return;
      }
      Slices(all, head + 4, n);
      UnmaskPayload(p, key);
      payload := p[..];
    }

    /** One masked frame. */
    method ReadOne() returns (r: FrameRead)
      modifies this`input
      ensures r == ReadFrame(old(input), limits.maxFrameBytes)
      ensures input == if r.Cut? then [] else r.rest
    {
      hide Masked, LengthOf, FormOf;
      ghost var all := input;
      var header, ok := ReadExactly(2);
      if !ok {
        return Cut;
      }
      var h := header[..];
      assert h + input == all;
      if h[1] < 128 {
        return NoMask(input);
      }
      var n;
      n, ok := ReadLength(h);
      if !ok {
        return Cut;
      }
      if n > limits.maxFrameBytes {
        return Large(input);
      }
      var key, payload;
      key, payload, ok := ReadMasked(n, all, 2 + Extra(FormOf(h[1])));
      if !ok {
        return Cut;
      }
      r := Frame(ClientFrame(h[0] >= 128, h[0] / 16 % 8, h[0] % 16, FormOf(h[1]), key, payload), input);
    }

    method Refused(code: nat, reason: string) returns (m: Message)
      requires |reason| < 0x1_0000
      modifies this
      ensures Step(m, AsLink()) == Refuse(old(AsLink()), code, reason)
    {
      m := CloseNow(code, Bytes(reason));
    }

    /** The next message of the connection. */
    method ReadMessageNow() returns (m: Message)
      modifies this
      ensures Step(m, AsLink()) == ReadMessage(old(AsLink()), limits)
    {
      hide ReadFrame;
      if !open {
        return Closed(closeCode, closeReason);
      }
      m := ReceiveNow();
    }

    /** A control frame: true when it ended the message. */
    method TakeControl(f: ClientFrame, ghost p: Partial) returns (m: Message, ended: bool)
      requires IsControl(f.op) && (!f.fin || |f.payload| > 125 || f.op == PING || f.op == PONG || f.op == CLOSE)
      modifies this
      ensures Take(old(AsLink()), p, f, limits)
           == if ended then Ends(Step(m, AsLink())) else Continues(AsLink(), p)
      ensures input == old(input)
    {
      m, ended := Broken, true;
      if !f.fin {
        m := Refused(1002, "fragmented control");
      } else if |f.payload| > 125 {
        m := Refused(1002, "control frame too large");
      } else if f.op == PING {
        var frame := EncodeServerFrame(PONG, f.payload, true);
        WriteRaw(frame);
        ended := false;
      } else if f.op == PONG {
        ended := false;
      } else {
        var code := 1005;
        var reason: seq<byte> := [];
        if |f.payload| >= 2 {
          code := f.payload[0] as nat * 256 + f.payload[1] as nat;
          if |f.payload| > 2 {
            reason := f.payload[2..];
          }
        }
        m := CloseNow(code, reason);
      }
    }

    method ReceiveNow() returns (m: Message)
      modifies this
      ensures Step(m, AsLink()) == Receive(old(AsLink()), Nothing, limits)
    {
      hide ReadFrame, ServerFrame;
      var accumulator: seq<byte> := [];
      var messageOpcode: opcode := CONTINUATION;
      var started := false;
      while true
        invariant Receive(AsLink(), if started then Started(messageOpcode, accumulator) else Nothing, limits)
               == Receive(old(AsLink()), Nothing, limits)
        decreases |input|
      {
        ghost var p := if started then Started(messageOpcode, accumulator) else Nothing;
        ghost var before := AsLink();
        FrameShrinks(input, limits.maxFrameBytes);
        var r := ReadOne();
        if r.Cut? {
          return Broken;
        }
        if r.NoMask? {
          m := Refused(1002, "unmasked client frame");
          return;
        }
        if r.Large? {
          m := Refused(1009, "frame too large");
          return;
        }
        var f := r.frame;
        ReceiveStep(before, p, limits);
        if IsControl(f.op) && (!f.fin || |f.payload| > 125 || f.op == PING || f.op == PONG || f.op == CLOSE) {
          var ended;
          m, ended := TakeControl(f, p);
          if ended {
            return;
          }
          continue;
        }
        if f.op != CONTINUATION {
          messageOpcode := f.op;
          started := true;
          accumulator := f.payload;
        } else if started {
          if |accumulator| + |f.payload| > limits.maxMessageBytes {
            m := Refused(1009, "message too large");
            return;
          }
          accumulator := accumulator + f.payload;
        } else {
          m := Refused(1002, "unexpected continuation");
          return;
        }
        if f.fin && started {
          return Data(if messageOpcode == TEXT then TEXT else BINARY, accumulator);
        }
      }
    }
  }

  lemma Slices(all: seq<byte>, from: nat, n: nat)
    requires from + n <= |all|
    ensures all[from..][..n] == all[from..from + n] && all[from..][n..] == all[from + n..]
  {
  }

  lemma TwoBytes(a: byte, b: byte)
    ensures Value([a, b]) == a * 256 + b
  {
    assert [a, b][..1] == [a];
    assert Value([a]) == a;
  }

  lemma FrameShrinks(b: seq<byte>, maxFrameBytes: nat)
    ensures ReadFrame(b, maxFrameBytes).Frame? ==> |ReadFrame(b, maxFrameBytes).rest| < |b|
  {
  }

  lemma ReceiveStep(l: Link, p: Partial, lim: Limits)
    requires ReadFrame(l.input, lim.maxFrameBytes).Frame?
    ensures var r := ReadFrame(l.input, lim.maxFrameBytes);
            var e := Take(l.(input := r.rest), p, r.frame, lim);
            Receive(l, p, lim) == if e.Ends? then e.step else Receive(e.link, e.partial, lim)
  {
  }
}
