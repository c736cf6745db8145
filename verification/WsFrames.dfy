/** What each frame at the front of the input makes the WebSocket reader do, in the terms of RFC 6455. */
module WsFrames {
  import opened Numbers
  import opened WsCodec
  import opened WsReader

  /** The connection was closed with this code and reason: the close frame went out if the socket still took one, and
      from now on nothing is written. */
  predicate ClosedBy(s: Step, l: Link, rest: seq<byte>, code: nat, reason: seq<byte>)
  {
    && s.message == Closed(code, reason)
    && !s.link.open && !s.link.enabled && s.link.closeCode == code && s.link.closeReason == reason
    && s.link.input == rest
    && s.link.written == l.written + if l.enabled && l.accepts > 0 && |reason| < 0x1_0000 then [CloseFrame(code, reason)] else []
  }

  /** First byte, length, code and reason. */
  function CloseFrame(code: nat, reason: seq<byte>): seq<byte>
    requires |reason| < 0x1_0000
  {
    var n := 2 + |reason|;
    [0x88] + (if n <= 125 then [n] else if n < 0x1_0000 then [126, n / 256, n % 256] else [127, 0, 0, 0, 0, 0, 1, 0, n % 256])
    + [(code / 256) % 256, code % 256] + reason
  }

  lemma CloseFrameIs(code: nat, reason: seq<byte>)
    requires |reason| < 0x1_0000
    ensures ServerFrame(CLOSE, CloseText(code, reason), true) == CloseFrame(code, reason)
  {
    var n := 2 + |reason|;
    BigEndianTwo(code);
    assert |CloseText(code, reason)| == n;
    if 126 <= n < 0x1_0000 {
      BigEndianTwo(n);
    } else if n >= 0x1_0000 {
      hide BigEndian, CloseText;
      forall i: nat | i < 8 ensures BigEndian(n, 8)[i] == [0, 0, 0, 0, 0, 1, 0, n % 256][i] {
        BigEndianAt(n, 8, i);
        WidePlaces(i);
      }
      assert BigEndian(n, 8) == [0, 0, 0, 0, 0, 1, 0, n % 256];
    }
  }

  lemma WidePlaces(i: nat)
    requires i < 8
    ensures Pow256(7 - i) == [0x100_0000_0000_0000, 0x1_0000_0000_0000, 0x100_0000_0000, 0x1_0000_0000, 0x100_0000, 0x1_0000, 0x100, 1][i]
  {
    assert Pow256(1) == 0x100 && Pow256(2) == 0x1_0000;
    assert Pow256(4) == 0x1_0000_0000;
    assert Pow256(6) == 0x1_0000_0000_0000;
  }

  lemma ClosesWith(l: Link, code: nat, reason: seq<byte>)
    requires |reason| < 0x1_0000
    ensures ClosedBy(Step(Closed(code, reason), CloseWith(l, code, reason)), l, l.input, code, reason)
  {
    CloseFrameIs(code, reason);
    hide ServerFrame, CloseText, CloseFrame;
  }

  /** A frame no longer than allowed at the front of the input, with `rest` after it. */
  predicate Arrives(l: Link, f: ClientFrame, rest: seq<byte>, lim: Limits)
  {
    FrameOk(f) && |f.payload| <= lim.maxFrameBytes && l.input == Encode(f) + rest
  }

  lemma Arrived(l: Link, p: Partial, f: ClientFrame, rest: seq<byte>, lim: Limits)
    requires Arrives(l, f, rest, lim)
    ensures var e := Take(l.(input := rest), p, f, lim);
            Receive(l, p, lim) == if e.Ends? then e.step else Receive(e.link, e.partial, lim)
  {
    hide Encode, Take;
    EncodedReadsBack(f, rest, lim.maxFrameBytes);
    ReceiveStep(l, p, lim);
  }

  /** Control frames (opcodes 8 to 15) in fragments or with more than 125 bytes close the connection. */
  lemma BadControl(l: Link, p: Partial, f: ClientFrame, rest: seq<byte>, lim: Limits, text: string)
    requires Arrives(l, f, rest, lim) && f.op >= 8 && (!f.fin || |f.payload| > 125)
    requires text == if !f.fin then "fragmented control" else "control frame too large"
    ensures ClosedBy(Receive(l, p, lim), l, rest, 1002, Bytes(text))
  {
    Arrived(l, p, f, rest, lim);
    assert |text| < 100;
    ClosesWith(l.(input := rest), 1002, Bytes(text));
    hide Receive, ClosedBy, CloseWith, Bytes;
  }

  /** A close frame is answered with its own code and reason; one without a code counts as 1005. */
  lemma CloseArrives(l: Link, p: Partial, f: ClientFrame, rest: seq<byte>, lim: Limits, code: nat, reason: seq<byte>)
    requires Arrives(l, f, rest, lim) && f.op == 8 && f.fin && |f.payload| <= 125
    requires if |f.payload| < 2 then code == 1005 && reason == []
             else code < 0x1_0000 && f.payload == [code / 256, code % 256] + reason
    ensures ClosedBy(Receive(l, p, lim), l, rest, code, reason)
  {
    Arrived(l, p, f, rest, lim);
    assert CloseCodeOf(f.payload) == code && CloseReasonOf(f.payload) == reason by {
      if |f.payload| > 2 {
        assert f.payload[2..] == reason;
      }
    }
    ClosesWith(l.(input := rest), code, reason);
    hide Receive, ClosedBy, CloseWith, CloseCodeOf, CloseReasonOf;
  }

  /** A ping is answered with a pong of the same payload, a pong with nothing, and reading goes on. */
  lemma PingArrives(l: Link, p: Partial, f: ClientFrame, rest: seq<byte>, lim: Limits)
    requires Arrives(l, f, rest, lim) && (f.op == 9 || f.op == 10) && f.fin && |f.payload| <= 125
    ensures var next := l.(input := rest);
            Receive(l, p, lim)
            == if f.op == 10 || !l.enabled then Receive(next, p, lim)
               else if l.accepts == 0 then Receive(next.(enabled := false), p, lim)
               else Receive(next.(accepts := l.accepts - 1, written := l.written + [[0x8a, |f.payload|] + f.payload]), p, lim)
  {
    hide Receive, Encode, FrameOk, Take;
    Arrived(l, p, f, rest, lim);
    PingTaken(l.(input := rest), p, f, lim);
  }

  lemma PingTaken(l: Link, p: Partial, f: ClientFrame, lim: Limits)
    requires (f.op == 9 || f.op == 10) && f.fin && |f.payload| <= 125
    ensures Take(l, p, f, lim)
         == Continues(
              if f.op == 10 || !l.enabled then l
              else if l.accepts == 0 then l.(enabled := false)
              else l.(accepts := l.accepts - 1, written := l.written + [[0x8a, |f.payload|] + f.payload]), p)
  {
    PongFrame(f.payload);
    hide ServerFrame;
  }

  lemma PongFrame(payload: seq<byte>)
    requires |payload| <= 125
    ensures ServerFrame(PONG, payload, true) == [0x8a, |payload|] + payload
  {
  }

  /** A data frame starts a message, whatever was collected before, and is the whole message when it is final. */
  lemma DataArrives(l: Link, p: Partial, f: ClientFrame, rest: seq<byte>, lim: Limits)
    requires Arrives(l, f, rest, lim) && 1 <= f.op < 8
    ensures Receive(l, p, lim)
         == if f.fin then Step(Data(if f.op == 1 then 1 else 2, f.payload), l.(input := rest))
            else Receive(l.(input := rest), Started(f.op, f.payload), lim)
  {
    Arrived(l, p, f, rest, lim);
    hide Receive;
  }

  /** A continuation with nothing to continue, or one that makes the message too long, closes the connection. */
  lemma BadContinuation(l: Link, p: Partial, f: ClientFrame, rest: seq<byte>, lim: Limits, text: string)
    requires Arrives(l, f, rest, lim) && f.op == 0
    requires p.Nothing? || |p.payload| + |f.payload| > lim.maxMessageBytes
    requires text == if p.Nothing? then "unexpected continuation" else "message too large"
    ensures ClosedBy(Receive(l, p, lim), l, rest, if p.Nothing? then 1002 else 1009, Bytes(text))
  {
    Arrived(l, p, f, rest, lim);
    assert |text| < 100;
    var code := if p.Nothing? then 1002 else 1009;
    ClosesWith(l.(input := rest), code, Bytes(text));
    hide Receive, ClosedBy, CloseWith, Bytes;
  }

  /** Any other continuation goes on with the message, and ends it when it is final. */
  lemma ContinuationArrives(l: Link, p: Partial, f: ClientFrame, rest: seq<byte>, lim: Limits)
    requires Arrives(l, f, rest, lim) && f.op == 0 && p.Started? && |p.payload| + |f.payload| <= lim.maxMessageBytes
    ensures Receive(l, p, lim)
         == if f.fin then Step(Data(if p.op == 1 then 1 else 2, p.payload + f.payload), l.(input := rest))
            else Receive(l.(input := rest), Started(p.op, p.payload + f.payload), lim)
  {
    Arrived(l, p, f, rest, lim);
    hide Receive;
  }

  /** A frame that is not masked closes the connection. */
  lemma UnmaskedArrives(l: Link, p: Partial, b0: byte, b1: byte, rest: seq<byte>, lim: Limits, text: string)
    requires l.input == [b0, b1] + rest && b1 < 128 && text == "unmasked client frame"
    ensures ClosedBy(Receive(l, p, lim), l, rest, 1002, Bytes(text))
  {
    assert l.input[2..] == rest;
    assert |text| < 100;
    ClosesWith(l.(input := rest), 1002, Bytes(text));
    hide ClosedBy, CloseWith, Bytes;
  }

  /** A frame that announces more than the limit closes the connection before its payload is read. */
  lemma LargeArrives(l: Link, p: Partial, f: ClientFrame, rest: seq<byte>, lim: Limits, text: string)
    requires FrameOk(f) && |f.payload| > lim.maxFrameBytes && l.input == Head(f) + rest && text == "frame too large"
    ensures ClosedBy(Receive(l, p, lim), l, rest, 1009, Bytes(text))
  {
    HeadReads(f, rest);
    hide Head, LengthOf, FormOf;
    assert l.input[2 + Extra(f.form)..] == rest;
    assert |text| < 100;
    ClosesWith(l.(input := rest), 1009, Bytes(text));
    hide ClosedBy, CloseWith, Bytes;
  }
}
