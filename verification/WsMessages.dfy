/** Properties of the WebSocket reader: messages come back whole, and what comes back was sent. */
module WsMessages {
  import opened Numbers
  import opened WsCodec
  import opened WsReader

  // ----- scripts of frames ----------------------------------------------------------------------

  function EncodeAll(frames: seq<ClientFrame>): seq<byte>
    requires AllOk(frames)
  {
    if frames == [] then [] else Encode(frames[0]) + EncodeAll(frames[1..])
  }

  predicate AllOk(frames: seq<ClientFrame>) { forall k :: 0 <= k < |frames| ==> FrameOk(frames[k]) }

  /** The payloads of the data frames, in order. */
  function Joined(frames: seq<ClientFrame>): seq<byte>
  {
    if frames == [] then []
    else Joined(frames[..|frames| - 1]) + if IsControl(frames[|frames| - 1].op) then [] else frames[|frames| - 1].payload
  }

  /** The payloads of the pings, in order. */
  function Pings(frames: seq<ClientFrame>): seq<seq<byte>>
  {
    if frames == [] then []
    else Pings(frames[..|frames| - 1])
         + if frames[|frames| - 1].op == PING then [frames[|frames| - 1].payload] else []
  }

  predicate HasData(frames: seq<ClientFrame>) { exists k :: 0 <= k < |frames| && !IsControl(frames[k].op) }

  /** The type of the first data frame. */
  function FirstOp(frames: seq<ClientFrame>): opcode
  {
    if frames == [] then CONTINUATION
    else if !IsControl(frames[0].op) then frames[0].op
    else FirstOp(frames[1..])
  }

  /** One frame of a fragmented message, at position k. */
  predicate Fragment(frames: seq<ClientFrame>, k: nat, lim: Limits)
    requires k < |frames|
  {
    var f := frames[k];
    && |f.payload| <= lim.maxFrameBytes
    && if IsControl(f.op) then (f.op == PING || f.op == PONG) && f.fin && |f.payload| <= 125
       else (f.fin <==> k == |frames| - 1) && (f.op == CONTINUATION <==> HasData(frames[..k]))
  }

  /** A data message cut into frames, with pings and pongs anywhere before the last frame. */
  predicate IsScript(frames: seq<ClientFrame>, lim: Limits)
  {
    && AllOk(frames) && frames != [] && !IsControl(frames[|frames| - 1].op)
    && (forall k :: 0 <= k < |frames| ==> Fragment(frames, k, lim))
    && (frames[|frames| - 1].op == CONTINUATION ==> |Joined(frames)| <= lim.maxMessageBytes)
  }

  /** The link after these pings have been answered in order. */
  function Answered(l: Link, pings: seq<seq<byte>>): Link
  {
    if pings == [] then l else Pong(Answered(l, pings[..|pings| - 1]), pings[|pings| - 1])
  }

  function Pong(l: Link, ping: seq<byte>): Link
  {
    if |ping| <= 125 then Write(l, ServerFrame(PONG, ping, true)) else l
  }

  function StateAfter(frames: seq<ClientFrame>): Partial
  {
    if HasData(frames) then Started(FirstOp(frames), Joined(frames)) else Nothing
  }

  // ----- a message comes back whole -------------------------------------------------------------

  lemma {:induction false} FirstOpGrows(frames: seq<ClientFrame>, f: ClientFrame)
    ensures FirstOp(frames + [f]) == if HasData(frames) || IsControl(f.op) then FirstOp(frames) else f.op
  {
    if frames == [] {
      assert ([] + [f])[1..] == [];
    } else {
      assert (frames + [f])[1..] == frames[1..] + [f];
      FirstOpGrows(frames[1..], f);
      if IsControl(frames[0].op) {
        assert HasData(frames) == HasData(frames[1..]) by {
          if HasData(frames) {
            var k :| 0 <= k < |frames| && !IsControl(frames[k].op);
            assert frames[1..][k - 1] == frames[k];
          }
          if HasData(frames[1..]) {
            var k :| 0 <= k < |frames[1..]| && !IsControl(frames[1..][k].op);
            assert frames[k + 1] == frames[1..][k];
          }
        }
      } else {
        assert HasData(frames);
      }
    }
  }

  lemma HasDataGrows(frames: seq<ClientFrame>, f: ClientFrame)
    ensures HasData(frames + [f]) == (HasData(frames) || !IsControl(f.op))
  {
    var all := frames + [f];
    if HasData(frames) {
      var k :| 0 <= k < |frames| && !IsControl(frames[k].op);
      assert all[k] == frames[k];
    }
    assert all[|frames|] == f;
    if HasData(all) && IsControl(f.op) {
      var k :| 0 <= k < |all| && !IsControl(all[k].op);
      assert frames[k] == all[k];
    }
  }

  lemma JoinedGrows(frames: seq<ClientFrame>, f: ClientFrame)
    ensures Joined(frames + [f]) == Joined(frames) + if IsControl(f.op) then [] else f.payload
    ensures Pings(frames + [f]) == Pings(frames) + if f.op == PING then [f.payload] else []
  {
    assert (frames + [f])[..|frames|] == frames;
  }

  lemma {:induction false} JoinedFront(frames: seq<ClientFrame>, k: nat)
    requires k <= |frames|
    ensures |Joined(frames[..k])| <= |Joined(frames)|
    decreases |frames|
  {
    if k < |frames| {
      var front := frames[..|frames| - 1];
      JoinedFront(front, k);
      assert front[..k] == frames[..k];
    } else {
      assert frames[..k] == frames;
    }
  }

  lemma {:induction false} NoDataJoined(frames: seq<ClientFrame>)
    requires !HasData(frames)
    ensures Joined(frames) == []
  {
    if frames != [] {
      var front := frames[..|frames| - 1];
      HasDataGrows(front, frames[|frames| - 1]);
      assert front + [frames[|frames| - 1]] == frames;
      NoDataJoined(front);
    }
  }

  /** How a data frame changes what has been collected. */
  lemma StateGrows(front: seq<ClientFrame>, f: ClientFrame)
    ensures IsControl(f.op) ==> StateAfter(front + [f]) == StateAfter(front)
    ensures !IsControl(f.op) ==>
              StateAfter(front + [f]) == Started(if HasData(front) then FirstOp(front) else f.op, Joined(front) + f.payload)
    ensures StateAfter(front) == if HasData(front) then Started(FirstOp(front), Joined(front)) else Nothing
    ensures !HasData(front) ==> Joined(front) == []
  {
    FirstOpGrows(front, f);
    HasDataGrows(front, f);
    JoinedGrows(front, f);
    hide HasData, FirstOp, Joined;
    if !HasData(front) {
      NoDataJoined(front);
    }
  }

  function Replied(l: Link, f: ClientFrame): Link
  {
    if f.op == PING then Pong(l, f.payload) else l
  }

  /** What taking frame k of a script does. */
  lemma FragmentTaken(l: Link, frames: seq<ClientFrame>, k: nat, lim: Limits)
    requires IsScript(frames, lim) && k < |frames|
    ensures Take(l, StateAfter(frames[..k]), frames[k], lim)
         == if k < |frames| - 1 then Continues(Replied(l, frames[k]), StateAfter(frames[..k + 1]))
            else Ends(Step(Data(if FirstOp(frames) == TEXT then TEXT else BINARY, Joined(frames)), l))
  {
    hide *;
    var f := frames[k];
    var front := frames[..k];
    assert front + [f] == frames[..k + 1];
    assert k == |frames| - 1 ==> frames[..k + 1] == frames;
    StateGrows(front, f);
    StateShape(front + [f]);
    FragmentFacts(frames, k, lim);
    FragmentStep(l, front, f, lim, k < |frames| - 1);
  }

  lemma StateShape(frames: seq<ClientFrame>)
    ensures StateAfter(frames).Started? ==> StateAfter(frames) == Started(FirstOp(frames), Joined(frames))
  {
  }

  lemma FragmentStep(l: Link, front: seq<ClientFrame>, f: ClientFrame, lim: Limits, more: bool)
    requires if IsControl(f.op) then (f.op == PING || f.op == PONG) && f.fin && |f.payload| <= 125 && more
             else (f.fin <==> !more)
                  && (f.op == CONTINUATION <==> HasData(front))
                  && (f.op == CONTINUATION ==> |Joined(front)| + |f.payload| <= lim.maxMessageBytes)
    ensures var q := StateAfter(front + [f]);
            Take(l, StateAfter(front), f, lim)
            == if more then Continues(Replied(l, f), q)
               else Ends(Step(Data(if q.Started? && q.op == TEXT then TEXT else BINARY, if q.Started? then q.payload else []), l))
  {
    StateGrows(front, f);
    hide HasData, FirstOp, Joined, StateAfter, ServerFrame, Refuse, CloseWith;
    assert [] + f.payload == f.payload;
  }

  lemma FragmentFacts(frames: seq<ClientFrame>, k: nat, lim: Limits)
    requires IsScript(frames, lim) && k < |frames|
    ensures var f := frames[k];
            if IsControl(f.op) then (f.op == PING || f.op == PONG) && f.fin && |f.payload| <= 125 && k < |frames| - 1
            else (f.fin <==> k == |frames| - 1)
                 && (f.op == CONTINUATION <==> HasData(frames[..k]))
                 && (f.op == CONTINUATION ==> |Joined(frames[..k])| + |f.payload| <= lim.maxMessageBytes)
  {
    assert Fragment(frames, k, lim);
    assert frames[..k] + [frames[k]] == frames[..k + 1];
    JoinedGrows(frames[..k], frames[k]);
    JoinedFront(frames, k + 1);
    if frames[k].op == CONTINUATION {
      ContinuationLast(frames, k, lim);
    }
    hide HasData, Joined;
  }

  /** If some frame continues, the last one does. */
  lemma ContinuationLast(frames: seq<ClientFrame>, k: nat, lim: Limits)
    requires IsScript(frames, lim) && k < |frames| && frames[k].op == CONTINUATION
    ensures |Joined(frames)| <= lim.maxMessageBytes
  {
    var last := |frames| - 1;
    assert Fragment(frames, last, lim);
    hide AllOk, Joined;
    if k < last {
      assert frames[..last][k] == frames[k];
      assert HasData(frames[..last]);
    }
  }

  lemma EncodeAllSplit(frames: seq<ClientFrame>, k: nat, rest: seq<byte>)
    requires AllOk(frames) && k < |frames|
    ensures AllOk(frames[k..]) && AllOk(frames[k + 1..])
    ensures EncodeAll(frames[k..]) + rest == Encode(frames[k]) + (EncodeAll(frames[k + 1..]) + rest)
  {
    hide FrameOk;
    assert frames[k..][0] == frames[k] && frames[k..][1..] == frames[k + 1..];
  }

  lemma AnsweredGrows(l: Link, pings: seq<seq<byte>>, ping: seq<byte>)
    ensures Answered(l, pings + [ping]) == Pong(Answered(l, pings), ping)
  {
    assert (pings + [ping])[..|pings|] == pings;
  }

  lemma ScriptFacts(frames: seq<ClientFrame>, k: nat, lim: Limits)
    requires IsScript(frames, lim) && k < |frames|
    ensures FrameOk(frames[k]) && |frames[k].payload| <= lim.maxFrameBytes
  {
    assert Fragment(frames, k, lim);
  }

  /** The link after k frames of a script, with the rest still to be read. */
  function LinkAfter(l: Link, frames: seq<ClientFrame>, k: nat, rest: seq<byte>): Link
    requires AllOk(frames) && k <= |frames|
  {
    Answered(l, Pings(frames[..k])).(input := EncodeAll(frames[k..]) + rest)
  }

  /** The pings after frame k. */
  lemma PingsMove(l: Link, frames: seq<ClientFrame>, k: nat)
    requires k < |frames|
    ensures Replied(Answered(l, Pings(frames[..k])), frames[k]) == Answered(l, Pings(frames[..k + 1]))
  {
    hide Joined, Answered, Pings, Pong;
    var f := frames[k];
    assert frames[..k] + [f] == frames[..k + 1];
    JoinedGrows(frames[..k], f);
    AnsweredGrows(l, Pings(frames[..k]), f.payload);
    if f.op != PING {
      assert Pings(frames[..k]) + [] == Pings(frames[..k]);
    }
  }

  lemma RepliedInput(l: Link, f: ClientFrame, input: seq<byte>)
    ensures Replied(l.(input := input), f) == Replied(l, f).(input := input)
  {
  }

  lemma LinkMoves(l: Link, frames: seq<ClientFrame>, k: nat, rest: seq<byte>)
    requires AllOk(frames) && k < |frames|
    ensures AllOk(frames[k + 1..])
    ensures var tail := EncodeAll(frames[k + 1..]) + rest;
            Replied(LinkAfter(l, frames, k, rest).(input := tail), frames[k]) == LinkAfter(l, frames, k + 1, rest)
  {
    hide Encode, EncodeAll, FrameOk, Pings, Joined, Answered, Replied;
    PingsMove(l, frames, k);
    RepliedInput(Answered(l, Pings(frames[..k])), frames[k], EncodeAll(frames[k + 1..]) + rest);
  }

  /** What the reader does with frame k. */
  lemma ScriptStep(l: Link, frames: seq<ClientFrame>, k: nat, rest: seq<byte>, lim: Limits)
    requires IsScript(frames, lim) && AllOk(frames) && k < |frames|
    ensures var tail := EncodeAll(frames[k + 1..]) + rest;
            var here := LinkAfter(l, frames, k, rest);
            Receive(here, StateAfter(frames[..k]), lim)
            == if k < |frames| - 1 then Receive(Replied(here.(input := tail), frames[k]), StateAfter(frames[..k + 1]), lim)
               else Step(Data(if FirstOp(frames) == TEXT then TEXT else BINARY, Joined(frames)), here.(input := tail))
  {
    hide *;
    ScriptFacts(frames, k, lim);
    EncodeAllSplit(frames, k, rest);
    var tail := EncodeAll(frames[k + 1..]) + rest;
    var here := LinkAfter(l, frames, k, rest);
    HereInput(l, frames, k, rest);
    EncodedReadsBack(frames[k], tail, lim.maxFrameBytes);
    ReceiveStep(here, StateAfter(frames[..k]), lim);
    FragmentTaken(here.(input := tail), frames, k, lim);
  }

  lemma HereInput(l: Link, frames: seq<ClientFrame>, k: nat, rest: seq<byte>)
    requires AllOk(frames) && k <= |frames|
    ensures LinkAfter(l, frames, k, rest).input == EncodeAll(frames[k..]) + rest
  {
  }

  /** The reader in the middle of a script, k frames on. */
  lemma {:induction false} ScriptContinues(l: Link, frames: seq<ClientFrame>, k: nat, rest: seq<byte>, lim: Limits)
    requires IsScript(frames, lim) && AllOk(frames) && k < |frames|
    ensures Receive(LinkAfter(l, frames, k, rest), StateAfter(frames[..k]), lim)
         == Step(Data(if FirstOp(frames) == TEXT then TEXT else BINARY, Joined(frames)),
                 Answered(l, Pings(frames)).(input := rest))
    decreases |frames| - k
  {
    hide *;
    ScriptStep(l, frames, k, rest, lim);
    if k < |frames| - 1 {
      LinkMoves(l, frames, k, rest);
      ScriptContinues(l, frames, k + 1, rest, lim);
    } else {
      LastLink(l, frames, rest, lim);
    }
  }

  lemma LastLink(l: Link, frames: seq<ClientFrame>, rest: seq<byte>, lim: Limits)
    requires IsScript(frames, lim) && AllOk(frames)
    ensures frames != []
    ensures LinkAfter(l, frames, |frames| - 1, rest).(input := EncodeAll(frames[|frames|..]) + rest)
         == Answered(l, Pings(frames)).(input := rest)
  {
    var k := |frames| - 1;
    LastIsData(frames, lim);
    PingsMove(l, frames, k);
    hide Encode, FrameOk, Joined, Answered, Pings, Fragment;
    assert frames[..k + 1] == frames;
    assert frames[|frames|..] == [];
    NothingEncoded(rest);
  }

  lemma NothingEncoded(rest: seq<byte>)
    ensures EncodeAll([]) + rest == rest
  {
  }

  lemma LastIsData(frames: seq<ClientFrame>, lim: Limits)
    requires IsScript(frames, lim)
    ensures frames[|frames| - 1].op != PING
  {
  }

  /** Whatever the keys, the length forms and the pings and pongs in between, the reader takes exactly the
      script's bytes, returns the joined payload with the first frame's type and answers the pings in order. */
  lemma MessageComesBack(l: Link, frames: seq<ClientFrame>, rest: seq<byte>, lim: Limits)
    requires l.open && IsScript(frames, lim) && l.input == EncodeAll(frames) + rest
    ensures ReadMessage(l, lim)
         == Step(Data(if FirstOp(frames) == TEXT then TEXT else BINARY, Joined(frames)),
                 Answered(l, Pings(frames)).(input := rest))
  {
    hide Encode, FirstOp, Joined, FrameOk, Receive, Fragment;
    assert frames[0..] == frames && frames[..0] == [];
    assert StateAfter([]) == Nothing;
    assert Pings([]) == [];
    ScriptContinues(l, frames, 0, rest, lim);
    assert l == Answered(l, []).(input := EncodeAll(frames) + rest);
  }

  /** While the socket accepts them, the answers are one pong for each ping, in order. */
  lemma {:induction false} PongsWritten(l: Link, pings: seq<seq<byte>>)
    requires l.enabled && |pings| <= l.accepts && forall k :: 0 <= k < |pings| ==> |pings[k]| <= 125
    ensures var a := Answered(l, pings);
            && a.enabled && a.accepts == l.accepts - |pings| && |a.written| == |l.written| + |pings|
            && l.written <= a.written
            && forall k :: 0 <= k < |pings| ==> a.written[|l.written| + k] == ServerFrame(PONG, pings[k], true)
  {
    hide ServerFrame;
    if pings != [] {
      PongsWritten(l, pings[..|pings| - 1]);
    }
  }

  lemma {:induction false} PingsOfScript(frames: seq<ClientFrame>, lim: Limits, n: nat)
    requires IsScript(frames, lim) && n <= |frames|
    ensures forall k :: 0 <= k < |Pings(frames[..n])| ==> |Pings(frames[..n])[k]| <= 125
    decreases n
  {
    hide IsScript;
    if n > 0 {
      FragmentFacts(frames, n - 1, lim);
      PingsOfScript(frames, lim, n - 1);
      assert frames[..n][..n - 1] == frames[..n - 1];
    }
  }

  // ----- what comes back was sent ---------------------------------------------------------------

  lemma {:induction false} JoinedConcat(a: seq<ClientFrame>, b: seq<ClientFrame>)
    ensures Joined(a + b) == Joined(a) + Joined(b) && Pings(a + b) == Pings(a) + Pings(b)
    decreases |b|
  {
    hide Joined, Pings;
    if b == [] {
      assert a + b == a;
      NothingJoined();
    } else {
      var front, last := b[..|b| - 1], b[|b| - 1];
      assert b == front + [last] && a + b == (a + front) + [last];
      JoinedConcat(a, front);
      JoinedGrows(a + front, last);
      JoinedGrows(front, last);
      Regroup(Joined(a), Joined(front), if IsControl(last.op) then [] else last.payload);
      Regroup(Pings(a), Pings(front), if last.op == PING then [last.payload] else []);
    }
  }

  lemma NothingJoined()
    ensures Joined([]) == [] && Pings([]) == []
  {
  }

  lemma Regroup<T>(a: seq<T>, b: seq<T>, c: seq<T>)
    ensures (a + b) + c == a + (b + c)
  {
  }

  lemma {:induction false} AnsweredConcat(l: Link, a: seq<seq<byte>>, b: seq<seq<byte>>)
    ensures Answered(l, a + b) == Answered(Answered(l, a), b)
    decreases |b|
  {
    if b == [] {
      assert a + b == a;
    } else {
      AnsweredConcat(l, a, b[..|b| - 1]);
      assert (a + b)[..|a + b| - 1] == a + b[..|b| - 1];
    }
  }

  lemma {:induction false} AnsweredInput(l: Link, pings: seq<seq<byte>>, input: seq<byte>)
    ensures Answered(l.(input := input), pings) == Answered(l, pings).(input := input)
  {
    if pings != [] {
      AnsweredInput(l, pings[..|pings| - 1], input);
    }
  }

  /** The reserved control opcodes 11 to 15 are taken for data when they come whole and short. */
  predicate Answers(f: ClientFrame) { f.op == PING || f.op == PONG || f.op == CLOSE }

  predicate Starts(f: ClientFrame) { !Answers(f) && f.op != CONTINUATION }

  /** What the frames say, after p: from the last frame that starts a message. */
  function Said(p: Partial, frames: seq<ClientFrame>): Partial
  {
    if frames == [] then p
    else
      var f := frames[|frames| - 1];
      var before := Said(p, frames[..|frames| - 1]);
      if Answers(f) then before
      else if Starts(f) then Started(f.op, f.payload)
      else if before.Started? then Started(before.op, before.payload + f.payload)
      else Nothing
  }

  lemma {:induction false} SaidFront(p: Partial, f: ClientFrame, frames: seq<ClientFrame>)
    ensures Said(p, [f] + frames) == Said(Said(p, [f]), frames)
    decreases |frames|
  {
    if frames == [] {
      assert [f] + frames == [f];
    } else {
      var front := frames[..|frames| - 1];
      SaidFront(p, f, front);
      assert ([f] + frames)[..|frames|] == [f] + front;
    }
  }

  lemma SaidOne(p: Partial, f: ClientFrame)
    ensures Said(p, [f])
         == if Answers(f) then p
            else if Starts(f) then Started(f.op, f.payload)
            else if p.Started? then Started(p.op, p.payload + f.payload)
            else Nothing
  {
    var one := [f];
    var none := one[..|one| - 1];
    assert none == [];
    assert Said(p, none) == p;
    assert one[|one| - 1] == f;
  }

  /** What one frame says, and does. */
  lemma TakeSays(l: Link, p: Partial, f: ClientFrame, lim: Limits)
    ensures var e := Take(l, p, f, lim);
            && (e.Continues? ==> e.partial == Said(p, [f]) && e.link == Replied(l, f) && Modest(f))
            && (e.Ends? && e.step.message.Data? ==>
                  Said(p, [f]).Started? && f.fin && !Answers(f) && e.step.link == l
                  && e.step.message == MessageOf(Said(p, [f])))
  {
    SaidOne(p, f);
    RefuseCloses(l, 1002, "fragmented control");
    RefuseCloses(l, 1002, "control frame too large");
    RefuseCloses(l, 1002, "unexpected continuation");
    RefuseCloses(l, 1009, "message too large");
    hide ServerFrame, Refuse, Said;
  }

  /** A frame after which reading goes on: a ping or pong, or a data frame that is not final. */
  predicate GoesOn(p: Partial, f: ClientFrame, lim: Limits)
  {
    if IsControl(f.op) then (f.op == PING || f.op == PONG) && f.fin && |f.payload| <= 125 else !f.fin && Fits(p, f, lim)
  }

  /** A continuation follows something, and the message stays within the limit. */
  predicate Fits(p: Partial, f: ClientFrame, lim: Limits)
  {
    f.op == CONTINUATION ==> p.Started? && |p.payload| + |f.payload| <= lim.maxMessageBytes
  }

  lemma TakeGoesOn(l: Link, p: Partial, f: ClientFrame, lim: Limits)
    ensures var e := Take(l, p, f, lim);
            && (e.Continues? ==> GoesOn(p, f, lim))
            && (e.Ends? && e.step.message.Data? ==> Fits(p, f, lim))
  {
    RefuseCloses(l, 1002, "fragmented control");
    RefuseCloses(l, 1002, "control frame too large");
    RefuseCloses(l, 1002, "unexpected continuation");
    RefuseCloses(l, 1009, "message too large");
    hide ServerFrame, Refuse;
  }

  /** How frames are taken, after p, until one ends the message. */
  predicate Taken(p: Partial, frames: seq<ClientFrame>, lim: Limits)
    decreases |frames|
  {
    && frames != []
    && var f := frames[0];
       && |f.payload| <= lim.maxFrameBytes
       && if |frames| == 1 then f.fin && !Answers(f) && Fits(p, f, lim)
          else GoesOn(p, f, lim) && Taken(Said(p, [f]), frames[1..], lim)
  }

  lemma TakenOne(p: Partial, f: ClientFrame, more: seq<ClientFrame>, lim: Limits)
    requires |f.payload| <= lim.maxFrameBytes
    requires if more == [] then f.fin && !Answers(f) && Fits(p, f, lim)
             else GoesOn(p, f, lim) && Taken(Said(p, [f]), more, lim)
    ensures Taken(p, [f] + more, lim)
  {
    hide Said, Fits, GoesOn, Answers;
    var all := [f] + more;
    assert all[0] == f && all[1..] == more && |all| == 1 + |more|;
  }

  predicate Modest(f: ClientFrame) { IsControl(f.op) ==> f.fin && |f.payload| <= 125 }

  function MessageOf(p: Partial): Message
    requires p.Started?
  {
    Data(if p.op == TEXT then TEXT else BINARY, p.payload)
  }

  lemma RepliedIs(l: Link, f: ClientFrame)
    ensures Replied(l, f) == Answered(l, Pings([f]))
  {
    assert [f][..0] == [];
    assert Pings([f]) == if f.op == PING then [f.payload] else [];
    if f.op == PING {
      assert [f.payload][..0] == [];
      assert Answered(l, []) == l;
    }
  }

  lemma EncodeAllFront(f: ClientFrame, frames: seq<ClientFrame>, rest: seq<byte>)
    requires FrameOk(f) && AllOk(frames)
    ensures AllOk([f] + frames) && EncodeAll([f] + frames) + rest == Encode(f) + (EncodeAll(frames) + rest)
  {
    hide FrameOk;
    assert ([f] + frames)[0] == f && ([f] + frames)[1..] == frames;
  }

  /** Every data message was sent: the bytes taken are exactly some masked frames, which say that message. */
  lemma {:induction false} DataWasSent(l: Link, p: Partial, lim: Limits) returns (frames: seq<ClientFrame>)
    requires Receive(l, p, lim).message.Data?
    ensures var r := Receive(l, p, lim);
            && AllOk(frames) && l.input == EncodeAll(frames) + r.link.input
            && r.link == Answered(l, Pings(frames)).(input := r.link.input)
            && Said(p, frames).Started? && r.message == MessageOf(Said(p, frames))
            && frames != [] && frames[|frames| - 1].fin && !Answers(frames[|frames| - 1])
            && Taken(p, frames, lim)
    decreases |l.input|
  {
    hide Taken, GoesOn, Fits, ReadFrame, Take, Encode, EncodeAll, FrameOk, Said, Answered, Pings, Replied, Refuse;
    var r := ReadFrame(l.input, lim.maxFrameBytes);
    OnlyFramesGiveData(l, p, lim);
    ReadIsEncoded(l.input, lim.maxFrameBytes);
    FrameShrinks(l.input, lim.maxFrameBytes);
    ReceiveStep(l, p, lim);
    var next := l.(input := r.rest);
    var e := Take(next, p, r.frame, lim);
    TakeSays(next, p, r.frame, lim);
    TakeGoesOn(next, p, r.frame, lim);
    RepliedIs(l, r.frame);
    AnsweredInput(l, Pings([r.frame]), r.rest);
    RepliedIs(next, r.frame);
    var more := [];
    if e.Continues? {
      RepliedKeepsInput(next, r.frame);
      more := DataWasSent(e.link, e.partial, lim);
      SaidFront(p, r.frame, more);
      JoinedConcat([r.frame], more);
      AnsweredConcat(l, Pings([r.frame]), Pings(more));
      AnsweredInput(Answered(l, Pings([r.frame])), Pings(more), r.rest);
    } else {
      NothingSent(l, r.frame, r.rest);
    }
    frames := [r.frame] + more;
    TakenOne(p, r.frame, more, lim);
    EncodeAllFront(r.frame, more, Receive(l, p, lim).link.input);
  }

  lemma NothingSent(l: Link, f: ClientFrame, rest: seq<byte>)
    ensures AllOk([]) && [f] + [] == [f] && (f.op != PING ==> Pings([f]) == [])
    ensures EncodeAll([]) + rest == rest && Answered(l, []) == l
  {
    assert [f][..0] == [];
  }

  lemma RepliedKeepsInput(l: Link, f: ClientFrame)
    ensures Replied(l, f).input == l.input
  {
  }

  lemma RefuseCloses(l: Link, code: nat, reason: string)
    requires |reason| < 0x1_0000
    ensures !Refuse(l, code, reason).message.Data?
  {
  }

  lemma OnlyFramesGiveData(l: Link, p: Partial, lim: Limits)
    requires Receive(l, p, lim).message.Data?
    ensures ReadFrame(l.input, lim.maxFrameBytes).Frame?
  {
    hide ReadFrame, Take;
    var r := ReadFrame(l.input, lim.maxFrameBytes);
    if r.NoMask? || r.Large? {
      RefuseCloses(l.(input := r.rest), 1002, "unmasked client frame");
      RefuseCloses(l.(input := r.rest), 1009, "frame too large");
    }
  }

  // ----- one message properly fragmented --------------------------------------------------------

  /** One frame starts the message, and a reserved control opcode does not end it. */
  predicate OneStart(frames: seq<ClientFrame>)
  {
    && frames != [] && !IsControl(frames[|frames| - 1].op)
    && forall j, k :: 0 <= j < k < |frames| ==> !(Starts(frames[j]) && Starts(frames[k]))
  }

  ghost predicate HasStart(frames: seq<ClientFrame>) { exists k :: 0 <= k < |frames| && Starts(frames[k]) }

  lemma NoSecondStart(before: seq<ClientFrame>, frames: seq<ClientFrame>)
    requires OneStart(before + frames) && frames != []
    ensures Starts(frames[0]) ==> !HasStart(before)
  {
    var all := before + frames;
    assert all[|before|] == frames[0];
    assert forall j :: 0 <= j < |before| ==> all[j] == before[j];
  }

  /** Frames from position |before| on are fragments of the whole. */
  lemma {:induction false} TakenFragments(before: seq<ClientFrame>, frames: seq<ClientFrame>, lim: Limits)
    requires Taken(StateAfter(before), frames, lim) && OneStart(before + frames)
    requires HasData(before) ==> HasStart(before)
    ensures var all := before + frames;
            && (forall k :: |before| <= k < |all| ==> Fragment(all, k, lim))
            && (all[|all| - 1].op == CONTINUATION ==> |Joined(all)| <= lim.maxMessageBytes)
    decreases |frames|
  {
    hide Said, StateAfter, Joined, HasData, FirstOp;
    var all, f := before + frames, frames[0];
    var front := before + [f];
    assert all[|before|] == f && all[..|before|] == before;
    assert all[|all| - 1] == frames[|frames| - 1];
    StateGrows(before, f);
    JoinedGrows(before, f);
    HasDataGrows(before, f);
    NoSecondStart(before, frames);
    assert Fragment(all, |before|, lim);
    if |frames| == 1 {
      assert all == front;
    } else {
      assert front + frames[1..] == all;
      SaidOne(StateAfter(before), f);
      assert Said(StateAfter(before), [f]) == StateAfter(front);
      assert OneStart(front + frames[1..]);
      if HasData(front) {
        assert front[|before|] == f;
        if !Starts(f) {
          var j :| 0 <= j < |before| && Starts(before[j]);
          assert front[j] == before[j];
        }
        assert HasStart(front);
      }
      TakenFragments(front, frames[1..], lim);
    }
  }

  lemma ScriptHasOneStart(frames: seq<ClientFrame>, lim: Limits)
    requires IsScript(frames, lim)
    ensures OneStart(frames)
  {
    hide Joined;
    forall j, k | 0 <= j < k < |frames| ensures !(Starts(frames[j]) && Starts(frames[k])) {
      assert Fragment(frames, j, lim) && Fragment(frames, k, lim);
      assert frames[..k][j] == frames[j];
    }
  }

  /** The frames of a returned message are one message properly fragmented exactly when one of them starts it and none
      is of a reserved kind; otherwise what comes back is what the frames from the last start on say. */
  lemma MessageIsWholeExactly(l: Link, lim: Limits) returns (frames: seq<ClientFrame>)
    requires l.open && ReadMessage(l, lim).message.Data?
    ensures var r := ReadMessage(l, lim);
            && AllOk(frames) && l.input == EncodeAll(frames) + r.link.input
            && Said(Nothing, frames).Started? && r.message == MessageOf(Said(Nothing, frames))
            && (IsScript(frames, lim) <==> OneStart(frames))
            && (OneStart(frames) ==>
                  r.message == Data(if FirstOp(frames) == TEXT then TEXT else BINARY, Joined(frames)))
  {
    frames := DataWasSent(l, Nothing, lim);
    assert StateAfter([]) == Nothing && !HasData([]) && [] + frames == frames;
    hide Receive, Said, EncodeAll, FirstOp, Joined, StateAfter, HasData, HasStart, Taken, Fragment;
    if OneStart(frames) {
      TakenFragments([], frames, lim);
      assert IsScript(frames, lim);
      MessageComesBack(l, frames, Receive(l, Nothing, lim).link.input, lim);
    }
    if IsScript(frames, lim) {
      ScriptHasOneStart(frames, lim);
    }
  }

  // ----- every stream ---------------------------------------------------------------------------

  /** What reading one message keeps, whatever the peer sends. */
  predicate Kept(l: Link, s: Step, limit: nat)
  {
    && l.written <= s.link.written && s.link.accepts <= l.accepts
    && |s.link.input| <= |l.input| && s.link.input == l.input[|l.input| - |s.link.input|..]
    && (s.link.enabled ==> l.enabled)
    && match s.message
       case Data(op, payload) => |payload| <= limit && (op == TEXT || op == BINARY) && s.link.open == l.open
       case Closed(code, reason) =>
         !s.link.open && !s.link.enabled && s.link.closeCode == code && s.link.closeReason == reason
       case Broken => s.link.open == l.open && s.link.input == []
  }

  function Limit(lim: Limits): nat
  {
    if lim.maxFrameBytes > lim.maxMessageBytes then lim.maxFrameBytes else lim.maxMessageBytes
  }

  predicate Bounded(p: Partial, limit: nat) { p.Started? ==> |p.payload| <= limit }

  lemma RefuseKeeps(l: Link, code: nat, reason: string, limit: nat)
    requires |reason| < 0x1_0000
    ensures Kept(l, Refuse(l, code, reason), limit)
  {
    hide Bytes, ServerFrame;
  }

  lemma KeptThrough(l: Link, m: Link, s: Step, limit: nat)
    requires Kept(m, s, limit) && l.written <= m.written && m.accepts <= l.accepts && m.open == l.open
    requires |m.input| <= |l.input| && m.input == l.input[|l.input| - |m.input|..] && (m.enabled ==> l.enabled)
    ensures Kept(l, s, limit)
  {
  }

  lemma TakeKeeps(l: Link, p: Partial, f: ClientFrame, lim: Limits)
    requires Bounded(p, Limit(lim)) && |f.payload| <= lim.maxFrameBytes
    ensures var e := Take(l, p, f, lim);
            if e.Ends? then Kept(l, e.step, Limit(lim))
            else Bounded(e.partial, Limit(lim)) && e.link.input == l.input && l.written <= e.link.written
                 && e.link.accepts <= l.accepts && e.link.open == l.open && (e.link.enabled ==> l.enabled)
  {
    hide Refuse, ServerFrame, Bytes, CloseWith, CloseCodeOf, CloseReasonOf, Kept, Write, Collected;
    RefuseKeeps(l, 1002, "fragmented control", Limit(lim));
    RefuseKeeps(l, 1002, "control frame too large", Limit(lim));
    RefuseKeeps(l, 1002, "unexpected continuation", Limit(lim));
    RefuseKeeps(l, 1009, "message too large", Limit(lim));
    if f.op == CLOSE && |f.payload| <= 125 {
      ReasonFits(f.payload);
      CloseKeeps(l, CloseCodeOf(f.payload), CloseReasonOf(f.payload), Limit(lim));
    }
    if f.op == PING && |f.payload| <= 125 {
      WriteKeeps(l, ServerFrame(PONG, f.payload, true));
    }
    CollectKeeps(l, f.op, f.payload, f.fin, Limit(lim));
    if p.Started? && |p.payload| + |f.payload| <= lim.maxMessageBytes {
      CollectKeeps(l, p.op, p.payload + f.payload, f.fin, Limit(lim));
    }
  }

  lemma ReasonFits(payload: seq<byte>)
    ensures |CloseReasonOf(payload)| <= |payload|
  {
  }

  lemma WriteKeeps(l: Link, frame: seq<byte>)
    ensures var m := Write(l, frame);
            && m.input == l.input && l.written <= m.written && m.accepts <= l.accepts && m.open == l.open
            && (m.enabled ==> l.enabled)
  {
  }

  lemma CloseKeeps(l: Link, code: nat, reason: seq<byte>, limit: nat)
    requires |reason| < 0x1_0000
    ensures Kept(l, Step(Closed(code, reason), CloseWith(l, code, reason)), limit)
  {
    hide ServerFrame;
  }

  lemma CollectKeeps(l: Link, op: opcode, payload: seq<byte>, fin: bool, limit: nat)
    requires |payload| <= limit
    ensures var e := Collected(l, op, payload, fin);
            if e.Ends? then Kept(l, e.step, limit) else e.link == l && Bounded(e.partial, limit)
  {
  }

  lemma {:induction false} ReceiveKeeps(l: Link, p: Partial, lim: Limits)
    requires Bounded(p, Limit(lim))
    ensures Kept(l, Receive(l, p, lim), Limit(lim))
    decreases |l.input|
  {
    hide Take, Refuse, Kept, Limit;
    var r := ReadFrame(l.input, lim.maxFrameBytes);
    FrameShrinks(l.input, lim.maxFrameBytes);
    if r.Cut? {
      CutKeeps(l, Limit(lim));
    } else {
      var next := l.(input := r.rest);
      ReadIsSuffix(l.input, lim.maxFrameBytes);
      RefuseKeeps(next, 1002, "unmasked client frame", Limit(lim));
      RefuseKeeps(next, 1009, "frame too large", Limit(lim));
      if r.Frame? {
        ReadIsEncoded(l.input, lim.maxFrameBytes);
        hide ReadFrame, Encode, FrameOk;
        TakeKeeps(next, p, r.frame, lim);
        ReceiveStep(l, p, lim);
        var e := Take(next, p, r.frame, lim);
        if e.Continues? {
          ReceiveKeeps(e.link, e.partial, lim);
          KeptThrough(l, e.link, Receive(l, p, lim), Limit(lim));
        } else {
          KeptThrough(l, next, Receive(l, p, lim), Limit(lim));
        }
      } else {
        hide ReadFrame;
        KeptThrough(l, next, Receive(l, p, lim), Limit(lim));
      }
    }
  }

  lemma CutKeeps(l: Link, limit: nat)
    ensures Kept(l, Step(Broken, l.(input := [])), limit)
  {
  }

  lemma ReadIsSuffix(b: seq<byte>, maxFrameBytes: nat)
    ensures var r := ReadFrame(b, maxFrameBytes);
            !r.Cut? ==> |r.rest| <= |b| && r.rest == b[|b| - |r.rest|..]
  {
  }

  /** Whatever the peer sends: payloads stay in the limits, input is only consumed, nothing written is lost, and
      a closed connection gives the same close message for ever, reading and writing nothing. */
  lemma ReadMessageKeeps(l: Link, lim: Limits)
    requires l.open || !l.enabled
    ensures var s := ReadMessage(l, lim);
            && Kept(l, s, Limit(lim)) && (s.message.Closed? <==> !s.link.open)
            && (!l.open ==> s == Step(Closed(l.closeCode, l.closeReason), l))
            && (s.link.open || !s.link.enabled)
  {
    hide Receive, Limit;
    if l.open {
      ReceiveKeeps(l, Nothing, lim);
    }
  }

  // ----- server frames --------------------------------------------------------------------------

  /** From the bytes after a frame's first: the length of the payload and where it starts. */
  lemma LengthBytesTell(n: nat, m: nat, x: seq<byte>, y: seq<byte>)
    requires n < LENGTH_LIMIT && m < LENGTH_LIMIT && LengthBytes(n, 0) + x == LengthBytes(m, 0) + y
    ensures n == m && x == y
  {
    var a := LengthBytes(n, 0) + x;
    var b := LengthBytes(m, 0) + y;
    assert a[0] == b[0];
    EightBytes();
    assert Pow256(1) == 256 && Pow256(2) == 0x1_0000;
    if 126 <= n <= 0xFFFF {
      assert a[1..3] == BigEndian(n, 2) && b[1..3] == BigEndian(m, 2);
      ValueOfBigEndian(n, 2);
      ValueOfBigEndian(m, 2);
    } else if n > 0xFFFF {
      assert a[1..9] == BigEndian(n, 8) && b[1..9] == BigEndian(m, 8);
      ValueOfBigEndian(n, 8);
      ValueOfBigEndian(m, 8);
    }
    assert a[|LengthBytes(n, 0)|..] == x && b[|LengthBytes(m, 0)|..] == y;
  }

  /** A stream of server frames can be read in one way only. */
  lemma ServerFrameUnique(op: opcode, p: seq<byte>, fin: bool, x: seq<byte>,
                          op2: opcode, p2: seq<byte>, fin2: bool, y: seq<byte>)
    requires |p| < LENGTH_LIMIT && |p2| < LENGTH_LIMIT
    requires ServerFrame(op, p, fin) + x == ServerFrame(op2, p2, fin2) + y
    ensures op == op2 && fin == fin2 && p == p2 && x == y
  {
    hide LengthBytes;
    var a := ServerFrame(op, p, fin) + x;
    var b := ServerFrame(op2, p2, fin2) + y;
    assert a[0] == b[0];
    assert a[1..] == LengthBytes(|p|, 0) + (p + x);
    assert b[1..] == LengthBytes(|p2|, 0) + (p2 + y);
    LengthBytesTell(|p|, |p2|, p + x, p2 + y);
    assert (p + x)[..|p|] == p && (p2 + y)[..|p2|] == p2;
    assert (p + x)[|p|..] == x && (p2 + y)[|p2|..] == y;
  }
}
