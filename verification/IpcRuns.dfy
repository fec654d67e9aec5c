/** Whole runs of the IPC calls, on all endpoints at once. */
module IpcRuns {
  import opened Words
  import opened Ipc

  datatype Call = CreateCall | SendCall(to: word, message: Message) | ReceiveCall(from: word)

  function Apply(boxes: Boxes, c: Call): Boxes {
    match c
    case CreateCall => Create(boxes)
    case SendCall(e, m) => Send(boxes, e, m)
    case ReceiveCall(e) => Receive(boxes, e)
  }

  function After(boxes: Boxes, calls: seq<Call>): Boxes {
    if calls == [] then boxes else Apply(After(boxes, calls[..|calls| - 1]), calls[|calls| - 1])
  }

  /** What a call adds to the messages accepted by e, as they will be delivered. */
  function SentBy(boxes: Boxes, c: Call, e: word): seq<Message> {
    if c.SendCall? && c.to == e && SendOk(boxes, e, c.message) then [Delivered(c.message)] else []
  }

  /** What a call takes out of e. */
  function GotBy(boxes: Boxes, c: Call, e: word): seq<Message> {
    if c == ReceiveCall(e) && ReceiveOk(boxes, e) then [Received(boxes, e)] else []
  }

  /** 1 for a valid message sent to e while eight are waiting. */
  function RefusedBy(boxes: Boxes, c: Call, e: word): nat {
    if c.SendCall? && c.to == e && c.message.length <= PAYLOAD_MAX && Pending(boxes, e) == DEPTH then 1 else 0
  }

  function Sent(boxes: Boxes, calls: seq<Call>, e: word): seq<Message> {
    if calls == [] then [] else
      var before, c := calls[..|calls| - 1], calls[|calls| - 1];
      Sent(boxes, before, e) + SentBy(After(boxes, before), c, e)
  }

  function Got(boxes: Boxes, calls: seq<Call>, e: word): seq<Message> {
    if calls == [] then [] else
      var before, c := calls[..|calls| - 1], calls[|calls| - 1];
      Got(boxes, before, e) + GotBy(After(boxes, before), c, e)
  }

  function Refused(boxes: Boxes, calls: seq<Call>, e: word): nat {
    if calls == [] then 0 else
      var before, c := calls[..|calls| - 1], calls[|calls| - 1];
      Refused(boxes, before, e) + RefusedBy(After(boxes, before), c, e)
  }

  lemma CreateKeepsOpen(boxes: Boxes, e: word)
    requires IsOpen(boxes, e)
    ensures Create(boxes)[e] == boxes[e]
  {
    FirstClosedIsLowest(boxes, 0);
  }

  /** An open endpoint is its history: what was sent, how much of it was taken, how much refused. */
  ghost predicate History(b: Box, sent: seq<Message>, got: seq<Message>, refused: nat) {
    && b.Open? && BoxOk(b) && b.accepted == sent && b.received == |got| && got <= sent
    && b.rejected == refused % WORD_LIMIT
  }

  lemma SendExtendsHistory(boxes: Boxes, e: word, m: Message, got: seq<Message>, refused: nat)
    requires IsOpen(boxes, e) && History(boxes[e], boxes[e].accepted, got, refused)
    ensures History(Send(boxes, e, m)[e], boxes[e].accepted + SentBy(boxes, SendCall(e, m), e), got,
            refused + RefusedBy(boxes, SendCall(e, m), e))
  {
  }

  lemma ReceiveExtendsHistory(boxes: Boxes, e: word, got: seq<Message>, refused: nat)
    requires IsOpen(boxes, e) && History(boxes[e], boxes[e].accepted, got, refused)
    ensures History(Receive(boxes, e)[e], boxes[e].accepted, got + GotBy(boxes, ReceiveCall(e), e), refused)
  {
  }

  lemma CallExtendsHistory(boxes: Boxes, c: Call, e: word, sent: seq<Message>, got: seq<Message>, refused: nat)
    requires IsOpen(boxes, e) && History(boxes[e], sent, got, refused)
    ensures History(Apply(boxes, c)[e], sent + SentBy(boxes, c, e), got + GotBy(boxes, c, e),
            refused + RefusedBy(boxes, c, e))
  {
    if !Concerns(c, e) {
      ForeignCallsDoNothing(boxes, c, e);
    } else if c.SendCall? {
      SendExtendsHistory(boxes, e, c.message, got, refused);
    } else {
      ReceiveExtendsHistory(boxes, e, got, refused);
    }
  }

  lemma {:induction false} HistoryOfRun(boxes: Boxes, calls: seq<Call>, e: word)
    requires IsOpen(boxes, e) && boxes[e] == Open([], 0, 0)
    ensures IsOpen(After(boxes, calls), e)
    ensures History(After(boxes, calls)[e], Sent(boxes, calls, e), Got(boxes, calls, e), Refused(boxes, calls, e))
  {
    if calls != [] {
      var before, c := calls[..|calls| - 1], calls[|calls| - 1];
      HistoryOfRun(boxes, before, e);
      CallExtendsHistory(After(boxes, before), c, e, Sent(boxes, before, e), Got(boxes, before, e),
          Refused(boxes, before, e));
    }
  }

  /** FIFO through any number of wrap-arounds: what was received is a prefix of what was sent,
      pending is the difference and never exceeds eight, and rejections count exactly the valid
      messages that met a full queue. */
  lemma ReceivedIsPrefixOfSent(boxes: Boxes, calls: seq<Call>, e: word)
    requires IsOpen(boxes, e) && boxes[e] == Open([], 0, 0)
    ensures Got(boxes, calls, e) <= Sent(boxes, calls, e)
    ensures Pending(After(boxes, calls), e) == |Sent(boxes, calls, e)| - |Got(boxes, calls, e)|
    ensures 0 <= Pending(After(boxes, calls), e) <= DEPTH
    ensures Rejected(After(boxes, calls), e) == Refused(boxes, calls, e) % WORD_LIMIT
  {
    HistoryOfRun(boxes, calls, e);
  }

  // ----- independence -----

  predicate Concerns(c: Call, e: word) {
    c == ReceiveCall(e) || (c.SendCall? && c.to == e)
  }

  function Only(calls: seq<Call>, e: word): seq<Call> {
    if calls == [] then [] else
      Only(calls[..|calls| - 1], e) + if Concerns(calls[|calls| - 1], e) then [calls[|calls| - 1]] else []
  }

  lemma ForeignCallsDoNothing(boxes: Boxes, c: Call, e: word)
    requires IsOpen(boxes, e) && !Concerns(c, e)
    ensures Apply(boxes, c)[e] == boxes[e]
  {
    if c == CreateCall {
      CreateKeepsOpen(boxes, e);
    }
  }

  lemma OwnCallsLookOnlyAtTheirBox(a: Boxes, b: Boxes, c: Call, e: word)
    requires IsOpen(a, e) && a[e] == b[e] && Concerns(c, e)
    ensures Apply(a, c)[e] == Apply(b, c)[e] && IsOpen(Apply(a, c), e)
  {
  }

  /** Whatever happens on the other endpoints, an endpoint ends as if they did not exist. */
  lemma {:induction false} EndpointsAreIndependent(boxes: Boxes, calls: seq<Call>, e: word)
    requires IsOpen(boxes, e)
    ensures IsOpen(After(boxes, calls), e) && After(boxes, calls)[e] == After(boxes, Only(calls, e))[e]
  {
    if calls != [] {
      var before, c := calls[..|calls| - 1], calls[|calls| - 1];
      EndpointsAreIndependent(boxes, before, e);
      if Concerns(c, e) {
        OwnCallsLookOnlyAtTheirBox(After(boxes, before), After(boxes, Only(before, e)), c, e);
        var only := Only(before, e) + [c];
        assert only[..|only| - 1] == Only(before, e);
      } else {
        ForeignCallsDoNothing(After(boxes, before), c, e);
        assert Only(calls, e) == Only(before, e);
      }
    }
  }
}
