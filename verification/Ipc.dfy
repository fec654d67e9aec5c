/** kernel/ipc/ipc.c: eight endpoints, each a ring of eight copied messages. */
module Ipc {
  import opened Words

  const MAX_ENDPOINTS: nat := 8
  const DEPTH: nat := 8
  const PAYLOAD_MAX: nat := 32
  const INVALID_ENDPOINT: word := 0xFFFF_FFFF

  type Payload = p: seq<byte> | |p| == 32 witness seq(32, _ => 0)

  datatype Message = Message(sender: word, kind: word, length: word, payload: Payload)

  const BLANK := Message(0, 0, 0, seq(32, _ => 0))

  /** What the receiver gets: the bytes past the length are zero. */
  function Delivered(m: Message): (r: Message)
    requires m.length <= PAYLOAD_MAX
    ensures r.sender == m.sender && r.kind == m.kind && r.length == m.length
    ensures forall k :: 0 <= k < 32 ==> r.payload[k] == if k < m.length then m.payload[k] else 0
  {
    m.(payload := m.payload[..m.length] + seq(PAYLOAD_MAX - m.length, _ => 0))
  }

  // ----- endpoints as histories -----

  /** An endpoint as its history: every message accepted since it was opened, how many of them
      have been received, and how many valid messages met a full queue. */
  datatype Box = Closed | Open(accepted: seq<Message>, received: nat, rejected: word)

  type Boxes = b: seq<Box> | |b| == 8 witness seq(8, _ => Closed)

  predicate BoxOk(b: Box) {
    b.Open? ==> b.received <= |b.accepted| <= b.received + DEPTH
  }

  predicate IsOpen(boxes: Boxes, e: word) {
    e < MAX_ENDPOINTS && boxes[e].Open?
  }

  function Pending(boxes: Boxes, e: word): int {
    if IsOpen(boxes, e) then |boxes[e].accepted| - boxes[e].received else 0
  }

  function Rejected(boxes: Boxes, e: word): word {
    if IsOpen(boxes, e) then boxes[e].rejected else 0
  }

  predicate SendOk(boxes: Boxes, e: word, m: Message) {
    IsOpen(boxes, e) && m.length <= PAYLOAD_MAX && Pending(boxes, e) < DEPTH
  }

  function Send(boxes: Boxes, e: word, m: Message): Boxes {
    if !IsOpen(boxes, e) || m.length > PAYLOAD_MAX then boxes
    else if Pending(boxes, e) < DEPTH then boxes[e := boxes[e].(accepted := boxes[e].accepted + [Delivered(m)])]
    else boxes[e := boxes[e].(rejected := Add32(boxes[e].rejected, 1))]
  }

  predicate ReceiveOk(boxes: Boxes, e: word) {
    IsOpen(boxes, e) && boxes[e].received < |boxes[e].accepted|
  }

  function Received(boxes: Boxes, e: word): Message
    requires ReceiveOk(boxes, e)
  {
    boxes[e].accepted[boxes[e].received]
  }

  function Receive(boxes: Boxes, e: word): Boxes {
    if ReceiveOk(boxes, e) then boxes[e := boxes[e].(received := boxes[e].received + 1)] else boxes
  }

  /** The lowest closed endpoint, or INVALID_ENDPOINT. */
  function FirstClosed(boxes: Boxes, from: nat): word
    requires from <= MAX_ENDPOINTS
    decreases MAX_ENDPOINTS - from
  {
    if from == MAX_ENDPOINTS then INVALID_ENDPOINT
    else if boxes[from].Closed? then from
    else FirstClosed(boxes, from + 1)
  }

  lemma {:induction false} FirstClosedIsLowest(boxes: Boxes, from: nat)
    requires from <= MAX_ENDPOINTS
    ensures var e := FirstClosed(boxes, from);
            if e == INVALID_ENDPOINT then forall k :: from <= k < MAX_ENDPOINTS ==> boxes[k].Open?
            else from <= e < MAX_ENDPOINTS && boxes[e].Closed? && forall k :: from <= k < e ==> boxes[k].Open?
    decreases MAX_ENDPOINTS - from
  {
    if from < MAX_ENDPOINTS && boxes[from].Open? {
      FirstClosedIsLowest(boxes, from + 1);
    }
  }

  function Create(boxes: Boxes): Boxes {
    var e := FirstClosed(boxes, 0);
    if e < MAX_ENDPOINTS then boxes[e := Open([], 0, 0)] else boxes
  }

  function AllClosed(): Boxes {
    seq(8, _ => Closed)
  }

  // ----- the rings in place -----

  /** One endpoint: a struct of sequence numbers and message slots. */
  datatype Ring = Ring(inUse: bool, read: word, write: word, rejected: word, queue: seq<Message>)

  /** The slots between the sequence numbers hold exactly the accepted, unreceived messages. */
  ghost predicate Represents(r: Ring, b: Box) {
    && |r.queue| == DEPTH && BoxOk(b) && (r.inUse <==> b.Open?)
    && (b.Open? ==>
          && r.read == b.received % WORD_LIMIT && r.write == |b.accepted| % WORD_LIMIT && r.rejected == b.rejected
          && forall i: nat {:trigger b.accepted[i]} :: b.received <= i < |b.accepted| ==>
              r.queue[i % DEPTH] == b.accepted[i])
  }

  lemma DropMultiple(x: nat, k: nat)
    ensures (DEPTH * k + x) % DEPTH == x % DEPTH
  {
  }

  /** 8 divides 2^32, so the slot of a wrapped sequence number is the slot of the true one. */
  lemma RingSlot(n: nat)
    ensures (n % WORD_LIMIT) % DEPTH == n % DEPTH
  {
    var q, r := n / WORD_LIMIT, n % WORD_LIMIT;
    assert n == DEPTH * (0x2000_0000 * q) + r;
    DropMultiple(r, 0x2000_0000 * q);
  }

  lemma SlotsDiffer(i: nat, j: nat)
    requires i < j < i + DEPTH
    ensures i % DEPTH != j % DEPTH
  {
  }

  lemma PushRepresents(r: Ring, b: Box, m: Message)
    requires Represents(r, b) && b.Open? && |b.accepted| < b.received + DEPTH
    ensures Represents(r.(queue := r.queue[r.write % DEPTH := m], write := Add32(r.write, 1)),
            b.(accepted := b.accepted + [m]))
  {
    var n := |b.accepted|;
    RingSlot(n);
    WrappedSuccessor(n);
    var queue := r.queue[r.write % DEPTH := m];
    forall i: nat | b.received <= i < n + 1 ensures queue[i % DEPTH] == (b.accepted + [m])[i] {
      if i < n {
        SlotsDiffer(i, n);
        assert r.queue[i % DEPTH] == b.accepted[i];
      }
    }
  }

  lemma PopRepresents(r: Ring, b: Box)
    requires Represents(r, b) && b.Open? && b.received < |b.accepted|
    ensures r.queue[r.read % DEPTH] == b.accepted[b.received]
    ensures Represents(r.(read := Add32(r.read, 1)), b.(received := b.received + 1))
  {
    RingSlot(b.received);
    WrappedSuccessor(b.received);
  }

  class EndpointTable {
    const rings: array<Ring>
    ghost var boxes: Boxes

    ghost predicate Valid() reads this, rings {
      rings.Length == MAX_ENDPOINTS && forall e :: 0 <= e < MAX_ENDPOINTS ==> Represents(rings[e], boxes[e])
    }

    constructor ()
      ensures Valid() && boxes == AllClosed()
    {
      rings := new Ring[MAX_ENDPOINTS](_ => Ring(false, 0, 0, 0, seq(DEPTH, _ => BLANK)));
      boxes := AllClosed();
    }

    method Init()
      requires Valid()
      modifies this, rings
      ensures Valid() && boxes == AllClosed()
    {
      var endpoint := 0;
      while endpoint < MAX_ENDPOINTS
        invariant 0 <= endpoint <= MAX_ENDPOINTS
        invariant forall e :: 0 <= e < endpoint ==> Represents(rings[e], Closed)
      {
        rings[endpoint] := Ring(false, 0, 0, 0, seq(DEPTH, _ => BLANK));
        endpoint := endpoint + 1;
      }
      boxes := AllClosed();
    }

    method EndpointCreate() returns (e: word)
      requires Valid()
      modifies this, rings
      ensures Valid() && e == old(FirstClosed(boxes, 0)) && boxes == old(Create(boxes))
      ensures if old(forall k :: 0 <= k < 8 ==> boxes[k].Open?) then e == INVALID_ENDPOINT && boxes == old(boxes)
              else
                && e < 8 && old(boxes[e].Closed? && forall k :: 0 <= k < e ==> boxes[k].Open?)
                && boxes == old(boxes)[e := Open([], 0, 0)]
    {
      FirstClosedIsLowest(boxes, 0);
      var endpoint := 0;
      while endpoint < MAX_ENDPOINTS
        invariant 0 <= endpoint <= MAX_ENDPOINTS && Valid() && boxes == old(boxes)
        invariant FirstClosed(boxes, 0) == FirstClosed(boxes, endpoint)
      {
        if !rings[endpoint].inUse {
          rings[endpoint] := rings[endpoint].(inUse := true, read := 0, write := 0, rejected := 0);
          boxes := boxes[endpoint := Open([], 0, 0)];
          return endpoint;
        }
        endpoint := endpoint + 1;
      }
      return INVALID_ENDPOINT;
    }

    predicate EndpointIsValid(e: word)
      requires rings.Length == MAX_ENDPOINTS
      reads this, rings
    {
      e < MAX_ENDPOINTS && rings[e].inUse
    }

    /** Accepted exactly when the endpoint is open, the length legal and fewer than eight messages
        wait; only a valid message on a full queue is counted as rejected. */
    method IpcSend(e: word, message: Message) returns (ok: bool)
      requires Valid()
      modifies this, rings
      ensures Valid() && boxes == old(Send(boxes, e, message)) && ok == old(SendOk(boxes, e, message))
      ensures ok <==> e < 8 && message.length <= 32
                      && old(boxes[e].Open? && |boxes[e].accepted| < boxes[e].received + 8)
      ensures ok ==> boxes == old(boxes)[e := old(boxes[e].(accepted := boxes[e].accepted + [Delivered(message)]))]
      ensures !ok && !(e < 8 && old(boxes[e].Open?) && message.length <= 32) ==> boxes == old(boxes)
      ensures !ok && e < 8 && old(boxes[e].Open?) && message.length <= 32 ==>
                boxes == old(boxes)[e := old(boxes[e].(rejected := Add32(boxes[e].rejected, 1)))]
    {
      if !EndpointIsValid(e) || message.length > PAYLOAD_MAX {
        return false;
      }
      var state := rings[e];
      WrappedDifference(|boxes[e].accepted|, boxes[e].received);
      if Sub32(state.write, state.read) >= DEPTH {
        rings[e] := state.(rejected := Add32(state.rejected, 1));
        boxes := Send(boxes, e, message);
        return false;
      }
      var payload := CopyPayload(message);
      var copy := Message(message.sender, message.kind, message.length, payload);
      PushRepresents(state, boxes[e], copy);
      rings[e] := state.(queue := state.queue[state.write % DEPTH := copy], write := Add32(state.write, 1));
      boxes := Send(boxes, e, message);
      return true;
    }

    /** The oldest message not yet received; false, with the caller's buffer untouched, exactly
        when none waits. */
    method IpcReceive(e: word, buffer: Message) returns (ok: bool, message: Message)
      requires Valid()
      modifies this, rings
      ensures Valid() && boxes == old(Receive(boxes, e)) && ok == old(ReceiveOk(boxes, e))
      ensures message == if ok then old(Received(boxes, e)) else buffer
      ensures ok <==> e < 8 && old(boxes[e].Open? && boxes[e].received < |boxes[e].accepted|)
      ensures ok ==>
                && message == old(boxes[e].accepted[boxes[e].received])
                && boxes == old(boxes)[e := old(boxes[e].(received := boxes[e].received + 1))]
      ensures !ok ==> boxes == old(boxes) && message == buffer
    {
      message := buffer;
      if !EndpointIsValid(e) {
        return false, message;
      }
      var state := rings[e];
      EmptyIffEqual(|boxes[e].accepted|, boxes[e].received);
      if state.read == state.write {
        return false, message;
      }
      PopRepresents(state, boxes[e]);
      message := state.queue[state.read % DEPTH];
      rings[e] := state.(read := Add32(state.read, 1));
      boxes := Receive(boxes, e);
      return true, message;
    }

    method IpcPending(e: word) returns (n: word)
      requires Valid()
      ensures n == Pending(boxes, e)
    {
      if !EndpointIsValid(e) {
        return 0;
      }
      WrappedDifference(|boxes[e].accepted|, boxes[e].received);
      return Sub32(rings[e].write, rings[e].read);
    }

    method RejectedCount(e: word) returns (n: word)
      requires Valid()
      ensures n == Rejected(boxes, e)
    {
      if !EndpointIsValid(e) {
        return 0;
      }
      return rings[e].rejected;
    }
  }

  /** The byte loop of ipc_send. */
  method CopyPayload(message: Message) returns (payload: Payload)
    requires message.length <= PAYLOAD_MAX
    ensures payload == Delivered(message).payload
    ensures forall k :: 0 <= k < 32 ==> payload[k] == if k < message.length then message.payload[k] else 0
  {
    payload := message.payload;
    var index := 0;
    while index < PAYLOAD_MAX
      invariant 0 <= index <= PAYLOAD_MAX
      invariant forall k :: 0 <= k < index ==> payload[k] == if k < message.length then message.payload[k] else 0
    {
      payload := payload[index := if index < message.length then message.payload[index] else 0];
      index := index + 1;
    }
    assert payload == Delivered(message).payload;
  }
}
