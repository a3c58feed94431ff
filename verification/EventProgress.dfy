/**
 Whether waiting records get delivered. With room in the ring, replies and runs of the state machine alone bring the
 first of them to its acknowledgement; a full ring is taken for an empty one, and nothing is sent from it.
 */
module EventProgress {
  import opened NorFlash
  import opened EventRing
  import opened EventDelivery
  import opened EventReplies
  import opened EventHazards
  import opened EventReboot

  predicate NoLog(inputs: seq<Input>) {
    forall i :: 0 <= i < |inputs| ==> !inputs[i].Log?
  }

  /** Allowed inputs, none of them a record logged, that lead to the acknowledgement of a position. */
  predicate Delivers(x: World, serial: Bytes, inputs: seq<Input>, p: nat)
    requires x.node.Valid()
  {
    && AllProper(inputs) && NoLog(inputs) && AllAllowed(x, serial, inputs)
    && After(x, serial, inputs).trace.acks == x.trace.acks + [p]
  }

  /** How many turns without success it takes until the machine is idle. */
  function Calm(p: Phase): nat {
    match p
    case Idle => 0
    case Closing => 1
    case Receiving => 2
    case Transmitting => 2
    case Connecting => 2
    case Sending => 3
  }

  /** A turn that fails brings the machine nearer to idle, where it stays with a record to send. */
  lemma FailureCalms(n: Node, serial: Bytes)
    requires n.Valid()
    ensures var m := Step(n, serial, Run(false));
            if n.phase == Idle then m.phase == Idle && (Pending(n.ring.slots[n.r]) ==> m == n)
            else m == n.(phase := m.phase) && Calm(m.phase) < Calm(n.phase)
  {
  }

  /** The record at the read cursor, if it is still there, is sent and acknowledged. */
  lemma DeliverAtCursor(x: World, serial: Bytes) returns (inputs: seq<Input>)
    requires Invariant(x.node, x.trace) && |serial| == 4
    requires x.node.r != x.node.ring.w && x.trace.seen < |x.trace.h| && Oldest(|x.trace.h|) <= x.trace.seen
    ensures x.node.Valid() && Delivers(x, serial, inputs, x.trace.seen)
  {
    hide Oldest, Pending, Acknowledges, Acknowledgement, Held, Accounted, Holds;
    var runs, reply := Runs(Turns(x.node.phase)), Reply(Acknowledgement(serial, x.node.r));
    NextRecord(x.node, x.trace);
    Onward(x, serial);
    Acknowledging(serial, x.node.r);
    var y := After(x, serial, runs);
    AfterSum(x, serial, runs, [reply]);
    OneStep(y, serial, reply);
    inputs := runs + [reply];
    assert NoLog(inputs) && AllProper(inputs);
  }

  lemma StepDelivers(x: World, serial: Bytes, input: Input, rest: seq<Input>, p: nat)
    requires x.node.Valid() && !input.Log? && Allowed(x.node, serial, input)
    requires Delivers(Next(x, serial, input), serial, rest, p) && Next(x, serial, input).trace.acks == x.trace.acks
    ensures Delivers(x, serial, [input] + rest, p)
  {
    hide Next, Allowed;
    assert ([input] + rest)[1..] == rest;
  }

  /** With room in the ring, the first waiting record is delivered, whatever the node is doing. */
  lemma {:induction false} FirstDelivered(x: World, serial: Bytes) returns (inputs: seq<Input>)
    requires Invariant(x.node, x.trace) && |serial| == 4
    requires FirstWaiting(x.trace) < |x.trace.h| && |x.trace.h| < x.trace.seen + RING
    ensures x.node.Valid() && Delivers(x, serial, inputs, FirstWaiting(x.trace))
    decreases FirstWaiting(x.trace) - x.trace.seen, Calm(x.node.phase)
  {
    hide Oldest, Pending, Held, Accounted, Holds, Delivers, Acknowledges;
    Sound(x.node, x.trace);
    Apart(x.node, x.trace);
    if Oldest(|x.trace.h|) <= x.trace.seen {
      inputs := DeliverAtCursor(x, serial);
    } else {
      var input := Run(x.node.phase == Idle);
      NextRecord(x.node, x.trace);
      NextHolds(x, serial, input);
      var rest := FirstDelivered(Next(x, serial, input), serial);
      StepDelivers(x, serial, input, rest, FirstWaiting(x.trace));
      inputs := [input] + rest;
    }
  }

  lemma Apart(n: Node, t: Trace)
    requires Invariant(n, t) && t.seen < |t.h| < t.seen + RING
    ensures n.r != n.ring.w
  {
    CursorIsWrite(n, t);
    if Cursor(t.seen) == Cursor(|t.h|) {
      MetOnlyAtEnds(t.seen, |t.h|);
    }
  }

  /** An idle node whose cursors meet does nothing until a record is logged. */
  lemma {:induction false} Stalled(x: World, serial: Bytes, inputs: seq<Input>)
    requires x.node.Valid() && x.node.phase == Idle && x.node.r == x.node.ring.w && NoLog(inputs)
    ensures After(x, serial, inputs) == x
    decreases |inputs|
  {
    hide Held, Pending;
    if inputs != [] {
      assert Next(x, serial, inputs[0]) == x;
      Stalled(x, serial, inputs[1..]);
    }
  }

  /** From an idle node with a waiting record something is delivered without logging if and only if the ring is not full. */
  lemma ProgressExactly(x: World, serial: Bytes, e: Event)
    requires Invariant(x.node, x.trace) && |serial| == 4 && x.node.phase == Idle && FirstWaiting(x.trace) < |x.trace.h|
    ensures x.node.Valid()
    ensures (exists inputs :: Delivers(x, serial, inputs, FirstWaiting(x.trace))) <==> Allowed(x.node, serial, Log(e))
  {
    hide Oldest, Pending, Held, Accounted, Holds, Allowed;
    Sound(x.node, x.trace);
    RoomToLog(x.node, x.trace, serial, e);
    if |x.trace.h| < x.trace.seen + RING {
      var inputs := FirstDelivered(x, serial);
    } else {
      CursorIsWrite(x.node, x.trace);
      assert Cursor(x.trace.seen) == Cursor(|x.trace.h|);
      forall inputs ensures !Delivers(x, serial, inputs, FirstWaiting(x.trace)) {
        if NoLog(inputs) {
          Stalled(x, serial, inputs);
        }
      }
    }
  }
}
