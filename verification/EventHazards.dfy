/**
 The two conditions of delivery are exact: a step that breaks one of them can be followed by allowed steps after which
 delivery is no longer orderly. And runs from an erased log come to states in which they are broken.
 */
module EventHazards {
  import opened NorFlash
  import opened EventRing
  import opened EventDelivery
  import opened EventReplies

  /** Whatever allowed steps follow, delivery stays orderly. */
  ghost predicate Harmless(x: World, serial: Bytes)
    requires x.node.Valid()
  {
    forall inputs: seq<Input> :: AllProper(inputs) && AllAllowed(x, serial, inputs) ==>
      Orderly(After(x, serial, inputs).node, After(x, serial, inputs).trace)
  }

  // ---- building runs ----

  lemma {:induction false} AfterSum(x: World, serial: Bytes, a: seq<Input>, b: seq<Input>)
    requires x.node.Valid()
    ensures After(x, serial, a + b) == After(After(x, serial, a), serial, b)
    ensures AllAllowed(x, serial, a + b) <==> AllAllowed(x, serial, a) && AllAllowed(After(x, serial, a), serial, b)
    decreases |a|
  {
    hide Next, Allowed;
    if a == [] {
      assert a + b == b;
    } else {
      assert (a + b)[1..] == a[1..] + b;
      AfterSum(Next(x, serial, a[0]), serial, a[1..], b);
    }
  }

  lemma OneStep(x: World, serial: Bytes, input: Input)
    requires x.node.Valid()
    ensures After(x, serial, [input]) == Next(x, serial, input)
    ensures AllAllowed(x, serial, [input]) <==> Allowed(x.node, serial, input)
  {
    hide Next, Allowed;
  }

  /** How many turns of the state machine it takes until a reply is waited for. */
  function Turns(p: Phase): nat {
    match p
    case Receiving => 0
    case Transmitting => 1
    case Sending => 2
    case Connecting => 3
    case Idle => 4
    case Closing => 5
  }

  function Runs(n: nat): (inputs: seq<Input>)
    ensures |inputs| == n && AllProper(inputs)
  {
    seq(n, _ => Run(true))
  }

  lemma RunsFirst(n: nat)
    requires n > 0
    ensures Runs(n)[0] == Run(true) && Runs(n)[1..] == Runs(n - 1)
  {
  }

  /** With a pending record at the read cursor, the machine comes to wait for its reply; nothing else changes. */
  lemma {:induction false} Onward(x: World, serial: Bytes)
    requires x.node.Valid() && x.node.r != x.node.ring.w && Pending(x.node.ring.slots[x.node.r])
    ensures var y := After(x, serial, Runs(Turns(x.node.phase)));
            && AllAllowed(x, serial, Runs(Turns(x.node.phase)))
            && y.node == x.node.(phase := Receiving)
            && y.trace == x.trace.(packets := y.trace.packets)
    decreases Turns(x.node.phase)
  {
    hide Pending, Held;
    if x.node.phase != Receiving {
      RunsFirst(Turns(x.node.phase));
      Onward(Next(x, serial, Run(true)), serial);
    }
  }

  function FreshRecord(): (e: Event)
    ensures Fresh(e)
  {
    seq(SAVE, _ => 0) + [0, 0xAA] + seq(12, _ => 0)
  }

  function Logs(n: nat): (inputs: seq<Input>)
    ensures |inputs| == n && AllProper(inputs)
  {
    seq(n, _ => Log(FreshRecord()))
  }

  lemma LogsFirst(n: nat)
    requires n > 0
    ensures Logs(n)[0] == Log(FreshRecord()) && Logs(n)[1..] == Logs(n - 1)
  {
  }

  // ---- a record logged into a full ring ----

  /** The record goes where the read cursor stands, and counts as the newest; the older ones stay. */
  lemma Overtaken(x: World, serial: Bytes, e: Event)
    requires Invariant(x.node, x.trace) && Fresh(e) && !Allowed(x.node, serial, Log(e))
    ensures var y := Next(x, serial, Log(e)); var m := |x.trace.h|;
            && y.node.r != y.node.ring.w && Pending(y.node.ring.slots[y.node.r])
            && y.node.r == x.node.r && y.node.phase == x.node.phase
            && y.trace == x.trace.(h := x.trace.h + [e])
            && Held(m + 1, y.node.r) == m && m >= 2
            && Oldest(m + 1) <= m - 1 && m - 1 !in x.trace.acks
  {
    hide Holds, Logged, Oldest, Pending, Fresh, Increasing, Acknowledges;
    var n, t := x.node, x.trace;
    var m := |t.h|;
    RoomToLog(n, t, serial, e);
    WritesErasedSlot(n.ring, t.h, e);
    FreshIsPending(e);
    CursorAfter(n.ring, e);
    CursorIsWrite(n, t);
    EnoughHeld(m + 1);
    SlotOfPosition(m + 1, m);
    assert Cursor(t.seen) == Cursor(m);
  }

  /** Its acknowledgement then passes over an older record that is still waiting. */
  lemma OvertakenDisorders(x: World, serial: Bytes, e: Event)
    requires Invariant(x.node, x.trace) && Fresh(e) && !Allowed(x.node, serial, Log(e)) && |serial| == 4
    ensures !Harmless(Next(x, serial, Log(e)), serial)
  {
    hide Holds, Logged, Oldest, Pending, Fresh, Acknowledges, Held, Acknowledgement, Invariant;
    Sound(x.node, x.trace);
    var m := |x.trace.h|;
    var y := Next(x, serial, Log(e));
    Overtaken(x, serial, e);
    Onward(y, serial);
    Acknowledging(serial, y.node.r);
    var runs, reply := Runs(Turns(y.node.phase)), Reply(Acknowledgement(serial, y.node.r));
    var inputs := runs + [reply];
    var z := After(y, serial, runs);
    AfterSum(y, serial, runs, [reply]);
    OneStep(z, serial, reply);
    var last := After(y, serial, inputs);
    assert last.trace.acks == x.trace.acks + [m] && |last.trace.h| == m + 1;
    assert m in last.trace.acks && m - 1 !in last.trace.acks;
    assert !Orderly(last.node, last.trace);
    assert AllProper(inputs) && AllAllowed(y, serial, inputs);
  }

  /** While a reply is waited for, the reply to the old packet marks the new record, which was never sent. */
  lemma OvertakenUnsent(x: World, serial: Bytes, e: Event)
    requires Invariant(x.node, x.trace) && Fresh(e) && !Allowed(x.node, serial, Log(e)) && |serial| == 4
    requires x.node.phase == Receiving
    ensures var y := After(x, serial, [Log(e), Reply(Acknowledgement(serial, x.node.r))]); var m := |x.trace.h|;
            && y.trace.acks == x.trace.acks + [m] && m !in y.trace.packets && y.node.ring.slots[x.node.r] == Acked(e)
  {
    hide Oldest, Pending, Fresh, Acknowledges, Held, Acknowledgement;
    var y := Next(x, serial, Log(e));
    var reply := Reply(Acknowledgement(serial, x.node.r));
    Overtaken(x, serial, e);
    Acknowledging(serial, x.node.r);
    WritesErasedSlot(x.node.ring, x.trace.h, e);
    CursorIsWrite(x.node, x.trace);
    RoomToLog(x.node, x.trace, serial, e);
    AckedNotPending(e);
    OneStep(y, serial, reply);
    assert [Log(e), reply][1..] == [reply];
  }

  // ---- a reply for an erased slot ----

  /** An erased slot ahead of the read cursor lies between the write cursor and the end of its sector. */
  lemma ErasedAhead(seen: nat, m: nat)
    requires seen < Oldest(m) && m <= seen + RING
    ensures var w, r := Cursor(m), Cursor(seen);
            w <= r < Edge(w) && w % PER_SECTOR != 0 && !(w <= NextSlot(r) <= r)
  {
    hide Oldest, Cursor, Lap, Edge;
    var w, lap := Cursor(m), Lap(m);
    LapAndCursor(m);
    OldestInLap(m);
    EdgePastStart(w);
    var r := seen - RING * (lap - 1);
    InLap(seen, lap - 1, r);
  }

  lemma LapAndCursor(m: nat)
    ensures m == RING * Lap(m) + Cursor(m) && Cursor(m) < RING
    ensures Lap(m) == 0 ==> Oldest(m) == 0
    ensures Lap(m) > 0 ==> Oldest(m) == RING * (Lap(m) - 1) + Edge(Cursor(m))
  {
    hide Edge;
  }

  lemma EdgePastStart(w: nat)
    requires w < RING
    ensures w < Edge(w) ==> w % PER_SECTOR != 0
  {
  }

  lemma InLap(n: nat, lap: int, r: nat)
    requires n == RING * lap + r && r < RING
    ensures Cursor(n) == r
  {
  }

  /** Logging up to a slot that was marked while it was erased stores a record there that is not pending. */
  lemma {:induction false} Refilled(x: World, serial: Bytes, r: nat)
    requires x.node.Valid() && var w := x.node.ring.w; w <= r < Edge(w) && w % PER_SECTOR != 0 && !(w <= x.node.r <= r)
    requires x.node.ring.slots[r][SENT] == 0
    ensures var k := r - x.node.ring.w + 1; var y := After(x, serial, Logs(k));
            && AllAllowed(x, serial, Logs(k))
            && y.node.ring.slots[r][SENT] == 0
            && |y.trace.h| == |x.trace.h| + k && y.trace.acks == x.trace.acks
    decreases r - x.node.ring.w
  {
    hide Pending, Held, Cleared, And;
    var w := x.node.ring.w;
    var k := r - w + 1;
    var y := Next(x, serial, Log(FreshRecord()));
    LogsFirst(k);
    EdgeMoves(w);
    assert y.node.ring.w == NextSlot(w);
    if w == r {
      ProgramZero(x.node.ring.slots[r], FreshRecord());
    } else {
      assert y.node.ring.slots[r] == x.node.ring.slots[r];
      Refilled(y, serial, r);
    }
  }

  lemma ProgramZero(x: Event, e: Event)
    requires x[SENT] == 0
    ensures Cleared(x, e)[SENT] == 0
  {
  }

  lemma CursorAhead(m: nat, i: nat)
    requires Cursor(m) + i < RING
    ensures Cursor(m + i) == Cursor(m) + i
  {
  }

  /** A reply for an erased slot is counted as one more record passed, and its mark goes into the erased slot. */
  lemma StaleReply(x: World, serial: Bytes, buffer: Bytes)
    requires Invariant(x.node, x.trace) && !Allowed(x.node, serial, Reply(buffer))
    ensures var y := Next(x, serial, Reply(buffer)); var n, t := x.node, x.trace; var m := |t.h|;
            && t.seen < Oldest(m) && m <= t.seen + RING && n.r == Cursor(t.seen) && n.ring.w == Cursor(m)
            && y.node == n.(ring := n.ring.(slots := n.ring.slots[n.r := Acked(BlankEvent())]), r := NextSlot(n.r), phase := Closing)
            && y.trace == t.(seen := t.seen + 1)
            && forall a :: a in t.acks ==> a < m
  {
    hide Holds, Oldest, Acknowledges, Cleared, Acked, Pending, Held, Cursor, Increasing;
    NextRecord(x.node, x.trace);
    CursorIsWrite(x.node, x.trace);
    AckedNotPending(BlankEvent());
  }

  /** The record that then comes to that slot is lost: it is not marked, and cannot be sent. */
  lemma StaleReplyLoses(x: World, serial: Bytes, buffer: Bytes)
    requires Invariant(x.node, x.trace) && !Allowed(x.node, serial, Reply(buffer))
    ensures !Harmless(Next(x, serial, Reply(buffer)), serial)
  {
    hide Holds, Oldest, Acknowledges, Edge, Cleared, Next, Orderly, Logs, Accounted;
    var n, t := x.node, x.trace;
    var m, r, w := |t.h|, n.r, n.ring.w;
    StaleReply(x, serial, buffer);
    ErasedAhead(t.seen, m);
    var y := Next(x, serial, Reply(buffer));
    var k := r - w + 1;
    Refilled(y, serial, r);
    var z := After(y, serial, Logs(k));
    CursorAhead(m, k - 1);
    NewestHeld(m + k);
    assert m + k - 1 !in z.trace.acks;
    LastLost(z.node, z.trace, m + k - 1);
  }

  lemma LastLost(n: Node, t: Trace, j: nat)
    requires n.Valid() && Oldest(|t.h|) <= j < |t.h| && j !in t.acks && n.ring.slots[Cursor(j)][SENT] == 0
    ensures !Orderly(n, t)
  {
    hide Oldest, Cursor;
  }

  // ---- the conditions are exact ----

  /** A step from a state of the invariant can be followed safely by every allowed run if and only if it is allowed itself. */
  lemma ExactlyAllowed(x: World, serial: Bytes, input: Input)
    requires Invariant(x.node, x.trace) && Proper(input) && |serial| == 4
    ensures Allowed(x.node, serial, input) <==> Harmless(Next(x, serial, input), serial)
  {
    hide Invariant, Orderly, Harmless;
    Sound(x.node, x.trace);
    if Allowed(x.node, serial, input) {
      StepKeeps(x.node, x.trace, serial, input);
      KeptIsHarmless(Next(x, serial, input), serial);
    } else {
      match input
      case Log(e) => OvertakenDisorders(x, serial, e);
      case Reply(buffer) => StaleReplyLoses(x, serial, buffer);
    }
  }

  lemma KeptIsHarmless(x: World, serial: Bytes)
    requires Invariant(x.node, x.trace)
    ensures Harmless(x, serial)
  {
    hide Invariant, Orderly;
    Sound(x.node, x.trace);
    forall inputs: seq<Input> | AllProper(inputs) && AllAllowed(x, serial, inputs)
      ensures Orderly(After(x, serial, inputs).node, After(x, serial, inputs).trace)
    {
      RunKeeps(x, serial, inputs);
    }
  }

  /** A run is allowed throughout if and only if delivery is safe at every point of it. */
  lemma {:induction false} ExactlyAllowedRun(x: World, serial: Bytes, inputs: seq<Input>)
    requires Invariant(x.node, x.trace) && AllProper(inputs) && |serial| == 4
    ensures AllAllowed(x, serial, inputs) <==>
            forall k :: 0 <= k <= |inputs| ==> Harmless(After(x, serial, inputs[..k]), serial)
    decreases |inputs|
  {
    hide Invariant, Harmless, Allowed, Next, Proper;
    Sound(x.node, x.trace);
    KeptIsHarmless(x, serial);
    if inputs == [] {
    } else {
      var y, rest := Next(x, serial, inputs[0]), inputs[1..];
      forall k | 0 < k <= |inputs| ensures After(x, serial, inputs[..k]) == After(y, serial, rest[..k - 1]) {
        assert inputs[..k][1..] == rest[..k - 1];
      }
      ExactlyAllowed(x, serial, inputs[0]);
      if Allowed(x.node, serial, inputs[0]) {
        NextHolds(x, serial, inputs[0]);
        ExactlyAllowedRun(y, serial, rest);
        assert forall k :: 0 <= k <= |rest| ==> After(y, serial, rest[..k]) == After(x, serial, inputs[..k + 1]);
      } else {
        assert After(x, serial, inputs[..1]) == After(y, serial, rest[..0]) == y;
      }
    }
  }

  lemma NextHolds(x: World, serial: Bytes, input: Input)
    requires Invariant(x.node, x.trace) && Allowed(x.node, serial, input) && Proper(input)
    ensures Invariant(Next(x, serial, input).node, Next(x, serial, input).trace)
  {
    StepKeeps(x.node, x.trace, serial, input);
  }

  // ---- the conditions are broken on runs from an erased log ----

  /** Some allowed run from an erased log ends here. */
  ghost predicate Reached(x: World, serial: Bytes) {
    exists inputs: seq<Input> ::
      AllProper(inputs) && AllAllowed(Start(), serial, inputs) && x == After(Start(), serial, inputs)
  }

  lemma ReachedStart(serial: Bytes)
    ensures Reached(Start(), serial)
  {
    hide Start;
    assert AllProper([]) && AllAllowed(Start(), serial, []) && Start() == After(Start(), serial, []);
  }

  lemma ReachedHolds(x: World, serial: Bytes)
    requires Reached(x, serial)
    ensures Invariant(x.node, x.trace)
  {
    hide Invariant, Orderly, Start;
    var inputs: seq<Input> :|
      AllProper(inputs) && AllAllowed(Start(), serial, inputs) && x == After(Start(), serial, inputs);
    StartHolds();
    RunKeeps(Start(), serial, inputs);
  }

  lemma ReachedOn(x: World, serial: Bytes, more: seq<Input>)
    requires x.node.Valid() && Reached(x, serial) && AllProper(more) && AllAllowed(x, serial, more)
    ensures Reached(After(x, serial, more), serial)
    ensures Invariant(After(x, serial, more).node, After(x, serial, more).trace)
  {
    hide Invariant, Start;
    var inputs: seq<Input> :|
      AllProper(inputs) && AllAllowed(Start(), serial, inputs) && x == After(Start(), serial, inputs);
    AfterSum(Start(), serial, inputs, more);
    assert AllProper(inputs + more);
    ReachedHolds(After(x, serial, more), serial);
  }

  /** Records can be logged until all the ring is ahead of the read cursor, whatever the node is doing. */
  lemma {:induction false} LogMany(x: World, serial: Bytes, k: nat)
    requires Invariant(x.node, x.trace) && |x.trace.h| + k <= x.trace.seen + RING
    ensures x.node.Valid() && AllAllowed(x, serial, Logs(k))
    ensures var y := After(x, serial, Logs(k));
            && |y.trace.h| == |x.trace.h| + k && y.trace == x.trace.(h := y.trace.h)
            && y.node.r == x.node.r && y.node.phase == x.node.phase
    decreases k
  {
    hide Allowed;
    if k > 0 {
      LogsFirst(k);
      RoomToLog(x.node, x.trace, serial, FreshRecord());
      NextHolds(x, serial, Log(FreshRecord()));
      LogMany(Next(x, serial, Log(FreshRecord())), serial, k - 1);
    }
  }

  /** As many records as the ring has slots, logged while none is acknowledged, fill it. */
  lemma FullReached(serial: Bytes, e: Event)
    requires Fresh(e)
    ensures exists x: World :: Reached(x, serial) && x.node.Valid() && x.node.phase == Idle && !Allowed(x.node, serial, Log(e))
  {
    hide Allowed, Fresh, Reached;
    ReachedStart(serial);
    StartHolds();
    LogMany(Start(), serial, RING);
    ReachedOn(Start(), serial, Logs(RING));
    var x := After(Start(), serial, Logs(RING));
    RoomToLog(x.node, x.trace, serial, e);
  }

  /** A record logged, and its packet sent. */
  lemma OneSent(serial: Bytes, k: nat) returns (x: World)
    requires 0 < k < RING
    ensures Reached(x, serial) && Invariant(x.node, x.trace) && x.node.phase == Receiving
    ensures |x.trace.h| == k && x.trace.seen == 0 && x.node.r == 0
  {
    hide Allowed, Reached;
    ReachedStart(serial);
    StartHolds();
    LogMany(Start(), serial, k);
    ReachedOn(Start(), serial, Logs(k));
    x := SentOn(After(Start(), serial, Logs(k)), serial);
  }

  /** From the idle phase or the closing one, the record at the read cursor is sent. */
  lemma SentOn(x: World, serial: Bytes) returns (y: World)
    requires Reached(x, serial) && Invariant(x.node, x.trace)
    requires x.trace.seen < |x.trace.h| < RING
    ensures Reached(y, serial) && Invariant(y.node, y.trace)
    ensures y.node == x.node.(phase := Receiving) && y.trace == x.trace.(packets := y.trace.packets)
  {
    hide Allowed, Reached;
    EnoughHeld(|x.trace.h|);
    NextRecord(x.node, x.trace);
    CursorIsWrite(x.node, x.trace);
    Onward(x, serial);
    y := After(x, serial, Runs(Turns(x.node.phase)));
    ReachedOn(x, serial, Runs(Turns(x.node.phase)));
  }

  /** The ring can fill up while the reply to a packet is waited for. */
  lemma FullReachedWaiting(serial: Bytes, e: Event)
    requires Fresh(e)
    ensures exists x: World ::
              Reached(x, serial) && x.node.Valid() && x.node.phase == Receiving && !Allowed(x.node, serial, Log(e))
  {
    hide Allowed, Fresh, Reached;
    var x := OneSent(serial, 1);
    LogMany(x, serial, RING - 1);
    ReachedOn(x, serial, Logs(RING - 1));
    var y := After(x, serial, Logs(RING - 1));
    RoomToLog(y.node, y.trace, serial, e);
  }

  /** The slot whose packet is out can be erased before its reply comes. */
  lemma StaleReached(serial: Bytes)
    requires |serial| == 4
    ensures exists x: World, buffer: Bytes ::
              Reached(x, serial) && x.node.Valid() && !Allowed(x.node, serial, Reply(buffer))
  {
    hide Fresh, Reached, Acknowledges, Acknowledgement, Accounted, Holds, Logs, Acked, Pending;
    var x := OneSent(serial, 2);
    var reply := Reply(Acknowledgement(serial, 0));
    Acknowledging(serial, 0);
    NextRecord(x.node, x.trace);
    OneStep(x, serial, reply);
    ReachedOn(x, serial, [reply]);
    var y := SentOn(Next(x, serial, reply), serial);
    LogMany(y, serial, RING - 1);
    ReachedOn(y, serial, Logs(RING - 1));
    var z := After(y, serial, Logs(RING - 1));
    NextRecord(z.node, z.trace);
    Acknowledging(serial, 1);
    assert !Allowed(z.node, serial, Reply(Acknowledgement(serial, 1)));
  }
}
