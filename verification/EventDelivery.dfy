/**
 Stop-and-wait delivery of logged events: one record at a time is sent, and the read cursor moves on when its reply comes
 back with the right index, serial number and checksum, or when the slot is not pending.
 */
module EventDelivery {
  import opened NorFlash
  import opened EventRing
  import Checksum

  const REPLY := 16

  datatype Phase = Idle | Connecting | Sending | Transmitting | Receiving | Closing

  datatype Node = Node(ring: Ring, r: nat, phase: Phase) {
    predicate Valid() {
      ring.Valid() && r < RING
    }
  }

  /** What can happen to the node: a record is logged, its state machine runs with some outcome, or bytes arrive. */
  datatype Input = Log(e: Event) | Run(ok: bool) | Reply(buffer: Bytes)

  function MessageId(buffer: Bytes): nat
    requires |buffer| >= 2
  {
    (buffer[0] as nat) * 256 + buffer[1] as nat
  }

  /** A reply that acknowledges the record at the read cursor. */
  predicate Acknowledges(buffer: Bytes, serial: Bytes, r: nat) {
    |buffer| == REPLY && MessageId(buffer) == r && buffer[2..6] == serial && Checksum.Accepts(buffer[..8])
  }

  function Acknowledged(n: Node): (m: Node)
    requires n.Valid()
    ensures m.Valid()
  {
    var e := n.ring.slots[n.r];
    n.(ring := n.ring.(slots := n.ring.slots[n.r := Cleared(e, Acked(e))]), r := NextSlot(n.r))
  }

  function Step(n: Node, serial: Bytes, input: Input): (m: Node)
    requires n.Valid()
    ensures m.Valid()
  {
    match input
    case Log(e) => n.(ring := Logged(n.ring, e))
    case Reply(buffer) =>
      if n.phase != Receiving then n
      else if Acknowledges(buffer, serial, n.r) then Acknowledged(n).(phase := Closing)
      else n.(phase := Closing)
    case Run(ok) =>
      match n.phase
      case Idle =>
        if n.r == n.ring.w then n
        else if !Pending(n.ring.slots[n.r]) then n.(r := NextSlot(n.r))
        else if ok then n.(phase := Connecting) else n
      case Connecting => n.(phase := if ok then Sending else Closing)
      case Sending => n.(phase := Transmitting)
      case Transmitting => n.(phase := if ok then Receiving else Closing)
      case Receiving => n.(phase := if ok then Receiving else Closing)
      case Closing => n.(phase := Idle)
  }

  // ---- the history of a run ----

  /**
   Everything logged, the number of records the read cursor has gone past, and the positions, in the order of logging, of
   the records that were put into packets and of those marked as acknowledged.
   */
  datatype Trace = Trace(h: seq<Event>, seen: nat, packets: seq<nat>, acks: seq<nat>)

  /** The position of the record a slot holds after `m` records have been logged; -1 if it has been erased. */
  function Held(m: nat, i: nat): (j: int)
    requires i < RING
    ensures -1 <= j < m
  {
    if LastAt(m, i) >= Oldest(m) then LastAt(m, i) else -1
  }

  function Follow(n: Node, t: Trace, serial: Bytes, input: Input): Trace
    requires n.Valid()
  {
    var j := Held(|t.h|, n.r);
    match input
    case Log(e) => t.(h := t.h + [e])
    case Reply(buffer) =>
      if n.phase != Receiving || !Acknowledges(buffer, serial, n.r) then t
      else if j < 0 then t.(seen := t.seen + 1)
      else t.(h := t.h[j := Acked(t.h[j])], seen := t.seen + 1, acks := t.acks + [j])
    case Run(ok) =>
      if n.phase == Idle && n.r != n.ring.w && !Pending(n.ring.slots[n.r]) then t.(seen := t.seen + 1)
      else if n.phase == Sending && j >= 0 then t.(packets := t.packets + [j])
      else t
  }

  predicate InExchange(p: Phase) {
    p.Connecting? || p.Sending? || p.Transmitting? || p.Receiving?
  }

  predicate PacketOut(p: Phase) {
    p.Transmitting? || p.Receiving?
  }

  predicate Increasing(s: seq<nat>) {
    forall i, j :: 0 <= i < j < |s| ==> s[i] < s[j]
  }

  /**
   What delivery is for. Records are marked in the order of logging, none without having been sent, and none while an
   older one is still in the ring unmarked; and every record in the ring that is not marked can still be sent.
   */
  predicate Orderly(n: Node, t: Trace)
    requires n.Valid()
  {
    && Increasing(t.acks)
    && (forall a :: a in t.acks ==> a < |t.h| && a in t.packets)
    && (forall a, j :: a in t.acks && 0 <= j < a && j !in t.acks ==> j < Oldest(|t.h|))
    && (forall j {:trigger Cursor(j)} :: Oldest(|t.h|) <= j < |t.h| && j !in t.acks ==> Pending(n.ring.slots[Cursor(j)]))
  }

  /** The records that are not pending are the marked ones, and everything passed is marked or has been erased. */
  predicate Accounted(t: Trace) {
    && (forall j :: 0 <= j < |t.h| ==> (Pending(t.h[j]) <==> j !in t.acks))
    && (forall j :: 0 <= j < t.seen && j !in t.acks ==> j < Oldest(|t.h|))
    && (forall a :: a in t.acks ==> a < t.seen && a in t.packets)
    && (forall p :: p in t.packets ==> p < |t.h|)
    && Increasing(t.acks)
  }

  /** The ring holds the history, and the read cursor stands after everything marked, with only erased records skipped. */
  ghost predicate Invariant(n: Node, t: Trace) {
    && n.Valid() && Holds(n.ring, t.h)
    && t.seen <= |t.h| <= t.seen + RING && n.r == Cursor(t.seen)
    && (InExchange(n.phase) ==> t.seen < |t.h|)
    && (PacketOut(n.phase) && Oldest(|t.h|) <= t.seen ==> t.seen in t.packets)
    && Accounted(t)
  }

  lemma InvariantIsOrderly(n: Node, t: Trace)
    requires Invariant(n, t)
    ensures Orderly(n, t)
  {
    hide Holds, Oldest, Pending, Increasing;
    forall j {:trigger Cursor(j)} | Oldest(|t.h|) <= j < |t.h| && j !in t.acks ensures Pending(n.ring.slots[Cursor(j)]) {
      SuffixHeld(n.ring, t.h, j);
    }
  }

  function PrevSlot(i: nat): nat {
    if i > 0 then i - 1 else MAX_EVENTS
  }

  /**
   What a step needs, told by the node alone. A record must not be logged while the cursors meet and the newest record is
   still waiting: the ring is then full. A reply must not be taken for a slot that is not pending: it was erased meanwhile.
   */
  predicate Allowed(n: Node, serial: Bytes, input: Input)
    requires n.Valid()
  {
    match input
    case Log(_) => n.r != n.ring.w || !Pending(n.ring.slots[PrevSlot(n.ring.w)])
    case Reply(buffer) => n.phase == Receiving && Acknowledges(buffer, serial, n.r) ==> Pending(n.ring.slots[n.r])
    case Run(_) => true
  }

  /** Only records that are saved and pending are logged. */
  predicate Proper(input: Input) {
    input.Log? ==> Fresh(input.e)
  }

  /** The cursors meet with the newest record waiting exactly when all the ring is ahead of the read cursor. */
  lemma RoomToLog(n: Node, t: Trace, serial: Bytes, e: Event)
    requires Invariant(n, t)
    ensures Allowed(n, serial, Log(e)) <==> |t.h| < t.seen + RING
  {
    var m := |t.h|;
    if n.r == n.ring.w {
      if m == 0 {
        SlotIsLast(n.ring, t.h, MAX_EVENTS);
        FreshOrBlank();
      } else {
        NewestHeld(m);
        SuffixHeld(n.ring, t.h, m - 1);
        MetOnlyAtEnds(t.seen, m);
      }
    } else {
      NotMet(n, t);
    }
  }

  lemma FreshOrBlank()
    ensures !Pending(BlankEvent())
  {
  }

  lemma NewestHeld(m: nat)
    requires m > 0
    ensures Oldest(m) <= m - 1 && Cursor(m - 1) == PrevSlot(Cursor(m))
  {
    NextCursor(m - 1);
  }

  lemma MetOnlyAtEnds(seen: nat, m: nat)
    requires seen <= m <= seen + RING && Cursor(seen) == Cursor(m)
    ensures m == seen || m == seen + RING
  {
  }

  // ---- every step ----

  lemma OldestGrows(n: nat)
    ensures Oldest(n) <= Oldest(n + 1)
  {
    NextCursor(n);
    EdgeMoves(Cursor(n));
  }

  lemma LogStep(n: Node, t: Trace, serial: Bytes, e: Event)
    requires Invariant(n, t) && Allowed(n, serial, Log(e)) && Fresh(e)
    ensures Invariant(Step(n, serial, Log(e)), Follow(n, t, serial, Log(e)))
  {
    hide Holds, Logged, Oldest, Cursor, Fresh, Held, Allowed;
    RoomToLog(n, t, serial, e);
    LogKeepsHistory(n.ring, t.h, e);
    OldestGrows(|t.h|);
    assert Pending(e) by { FreshIsPending(e); }
    assert |t.h| !in t.acks;
  }

  lemma FreshIsPending(e: Event)
    requires Fresh(e)
    ensures Pending(e) && !Pending(Acked(e)) && !Pending(BlankEvent())
  {
  }

  lemma AckedNotPending(e: Event)
    ensures !Pending(Acked(e)) && Cleared(e, Acked(e)) == Acked(e)
  {
    hide And;
  }

  lemma IncreasingSnoc(s: seq<nat>, x: nat)
    requires Increasing(s) && forall a :: a in s ==> a < x
    ensures Increasing(s + [x])
  {
    forall i | 0 <= i < |s| ensures s[i] < x {
      assert s[i] in s;
    }
  }

  lemma MarkAccounted(t: Trace)
    requires Accounted(t) && t.seen < |t.h| && t.seen in t.packets
    ensures var j := t.seen; Accounted(t.(h := t.h[j := Acked(t.h[j])], seen := j + 1, acks := t.acks + [j]))
  {
    hide Oldest, Acked, Pending, Increasing;
    var j := t.seen;
    var u := t.(h := t.h[j := Acked(t.h[j])], seen := j + 1, acks := t.acks + [j]);
    AckedNotPending(t.h[j]);
    IncreasingSnoc(t.acks, j);
    assert forall a :: a in u.acks <==> a in t.acks || a == j;
    assert forall k :: 0 <= k < |u.h| && k != j ==> u.h[k] == t.h[k];
  }

  lemma ReplyStep(n: Node, t: Trace, serial: Bytes, buffer: Bytes)
    requires Invariant(n, t) && Allowed(n, serial, Reply(buffer))
    ensures Invariant(Step(n, serial, Reply(buffer)), Follow(n, t, serial, Reply(buffer)))
  {
    hide Holds, Oldest, Cursor, Acked, Cleared, Acknowledges, Pending, Held, Accounted;
    if n.phase == Receiving && Acknowledges(buffer, serial, n.r) {
      var j := t.seen;
      NextRecord(n, t);
      MarkKeepsHistory(n.ring, t.h, j);
      AckedNotPending(t.h[j]);
      NextCursor(j);
      MarkAccounted(t);
      var m := Step(n, serial, Reply(buffer));
      assert m == n.(ring := n.ring.(slots := n.ring.slots[Cursor(j) := Acked(t.h[j])]), r := NextSlot(n.r), phase := Closing);
    }
  }

  /** Between the two cursors the slot under the read cursor holds the next record, or has been erased. */
  lemma NextRecord(n: Node, t: Trace)
    requires Invariant(n, t) && t.seen < |t.h|
    ensures n.ring.slots[n.r] == if Oldest(|t.h|) <= t.seen then t.h[t.seen] else BlankEvent()
    ensures Pending(n.ring.slots[n.r]) <==> Oldest(|t.h|) <= t.seen
    ensures Held(|t.h|, n.r) == if Oldest(|t.h|) <= t.seen then t.seen else -1
  {
    SlotOfPosition(|t.h|, t.seen);
    SlotIsLast(n.ring, t.h, n.r);
    assert t.seen !in t.acks;
  }

  lemma RunStep(n: Node, t: Trace, serial: Bytes, ok: bool)
    requires Invariant(n, t)
    ensures Invariant(Step(n, serial, Run(ok)), Follow(n, t, serial, Run(ok)))
  {
    hide Holds, Oldest, Cursor, Acked, Cleared, Pending, Increasing, Held;
    if n.phase == Idle && n.r != n.ring.w {
      IdleStep(n, t, serial, ok);
    } else {
      CursorIsWrite(n, t);
      if t.seen < |t.h| {
        NextRecord(n, t);
      }
    }
  }

  lemma CursorIsWrite(n: Node, t: Trace)
    requires Invariant(n, t)
    ensures n.ring.w == Cursor(|t.h|)
  {
  }

  lemma IdleStep(n: Node, t: Trace, serial: Bytes, ok: bool)
    requires Invariant(n, t) && n.phase == Idle && n.r != n.ring.w
    ensures Invariant(Step(n, serial, Run(ok)), Follow(n, t, serial, Run(ok)))
  {
    CursorIsWrite(n, t);
    hide Holds, Oldest, Cursor, Acked, Cleared, Pending, Increasing;
    assert t.seen < |t.h| && |t.h| < t.seen + RING by { NotMet(n, t); }
    NextRecord(n, t);
    NextCursor(t.seen);
  }

  lemma NotMet(n: Node, t: Trace)
    requires Invariant(n, t) && n.r != n.ring.w
    ensures t.seen < |t.h| < t.seen + RING
  {
    assert Cursor(t.seen) != Cursor(|t.h|);
  }

  lemma StepKeeps(n: Node, t: Trace, serial: Bytes, input: Input)
    requires Invariant(n, t) && Allowed(n, serial, input) && Proper(input)
    ensures Invariant(Step(n, serial, input), Follow(n, t, serial, input))
  {
    match input
    case Log(e) => LogStep(n, t, serial, e);
    case Reply(buffer) => ReplyStep(n, t, serial, buffer);
    case Run(ok) => RunStep(n, t, serial, ok);
  }

  // ---- whole runs ----

  /** The node with the history that led to it. */
  datatype World = World(node: Node, trace: Trace)

  function Next(x: World, serial: Bytes, input: Input): (y: World)
    requires x.node.Valid()
    ensures y.node.Valid()
  {
    World(Step(x.node, serial, input), Follow(x.node, x.trace, serial, input))
  }

  function After(x: World, serial: Bytes, inputs: seq<Input>): (y: World)
    requires x.node.Valid()
    ensures y.node.Valid()
    decreases |inputs|
  {
    if inputs == [] then x else After(Next(x, serial, inputs[0]), serial, inputs[1..])
  }

  predicate AllProper(inputs: seq<Input>) {
    forall i :: 0 <= i < |inputs| ==> Proper(inputs[i])
  }

  /** Every step of the run is allowed where it is taken. */
  predicate AllAllowed(x: World, serial: Bytes, inputs: seq<Input>)
    requires x.node.Valid()
    decreases |inputs|
  {
    inputs == [] || (Allowed(x.node, serial, inputs[0]) && AllAllowed(Next(x, serial, inputs[0]), serial, inputs[1..]))
  }

  /** Over every interleaving of logging, sending, lost replies and acknowledgements, delivery is orderly. */
  lemma {:induction false} RunKeeps(x: World, serial: Bytes, inputs: seq<Input>)
    requires Invariant(x.node, x.trace) && AllProper(inputs) && AllAllowed(x, serial, inputs)
    ensures var y := After(x, serial, inputs); Invariant(y.node, y.trace) && Orderly(y.node, y.trace)
    decreases |inputs|
  {
    hide Invariant, Orderly, Allowed, Step, Follow, Proper;
    if inputs == [] {
      InvariantIsOrderly(x.node, x.trace);
    } else {
      Sound(x.node, x.trace);
      StepKeeps(x.node, x.trace, serial, inputs[0]);
      RunKeeps(Next(x, serial, inputs[0]), serial, inputs[1..]);
    }
  }

  lemma Sound(n: Node, t: Trace)
    requires Invariant(n, t)
    ensures n.Valid() && Holds(n.ring, t.h) && n.ring.w == Cursor(|t.h|)
  {
  }

  function Start(): (x: World)
    ensures x.node.Valid()
  {
    World(Node(ErasedRing(), 0, Idle), Trace([], 0, [], []))
  }

  /** An erased log with both cursors at its start meets the invariant. */
  lemma StartHolds()
    ensures Invariant(Start().node, Start().trace)
  {
    RunHolds([]);
  }
}
