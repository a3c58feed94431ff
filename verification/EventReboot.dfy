/**
 Finding the two event cursors again after a restart, by scanning the ring: the write cursor is the first slot that was
 never saved to, the read cursor the start of the highest run of pending slots.
 */
module EventReboot {
  import opened NorFlash
  import opened EventRing
  import opened EventDelivery

  predicate Unsaved(e: Event) {
    e[SAVE] == 0xFF
  }

  /** The first unsaved slot from `i` on, the last slot of the ring not counted; 0 if there is none. */
  function WriteFound(slots: seq<Event>, i: nat): (c: nat)
    requires |slots| == RING && i <= MAX_EVENTS
    ensures c < MAX_EVENTS
    decreases MAX_EVENTS - i
  {
    if i == MAX_EVENTS then 0 else if Unsaved(slots[i]) then i else WriteFound(slots, i + 1)
  }

  /** The start of the run of pending slots that ends at slot `i`; slot 0 is never looked at. */
  function RunStart(slots: seq<Event>, i: nat): (c: nat)
    requires |slots| == RING && 1 <= i < RING
    ensures 1 <= c <= i
  {
    if i > 1 && Pending(slots[i - 1]) then RunStart(slots, i - 1) else i
  }

  /** The read cursor found from slot `i` down, starting from the write cursor found. */
  function ReadFound(slots: seq<Event>, i: nat, write: nat): (c: nat)
    requires |slots| == RING && i < RING
    ensures c == write || 1 <= c <= i
  {
    if i == 0 then write else if Pending(slots[i]) then RunStart(slots, i) else ReadFound(slots, i - 1, write)
  }

  // ---- the write cursor ----

  lemma {:induction false} WriteFoundAt(slots: seq<Event>, i: nat, c: nat)
    requires |slots| == RING && i <= c < MAX_EVENTS && Unsaved(slots[c])
    requires forall k :: i <= k < c ==> !Unsaved(slots[k])
    ensures WriteFound(slots, i) == c
    decreases c - i
  {
    if i < c {
      WriteFoundAt(slots, i + 1, c);
    }
  }

  lemma {:induction false} WriteNotFound(slots: seq<Event>, i: nat)
    requires |slots| == RING && i <= MAX_EVENTS
    requires forall k :: i <= k < MAX_EVENTS ==> !Unsaved(slots[k])
    ensures WriteFound(slots, i) == 0
    decreases MAX_EVENTS - i
  {
    if i < MAX_EVENTS {
      WriteNotFound(slots, i + 1);
    }
  }

  /**
   The write cursor is found again exactly when it is 0, or is not the last slot and either the ring is in its first lap
   or the cursor is not at the start of a sector. Otherwise 0 is found.
   */
  lemma WriteCursorRecovered(s: Ring, h: seq<Event>)
    requires Holds(s, h) && forall j :: 0 <= j < |h| ==> !Unsaved(h[j])
    ensures WriteFound(s.slots, 0) == s.w <==> s.w == 0 || (s.w < MAX_EVENTS && (|h| < RING || s.w % PER_SECTOR != 0))
    ensures WriteFound(s.slots, 0) != s.w ==> WriteFound(s.slots, 0) == 0
  {
    forall i | 0 <= i < RING ensures Unsaved(s.slots[i]) <==> LastAt(|h|, i) < Oldest(|h|) {
      SlotIsLast(s, h, i);
    }
    EdgeMoves(s.w);
    UnsavedSlots(|h|);
    hide Holds, LastAt, Oldest, Edge, Unsaved;
    if s.w < MAX_EVENTS && (|h| < RING || s.w % PER_SECTOR != 0) {
      WriteFoundAt(s.slots, 0, s.w);
    } else {
      WriteNotFound(s.slots, 0);
    }
  }

  /** The slots that hold nothing: from the write cursor to the edge of its sector, or to the end in the first lap. */
  lemma UnsavedSlots(n: nat)
    ensures forall i {:trigger LastAt(n, i)} :: 0 <= i < RING ==>
              (LastAt(n, i) < Oldest(n) <==> Cursor(n) <= i && (n < RING || i < Edge(Cursor(n))))
  {
  }

  // ---- the read cursor ----

  lemma {:induction false} RunStartAt(slots: seq<Event>, i: nat, c: nat)
    requires |slots| == RING && 1 <= c <= i < RING
    requires forall k :: c <= k <= i ==> Pending(slots[k])
    requires c == 1 || !Pending(slots[c - 1])
    ensures RunStart(slots, i) == c
  {
    if c < i {
      RunStartAt(slots, i - 1, c);
    }
  }

  /** The scan from the top finds the run of pending slots `c` to `k` when nothing above it is pending. */
  lemma {:induction false} ReadFoundAt(slots: seq<Event>, i: nat, c: nat, k: nat, write: nat)
    requires |slots| == RING && 1 <= c <= k <= i < RING
    requires forall j :: k < j <= i ==> !Pending(slots[j])
    requires forall j :: c <= j <= k ==> Pending(slots[j])
    requires c == 1 || !Pending(slots[c - 1])
    ensures ReadFound(slots, i, write) == c
    decreases i
  {
    if k < i {
      ReadFoundAt(slots, i - 1, c, k, write);
    } else {
      RunStartAt(slots, i, c);
    }
  }

  lemma {:induction false} ReadNotFound(slots: seq<Event>, i: nat, write: nat)
    requires |slots| == RING && i < RING
    requires forall j :: 1 <= j <= i ==> !Pending(slots[j])
    ensures ReadFound(slots, i, write) == write
  {
    if i > 0 {
      ReadNotFound(slots, i - 1, write);
    }
  }

  /** The first record still waiting in the ring. */
  function FirstWaiting(t: Trace): nat {
    if t.seen < Oldest(|t.h|) then Oldest(|t.h|) else t.seen
  }

  lemma PendingSlots(n: Node, t: Trace, i: nat)
    requires Invariant(n, t) && i < RING
    ensures Pending(n.ring.slots[i]) <==> LastAt(|t.h|, i) >= FirstWaiting(t)
  {
    SlotIsLast(n.ring, t.h, i);
    var j := LastAt(|t.h|, i);
    if j >= Oldest(|t.h|) {
      assert j < t.seen ==> j in t.acks;
    }
  }

  /** What the scan finds, in the two shapes the waiting records can have in the ring. */
  lemma ScanOneRun(slots: seq<Event>, c: nat, w: nat, write: nat)
    requires |slots| == RING && c <= w < RING
    requires forall i :: 0 <= i < RING ==> (Pending(slots[i]) <==> c <= i < w)
    ensures var found := ReadFound(slots, MAX_EVENTS, write);
            if c == w || w == 1 then found == write else found == if c == 0 then 1 else c
  {
    hide Pending;
    if w <= 1 || c == w {
      ReadNotFound(slots, MAX_EVENTS, write);
    } else {
      ReadFoundAt(slots, MAX_EVENTS, if c == 0 then 1 else c, w - 1, write);
    }
  }

  lemma ScanTwoRuns(slots: seq<Event>, c: nat, w: nat, write: nat)
    requires |slots| == RING && w <= c < RING
    requires forall i :: 0 <= i < RING ==> (Pending(slots[i]) <==> i < w || c <= i)
    ensures ReadFound(slots, MAX_EVENTS, write) == if c == w then 1 else c
  {
    hide Pending;
    ReadFoundAt(slots, MAX_EVENTS, if c == w then 1 else c, MAX_EVENTS, write);
  }

  /** The waiting records by slot: one run of slots, or one at each end of the ring. */
  lemma WaitingSlots(n: Node, t: Trace)
    requires Invariant(n, t)
    ensures var m, p := |t.h|, FirstWaiting(t); var c, w := Cursor(p), Cursor(m);
            if p >= RING * Lap(m)
            then c <= w && (c == w <==> p == m) && forall i :: 0 <= i < RING ==> (Pending(n.ring.slots[i]) <==> c <= i < w)
            else w <= c && (c == w <==> m - p == RING) && (c == w ==> w % PER_SECTOR == 0)
                 && forall i :: 0 <= i < RING ==> (Pending(n.ring.slots[i]) <==> i < w || c <= i)
  {
    var m, p := |t.h|, FirstWaiting(t);
    OldestInLap(m);
    EdgeMoves(Cursor(m));
    WaitingPositions(m, p);
    forall i | 0 <= i < RING ensures Pending(n.ring.slots[i]) <==> LastAt(m, i) >= p {
      PendingSlots(n, t, i);
    }
    hide Pending, LastAt, Invariant;
  }

  lemma WaitingPositions(m: nat, p: nat)
    requires Oldest(m) <= p <= m
    ensures var c, w := Cursor(p), Cursor(m);
            if p >= RING * Lap(m)
            then c <= w && (c == w <==> p == m) && forall i {:trigger LastAt(m, i)} :: 0 <= i < RING ==> (LastAt(m, i) >= p <==> c <= i < w)
            else w <= c && (c == w <==> m - p == RING) && (c == w ==> w % PER_SECTOR == 0)
                 && forall i {:trigger LastAt(m, i)} :: 0 <= i < RING ==> (LastAt(m, i) >= p <==> i < w || c <= i)
  {
    EdgeMoves(Cursor(m));
    if p >= RING * Lap(m) {
      assert Cursor(p) == p - RING * Lap(m);
    } else {
      assert Cursor(p) == p - RING * (Lap(m) - 1);
    }
  }

  /**
   When records are waiting, the read cursor found is the slot of the first of them exactly when that slot is not slot 0
   and the ring is not full of waiting records. When none is, it is the write cursor found.
   */
  lemma ReadCursorRecovered(n: Node, t: Trace)
    requires Invariant(n, t) && forall j :: 0 <= j < |t.h| ==> !Unsaved(t.h[j])
    ensures var p := FirstWaiting(t); var write := WriteFound(n.ring.slots, 0);
            var found := ReadFound(n.ring.slots, MAX_EVENTS, write);
            if p == |t.h| then found == write
            else found == Cursor(p) <==> Cursor(p) != 0 && |t.h| - p < RING
  {
    hide Pending, Invariant, Holds, Oldest, Unsaved, ReadFound, WriteFound, Edge;
    Sound(n, t);
    OldestInLap(|t.h|);
    var p, slots := FirstWaiting(t), n.ring.slots;
    var write := WriteFound(slots, 0);
    WriteCursorRecovered(n.ring, t.h);
    WaitingSlots(n, t);
    if p >= RING * Lap(|t.h|) {
      ScanOneRun(slots, Cursor(p), Cursor(|t.h|), write);
    } else {
      ScanTwoRuns(slots, Cursor(p), Cursor(|t.h|), write);
    }
  }

  // ---- delivery after a restart ----

  /** The node as it starts again: the cursors found in the ring it was switched off with, and no exchange under way. */
  function Restarted(n: Node): (m: Node)
    requires n.Valid()
    ensures m.Valid()
  {
    var write := WriteFound(n.ring.slots, 0);
    Node(Ring(n.ring.slots, write), ReadFound(n.ring.slots, MAX_EVENTS, write), Idle)
  }

  lemma FirstWaitingAccounted(t: Trace)
    requires Accounted(t) && t.seen <= |t.h|
    ensures Accounted(t.(seen := FirstWaiting(t)))
  {
    hide Oldest, Pending, Increasing;
  }

  /**
   After a restart the invariant of delivery holds again, counted from the first record still waiting, exactly when the
   write cursor is one that can be found and, if anything is waiting, it does not start at slot 0 or fill the ring.
   */
  lemma RestartResumes(n: Node, t: Trace)
    requires Invariant(n, t) && forall j :: 0 <= j < |t.h| ==> !Unsaved(t.h[j])
    ensures var m, w, p := |t.h|, n.ring.w, FirstWaiting(t);
            Invariant(Restarted(n), t.(seen := p)) <==>
            (w == 0 || (w < MAX_EVENTS && (m < RING || w % PER_SECTOR != 0))) && (p == m || (Cursor(p) != 0 && m - p < RING))
  {
    hide ReadFound, WriteFound, Pending, Unsaved, Oldest, Cursor, Accounted, Increasing;
    WriteCursorRecovered(n.ring, t.h);
    ReadCursorRecovered(n, t);
    FirstWaitingAccounted(t);
    CursorIsWrite(n, t);
  }
}
