/**
 The event log as a ring of 28001 slots of 32 bytes. The sector under the write cursor is erased when the cursor enters
 it, so the ring holds a contiguous end of everything ever logged.
 */
module EventRing {
  import opened NorFlash

  const MAX_EVENTS := 28000
  const RING := 28001
  const PER_SECTOR := 2048
  const EVENT := 32
  const SAVE := 18
  const SENT := 19

  type Event = r: Bytes | |r| == EVENT witness Blank(EVENT)

  function BlankEvent(): (e: Event)
    ensures forall k :: 0 <= k < EVENT ==> e[k] == 0xFF
  {
    Blank(EVENT)
  }

  /** A record as it is logged: saved, and not yet acknowledged. */
  predicate Fresh(e: Event) {
    e[SAVE] == 0 && e[SENT] == 0xAA
  }

  predicate Pending(e: Event) {
    e[SENT] == 0xAA
  }

  datatype Ring = Ring(slots: seq<Event>, w: nat) {
    predicate Valid() {
      |slots| == RING && w < RING
    }
  }

  function NextSlot(i: nat): nat {
    if i < MAX_EVENTS then i + 1 else 0
  }

  // ---- what logging does ----

  /** The end of the part of the write cursor's sector that has been erased. */
  function Edge(w: nat): (e: nat)
    requires w < RING
    ensures w <= e <= RING && e - w < PER_SECTOR
  {
    var end := w / PER_SECTOR * PER_SECTOR + PER_SECTOR;
    if w % PER_SECTOR == 0 then w else if end <= RING then end else RING
  }

  function ErasedOr(erased: bool, e: Event): Event {
    if erased then BlankEvent() else e
  }

  /** The slots of the sector that starts at slot `w` erased. */
  function SectorBlank(slots: seq<Event>, w: nat): (s: seq<Event>)
    ensures |s| == |slots|
  {
    seq(|slots|, i requires 0 <= i < |slots| => ErasedOr(w <= i < w + PER_SECTOR, slots[i]))
  }

  function Ready(s: Ring): (t: Ring)
    requires s.Valid()
    ensures t.Valid() && t.w == s.w
  {
    if s.w % PER_SECTOR == 0 then s.(slots := SectorBlank(s.slots, s.w)) else s
  }

  function Logged(s: Ring, e: Event): (t: Ring)
    requires s.Valid()
    ensures t.Valid()
  {
    var r := Ready(s);
    Ring(r.slots[s.w := Cleared(r.slots[s.w], e)], NextSlot(s.w))
  }

  // ---- the history the ring stands for ----

  function Lap(n: nat): nat {
    n / RING
  }

  function Cursor(n: nat): nat {
    n % RING
  }

  /** What a slot holds after `h` has been logged: this lap's record, nothing, or the record of the lap before. */
  function SlotOf(h: seq<Event>, i: nat): Event
    requires i < RING
  {
    var lap, w := Lap(|h|), Cursor(|h|);
    if i < w then h[RING * lap + i]
    else if lap == 0 || i < Edge(w) then BlankEvent()
    else h[RING * (lap - 1) + i]
  }

  ghost predicate Holds(s: Ring, h: seq<Event>) {
    s.Valid() && s.w == Cursor(|h|) && forall i :: 0 <= i < RING ==> s.slots[i] == SlotOf(h, i)
  }

  /** The position in the history of the oldest record still in the ring. */
  function Oldest(n: nat): (j: nat)
    ensures j <= n
  {
    if Lap(n) == 0 then 0 else RING * (Lap(n) - 1) + Edge(Cursor(n))
  }

  lemma NextCursor(n: nat)
    ensures Cursor(n + 1) == NextSlot(Cursor(n))
    ensures Lap(n + 1) == if Cursor(n) < MAX_EVENTS then Lap(n) else Lap(n) + 1
  {
  }

  lemma EdgeMoves(w: nat)
    requires w < RING
    ensures w % PER_SECTOR != 0 ==> w < Edge(w)
    ensures w < MAX_EVENTS && w % PER_SECTOR != 0 ==> Edge(w + 1) == if (w + 1) % PER_SECTOR == 0 then w + 1 else Edge(w)
    ensures w < MAX_EVENTS && (w + 1) % PER_SECTOR == 0 && w % PER_SECTOR != 0 ==> Edge(w) == w + 1
    ensures w < MAX_EVENTS && w % PER_SECTOR == 0 ==> Edge(w + 1) == if w + PER_SECTOR <= RING then w + PER_SECTOR else RING
    ensures w == MAX_EVENTS ==> Edge(w) == RING && w % PER_SECTOR != 0
  {
  }

  /** Every record is written to an erased slot, so it is stored as it is. */
  lemma WritesErasedSlot(s: Ring, h: seq<Event>, e: Event)
    requires Holds(s, h)
    ensures Ready(s).slots[s.w] == BlankEvent()
    ensures Logged(s, e).slots[s.w] == e
  {
    hide And;
    assert s.slots[s.w] == SlotOf(h, s.w);
    EdgeMoves(s.w);
    assert Cleared(BlankEvent(), e) == e;
  }

  lemma SlotOfNextInLap(h: seq<Event>, e: Event, i: nat)
    requires i < RING && Cursor(|h|) < MAX_EVENTS
    ensures var w := Cursor(|h|);
            SlotOf(h + [e], i) == if i == w then e else ErasedOr(w % PER_SECTOR == 0 && w <= i < w + PER_SECTOR, SlotOf(h, i))
  {
    hide Edge;
    NextCursor(|h|);
    EdgeMoves(Cursor(|h|));
  }

  lemma SlotOfNextLap(h: seq<Event>, e: Event, i: nat)
    requires i < RING && Cursor(|h|) == MAX_EVENTS
    ensures SlotOf(h + [e], i) == if i == MAX_EVENTS then e else SlotOf(h, i)
  {
    NextCursor(|h|);
  }

  /** One more record changes its own slot, and blanks the sector it enters. */
  lemma SlotOfNext(h: seq<Event>, e: Event, i: nat)
    requires i < RING
    ensures var w := Cursor(|h|);
            SlotOf(h + [e], i) == if i == w then e else ErasedOr(w % PER_SECTOR == 0 && w <= i < w + PER_SECTOR, SlotOf(h, i))
  {
    hide SlotOf;
    if Cursor(|h|) < MAX_EVENTS {
      SlotOfNextInLap(h, e, i);
    } else {
      SlotOfNextLap(h, e, i);
    }
  }

  lemma LoggedOther(s: Ring, e: Event, i: nat)
    requires s.Valid() && i < RING && i != s.w
    ensures Logged(s, e).slots[i] == ErasedOr(s.w % PER_SECTOR == 0 && s.w <= i < s.w + PER_SECTOR, s.slots[i])
  {
    hide Cleared;
  }

  lemma LoggedSlot(s: Ring, h: seq<Event>, e: Event, i: nat)
    requires Holds(s, h) && i < RING
    ensures Logged(s, e).slots[i] == SlotOf(h + [e], i)
  {
    hide Logged, SlotOf, Ready, ErasedOr;
    WritesErasedSlot(s, h, e);
    SlotOfNext(h, e, i);
    assert s.slots[i] == SlotOf(h, i);
    if i != s.w {
      LoggedOther(s, e, i);
    }
  }

  lemma LogKeepsHistory(s: Ring, h: seq<Event>, e: Event)
    requires Holds(s, h)
    ensures Holds(Logged(s, e), h + [e])
  {
    NextCursor(|h|);
    hide Logged, SlotOf;
    forall i | 0 <= i < RING ensures Logged(s, e).slots[i] == SlotOf(h + [e], i) {
      LoggedSlot(s, h, e, i);
    }
    CursorAfter(s, e);
  }

  lemma CursorAfter(s: Ring, e: Event)
    requires s.Valid()
    ensures Logged(s, e).w == NextSlot(s.w)
  {
  }

  /** The last position at or before the end of a history of `n` records that falls on a slot; negative if there is none. */
  function LastAt(n: nat, i: nat): (j: int)
    requires i < RING
    ensures j < n
  {
    if i < Cursor(n) then RING * Lap(n) + i else RING * (Lap(n) - 1) + i
  }

  lemma SlotOfPosition(n: nat, j: nat)
    requires j < n <= j + RING
    ensures LastAt(n, Cursor(j)) == j
  {
  }

  /** A slot holds the last record that fell on it, unless that record is older than the oldest one kept. */
  lemma SlotIsLast(s: Ring, h: seq<Event>, i: nat)
    requires Holds(s, h) && i < RING
    ensures s.slots[i] == if LastAt(|h|, i) >= Oldest(|h|) then h[LastAt(|h|, i)] else BlankEvent()
  {
    assert s.slots[i] == SlotOf(h, i);
  }

  /** The ring holds every record of the history from the oldest one kept to the newest. */
  lemma SuffixHeld(s: Ring, h: seq<Event>, j: nat)
    requires Holds(s, h) && Oldest(|h|) <= j < |h|
    ensures s.slots[Cursor(j)] == h[j]
  {
    OldestInLap(|h|);
    SlotOfPosition(|h|, j);
    SlotIsLast(s, h, Cursor(j));
  }

  lemma OldestInLap(n: nat)
    ensures n <= Oldest(n) + RING
    ensures n < RING ==> Oldest(n) == 0
  {
  }

  /** Once the ring has been filled it keeps all but at most 2047 of its slots in use. */
  lemma EnoughHeld(n: nat)
    ensures n < RING ==> Oldest(n) == 0
    ensures n >= RING ==> n - Oldest(n) >= RING - (PER_SECTOR - 1)
  {
  }

  function ErasedRing(): (s: Ring)
    ensures s.Valid()
  {
    Ring(seq(RING, _ => BlankEvent()), 0)
  }

  function LogAll(s: Ring, es: seq<Event>): (t: Ring)
    requires s.Valid()
    ensures t.Valid()
  {
    if es == [] then s else Logged(LogAll(s, es[..|es| - 1]), es[|es| - 1])
  }

  /** Whatever is logged from an erased log, the ring stands for exactly that history. */
  lemma {:induction false} RunHolds(es: seq<Event>)
    ensures Holds(LogAll(ErasedRing(), es), es)
  {
    hide Logged;
    if es == [] {
      assert forall i :: 0 <= i < RING ==> ErasedRing().slots[i] == SlotOf([], i);
    } else {
      var p, e := es[..|es| - 1], es[|es| - 1];
      RunHolds(p);
      LogKeepsHistory(LogAll(ErasedRing(), p), p, e);
      assert p + [e] == es;
    }
  }

  // ---- acknowledgement ----

  /** A record with its pending mark cleared. */
  function Acked(e: Event): Event {
    e[SENT := 0]
  }

  /** Marking a slot that holds a record of the history marks that record. */
  lemma MarkKeepsHistory(s: Ring, h: seq<Event>, j: nat)
    requires Holds(s, h) && Oldest(|h|) <= j < |h|
    ensures s.slots[Cursor(j)] == h[j]
    ensures Holds(s.(slots := s.slots[Cursor(j) := Acked(h[j])]), h[j := Acked(h[j])])
  {
    SuffixHeld(s, h, j);
    OldestInLap(|h|);
    var h' := h[j := Acked(h[j])];
    hide Acked;
    forall i | 0 <= i < RING && i != Cursor(j) ensures SlotOf(h', i) == SlotOf(h, i) {
      OtherSlot(h, j, h'[j], i);
    }
    SlotOfPosition(|h|, j);
    assert SlotOf(h', Cursor(j)) == h'[j];
  }

  lemma OtherSlot(h: seq<Event>, j: nat, e: Event, i: nat)
    requires j < |h| && i < RING && i != Cursor(j)
    ensures SlotOf(h[j := e], i) == SlotOf(h, i)
  {
  }
}
