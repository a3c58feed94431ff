/**
 The event log in flash with its two cursors, and the loops and steps of the firmware over it.
 */
module EventLog {
  import opened NorFlash
  import opened EventRing
  import opened EventDelivery
  import opened EventReboot
  import Checksum

  const EVENT_BLOCK := 0x0E_0000

  function EventAt(i: nat): nat {
    EVENT_BLOCK + EVENT * i
  }

  function RingIn(cells: Bytes): (s: seq<Event>)
    requires |cells| == CHIP_SIZE
    ensures |s| == RING
  {
    seq(RING, i requires 0 <= i < RING => cells[EventAt(i)..EventAt(i) + EVENT])
  }

  /** Nothing outside the sectors of the ring has changed. */
  predicate OnlyEvents(before: Bytes, after: Bytes)
    requires |before| == |after| == CHIP_SIZE
  {
    after[..EVENT_BLOCK] == before[..EVENT_BLOCK] && after[EventAt(14 * PER_SECTOR)..] == before[EventAt(14 * PER_SECTOR)..]
  }

  lemma OnlyEventsTrans(a: Bytes, b: Bytes, c: Bytes)
    requires |a| == |b| == |c| == CHIP_SIZE && OnlyEvents(a, b) && OnlyEvents(b, c)
    ensures OnlyEvents(a, c)
  {
  }

  lemma ProgramOtherEvent(cells: Bytes, i: nat, e: Event, j: nat)
    requires |cells| == CHIP_SIZE && i < RING && j < RING
    ensures var at, b := EventAt(i), EventAt(j);
            Programmed(cells, at, e)[b..b + EVENT] == if j == i then Cleared(cells[at..at + EVENT], e) else cells[b..b + EVENT]
  {
    hide And, Cleared;
    var at, b := EventAt(i), EventAt(j);
    if j != i {
      assert b + EVENT <= at || at + EVENT <= b;
    }
  }

  lemma EventInPage(i: nat)
    requires i < RING
    ensures EVENT_BLOCK <= EventAt(i) && EventAt(i) + EVENT <= EventAt(14 * PER_SECTOR) <= CHIP_SIZE
    ensures WithinPage(EventAt(i), EVENT)
  {
    assert EventAt(i) == PAGE * (EVENT_BLOCK / PAGE + i / 8) + EVENT * (i % 8);
  }

  lemma OnlyThatEvent(cells: Bytes, i: nat, e: Event)
    requires |cells| == CHIP_SIZE && i < RING
    ensures EventAt(i) + EVENT <= CHIP_SIZE && |Programmed(cells, EventAt(i), e)| == CHIP_SIZE
    ensures OnlyEvents(cells, Programmed(cells, EventAt(i), e))
  {
    hide Cleared, WithinPage;
    EventInPage(i);
  }

  lemma ProgramEvent(cells: Bytes, i: nat, e: Event)
    requires |cells| == CHIP_SIZE && i < RING
    ensures EventAt(i) + EVENT <= CHIP_SIZE && WithinPage(EventAt(i), EVENT)
    ensures var after := Programmed(cells, EventAt(i), e);
            && |after| == CHIP_SIZE && OnlyEvents(cells, after)
            && RingIn(after) == RingIn(cells)[i := Cleared(RingIn(cells)[i], e)]
  {
    hide Cleared, WithinPage, Programmed, OnlyEvents;
    EventInPage(i);
    OnlyThatEvent(cells, i, e);
    var after, c := Programmed(cells, EventAt(i), e), Cleared(RingIn(cells)[i], e);
    forall j | 0 <= j < RING ensures RingIn(after)[j] == if j == i then c else RingIn(cells)[j] {
      ProgramOtherEvent(cells, i, e, j);
    }
  }

  lemma SectorOfSlot(w: nat)
    requires w < RING && w % PER_SECTOR == 0
    ensures EventAt(w) + SECTOR <= EventAt(14 * PER_SECTOR) <= CHIP_SIZE && EventAt(w) % SECTOR == 0
  {
    var k := w / PER_SECTOR;
    assert w == PER_SECTOR * k && k <= 13;
    assert EventAt(w) == SECTOR * (14 + k);
  }

  lemma EraseOneEvent(cells: Bytes, w: nat, j: nat)
    requires |cells| == CHIP_SIZE && w < RING && w % PER_SECTOR == 0 && j < RING
    ensures EventAt(w) < CHIP_SIZE && EventAt(j) + EVENT <= CHIP_SIZE
    ensures var after, b := SectorErased(cells, EventAt(w)), EventAt(j);
            && |after| == CHIP_SIZE
            && after[b..b + EVENT] == ErasedOr(w <= j < w + PER_SECTOR, cells[b..b + EVENT])
  {
    hide SectorErased;
    SectorOfSlot(w);
    ErasedRange(cells, EventAt(w), EventAt(j), EVENT);
  }

  /** Erasing the sector that starts at a slot blanks the slots of that sector. */
  lemma EraseEvents(cells: Bytes, w: nat)
    requires |cells| == CHIP_SIZE && w < RING && w % PER_SECTOR == 0
    ensures EventAt(w) < CHIP_SIZE && EventAt(w) % SECTOR == 0
    ensures var after := SectorErased(cells, EventAt(w));
            |after| == CHIP_SIZE && OnlyEvents(cells, after) && RingIn(after) == SectorBlank(RingIn(cells), w)
  {
    hide SectorErased, ErasedOr;
    SectorOfSlot(w);
    var after, top := SectorErased(cells, EventAt(w)), EventAt(14 * PER_SECTOR);
    ErasedRange(cells, EventAt(w), 0, EVENT_BLOCK);
    ErasedRange(cells, EventAt(w), top, CHIP_SIZE - top);
    assert after[..EVENT_BLOCK] == after[0..EVENT_BLOCK] && after[top..] == after[top..CHIP_SIZE];
    forall j | 0 <= j < RING ensures RingIn(after)[j] == SectorBlank(RingIn(cells), w)[j] {
      EraseOneEvent(cells, w, j);
    }
  }

  lemma SectorStart(w: nat)
    ensures EventAt(w) % SECTOR == 0 <==> w % PER_SECTOR == 0
  {
  }

  /** A record built over what the record in memory held before; the unused bytes stay. */
  function Built(e: Event, code: Bytes, key: Bytes, user: Bytes, ticks: Bytes, task: Bytes): (r: Event)
    requires |code| == |key| == |user| == |ticks| == 4 && |task| == 2
    ensures Fresh(r)
  {
    code + key + user + ticks + task + [0, 0xAA] + e[20..]
  }

  /** Marking the slot and moving the cursor is the acknowledgement. */
  lemma AcknowledgedNode(n: Node)
    requires n.Valid()
    ensures var s := n.ring.slots;
            Acknowledged(n) == Node(Ring(s[n.r := Cleared(s[n.r], Acked(s[n.r]))], n.ring.w), NextSlot(n.r), n.phase)
  {
    hide Cleared, Acked;
  }

  class EventLog {
    const flash: Flash
    const serial: Bytes
    var last: nat
    var check: nat
    var phase: Phase
    var event: Event

    constructor (flash: Flash, serial: Bytes)
      ensures this.flash == flash && this.serial == serial && last == check == 0 && phase == Idle
    {
      this.flash, this.serial, last, check, phase, event := flash, serial, 0, 0, Idle, BlankEvent();
    }

    predicate Valid()
      reads this, flash
    {
      flash.Valid() && last < RING && check < RING
    }

    function State(): (n: Node)
      requires Valid()
      reads this, flash
      ensures n.Valid()
    {
      Node(Ring(RingIn(flash.cells), last), check, phase)
    }

    method Read(i: nat)
      requires flash.Valid() && i < RING
      modifies this`event
      ensures event == RingIn(flash.cells)[i]
    {
      event := flash.ReadBytes(EVENT_BLOCK + EVENT * i, EVENT);
    }

    method Write(i: nat)
      requires flash.Valid() && i < RING
      modifies flash`cells
      ensures flash.Valid() && OnlyEvents(old(flash.cells), flash.cells)
      ensures RingIn(flash.cells) == old(RingIn(flash.cells))[i := Cleared(old(RingIn(flash.cells)[i]), event)]
    {
      ProgramEvent(flash.cells, i, event);
      var ok := flash.WrBytes(EVENT_BLOCK + EVENT * i, event);
    }

    method EnterSector()
      requires Valid()
      modifies flash
      ensures Valid() && OnlyEvents(old(flash.cells), flash.cells)
      ensures Ring(RingIn(flash.cells), last) == Ready(Ring(old(RingIn(flash.cells)), last))
    {
      var block := EVENT_BLOCK + EVENT * last;
      SectorStart(last);
      hide RingIn, SectorBlank, SectorErased;
      if block % SECTOR == 0 {
        EraseEvents(flash.cells, last);
        flash.SectorErase(block);
      }
    }

    /** Logs one event at the write cursor and moves the cursor on. */
    method LogEvent(code: Bytes, key: Bytes, user: Bytes, ticks: Bytes, task: Bytes)
      requires Valid() && |code| == |key| == |user| == |ticks| == 4 && |task| == 2
      modifies this`event, this`last, flash
      ensures Valid() && OnlyEvents(old(flash.cells), flash.cells)
      ensures State() == Step(old(State()), serial, Log(Built(old(event), code, key, user, ticks, task)))
    {
      hide RingIn, Cleared, Ready, OnlyEvents;
      EnterSector();
      ghost var middle := flash.cells;
      event := Built(event, code, key, user, ticks, task);
      Write(last);
      OnlyEventsTrans(old(flash.cells), middle, flash.cells);
      Read(last);
      if last < MAX_EVENTS {
        last := last + 1;
      } else {
        last := 0;
      }
    }

    /** The two scans of a restart. */
    method InitEvents()
      requires flash.Valid()
      modifies this`event, this`last, this`check
      ensures Valid()
      ensures last == WriteFound(RingIn(flash.cells), 0)
      ensures check == ReadFound(RingIn(flash.cells), MAX_EVENTS, last)
    {
      ghost var slots := RingIn(flash.cells);
      hide RingIn, Pending, Unsaved;
      var i := 0;
      last := 0;
      while i < MAX_EVENTS
        invariant 0 <= i <= MAX_EVENTS && last == 0
        invariant WriteFound(slots, 0) == WriteFound(slots, i)
      {
        Read(i);
        if Unsaved(event) {
          last := i;
          break;
        }
        i := i + 1;
      }
      check := last;
      ScanReads(slots);
    }

    method ScanReads(ghost slots: seq<Event>)
      requires flash.Valid() && slots == RingIn(flash.cells) && check == last < RING
      modifies this`event, this`check
      ensures check == ReadFound(slots, MAX_EVENTS, last) < RING
    {
      hide RingIn, Pending;
      var i, found := MAX_EVENTS, false;
      while i > 0
        invariant 0 <= i <= MAX_EVENTS
        invariant !found ==> check == last && ReadFound(slots, MAX_EVENTS, last) == ReadFound(slots, i, last)
        invariant found ==> check == i + 1 && i < MAX_EVENTS && ReadFound(slots, MAX_EVENTS, last) == RunStart(slots, i + 1)
      {
        Read(i);
        if Pending(event) {
          found := true;
          check := i;
        }
        if found && !Pending(event) {
          break;
        }
        i := i - 1;
      }
    }

    /** The idle step of the sender: start an exchange for a pending record, or pass a slot that is not pending. */
    method StateInit(ready: bool)
      requires Valid() && phase == Idle
      modifies this`event, this`check, this`phase
      ensures Valid() && State() == Step(old(State()), serial, Run(ready))
    {
      hide RingIn;
      if check != last {
        Read(check);
        if event[SENT] == 0xAA {
          if ready {
            phase := Connecting;
          }
        } else if check < MAX_EVENTS {
          check := check + 1;
        } else {
          check := 0;
        }
      }
    }

    /** A reply of the expected length ends the exchange, and acknowledges the record if all of it matches. */
    method Receive(buffer: Bytes)
      requires Valid() && phase == Receiving
      modifies this`event, this`check, this`phase, flash`cells
      ensures Valid() && State() == Step(old(State()), serial, Reply(buffer))
      ensures OnlyEvents(old(flash.cells), flash.cells)
    {
      if |buffer| == REPLY {
        CheckEventReceive(buffer);
      }
      phase := Closing;
    }

    method CheckEventReceive(buffer: Bytes)
      requires Valid() && |buffer| == REPLY
      modifies this`event, this`check, flash`cells
      ensures Valid() && OnlyEvents(old(flash.cells), flash.cells)
      ensures State() == if Acknowledges(buffer, serial, old(check)) then Acknowledged(old(State())) else old(State())
    {
      hide RingIn, Acknowledged, Checksum.Accepts;
      var id := (buffer[0] as nat) * 256 + buffer[1] as nat;
      if id != check {
        return;
      }
      if buffer[2..6] != serial {
        return;
      }
      if Checksum.Accepts(buffer[..8]) {
        MarkAndMove();
      }
    }

    /** Clears the mark of the record at the read cursor and moves the cursor on. */
    method MarkAndMove()
      requires Valid()
      modifies this`event, this`check, flash`cells
      ensures Valid() && OnlyEvents(old(flash.cells), flash.cells)
      ensures State() == Acknowledged(old(State()))
    {
      hide RingIn, Cleared, Acked, OnlyEvents, Acknowledged;
      AcknowledgedNode(State());
      Read(check);
      event := Acked(event);
      Write(check);
      if check < MAX_EVENTS {
        check := check + 1;
      } else {
        check := 0;
      }
    }
  }
}
