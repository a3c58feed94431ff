/**
 The user and task tables as values: an array of 128-byte slots that is only ever appended to. A record whose id is
 zero is deleted, and the first slot whose id is all ones ends the table. The tables differ in where the id sits and in
 how many bytes a deletion clears.
 */
module RecordTable {
  import opened NorFlash
  import opened S = SlotTable

  const RECORD := 128

  type Record = r: Bytes | |r| == RECORD witness Blank(RECORD)

  /** `full` is what the append loop answers when no slot is left. */
  datatype Layout = Layout(base: nat, slots: nat, idAt: nat, idLen: nat, clearLen: nat, full: int) {
    predicate Valid() {
      0 < idLen <= clearLen && idAt + clearLen <= RECORD && base % SECTOR == 0 && base + RECORD * slots <= CHIP_SIZE
      && 0 < slots < 0x1_0000 && full < 0
    }

    function Id(r: Record): (id: Bytes)
      requires Valid()
      ensures |id| == idLen
    {
      r[idAt..idAt + idLen]
    }

    function Zero(): Bytes {
      seq(idLen, _ => 0)
    }

    function Ones(): Bytes {
      Blank(idLen)
    }

    function Tombstone(r: Record): (q: Record)
      requires Valid()
      ensures Id(q) == Zero()
      ensures Cleared(r, q) == q
    {
      hide And;
      var q := r[..idAt] + seq(clearLen, _ => 0) + r[idAt + clearLen..];
      assert q[idAt..idAt + idLen] == Zero();
      assert Cleared(r, q) == q by {
        forall k | 0 <= k < RECORD ensures Cleared(r, q)[k] == q[k] {
          assert q[k] == 0 || q[k] == r[k];
        }
      }
      q
    }
  }

  const USERS := Layout(0x07_0000, 1500, 0, 4, 8, -2)
  const TASKS := Layout(0x0A_0000, 800, 48, 2, 2, -1)

  type Table = seq<Record>

  /** A record of id zero is a tombstone, and one whose id is all ones is past the end of the table. */
  function SlotOf(l: Layout, r: Record): Slot<Bytes, Record>
    requires l.Valid()
  {
    if l.Id(r) == l.Ones() then Free else if l.Id(r) == l.Zero() then Dead else Live(l.Id(r), r)
  }

  function Slots(l: Layout, t: Table): (s: seq<Slot<Bytes, Record>>)
    requires l.Valid()
    ensures |s| == |t|
  {
    seq(|t|, i requires 0 <= i < |t| => SlotOf(l, t[i]))
  }

  lemma ZeroIsNotOnes(l: Layout)
    requires l.Valid()
    ensures l.Zero() != l.Ones()
  {
    assert l.Zero()[0] != l.Ones()[0];
  }

  lemma BlankId(l: Layout)
    requires l.Valid()
    ensures l.Id(Blank(RECORD)) == l.Ones()
  {
  }

  lemma TombstoneIsDead(l: Layout, r: Record)
    requires l.Valid()
    ensures SlotOf(l, l.Tombstone(r)) == Dead
  {
    ZeroIsNotOnes(l);
  }

  /** A table with its number of used slots. */
  datatype Extent = Extent(table: Table, used: nat)

  /** The used slots come first, the others are erased, and no two live records share an id. */
  ghost predicate WellFormed(l: Layout, e: Extent)
    requires l.Valid()
  {
    && |e.table| == l.slots && S.WellFormed(Slots(l, e.table), e.used)
    && forall i :: e.used <= i < l.slots ==> e.table[i] == Blank(RECORD)
  }

  // ---- operations ----

  /** A table with the records of one id among its first `n` slots turned into tombstones. */
  function Dropped(l: Layout, t: Table, n: nat, id: Bytes): (d: Table)
    requires l.Valid() && n <= |t|
    ensures |d| == |t|
  {
    seq(|t|, i requires 0 <= i < |t| => if i < n && l.Id(t[i]) == id then l.Tombstone(t[i]) else t[i])
  }

  /** The index of the first slot that holds an id, if one of the first `n` does, and `n` if not. */
  function FirstOf(l: Layout, t: Table, n: nat, id: Bytes): (i: nat)
    requires l.Valid() && n <= |t|
    ensures i <= n
    ensures i < n ==> l.Id(t[i]) == id
    ensures forall j :: 0 <= j < i ==> l.Id(t[j]) != id
  {
    if n == 0 then 0
    else
      var i := FirstOf(l, t, n - 1, id);
      if i < n - 1 || l.Id(t[n - 1]) == id then i else n
  }

  /** The first slot whose id is all ones. */
  function EndOf(l: Layout, t: Table): (n: nat)
    requires l.Valid()
    ensures n <= |t|
  {
    FirstOf(l, t, |t|, l.Ones())
  }

  lemma EndIsUsed(l: Layout, e: Extent)
    requires l.Valid() && WellFormed(l, e)
    ensures EndOf(l, e.table) == e.used
  {
    BlankId(l);
    hide Layout.Tombstone, Layout.Id, Layout.Zero, Layout.Ones;
    assert e.used < l.slots ==> l.Id(e.table[e.used]) == l.Ones();
    forall i | 0 <= i < e.used ensures l.Id(e.table[i]) != l.Ones() {
      assert !Slots(l, e.table)[i].Free?;
    }
  }

  /** How far the append loop scans: it stops at the terminator unless the terminator is what it looks for. */
  function Scanned(l: Layout, e: Extent, id: Bytes): nat {
    if id == l.Ones() then |e.table| else e.used
  }

  datatype Op = Store(record: Record) | Delete(id: Bytes)

  /**
   Storing a record drops its id and then takes the slot the scan ended on, if there is one. Deleting turns the first
   record of the id into a tombstone.
   */
  function Step(l: Layout, e: Extent, op: Op): (e': Extent)
    requires l.Valid() && e.used <= |e.table|
    ensures e'.used <= |e'.table| == |e.table|
  {
    match op
    case Store(r) =>
      var n := Scanned(l, e, l.Id(r));
      var d := Dropped(l, e.table, n, l.Id(r));
      if n < |d| then Extent(d[n := r], n + 1) else Extent(d, n)
    case Delete(id) =>
      var i := FirstOf(l, e.table, |e.table|, id);
      if i == |e.table| then e
      else Extent(e.table[i := l.Tombstone(e.table[i])], if i < e.used then e.used else i + 1)
  }

  // ---- the map the table refines ----

  datatype Abstract = Abstract(records: map<Bytes, Record>, used: nat)

  /**
   A map that counts the slots it has used up. Storing when full loses the old record. A record with id zero takes a
   slot and is not found again; the all-ones id takes every slot when stored, and one slot when deleted.
   */
  function AbstractStep(l: Layout, a: Abstract, op: Op): Abstract
    requires l.Valid()
  {
    match op
    case Store(r) =>
      var id := l.Id(r);
      if id == l.Ones() then Abstract(a.records, l.slots)
      else if a.used >= l.slots then Abstract(a.records - {id}, a.used)
      else Abstract(if id == l.Zero() then a.records else a.records[id := r], a.used + 1)
    case Delete(id) =>
      if id == l.Ones() then Abstract(a.records, if a.used < l.slots then a.used + 1 else a.used)
      else Abstract(a.records - {id}, a.used)
  }

  /** What a table stands for: its live records, by id. */
  ghost function Meaning(l: Layout, e: Extent): Abstract
    requires l.Valid() && WellFormed(l, e)
  {
    Abstract(S.Contents(Slots(l, e.table)), e.used)
  }

  ghost predicate StepRefines(l: Layout, e: Extent, op: Op)
    requires l.Valid() && WellFormed(l, e)
  {
    WellFormed(l, Step(l, e, op)) && Meaning(l, Step(l, e, op)) == AbstractStep(l, Meaning(l, e), op)
  }

  lemma DroppedSlots(l: Layout, e: Extent, id: Bytes)
    requires l.Valid() && WellFormed(l, e) && id != l.Ones()
    ensures var d := Dropped(l, e.table, e.used, id); Slots(l, d) == S.Dropped(Slots(l, e.table), id)
  {
    var t := e.table;
    var d := Dropped(l, t, e.used, id);
    ZeroIsNotOnes(l);
    hide Layout.Tombstone, Layout.Id, Layout.Zero, Layout.Ones;
    forall i | 0 <= i < |t| ensures SlotOf(l, d[i]) == S.Dropped(Slots(l, t), id)[i] {
      TombstoneIsDead(l, t[i]);
      assert SlotOf(l, t[i]) == Slots(l, t)[i];
    }
  }

  lemma Missing<K, R>(m: map<K, R>, k: K)
    requires k !in m
    ensures m - {k} == m
  {
  }

  lemma ZeroNotStored(l: Layout, e: Extent)
    requires l.Valid() && WellFormed(l, e)
    ensures |e.table| == l.slots && Meaning(l, e).used == e.used
    ensures l.Zero() !in Meaning(l, e).records && l.Ones() !in Meaning(l, e).records
  {
  }

  lemma DropStep(l: Layout, e: Extent, id: Bytes)
    requires l.Valid() && WellFormed(l, e) && id != l.Ones()
    ensures var d := Extent(Dropped(l, e.table, e.used, id), e.used);
            WellFormed(l, d) && Meaning(l, d) == Abstract(Meaning(l, e).records - {id}, e.used)
  {
    hide Layout.Tombstone, Layout.Id, Layout.Zero, Layout.Ones, S.WellFormed, S.Contents, S.Dropped;
    DroppedSlots(l, e, id);
    DropTakesOut(Slots(l, e.table), e.used, id);
  }

  lemma StoreStep(l: Layout, e: Extent, r: Record)
    requires l.Valid() && WellFormed(l, e) && l.Id(r) != l.Ones()
    ensures StepRefines(l, e, Store(r))
  {
    hide Layout.Tombstone, Layout.Id, Layout.Zero, Layout.Ones, WellFormed, Meaning, Dropped;
    var id := l.Id(r);
    ZeroNotStored(l, e);
    DropStep(l, e, id);
    var m := Meaning(l, e).records;
    if e.used < l.slots {
      AppendStep(l, Extent(Dropped(l, e.table, e.used, id), e.used), r);
      if id == l.Zero() {
        Missing(m, id);
      } else {
        Replaced(m, id, r);
      }
    }
  }

  lemma Replaced<K, R>(m: map<K, R>, k: K, r: R)
    ensures (m - {k})[k := r] == m[k := r]
  {
  }

  lemma AppendStep(l: Layout, e: Extent, r: Record)
    requires l.Valid() && WellFormed(l, e) && e.used < l.slots
    requires l.Id(r) != l.Ones() && l.Id(r) !in Meaning(l, e).records
    ensures var a := Extent(e.table[e.used := r], e.used + 1);
            && WellFormed(l, a)
            && Meaning(l, a).used == e.used + 1
            && Meaning(l, a).records == if l.Id(r) == l.Zero() then Meaning(l, e).records else Meaning(l, e).records[l.Id(r) := r]
  {
    hide Layout.Tombstone, Layout.Id, Layout.Zero, Layout.Ones, S.WellFormed, S.Contents;
    assert Slots(l, e.table[e.used := r]) == Slots(l, e.table)[e.used := SlotOf(l, r)];
    if l.Id(r) == l.Zero() {
      OneBurnt(Slots(l, e.table), e.used);
    } else {
      AppendPutsIn(Slots(l, e.table), e.used, l.Id(r), r);
    }
  }

  lemma OneBurnt<K(!new), R>(s: seq<Slot<K, R>>, used: nat)
    requires S.WellFormed(s, used) && used < |s|
    ensures S.WellFormed(s[used := Dead], used + 1) && S.Contents(s[used := Dead]) == S.Contents(s)
  {
    Burn(s, used, s[used := Dead], used + 1);
  }

  lemma StoreOnesStep(l: Layout, e: Extent, r: Record)
    requires l.Valid() && WellFormed(l, e) && l.Id(r) == l.Ones()
    ensures StepRefines(l, e, Store(r))
  {
    var t := e.table;
    var d := Dropped(l, t, |t|, l.Ones());
    BlankId(l);
    hide Layout.Tombstone, Layout.Id, Layout.Zero, Layout.Ones;
    forall i | 0 <= i < |t| ensures SlotOf(l, d[i]) == if e.used <= i then Dead else Slots(l, t)[i] {
      TombstoneIsDead(l, t[i]);
      assert SlotOf(l, t[i]) == Slots(l, t)[i];
    }
    Burn(Slots(l, t), e.used, Slots(l, d), |t|);
  }

  lemma DeleteStep(l: Layout, e: Extent, id: Bytes)
    requires l.Valid() && WellFormed(l, e) && id != l.Ones()
    ensures StepRefines(l, e, Delete(id))
  {
    var t, s := e.table, Slots(l, e.table);
    var i := FirstOf(l, t, |t|, id);
    ZeroNotStored(l, e);
    if i == |t| {
      assert id !in S.Contents(s);
      Missing(S.Contents(s), id);
    } else {
      BlankId(l);
      assert i < e.used;
      TombstoneIsDead(l, t[i]);
      var d := t[i := l.Tombstone(t[i])];
      hide Layout.Tombstone, Layout.Id, Layout.Zero, Layout.Ones;
      assert Slots(l, d) == s[i := Dead];
      OneDropped(l, e, i);
      DropTakesOut(s, e.used, id);
    }
  }

  lemma OneDropped(l: Layout, e: Extent, i: nat)
    requires l.Valid() && WellFormed(l, e) && i < e.used
    ensures Slots(l, e.table)[i := Dead] == S.Dropped(Slots(l, e.table), l.Id(e.table[i]))
  {
    hide Layout.Tombstone, Layout.Id, Layout.Zero, Layout.Ones;
    assert Slots(l, e.table)[i] == SlotOf(l, e.table[i]);
  }

  lemma DeleteOnesStep(l: Layout, e: Extent)
    requires l.Valid() && WellFormed(l, e)
    ensures StepRefines(l, e, Delete(l.Ones()))
  {
    var t := e.table;
    hide Layout.Tombstone, Layout.Id, Layout.Zero, Layout.Ones, S.WellFormed, S.Contents;
    var i := EndOf(l, t);
    EndIsUsed(l, e);
    if i < |t| {
      TombstoneIsDead(l, t[i]);
      assert Slots(l, t[i := l.Tombstone(t[i])]) == Slots(l, t)[i := Dead];
      OneBurnt(Slots(l, t), i);
    }
  }

  lemma StepKeeps(l: Layout, e: Extent, op: Op)
    requires l.Valid() && WellFormed(l, e)
    ensures StepRefines(l, e, op)
  {
    hide WellFormed, StepRefines;
    match op {
      case Store(r) => if l.Id(r) == l.Ones() { StoreOnesStep(l, e, r); } else { StoreStep(l, e, r); }
      case Delete(id) => if id == l.Ones() { DeleteOnesStep(l, e); } else { DeleteStep(l, e, id); }
    }
  }

  // ---- runs ----

  function Run(l: Layout, e: Extent, ops: seq<Op>): (e': Extent)
    requires l.Valid() && e.used <= |e.table|
    decreases |ops|
  {
    if ops == [] then e else Run(l, Step(l, e, ops[0]), ops[1..])
  }

  function AbstractRun(l: Layout, a: Abstract, ops: seq<Op>): Abstract
    requires l.Valid()
    decreases |ops|
  {
    if ops == [] then a else AbstractRun(l, AbstractStep(l, a, ops[0]), ops[1..])
  }

  /** Over every run from a well-formed table, whatever the ids, the table stays well formed and follows the map. */
  lemma {:induction false} RunRefines(l: Layout, e: Extent, ops: seq<Op>)
    requires l.Valid() && WellFormed(l, e)
    ensures WellFormed(l, Run(l, e, ops)) && Meaning(l, Run(l, e, ops)) == AbstractRun(l, Meaning(l, e), ops)
    decreases |ops|
  {
    if ops != [] {
      StepKeeps(l, e, ops[0]);
      hide WellFormed, Meaning, Step, AbstractStep;
      RunRefines(l, Step(l, e, ops[0]), ops[1..]);
    }
  }

  /** An erased table is well formed and stands for the empty map. */
  lemma ErasedTable(l: Layout, t: Table)
    requires l.Valid() && |t| == l.slots && forall i :: 0 <= i < |t| ==> t[i] == Blank(RECORD)
    ensures WellFormed(l, Extent(t, 0)) && Meaning(l, Extent(t, 0)) == Abstract(map[], 0)
  {
    BlankId(l);
    hide Layout.Id, Layout.Zero, Layout.Ones;
    assert S.Contents(Slots(l, t)) == map[];
  }

  lemma FirstOfPrefix(l: Layout, t: Table, n: nat, id: Bytes)
    requires l.Valid() && n <= |t|
    ensures var f := FirstOf(l, t, |t|, id); FirstOf(l, t, n, id) == if f < n then f else n
  {
  }

  /**
   The first match before the end of the table is the record the map holds for that id. The id zero finds tombstones and
   the all-ones id finds nothing there, and the map holds neither.
   */
  lemma LookupIsMap(l: Layout, e: Extent, id: Bytes)
    requires l.Valid() && WellFormed(l, e)
    ensures var i := FirstOf(l, e.table, e.used, id);
            var m := Meaning(l, e).records;
            if id == l.Zero() then id !in m && (i < e.used ==> SlotOf(l, e.table[i]) == Dead)
            else if i < e.used then id in m && m[id] == e.table[i] else id !in m
    ensures id == l.Ones() ==> FirstOf(l, e.table, e.used, id) == e.used
  {
    var i := FirstOf(l, e.table, e.used, id);
    var s := Slots(l, e.table);
    ZeroIsNotOnes(l);
    hide Layout.Id, Layout.Zero, Layout.Ones;
    assert forall j :: 0 <= j < |s| ==> s[j] == SlotOf(l, e.table[j]);
    assert i < e.used ==> !s[i].Free?;
    if id != l.Zero() && i < e.used {
      assert s[i] == Live(id, e.table[i]);
      InContents(s, e.used, i);
    } else {
      NotInContents(s, id);
    }
  }

  /** What the loop that stops at the end of the table finds. */
  lemma FoundIsMap(l: Layout, e: Extent, id: Bytes)
    requires l.Valid() && WellFormed(l, e) && id != l.Zero() && id != l.Ones()
    ensures var i := FirstOf(l, e.table, l.slots, id); var m := Meaning(l, e).records;
            && (i < l.slots <==> id in m) && (i < l.slots ==> i < e.used && m[id] == e.table[i])
  {
    LookupIsMap(l, e, id);
    FirstOfPrefix(l, e.table, e.used, id);
    BlankId(l);
    hide Layout.Id, Layout.Zero, Layout.Ones, FirstOf;
    NotAfterEnd(l, e, id);
  }

  lemma NotAfterEnd(l: Layout, e: Extent, id: Bytes)
    requires l.Valid() && WellFormed(l, e) && id != l.Ones()
    ensures var i := FirstOf(l, e.table, l.slots, id); i < e.used || i == l.slots
  {
    BlankId(l);
    hide Layout.Id, Layout.Zero, Layout.Ones;
  }

  lemma InContents<K, R>(s: seq<Slot<K, R>>, used: nat, i: nat)
    requires S.WellFormed(s, used) && i < |s| && s[i].Live?
    ensures s[i].id in S.Contents(s) && S.Contents(s)[s[i].id] == s[i].record
  {
  }

  lemma NotInContents<K, R>(s: seq<Slot<K, R>>, id: K)
    requires forall i, j :: 0 <= i < j < |s| && s[i].Live? && s[j].Live? ==> s[i].id != s[j].id
    requires forall j :: 0 <= j < |s| && s[j].Live? ==> s[j].id != id
    ensures id !in S.Contents(s)
  {
  }

  // ---- what a deletion leaves ----

  /** A tombstone is the record with zeros in its cleared bytes and nothing else changed. */
  lemma TombstoneClears(l: Layout, r: Record, k: nat)
    requires l.Valid() && k < RECORD
    ensures l.Tombstone(r)[k] == if l.idAt <= k < l.idAt + l.clearLen then 0 else r[k]
  {
  }

  predicate ClearedBytes(l: Layout, r: Record)
    requires l.Valid()
  {
    r[l.idAt..l.idAt + l.clearLen] == seq(l.clearLen, _ => 0)
  }

  /** Every record of id zero has zeros in all the bytes a deletion clears. */
  predicate AllCleared(l: Layout, t: Table)
    requires l.Valid()
  {
    forall i :: 0 <= i < |t| && l.Id(t[i]) == l.Zero() ==> ClearedBytes(l, t[i])
  }

  lemma TombstoneCleared(l: Layout, r: Record)
    requires l.Valid()
    ensures ClearedBytes(l, l.Tombstone(r))
  {
    var q := l.Tombstone(r);
    hide Layout.Tombstone;
    var cleared := q[l.idAt..l.idAt + l.clearLen];
    forall k | 0 <= k < l.clearLen ensures cleared[k] == 0 {
      TombstoneClears(l, r, l.idAt + k);
    }
  }

  /** No record is stored under the id zero. */
  predicate StoresLive(l: Layout, op: Op)
    requires l.Valid()
  {
    op.Store? ==> l.Id(op.record) != l.Zero()
  }

  lemma StepKeepsCleared(l: Layout, e: Extent, op: Op)
    requires l.Valid() && e.used <= |e.table| && AllCleared(l, e.table) && StoresLive(l, op)
    ensures AllCleared(l, Step(l, e, op).table)
  {
    hide Layout.Tombstone, Layout.Id, Layout.Zero, Layout.Ones, ClearedBytes, FirstOf;
    var t := Step(l, e, op).table;
    forall i | 0 <= i < |t| && l.Id(t[i]) == l.Zero() ensures ClearedBytes(l, t[i]) {
      TombstoneCleared(l, e.table[i]);
    }
  }

  /** Over every run from a table without such records, stores under the id zero apart, deletions leave nothing behind. */
  lemma {:induction false} RunKeepsCleared(l: Layout, e: Extent, ops: seq<Op>)
    requires l.Valid() && e.used <= |e.table| && AllCleared(l, e.table)
    requires forall i :: 0 <= i < |ops| ==> StoresLive(l, ops[i])
    ensures AllCleared(l, Run(l, e, ops).table)
    decreases |ops|
  {
    hide AllCleared, StoresLive, Step;
    if ops != [] {
      StepKeepsCleared(l, e, ops[0]);
      RunKeepsCleared(l, Step(l, e, ops[0]), ops[1..]);
    }
  }

  lemma ErasedIsCleared(l: Layout, t: Table)
    requires l.Valid() && forall i :: 0 <= i < |t| ==> t[i] == Blank(RECORD)
    ensures AllCleared(l, t)
  {
    BlankId(l);
    ZeroIsNotOnes(l);
    hide Layout.Id, Layout.Zero, Layout.Ones;
  }

  // ---- card numbers ----

  function CardOf(r: Record): (c: Bytes)
    ensures |c| == 4
  {
    r[4..8]
  }

  const NO_CARD: Bytes := [0, 0, 0, 0]

  lemma ClearedCard(r: Record)
    requires ClearedBytes(USERS, r)
    ensures CardOf(r) == NO_CARD
  {
    assert r[4..8] == r[0..8][4..8];
  }

  /** A card number other than zero stands only in live user records and after the end of the table. */
  lemma CardIsLive(e: Extent, i: nat)
    requires WellFormed(USERS, e) && AllCleared(USERS, e.table) && i < e.used && CardOf(e.table[i]) != NO_CARD
    ensures SlotOf(USERS, e.table[i]) == Live(USERS.Id(e.table[i]), e.table[i])
    ensures var m := Meaning(USERS, e).records; USERS.Id(e.table[i]) in m && m[USERS.Id(e.table[i])] == e.table[i]
  {
    var r := e.table[i];
    if USERS.Id(r) == USERS.Zero() {
      ClearedCard(r);
      assert false;
    }
    var s := Slots(USERS, e.table);
    hide Layout.Id, Layout.Zero, Layout.Ones, S.Contents;
    assert !s[i].Free?;
    assert s[i] == SlotOf(USERS, r) == Live(USERS.Id(r), r);
    InContents(s, e.used, i);
  }

  /** The first of the first `n` slots that holds a card number, and `n` if none does. */
  function FirstCard(t: Table, n: nat, card: Bytes): (i: nat)
    requires n <= |t|
    ensures i <= n && (i < n ==> CardOf(t[i]) == card)
    ensures forall j :: 0 <= j < i ==> CardOf(t[j]) != card
  {
    if n == 0 then 0
    else
      var i := FirstCard(t, n - 1, card);
      if i < n - 1 || CardOf(t[n - 1]) == card then i else n
  }
}
