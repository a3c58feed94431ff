/**
 Custody of the keys: which key is out, who is recorded as holding it, and what is logged when a key leaves or comes
 back, in a user session, in an emergency, or without anyone being logged in.
 */
module Custody {
  import opened Options

  const MAX_KEYS := 16
  const HALF_WORD := 0x1_0000

  const KEY_TAKEN := 81
  const KEY_RETURNED := 82
  const UNAUTH_KEYREMOVED := 102
  const UNAUTH_KEYRETURNED := 103
  const ALARM_KEYTAKEN := 104
  const ERGY_KEY_TAKE := 105
  const ERGY_KEY_RETURN := 106
  const ALARM_KEYRETURNED := 108
  const HIGHSEC_REMOVAL := 110

  datatype Status = Open | Closed | NotFound

  /** The user recorded with a key, 16 bits wide, and the state of its lock. */
  datatype KeyRecord = KeyRecord(user: int, status: Status)

  datatype Event = Event(code: int, user: int, key: int) {
    predicate Removal() {
      code == KEY_TAKEN || code == HIGHSEC_REMOVAL || code == ERGY_KEY_TAKE || code == UNAUTH_KEYREMOVED
    }

    predicate Returning() {
      code == KEY_RETURNED || code == ERGY_KEY_RETURN || code == UNAUTH_KEYRETURNED
    }

    /** A removal by the user of a session. */
    predicate BySession() {
      code == KEY_TAKEN || code == HIGHSEC_REMOVAL
    }
  }

  /** Mode 0 is returning, 1 removing, 2 removing one key: the caller asks for that, or only one is to be had. */
  datatype Session = Session(user: int, mode: int)

  datatype State = State(keys: seq<KeyRecord>, marks: seq<int>, log: seq<Event>, session: Option<Session>) {
    predicate Valid() {
      |keys| == |marks| == MAX_KEYS
    }
  }

  /** What the scan without a user sees at one position. */
  datatype Sensor = Sensor(registered: bool, moved: bool, misplaced: bool, stillMoved: bool, back: bool)

  datatype Input =
    | Login(user: int, removing: bool, single: bool, wanted: seq<bool>, blanks: seq<bool>)
    | Logout
    | Take(k: nat, highSecurity: bool, blank: bool)
    | Return(k: nat, matches: bool)
    | ReturnMarked(k: nat, matches: bool)
    | EmergencyTake(user: int, k: nat, blank: bool)
    | EmergencyReturn(user: int, k: nat, matches: bool)
    | Scan(sensors: seq<Sensor>)

  /** What an input can be: positions exist, and user ids are unsigned words. */
  predicate Possible(input: Input) {
    match input
    case Login(user, _, _, wanted, blank) => 0 <= user && |wanted| == |blank| == MAX_KEYS
    case Logout => true
    case Take(k, _, _) => k < MAX_KEYS
    case Return(k, _) => k < MAX_KEYS
    case ReturnMarked(k, _) => k < MAX_KEYS
    case EmergencyTake(user, k, _) => 0 <= user && k < MAX_KEYS
    case EmergencyReturn(user, k, _) => 0 <= user && k < MAX_KEYS
    case Scan(sensors) => |sensors| == MAX_KEYS
  }

  // ---- what one step does ----

  function Updated(s: State, k: nat, user: int, status: Status, code: int, who: int): (t: State)
    requires s.Valid() && k < MAX_KEYS
    ensures t.Valid()
  {
    s.(keys := s.keys[k := KeyRecord(user % HALF_WORD, status)], log := s.log + [Event(code, who, k + 1)])
  }

  function Marked(s: State, k: nat, mark: int): (t: State)
    requires s.Valid() && k < MAX_KEYS
    ensures t.Valid()
  {
    s.(marks := s.marks[k := mark])
  }

  function MarkOf(r: KeyRecord, user: int, removing: bool, wanted: bool, blank: bool): int {
    if wanted && removing then (if r.status == Closed then 1 else if blank && r.user == user then 2 else 0)
    else if !removing && r.user == user && r.status == Open then 2
    else 0
  }

  function Marks(keys: seq<KeyRecord>, user: int, removing: bool, wanted: seq<bool>, blank: seq<bool>): (m: seq<int>)
    requires |keys| == |wanted| == |blank|
    ensures |m| == |keys|
  {
    seq(|keys|, i requires 0 <= i < |keys| => MarkOf(keys[i], user, removing, wanted[i], blank[i]))
  }

  /** How many of the keys marked are in their places. */
  function Ready(marks: seq<int>): (n: nat)
    ensures n <= |marks|
  {
    if marks == [] then 0 else Ready(marks[..|marks| - 1]) + if marks[|marks| - 1] == 1 then 1 else 0
  }

  lemma ReadyNext(marks: seq<int>, i: nat)
    requires i < |marks|
    ensures Ready(marks[..i + 1]) == Ready(marks[..i]) + if marks[i] == 1 then 1 else 0
  {
    assert marks[..i + 1][..i] == marks[..i];
  }

  function ModeOf(removing: bool, single: bool, marks: seq<int>): int {
    if !removing then 0 else if single || Ready(marks) == 1 then 2 else 1
  }

  /** One position of the scan. The check flag may still be set by a key before this one. */
  function Scanned(s: State, check: bool, i: nat, sensor: Sensor): (r: (State, bool))
    requires s.Valid() && i < MAX_KEYS
    ensures r.0.Valid()
  {
    var flag := check || (sensor.registered && sensor.moved);
    var key := s.keys[i];
    var a := if key.status == Open && sensor.misplaced then s.(log := s.log + [Event(ALARM_KEYRETURNED, 0, i + 1)]) else s;
    if flag && sensor.registered && key.status == Closed then
      (if sensor.stillMoved
       then a.(keys := a.keys[i := key.(status := Open)],
               log := a.log + [Event(UNAUTH_KEYREMOVED, 0, i + 1), Event(ALARM_KEYTAKEN, 0, i + 1)])
       else a, false)
    else if sensor.registered && key.status == Open && sensor.back then
      (a.(keys := a.keys[i := key.(status := Closed)], log := a.log + [Event(UNAUTH_KEYRETURNED, 0, i + 1)]), flag)
    else (a, flag)
  }

  function ScannedFrom(s: State, check: bool, i: nat, sensors: seq<Sensor>): (t: State)
    requires s.Valid() && i <= MAX_KEYS == |sensors|
    ensures t.Valid()
    decreases MAX_KEYS - i
  {
    if i == MAX_KEYS then s else var r := Scanned(s, check, i, sensors[i]); ScannedFrom(r.0, r.1, i + 1, sensors)
  }

  function Step(s: State, input: Input): (t: State)
    requires s.Valid() && Possible(input)
    ensures t.Valid()
  {
    match input
    case Login(user, removing, single, wanted, blank) =>
      if s.session.Some? then s
      else s.(marks := Marks(s.keys, user, removing, wanted, blank),
              session := Some(Session(user, ModeOf(removing, single, Marks(s.keys, user, removing, wanted, blank)))))
    case Logout => s.(session := None)
    case Take(k, highSecurity, blank) =>
      if s.session.Some? && s.session.value.mode != 0 && blank && s.keys[k].status == Closed then
        var u := s.session.value.user;
        var t := Marked(Updated(s, k, u, Open, if highSecurity then HIGHSEC_REMOVAL else KEY_TAKEN, u), k, 2);
        if s.session.value.mode == 2 then t.(session := None) else t
      else s
    case Return(k, matches) =>
      if s.session.Some? && s.keys[k].status == Open && s.keys[k].user == s.session.value.user && matches then
        Marked(Updated(s, k, s.session.value.user, Closed, KEY_RETURNED, s.session.value.user), k, 1)
      else s
    case ReturnMarked(k, matches) =>
      if s.session.Some? && s.session.value.mode == 0 && s.marks[k] == 2 && s.keys[k].user == s.session.value.user && matches then
        var u := s.session.value.user;
        Marked(Updated(s, k, u, Closed, KEY_RETURNED, u), k, 1).(session := Some(Session(u, 1)))
      else s
    case EmergencyTake(user, k, blank) =>
      if s.session.None? && blank && s.keys[k].status == Closed then Updated(s, k, user, Open, ERGY_KEY_TAKE, 0) else s
    case EmergencyReturn(user, k, matches) =>
      if s.session.None? && s.keys[k].status == Open && matches then Updated(s, k, user, Closed, ERGY_KEY_RETURN, 0) else s
    case Scan(sensors) => if s.session.None? then ScannedFrom(s, false, 0, sensors) else s
  }

  // ---- the history of one key ----

  /** The removals and returns logged for one key position. */
  function Moves(log: seq<Event>, key: int): (m: seq<Event>)
    ensures forall i :: 0 <= i < |m| ==> m[i].Removal() != m[i].Returning()
  {
    if log == [] then []
    else
      var e := log[|log| - 1];
      Moves(log[..|log| - 1], key) + if e.key == key && (e.Removal() || e.Returning()) then [e] else []
  }

  lemma MovesSnoc(log: seq<Event>, e: Event, key: int)
    ensures Moves(log + [e], key) == if e.key == key && (e.Removal() || e.Returning()) then Moves(log, key) + [e] else Moves(log, key)
  {
    assert (log + [e])[..|log|] == log;
  }

  /**
   The moves of a key since it was in state `first`: removals and returns alternate and end in its present state, and a
   session return after a session removal is by the user who took the key.
   */
  predicate Consistent(first: Status, moves: seq<Event>, now: KeyRecord) {
    && (forall i :: 0 <= i < |moves| - 1 ==> moves[i].Removal() != moves[i + 1].Removal())
    && (forall i :: 0 <= i < |moves| - 1 && moves[i].BySession() && moves[i + 1].code == KEY_RETURNED
          ==> moves[i + 1].user == moves[i].user % HALF_WORD)
    && (if moves == [] then now.status == first
        else
          && first == (if moves[0].Removal() then Closed else Open)
          && now.status == (if moves[|moves| - 1].Removal() then Open else Closed)
          && (moves[|moves| - 1].BySession() ==> now.user == moves[|moves| - 1].user % HALF_WORD))
  }

  /** Every key's log is consistent, and while returning a mark of 2 means the key is out with the session's user. */
  ghost predicate Invariant(first: seq<Status>, s: State) {
    && s.Valid() && |first| == MAX_KEYS
    && (forall k :: 0 <= k < MAX_KEYS ==> Consistent(first[k], Moves(s.log, k + 1), s.keys[k]))
    && (s.session.Some? && s.session.value.mode == 0 ==>
          forall k :: 0 <= k < MAX_KEYS && s.marks[k] == 2 ==> s.keys[k].status == Open && s.keys[k].user == s.session.value.user)
  }

  // ---- every step keeps it ----

  lemma Extended(first: Status, moves: seq<Event>, now: KeyRecord, e: Event, next: KeyRecord)
    requires Consistent(first, moves, now)
    requires
      || (e.Removal() && now.status == Closed && next.status == Open && (e.BySession() ==> next.user == e.user % HALF_WORD))
      || (e.Returning() && now.status == Open && next.status == Closed && (e.code == KEY_RETURNED ==> e.user == now.user))
    ensures Consistent(first, moves + [e], next)
  {
    var m := moves + [e];
    if moves != [] {
      assert m[|m| - 2] == moves[|moves| - 1] && m[0] == moves[0];
    }
  }

  ghost predicate AllConsistent(first: seq<Status>, s: State) {
    s.Valid() && |first| == MAX_KEYS && forall k :: 0 <= k < MAX_KEYS ==> Consistent(first[k], Moves(s.log, k + 1), s.keys[k])
  }

  /** An event that is neither a removal nor a return leaves the moves of every key as they are. */
  lemma AlarmKeeps(first: seq<Status>, s: State, e: Event)
    requires AllConsistent(first, s) && !e.Removal() && !e.Returning()
    ensures AllConsistent(first, s.(log := s.log + [e]))
  {
    hide Consistent;
    var t := s.(log := s.log + [e]);
    forall k | 0 <= k < MAX_KEYS ensures Consistent(first[k], Moves(t.log, k + 1), t.keys[k]) {
      MovesSnoc(s.log, e, k + 1);
    }
  }

  lemma ChangeKeeps(first: seq<Status>, s: State, k: nat, next: KeyRecord, e: Event)
    requires AllConsistent(first, s) && k < MAX_KEYS && e.key == k + 1
    requires
      || (e.Removal() && s.keys[k].status == Closed && next.status == Open && (e.BySession() ==> next.user == e.user % HALF_WORD))
      || (e.Returning() && s.keys[k].status == Open && next.status == Closed && (e.code == KEY_RETURNED ==> e.user == s.keys[k].user))
    ensures AllConsistent(first, s.(keys := s.keys[k := next], log := s.log + [e]))
  {
    hide Consistent, Moves;
    var t := s.(keys := s.keys[k := next], log := s.log + [e]);
    forall j | 0 <= j < MAX_KEYS ensures Consistent(first[j], Moves(t.log, j + 1), t.keys[j]) {
      MovesSnoc(s.log, e, j + 1);
      if j == k {
        Extended(first[k], Moves(s.log, k + 1), s.keys[k], e, next);
      }
    }
  }

  lemma ScannedKeeps(first: seq<Status>, s: State, check: bool, i: nat, sensor: Sensor)
    requires AllConsistent(first, s) && s.Valid() && i < MAX_KEYS
    ensures AllConsistent(first, Scanned(s, check, i, sensor).0)
  {
    hide AllConsistent;
    var key := s.keys[i];
    var alarm := Event(ALARM_KEYRETURNED, 0, i + 1);
    var a := if key.status == Open && sensor.misplaced then s.(log := s.log + [alarm]) else s;
    if key.status == Open && sensor.misplaced {
      AlarmKeeps(first, s, alarm);
    }
    var removal, back := Event(UNAUTH_KEYREMOVED, 0, i + 1), Event(UNAUTH_KEYRETURNED, 0, i + 1);
    if key.status == Closed {
      ChangeKeeps(first, a, i, key.(status := Open), removal);
      var b := a.(keys := a.keys[i := key.(status := Open)], log := a.log + [removal]);
      AlarmKeeps(first, b, Event(ALARM_KEYTAKEN, 0, i + 1));
      assert b.log + [Event(ALARM_KEYTAKEN, 0, i + 1)] == a.log + [removal, Event(ALARM_KEYTAKEN, 0, i + 1)];
    } else if key.status == Open {
      ChangeKeeps(first, a, i, key.(status := Closed), back);
    }
  }

  lemma {:induction false} ScanKeeps(first: seq<Status>, s: State, check: bool, i: nat, sensors: seq<Sensor>)
    requires AllConsistent(first, s) && i <= MAX_KEYS == |sensors|
    ensures AllConsistent(first, ScannedFrom(s, check, i, sensors))
    ensures ScannedFrom(s, check, i, sensors).session == s.session
    decreases MAX_KEYS - i
  {
    hide Consistent, Moves;
    if i < MAX_KEYS {
      ScannedKeeps(first, s, check, i, sensors[i]);
      var r := Scanned(s, check, i, sensors[i]);
      ScanKeeps(first, r.0, r.1, i + 1, sensors);
    }
  }

  lemma StepKeeps(first: seq<Status>, s: State, input: Input)
    requires Invariant(first, s) && Possible(input)
    ensures Invariant(first, Step(s, input))
  {
    hide Consistent, Moves;
    assert AllConsistent(first, s);
    match input
    case Login(_, _, _, _, _) =>
    case Logout =>
    case Take(k, highSecurity, blank) =>
      if s.session.Some? && s.keys[k].status == Closed {
        var u := s.session.value.user;
        ChangeKeeps(first, s, k, KeyRecord(u % HALF_WORD, Open), Event(if highSecurity then HIGHSEC_REMOVAL else KEY_TAKEN, u, k + 1));
      }
    case Return(k, matches) =>
      if s.session.Some? && s.keys[k].status == Open && s.keys[k].user == s.session.value.user {
        ReturnKeeps(first, s, k);
      }
    case ReturnMarked(k, matches) =>
      if s.session.Some? && s.session.value.mode == 0 && s.marks[k] == 2 {
        ReturnKeeps(first, s, k);
      }
    case Scan(sensors) =>
      if s.session.None? {
        ScanKeeps(first, s, false, 0, sensors);
      }
    case _ =>
      EmergencyKeeps(first, s, input);
  }

  lemma EmergencyKeeps(first: seq<Status>, s: State, input: Input)
    requires Invariant(first, s) && Possible(input) && (input.EmergencyTake? || input.EmergencyReturn?)
    ensures Invariant(first, Step(s, input))
  {
    hide Consistent, Moves;
    assert AllConsistent(first, s);
    var k := input.k;
    if input.EmergencyTake? && s.keys[k].status == Closed {
      ChangeKeeps(first, s, k, KeyRecord(input.user % HALF_WORD, Open), Event(ERGY_KEY_TAKE, 0, k + 1));
    } else if input.EmergencyReturn? && s.keys[k].status == Open {
      ChangeKeeps(first, s, k, KeyRecord(input.user % HALF_WORD, Closed), Event(ERGY_KEY_RETURN, 0, k + 1));
    }
  }

  lemma ReturnKeeps(first: seq<Status>, s: State, k: nat)
    requires AllConsistent(first, s) && k < MAX_KEYS && s.session.Some?
    requires s.keys[k].status == Open && s.keys[k].user == s.session.value.user
    ensures AllConsistent(first, Updated(s, k, s.session.value.user, Closed, KEY_RETURNED, s.session.value.user))
  {
    hide Consistent, Moves;
    var u := s.session.value.user;
    ChangeKeeps(first, s, k, KeyRecord(u % HALF_WORD, Closed), Event(KEY_RETURNED, u, k + 1));
  }

  // ---- whole runs ----

  function Run(s: State, inputs: seq<Input>): (t: State)
    requires s.Valid() && forall i :: 0 <= i < |inputs| ==> Possible(inputs[i])
    ensures t.Valid()
    decreases |inputs|
  {
    if inputs == [] then s else Run(Step(s, inputs[0]), inputs[1..])
  }

  lemma {:induction false} RunKeeps(first: seq<Status>, s: State, inputs: seq<Input>)
    requires Invariant(first, s) && forall i :: 0 <= i < |inputs| ==> Possible(inputs[i])
    ensures Invariant(first, Run(s, inputs))
    decreases |inputs|
  {
    hide Consistent, Step;
    if inputs != [] {
      StepKeeps(first, s, inputs[0]);
      RunKeeps(first, Step(s, inputs[0]), inputs[1..]);
    }
  }

  function Statuses(keys: seq<KeyRecord>): (f: seq<Status>)
    ensures |f| == |keys|
  {
    seq(|keys|, i requires 0 <= i < |keys| => keys[i].status)
  }

  /**
   From any start with an empty log, over every run, the moves logged for a key alternate, start from the state the key
   was in, and end in the state it is in now.
   */
  lemma CustodyAlternates(s: State, inputs: seq<Input>, k: nat)
    requires s.Valid() && s.log == [] && s.session.None? && k < MAX_KEYS
    requires forall i :: 0 <= i < |inputs| ==> Possible(inputs[i])
    ensures Consistent(s.keys[k].status, Moves(Run(s, inputs).log, k + 1), Run(s, inputs).keys[k])
  {
    RunKeeps(Statuses(s.keys), s, inputs);
  }

  /** A return logged in a session is of a key that was out and recorded as held by the user of that session. */
  lemma ReturnIsByHolder(first: seq<Status>, s: State, input: Input, k: nat, user: int)
    requires Invariant(first, s) && Possible(input) && k < MAX_KEYS
    requires Step(s, input).log == s.log + [Event(KEY_RETURNED, user, k + 1)]
    ensures s.session.Some? && s.session.value.user == user && s.keys[k] == KeyRecord(user, Open)
    ensures Step(s, input).keys[k].status == Closed
  {
    assert Step(s, input).log[|s.log|] == Event(KEY_RETURNED, user, k + 1);
    if input.Scan? && s.session.None? {
      ScanLogs(s, false, 0, input.sensors);
    }
  }

  /** The key was last taken in a session of this user. */
  ghost predicate TakenBy(s: State, k: nat, user: int) {
    var m := Moves(s.log, k + 1);
    m != [] && m[|m| - 1].BySession() && m[|m| - 1].user == user
  }

  lemma TakerRecorded(first: seq<Status>, s: State, k: nat, user: int)
    requires Invariant(first, s) && k < MAX_KEYS && TakenBy(s, k, user)
    ensures s.Valid() && s.keys[k] == KeyRecord(user % HALF_WORD, Open)
  {
    hide Moves;
    assert Consistent(first[k], Moves(s.log, k + 1), s.keys[k]);
  }

  /**
   In a session of the user who took a key, some input logs its return by that user if and only if the user's id is
   below 65536: the record of the key keeps 16 bits of it.
   */
  lemma TakerReturns(first: seq<Status>, s: State, k: nat)
    requires Invariant(first, s) && k < MAX_KEYS
    requires s.session.Some? && 0 <= s.session.value.user && TakenBy(s, k, s.session.value.user)
    ensures var returned := Event(KEY_RETURNED, s.session.value.user, k + 1);
            (exists input :: Possible(input) && Step(s, input).log == s.log + [returned]) <==> s.session.value.user < HALF_WORD
  {
    hide Invariant, TakenBy;
    var user := s.session.value.user;
    var returned := Event(KEY_RETURNED, user, k + 1);
    TakerRecorded(first, s, k, user);
    if user < HALF_WORD {
      assert Possible(Return(k, true)) && Step(s, Return(k, true)).log == s.log + [returned];
    } else {
      forall input | Possible(input) ensures Step(s, input).log != s.log + [returned] {
        if Step(s, input).log == s.log + [returned] {
          ReturnIsByHolder(first, s, input, k, user);
          assert false;
        }
      }
    }
  }

  /** The same holds of the returning mode: the key is marked at login exactly when the whole id is on record. */
  lemma TakerReturnsMarked(first: seq<Status>, s: State, login: Input, k: nat)
    requires Invariant(first, s) && k < MAX_KEYS && Possible(login) && login.Login? && !login.removing
    requires s.session.None? && TakenBy(s, k, login.user)
    ensures var t := Step(s, login);
            Step(t, ReturnMarked(k, true)).log == t.log + [Event(KEY_RETURNED, login.user, k + 1)] <==> login.user < HALF_WORD
  {
    hide Invariant, TakenBy;
    TakerRecorded(first, s, k, login.user);
    var t := Step(s, login);
    assert t.marks[k] == MarkOf(s.keys[k], login.user, false, login.wanted[k], login.blanks[k]);
    assert t.log != t.log + [Event(KEY_RETURNED, login.user, k + 1)];
  }

  /** The scan without a user only adds to the log, and never a return by a user. */
  lemma {:induction false} ScanLogs(s: State, check: bool, i: nat, sensors: seq<Sensor>)
    requires s.Valid() && i <= MAX_KEYS == |sensors|
    ensures s.log <= ScannedFrom(s, check, i, sensors).log
    ensures var log := ScannedFrom(s, check, i, sensors).log;
            forall j :: |s.log| <= j < |log| ==> log[j].code != KEY_RETURNED
    decreases MAX_KEYS - i
  {
    if i < MAX_KEYS {
      var r := Scanned(s, check, i, sensors[i]);
      ScanLogs(r.0, r.1, i + 1, sensors);
    }
  }
}
