/**
 What custody has to do with the places themselves: whatever is logged is so, as far as the readings of the places are
 right, and the marks of a session say where its keys are.
 */
module CustodyTruth {
  import opened Options
  import opened Custody

  /** What stands in the place of a key: nothing, its own fob, or another one. */
  datatype Place = Empty | Own | Other

  /** Readings that are right: a place read as blank is empty, a fob that matches is the place's own. */
  predicate RightSensor(p: Place, x: Sensor) {
    && (x.stillMoved ==> p != Own) && (x.misplaced ==> p == Other) && (x.back ==> p == Own)
  }

  predicate RightReading(places: seq<Place>, input: Input)
    requires |places| == MAX_KEYS && Possible(input)
  {
    match input
    case Take(k, _, blank) => blank ==> places[k] == Empty
    case Return(k, matches) => matches ==> places[k] == Own
    case ReturnMarked(k, matches) => matches ==> places[k] == Own
    case EmergencyTake(_, k, blank) => blank ==> places[k] == Empty
    case EmergencyReturn(_, k, matches) => matches ==> places[k] == Own
    case Scan(sensors) => forall k :: 0 <= k < MAX_KEYS ==> RightSensor(places[k], sensors[k])
    case _ => true
  }

  /** An event that is so: of a removal the fob is not in its place, of a return it is. */
  predicate IsSo(places: seq<Place>, e: Event)
    requires |places| == MAX_KEYS
  {
    && 1 <= e.key <= MAX_KEYS
    && (e.Removal() || e.code == ALARM_KEYTAKEN ==> places[e.key - 1] != Own)
    && (e.BySession() || e.code == ERGY_KEY_TAKE ==> places[e.key - 1] == Empty)
    && (e.Returning() ==> places[e.key - 1] == Own)
    && (e.code == ALARM_KEYRETURNED ==> places[e.key - 1] == Other)
  }

  ghost predicate NewAreSo(places: seq<Place>, s: State, t: State)
    requires |places| == MAX_KEYS
  {
    s.log <= t.log && forall j :: |s.log| <= j < |t.log| ==> IsSo(places, t.log[j])
  }

  lemma ScannedIsSo(places: seq<Place>, s: State, check: bool, i: nat, x: Sensor)
    requires s.Valid() && i < MAX_KEYS && |places| == MAX_KEYS && RightSensor(places[i], x)
    ensures NewAreSo(places, s, Scanned(s, check, i, x).0)
  {
  }

  lemma SoTrans(places: seq<Place>, s: State, t: State, u: State)
    requires |places| == MAX_KEYS && NewAreSo(places, s, t) && NewAreSo(places, t, u)
    ensures NewAreSo(places, s, u)
  {
    hide IsSo;
    forall j | |s.log| <= j < |u.log| ensures IsSo(places, u.log[j]) {
      if j < |t.log| {
        assert u.log[j] == t.log[j];
      }
    }
  }

  lemma {:induction false} ScanIsSo(places: seq<Place>, s: State, check: bool, i: nat, sensors: seq<Sensor>)
    requires s.Valid() && i <= MAX_KEYS == |sensors| == |places|
    requires forall k :: 0 <= k < MAX_KEYS ==> RightSensor(places[k], sensors[k])
    ensures NewAreSo(places, s, ScannedFrom(s, check, i, sensors))
    decreases MAX_KEYS - i
  {
    hide Scanned, RightSensor, IsSo;
    if i < MAX_KEYS {
      var r := Scanned(s, check, i, sensors[i]);
      ScannedIsSo(places, s, check, i, sensors[i]);
      ScanIsSo(places, r.0, r.1, i + 1, sensors);
      SoTrans(places, s, r.0, ScannedFrom(r.0, r.1, i + 1, sensors));
    }
  }

  /** Whatever the input, with right readings every event it logs is so. */
  lemma LoggedIsSo(places: seq<Place>, s: State, input: Input)
    requires s.Valid() && Possible(input) && |places| == MAX_KEYS && RightReading(places, input)
    ensures NewAreSo(places, s, Step(s, input))
  {
    match input
    case Scan(sensors) =>
      hide Scanned, IsSo;
      if s.session.None? {
        ScanIsSo(places, s, false, 0, sensors);
      }
    case _ =>
  }

  /** And with the log, the recorded state of a key changes only to what its place says. */
  lemma StateFollowsPlace(first: seq<Status>, places: seq<Place>, s: State, input: Input, k: nat)
    requires Invariant(first, s) && Possible(input) && |places| == MAX_KEYS && RightReading(places, input) && k < MAX_KEYS
    requires Step(s, input).keys[k].status != s.keys[k].status
    ensures Step(s, input).keys[k].status == Open ==> places[k] != Own
    ensures Step(s, input).keys[k].status == Closed ==> places[k] == Own
  {
    hide Moves, Scanned;
    if input.Scan? {
      ScanFollows(places, s, false, 0, input.sensors, k);
    }
  }

  lemma {:induction false} ScanFollows(places: seq<Place>, s: State, check: bool, i: nat, sensors: seq<Sensor>, k: nat)
    requires s.Valid() && i <= MAX_KEYS == |sensors| == |places| && k < MAX_KEYS
    requires forall j :: 0 <= j < MAX_KEYS ==> RightSensor(places[j], sensors[j])
    ensures var t := ScannedFrom(s, check, i, sensors);
            && (k < i ==> t.keys[k] == s.keys[k])
            && (t.keys[k].status != s.keys[k].status ==>
                  (t.keys[k].status == Open && places[k] != Own) || (t.keys[k].status == Closed && places[k] == Own))
    decreases MAX_KEYS - i
  {
    if i < MAX_KEYS {
      var r := Scanned(s, check, i, sensors[i]);
      ScanFollows(places, r.0, r.1, i + 1, sensors, k);
    }
  }

  // ---- sessions ----

  /**
   The marks of a session: 2 on keys recorded with its user and not as in their place, 1 on keys recorded as in it.
   */
  predicate MarksTrue(s: State) {
    s.Valid() && (s.session.Some? ==>
      && 0 <= s.session.value.user
      && forall k :: 0 <= k < MAX_KEYS ==>
           && 0 <= s.marks[k] <= 2
           && (s.marks[k] == 2 ==> s.keys[k].status != Closed && s.keys[k].user == s.session.value.user % HALF_WORD)
           && (s.marks[k] == 1 ==> s.keys[k].status == Closed))
  }

  predicate InWidth(s: State) {
    forall k :: 0 <= k < |s.keys| ==> 0 <= s.keys[k].user < HALF_WORD
  }

  lemma MarksKept(s: State, input: Input)
    requires MarksTrue(s) && InWidth(s) && Possible(input)
    ensures MarksTrue(Step(s, input)) && InWidth(Step(s, input))
  {
    hide Scanned;
    if input.Scan? && s.session.None? {
      ScanInWidth(s, false, 0, input.sensors);
      ScanKeepsSession(s, false, 0, input.sensors);
    }
  }

  lemma {:induction false} ScanInWidth(s: State, check: bool, i: nat, sensors: seq<Sensor>)
    requires s.Valid() && InWidth(s) && i <= MAX_KEYS == |sensors|
    ensures InWidth(ScannedFrom(s, check, i, sensors))
    decreases MAX_KEYS - i
  {
    if i < MAX_KEYS {
      var r := Scanned(s, check, i, sensors[i]);
      ScanInWidth(r.0, r.1, i + 1, sensors);
    }
  }

  lemma {:induction false} ScanKeepsSession(s: State, check: bool, i: nat, sensors: seq<Sensor>)
    requires s.Valid() && i <= MAX_KEYS == |sensors|
    ensures ScannedFrom(s, check, i, sensors).session == s.session
    decreases MAX_KEYS - i
  {
    if i < MAX_KEYS {
      var r := Scanned(s, check, i, sensors[i]);
      ScanKeepsSession(r.0, r.1, i + 1, sensors);
    }
  }

  /** Over every run the marks of a session stay true. */
  lemma {:induction false} RunKeepsMarks(s: State, inputs: seq<Input>)
    requires MarksTrue(s) && InWidth(s) && forall i :: 0 <= i < |inputs| ==> Possible(inputs[i])
    ensures MarksTrue(Run(s, inputs)) && InWidth(Run(s, inputs))
    decreases |inputs|
  {
    hide Step, MarksTrue, InWidth;
    if inputs != [] {
      Marked(s);
      MarksKept(s, inputs[0]);
      RunKeepsMarks(Step(s, inputs[0]), inputs[1..]);
    }
  }

  lemma Marked(s: State)
    requires MarksTrue(s)
    ensures s.Valid()
  {
  }

  // ---- nothing is missed ----

  /** A key is marked to be taken, and no other is. */
  predicate OnlyReady(marks: seq<int>, k: nat) {
    k < |marks| && marks[k] == 1 && forall j :: 0 <= j < |marks| && j != k ==> marks[j] != 1
  }

  ghost predicate OneReady(marks: seq<int>) {
    exists k: nat :: OnlyReady(marks, k)
  }

  lemma {:induction false} NoneReady(marks: seq<int>)
    ensures Ready(marks) == 0 <==> 1 !in marks
  {
    if marks != [] {
      NoneReady(marks[..|marks| - 1]);
      assert marks == marks[..|marks| - 1] + [marks[|marks| - 1]];
    }
  }

  lemma OneMore(rest: seq<int>, m: int)
    ensures OneReady(rest + [m]) <==> if m == 1 then 1 !in rest else OneReady(rest)
  {
    var marks := rest + [m];
    assert marks[|rest|] == m;
    forall k: nat | k < |rest| ensures OnlyReady(marks, k) <==> m != 1 && OnlyReady(rest, k) {
      assert forall j :: 0 <= j < |rest| ==> marks[j] == rest[j];
    }
    assert OnlyReady(marks, |rest|) <==> m == 1 && 1 !in rest by {
      assert forall j :: 0 <= j < |rest| ==> marks[j] == rest[j];
    }
    hide OnlyReady;
    assert forall k: nat :: OnlyReady(marks, k) ==> k <= |rest| by { WithinMarks(marks); }
    WithinMarks(rest);
  }

  lemma WithinMarks(marks: seq<int>)
    ensures forall k: nat :: OnlyReady(marks, k) ==> k < |marks|
  {
  }

  lemma {:induction false} ReadyIsOne(marks: seq<int>)
    ensures Ready(marks) == 1 <==> OneReady(marks)
  {
    if marks != [] {
      var rest, m := marks[..|marks| - 1], marks[|marks| - 1];
      hide OneReady;
      ReadyIsOne(rest);
      NoneReady(rest);
      OneMore(rest, m);
      assert marks == rest + [m];
    }
  }

  /**
   A session to remove keys marks those wanted: 1 if they are in, 2 if their user has them out. A returning one marks what
   its user has out.
   */
  lemma LoginMarks(s: State, login: Input, k: nat)
    requires s.Valid() && login.Login? && Possible(login) && s.session.None? && k < MAX_KEYS
    ensures var t, r := Step(s, login), s.keys[k];
            && t.keys == s.keys && t.log == s.log
            && t.session.Some? && t.session.value.user == login.user && 0 <= t.session.value.mode <= 2
            && (t.session.value.mode == 0 <==> !login.removing)
            && (t.session.value.mode == 2 <==> login.removing && (login.single || OneReady(t.marks)))
            && (t.marks[k] == 1 <==> login.removing && login.wanted[k] && r.status == Closed)
            && (t.marks[k] == 2 <==>
                  && r.user == login.user && r.status != Closed
                  && (if login.removing then login.wanted[k] && login.blanks[k] else r.status == Open))
            && (t.marks[k] == 0 || t.marks[k] == 1 || t.marks[k] == 2)
  {
    hide Ready;
    ReadyIsOne(Step(s, login).marks);
  }

  /** A removing session logs a key exactly when its place is blank and it is recorded as in; the code tells the security. */
  lemma TakenExactly(s: State, k: nat, highSecurity: bool, blank: bool)
    requires s.Valid() && k < MAX_KEYS && s.session.Some?
    ensures var t, user := Step(s, Take(k, highSecurity, blank)), s.session.value.user;
            if s.session.value.mode != 0 && blank && s.keys[k].status == Closed
            then t.log == s.log + [Event(if highSecurity then 110 else 81, user, k + 1)]
                 && t.keys == s.keys[k := KeyRecord(user % HALF_WORD, Open)] && t.marks == s.marks[k := 2]
                 && t.session == if s.session.value.mode == 2 then None else s.session
            else t == s
  {
  }

  /** A fob that matches is logged as returned exactly when its key is out and recorded with the session's user. */
  lemma ReturnedExactly(s: State, k: nat, matches: bool)
    requires s.Valid() && k < MAX_KEYS && s.session.Some?
    ensures var t, user := Step(s, Return(k, matches)), s.session.value.user;
            if matches && s.keys[k] == KeyRecord(user, Open)
            then t.log == s.log + [Event(82, user, k + 1)] && t.keys == s.keys[k := KeyRecord(user % HALF_WORD, Closed)]
                 && t.marks == s.marks[k := 1] && t.session == s.session
            else t == s
  {
  }

  /** By its mark a key is returned in the returning mode only, which then goes over to removing; the mark becomes 1. */
  lemma MarkedReturnExactly(s: State, k: nat, matches: bool)
    requires s.Valid() && k < MAX_KEYS && s.session.Some?
    ensures var t, user := Step(s, ReturnMarked(k, matches)), s.session.value.user;
            if s.session.value.mode == 0 && s.marks[k] == 2 && s.keys[k].user == user && matches
            then t.log == s.log + [Event(82, user, k + 1)] && t.keys == s.keys[k := KeyRecord(user % HALF_WORD, Closed)]
                 && t.marks == s.marks[k := 1] && t.session == Some(Session(user, 1))
            else t == s
  {
  }

  /** Logging out ends the session, and a login during one changes nothing. */
  lemma SessionEnds(s: State, login: Input)
    requires s.Valid() && login.Login? && Possible(login)
    ensures Step(s, Logout).session.None? && Step(s, Logout).keys == s.keys && Step(s, Logout).log == s.log
    ensures s.session.Some? ==> Step(s, login) == s
  {
  }

  /** In an emergency any blank place is a removal and any matching fob a return; the user is on record but not in the log. */
  lemma EmergencyExactly(s: State, user: nat, k: nat, blank: bool, matches: bool)
    requires s.Valid() && k < MAX_KEYS && s.session.None?
    ensures var t := Step(s, EmergencyTake(user, k, blank));
            if blank && s.keys[k].status == Closed
            then t.log == s.log + [Event(105, 0, k + 1)] && t.keys == s.keys[k := KeyRecord(user % HALF_WORD, Open)]
                 && t.marks == s.marks && t.session == s.session
            else t == s
    ensures var t := Step(s, EmergencyReturn(user, k, matches));
            if matches && s.keys[k].status == Open
            then t.log == s.log + [Event(106, 0, k + 1)] && t.keys == s.keys[k := KeyRecord(user % HALF_WORD, Closed)]
                 && t.marks == s.marks && t.session == s.session
            else t == s
  {
  }

  /**
   What the scan without a user makes of one place: the new events, and whether the key changes its state. The flag is
   raised by a key that has moved, and lowered by a key that is recorded as in.
   */
  lemma ScanExactly(s: State, check: bool, i: nat, x: Sensor)
    requires s.Valid() && i < MAX_KEYS
    ensures var t, status := Scanned(s, check, i, x).0, s.keys[i].status;
            var removed := x.registered && (check || x.moved) && status == Closed && x.stillMoved;
            var back := x.registered && status == Open && x.back;
            && t.log == s.log + (if status == Open && x.misplaced then [Event(108, 0, i + 1)] else [])
                        + (if removed then [Event(102, 0, i + 1), Event(104, 0, i + 1)] else [])
                        + (if back then [Event(103, 0, i + 1)] else [])
            && t.keys[i].user == s.keys[i].user
            && t.keys[i].status == (if removed then Open else if back then Closed else status)
            && t.keys == s.keys[i := t.keys[i]] && t.marks == s.marks && t.session == s.session
    ensures Scanned(s, check, i, x).1 <==>
              if x.registered then s.keys[i].status != Closed && (check || x.moved) else check
  {
  }

  /** The number of keys that sessions have taken. */
  function Taken(log: seq<Event>): nat {
    if log == [] then 0 else Taken(log[..|log| - 1]) + if log[|log| - 1].BySession() then 1 else 0
  }

  lemma TakenSnoc(log: seq<Event>, e: Event)
    ensures Taken(log + [e]) == Taken(log) + if e.BySession() then 1 else 0
  {
    assert (log + [e])[..|log|] == log;
  }

  lemma {:induction false} ScanTakesNone(s: State, check: bool, i: nat, sensors: seq<Sensor>)
    requires s.Valid() && i <= MAX_KEYS == |sensors|
    ensures Taken(ScannedFrom(s, check, i, sensors).log) == Taken(s.log)
    decreases MAX_KEYS - i
  {
    if i < MAX_KEYS {
      var r := Scanned(s, check, i, sensors[i]);
      ScannedTakesNone(s, check, i, sensors[i]);
      ScanTakesNone(r.0, r.1, i + 1, sensors);
    }
  }

  lemma ScannedTakesNone(s: State, check: bool, i: nat, x: Sensor)
    requires s.Valid() && i < MAX_KEYS
    ensures Taken(Scanned(s, check, i, x).0.log) == Taken(s.log)
  {
    hide Taken;
    var alarm, out, alarm', back := Event(ALARM_KEYRETURNED, 0, i + 1), Event(UNAUTH_KEYREMOVED, 0, i + 1),
                                    Event(ALARM_KEYTAKEN, 0, i + 1), Event(UNAUTH_KEYRETURNED, 0, i + 1);
    var a := if s.keys[i].status == Open && x.misplaced then s.log + [alarm] else s.log;
    TakenSnoc(s.log, alarm);
    TakenSnoc(a, out);
    TakenSnoc(a + [out], alarm');
    assert a + [out] + [alarm'] == a + [out, alarm'];
    TakenSnoc(a, back);
  }

  /** What a state can still take before the next login: in a session for one key, one. */
  predicate OneAtMost(s: State) {
    s.session.Some? ==> s.session.value.mode == 2
  }

  lemma StepTakesOne(s: State, input: Input)
    requires s.Valid() && Possible(input) && OneAtMost(s) && !input.Login?
    ensures var t := Step(s, input);
            OneAtMost(t) && Taken(t.log) + (if t.session.Some? then 1 else 0) <= Taken(s.log) + (if s.session.Some? then 1 else 0)
  {
    hide Taken, Scanned;
    var t := Step(s, input);
    if input.Scan? {
      if s.session.None? {
        ScanTakesNone(s, false, 0, input.sensors);
        ScanKeepsSession(s, false, 0, input.sensors);
      }
    } else if t.log != s.log {
      TakenSnoc(s.log, t.log[|s.log|]);
      assert t.log == s.log + [t.log[|s.log|]];
    }
  }

  /** A session for a single key takes one key at most, whatever happens until the next login. */
  lemma {:induction false} SingleTakesOne(s: State, inputs: seq<Input>)
    requires s.Valid() && OneAtMost(s)
    requires forall i :: 0 <= i < |inputs| ==> Possible(inputs[i]) && !inputs[i].Login?
    ensures Taken(Run(s, inputs).log) <= Taken(s.log) + if s.session.Some? then 1 else 0
    decreases |inputs|
  {
    hide Step, Taken, OneAtMost;
    if inputs != [] {
      StepTakesOne(s, inputs[0]);
      SingleTakesOne(Step(s, inputs[0]), inputs[1..]);
    }
  }
}
