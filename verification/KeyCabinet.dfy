/**
 The transitions of the key cabinet on its key records, its session marks and its event log.
 */
module KeyCabinet {
  import opened Custody
  import opened Options

  class Cabinet {
    const keyEvents: array<KeyRecord>
    const uclk: array<int>
    var log: seq<Event>
    var session: Option<Session>

    constructor (keys: seq<KeyRecord>)
      requires |keys| == MAX_KEYS
      ensures Valid() && fresh(keyEvents) && fresh(uclk)
      ensures keyEvents[..] == keys && log == [] && session == None
    {
      keyEvents := new KeyRecord[MAX_KEYS](i requires 0 <= i < MAX_KEYS => keys[i]);
      uclk := new int[MAX_KEYS](_ => 0);
      log, session := [], None;
      new;
      assert keyEvents[..] == keys;
    }

    predicate Valid()
      reads this
    {
      keyEvents.Length == MAX_KEYS && uclk.Length == MAX_KEYS
    }

    function Now(): (s: State)
      requires Valid()
      reads this, keyEvents, uclk
      ensures s.Valid()
    {
      State(keyEvents[..], uclk[..], log, session)
    }

    /** Sets the user, cut to 16 bits, and the state of a key. */
    method UpdateKeyLog(user: int, k: nat, state: Status)
      requires Valid() && k < MAX_KEYS
      modifies keyEvents
      ensures keyEvents[..] == old(keyEvents[..])[k := KeyRecord(user % HALF_WORD, state)]
    {
      keyEvents[k] := KeyRecord(user % HALF_WORD, keyEvents[k].status);
      keyEvents[k] := KeyRecord(keyEvents[k].user, state);
    }

    method LogEvent(code: int, user: int, key: int)
      modifies this`log
      ensures log == old(log) + [Event(code, user, key)]
    {
      log := log + [Event(code, user, key)];
    }

    /** Starts a session and marks the keys it is about. */
    method StartSession(user: int, removing: bool, single: bool, wanted: seq<bool>, blanks: seq<bool>)
      requires Valid() && session.None? && 0 <= user && |wanted| == |blanks| == MAX_KEYS
      modifies this`session, uclk
      ensures Now() == Step(old(Now()), Login(user, removing, single, wanted, blanks))
    {
      hide Ready;
      var i := 0;
      while i < MAX_KEYS
        invariant 0 <= i <= MAX_KEYS && forall j :: 0 <= j < i ==> uclk[j] == 0
      {
        uclk[i] := 0;
        i := i + 1;
      }
      var userKey := 0;
      i := 0;
      while i < MAX_KEYS
        invariant 0 <= i <= MAX_KEYS && forall j :: i <= j < MAX_KEYS ==> uclk[j] == 0
        invariant userKey == Ready(uclk[..i])
        invariant forall j :: 0 <= j < i ==> uclk[j] == MarkOf(keyEvents[j], user, removing, wanted[j], blanks[j])
      {
        ghost var done := uclk[..i];
        if wanted[i] && removing {
          if keyEvents[i].status == Closed {
            uclk[i] := 1;
            userKey := userKey + 1;
          } else if blanks[i] && keyEvents[i].user == user {
            uclk[i] := 2;
          }
        } else if !removing && keyEvents[i].user == user && keyEvents[i].status == Open {
          uclk[i] := 2;
        }
        assert uclk[..i] == done;
        ReadyNext(uclk[..], i);
        i := i + 1;
      }
      assert uclk[..MAX_KEYS] == uclk[..] == Marks(keyEvents[..], user, removing, wanted, blanks);
      session := Some(Session(user, if !removing then 0 else if single || userKey == 1 then 2 else 1));
    }

    method EndSession()
      requires Valid()
      modifies this`session
      ensures Now() == Step(old(Now()), Logout)
    {
      session := None;
    }

    /** A key is taken in a removing session when its place is found empty while it is recorded as in. */
    method TakeKey(k: nat, highSecurity: bool, blank: bool)
      requires Valid() && session.Some? && session.value.mode != 0 && k < MAX_KEYS
      modifies this`log, this`session, keyEvents, uclk
      ensures Now() == Step(old(Now()), Take(k, highSecurity, blank))
    {
      if blank && keyEvents[k].status == Closed {
        UpdateKeyLog(session.value.user, k, Open);
        if highSecurity {
          LogEvent(HIGHSEC_REMOVAL, session.value.user, k + 1);
        } else {
          LogEvent(KEY_TAKEN, session.value.user, k + 1);
        }
        uclk[k] := 2;
        if session.value.mode == 2 {
          session := None;
        }
      }
    }

    /** A fob that is back in its place is returned when it is out with the session's user. */
    method ReturnKey(k: nat, matches: bool)
      requires Valid() && session.Some? && k < MAX_KEYS
      modifies this`log, keyEvents, uclk
      ensures Now() == Step(old(Now()), Return(k, matches))
    {
      if keyEvents[k].status == Open && keyEvents[k].user == session.value.user && matches {
        UpdateKeyLog(session.value.user, k, Closed);
        LogEvent(KEY_RETURNED, session.value.user, k + 1);
        uclk[k] := 1;
      }
    }

    /** The returning mode goes by the marks. The count of marked keys includes the one just returned, so its mark becomes 1. */
    method ReturnMarkedKey(k: nat, matches: bool)
      requires Valid() && session.Some? && session.value.mode == 0 && k < MAX_KEYS
      modifies this`log, this`session, keyEvents, uclk
      ensures Now() == Step(old(Now()), ReturnMarked(k, matches))
    {
      var userKey := CountMarks(k);
      if uclk[k] == 2 && keyEvents[k].user == session.value.user && matches {
        var user := session.value.user;
        uclk[k] := 1;
        session := Some(Session(user, 1));
        UpdateKeyLog(user, k, Closed);
        LogEvent(KEY_RETURNED, user, k + 1);
        uclk[k] := 0;
        if userKey != 0 {
          session := Some(Session(user, 1));
          uclk[k] := 1;
        }
      }
    }

    method CountMarks(k: nat) returns (n: nat)
      requires Valid() && k < MAX_KEYS
      ensures uclk[k] != 0 ==> n > 0
    {
      n := 0;
      var i := 0;
      while i <= k
        invariant 0 <= i <= k + 1
        invariant i > k && uclk[k] != 0 ==> n > 0
      {
        if uclk[i] != 0 {
          n := n + 1;
        }
        i := i + 1;
      }
    }

    method EmergencyTakeKey(user: int, k: nat, blank: bool)
      requires Valid() && session.None? && 0 <= user && k < MAX_KEYS
      modifies this`log, keyEvents
      ensures Now() == Step(old(Now()), EmergencyTake(user, k, blank))
    {
      if blank && keyEvents[k].status == Closed {
        UpdateKeyLog(user, k, Open);
        LogEvent(ERGY_KEY_TAKE, 0, k + 1);
      }
    }

    method EmergencyReturnKey(user: int, k: nat, matches: bool)
      requires Valid() && session.None? && 0 <= user && k < MAX_KEYS
      modifies this`log, keyEvents
      ensures Now() == Step(old(Now()), EmergencyReturn(user, k, matches))
    {
      if keyEvents[k].status == Open && matches {
        UpdateKeyLog(user, k, Closed);
        LogEvent(ERGY_KEY_RETURN, 0, k + 1);
      }
    }

    /** One position of the scan without a user. */
    method KeyCheckAt(i: nat, check: bool, sensor: Sensor) returns (next: bool)
      requires Valid() && i < MAX_KEYS
      modifies this`log, keyEvents
      ensures (Now(), next) == Scanned(old(Now()), check, i, sensor)
    {
      next := check;
      if sensor.registered && sensor.moved {
        next := true;
      }
      if keyEvents[i].status == Open && sensor.misplaced {
        LogEvent(ALARM_KEYRETURNED, 0, i + 1);
      }
      ghost var a := Now();
      if next && sensor.registered && keyEvents[i].status == Closed {
        next := false;
        if sensor.stillMoved {
          LogEvent(UNAUTH_KEYREMOVED, 0, i + 1);
          LogEvent(ALARM_KEYTAKEN, 0, i + 1);
          keyEvents[i] := KeyRecord(keyEvents[i].user, Open);
          assert keyEvents[..] == a.keys[i := a.keys[i].(status := Open)];
          assert log == a.log + [Event(UNAUTH_KEYREMOVED, 0, i + 1), Event(ALARM_KEYTAKEN, 0, i + 1)];
        }
      } else if sensor.registered && keyEvents[i].status == Open {
        if sensor.back {
          LogEvent(UNAUTH_KEYRETURNED, 0, i + 1);
          keyEvents[i] := KeyRecord(keyEvents[i].user, Closed);
          assert keyEvents[..] == a.keys[i := a.keys[i].(status := Closed)];
        }
      }
    }

    /** The scan of all positions while nobody is logged in. */
    method KeyCheck2(sensors: seq<Sensor>)
      requires Valid() && session.None? && |sensors| == MAX_KEYS
      modifies this`log, keyEvents
      ensures Now() == Step(old(Now()), Scan(sensors))
    {
      hide Scanned;
      var chkey := false;
      var i := 0;
      while i < MAX_KEYS
        invariant 0 <= i <= MAX_KEYS
        invariant ScannedFrom(Now(), chkey, i, sensors) == ScannedFrom(old(Now()), false, 0, sensors)
      {
        chkey := KeyCheckAt(i, chkey, sensors[i]);
        i := i + 1;
      }
    }
  }
}
