/**
 Authorisation by several users: a task lists up to five approvers besides the user who asks, and keys are released when
 the required number of them has logged in.
 */
module Quorum {
  import opened Options

  const SLOTS := 5
  const MAX_FAILURES := 5
  const TIMEOUT := 30
  const WORD := 0x1_0000_0000

  // ---- integer widths ----

  predicate IsWord(x: int) {
    0 <= x < WORD
  }

  /** What a signed 16-bit variable keeps of a word. */
  function Short(x: int): (s: int)
    ensures -0x8000 <= s < 0x8000
  {
    if x % 0x1_0000 < 0x8000 then x % 0x1_0000 else x % 0x1_0000 - 0x1_0000
  }

  /** A signed value compared with an unsigned word is first taken modulo the word size. */
  function AsWord(x: int): (w: int)
    ensures IsWord(w)
  {
    x % WORD
  }

  /** A user id goes through a signed 16-bit variable unharmed exactly when it is small, or stands for a small negative one. */
  lemma ShortKeepsId(id: int)
    requires IsWord(id)
    ensures AsWord(Short(id)) == id <==> id < 0x8000 || id >= WORD - 0x8000
    ensures AsWord(Short(id)) == 0 <==> id % 0x1_0000 == 0
  {
    AsWordIs(Short(id));
    hide AsWord;
    assert id == 0x1_0000 * (id / 0x1_0000) + id % 0x1_0000;
  }

  lemma AsWordIs(s: int)
    requires -WORD <= s < WORD
    ensures AsWord(s) == if s >= 0 then s else s + WORD
  {
  }

  // ---- the approvers still missing ----

  /** The slot of the first approver with a code, or the number of slots if there is none. */
  function FirstWith(codes: seq<int>, c: int): (i: nat)
    ensures i <= |codes|
    ensures i < |codes| ==> codes[i] == c
    ensures forall j :: 0 <= j < i ==> codes[j] != c
  {
    if codes == [] || codes[0] == c then 0 else 1 + FirstWith(codes[1..], c)
  }

  function WithoutFirst(codes: seq<int>, c: int): (d: seq<int>)
    ensures |d| == |codes|
  {
    var i := FirstWith(codes, c);
    if i < |codes| then codes[i := 0] else codes
  }

  /** The approvers still missing: slots that are zero are empty. */
  function Missing(codes: seq<int>): multiset<int> {
    if codes == [] then multiset{}
    else
      var last := codes[|codes| - 1];
      Missing(codes[..|codes| - 1]) + if last != 0 then multiset{last} else multiset{}
  }

  /** The approvers of a task: the user who asks does not count as one. */
  function Listed(user: int, codes: seq<int>): (l: seq<int>)
    ensures |l| == |codes|
  {
    seq(|codes|, i requires 0 <= i < |codes| => if codes[i] != user && codes[i] != 0 then codes[i] else 0)
  }

  lemma {:induction false} MissingHas(codes: seq<int>, c: int)
    ensures c in Missing(codes) <==> c != 0 && c in codes
  {
    if codes != [] {
      MissingHas(codes[..|codes| - 1], c);
      assert codes == codes[..|codes| - 1] + [codes[|codes| - 1]];
    }
  }

  lemma {:induction false} MissingAfter(codes: seq<int>, i: nat)
    requires i < |codes|
    ensures Missing(codes) == Missing(codes[i := 0]) + if codes[i] != 0 then multiset{codes[i]} else multiset{}
  {
    var last := |codes| - 1;
    if i < last {
      MissingAfter(codes[..last], i);
      assert codes[i := 0][..last] == codes[..last][i := 0];
    } else {
      assert codes[i := 0][..last] == codes[..last];
    }
  }

  /** A successful login takes exactly its code from the missing approvers; the code 0 takes none. */
  lemma LoginTakesOne(codes: seq<int>, c: int)
    requires c in codes
    ensures FirstWith(codes, c) < |codes|
    ensures Missing(codes) == Missing(WithoutFirst(codes, c)) + if c != 0 then multiset{c} else multiset{}
  {
    MissingAfter(codes, FirstWith(codes, c));
  }

  // ---- one login ----

  /**
   A login while approvers are missing, with what the keypad, the reader and the dialogue contribute: the code typed or
   received, the user record found, and whether the record's fingerprint flag, its login type and the PIN let it pass.
   */
  datatype Attempt =
    | Finger(user: int)
    | Keyed(typed: int, found: bool, user: int, fingerOnly: bool, passes: bool)
    | Radio(code: int, found: bool, fingerOnly: bool, passes: bool)
    | Card(found: bool, user: int, cardOnly: bool, passes: bool)
  {
    /** The code that is compared with the approvers. */
    function Resolved(): (c: int)
      ensures IsWord(c)
    {
      match this
      case Finger(user) => AsWord(Short(user))
      case Keyed(typed, found, user, _, _) => if found then AsWord(Short(user)) else AsWord(Short(typed))
      case Radio(code, _, _, _) => AsWord(Short(code))
      case Card(_, user, _, _) => AsWord(Short(user))
    }

    /** Whether the dialogue gets as far as the approver list and through the checks after it. */
    predicate Admitted() {
      match this
      case Finger(_) => true
      case Keyed(typed, found, _, fingerOnly, passes) => Short(typed) != 0 && Short(typed) != -1 && !(found && fingerOnly) && passes
      case Radio(code, found, fingerOnly, passes) => Short(code) != 0 && Short(code) != -1 && !(found && fingerOnly) && passes
      case Card(found, _, cardOnly, passes) => found && (cardOnly || passes)
    }
  }

  /** One turn of the loop: the door, a finger presented, and the key pressed or card shown. */
  datatype Action = Nothing | Escape | Login(attempt: Attempt)

  datatype Turn = Turn(doorOpen: bool, finger: Option<Attempt>, action: Action)

  datatype Exit = Access | TooManyFailures | TimedOut | Cancelled | DoorClosed

  // ---- the loop, on values ----

  /**
   Where the loop stands: the slots, the count of users and of failures in a row, and the turns left. The count is kept in
   16 bits. `approved` and `free` are a record of the logins that succeeded: the approvers, and the logins with code 0.
   */
  datatype Progress = Progress(codes: seq<int>, scount: int, failures: nat, timeout: int, approved: seq<int>, free: nat)

  function LoggedIn(s: Progress, a: Attempt): (u: Progress)
    ensures |u.codes| == |s.codes|
  {
    var c := a.Resolved();
    if !a.Admitted() || c !in s.codes then s.(failures := s.failures + 1)
    else
      s.(codes := WithoutFirst(s.codes, c), scount := Short(s.scount + 1), failures := 0,
         approved := if c != 0 then s.approved + [c] else s.approved, free := if c != 0 then s.free else s.free + 1)
  }

  /** The progress after the two logins of a turn. */
  function AfterLogins(s: Progress, t: Turn): (u: Progress)
    ensures |u.codes| == |s.codes|
  {
    var a := s.(timeout := s.timeout - 1);
    var b := if t.finger.Some? then LoggedIn(a, t.finger.value) else a;
    if t.action.Login? then LoggedIn(b.(timeout := TIMEOUT), t.action.attempt) else b
  }

  /** The tests at the end of a turn; the count is compared as a byte. */
  function Decided(multiple: int, s: Progress): Option<Exit> {
    if s.failures >= MAX_FAILURES then Some(TooManyFailures)
    else if multiple == s.scount % 0x100 then Some(Access)
    else if s.timeout == 0 then Some(TimedOut)
    else None
  }

  function AfterTurn(multiple: int, s: Progress, t: Turn): (r: (Progress, Option<Exit>))
    ensures |r.0.codes| == |s.codes|
  {
    if !t.doorOpen then (s, Some(DoorClosed))
    else if t.action.Escape? then (AfterLogins(s, t), Some(Cancelled))
    else (AfterLogins(s, t), Decided(multiple, AfterLogins(s, t)))
  }

  /** Turn after turn until one of them ends the loop, or there are no more. */
  function AfterTurns(multiple: int, s: Progress, turns: seq<Turn>): (r: (Progress, Option<Exit>))
    ensures |r.0.codes| == |s.codes|
    decreases |turns|
  {
    if turns == [] then (s, None)
    else
      var r := AfterTurn(multiple, s, turns[0]);
      if r.1.Some? then r else AfterTurns(multiple, r.0, turns[1..])
  }

  function Entered(user: int, codes: seq<int>): (s: Progress)
    ensures |s.codes| == |codes|
  {
    Progress(Listed(user, codes), 1, 0, TIMEOUT, [], 0)
  }

  // ---- the loop ----

  class Approval {
    const gmul: array<int>
    var scount: int
    var failures: nat
    var timeout: int
    ghost var approved: seq<int>
    ghost var free: nat

    constructor ()
      ensures gmul.Length == SLOTS && fresh(gmul)
    {
      gmul := new int[SLOTS];
      scount, failures, timeout, approved, free := 0, 0, 0, [], 0;
    }

    ghost function Here(): (s: Progress)
      reads this, gmul
    {
      Progress(gmul[..], scount, failures, timeout, approved, free)
    }

    /** Clears the first slot with a code. */
    method ClearCode(c: int) returns (ok: bool)
      requires gmul.Length == SLOTS
      modifies gmul
      ensures ok <==> c in old(gmul[..])
      ensures gmul[..] == WithoutFirst(old(gmul[..]), c)
    {
      var i := 0;
      while i < SLOTS
        invariant 0 <= i <= SLOTS && gmul[..] == old(gmul[..])
        invariant forall j :: 0 <= j < i ==> gmul[j] != c
      {
        if gmul[i] == c {
          gmul[i] := 0;
          return true;
        }
        i := i + 1;
      }
      return false;
    }

    method IsListed(c: int) returns (ok: bool)
      requires gmul.Length == SLOTS
      ensures ok <==> c in gmul[..]
    {
      var i := 0;
      while i < SLOTS
        invariant 0 <= i <= SLOTS
        invariant forall j :: 0 <= j < i ==> gmul[j] != c
      {
        if gmul[i] == c {
          return true;
        }
        i := i + 1;
      }
      return false;
    }

    /** One login: it succeeds exactly when it is admitted and its code is in a slot, and then it empties that slot. */
    method MultipleTaskAccess(a: Attempt) returns (ok: bool)
      requires gmul.Length == SLOTS
      modifies gmul
      ensures ok <==> a.Admitted() && a.Resolved() in old(gmul[..])
      ensures gmul[..] == if ok then WithoutFirst(old(gmul[..]), a.Resolved()) else old(gmul[..])
    {
      match a {
        case Finger(user) =>
          ok := ClearCode(AsWord(Short(user)));
          return;
        case Keyed(typed, found, user, fingerOnly, passes) =>
          var code := Short(typed);
          if code == -1 || code == 0 {
            return false;
          }
          if found {
            code := Short(user);
            if fingerOnly {
              return false;
            }
          }
          var listed := IsListed(AsWord(code));
          if !listed || !passes {
            return false;
          }
          ok := ClearCode(AsWord(code));
        case Radio(received, found, fingerOnly, passes) =>
          var code := Short(received);
          if code == -1 || code == 0 {
            return false;
          }
          if found && fingerOnly {
            return false;
          }
          var listed := IsListed(AsWord(code));
          if !listed || !passes {
            return false;
          }
          ok := ClearCode(AsWord(code));
        case Card(found, user, cardOnly, passes) =>
          if !found {
            return false;
          }
          if !cardOnly && !passes {
            return false;
          }
          ok := ClearCode(AsWord(Short(user)));
      }
    }

    /** One login with its bookkeeping. */
    method Attempted(a: Attempt)
      requires gmul.Length == SLOTS
      modifies this`scount, this`failures, this`approved, this`free, gmul
      ensures Here() == LoggedIn(old(Here()), a)
    {
      var ok := MultipleTaskAccess(a);
      if ok {
        scount := Short(scount + 1);
        failures := 0;
        if a.Resolved() != 0 {
          approved := approved + [a.Resolved()];
        } else {
          free := free + 1;
        }
      } else {
        failures := failures + 1;
      }
    }

    /** One turn of the loop. */
    method TakeTurn(multiple: int, t: Turn) returns (exit: Option<Exit>)
      requires gmul.Length == SLOTS
      modifies this, gmul
      ensures (Here(), exit) == AfterTurn(multiple, old(Here()), t)
    {
      hide LoggedIn;
      if !t.doorOpen {
        return Some(DoorClosed);
      }
      timeout := timeout - 1;
      if t.finger.Some? {
        Attempted(t.finger.value);
      }
      match t.action {
        case Nothing =>
        case Escape =>
          return Some(Cancelled);
        case Login(a) =>
          timeout := TIMEOUT;
          Attempted(a);
      }
      if failures >= MAX_FAILURES {
        return Some(TooManyFailures);
      }
      if multiple == scount % 0x100 {
        return Some(Access);
      }
      if timeout == 0 {
        return Some(TimedOut);
      }
      return None;
    }

    /** The approval loop on the turns that are taken; it has no exit if it is still waiting after them. */
    method Approve(multiple: int, user: int, codes: seq<int>, turns: seq<Turn>) returns (exit: Option<Exit>)
      requires gmul.Length == SLOTS == |codes|
      modifies this, gmul
      ensures (Here(), exit) == AfterTurns(multiple, Entered(user, codes), turns)
    {
      hide AfterTurn;
      SetUp(user, codes);
      scount, failures, timeout := 1, 0, TIMEOUT;
      approved, free := [], 0;
      for k := 0 to |turns|
        invariant AfterTurns(multiple, Here(), turns[k..]) == AfterTurns(multiple, Entered(user, codes), turns)
      {
        assert turns[k..][0] == turns[k] && turns[k..][1..] == turns[k + 1..];
        exit := TakeTurn(multiple, turns[k]);
        if exit.Some? {
          return;
        }
      }
      return None;
    }

    /** Fills the slots with the listed approvers. */
    method SetUp(user: int, codes: seq<int>)
      requires gmul.Length == SLOTS == |codes|
      modifies gmul
      ensures gmul[..] == Listed(user, codes)
    {
      var i := 0;
      while i < SLOTS
        invariant 0 <= i <= SLOTS
        invariant gmul[..i] == Listed(user, codes)[..i]
      {
        if user != codes[i] && codes[i] != 0 {
          gmul[i] := codes[i];
        } else {
          gmul[i] := 0;
        }
        i := i + 1;
      }
      assert gmul[..SLOTS] == gmul[..];
    }
  }

  // ---- what the count stands for ----

  /** The count is the user who asked, the approvers taken from the list and the logins with code 0. */
  predicate Conserved(listed: seq<int>, s: Progress) {
    && |s.codes| == |listed| && s.scount == Short(1 + |s.approved| + s.free)
    && Missing(listed) == Missing(s.codes) + multiset(s.approved)
  }

  /** A variable of 16 bits is off by a multiple of 65536, and is within its range. */
  lemma ShortIsOff(x: int) returns (k: int)
    ensures Short(x) == x + 0x1_0000 * k
  {
    k := if x % 0x1_0000 < 0x8000 then -(x / 0x1_0000) else -(x / 0x1_0000) - 1;
  }

  lemma ShortSame(x: int, y: int, k: int)
    requires y == x + 0x1_0000 * k
    ensures Short(y) == Short(x)
  {
    assert y % 0x1_0000 == x % 0x1_0000;
  }

  lemma ShortCounts(x: int)
    ensures Short(Short(x) + 1) == Short(x + 1) && Short(x) % 0x100 == x % 0x100
  {
    hide Short;
    var k := ShortIsOff(x);
    ShortSame(x + 1, Short(x) + 1, k);
    assert Short(x) == x + 0x100 * (0x100 * k);
  }

  lemma LoginConserves(listed: seq<int>, s: Progress, a: Attempt)
    requires Conserved(listed, s)
    ensures Conserved(listed, LoggedIn(s, a))
  {
    hide Missing, WithoutFirst, Short;
    if a.Admitted() && a.Resolved() in s.codes {
      LoginTakesOne(s.codes, a.Resolved());
      ShortCounts(1 + |s.approved| + s.free);
    }
  }

  /** Every turn, whatever logs in, keeps the count. */
  lemma TurnConserves(listed: seq<int>, s: Progress, t: Turn)
    requires Conserved(listed, s)
    ensures Conserved(listed, AfterLogins(s, t))
  {
    hide LoggedIn, Missing, Short;
    var a := s.(timeout := s.timeout - 1);
    if t.finger.Some? {
      LoginConserves(listed, a, t.finger.value);
    }
    var b := if t.finger.Some? then LoggedIn(a, t.finger.value) else a;
    if t.action.Login? {
      LoginConserves(listed, b.(timeout := TIMEOUT), t.action.attempt);
    }
  }

  /** Over every sequence of turns the count is conserved. */
  lemma {:induction false} TurnsConserve(listed: seq<int>, multiple: int, s: Progress, turns: seq<Turn>)
    requires Conserved(listed, s)
    ensures Conserved(listed, AfterTurns(multiple, s, turns).0)
    decreases |turns|
  {
    hide AfterLogins, Decided, Conserved;
    if turns != [] {
      TurnConserves(listed, s, turns[0]);
      var r := AfterTurn(multiple, s, turns[0]);
      if r.1.None? {
        TurnsConserve(listed, multiple, r.0, turns[1..]);
      }
    }
  }

  lemma {:induction false} MissingAtMost(codes: seq<int>)
    ensures |Missing(codes)| <= |codes|
    ensures |Missing(codes)| < |codes| <==> 0 in codes
  {
    if codes != [] {
      var p, last := codes[..|codes| - 1], codes[|codes| - 1];
      MissingAtMost(p);
      assert codes == p + [last];
    }
  }

  // ---- logins with code 0 ----

  /** The id that a login is resolved from. */
  function GivenId(a: Attempt): int {
    match a
    case Finger(user) => user
    case Keyed(typed, found, user, _, _) => if found then user else typed
    case Radio(code, _, _, _) => code
    case Card(_, user, _, _) => user
  }

  lemma WithoutZero(codes: seq<int>)
    ensures WithoutFirst(codes, 0) == codes
  {
  }

  /**
   A login counts without an approver exactly when it is admitted with an id that is a multiple of 65536 and some slot is
   empty. It then counts as a user and leaves the list as it is.
   */
  lemma FreeLogin(s: Progress, a: Attempt)
    ensures var u := LoggedIn(s, a);
            && (u.free > s.free <==> a.Admitted() && GivenId(a) % 0x1_0000 == 0 && |Missing(s.codes)| < |s.codes|)
            && (u.free > s.free ==> u == s.(scount := Short(s.scount + 1), failures := 0, free := s.free + 1))
  {
    hide WithoutFirst, Missing;
    MissingAtMost(s.codes);
    WithoutZero(s.codes);
  }

  /** A user whose id is 65536, logging in with a card. */
  const OUTSIDER := Turn(true, None, Login(Card(true, 0x1_0000, true, true)))

  lemma OutsiderTurn(s: Progress)
    requires 0 in s.codes
    ensures AfterLogins(s, OUTSIDER)
         == s.(scount := Short(s.scount + 1), failures := 0, timeout := TIMEOUT, free := s.free + 1)
  {
    hide WithoutFirst;
    WithoutZero(s.codes);
  }

  lemma {:induction false} OutsidersEnter(multiple: int, s: Progress)
    requires 0 in s.codes && 1 <= s.scount < multiple < 0x100
    ensures var r := AfterTurns(multiple, s, seq(multiple - s.scount, _ => OUTSIDER));
            r.1 == Some(Access) && r.0.approved == s.approved && r.0.codes == s.codes
    decreases multiple - s.scount
  {
    hide AfterLogins;
    var n := multiple - s.scount;
    var turns := seq(n, _ => OUTSIDER);
    OutsiderTurn(s);
    assert turns[0] == OUTSIDER && turns[1..] == seq(n - 1, _ => OUTSIDER);
    if n > 1 {
      OutsidersEnter(multiple, AfterLogins(s, OUTSIDER));
    }
  }

  /**
   Whatever number of users a task needs, logins of one user who is not on its list give access, approved by no one, if
   the list has an empty slot.
   */
  lemma UnapprovedAccess(multiple: int, user: int, codes: seq<int>)
    requires 1 < multiple < 0x100 && 0 in Listed(user, codes)
    ensures var r := AfterTurns(multiple, Entered(user, codes), seq(multiple - 1, _ => OUTSIDER));
            r.1 == Some(Access) && r.0.approved == [] && r.0.codes == Listed(user, codes)
  {
    OutsidersEnter(multiple, Entered(user, codes));
  }

  // ---- what access means ----

  predicate DistinctCodes(codes: seq<int>) {
    forall i, j :: 0 <= i < j < |codes| && codes[i] == codes[j] ==> codes[i] == 0
  }

  lemma {:induction false} DistinctOnce(codes: seq<int>, c: int)
    requires DistinctCodes(codes)
    ensures Missing(codes)[c] <= 1
  {
    if codes != [] {
      var p, last := codes[..|codes| - 1], codes[|codes| - 1];
      DistinctOnce(p, c);
      MissingHas(p, c);
    }
  }

  /** One user can approve twice exactly when the list names that user twice. */
  lemma SecondLogin(codes: seq<int>, c: int)
    requires c != 0 && c in codes
    ensures c in WithoutFirst(codes, c) <==> Missing(codes)[c] >= 2
  {
    LoginTakesOne(codes, c);
    MissingHas(WithoutFirst(codes, c), c);
  }

  /** Whatever has logged in, those who approved are listed, are not the user who asked, and are distinct if the list is. */
  lemma ApprovedAreListed(user: int, codes: seq<int>, s: Progress)
    requires Conserved(Listed(user, codes), s)
    ensures forall i :: 0 <= i < |s.approved| ==> s.approved[i] in codes && s.approved[i] != user && s.approved[i] != 0
    ensures DistinctCodes(codes) ==> forall i, j :: 0 <= i < j < |s.approved| ==> s.approved[i] != s.approved[j]
    ensures |s.approved| <= |codes|
  {
    var approved := s.approved;
    MissingAtMost(Listed(user, codes));
    forall i | 0 <= i < |approved| ensures approved[i] in codes && approved[i] != user && approved[i] != 0 {
      assert approved[i] in multiset(approved);
      assert approved[i] in Missing(Listed(user, codes));
      MissingHas(Listed(user, codes), approved[i]);
    }
    if DistinctCodes(codes) {
      forall i, j | 0 <= i < j < |approved| ensures approved[i] != approved[j] {
        DistinctOnce(Listed(user, codes), approved[i]);
        Twice(approved, i, j);
      }
    }
  }

  /**
   Access after any sequence of turns: those who approved are on the list and none of them is the user who asked; they are
   as many as the task requires, less that user, exactly when the logins with code 0 are a multiple of 256, as when there
   are none.
   */
  lemma AccessMeansApproved(multiple: int, user: int, codes: seq<int>, turns: seq<Turn>)
    requires 0 < multiple < 0x100 && |codes| == SLOTS
    requires AfterTurns(multiple, Entered(user, codes), turns).1 == Some(Access)
    ensures var s := AfterTurns(multiple, Entered(user, codes), turns).0;
            && (forall i :: 0 <= i < |s.approved| ==> s.approved[i] in codes && s.approved[i] != user && s.approved[i] != 0)
            && (DistinctCodes(codes) ==> forall i, j :: 0 <= i < j < |s.approved| ==> s.approved[i] != s.approved[j])
            && (1 + |s.approved| == multiple <==> s.free % 0x100 == 0)
  {
    hide Listed, Missing, DistinctCodes, Short, AfterTurns, Entered;
    var start := Entered(user, codes);
    var s := AfterTurns(multiple, start, turns).0;
    EnteredConserves(user, codes);
    TurnsConserve(Listed(user, codes), multiple, start, turns);
    ApprovedAreListed(user, codes, s);
    AccessAtCount(multiple, start, turns);
    ShortCounts(1 + |s.approved| + s.free);
  }

  /** Every login of a turn resolves to a code other than 0. */
  predicate Resolves(t: Turn) {
    && (t.finger.Some? ==> t.finger.value.Resolved() != 0)
    && (t.action.Login? ==> t.action.attempt.Resolved() != 0)
  }

  lemma {:induction false} NoFreeLogins(multiple: int, s: Progress, turns: seq<Turn>)
    requires forall k :: 0 <= k < |turns| ==> Resolves(turns[k])
    ensures AfterTurns(multiple, s, turns).0.free == s.free
    decreases |turns|
  {
    hide Decided, AfterLogins, Resolves;
    if turns != [] {
      NoFreeTurn(s, turns[0]);
      var r := AfterTurn(multiple, s, turns[0]);
      if r.1.None? {
        NoFreeLogins(multiple, r.0, turns[1..]);
      }
    }
  }

  lemma NoFreeTurn(s: Progress, t: Turn)
    requires Resolves(t)
    ensures AfterLogins(s, t).free == s.free
  {
    hide WithoutFirst;
  }

  /** Without logins of code 0, access takes exactly as many approvers as the task requires, less the user who asked. */
  lemma AccessNeedsApprovers(multiple: int, user: int, codes: seq<int>, turns: seq<Turn>)
    requires 0 < multiple < 0x100 && |codes| == SLOTS
    requires forall k :: 0 <= k < |turns| ==> Resolves(turns[k])
    requires AfterTurns(multiple, Entered(user, codes), turns).1 == Some(Access)
    ensures |AfterTurns(multiple, Entered(user, codes), turns).0.approved| == multiple - 1
  {
    hide Resolves, AfterTurns;
    NoFreeLogins(multiple, Entered(user, codes), turns);
    AccessMeansApproved(multiple, user, codes, turns);
  }

  lemma EnteredConserves(user: int, codes: seq<int>)
    ensures Conserved(Listed(user, codes), Entered(user, codes))
  {
  }

  lemma {:induction false} AccessAtCount(multiple: int, s: Progress, turns: seq<Turn>)
    requires AfterTurns(multiple, s, turns).1 == Some(Access)
    ensures multiple == AfterTurns(multiple, s, turns).0.scount % 0x100
    decreases |turns|
  {
    hide AfterLogins;
    if turns != [] && AfterTurn(multiple, s, turns[0]).1.None? {
      AccessAtCount(multiple, AfterTurn(multiple, s, turns[0]).0, turns[1..]);
    }
  }

  lemma Twice(s: seq<int>, i: nat, j: nat)
    requires i < j < |s|
    ensures s[i] == s[j] ==> multiset(s)[s[i]] >= 2
  {
    assert s == s[..j] + s[j..];
    assert s[..j][i] in multiset(s[..j]);
    assert s[j..][0] in multiset(s[j..]);
  }

  // ---- who may approve ----

  /**
   What a login has shown of its user: a finger, the PIN, or a card that is enough by itself. A user whose record asks for
   a finger shows nothing by typing or sending a code.
   */
  predicate Proven(a: Attempt) {
    match a
    case Finger(_) => true
    case Keyed(_, found, _, fingerOnly, passes) => passes && (found ==> !fingerOnly)
    case Radio(_, found, fingerOnly, passes) => passes && (found ==> !fingerOnly)
    case Card(found, _, cardOnly, passes) => found && (cardOnly || passes)
  }

  /** The codes of the proven logins of a turn, and of a sequence of turns. */
  function ProvenIn(t: Turn): seq<int> {
    (if t.finger.Some? && Proven(t.finger.value) then [t.finger.value.Resolved()] else [])
    + (if t.action.Login? && Proven(t.action.attempt) then [t.action.attempt.Resolved()] else [])
  }

  function ProvenCodes(turns: seq<Turn>): seq<int> {
    if turns == [] then [] else ProvenIn(turns[0]) + ProvenCodes(turns[1..])
  }

  /** Without proof a login changes nothing but the count of failures. */
  lemma UnprovenFails(s: Progress, a: Attempt)
    requires !Proven(a)
    ensures LoggedIn(s, a) == s.(failures := s.failures + 1)
  {
  }

  /** Nor does it count to type or send a code that is 0 or -1 in 16 bits, with or without a PIN. */
  lemma BlankCodeFails(s: Progress, a: Attempt)
    requires BlankCode(a)
    ensures LoggedIn(s, a) == s.(failures := s.failures + 1)
  {
  }

  /** What was typed or sent resolves to no user: it is 0 or -1 in 16 bits. */
  predicate BlankCode(a: Attempt) {
    && (a.Keyed? || a.Radio?)
    && var code := if a.Keyed? then a.typed else a.code; code % 0x1_0000 == 0 || code % 0x1_0000 == 0xFFFF
  }

  lemma ResolvedIs(x: int, c: int)
    requires 0 < c < WORD
    ensures AsWord(Short(x)) == c <==> (c < 0x8000 || c >= WORD - 0x8000) && x % 0x1_0000 == c % 0x1_0000
  {
    AsWordIs(Short(x));
    hide AsWord;
  }

  lemma AdmittedIs(a: Attempt)
    ensures a.Admitted() <==> Proven(a) && !BlankCode(a)
    ensures a.Resolved() == AsWord(Short(GivenId(a)))
  {
    hide AsWord;
  }

  /**
   An approver is taken by a login exactly if it is proven, its code is not blank, the approver's code comes through the
   16 bits and is what becomes of the id the login goes by, and the approver is still missing.
   */
  lemma ApprovesExactly(s: Progress, a: Attempt, c: int)
    requires 0 < c < WORD
    ensures LoggedIn(s, a).approved == s.approved + [c]
       <==> Proven(a) && !BlankCode(a) && c in s.codes
            && (c < 0x8000 || c >= WORD - 0x8000) && GivenId(a) % 0x1_0000 == c % 0x1_0000
  {
    hide WithoutFirst, Attempt.Admitted, Attempt.Resolved, Short, AsWord, Proven, BlankCode, GivenId;
    AdmittedIs(a);
    ResolvedIs(GivenId(a), c);
    var u := LoggedIn(s, a);
    assert u.approved == s.approved + [c] <==> |u.approved| == |s.approved| + 1 && u.approved[|s.approved|] == c;
  }

  /** Of the two logins of a turn the finger comes first: the failures left are those of the key or card. */
  lemma FingerIsFirst(s: Progress, good: Attempt, bad: Attempt)
    requires Proven(good) && !BlankCode(good) && good.Resolved() in s.codes && !Proven(bad)
    ensures AfterLogins(s, Turn(true, Some(bad), Login(good))).failures == 0
    ensures AfterLogins(s, Turn(true, Some(good), Login(bad))).failures == 1
  {
    hide WithoutFirst;
  }

  /** The codes of all logins that counted, those with code 0 among them. */
  function Counted(s: Progress): multiset<int> {
    multiset(s.approved) + multiset{}[0 := s.free]
  }

  lemma LoginProven(s: Progress, a: Attempt)
    ensures Counted(LoggedIn(s, a)) <= Counted(s) + if Proven(a) then multiset{a.Resolved()} else multiset{}
  {
    hide WithoutFirst, Short;
  }

  lemma TimeNotCounted(s: Progress, timeout: int)
    ensures Counted(s.(timeout := timeout)) == Counted(s)
  {
  }

  lemma TurnProven(s: Progress, t: Turn)
    ensures Counted(AfterLogins(s, t)) <= Counted(s) + multiset(ProvenIn(t))
  {
    hide LoggedIn, Proven, Counted;
    var a := s.(timeout := s.timeout - 1);
    var b := if t.finger.Some? then LoggedIn(a, t.finger.value) else a;
    TimeNotCounted(s, a.timeout);
    TimeNotCounted(b, TIMEOUT);
    if t.finger.Some? {
      LoginProven(a, t.finger.value);
    }
    if t.action.Login? {
      LoginProven(b.(timeout := TIMEOUT), t.action.attempt);
    }
  }

  /** Over every sequence of turns whatever counts takes a proven login with that code, and no login serves for two. */
  lemma {:induction false} CountedAreProven(multiple: int, s: Progress, turns: seq<Turn>)
    ensures Counted(AfterTurns(multiple, s, turns).0) <= Counted(s) + multiset(ProvenCodes(turns))
    decreases |turns|
  {
    hide AfterLogins, Decided, ProvenIn, Counted;
    if turns != [] {
      TurnProven(s, turns[0]);
      var r := AfterTurn(multiple, s, turns[0]);
      if r.1.None? {
        CountedAreProven(multiple, r.0, turns[1..]);
      }
    }
  }

  /** A missing approver whose code comes through the 16 bits is approved by finger, PIN or card, in whichever way. */
  lemma ProvenApproves(s: Progress, c: int, fingerOnly: bool, cardOnly: bool, known: bool)
    requires c in s.codes && 0 < c < 0x8000
    ensures var u := s.(codes := WithoutFirst(s.codes, c), scount := Short(s.scount + 1), failures := 0, approved := s.approved + [c]);
            && LoggedIn(s, Finger(c)) == u
            && LoggedIn(s, Keyed(c, true, c, false, true)) == u
            && LoggedIn(s, Keyed(c, false, 0, fingerOnly, true)) == u
            && LoggedIn(s, Radio(c, known, fingerOnly && !known, true)) == u
            && LoggedIn(s, Card(true, c, true, cardOnly)) == u && LoggedIn(s, Card(true, c, cardOnly, true)) == u
  {
    hide WithoutFirst;
  }

  // ---- giving up ----

  /** A turn that is not cut short gives access exactly when it leaves the required count and fewer than five failures. */
  lemma ReachedIsAccess(multiple: int, s: Progress, t: Turn)
    requires t.doorOpen && !t.action.Escape?
    ensures AfterTurn(multiple, s, t).1 == Some(Access)
       <==> AfterLogins(s, t).failures < 5 && multiple == AfterLogins(s, t).scount % 0x100
    ensures AfterTurn(multiple, s, t).1 == Some(TimedOut) ==> AfterLogins(s, t).timeout == 0
  {
    hide LoggedIn;
  }

  /** A closed door or the escape key ends the loop at once. */
  lemma LeftAtOnce(multiple: int, s: Progress, t: Turn)
    ensures !t.doorOpen ==> AfterTurn(multiple, s, t) == (s, Some(DoorClosed))
    ensures t.doorOpen && t.action.Escape? ==> AfterTurn(multiple, s, t).1 == Some(Cancelled)
  {
    hide LoggedIn;
  }

  /** A turn with one login that shows nothing. */
  predicate OneFailure(t: Turn) {
    t.doorOpen && t.finger.None? && t.action.Login? && !Proven(t.action.attempt)
  }

  /** A turn in which nothing happens. */
  predicate Quiet(t: Turn) {
    t.doorOpen && t.finger.None? && t.action.Nothing?
  }

  /** The fifth failure in a row ends the loop, and no earlier one does. */
  lemma {:induction false} FailuresEnd(multiple: int, s: Progress, turns: seq<Turn>)
    requires multiple != s.scount % 0x100 && s.failures < MAX_FAILURES
    requires forall k :: 0 <= k < |turns| ==> OneFailure(turns[k])
    ensures var r := AfterTurns(multiple, s, turns);
            && r.1 == (if s.failures + |turns| < 5 then None else Some(TooManyFailures))
            && r.0.codes == s.codes && r.0.scount == s.scount && r.0.approved == s.approved
    decreases |turns|
  {
    hide LoggedIn, Proven;
    if turns != [] {
      UnprovenFails(s.(timeout := TIMEOUT), turns[0].action.attempt);
      var r := AfterTurn(multiple, s, turns[0]);
      if r.1.None? {
        FailuresEnd(multiple, r.0, turns[1..]);
      }
    }
  }

  /** The loop ends when the turns left are used up without a key or card, and not before. */
  lemma {:induction false} QuietEnds(multiple: int, s: Progress, turns: seq<Turn>)
    requires multiple != s.scount % 0x100 && s.failures < MAX_FAILURES && 0 < s.timeout
    requires forall k :: 0 <= k < |turns| ==> Quiet(turns[k])
    ensures var r := AfterTurns(multiple, s, turns);
            && r.1 == (if |turns| < s.timeout then None else Some(TimedOut))
            && r.0.codes == s.codes && r.0.scount == s.scount && r.0.approved == s.approved
    decreases |turns|
  {
    if turns != [] {
      var r := AfterTurn(multiple, s, turns[0]);
      if r.1.None? {
        QuietEnds(multiple, r.0, turns[1..]);
      }
    }
  }

  /** Every turn with a key or card leaves thirty turns, and a login that succeeds leaves five failures. */
  lemma LoginRestarts(s: Progress, t: Turn)
    requires t.action.Login?
    ensures AfterLogins(s, t).timeout == 30
    ensures AfterLogins(s, t).scount != s.scount && t.finger.None? ==> AfterLogins(s, t).failures == 0
  {
    hide WithoutFirst;
  }

  // ---- stepping over the count ----

  predicate Succeeds(a: Attempt, codes: seq<int>) {
    a.Admitted() && a.Resolved() in codes
  }

  /**
   A turn ends above the required count exactly when the count was one short of it and both logins of the turn succeed, or
   had reached it before the first turn, as for a task that needs one user only, and one login succeeds.
   */
  lemma StepsOver(multiple: int, s: Progress, t: Turn)
    requires 0 <= s.scount <= multiple < 0x100
    ensures var first := t.finger.Some? && Succeeds(t.finger.value, s.codes);
            var left := if first then WithoutFirst(s.codes, t.finger.value.Resolved()) else s.codes;
            var second := t.action.Login? && Succeeds(t.action.attempt, left);
            AfterLogins(s, t).scount > multiple <==>
            (s.scount == multiple - 1 && first && second) || (s.scount == multiple && (first || second))
  {
    hide WithoutFirst;
  }

  /** Once the count is above the required one, no approvers can give access any more. */
  lemma {:induction false} NoAccessAbove(listed: seq<int>, multiple: int, s: Progress, turns: seq<Turn>)
    requires Conserved(listed, s) && |listed| == SLOTS && 0 < multiple < s.scount && s.free == 0
    requires forall k :: 0 <= k < |turns| ==> Resolves(turns[k])
    ensures AfterTurns(multiple, s, turns).1 != Some(Access)
    decreases |turns|
  {
    hide Missing, AfterLogins, Resolves;
    if turns != [] {
      var u := AfterLogins(s, turns[0]);
      TurnConserves(listed, s, turns[0]);
      AboveStays(listed, multiple, s, turns[0]);
      if AfterTurn(multiple, s, turns[0]).1.None? {
        NoAccessAbove(listed, multiple, u, turns[1..]);
      }
    }
  }

  lemma CountSmall(listed: seq<int>, s: Progress)
    requires Conserved(listed, s) && |listed| == SLOTS && s.free == 0
    ensures s.scount == 1 + |s.approved| <= 1 + SLOTS
  {
    MissingAtMost(listed);
  }

  lemma AboveStays(listed: seq<int>, multiple: int, s: Progress, t: Turn)
    requires Conserved(listed, s) && |listed| == SLOTS && 0 < multiple < s.scount && s.free == 0 && Resolves(t)
    ensures var u := AfterLogins(s, t); u.free == 0 && multiple < u.scount < 0x100
  {
    hide Missing, WithoutFirst, Conserved;
    CountSmall(listed, s);
  }

  // ---- the end of the loop ----

  /** Both logins of a turn resolve to the code 0. */
  predicate BothZero(t: Turn) {
    && t.finger.Some? && t.finger.value.Resolved() == 0
    && t.action.Login? && t.action.attempt.Resolved() == 0
  }

  /** A code that some login resolves to: it comes through a signed 16-bit variable. */
  predicate Resolvable(c: int) {
    0 <= c < 0x8000 || WORD - 0x8000 <= c < WORD
  }

  /** No login can succeed: neither an empty slot nor a code that a login resolves to is there. */
  predicate Closed(codes: seq<int>) {
    forall c :: c in codes ==> !Resolvable(c)
  }

  lemma ResolvedIsResolvable(a: Attempt)
    ensures Resolvable(a.Resolved())
  {
  }

  lemma ClosedStays(s: Progress, t: Turn)
    requires Closed(s.codes)
    ensures AfterLogins(s, t).codes == s.codes
  {
    hide WithoutFirst, Resolvable;
    if t.finger.Some? {
      ResolvedIsResolvable(t.finger.value);
    }
    if t.action.Login? {
      ResolvedIsResolvable(t.action.attempt);
    }
  }

  /** How far the required count is, modulo a byte. */
  function Ahead(multiple: int, s: Progress): (d: nat)
    ensures d < 0x100
  {
    (multiple - s.scount) % 0x100
  }

  /** The loop goes on: the count is not the required one, and there are failures and turns left. */
  predicate Waiting(multiple: int, s: Progress) {
    |s.codes| == SLOTS && Ahead(multiple, s) > 0 && s.failures < MAX_FAILURES && 0 < s.timeout <= TIMEOUT
  }

  function Weight(missing: nat, ahead: nat, failures: nat, timeout: int): int {
    ((missing * 0x100 + ahead) * MAX_FAILURES + MAX_FAILURES - 1 - failures) * TIMEOUT + timeout
  }

  lemma WeightFalls(m: nat, d: nat, f: nat, t: int, m': nat, d': nat, f': nat, t': int)
    requires d < 0x100 && d' < 0x100 && f < MAX_FAILURES && f' < MAX_FAILURES && 0 < t <= TIMEOUT && 0 < t' <= TIMEOUT
    requires m' < m || (m' == m && (d' < d || (d' == d && (f' > f || (f' == f && t' < t)))))
    ensures Weight(m', d', f', t') < Weight(m, d, f, t)
  {
  }

  /** Approvers missing, users missing, failures left and turns left, in that order. */
  function Left(multiple: int, s: Progress): (n: int)
    ensures Waiting(multiple, s) ==> n > 0
  {
    Weight(|Missing(s.codes)|, Ahead(multiple, s), s.failures, s.timeout)
  }

  const MOST_TURNS := 230400

  lemma LeftAtMost(multiple: int, s: Progress)
    requires Waiting(multiple, s)
    ensures Left(multiple, s) <= MOST_TURNS
  {
    MissingAtMost(s.codes);
  }

  lemma LoginEffect(s: Progress, a: Attempt)
    ensures var u := LoggedIn(s, a);
            || u == s.(failures := s.failures + 1)
            || (a.Resolved() != 0 && u.failures == 0 && u.timeout == s.timeout && |Missing(u.codes)| == |Missing(s.codes)| - 1)
            || (a.Resolved() == 0 && u == s.(scount := Short(s.scount + 1), failures := 0, free := s.free + 1))
  {
    hide Missing, WithoutFirst, Short;
    if Succeeds(a, s.codes) {
      LoginTakesOne(s.codes, a.Resolved());
      WithoutZero(s.codes);
    }
  }

  lemma AheadNext(multiple: int, x: int)
    requires (multiple - x) % 0x100 > 0
    ensures (multiple - Short(x + 1)) % 0x100 == (multiple - x) % 0x100 - 1
  {
    hide Short;
    var k := ShortIsOff(x + 1);
    OneLess(multiple - x);
    ByteSame(multiple - x - 1, -0x100 * k);
  }

  lemma OneLess(a: int)
    requires a % 0x100 > 0
    ensures (a - 1) % 0x100 == a % 0x100 - 1
  {
  }

  lemma ByteSame(a: int, q: int)
    ensures (a + 0x100 * q) % 0x100 == a % 0x100
  {
  }

  /** Fewer approvers missing, or as many and fewer users, or as many of both and more failures. */
  predicate Fell(multiple: int, s: Progress, u: Progress) {
    var m, m' := |Missing(s.codes)|, |Missing(u.codes)|;
    var d, d' := Ahead(multiple, s), Ahead(multiple, u);
    m' < m || (m' == m && (d' < d || (d' == d && u.failures > s.failures)))
  }

  lemma LoginFell(multiple: int, s: Progress, a: Attempt)
    requires a.Resolved() == 0 ==> Ahead(multiple, s) > 0 || 0 !in s.codes
    ensures Fell(multiple, s, LoggedIn(s, a))
  {
    hide Missing, Short, WithoutFirst;
    LoginEffect(s, a);
    if a.Resolved() == 0 && Ahead(multiple, s) > 0 {
      AheadNext(multiple, s.scount);
    }
  }

  lemma TurnFell(multiple: int, s: Progress, t: Turn)
    requires Ahead(multiple, s) > 0 && (BothZero(t) ==> 0 !in s.codes) && (t.finger.Some? || t.action.Login?)
    ensures Fell(multiple, s, AfterLogins(s, t))
  {
    hide LoggedIn, Missing, Fell;
    var a := s.(timeout := s.timeout - 1);
    var b := if t.finger.Some? then LoggedIn(a, t.finger.value) else a;
    SameButTime(multiple, s, a);
    if t.finger.Some? {
      LoginFell(multiple, a, t.finger.value);
      FellApart(multiple, s, a, b);
    }
    if t.action.Login? {
      SecondFell(multiple, s, b, t);
    }
  }

  lemma SameButTime(multiple: int, s: Progress, a: Progress)
    requires a == s.(timeout := a.timeout)
    ensures Ahead(multiple, a) == Ahead(multiple, s)
  {
  }

  lemma FellApart(multiple: int, s: Progress, a: Progress, u: Progress)
    requires a == s.(timeout := a.timeout) && Fell(multiple, a, u)
    ensures Fell(multiple, s, u)
  {
  }

  /** The login after the finger: if the finger took an approver it cannot undo that, and otherwise it adds to the fall. */
  lemma SecondFell(multiple: int, s: Progress, b: Progress, t: Turn)
    requires Ahead(multiple, s) > 0 && (BothZero(t) ==> 0 !in s.codes) && t.action.Login?
    requires var a := s.(timeout := s.timeout - 1);
             if t.finger.Some? then b == LoggedIn(a, t.finger.value) && Fell(multiple, s, b) else b == a
    ensures Fell(multiple, s, LoggedIn(b.(timeout := TIMEOUT), t.action.attempt))
  {
    hide LoggedIn, Missing, Short;
    var c := b.(timeout := TIMEOUT);
    LoginEffect(c, t.action.attempt);
    if t.finger.Some? {
      LoginEffect(s.(timeout := s.timeout - 1), t.finger.value);
    }
    if |Missing(b.codes)| == |Missing(s.codes)| {
      LoginFell(multiple, c, t.action.attempt);
    }
  }

  lemma TurnShrinks(multiple: int, s: Progress, t: Turn)
    requires Waiting(multiple, s) && (BothZero(t) ==> 0 !in s.codes) && AfterTurn(multiple, s, t).1.None?
    requires 0 <= multiple < 0x100
    ensures var u := AfterLogins(s, t); Waiting(multiple, u) && Left(multiple, u) < Left(multiple, s)
  {
    hide LoggedIn, Missing, Short, Weight, BothZero;
    var u := AfterLogins(s, t);
    if t.finger.Some? || t.action.Login? {
      TurnFell(multiple, s, t);
    }
    TimeLeft(s, t);
    StillWaiting(multiple, s, t);
    WeightFalls(|Missing(s.codes)|, Ahead(multiple, s), s.failures, s.timeout,
                |Missing(u.codes)|, Ahead(multiple, u), u.failures, u.timeout);
  }

  lemma TimeLeft(s: Progress, t: Turn)
    ensures AfterLogins(s, t).timeout == if t.action.Login? then TIMEOUT else s.timeout - 1
  {
    hide WithoutFirst;
  }

  lemma StillWaiting(multiple: int, s: Progress, t: Turn)
    requires Waiting(multiple, s) && AfterTurn(multiple, s, t).1.None? && 0 <= multiple < 0x100
    ensures Waiting(multiple, AfterLogins(s, t))
  {
    hide LoggedIn, Missing;
    TimeLeft(s, t);
    NotAhead(multiple, AfterLogins(s, t));
  }

  lemma NotAhead(multiple: int, s: Progress)
    requires 0 <= multiple < 0x100
    ensures Ahead(multiple, s) == 0 ==> multiple == s.scount % 0x100
  {
  }

  lemma {:induction false} TurnsEnd(multiple: int, s: Progress, turns: seq<Turn>)
    requires Waiting(multiple, s) && 0 <= multiple < 0x100
    requires Closed(s.codes) || forall k :: 0 <= k < |turns| ==> !BothZero(turns[k])
    requires |turns| >= Left(multiple, s)
    ensures AfterTurns(multiple, s, turns).1.Some?
    decreases |turns|
  {
    assert Closed(s.codes) ==> 0 !in s.codes by { assert Resolvable(0); }
    hide AfterLogins, Decided, Waiting, Left, BothZero, Closed;
    assert Left(multiple, s) > 0;
    if AfterTurn(multiple, s, turns[0]).1.None? {
      TurnShrinks(multiple, s, turns[0]);
      if Closed(s.codes) {
        ClosedStays(s, turns[0]);
      }
      TurnsEnd(multiple, AfterLogins(s, turns[0]), turns[1..]);
    }
  }

  /** The loop ends if never both logins of a turn resolve to the code 0, or if no login can succeed at all. */
  lemma ApprovalEnds(multiple: int, user: int, codes: seq<int>, turns: seq<Turn>)
    requires 0 < multiple < 0x100 && |codes| == SLOTS
    requires Closed(Listed(user, codes)) || forall k :: 0 <= k < |turns| ==> !BothZero(turns[k])
    requires |turns| > MOST_TURNS
    ensures AfterTurns(multiple, Entered(user, codes), turns).1.Some?
  {
    hide BothZero, Missing, Left, Listed, Closed, AfterLogins, Decided, Waiting;
    var s := Entered(user, codes);
    if AfterTurn(multiple, s, turns[0]).1.None? {
      var u := AfterLogins(s, turns[0]);
      FirstTurn(multiple, s, turns[0]);
      if Closed(s.codes) {
        ClosedStays(s, turns[0]);
      }
      LeftAtMost(multiple, u);
      TurnsEnd(multiple, u, turns[1..]);
    }
  }

  lemma FirstTurn(multiple: int, s: Progress, t: Turn)
    requires |s.codes| == SLOTS && s.timeout == TIMEOUT && 0 < multiple < 0x100 && AfterTurn(multiple, s, t).1.None?
    ensures Waiting(multiple, AfterLogins(s, t))
  {
    hide LoggedIn, Missing;
    TimeLeft(s, t);
    NotAhead(multiple, AfterLogins(s, t));
  }

  // ---- a loop that goes on ----

  /**
   Two logins with code 0 in one turn: a finger and a card. The reader reports the finger under a multiple of 65536; the
   firmware looks up the low 16 bits and accepts a record of id 0 whose finger flag is 1, as a deleted record keeps it.
   */
  const PAIR := Turn(true, Some(Finger(0x1_0000)), OUTSIDER.action)

  lemma ParityStays(x: int)
    ensures var y := Short(Short(x + 1) + 1); y % 2 == x % 2 && y % 0x100 % 2 == x % 2
  {
    hide Short;
    var k := ShortIsOff(x + 1);
    var l := ShortIsOff(Short(x + 1) + 1);
    var y := Short(Short(x + 1) + 1);
    SameParity(x, y, 1 + 0x8000 * (k + l));
    SameParity(y, y % 0x100, -0x80 * (y / 0x100));
  }

  lemma SameParity(x: int, y: int, q: int)
    requires y == x + 2 * q
    ensures y % 2 == x % 2
  {
  }

  lemma PairTurn(s: Progress)
    requires 0 in s.codes
    ensures AfterLogins(s, PAIR)
         == s.(scount := Short(Short(s.scount + 1) + 1), failures := 0, timeout := TIMEOUT, free := s.free + 2)
  {
    hide WithoutFirst;
    WithoutZero(s.codes);
  }

  /** A count of the other parity steps over the required one for ever. */
  lemma {:induction false} PairsNeverEnd(multiple: int, s: Progress, n: nat)
    requires s.scount % 2 != multiple % 2 && 0 in s.codes
    ensures AfterTurns(multiple, s, seq(n, _ => PAIR)).1.None?
    decreases n
  {
    hide AfterLogins, Short;
    if n > 0 {
      var turns := seq(n, _ => PAIR);
      PairTurn(s);
      ParityStays(s.scount);
      assert turns[0] == PAIR && turns[1..] == seq(n - 1, _ => PAIR);
      PairsNeverEnd(multiple, AfterLogins(s, PAIR), n - 1);
    }
  }

  function FirstTurns(turns: nat -> Turn, n: nat): (s: seq<Turn>)
    ensures |s| == n
  {
    seq(n, k requires 0 <= k < n => turns(k))
  }

  /** However many of the turns are taken, the loop is still waiting. */
  ghost predicate GoesOn(multiple: int, user: int, codes: seq<int>, turns: nat -> Turn) {
    forall n: nat :: AfterTurns(multiple, Entered(user, codes), FirstTurns(turns, n)).1.None?
  }

  function ThenPairs(first: Turn): nat -> Turn {
    (k: nat) => if k == 0 then first else PAIR
  }

  /** A first turn that leaves an empty slot and a count of the other parity is enough. */
  lemma PairsGoOn(multiple: int, user: int, codes: seq<int>, first: Turn)
    requires var s := Entered(user, codes); var u := AfterLogins(s, first);
             && AfterTurn(multiple, s, first) == (u, None)
             && u.scount % 2 != multiple % 2 && 0 in u.codes
    ensures GoesOn(multiple, user, codes, ThenPairs(first))
  {
    hide AfterLogins, Entered, Decided;
    var s := Entered(user, codes);
    forall n: nat ensures AfterTurns(multiple, s, FirstTurns(ThenPairs(first), n)).1.None? {
      if n > 0 {
        var turns := FirstTurns(ThenPairs(first), n);
        assert turns[0] == first && turns[1..] == seq(n - 1, _ => PAIR);
        PairsNeverEnd(multiple, AfterLogins(s, first), n - 1);
      }
    }
  }

  /** With an empty slot: one login of code 0 before the pairs if the count has to become even. */
  lemma EmptySlotGoesOn(multiple: int, user: int, codes: seq<int>) returns (first: Turn)
    requires 0 < multiple < 0x100 && 0 in Listed(user, codes)
    ensures GoesOn(multiple, user, codes, ThenPairs(first))
  {
    hide Listed, AfterLogins;
    var s := Entered(user, codes);
    if multiple % 2 == 0 {
      first := PAIR;
      PairTurn(s);
    } else {
      first := OUTSIDER;
      OutsiderTurn(s);
    }
    PairsGoOn(multiple, user, codes, first);
  }

  /** With a full list: an approver logs in first, by card, or by finger along with a card of code 0. */
  lemma FullListGoesOn(multiple: int, user: int, codes: seq<int>, c: int) returns (first: Turn)
    requires 0 < multiple < 0x100 && c in Listed(user, codes) && c != 0 && Resolvable(c)
    ensures GoesOn(multiple, user, codes, ThenPairs(first))
  {
    hide Listed, WithoutFirst;
    var s := Entered(user, codes);
    var d := WithoutFirst(s.codes, c);
    EmptiedSlot(s.codes, c);
    WithoutZero(d);
    ResolvesBack(c);
    if multiple % 2 == 0 {
      first := Turn(true, Some(Finger(c % 0x1_0000)), OUTSIDER.action);
      assert AfterLogins(s, first)
          == s.(codes := d, scount := 3, failures := 0, timeout := TIMEOUT, approved := [c], free := 1);
    } else {
      first := Turn(true, None, Login(Card(true, c, true, true)));
      assert AfterLogins(s, first) == s.(codes := d, scount := 2, failures := 0, timeout := TIMEOUT, approved := [c]);
    }
    PairsGoOn(multiple, user, codes, first);
  }

  lemma EmptiedSlot(codes: seq<int>, c: int)
    requires c in codes
    ensures 0 in WithoutFirst(codes, c)
  {
    assert WithoutFirst(codes, c)[FirstWith(codes, c)] == 0;
  }

  lemma ResolvesBack(c: int)
    requires Resolvable(c)
    ensures AsWord(Short(c)) == c && AsWord(Short(c % 0x1_0000)) == c
  {
  }

  /**
   The approval loop ends whatever logs in exactly when no slot of the list is empty or names the user who asked, and
   no listed code comes through the 16 bits.
   */
  lemma ApprovalEndsExactly(multiple: int, user: int, codes: seq<int>)
    requires 0 < multiple < 0x100 && |codes| == SLOTS
    ensures (exists turns: nat -> Turn :: GoesOn(multiple, user, codes, turns))
       <==> exists i :: 0 <= i < SLOTS && (codes[i] == user || Resolvable(codes[i]))
  {
    hide GoesOn, AfterTurns;
    ListOpen(user, codes);
    if Closed(Listed(user, codes)) {
      forall turns: nat -> Turn ensures !GoesOn(multiple, user, codes, turns) {
        Ends(multiple, user, codes, turns);
      }
    } else if 0 in Listed(user, codes) {
      var first := EmptySlotGoesOn(multiple, user, codes);
    } else {
      var c :| c in Listed(user, codes) && Resolvable(c);
      var first := FullListGoesOn(multiple, user, codes, c);
    }
  }

  lemma Ends(multiple: int, user: int, codes: seq<int>, turns: nat -> Turn)
    requires 0 < multiple < 0x100 && |codes| == SLOTS && Closed(Listed(user, codes))
    ensures !GoesOn(multiple, user, codes, turns)
  {
    hide AfterTurns, Closed;
    ApprovalEnds(multiple, user, codes, FirstTurns(turns, MOST_TURNS + 1));
  }

  lemma ListOpen(user: int, codes: seq<int>)
    ensures Closed(Listed(user, codes)) <==> forall i :: 0 <= i < |codes| ==> codes[i] != user && !Resolvable(codes[i])
  {
    var l := Listed(user, codes);
    assert Resolvable(0);
    if Closed(l) {
      forall i | 0 <= i < |codes| ensures codes[i] != user && !Resolvable(codes[i]) {
        assert l[i] in l;
      }
    }
  }
}
