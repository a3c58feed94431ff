/**
 An append-only array of slots and the map it stands for. A slot is free, live under an id, or dead; free slots only
 come after all the others, and no two live slots share an id.
 */
module SlotTable {

  datatype Slot<K, R> = Free | Dead | Live(id: K, record: R)

  ghost predicate DistinctIds<K, R>(s: seq<Slot<K, R>>) {
    forall i, j :: 0 <= i < j < |s| && s[i].Live? && s[j].Live? ==> s[i].id != s[j].id
  }

  ghost predicate WellFormed<K, R>(s: seq<Slot<K, R>>, used: nat) {
    && used <= |s|
    && (forall i :: 0 <= i < used ==> !s[i].Free?)
    && (forall i :: used <= i < |s| ==> s[i].Free?)
    && DistinctIds(s)
  }

  ghost function Contents<K, R>(s: seq<Slot<K, R>>): map<K, R>
    requires DistinctIds(s)
  {
    map i | 0 <= i < |s| && s[i].Live? :: s[i].id := s[i].record
  }

  lemma LiveIsIn<K(!new), R>(s: seq<Slot<K, R>>, i: nat)
    requires DistinctIds(s) && i < |s| && s[i].Live?
    ensures s[i].id in Contents(s) && Contents(s)[s[i].id] == s[i].record
  {
  }

  lemma InIsLive<K(!new), R>(s: seq<Slot<K, R>>, id: K) returns (i: nat)
    requires DistinctIds(s) && id in Contents(s)
    ensures i < |s| && s[i].Live? && s[i].id == id && Contents(s)[id] == s[i].record
  {
    i :| 0 <= i < |s| && s[i].Live? && s[i].id == id;
  }

  /** Every live slot of one sequence but those of id `id` is in the other. */
  ghost predicate KeepsAllBut<K(!new), R>(s: seq<Slot<K, R>>, t: seq<Slot<K, R>>, id: K) {
    forall i :: 0 <= i < |s| && s[i].Live? && s[i].id != id ==> s[i] in t
  }

  lemma KeptContents<K(!new), R>(s: seq<Slot<K, R>>, t: seq<Slot<K, R>>, id: K, k: K)
    requires DistinctIds(s) && DistinctIds(t) && KeepsAllBut(s, t, id) && k in Contents(s) && k != id
    ensures k in Contents(t) && Contents(t)[k] == Contents(s)[k]
  {
    hide Contents, DistinctIds;
    var i := InIsLive(s, k);
    assert s[i] in t;
    var j :| 0 <= j < |t| && t[j] == s[i];
    LiveIsIn(t, j);
  }

  /** Two sequences of slots that agree but for one id stand for maps that agree but for it. */
  lemma SameBut<K(!new), R>(s: seq<Slot<K, R>>, t: seq<Slot<K, R>>, id: K)
    requires DistinctIds(s) && DistinctIds(t) && KeepsAllBut(s, t, id) && KeepsAllBut(t, s, id)
    ensures Contents(s) - {id} == Contents(t) - {id}
  {
    hide Contents, DistinctIds, KeepsAllBut;
    var a, b := Contents(s) - {id}, Contents(t) - {id};
    forall k | k in a ensures k in b && b[k] == a[k] {
      KeptContents(s, t, id, k);
    }
    forall k | k in b ensures k in a {
      KeptContents(t, s, id, k);
    }
  }

  ghost function Dropped<K, R>(s: seq<Slot<K, R>>, id: K): (d: seq<Slot<K, R>>)
    ensures |d| == |s|
  {
    seq(|s|, i requires 0 <= i < |s| => if s[i].Live? && s[i].id == id then Dead else s[i])
  }

  lemma DroppedWellFormed<K(!new), R>(s: seq<Slot<K, R>>, used: nat, id: K)
    requires WellFormed(s, used)
    ensures WellFormed(Dropped(s, id), used)
    ensures KeepsAllBut(s, Dropped(s, id), id) && KeepsAllBut(Dropped(s, id), s, id)
  {
    var d := Dropped(s, id);
    assert forall i :: 0 <= i < |s| && s[i].Live? && s[i].id != id ==> d[i] == s[i];
  }

  /** Dropping an id changes nothing but its live record, and there is at most one. */
  lemma DropTakesOut<K(!new), R>(s: seq<Slot<K, R>>, used: nat, id: K)
    requires WellFormed(s, used)
    ensures WellFormed(Dropped(s, id), used) && Contents(Dropped(s, id)) == Contents(s) - {id}
  {
    DroppedWellFormed(s, used, id);
    var d := Dropped(s, id);
    hide Contents, DistinctIds, KeepsAllBut;
    SameBut(s, d, id);
    if id in Contents(d) {
      var i := InIsLive(d, id);
      assert false;
    }
    assert Contents(d) == Contents(d) - {id};
  }

  lemma AppendWellFormed<K(!new), R>(s: seq<Slot<K, R>>, used: nat, id: K, r: R)
    requires WellFormed(s, used) && used < |s| && id !in Contents(s)
    ensures WellFormed(s[used := Live(id, r)], used + 1)
    ensures KeepsAllBut(s, s[used := Live(id, r)], id) && KeepsAllBut(s[used := Live(id, r)], s, id)
  {
    hide Contents;
    var a := s[used := Live(id, r)];
    forall i | 0 <= i < |s| && s[i].Live? ensures s[i].id != id && a[i] == s[i] {
      LiveIsIn(s, i);
    }
  }

  lemma AppendPutsIn<K(!new), R>(s: seq<Slot<K, R>>, used: nat, id: K, r: R)
    requires WellFormed(s, used) && used < |s| && id !in Contents(s)
    ensures WellFormed(s[used := Live(id, r)], used + 1)
    ensures Contents(s[used := Live(id, r)]) == Contents(s)[id := r]
  {
    hide Contents, KeepsAllBut;
    AppendWellFormed(s, used, id, r);
    var a := s[used := Live(id, r)];
    SameBut(s, a, id);
    LiveIsIn(a, used);
    assert Contents(a) == (Contents(a) - {id})[id := r];
    assert Contents(s)[id := r] == (Contents(s) - {id})[id := r];
  }

  /** Free slots may be made dead from the front without changing the map. */
  lemma Burn<K(!new), R>(s: seq<Slot<K, R>>, used: nat, s': seq<Slot<K, R>>, used': nat)
    requires WellFormed(s, used) && used <= used' <= |s| == |s'|
    requires forall i :: 0 <= i < |s| ==> s'[i] == if used <= i < used' then Dead else s[i]
    ensures WellFormed(s', used') && Contents(s') == Contents(s)
  {
    hide Contents;
    forall i | 0 <= i < |s| && s[i].Live? ensures s[i] in s' {
      assert s'[i] == s[i];
    }
    forall i | 0 <= i < |s'| && s'[i].Live? ensures s'[i] in s {
      assert s'[i] == s[i];
    }
    SameLiveSlots(s, s');
  }

  /** The live slots, in order. */
  function LiveOnly<K, R>(s: seq<Slot<K, R>>): (f: seq<Slot<K, R>>)
    ensures |f| <= |s|
    ensures forall i :: 0 <= i < |f| ==> f[i].Live? && f[i] in s
    ensures forall i :: 0 <= i < |s| && s[i].Live? ==> s[i] in f
  {
    if s == [] then [] else LiveOnly(s[..|s| - 1]) + if s[|s| - 1].Live? then [s[|s| - 1]] else []
  }

  lemma LiveOnlySnoc<K, R>(s: seq<Slot<K, R>>, x: Slot<K, R>)
    ensures LiveOnly(s + [x]) == if x.Live? then LiveOnly(s) + [x] else LiveOnly(s)
  {
    assert (s + [x])[..|s|] == s;
  }

  lemma {:induction false} LiveOnlyDistinct<K, R>(s: seq<Slot<K, R>>)
    requires DistinctIds(s)
    ensures DistinctIds(LiveOnly(s))
  {
    if s != [] {
      LiveOnlyDistinct(s[..|s| - 1]);
      var f := LiveOnly(s[..|s| - 1]);
      assert forall j :: 0 <= j < |f| ==> exists i :: 0 <= i < |s| - 1 && s[i] == f[j];
    }
  }

  lemma LiveSlotsIn<K(!new), R>(s: seq<Slot<K, R>>, c: seq<Slot<K, R>>, k: K)
    requires DistinctIds(s) && DistinctIds(c) && k in Contents(s)
    requires forall i :: 0 <= i < |s| && s[i].Live? ==> s[i] in c
    ensures k in Contents(c) && Contents(c)[k] == Contents(s)[k]
  {
    hide Contents, DistinctIds;
    var i := InIsLive(s, k);
    var j :| 0 <= j < |c| && c[j] == s[i];
    LiveIsIn(c, j);
  }

  /** Two sequences of slots with the same live slots stand for the same map. */
  lemma SameLiveSlots<K(!new), R>(s: seq<Slot<K, R>>, c: seq<Slot<K, R>>)
    requires DistinctIds(s) && DistinctIds(c)
    requires forall i :: 0 <= i < |s| && s[i].Live? ==> s[i] in c
    requires forall i :: 0 <= i < |c| && c[i].Live? ==> c[i] in s
    ensures Contents(s) == Contents(c)
  {
    hide Contents, DistinctIds;
    var a, b := Contents(s), Contents(c);
    forall k | k in a ensures k in b && b[k] == a[k] {
      LiveSlotsIn(s, c, k);
    }
    forall k | k in b ensures k in a {
      LiveSlotsIn(c, s, k);
    }
  }

  /** The live slots, followed by free ones, stand for the same map. */
  lemma LiveOnlyMeans<K(!new), R>(s: seq<Slot<K, R>>, used: nat)
    requires WellFormed(s, used)
    ensures var f := LiveOnly(s[..used]);
            var c := f + seq(|s| - |f|, _ => Free);
            WellFormed(c, |f|) && Contents(c) == Contents(s)
  {
    var f := LiveOnly(s[..used]);
    var c := f + seq(|s| - |f|, _ => Free);
    LiveOnlyDistinct(s[..used]);
    forall i | 0 <= i < |s| && s[i].Live? ensures s[i] in c {
      assert s[i] == s[..used][i];
      assert s[i] in f;
    }
    forall i | 0 <= i < |c| && c[i].Live? ensures c[i] in s {
      assert c[i] == f[i];
      assert f[i] in s[..used];
    }
    SameLiveSlots(s, c);
  }
}
