/**
  The delta queue of kernel/sos_timer.c as a list of absolute deadlines.  A queued timer's delta is
  relative to its predecessor, that of the first one to the base time; At gives the same timers with
  their absolute deadlines in the delta field.
 */
module TimerSpec {

  /** A timer block; addr is its address. */
  datatype Timer = Timer(addr: int, pid: int, tid: int, oneShot: bool, slow: bool, ticks: int, delta: int)

  predicate Is(t: Timer, pid: int, tid: int) { t.pid == pid && t.tid == tid }

  function Without<T>(s: seq<T>, i: int): seq<T>
    requires 0 <= i < |s|
  {
    s[..i] + s[i + 1..]
  }

  function At(base: int, q: seq<Timer>): (s: seq<Timer>)
    ensures |s| == |q|
    decreases |q|
  {
    if q == [] then [] else
    var deadline := base + q[0].delta;
    [q[0].(delta := deadline)] + At(deadline, q[1..])
  }

  lemma AtTail(base: int, q: seq<Timer>)
    requires q != []
    ensures At(base, q) == [q[0].(delta := base + q[0].delta)] + At(base + q[0].delta, q[1..])
    ensures At(base, q)[1..] == At(base + q[0].delta, q[1..])
  {
  }

  predicate Sorted(s: seq<Timer>) { forall i, j :: 0 <= i < j < |s| ==> s[i].delta <= s[j].delta }

  /** All deltas but the first are non-negative. */
  predicate Regular(q: seq<Timer>) { forall i :: 0 < i < |q| ==> q[i].delta >= 0 }

  function Shift(s: seq<Timer>, d: int): (r: seq<Timer>)
    ensures |r| == |s|
    decreases |s|
  {
    if s == [] then [] else [s[0].(delta := s[0].delta + d)] + Shift(s[1..], d)
  }

  lemma {:induction false} ShiftElements(s: seq<Timer>, d: int)
    ensures forall i :: 0 <= i < |s| ==> Shift(s, d)[i] == s[i].(delta := s[i].delta + d)
    decreases |s|
  {
    if s != [] {
      ShiftElements(s[1..], d);
    }
  }

  lemma ShiftAppend(s: seq<Timer>, t: Timer, d: int)
    ensures Shift(s + [t], d) == Shift(s, d) + [t.(delta := t.delta + d)]
  {
    hide Shift;
    ShiftElements(s, d);
    ShiftElements(s + [t], d);
  }

  lemma {:induction false} ShiftNothing(s: seq<Timer>)
    ensures Shift(s, 0) == s
  {
    if s != [] {
      ShiftNothing(s[1..]);
    }
  }

  lemma ShiftMoves(s: seq<Timer>, d: int)
    requires d != 0 && s != []
    ensures Shift(s, d) != s
  {
  }

  lemma {:induction false} AtShift(base: int, d: int, q: seq<Timer>)
    ensures At(base + d, q) == Shift(At(base, q), d)
    decreases |q|
  {
    if q != [] {
      AtShift(base + q[0].delta, d, q[1..]);
      assert base + d + q[0].delta == base + q[0].delta + d;
      assert At(base, q)[1..] == At(base + q[0].delta, q[1..]);
    }
  }

  lemma {:induction false} AtLater(base: int, q: seq<Timer>)
    requires forall i :: 0 <= i < |q| ==> q[i].delta >= 0
    ensures forall i :: 0 <= i < |q| ==> At(base, q)[i].delta >= base
    decreases |q|
  {
    if q != [] {
      AtLater(base + q[0].delta, q[1..]);
    }
  }

  /** Deadlines are in order exactly when the deltas behind the first are non-negative. */
  lemma {:induction false} RegularIsSorted(base: int, q: seq<Timer>)
    ensures Regular(q) <==> Sorted(At(base, q))
    decreases |q|
  {
    if |q| > 1 {
      var rest, abs := q[1..], At(base, q);
      var start := base + q[0].delta;
      RegularIsSorted(start, rest);
      assert abs[1..] == At(start, rest);
      if Regular(q) {
        assert forall i :: 0 <= i < |rest| ==> rest[i].delta == q[i + 1].delta;
        AtLater(start, rest);
        assert forall i, j :: 0 <= i < j < |abs| ==> i > 0 ==> abs[i] == abs[1..][i - 1] && abs[j] == abs[1..][j - 1];
      } else if q[1].delta >= 0 {
        var i :| 0 < i < |q| && q[i].delta < 0;
        assert rest[i - 1].delta < 0;
        var k, l :| 0 <= k < l < |rest| && At(start, rest)[k].delta > At(start, rest)[l].delta;
        assert abs[k + 1].delta > abs[l + 1].delta;
      } else {
        assert abs[1].delta == abs[0].delta + q[1].delta;
      }
    }
  }

  // ---------------------------------------------------------------------------------------------
  // Insertion
  // ---------------------------------------------------------------------------------------------

  /** Insertion behind all timers whose deadline is not later. */
  function Insert(s: seq<Timer>, t: Timer): (r: seq<Timer>)
    decreases |s|
  {
    if s == [] || t.delta < s[0].delta then [t] + s else [s[0]] + Insert(s[1..], t)
  }

  /** What Insert means on a sorted list: one place, nothing else changes, stable. */
  lemma {:induction false} InsertIsStable(s: seq<Timer>, t: Timer) returns (k: nat)
    requires Sorted(s)
    ensures k <= |s| && Insert(s, t) == s[..k] + [t] + s[k..]
    ensures forall i :: 0 <= i < k ==> s[i].delta <= t.delta
    ensures forall i :: k <= i < |s| ==> t.delta < s[i].delta
    decreases |s|
  {
    if s == [] || t.delta < s[0].delta {
      k := 0;
      assert s[..0] + [t] + s[0..] == [t] + s;
    } else {
      var k' := InsertIsStable(s[1..], t);
      k := k' + 1;
      assert [s[0]] + (s[1..][..k'] + [t] + s[1..][k'..]) == s[..k] + [t] + s[k..];
      assert forall i :: 0 < i < |s| ==> s[i] == s[1..][i - 1];
    }
  }

  /** timer_delta_q_insert on relative deltas. */
  function DeltaInsert(q: seq<Timer>, h: Timer): (r: seq<Timer>)
    decreases |q|
  {
    if q == [] then [h]
    else if h.delta < q[0].delta then [h, q[0].(delta := q[0].delta - h.delta)] + q[1..]
    else [q[0]] + DeltaInsert(q[1..], h.(delta := h.delta - q[0].delta))
  }

  /** Delta insertion is insertion by absolute deadline, whatever the queue. */
  lemma {:induction false} DeltaInsertIsInsert(base: int, q: seq<Timer>, h: Timer)
    ensures At(base, DeltaInsert(q, h)) == Insert(At(base, q), h.(delta := base + h.delta))
    decreases |q|
  {
    if q == [] {
      hide At;
      AtNothing(base);
      AtNothing(base + h.delta);
      AtTail(base, [h]);
      assert [h][1..] == [];
    } else if h.delta < q[0].delta {
      InsertInFront(base, q, h);
    } else {
      hide At;
      var r := DeltaInsert(q, h);
      var h' := h.(delta := h.delta - q[0].delta);
      assert r == [q[0]] + DeltaInsert(q[1..], h');
      AtTail(base, q);
      AtTail(base, r);
      assert r[0] == q[0] && r[1..] == DeltaInsert(q[1..], h');
      DeltaInsertIsInsert(base + q[0].delta, q[1..], h');
      assert base + q[0].delta + h'.delta == base + h.delta;
    }
  }

  lemma InsertInFront(base: int, q: seq<Timer>, h: Timer)
    requires q != [] && h.delta < q[0].delta
    ensures At(base, DeltaInsert(q, h)) == Insert(At(base, q), h.(delta := base + h.delta))
  {
  }

  lemma AtNothing(base: int)
    ensures At(base, []) == []
  {
  }

  /** One step of the search: the part before the position is not touched. */
  lemma DeltaInsertStep(q: seq<Timer>, h: Timer, i: int, h': Timer)
    requires 0 <= i < |q| && q[i].delta <= h'.delta
    requires q[..i] + DeltaInsert(q[i..], h') == DeltaInsert(q, h)
    ensures q[..i + 1] + DeltaInsert(q[i + 1..], h'.(delta := h'.delta - q[i].delta)) == DeltaInsert(q, h)
  {
  }

  // ---------------------------------------------------------------------------------------------
  // Removal
  // ---------------------------------------------------------------------------------------------

  /** timer_remove_timer for the timer at position i. */
  function DeltaRemove(q: seq<Timer>, i: int): (r: seq<Timer>)
    requires 0 <= i < |q|
  {
    if i + 1 < |q| && q[i].delta > 0
    then Without(q[i + 1 := q[i + 1].(delta := q[i + 1].delta + q[i].delta)], i)
    else Without(q, i)
  }

  /** How far the timers behind t are put off when t is removed: only an overdue one does that. */
  function Lateness(t: Timer): int { if t.delta < 0 then -t.delta else 0 }

  lemma {:induction false} DeltaRemoveFirst(base: int, q: seq<Timer>)
    requires q != []
    ensures At(base, DeltaRemove(q, 0)) == Shift(At(base, q)[1..], Lateness(q[0]))
  {
    var rest := q[1..];
    var start := base + q[0].delta;
    assert At(base, q)[1..] == At(start, rest);
    AtShift(start, Lateness(q[0]), rest);
    if q[0].delta > 0 && |q| > 1 {
      var next := q[1].(delta := q[1].delta + q[0].delta);
      assert DeltaRemove(q, 0) == [next] + q[2..];
      assert DeltaRemove(q, 0)[1..] == q[2..] && rest[1..] == q[2..];
      ShiftNothing(At(start, rest));
    } else {
      assert DeltaRemove(q, 0) == rest;
    }
  }

  lemma DeltaRemoveRest(q: seq<Timer>, i: int)
    requires 0 < i < |q|
    ensures DeltaRemove(q, i) == [q[0]] + DeltaRemove(q[1..], i - 1)
  {
    if i + 1 < |q| && q[i].delta > 0 {
      var next := q[i + 1].(delta := q[i + 1].delta + q[i].delta);
      var q' := q[i + 1 := next];
      assert q'[1..] == q[1..][i := next];
      WithoutRest(q', i);
    } else {
      WithoutRest(q, i);
    }
  }

  lemma WithoutRest(s: seq<Timer>, i: int)
    requires 0 < i < |s|
    ensures Without(s, i) == [s[0]] + Without(s[1..], i - 1)
  {
  }

  /** Removal takes out exactly one deadline, and puts off the later ones by the lateness of the timer. */
  lemma {:induction false} DeltaRemoveIsRemove(base: int, q: seq<Timer>, i: int)
    requires 0 <= i < |q|
    ensures At(base, DeltaRemove(q, i)) == At(base, q)[..i] + Shift(At(base, q)[i + 1..], Lateness(q[i]))
    decreases i
  {
    hide DeltaRemove, Shift, At;
    var abs := At(base, q);
    if i == 0 {
      DeltaRemoveFirst(base, q);
      assert abs[..0] == [];
    } else {
      DeltaRemoveRest(q, i);
      var start, r := base + q[0].delta, DeltaRemove(q, i);
      assert r[0] == q[0] && r[1..] == DeltaRemove(q[1..], i - 1);
      AtTail(base, q);
      AtTail(base, r);
      DeltaRemoveIsRemove(start, q[1..], i - 1);
      Regroup(abs, i, Shift(abs[1..][i..], Lateness(q[i])));
      assert abs[1..][i..] == abs[i + 1..];
    }
  }

  lemma Regroup(s: seq<Timer>, i: int, t: seq<Timer>)
    requires 0 < i <= |s|
    ensures [s[0]] + (s[1..][..i - 1] + t) == s[..i] + t
  {
  }

  /** Removal moves no other deadline exactly when the timer is not overdue or is the last one. */
  lemma RemoveKeepsOthersIff(base: int, q: seq<Timer>, i: int)
    requires 0 <= i < |q|
    ensures At(base, DeltaRemove(q, i)) == Without(At(base, q), i) <==> (q[i].delta >= 0 || i == |q| - 1)
  {
    DeltaRemoveIsRemove(base, q, i);
    var abs := At(base, q);
    var later := abs[i + 1..];
    ShiftNothing(later);
    if q[i].delta < 0 && i < |q| - 1 {
      ShiftMoves(later, Lateness(q[i]));
      assert Without(abs, i)[i..] == later;
      assert (abs[..i] + Shift(later, Lateness(q[i])))[i..] == Shift(later, Lateness(q[i]));
    }
  }

  /** A timer started 3 ticks in the past and stopped puts off the one behind it by those 3 ticks. */
  lemma OverdueRemovalDelays()
    ensures var q := [Timer(0, 1, 0, true, false, -3, -3), Timer(1, 1, 1, true, false, 4, 7)];
            At(10, q)[1].delta == 14 && At(10, DeltaRemove(q, 0))[0].delta == 17
  {
  }

  lemma RemoveKeepsRegular(q: seq<Timer>, i: int)
    requires Regular(q) && 0 <= i < |q|
    ensures Regular(DeltaRemove(q, i))
  {
  }

  // ---------------------------------------------------------------------------------------------
  // Advancing the base
  // ---------------------------------------------------------------------------------------------

  /** timer_update_delta: d ticks have passed. */
  function DeltaUpdate(q: seq<Timer>, d: int): (r: seq<Timer>)
    ensures |r| == |q|
    decreases |q|
  {
    if q == [] then []
    else if q[0].delta >= d then [q[0].(delta := q[0].delta - d)] + q[1..]
    else [q[0].(delta := q[0].delta - d)] + DeltaUpdate(q[1..], d - q[0].delta)
  }

  /** Deadlines of an updated queue: as long as deltas are not positive they are relative to the base. */
  function Due(base: int, q: seq<Timer>): (s: seq<Timer>)
    ensures |s| == |q|
    decreases |q|
  {
    if q == [] || q[0].delta > 0 then At(base, q)
    else [q[0].(delta := base + q[0].delta)] + Due(base, q[1..])
  }

  lemma {:induction false} DueIsAt(base: int, q: seq<Timer>)
    requires forall i :: 0 <= i < |q| ==> q[i].delta >= 0
    ensures Due(base, q) == At(base, q)
    decreases |q|
  {
    if q != [] && q[0].delta == 0 {
      DueIsAt(base, q[1..]);
    }
  }

  /** The update keeps every deadline. */
  lemma {:induction false} UpdateKeepsDeadlines(base: int, q: seq<Timer>, d: int)
    requires Regular(q)
    ensures Due(base + d, DeltaUpdate(q, d)) == At(base, q)
    decreases |q|
  {
    if q != [] {
      var rest, r := q[1..], DeltaUpdate(q, d);
      assert forall i :: 0 <= i < |rest| ==> rest[i].delta == q[i + 1].delta;
      AtTail(base, q);
      AtTail(base + d, r);
      if q[0].delta >= d {
        assert r[1..] == rest;
        DueIsAt(base + d, rest);
        hide At;
      } else {
        assert r[1..] == DeltaUpdate(rest, d - q[0].delta);
        hide At;
        UpdateKeepsDeadlines(base + q[0].delta, rest, d - q[0].delta);
      }
    }
  }

  // ---------------------------------------------------------------------------------------------
  // Firing
  // ---------------------------------------------------------------------------------------------

  /** A MSG_TIMER_TIMEOUT message. */
  datatype Timeout = Timeout(pid: int, tid: int, high: bool)

  function Timeouts(s: seq<Timer>): (r: seq<Timeout>)
    ensures |r| == |s|
    ensures forall i :: 0 <= i < |s| ==> r[i] == Timeout(s[i].pid, s[i].tid, !s[i].slow)
    decreases |s|
  {
    if s == [] then [] else [Timeout(s[0].pid, s[0].tid, !s[0].slow)] + Timeouts(s[1..])
  }

  /** The first instant after now that is congruent to t's deadline modulo its period. */
  ghost predicate Renews(t: Timer, r: Timer, now: int) {
    && t.ticks > 0 && r == t.(delta := r.delta) && now < r.delta <= now + t.ticks
    && exists n: nat :: PeriodsLater(t.delta, r.delta, t.ticks, n)
  }

  predicate PeriodsLater(a: int, b: int, ticks: int, n: nat) { b == a + n * ticks }

  /** The timers of s expired at now: a prefix when s is sorted. */
  function Expired(s: seq<Timer>, now: int): (k: nat)
    ensures k <= |s|
    ensures forall i :: 0 <= i < k ==> s[i].delta <= now
    ensures k < |s| ==> s[k].delta > now
    decreases |s|
  {
    if s == [] || s[0].delta > now then 0 else 1 + Expired(s[1..], now)
  }

  /** s with the timers of ts inserted one after the other. */
  function InsertAll(s: seq<Timer>, ts: seq<Timer>): (r: seq<Timer>)
    decreases |ts|
  {
    if ts == [] then s else InsertAll(Insert(s, ts[0]), ts[1..])
  }

  lemma {:induction false} InsertKeeps(s: seq<Timer>, t: Timer)
    requires Sorted(s)
    ensures Sorted(Insert(s, t)) && multiset(Insert(s, t)) == multiset(s) + multiset{t}
  {
    var k := InsertIsStable(s, t);
    assert s == s[..k] + s[k..];
  }

  lemma {:induction false} InsertAllSorted(s: seq<Timer>, ts: seq<Timer>)
    requires Sorted(s)
    ensures Sorted(InsertAll(s, ts)) && multiset(InsertAll(s, ts)) == multiset(s) + multiset(ts)
    decreases |ts|
  {
    if ts == [] {
      assert ts == [];
    } else {
      InsertKeeps(s, ts[0]);
      hide Insert;
      InsertAllSorted(Insert(s, ts[0]), ts[1..]);
      assert ts == [ts[0]] + ts[1..];
    }
  }

  /** The timers of one kind, in order. */
  function Only(s: seq<Timer>, oneShot: bool): (r: seq<Timer>)
    ensures forall t :: t in r ==> t in s && t.oneShot == oneShot
    decreases |s|
  {
    if s == [] then [] else
    var n := |s| - 1;
    Only(s[..n], oneShot) + if s[n].oneShot == oneShot then [s[n]] else []
  }

  lemma OnlyAppend(s: seq<Timer>, t: Timer, oneShot: bool)
    ensures Only(s + [t], oneShot) == Only(s, oneShot) + if t.oneShot == oneShot then [t] else []
  {
  }

  /** Every timer is of one of the two kinds. */
  lemma {:induction false} OnlySplits(s: seq<Timer>)
    ensures multiset(Only(s, true)) + multiset(Only(s, false)) == multiset(s)
    decreases |s|
  {
    if s == [] {
      assert Only(s, true) == [] && Only(s, false) == [];
    } else {
      var n := |s| - 1;
      OnlySplits(s[..n]);
      assert s == s[..n] + [s[n]];
    }
  }

  /** The first positive value among d, d + ticks, d + 2 * ticks and so on. */
  function NextPositive(d: int, ticks: int): (r: int)
    requires ticks > 0
    decreases -d
  {
    if d > 0 then d else NextPositive(d + ticks, ticks)
  }

  lemma {:induction false} NextPositiveIsFirst(d: int, ticks: int) returns (n: nat)
    requires ticks > 0 && d <= 0
    ensures 0 < NextPositive(d, ticks) <= ticks && NextPositive(d, ticks) == d + n * ticks
    decreases -d
  {
    if d + ticks > 0 {
      n := 1;
    } else {
      var m := NextPositiveIsFirst(d + ticks, ticks);
      n := m + 1;
      assert n * ticks == m * ticks + ticks;
    }
  }

  /** Expired periodic timers with their next deadlines. */
  function Renewed(s: seq<Timer>, now: int): (r: seq<Timer>)
    requires forall t :: t in s ==> t.ticks > 0
    ensures |r| == |s|
    ensures forall i :: 0 <= i < |s| ==> r[i] == s[i].(delta := now + NextPositive(s[i].delta - now, s[i].ticks))
    decreases |s|
  {
    if s == [] then []
    else [s[0].(delta := now + NextPositive(s[0].delta - now, s[0].ticks))] + Renewed(s[1..], now)
  }

  /** Each periodic timer is due next at the first later instant congruent to its deadline. */
  lemma RenewedRenews(s: seq<Timer>, now: int, i: int)
    requires forall t :: t in s ==> t.ticks > 0 && t.delta <= now
    requires 0 <= i < |s|
    ensures Renews(s[i], Renewed(s, now)[i], now)
  {
    hide NextPositive, Renewed;
    var t := s[i];
    var n := NextPositiveIsFirst(t.delta - now, t.ticks);
    assert PeriodsLater(t.delta, now + NextPositive(t.delta - now, t.ticks), t.ticks, n);
  }

  // ---------------------------------------------------------------------------------------------
  // Who is in which list
  // ---------------------------------------------------------------------------------------------

  /** What must not occur twice: an address, and the name of an initialised timer. */
  datatype Id = Block(addr: int) | Name(pid: int, tid: int)

  function IdsOf(t: Timer, named: bool): multiset<Id> {
    if named then multiset{Block(t.addr), Name(t.pid, t.tid)} else multiset{Block(t.addr)}
  }

  function Ids(s: seq<Timer>, named: bool): multiset<Id>
    decreases |s|
  {
    if s == [] then multiset{} else IdsOf(s[0], named) + Ids(s[1..], named)
  }

  /** Every block is in exactly one list, once, and every name belongs to one block. */
  ghost predicate OneEach(running: seq<Timer>, idle: seq<Timer>, periodic: seq<Timer>, prealloc: seq<Timer>,
                          ids: set<Id>) {
    Ids(running, true) + Ids(idle, true) + Ids(periodic, true) + Ids(prealloc, false) == multiset(ids)
  }

  lemma {:induction false} IdsConcat(a: seq<Timer>, b: seq<Timer>, named: bool)
    ensures Ids(a + b, named) == Ids(a, named) + Ids(b, named)
    decreases |a|
  {
    if a == [] {
      assert a + b == b;
    } else {
      assert (a + b)[0] == a[0] && (a + b)[1..] == a[1..] + b;
      assert Ids(a + b, named) == IdsOf(a[0], named) + Ids(a[1..] + b, named);
      assert Ids(a, named) == IdsOf(a[0], named) + Ids(a[1..], named);
      hide Ids, IdsOf;
      IdsConcat(a[1..], b, named);
      Associate(IdsOf(a[0], named), Ids(a[1..], named), Ids(b, named));
    }
  }

  lemma Associate(a: multiset<Id>, b: multiset<Id>, c: multiset<Id>)
    ensures a + (b + c) == (a + b) + c
  {
  }

  lemma IdsAppend(s: seq<Timer>, t: Timer, named: bool)
    ensures Ids(s + [t], named) == Ids(s, named) + IdsOf(t, named)
  {
    IdsConcat(s, [t], named);
    assert [t][1..] == [];
  }

  lemma IdsWithout(s: seq<Timer>, i: int, named: bool)
    requires 0 <= i < |s|
    ensures Ids(s, named) == Ids(Without(s, i), named) + IdsOf(s[i], named)
  {
    assert s == s[..i] + s[i..];
    assert s[i..][1..] == s[i + 1..];
    IdsConcat(s[..i], s[i..], named);
    IdsConcat(s[..i], s[i + 1..], named);
  }

  lemma IdsReplace(s: seq<Timer>, i: int, t: Timer, named: bool)
    requires 0 <= i < |s| && IdsOf(t, named) == IdsOf(s[i], named)
    ensures Ids(s[i := t], named) == Ids(s, named)
  {
    assert Without(s[i := t], i) == Without(s, i);
    IdsWithout(s, i, named);
    IdsWithout(s[i := t], i, named);
  }

  lemma IdsRemove(q: seq<Timer>, i: int)
    requires 0 <= i < |q|
    ensures Ids(q, true) == Ids(DeltaRemove(q, i), true) + IdsOf(q[i], true)
  {
    if i + 1 < |q| && q[i].delta > 0 {
      var q' := q[i + 1 := q[i + 1].(delta := q[i + 1].delta + q[i].delta)];
      IdsReplace(q, i + 1, q'[i + 1], true);
      IdsWithout(q', i, true);
    } else {
      IdsWithout(q, i, true);
    }
  }

  lemma {:induction false} IdsInsert(q: seq<Timer>, h: Timer)
    ensures Ids(DeltaInsert(q, h), true) == Ids(q, true) + IdsOf(h, true)
    decreases |q|
  {
    if q == [] {
      assert [h][1..] == [];
    } else if h.delta < q[0].delta {
      var r := DeltaInsert(q, h);
      var next := q[0].(delta := q[0].delta - h.delta);
      assert r[1..] == [next] + q[1..] && r[1..][1..] == q[1..];
    } else {
      var h' := h.(delta := h.delta - q[0].delta);
      var r := DeltaInsert(q, h);
      assert r[0] == q[0] && r[1..] == DeltaInsert(q[1..], h') && r != [];
      assert Ids(r, true) == IdsOf(q[0], true) + Ids(r[1..], true);
      assert IdsOf(h', true) == IdsOf(h, true);
      IdsInsert(q[1..], h');
      hide Ids, IdsOf, DeltaInsert;
      Associate(IdsOf(q[0], true), Ids(q[1..], true), IdsOf(h, true));
    }
  }

  lemma {:induction false} IdsUpdate(q: seq<Timer>, d: int)
    ensures Ids(DeltaUpdate(q, d), true) == Ids(q, true)
    decreases |q|
  {
    if q != [] {
      if q[0].delta < d {
        IdsUpdate(q[1..], d - q[0].delta);
      }
    }
  }

  /** The first timer with the name, or the length of s. */
  function First(s: seq<Timer>, pid: int, tid: int): (i: nat)
    ensures i <= |s| && (i < |s| ==> Is(s[i], pid, tid))
    ensures forall j :: 0 <= j < i ==> !Is(s[j], pid, tid)
    decreases |s|
  {
    if s == [] || Is(s[0], pid, tid) then 0 else 1 + First(s[1..], pid, tid)
  }

  predicate Has(s: seq<Timer>, pid: int, tid: int) { First(s, pid, tid) < |s| }

  function TakeOut(s: seq<Timer>, pid: int, tid: int): seq<Timer> {
    if Has(s, pid, tid) then Without(s, First(s, pid, tid)) else s
  }

  function TakeRunning(q: seq<Timer>, pid: int, tid: int): seq<Timer> {
    if Has(q, pid, tid) then DeltaRemove(q, First(q, pid, tid)) else q
  }

  lemma {:induction false} HasName(s: seq<Timer>, pid: int, tid: int)
    ensures Has(s, pid, tid) <==> Name(pid, tid) in Ids(s, true)
    decreases |s|
  {
    if s != [] {
      HasName(s[1..], pid, tid);
    }
  }

  /** A name occurs in one of the three lists at most. */
  lemma NameOnce(running: seq<Timer>, idle: seq<Timer>, periodic: seq<Timer>, prealloc: seq<Timer>,
                 ids: set<Id>, pid: int, tid: int)
    requires OneEach(running, idle, periodic, prealloc, ids)
    ensures Name(pid, tid) in ids <==> Has(running, pid, tid) || Has(idle, pid, tid) || Has(periodic, pid, tid)
    ensures !(Has(running, pid, tid) && Has(idle, pid, tid)) && !(Has(running, pid, tid) && Has(periodic, pid, tid))
    ensures !(Has(idle, pid, tid) && Has(periodic, pid, tid))
  {
    HasName(running, pid, tid);
    HasName(idle, pid, tid);
    HasName(periodic, pid, tid);
    NoNames(prealloc, pid, tid);
    var n := Name(pid, tid);
    assert multiset(ids)[n] <= 1;
    assert Ids(running, true)[n] + Ids(idle, true)[n] + Ids(periodic, true)[n] + Ids(prealloc, false)[n] ==
           multiset(ids)[n];
  }

  lemma {:induction false} NoNames(s: seq<Timer>, pid: int, tid: int)
    ensures Name(pid, tid) !in Ids(s, false)
    decreases |s|
  {
    if s != [] {
      NoNames(s[1..], pid, tid);
    }
  }

  lemma IdAt(s: seq<Timer>, i: int, named: bool)
    requires 0 <= i < |s|
    ensures IdsOf(s[i], named) <= Ids(s, named)
  {
    IdsWithout(s, i, named);
  }

  /** OneEach in plain terms: no two places hold the same block, no two initialised timers the same name. */
  lemma OneListEach(running: seq<Timer>, idle: seq<Timer>, periodic: seq<Timer>, prealloc: seq<Timer>,
                    ids: set<Id>, i: int, j: int)
    requires OneEach(running, idle, periodic, prealloc, ids)
    requires 0 <= i < j < |running + idle + periodic + prealloc|
    ensures var all := running + idle + periodic + prealloc;
            && all[i].addr != all[j].addr
            && (j < |running + idle + periodic| ==> !Is(all[i], all[j].pid, all[j].tid))
  {
    var init := running + idle + periodic;
    var all := init + prealloc;
    hide Ids, IdsOf;
    IdsConcat(running + idle, periodic, true);
    IdsConcat(running, idle, true);
    IdsConcat(init, prealloc, false);
    var a := all[i].addr;
    BlocksOf(init, a);
    assert multiset(ids)[Block(a)] <= 1;
    DistinctBlocks(all, i, j);
    if j < |init| {
      assert all[i] == init[i] && all[j] == init[j];
      assert multiset(ids)[Name(all[i].pid, all[i].tid)] <= 1;
      DistinctNames(init, i, j);
    }
  }

  lemma DistinctBlocks(s: seq<Timer>, i: int, j: int)
    requires 0 <= i < j < |s| && Ids(s, false)[Block(s[i].addr)] <= 1
    ensures s[i].addr != s[j].addr
  {
    Twice(s, i, j, false);
    assert IdsOf(s[i], false)[Block(s[i].addr)] == 1;
  }

  lemma DistinctNames(s: seq<Timer>, i: int, j: int)
    requires 0 <= i < j < |s| && Ids(s, true)[Name(s[i].pid, s[i].tid)] <= 1
    ensures !Is(s[i], s[j].pid, s[j].tid)
  {
    Twice(s, i, j, true);
    assert IdsOf(s[i], true)[Name(s[i].pid, s[i].tid)] == 1;
  }

  lemma {:induction false} BlocksOf(s: seq<Timer>, a: int)
    ensures Ids(s, false)[Block(a)] == Ids(s, true)[Block(a)]
    decreases |s|
  {
    if s != [] {
      BlocksOf(s[1..], a);
    }
  }

  lemma Twice(s: seq<Timer>, i: int, j: int, named: bool)
    requires 0 <= i < j < |s|
    ensures IdsOf(s[i], named) + IdsOf(s[j], named) <= Ids(s, named)
  {
    var rest := Without(s, j);
    IdsWithout(s, j, named);
    assert rest[i] == s[i];
    IdAt(rest, i, named);
  }

  /** The timers that do not belong to pid. */
  function Others(s: seq<Timer>, pid: int): seq<Timer>
    decreases |s|
  {
    if s == [] then [] else (if s[0].pid == pid then [] else [s[0]]) + Others(s[1..], pid)
  }

  /** Exactly the timers of the other modules are left, each as often as before. */
  lemma {:induction false} OthersAre(s: seq<Timer>, pid: int, t: Timer)
    ensures multiset(Others(s, pid))[t] == if t.pid == pid then 0 else multiset(s)[t]
    decreases |s|
  {
    if s == [] {
      assert Others(s, pid) == [];
    } else {
      OthersAre(s[1..], pid, t);
      assert s == [s[0]] + s[1..];
    }
  }

  lemma {:induction false} AtSame(base: int, q: seq<Timer>, i: int)
    requires 0 <= i < |q|
    ensures At(base, q)[i] == q[i].(delta := At(base, q)[i].delta)
    decreases |q|
  {
    if i > 0 {
      AtSame(base + q[0].delta, q[1..], i - 1);
    }
  }

  lemma {:induction false} OthersAppend(s: seq<Timer>, t: Timer, pid: int)
    ensures Others(s + [t], pid) == Others(s, pid) + if t.pid == pid then [] else [t]
    decreases |s|
  {
    if s == [] {
      assert s + [t] == [t] && [t][1..] == [];
    } else {
      var r := Others(s[1..], pid);
      assert (s + [t])[0] == s[0] && (s + [t])[1..] == s[1..] + [t];
      OthersAppend(s[1..], t, pid);
      assert ([s[0]] + r) + [t] == [s[0]] + (r + [t]) && ([s[0]] + r) + [] == [s[0]] + (r + []) && [] + r == r;
    }
  }

  lemma {:induction false} OthersIds(s: seq<Timer>, pid: int, named: bool)
    ensures Ids(Others(s, pid), named) <= Ids(s, named)
    decreases |s|
  {
    if s != [] {
      OthersIds(s[1..], pid, named);
      var rest := Others(s[1..], pid);
      assert ([s[0]] + rest)[1..] == rest && [] + rest == rest;
    }
  }

  /** The names and blocks that are still in use when timers have been taken away. */
  ghost function Rest(running: seq<Timer>, idle: seq<Timer>, periodic: seq<Timer>, prealloc: seq<Timer>,
                      ids: set<Id>): set<Id> {
    set x | x in ids && x in Ids(running, true) + Ids(idle, true) + Ids(periodic, true) + Ids(prealloc, false)
  }

  lemma RestIsOneEach(running: seq<Timer>, idle: seq<Timer>, periodic: seq<Timer>, prealloc: seq<Timer>,
                      ids: set<Id>)
    requires Ids(running, true) + Ids(idle, true) + Ids(periodic, true) + Ids(prealloc, false) <= multiset(ids)
    ensures OneEach(running, idle, periodic, prealloc, Rest(running, idle, periodic, prealloc, ids))
  {
  }

  // ---------------------------------------------------------------------------------------------
  // timer_remove_all on the queue
  // ---------------------------------------------------------------------------------------------

  /** By how much removing all timers of pid puts off the others. */
  function Delay(q: seq<Timer>, pid: int): int { if q != [] && q[0].pid == pid then Lateness(q[0]) else 0 }

  /** The first j of the original deadlines abs are dealt with; i of them remain. */
  ghost predicate Clearing(abs: seq<Timer>, j: int, i: int, late: int, base: int, q: seq<Timer>, pid: int) {
    && 0 <= j <= |abs| && Regular(q) && i == |Others(abs[..j], pid)|
    && At(base, q) == (if j == 0 then abs else Shift(Others(abs[..j], pid) + abs[j..], late))
    && (j > 0 && i == 0 && q != [] ==> q[0].delta >= 0)
    && (j == 0 ==> late == Delay(q, pid))
  }

  lemma ClearingStep(abs: seq<Timer>, j: int, i: int, late: int, base: int, q: seq<Timer>, pid: int)
    requires Clearing(abs, j, i, late, base, q, pid) && i < |q|
    ensures j < |abs| && q[i].pid == abs[j].pid
    ensures q[i].pid != pid ==> Clearing(abs, j + 1, i + 1, late, base, q, pid)
    ensures q[i].pid == pid ==> Clearing(abs, j + 1, i, late, base, DeltaRemove(q, i), pid)
  {
    hide At, DeltaRemove, Others, Shift;
    AtSame(base, q, i);
    var kept := Others(abs[..j], pid);
    NoOthers(pid);
    assert abs[..0] == [];
    assert j < |abs| by {
      assert j > 0 ==> |At(base, q)| == |kept| + |abs| - j;
    }
    assert abs[..j + 1] == abs[..j] + [abs[j]];
    OthersAppend(abs[..j], abs[j], pid);
    var all := kept + abs[j..];
    ShiftElements(all, late);
    assert all[i] == abs[j];
    if q[i].pid != pid {
      assert (kept + [abs[j]]) + abs[j + 1..] == all;
      ShiftNothing(abs);
      assert j == 0 ==> late == 0;
    } else {
      RemoveKeepsRegular(q, i);
      DeltaRemoveIsRemove(base, q, i);
      RemoveFirst(q);
      assert j > 0 ==> Lateness(q[i]) == 0;
      assert kept + [] == kept;
      if j == 0 {
        assert [] + abs[1..] == abs[1..] && abs[..0] + Shift(abs[1..], late) == Shift(abs[1..], late);
      } else {
        ShiftNothing(At(base, q)[i + 1..]);
        ShiftWithout(all, late, i);
        assert Without(all, i) == kept + abs[j + 1..];
      }
    }
  }

  lemma NoOthers(pid: int)
    ensures Others([], pid) == []
  {
  }

  lemma RemoveFirst(q: seq<Timer>)
    requires Regular(q) && q != []
    ensures |q| > 1 ==> DeltaRemove(q, 0)[0].delta >= 0
    ensures |DeltaRemove(q, 0)| == |q| - 1
  {
  }

  lemma ShiftWithout(s: seq<Timer>, d: int, i: int)
    requires 0 <= i < |s|
    ensures Without(Shift(s, d), i) == Shift(Without(s, i), d)
  {
    hide Shift;
    ShiftElements(s, d);
    ShiftElements(Without(s, i), d);
  }

  lemma ClearingStart(base: int, q: seq<Timer>, pid: int)
    requires Regular(q)
    ensures Clearing(At(base, q), 0, 0, Delay(q, pid), base, q, pid)
  {
  }

  lemma ClearingEnd(abs: seq<Timer>, j: int, i: int, late: int, base: int, q: seq<Timer>, pid: int)
    requires Clearing(abs, j, i, late, base, q, pid) && i == |q|
    ensures At(base, q) == Shift(Others(abs, pid), late)
  {
    if j == 0 {
      assert abs[..0] == [];
    } else {
      assert j == |abs| && abs[..j] == abs && abs[j..] == [];
      assert Others(abs, pid) + [] == Others(abs, pid);
    }
  }

  // ---------------------------------------------------------------------------------------------
  // The firing loop
  // ---------------------------------------------------------------------------------------------

  /**
    One tick at the instant now, from the deadlines abs: the expired timers have fired in order, the
    one-shot ones among them are idle, and the periodic ones run on from their next instants.
   */
  ghost predicate Ticked(abs: seq<Timer>, now: int, tos: seq<Timeout>, idle: seq<Timer>, running: seq<Timer>) {
    var fired := abs[..Expired(abs, now)];
    && (forall t :: t in Only(fired, false) ==> t.ticks > 0)
    && tos == Timeouts(fired) && idle == Shift(Only(fired, true), -now)
    && running == InsertAll(abs[|fired|..], Renewed(Only(fired, false), now))
  }

  /**
    Ticked in plain terms: a timer fires exactly when its deadline is not after now, in the order of the
    deadlines; the fired ones are the one-shot ones, which are exactly the new idle ones, and the periodic
    ones; the timers that run afterwards, in order, are those that did not fire, with their old
    deadlines, and the fired periodic ones, each at its next instant.
   */
  lemma TickMeans(abs: seq<Timer>, now: int, tos: seq<Timeout>, idle: seq<Timer>, running: seq<Timer>)
    returns (once: seq<Timer>, periodic: seq<Timer>, again: seq<Timer>)
    requires Sorted(abs)
    ensures Ticked(abs, now, tos, idle, running) ==>
      && |tos| <= |abs| && (forall i :: 0 <= i < |abs| ==> (i < |tos| <==> abs[i].delta <= now))
      && (forall i :: 0 <= i < |tos| ==> tos[i] == Timeout(abs[i].pid, abs[i].tid, !abs[i].slow))
      && once == Only(abs[..|tos|], true) && periodic == Only(abs[..|tos|], false)
      && multiset(once) + multiset(periodic) == multiset(abs[..|tos|])
      && (forall t :: t in once ==> t.oneShot) && (forall t :: t in periodic ==> !t.oneShot)
      && |idle| == |once| && (forall i :: 0 <= i < |once| ==> idle[i] == once[i].(delta := once[i].delta - now))
      && Sorted(running) && multiset(running) == multiset(abs[|tos|..]) + multiset(again)
      && |again| == |periodic| && (forall i :: 0 <= i < |again| ==> Renews(periodic[i], again[i], now))
  {
    hide Expired, InsertAll, Renewed, Only, Shift, Timeouts, Renews;
    once, periodic, again := [], [], [];
    if Ticked(abs, now, tos, idle, running) {
      var k := Expired(abs, now);
      once, periodic := Only(abs[..k], true), Only(abs[..k], false);
      OnlySplits(abs[..k]);
      ShiftElements(once, -now);
      again := Renewed(periodic, now);
      TailInOrder(abs, k);
      InsertAllSorted(abs[k..], again);
      forall i | 0 <= i < |periodic|
        ensures Renews(periodic[i], again[i], now)
      {
        assert forall t :: t in abs[..k] ==> t.delta <= now;
        RenewedRenews(periodic, now, i);
      }
    }
  }

  lemma TailInOrder(s: seq<Timer>, k: nat)
    requires Sorted(s) && k <= |s|
    ensures Sorted(s[k..])
  {
  }

  ghost predicate PositivePeriods(s: seq<Timer>) { forall t :: t in s && !t.oneShot ==> t.ticks > 0 }

  /** The first k of the deadlines abs have fired; fin are the stopped, per the re-armed timers. */
  ghost predicate Firing(abs: seq<Timer>, k: int, base: int, q: seq<Timer>, fin: seq<Timer>, per: seq<Timer>,
                         tos: seq<Timeout>) {
    && 0 <= k <= |abs| && PositivePeriods(abs) && Due(base, q) == abs[k..]
    && (forall i :: 0 <= i < k ==> abs[i].delta <= base)
    && fin == Shift(Only(abs[..k], true), -base)
    && Shift(per, base) == Renewed(Only(abs[..k], false), base)
    && tos == Timeouts(abs[..k])
  }

  lemma DueHead(base: int, q: seq<Timer>)
    requires q != []
    ensures Due(base, q)[0] == q[0].(delta := base + q[0].delta)
    ensures q[0].delta <= 0 ==> Due(base, q)[1..] == Due(base, q[1..])
    ensures q[0].delta > 0 ==> Due(base, q) == At(base, q)
  {
  }

  lemma FireStep(abs: seq<Timer>, k: int, base: int, q: seq<Timer>, fin: seq<Timer>, per: seq<Timer>, tos: seq<Timeout>)
    requires Firing(abs, k, base, q, fin, per, tos) && q != [] && q[0].delta <= 0
    ensures !q[0].oneShot ==> q[0].ticks > 0
    ensures var h := q[0];
            Firing(abs, k + 1, base, q[1..], if h.oneShot then fin + [h] else fin,
                   if h.oneShot then per else per + [h.(delta := NextPositive(h.delta, h.ticks))],
                   tos + [Timeout(h.pid, h.tid, !h.slow)])
  {
    hide At, Due, Shift, Only, Renewed, Timeouts, NextPositive;
    DueHead(base, q);
    var h, t := q[0], abs[k];
    var done, idle := Only(abs[..k], true), Only(abs[..k], false);
    assert t == abs[k..][0] && abs[k + 1..] == abs[k..][1..];
    assert t in abs && t == h.(delta := base + h.delta);
    assert abs[..k + 1] == abs[..k] + [t];
    OnlyAppend(abs[..k], t, true);
    OnlyAppend(abs[..k], t, false);
    assert idle + [] == idle && done + [] == done;
    TimeoutsAppend(abs[..k], t);
    if h.oneShot {
      ShiftAppend(done, t, -base);
      assert h == t.(delta := t.delta - base);
    } else {
      var r := h.(delta := NextPositive(h.delta, h.ticks));
      ShiftAppend(per, r, base);
      RenewedAppend(idle, t, base);
      assert t.delta - base == h.delta;
    }
  }

  lemma TimeoutsAppend(s: seq<Timer>, t: Timer)
    ensures Timeouts(s + [t]) == Timeouts(s) + [Timeout(t.pid, t.tid, !t.slow)]
  {
  }

  lemma RenewedAppend(s: seq<Timer>, t: Timer, now: int)
    requires t.ticks > 0 && forall x :: x in s ==> x.ticks > 0
    ensures forall x :: x in s + [t] ==> x.ticks > 0
    ensures Renewed(s + [t], now) == Renewed(s, now) + [t.(delta := now + NextPositive(t.delta - now, t.ticks))]
  {
    hide Renewed, NextPositive;
  }

  /** When the head is not due, exactly the expired timers have fired, and the queue is regular again. */
  lemma FireEnd(abs: seq<Timer>, k: int, base: int, q: seq<Timer>, fin: seq<Timer>, per: seq<Timer>, tos: seq<Timeout>)
    requires Firing(abs, k, base, q, fin, per, tos) && Sorted(abs) && (q != [] ==> q[0].delta > 0)
    ensures k == Expired(abs, base) && At(base, q) == abs[k..] && Regular(q)
  {
    hide At, Due, Shift, Only, Renewed, Timeouts, Expired;
    if q != [] {
      DueHead(base, q);
      assert abs[k] == abs[k..][0];
    } else {
      assert abs[k..] == [];
    }
    RegularIsSorted(base, q);
    assert forall i :: 0 <= i < |abs[k..]| ==> abs[k..][i] == abs[k + i];
  }
}
