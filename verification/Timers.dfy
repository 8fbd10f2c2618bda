/** kernel/sos_timer.c: the delta queue, the three timer pools, and the software timer interrupt. */
module Timers {
  import opened Common
  import opened TimerSpec

  const TIMER_MIN_INTERVAL := 5
  const MAX_PRE_ALLOCATED_TIMERS := 8

  datatype Status = Ok | Invalid | NoMemory | NotPermitted

  /** find_timer_block and its likes: the first timer of a list with the given name. */
  method Find(s: seq<Timer>, pid: int, tid: int) returns (i: int)
    ensures i == First(s, pid, tid)
  {
    i := 0;
    while i < |s| && !Is(s[i], pid, tid)
      invariant 0 <= i <= |s|
      invariant forall j :: 0 <= j < i ==> !Is(s[j], pid, tid)
    {
      i := i + 1;
    }
  }

  class Timers {
    var deltaq: seq<Timer>
    /** timer_pool, prealloc_timer_pool and periodic_pool. */
    var pool: seq<Timer>
    var prealloc: seq<Timer>
    var periodic: seq<Timer>
    /** Ticks counted by past hardware interrupts, and by the hardware since the last one. */
    var outstanding: int
    var counter: int
    /** The messages dispatched so far. */
    var timeouts: seq<Timeout>
    /** The instant of the last timer_update_delta. */
    ghost var base: int
    /** The blocks and names in use. */
    ghost var ids: set<Id>

    /** Every block is in exactly one list and every name is used once. */
    ghost predicate Lists()
      reads this
    {
      OneEach(deltaq, pool, periodic, prealloc, ids)
    }

    ghost function Now(): int
      reads this
    {
      base + outstanding + counter
    }

    /** The running timers with their absolute deadlines. */
    ghost function Running(): seq<Timer>
      reads this
    {
      At(base, deltaq)
    }

    /** timer_init. */
    constructor ()
      ensures Lists() && ids == {} && deltaq == pool == prealloc == periodic == [] && timeouts == []
    {
      deltaq, pool, prealloc, periodic := [], [], [], [];
      outstanding, counter, timeouts := 0, 0, [];
      base, ids := 0, {};
    }

    /** Hardware ticks go by. */
    method Elapse(ticks: nat)
      modifies this`counter
      ensures Now() == old(Now()) + ticks
    {
      counter := counter + ticks;
    }

    /** timer_interrupt: the counter has reached its top and starts again. */
    method TimerInterrupt()
      modifies this`outstanding, this`counter
      ensures Now() == old(Now()) && counter == 0 && Running() == old(Running())
    {
      outstanding := outstanding + counter;
      counter := 0;
    }

    /** timer_set_hw_top: the counter restarts, and its ticks are kept unless the queue is empty. */
    method SetHwTop(update: bool)
      requires !update ==> deltaq == []
      modifies this`outstanding, this`counter, this`base
      ensures Now() == old(Now()) && Running() == old(Running()) && (update ==> base == old(base))
      ensures !update ==> base == Now()
      ensures counter == 0 && outstanding == if update then old(outstanding + counter) else 0
    {
      if update {
        outstanding := outstanding + counter;
      } else {
        base := base + outstanding + counter;
        outstanding := 0;
      }
      counter := 0;
    }

    /** timer_delta_q_insert: the timer is due h.delta ticks from now, or from the base when it is not new. */
    method DeltaQInsert(h: Timer, isNew: bool)
      modifies this`deltaq, this`outstanding, this`counter, this`base
      ensures Running() == Insert(old(Running()), h.(delta := (if isNew then Now() else old(base)) + h.delta))
      ensures old(Regular(deltaq)) ==> Regular(deltaq)
      ensures Ids(deltaq, true) == old(Ids(deltaq, true)) + IdsOf(h, true)
      ensures Now() == old(Now()) && (!isNew ==> base == old(base) && outstanding == old(outstanding))
    {
      hide At, Ids, Insert, DeltaInsert;
      if deltaq == [] {
        if isNew {
          SetHwTop(false);
        }
        deltaq := [h];
        AloneInQueue(base, h);
        DeltaInsertIsInsert(base, [], h);
        IdsInsert([], h);
        assert Regular(deltaq);
      } else {
        QueueInsert(h, isNew);
      }
    }

    /** The part of timer_delta_q_insert for a queue that is not empty. */
    method QueueInsert(h: Timer, isNew: bool)
      requires deltaq != []
      modifies this`deltaq, this`outstanding, this`counter, this`base
      ensures base == old(base)
      ensures Running() == Insert(old(Running()), h.(delta := (if isNew then Now() else base) + h.delta))
      ensures old(Regular(deltaq)) ==> Regular(deltaq)
      ensures Ids(deltaq, true) == old(Ids(deltaq, true)) + IdsOf(h, true)
      ensures Now() == old(Now()) && (!isNew ==> outstanding == old(outstanding))
    {
      hide At, Ids, Insert, DeltaInsert, Regular;
      var hwCnt := outstanding + counter;
      var t := if isNew then h.(delta := h.delta + hwCnt) else h;
      DeltaInsertIsInsert(base, deltaq, t);
      IdsInsert(deltaq, t);
      InsertHead(deltaq, t);
      InsertKeepsRegular(base, deltaq, t);
      if t.delta < deltaq[0].delta {
        var next := deltaq[0].(delta := deltaq[0].delta - t.delta);
        if isNew {
          SetHwTop(true);
        }
        deltaq := [t, next] + deltaq[1..];
      } else {
        var r := Place(deltaq, t);
        deltaq := r;
      }
    }

    /** timer_remove_timer for the i-th timer of the queue. */
    method RemoveTimer(i: int)
      requires 0 <= i < |deltaq|
      modifies this`deltaq
      ensures deltaq == DeltaRemove(old(deltaq), i)
      ensures Running() == old(Running())[..i] + Shift(old(Running())[i + 1..], Lateness(old(deltaq)[i]))
    {
      hide At, Shift, Lateness;
      DeltaRemoveIsRemove(base, deltaq, i);
      var tt := deltaq[i];
      if i + 1 < |deltaq| && tt.delta > 0 {
        var next := deltaq[i + 1];
        deltaq := deltaq[i + 1 := next.(delta := next.delta + tt.delta)];
      }
      deltaq := deltaq[..i] + deltaq[i + 1..];
    }

    /** alloc_from_timer_pool. */
    method TakeFromPool(pid: int, tid: int) returns (t: Option<Timer>)
      modifies this`pool
      ensures t.Some? <==> old(Has(pool, pid, tid))
      ensures t.Some? ==> t.value == old(pool)[First(old(pool), pid, tid)]
      ensures pool == TakeOut(old(pool), pid, tid)
      ensures t.Some? ==> old(Ids(pool, true)) == Ids(pool, true) + IdsOf(t.value, true)
    {
      hide Ids, IdsOf, First;
      var i := Find(pool, pid, tid);
      if i == |pool| {
        return None;
      }
      IdsWithout(pool, i, true);
      t := Some(pool[i]);
      pool := pool[..i] + pool[i + 1..];
    }

    /** find_timer_in_periodic_pool. */
    method TakeFromPeriodic(pid: int, tid: int) returns (t: Option<Timer>)
      modifies this`periodic
      ensures t.Some? <==> old(Has(periodic, pid, tid))
      ensures t.Some? ==> t.value == old(periodic)[First(old(periodic), pid, tid)]
      ensures periodic == TakeOut(old(periodic), pid, tid)
      ensures t.Some? ==> old(Ids(periodic, true)) == Ids(periodic, true) + IdsOf(t.value, true)
    {
      hide Ids, IdsOf, First;
      var i := Find(periodic, pid, tid);
      if i == |periodic| {
        return None;
      }
      IdsWithout(periodic, i, true);
      t := Some(periodic[i]);
      periodic := periodic[..i] + periodic[i + 1..];
    }

    /** find_timer_block followed by timer_remove_timer. */
    method TakeRunningTimer(pid: int, tid: int) returns (t: Option<Timer>)
      modifies this`deltaq
      ensures old(Regular(deltaq)) ==> Regular(deltaq)
      ensures t.Some? <==> old(Has(deltaq, pid, tid))
      ensures t.Some? ==> t.value == old(deltaq)[First(old(deltaq), pid, tid)]
      ensures deltaq == TakeRunning(old(deltaq), pid, tid)
      ensures t.Some? ==> old(Ids(deltaq, true)) == Ids(deltaq, true) + IdsOf(t.value, true)
    {
      hide Ids, IdsOf, First, DeltaRemove, Regular;
      var i := Find(deltaq, pid, tid);
      if i == |deltaq| {
        return None;
      }
      if Regular(deltaq) {
        RemoveKeepsRegular(deltaq, i);
      }
      IdsRemove(deltaq, i);
      t := Some(deltaq[i]);
      RemoveTimer(i);
    }

    /** ker_timer_stop: the timer goes from the queue, or the periodic pool, to the end of timer_pool. */
    method Stop(pid: int, tid: int) returns (ok: bool)
      requires Lists()
      modifies this`deltaq, this`pool, this`periodic
      ensures old(Regular(deltaq)) ==> Regular(deltaq)
      ensures Lists()
      ensures ok <==> old(Has(deltaq, pid, tid)) || old(Has(periodic, pid, tid))
      ensures deltaq == TakeRunning(old(deltaq), pid, tid) && periodic == TakeOut(old(periodic), pid, tid)
      ensures !ok ==> pool == old(pool)
      ensures ok ==> pool == old(pool) + [ Active(old(deltaq), old(periodic), pid, tid) ]
    {
      hide Regular, Ids, IdsOf, First, DeltaRemove;
      NameOnce(deltaq, pool, periodic, prealloc, ids, pid, tid);
      var tt := TakeFromPeriodic(pid, tid);
      if tt.None? {
        tt := TakeRunningTimer(pid, tid);
        if tt.None? {
          return false;
        }
      }
      IdsAppend(pool, tt.value, true);
      pool := pool + [tt.value];
      return true;
    }

    /** ker_timer_start: a timer of timer_pool becomes due interval ticks from now, behind earlier and equal ones. */
    method Start(pid: int, tid: int, interval: int) returns (ok: bool)
      requires Lists()
      modifies this`deltaq, this`pool, this`outstanding, this`counter, this`base
      ensures old(Regular(deltaq)) ==> Regular(deltaq)
      ensures Lists() && Now() == old(Now())
      ensures ok <==> old(Has(pool, pid, tid))
      ensures pool == TakeOut(old(pool), pid, tid)
      ensures !ok ==> deltaq == old(deltaq) && base == old(base)
      ensures ok ==> var t := old(pool)[First(old(pool), pid, tid)];
                     Running() == Insert(old(Running()), t.(ticks := interval, delta := Now() + interval))
    {
      hide Regular, Ids, First, At, Insert;
      var tt := TakeFromPool(pid, tid);
      if tt.None? {
        return false;
      }
      DeltaQInsert(tt.value.(ticks := interval, delta := interval), true);
      return true;
    }

    /** The search of ker_timer_restart: the timer leaves the list that it is in. */
    method TakeAny(pid: int, tid: int) returns (t: Option<Timer>)
      requires Lists()
      modifies this`deltaq, this`pool, this`periodic
      ensures old(Regular(deltaq)) ==> Regular(deltaq)
      ensures t.Some? <==> Known(old(deltaq), old(periodic), old(pool), pid, tid)
      ensures t.Some? ==> t.value == Initialised(old(deltaq), old(periodic), old(pool), pid, tid)
      ensures deltaq == TakeRunning(old(deltaq), pid, tid)
      ensures periodic == TakeOut(old(periodic), pid, tid) && pool == TakeOut(old(pool), pid, tid)
      ensures t.None? ==> Lists()
      ensures t.Some? ==>
        Ids(deltaq, true) + Ids(pool, true) + Ids(periodic, true) + Ids(prealloc, false) + IdsOf(t.value, true) ==
          multiset(ids)
    {
      hide Regular, Ids, IdsOf, First, DeltaRemove;
      NameOnce(deltaq, pool, periodic, prealloc, ids, pid, tid);
      t := TakeFromPeriodic(pid, tid);
      if t.None? {
        t := TakeRunningTimer(pid, tid);
        if t.None? {
          t := TakeFromPool(pid, tid);
        }
      }
    }

    /** ker_timer_restart; an interval that is not positive stands for the one used last. */
    method Restart(pid: int, tid: int, interval: int) returns (r: Status)
      requires Lists()
      modifies this`deltaq, this`pool, this`periodic, this`outstanding, this`counter, this`base
      ensures old(Regular(deltaq)) ==> Regular(deltaq)
      ensures Lists() && Now() == old(Now())
      ensures r == Invalid <==> !Known(old(deltaq), old(periodic), old(pool), pid, tid)
      ensures r == Invalid ==>
        deltaq == old(deltaq) && pool == old(pool) && periodic == old(periodic) && base == old(base)
      ensures r != Invalid ==>
        var t := Initialised(old(deltaq), old(periodic), old(pool), pid, tid);
        var n := if interval <= 0 then t.ticks else interval;
        && periodic == TakeOut(old(periodic), pid, tid)
        && r == (if n < TIMER_MIN_INTERVAL then NotPermitted else Ok)
        && (r == NotPermitted ==>
              && deltaq == TakeRunning(old(deltaq), pid, tid) && pool == TakeOut(old(pool), pid, tid) + [t]
              && base == old(base))
        && (r == Ok ==>
              && pool == TakeOut(old(pool), pid, tid)
              && Running() == Insert(old(At(base, TakeRunning(deltaq, pid, tid))), t.(ticks := n, delta := Now() + n)))
    {
      hide Regular, Ids, At, Insert, Known, Initialised, TakeOut, TakeRunning;
      Unknown(deltaq, periodic, pool, pid, tid);
      var tt := TakeAny(pid, tid);
      if tt.None? {
        return Invalid;
      }
      var n := if interval <= 0 then tt.value.ticks else interval;
      if n < TIMER_MIN_INTERVAL {
        IdsAppend(pool, tt.value, true);
        pool := pool + [tt.value];
        return NotPermitted;
      }
      DeltaQInsert(tt.value.(ticks := n, delta := n), true);
      return Ok;
    }

    /** ker_timer_stop_and_release; freed is the block that goes back to the slab. */
    method StopAndRelease(pid: int, tid: int) returns (freed: Option<int>)
      requires Lists()
      modifies this`deltaq, this`pool, this`periodic, this`ids
      ensures old(Regular(deltaq)) ==> Regular(deltaq)
      ensures Lists()
      ensures freed.Some? <==> Known(old(deltaq), old(periodic), old(pool), pid, tid)
      ensures freed.None? ==> ids == old(ids) && deltaq == old(deltaq) && pool == old(pool) && periodic == old(periodic)
      ensures freed.Some? ==>
        && freed.value == Initialised(old(deltaq), old(periodic), old(pool), pid, tid).addr
        && ids == old(ids) - {Block(freed.value), Name(pid, tid)}
        && deltaq == TakeRunning(old(deltaq), pid, tid)
        && periodic == TakeOut(old(periodic), pid, tid) && pool == TakeOut(old(pool), pid, tid)
    {
      hide Regular, Ids, First, At, DeltaRemove;
      NameOnce(deltaq, pool, periodic, prealloc, ids, pid, tid);
      ghost var d0, p0, r0 := deltaq, pool, periodic;
      var stopped := Stop(pid, tid);
      if stopped {
        ghost var t := Active(d0, r0, pid, tid);
        LastHas(p0, t, pid, tid);
      }
      var tt := TakeFromPool(pid, tid);
      if tt.None? {
        return None;
      }
      FreeIds(deltaq, pool, periodic, prealloc, ids, tt.value);
      ids := ids - {Block(tt.value.addr), Name(pid, tid)};
      return Some(tt.value.addr);
    }

    /** alloc_from_preallocated_timer_pool. */
    method TakePreallocated(pid: int) returns (t: Option<Timer>)
      modifies this`prealloc
      ensures t.Some? <==> FirstOwned(old(prealloc), pid) < |old(prealloc)|
      ensures t.None? ==> prealloc == old(prealloc)
      ensures t.Some? ==> var i := FirstOwned(old(prealloc), pid);
                          t.value == old(prealloc)[i] && prealloc == Without(old(prealloc), i)
      ensures t.Some? ==>
        t.value.pid == pid && old(Ids(prealloc, false)) == Ids(prealloc, false) + IdsOf(t.value, false)
    {
      hide Ids;
      var i := 0;
      while i < |prealloc|
        invariant 0 <= i <= |prealloc|
        invariant forall j :: 0 <= j < i ==> prealloc[j].pid != pid
      {
        if prealloc[i].pid == pid {
          IdsWithout(prealloc, i, false);
          t := Some(prealloc[i]);
          prealloc := prealloc[..i] + prealloc[i + 1..];
          return;
        }
        i := i + 1;
      }
      return None;
    }

    /** timer_pre_alloc_block_init for every block of a successful timer_preallocate. */
    method Preallocate(pid: int, num: int, blocks: seq<int>) returns (r: Status)
      requires Lists() && |blocks| <= num
      requires forall i, j :: 0 <= i < j < |blocks| ==> blocks[i] != blocks[j]
      requires forall i :: 0 <= i < |blocks| ==> Block(blocks[i]) !in ids
      modifies this`prealloc, this`ids
      ensures Lists()
      ensures r == (if num > MAX_PRE_ALLOCATED_TIMERS then Invalid else if |blocks| < num then NoMemory else Ok)
      ensures r != Ok ==> prealloc == old(prealloc) && ids == old(ids)
      ensures r == Ok ==> prealloc == old(prealloc) + Blank(blocks, pid)
    {
      hide Ids;
      if num > MAX_PRE_ALLOCATED_TIMERS {
        return Invalid;
      }
      if |blocks| < num {
        return NoMemory;
      }
      var i := 0;
      while i < num
        invariant 0 <= i <= num && Lists()
        invariant prealloc == old(prealloc) + Blank(blocks[..i], pid)
        invariant forall j :: i <= j < num ==> Block(blocks[j]) !in ids
      {
        var h := Timer(blocks[i], pid, 0, false, false, 0, 0);
        IdsAppend(prealloc, h, false);
        AddIds(ids, {Block(blocks[i])});
        ids := ids + {Block(blocks[i])};
        prealloc := prealloc + [h];
        assert blocks[..i + 1][..i] == blocks[..i];
        i := i + 1;
      }
      assert blocks[..i] == blocks;
      return Ok;
    }

    /** timer_update_delta: the base moves up to the last hardware interrupt. */
    method UpdateDelta()
      modifies this`deltaq, this`outstanding, this`base
      ensures deltaq == DeltaUpdate(old(deltaq), old(outstanding))
      ensures outstanding == 0 && base == old(base + outstanding) && Now() == old(Now())
    {
      deltaq := Advance(deltaq, outstanding);
      base, outstanding := base + outstanding, 0;
    }

    /** One round of the firing loop of soft_interrupt, without the dispatch of the message. */
    method FireHead()
      requires Lists() && deltaq != [] && (!deltaq[0].oneShot ==> deltaq[0].ticks > 0)
      modifies this`deltaq, this`pool, this`periodic, this`timeouts
      ensures Lists() && deltaq == old(deltaq)[1..]
      ensures var h := old(deltaq)[0];
              && pool == old(pool) + (if h.oneShot then [h] else [])
              && periodic == old(periodic) + (if h.oneShot then [] else [h.(delta := NextPositive(h.delta, h.ticks))])
              && timeouts == old(timeouts) + [Timeout(h.pid, h.tid, !h.slow)]
    {
      hide Ids, NextPositive;
      var h := deltaq[0];
      PopIds(deltaq);
      deltaq := deltaq[1..];
      if h.oneShot {
        IdsAppend(pool, h, true);
        pool := pool + [h];
      } else {
        var d := MakePositive(h.delta, h.ticks);
        IdsAppend(periodic, h.(delta := d), true);
        periodic := periodic + [h.(delta := d)];
      }
      timeouts := timeouts + [Timeout(h.pid, h.tid, !h.slow)];
    }

    /** The firing loop of soft_interrupt, when no handler touches the timers meanwhile. */
    method FireDue(ghost abs: seq<Timer>) returns (ghost fin: seq<Timer>, ghost tos: seq<Timeout>)
      requires Lists() && periodic == [] && Due(base, deltaq) == abs && Sorted(abs) && PositivePeriods(abs)
      modifies this`deltaq, this`pool, this`periodic, this`timeouts
      ensures Lists() && Running() == abs[Expired(abs, base)..]
      ensures pool == old(pool) + fin && timeouts == old(timeouts) + tos
      ensures Firing(abs, Expired(abs, base), base, deltaq, fin, periodic, tos)
    {
      hide Due, At, Shift, Renewed, Timeouts, Expired, Ids, Only, Firing, NextPositive;
      ghost var k := 0;
      fin, tos := [], [];
      FireStart(abs, base, deltaq);
      while deltaq != [] && deltaq[0].delta <= 0
        invariant Lists() && Firing(abs, k, base, deltaq, fin, periodic, tos)
        invariant pool == old(pool) + fin && timeouts == old(timeouts) + tos
        decreases |deltaq|
      {
        ghost var h := deltaq[0];
        label L:
        FireStep(abs, k, base, deltaq, fin, periodic, tos);
        FireHead();
        assert (old(pool) + fin) + [h] == old(pool) + (fin + [h]) && (old(pool) + fin) + [] == old(pool) + fin;
        assert h.oneShot ==> old@L(periodic) + [] == old@L(periodic);
        fin := if h.oneShot then fin + [h] else fin;
        tos := tos + [Timeout(h.pid, h.tid, !h.slow)];
        k := k + 1;
      }
      FireEnd(abs, k, base, deltaq, fin, periodic, tos);
    }

    /** The periodic pool goes back into the queue. */
    method Requeue()
      requires Lists()
      modifies this`deltaq, this`periodic, this`outstanding, this`counter, this`base
      ensures Lists() && periodic == [] && base == old(base) && outstanding == old(outstanding) && Now() == old(Now())
      ensures Running() == InsertAll(old(Running()), Shift(old(periodic), base))
    {
      hide At, Shift, Ids, Insert, InsertAll;
      ghost var goal := InsertAll(Running(), Shift(periodic, base));
      while periodic != []
        invariant Lists() && base == old(base) && outstanding == old(outstanding) && Now() == old(Now())
        invariant InsertAll(Running(), Shift(periodic, base)) == goal
        decreases |periodic|
      {
        var h := periodic[0];
        InsertNext(Running(), periodic, base);
        PopIds(periodic);
        periodic := periodic[1..];
        DeltaQInsert(h, false);
      }
      InsertNone(Running(), base);
    }

    /** The first half of soft_interrupt: the queue is brought up to date and the due timers fire. */
    method UpdateAndFire() returns (ghost fin: seq<Timer>, ghost tos: seq<Timeout>)
      requires Lists() && periodic == [] && Regular(deltaq) && PositivePeriods(deltaq)
      modifies this`deltaq, this`pool, this`periodic, this`timeouts, this`outstanding, this`base
      ensures Lists() && Now() == old(Now()) && base == old(base + outstanding)
      ensures pool == old(pool) + fin && timeouts == old(timeouts) + tos
      ensures Running() == old(Running())[Expired(old(Running()), base)..]
      ensures Firing(old(Running()), Expired(old(Running()), base), base, deltaq, fin, periodic, tos)
    {
      hide At, OneEach, Expired, DeltaUpdate, Due, PositivePeriods, Regular, Sorted, Firing;
      ghost var abs := Running();
      UpdateKeepsDeadlines(base, deltaq, outstanding);
      OneEachUpdate(deltaq, pool, periodic, prealloc, ids, outstanding);
      RegularIsSorted(base, deltaq);
      PeriodsOf(base, deltaq);
      UpdateDelta();
      fin, tos := FireDue(abs);
    }

    /** soft_interrupt up to the setting of the hardware timer. */
    method Tick() returns (ghost fin: seq<Timer>, ghost tos: seq<Timeout>)
      requires Lists() && periodic == [] && Regular(deltaq) && PositivePeriods(deltaq)
      modifies this`deltaq, this`pool, this`periodic, this`timeouts, this`outstanding, this`counter, this`base
      ensures Lists() && periodic == [] && Now() == old(Now()) && base == old(base + outstanding)
      ensures pool == old(pool) + fin && timeouts == old(timeouts) + tos
      ensures Ticked(old(Running()), base, tos, fin, Running())
    {
      hide At, Shift, OneEach, InsertAll, Expired, PositivePeriods, Regular, Firing, Ticked;
      fin, tos := UpdateAndFire();
      FiringTicked(old(Running()), base, deltaq, fin, periodic, tos);
      Requeue();
    }

    /**
      soft_interrupt, when no handler touches the timers meanwhile: exactly the timers due by the new
      base have fired, in the order of their deadlines; no other deadline has moved; and every periodic
      timer is due again at its next instant.
     */
    method SoftInterrupt() returns (ghost fin: seq<Timer>, ghost tos: seq<Timeout>)
      requires Lists() && periodic == [] && Regular(deltaq) && PositivePeriods(deltaq)
      modifies this`deltaq, this`pool, this`periodic, this`timeouts, this`outstanding, this`counter, this`base
      ensures Lists() && periodic == [] && Regular(deltaq) && Now() == old(Now())
      ensures pool == old(pool) + fin && timeouts == old(timeouts) + tos
      ensures Ticked(old(Running()), old(base + outstanding), tos, fin, Running())
    {
      hide At, Ids, PositivePeriods, Regular, Sorted, Ticked;
      RegularIsSorted(base, deltaq);
      fin, tos := Tick();
      TickedSorted(old(Running()), base, tos, fin, Running());
      RegularIsSorted(base, deltaq);
      if deltaq != [] {
        var hwCnt := outstanding - counter;
        if deltaq[0].delta - hwCnt > 0 {
          SetHwTop(true);
        }
      } else {
        SetHwTop(false);
      }
    }

    /** ker_timer_init for a name in use: the timer is stopped if need be, and is the last one of timer_pool. */
    method Reinit(pid: int, tid: int, oneShot: bool, slow: bool) returns (found: bool)
      requires Lists()
      modifies this`deltaq, this`pool, this`periodic
      ensures old(Regular(deltaq)) ==> Regular(deltaq)
      ensures Lists()
      ensures found <==> Known(old(deltaq), old(periodic), old(pool), pid, tid)
      ensures deltaq == TakeRunning(old(deltaq), pid, tid) && periodic == TakeOut(old(periodic), pid, tid)
      ensures !found ==> pool == old(pool)
      ensures found ==>
        pool == TakeOut(old(pool), pid, tid) +
                [ Initialised(old(deltaq), old(periodic), old(pool), pid, tid).(oneShot := oneShot, slow := slow) ]
    {
      hide Regular, Ids, First, DeltaRemove;
      NameOnce(deltaq, pool, periodic, prealloc, ids, pid, tid);
      var tt := TakeFromPeriodic(pid, tid);
      if tt.None? {
        var i := Find(deltaq, pid, tid);
        if i < |deltaq| {
          var _ := Stop(pid, tid);
          var last := |pool| - 1;
          IdsReplace(pool, last, pool[last].(oneShot := oneShot, slow := slow), true);
          pool := pool[last := pool[last].(oneShot := oneShot, slow := slow)];
          return true;
        }
        tt := TakeFromPool(pid, tid);
        if tt.None? {
          return false;
        }
      }
      var t := tt.value.(oneShot := oneShot, slow := slow);
      IdsAppend(pool, t, true);
      pool := pool + [t];
      return true;
    }

    /** timer_remove_all on the delta queue. */
    method RemoveRunning(pid: int)
      modifies this`deltaq
      ensures Ids(deltaq, true) <= old(Ids(deltaq, true))
      ensures forall t :: t in deltaq ==> t.pid != pid
      ensures old(Regular(deltaq)) ==>
        Regular(deltaq) && Running() == Shift(Others(old(Running()), pid), Delay(old(deltaq), pid))
    {
      hide Ids, Regular, Clearing, At, Shift, Others, DeltaRemove;
      var i := 0;
      ghost var j, late, abs, regular := 0, Delay(deltaq, pid), Running(), Regular(deltaq);
      if regular {
        ClearingStart(base, deltaq, pid);
      }
      while i < |deltaq|
        invariant 0 <= i <= |deltaq|
        invariant Ids(deltaq, true) <= old(Ids(deltaq, true))
        invariant forall k :: 0 <= k < i ==> deltaq[k].pid != pid
        invariant regular ==> Clearing(abs, j, i, late, base, deltaq, pid)
        decreases |deltaq| - i
      {
        if regular {
          ClearingStep(abs, j, i, late, base, deltaq, pid);
        }
        if deltaq[i].pid == pid {
          IdsRemove(deltaq, i);
          RemovePrefix(deltaq, i);
          RemoveTimer(i);
        } else {
          i := i + 1;
        }
        j := j + 1;
      }
      if regular {
        ClearingEnd(abs, j, i, late, base, deltaq, pid);
        ClearingIsRegular(abs, j, i, late, base, deltaq, pid);
      }
    }

    /** timer_remove_all: no timer of pid is left in any list, and the others keep their order and deadlines. */
    method RemoveAll(pid: int)
      requires Lists()
      modifies this`deltaq, this`pool, this`prealloc, this`periodic, this`ids
      ensures Lists() && ids <= old(ids)
      ensures forall t :: t in deltaq ==> t.pid != pid
      ensures old(Regular(deltaq)) ==>
        Regular(deltaq) && Running() == Shift(Others(old(Running()), pid), Delay(old(deltaq), pid))
      ensures pool == Others(old(pool), pid) && prealloc == Others(old(prealloc), pid)
              && periodic == Others(old(periodic), pid)
    {
      hide Ids, Regular, At, Shift, Others;
      RemoveRunning(pid);
      OthersIds(pool, pid, true);
      OthersIds(prealloc, pid, false);
      OthersIds(periodic, pid, true);
      pool := RemoveOwned(pool, pid);
      prealloc := RemoveOwned(prealloc, pid);
      periodic := RemoveOwned(periodic, pid);
      RestIsOneEach(deltaq, pool, periodic, prealloc, ids);
      ids := Rest(deltaq, pool, periodic, prealloc, ids);
    }

    /** ker_timer_init: a name that is not in use gets a preallocated block of the module or a fresh one. */
    method Init(pid: int, tid: int, oneShot: bool, slow: bool, block: Option<int>) returns (ok: bool)
      requires Lists() && (block.Some? ==> Block(block.value) !in ids)
      modifies this`deltaq, this`pool, this`periodic, this`prealloc, this`ids
      ensures old(Regular(deltaq)) ==> Regular(deltaq)
      ensures Lists()
      ensures ok <==> || Known(old(deltaq), old(periodic), old(pool), pid, tid)
                      || FirstOwned(old(prealloc), pid) < |old(prealloc)| || block.Some?
      ensures deltaq == TakeRunning(old(deltaq), pid, tid) && periodic == TakeOut(old(periodic), pid, tid)
      ensures !ok ==> pool == old(pool) && prealloc == old(prealloc) && ids == old(ids)
      ensures ok ==> pool != [] && var t := pool[|pool| - 1];
                     && pool[..|pool| - 1] == TakeOut(old(pool), pid, tid)
                     && Is(t, pid, tid) && t.oneShot == oneShot && t.slow == slow
                     && ids == old(ids) + {Block(t.addr), Name(pid, tid)}
      ensures Known(old(deltaq), old(periodic), old(pool), pid, tid) ==> ids == old(ids) && prealloc == old(prealloc)
      ensures ok && !Known(old(deltaq), old(periodic), old(pool), pid, tid) ==>
        var i, t := FirstOwned(old(prealloc), pid), pool[|pool| - 1];
        if i < |old(prealloc)| then prealloc == Without(old(prealloc), i) && t.addr == old(prealloc)[i].addr
        else prealloc == old(prealloc) && Some(t.addr) == block
    {
      hide Regular, Ids, First, DeltaRemove;
      NameOnce(deltaq, pool, periodic, prealloc, ids, pid, tid);
      var found := Reinit(pid, tid, oneShot, slow);
      if found {
        IdAt(pool, |pool| - 1, true);
        KnownIds(deltaq, pool, periodic, prealloc, ids, pool[|pool| - 1]);
        return true;
      }
      var tt := TakePreallocated(pid);
      if tt.None? && block.None? {
        return false;
      }
      var t := if tt.Some? then tt.value.(tid := tid, oneShot := oneShot, slow := slow)
               else Timer(block.value, pid, tid, oneShot, slow, 0, 0);
      NewIds(deltaq, pool, periodic, prealloc, ids, t, tt.Some?);
      ids := ids + {Block(t.addr), Name(pid, tid)};
      pool := pool + [t];
      return true;
    }

    /** ker_permanent_timer_init with a block and a name that are not in use. */
    method PermanentInit(addr: int, pid: int, tid: int, oneShot: bool, slow: bool)
      requires Lists() && Block(addr) !in ids && Name(pid, tid) !in ids
      modifies this`pool, this`ids
      ensures Lists() && ids == old(ids) + {Block(addr), Name(pid, tid)}
      ensures pool == old(pool) + [Timer(addr, pid, tid, oneShot, slow, 0, 0)]
    {
      hide Ids;
      var t := Timer(addr, pid, tid, oneShot, slow, 0, 0);
      IdsAppend(pool, t, true);
      AddIds(ids, {Block(addr), Name(pid, tid)});
      ids := ids + {Block(addr), Name(pid, tid)};
      pool := pool + [t];
    }
  }

  /** The first block that is preallocated for the module, or the length of s. */
  function FirstOwned(s: seq<Timer>, pid: int): (i: nat)
    ensures i <= |s| && (i < |s| ==> s[i].pid == pid) && forall j :: 0 <= j < i ==> s[j].pid != pid
    decreases |s|
  {
    if s == [] || s[0].pid == pid then 0 else 1 + FirstOwned(s[1..], pid)
  }

  predicate Known(running: seq<Timer>, periodic: seq<Timer>, idle: seq<Timer>, pid: int, tid: int) {
    Has(running, pid, tid) || Has(periodic, pid, tid) || Has(idle, pid, tid)
  }

  /** The first i timers are up to date, and delta ticks are left for the others. */
  ghost predicate AdvancedTo(q: seq<Timer>, d: int, i: int, delta: int, r: seq<Timer>) {
    && 0 <= i <= |q| && r == DeltaUpdate(q, d)[..i] + q[i..]
    && DeltaUpdate(q, d)[i..] == DeltaUpdate(q[i..], delta)
  }

  lemma AdvanceStep(q: seq<Timer>, d: int, i: int, delta: int, r: seq<Timer>)
    requires AdvancedTo(q, d, i, delta, r) && i < |q|
    ensures |r| == |q| && r[i] == q[i]
    ensures var r' := r[i := q[i].(delta := q[i].delta - delta)];
            if q[i].delta >= delta then r' == DeltaUpdate(q, d) else AdvancedTo(q, d, i + 1, delta - q[i].delta, r')
  {
  }

  lemma AdvanceEnds(q: seq<Timer>, d: int, delta: int, r: seq<Timer>)
    ensures AdvancedTo(q, d, 0, d, q)
    ensures AdvancedTo(q, d, |q|, delta, r) ==> r == DeltaUpdate(q, d)
  {
  }

  /** The loop of timer_update_delta. */
  method Advance(q: seq<Timer>, d: int) returns (r: seq<Timer>)
    ensures r == DeltaUpdate(q, d)
  {
    hide DeltaUpdate, AdvancedTo;
    r := q;
    var i, delta := 0, d;
    AdvanceEnds(q, d, delta, r);
    while i < |q|
      invariant 0 <= i <= |q| && AdvancedTo(q, d, i, delta, r)
    {
      AdvanceStep(q, d, i, delta, r);
      var h := r[i];
      r := r[i := h.(delta := h.delta - delta)];
      if h.delta >= delta {
        return;
      }
      delta := delta - h.delta;
      i := i + 1;
    }
    AdvanceEnds(q, d, delta, r);
  }

  /** The loop that re-arms a periodic timer. */
  method MakePositive(d: int, ticks: int) returns (r: int)
    requires ticks > 0
    ensures r == NextPositive(d, ticks)
  {
    r := d;
    while r <= 0
      invariant NextPositive(r, ticks) == NextPositive(d, ticks)
      decreases -r
    {
      r := r + ticks;
    }
  }

  lemma FireStart(abs: seq<Timer>, base: int, q: seq<Timer>)
    requires Due(base, q) == abs && PositivePeriods(abs)
    ensures Firing(abs, 0, base, q, [], [], [])
  {
  }

  lemma Unknown(running: seq<Timer>, periodic: seq<Timer>, idle: seq<Timer>, pid: int, tid: int)
    ensures !Known(running, periodic, idle, pid, tid) ==>
      && TakeRunning(running, pid, tid) == running
      && TakeOut(periodic, pid, tid) == periodic && TakeOut(idle, pid, tid) == idle
  {
  }

  lemma OneEachUpdate(q: seq<Timer>, pool: seq<Timer>, periodic: seq<Timer>, prealloc: seq<Timer>,
                      ids: set<Id>, n: int)
    requires OneEach(q, pool, periodic, prealloc, ids)
    ensures OneEach(DeltaUpdate(q, n), pool, periodic, prealloc, ids)
  {
    IdsUpdate(q, n);
  }

  lemma FiringTicked(abs: seq<Timer>, now: int, q: seq<Timer>, fin: seq<Timer>, per: seq<Timer>,
                     tos: seq<Timeout>)
    requires Firing(abs, Expired(abs, now), now, q, fin, per, tos)
    ensures Ticked(abs, now, tos, fin, InsertAll(abs[Expired(abs, now)..], Shift(per, now)))
  {
    hide Due, Shift, Only, Renewed, Timeouts, InsertAll, Expired;
  }

  lemma InsertNext(s: seq<Timer>, per: seq<Timer>, base: int)
    requires per != []
    ensures InsertAll(s, Shift(per, base)) ==
            InsertAll(Insert(s, per[0].(delta := base + per[0].delta)), Shift(per[1..], base))
  {
  }

  lemma InsertNone(s: seq<Timer>, base: int)
    ensures InsertAll(s, Shift([], base)) == s
  {
  }

  lemma PopIds(s: seq<Timer>)
    requires s != []
    ensures Ids(s, true) == IdsOf(s[0], true) + Ids(s[1..], true)
  {
  }

  lemma PeriodsOf(base: int, q: seq<Timer>)
    requires PositivePeriods(q)
    ensures PositivePeriods(At(base, q))
  {
    hide At;
    forall t | t in At(base, q) && !t.oneShot
      ensures t.ticks > 0
    {
      var i :| 0 <= i < |q| && At(base, q)[i] == t;
      AtSame(base, q, i);
      assert q[i] in q;
    }
  }

  lemma TickedSorted(abs: seq<Timer>, now: int, tos: seq<Timeout>, idle: seq<Timer>, running: seq<Timer>)
    requires Ticked(abs, now, tos, idle, running) && Sorted(abs)
    ensures Sorted(running)
  {
    hide Expired, InsertAll, Renewed, Only, Shift, Sorted;
    var k := Expired(abs, now);
    TailInOrder(abs, k);
    InsertAllSorted(abs[k..], Renewed(Only(abs[..k], false), now));
  }

  /** The blocks of a preallocation; all but the owner is still to be set. */
  function Blank(blocks: seq<int>, pid: int): (r: seq<Timer>)
    ensures |r| == |blocks| && forall i :: 0 <= i < |r| ==> r[i].addr == blocks[i] && r[i].pid == pid
    decreases |blocks|
  {
    if blocks == [] then [] else
    var n := |blocks| - 1;
    Blank(blocks[..n], pid) + [Timer(blocks[n], pid, 0, false, false, 0, 0)]
  }

  lemma KeepsOthers(s: seq<Timer>, j: int, pid: int, r: seq<Timer>, i: int)
    requires 0 <= j <= |s| && r == Others(s[..j], pid) + s[j..] && i == |Others(s[..j], pid)| < |r|
    ensures j < |s| && r[i] == s[j]
    ensures s[j].pid == pid ==>
      i == |Others(s[..j + 1], pid)| && r[..i] + r[i + 1..] == Others(s[..j + 1], pid) + s[j + 1..]
    ensures s[j].pid != pid ==> i + 1 == |Others(s[..j + 1], pid)| && r == Others(s[..j + 1], pid) + s[j + 1..]
  {
    hide Others;
    var kept := Others(s[..j], pid);
    assert |r| == |kept| + |s| - j;
    assert s[..j + 1] == s[..j] + [s[j]];
    OthersAppend(s[..j], s[j], pid);
    assert kept + [] == kept;
    assert r[..i] == kept && r[i + 1..] == s[j + 1..];
  }

  /** timer_remove_all on one of the pools. */
  method RemoveOwned(s: seq<Timer>, pid: int) returns (r: seq<Timer>)
    ensures r == Others(s, pid)
  {
    hide Others;
    r := s;
    var i := 0;
    ghost var j := 0;
    NoOthers(pid);
    assert s[..0] == [] && s[0..] == s && [] + s == s;
    while i < |r|
      invariant 0 <= i <= |r| && 0 <= j <= |s|
      invariant i == |Others(s[..j], pid)| && r == Others(s[..j], pid) + s[j..]
      decreases |r| - i
    {
      KeepsOthers(s, j, pid, r, i);
      if r[i].pid == pid {
        r := r[..i] + r[i + 1..];
      } else {
        i := i + 1;
      }
      j := j + 1;
    }
    assert s[..j] == s && s[j..] == [];
  }

  lemma RemovePrefix(q: seq<Timer>, i: int)
    requires 0 <= i < |q|
    ensures |DeltaRemove(q, i)| == |q| - 1 && forall k :: 0 <= k < i ==> DeltaRemove(q, i)[k] == q[k]
  {
  }

  lemma ClearingIsRegular(abs: seq<Timer>, j: int, i: int, late: int, base: int, q: seq<Timer>, pid: int)
    requires Clearing(abs, j, i, late, base, q, pid)
    ensures Regular(q)
  {
  }

  /** The timer of that name, wherever it is. */
  function Initialised(running: seq<Timer>, periodic: seq<Timer>, idle: seq<Timer>, pid: int, tid: int): Timer
    requires Known(running, periodic, idle, pid, tid)
  {
    if Has(running, pid, tid) || Has(periodic, pid, tid) then Active(running, periodic, pid, tid)
    else idle[First(idle, pid, tid)]
  }

  lemma LastHas(s: seq<Timer>, t: Timer, pid: int, tid: int)
    requires !Has(s, pid, tid) && Is(t, pid, tid)
    ensures Has(s + [t], pid, tid) && First(s + [t], pid, tid) == |s| && TakeOut(s + [t], pid, tid) == s
  {
    hide First;
    assert (s + [t])[|s|] == t;
  }

  lemma AddIds(ids: set<Id>, more: set<Id>)
    requires ids !! more
    ensures multiset(ids + more) == multiset(ids) + multiset(more)
  {
  }

  lemma KnownIds(running: seq<Timer>, idle: seq<Timer>, periodic: seq<Timer>, prealloc: seq<Timer>,
                 ids: set<Id>, t: Timer)
    requires OneEach(running, idle, periodic, prealloc, ids) && IdsOf(t, true) <= Ids(idle, true)
    ensures ids + {Block(t.addr), Name(t.pid, t.tid)} == ids
  {
    hide Ids;
    assert Block(t.addr) in IdsOf(t, true) && Name(t.pid, t.tid) in IdsOf(t, true);
    assert Block(t.addr) in multiset(ids) && Name(t.pid, t.tid) in multiset(ids);
  }

  /** A name that is not in use is given to a block: one that has left the preallocated pool, or a new one. */
  lemma NewIds(running: seq<Timer>, idle: seq<Timer>, periodic: seq<Timer>, prealloc: seq<Timer>,
               ids: set<Id>, t: Timer, preallocated: bool)
    requires Name(t.pid, t.tid) !in ids
    requires preallocated ==>
      Ids(running, true) + Ids(idle, true) + Ids(periodic, true) + (Ids(prealloc, false) + multiset{Block(t.addr)}) ==
        multiset(ids)
    requires !preallocated ==> OneEach(running, idle, periodic, prealloc, ids) && Block(t.addr) !in ids
    ensures OneEach(running, idle + [t], periodic, prealloc, ids + {Block(t.addr), Name(t.pid, t.tid)})
  {
    hide Ids;
    IdsAppend(idle, t, true);
    var m := Ids(running, true) + Ids(idle, true) + Ids(periodic, true) + Ids(prealloc, false);
    if preallocated {
      assert multiset(ids) == m + multiset{Block(t.addr)};
      assert Block(t.addr) in multiset(ids);
      assert ids + {Block(t.addr), Name(t.pid, t.tid)} == ids + {Name(t.pid, t.tid)};
      AddIds(ids, {Name(t.pid, t.tid)});
    } else {
      AddIds(ids, {Block(t.addr), Name(t.pid, t.tid)});
    }
  }

  lemma FreeIds(running: seq<Timer>, idle: seq<Timer>, periodic: seq<Timer>, prealloc: seq<Timer>, ids: set<Id>,
                t: Timer)
    requires Ids(running, true) + (Ids(idle, true) + IdsOf(t, true)) + Ids(periodic, true) + Ids(prealloc, false) ==
             multiset(ids)
    ensures OneEach(running, idle, periodic, prealloc, ids - {Block(t.addr), Name(t.pid, t.tid)})
  {
    hide Ids;
    var m := Ids(running, true) + Ids(idle, true) + Ids(periodic, true) + Ids(prealloc, false);
    var gone := {Block(t.addr), Name(t.pid, t.tid)};
    assert multiset(ids) == m + IdsOf(t, true);
    assert IdsOf(t, true) == multiset(gone);
    assert multiset(ids - gone) == multiset(ids) - multiset(gone);
  }

  /** The timer of that name in the queue or the periodic pool. */
  function Active(running: seq<Timer>, periodic: seq<Timer>, pid: int, tid: int): Timer
    requires Has(running, pid, tid) || Has(periodic, pid, tid)
  {
    if Has(periodic, pid, tid) then periodic[First(periodic, pid, tid)] else running[First(running, pid, tid)]
  }

  lemma AloneInQueue(base: int, h: Timer)
    ensures DeltaInsert([], h) == [h] && At(base, []) == []
  {
  }

  lemma InsertKeepsRegular(base: int, q: seq<Timer>, h: Timer)
    ensures Regular(q) ==> Regular(DeltaInsert(q, h))
  {
    hide Regular, At, Insert, DeltaInsert, Sorted;
    RegularIsSorted(base, q);
    RegularIsSorted(base, DeltaInsert(q, h));
    DeltaInsertIsInsert(base, q, h);
    if Sorted(At(base, q)) {
      InsertKeeps(At(base, q), h.(delta := base + h.delta));
    }
  }

  lemma InsertHead(q: seq<Timer>, h: Timer)
    requires q != []
    ensures h.delta < q[0].delta ==> DeltaInsert(q, h) == [h, q[0].(delta := q[0].delta - h.delta)] + q[1..]
  {
  }

  lemma PlaceHere(q: seq<Timer>, t: Timer, i: int)
    requires 0 <= i < |q| && t.delta < q[i].delta
    ensures q[..i] + [t] + [q[i].(delta := q[i].delta - t.delta)] + q[i + 1..] == q[..i] + DeltaInsert(q[i..], t)
  {
    hide DeltaInsert;
    InsertHead(q[i..], t);
    assert q[i..][1..] == q[i + 1..];
    assert [t, q[i].(delta := q[i].delta - t.delta)] == [t] + [q[i].(delta := q[i].delta - t.delta)];
  }

  /** The search of timer_delta_q_insert: walk on while the deltas of the queue fit into the timer's. */
  method Place(q: seq<Timer>, h: Timer) returns (r: seq<Timer>)
    ensures r == DeltaInsert(q, h)
  {
    hide DeltaInsert;
    var i, t := 0, h;
    assert q[0..] == q && q[..0] + DeltaInsert(q, h) == DeltaInsert(q, h);
    while i < |q|
      invariant 0 <= i <= |q|
      invariant q[..i] + DeltaInsert(q[i..], t) == DeltaInsert(q, h)
    {
      if t.delta < q[i].delta {
        r := q[..i] + [t] + [q[i].(delta := q[i].delta - t.delta)] + q[i + 1..];
        PlaceHere(q, t, i);
        return;
      }
      DeltaInsertStep(q, h, i, t);
      t := t.(delta := t.delta - q[i].delta);
      i := i + 1;
    }
    r := q + [t];
    AloneInQueue(0, t);
    assert q[..|q|] == q && q[|q|..] == [];
  }

  /** What preallocation is for: a module with a preallocated block gets a timer when no memory is left. */
  method PreallocateThenInit(ts: Timers, pid: int, blocks: seq<int>, tid: int, oneShot: bool, slow: bool)
    returns (ok: bool)
    requires ts.Lists() && 0 < |blocks| <= MAX_PRE_ALLOCATED_TIMERS
    requires forall i, j :: 0 <= i < j < |blocks| ==> blocks[i] != blocks[j]
    requires forall i :: 0 <= i < |blocks| ==> Block(blocks[i]) !in ts.ids
    modifies ts
    ensures ok && ts.Lists()
  {
    hide Ids;
    var r := ts.Preallocate(pid, |blocks|, blocks);
    assert ts.prealloc[|ts.prealloc| - 1].pid == pid;
    ok := ts.Init(pid, tid, oneShot, slow, None);
  }
}
